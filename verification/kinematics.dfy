/** Affine-body kinematics.
    A body's pose is a 12-vector q holding the 3x4 matrix [F | t] row by row:
    q = [F00, F01, F02, t0, F10, F11, F12, t1, F20, F21, F22, t2].
    A point X of the undeformed mesh sits at x = F·X + t in the world, and the
    kinematic Jacobian J(X) is the 3x12 matrix with x = J(X)·q. */
module Kinematics {
  import opened LinAlg
  import opened Geometry

  /** A pose vector has exactly twelve entries. */
  ghost predicate IsPose(q: Vec) {
    |q| == 12
  }

  /** The deformation gradient F: entries 0-2, 4-6 and 8-10 of q. */
  function LinearPart(q: Vec): M3
    requires |q| == 12
  {
    M3(q[0], q[1], q[2], q[4], q[5], q[6], q[8], q[9], q[10])
  }

  /** The translation t: entries 3, 7 and 11 of q. */
  function Translation(q: Vec): V3
    requires |q| == 12
  {
    V3(q[3], q[7], q[11])
  }

  /** The pose vector of [F | t], flattened row-major. */
  function Pose(f: M3, t: V3): (q: Vec)
    ensures |q| == 12
  {
    [f.m00, f.m01, f.m02, t.x, f.m10, f.m11, f.m12, t.y, f.m20, f.m21, f.m22, t.z]
  }

  /** A 3x3 matrix placed in the F entries of a pose vector, zeros at 3, 7 and 11. */
  function Embed(m: M3): (q: Vec)
    ensures |q| == 12
  {
    Pose(m, V3(0.0, 0.0, 0.0))
  }

  /** Flattening and reading back the two parts are inverse to each other. */
  lemma PoseRoundTrip(f: M3, t: V3)
    ensures LinearPart(Pose(f, t)) == f && Translation(Pose(f, t)) == t
  {
  }

  lemma PoseOfParts(q: Vec)
    requires |q| == 12
    ensures Pose(LinearPart(q), Translation(q)) == q
  {
  }

  /** x = F·X + t. */
  function World(q: Vec, x: V3): (w: V3)
    requires |q| == 12
    ensures w == Add3(Apply(LinearPart(q), x), Translation(q))
  {
    V3(x.x * q[0] + x.y * q[1] + x.z * q[2] + q[3],
       x.x * q[4] + x.y * q[5] + x.z * q[6] + q[7],
       x.x * q[8] + x.y * q[9] + x.z * q[10] + q[11])
  }

  /** The homogeneous coordinates (X0, X1, X2, 1). */
  function Homogeneous(x: V3): (h: Vec)
    ensures |h| == 4 && h[3] == 1.0
  {
    [x.x, x.y, x.z, 1.0]
  }

  /** The 3x12 kinematic Jacobian, row r holding (X0, X1, X2, 1) at columns 4r..4r+3. */
  function Jacobian(x: V3): (j: Mat)
    ensures IsMatrix(j, 3, 12)
  {
    [[x.x, x.y, x.z, 1.0, 0.0, 0.0, 0.0, 0.0, 0.0, 0.0, 0.0, 0.0],
     [0.0, 0.0, 0.0, 0.0, x.x, x.y, x.z, 1.0, 0.0, 0.0, 0.0, 0.0],
     [0.0, 0.0, 0.0, 0.0, 0.0, 0.0, 0.0, 0.0, x.x, x.y, x.z, 1.0]]
  }

  /** Row r of J(X) is (X0, X1, X2, 1) at columns 4r..4r+3, zero elsewhere. */
  lemma JacobianRows(x: V3, r: nat)
    requires r < 3
    ensures Jacobian(x)[r] == Zeros(4 * r) + Homogeneous(x) + Zeros(8 - 4 * r)
  {
    var z := Zeros(4 * r) + Homogeneous(x) + Zeros(8 - 4 * r);
    assert |z| == 12;
    if r == 0 {
      assert z == Jacobian(x)[0];
    } else if r == 1 {
      assert z == Jacobian(x)[1];
    } else {
      assert z == Jacobian(x)[2];
    }
  }

  /** J(X)·q is the world position F·X + t. */
  lemma JacobianApply(x: V3, q: Vec)
    requires |q| == 12
    ensures MatVec(Jacobian(x), q) == ToSeq(World(q, x))
  {
    var j := Jacobian(x);
    var w := World(q, x);
    Dot12Expand(j[0], q);
    Dot12Expand(j[1], q);
    Dot12Expand(j[2], q);
    SeqOfV3(MatVec(j, q), w);
  }

  lemma SeqOfV3(s: seq<real>, v: V3)
    requires |s| == 3 && s[0] == v.x && s[1] == v.y && s[2] == v.z
    ensures s == ToSeq(v)
  {
  }

  /** J(X)·(q1 + q2) = J(X)·q1 + J(X)·q2 and J(X)·(s q) = s J(X)·q. */
  lemma JacobianLinear(x: V3, q1: Vec, q2: Vec, s: real)
    requires |q1| == 12 && |q2| == 12
    ensures MatVec(Jacobian(x), Add(q1, q2)) == Add(MatVec(Jacobian(x), q1), MatVec(Jacobian(x), q2))
    ensures MatVec(Jacobian(x), Scale(s, q1)) == Scale(s, MatVec(Jacobian(x), q1))
  {
    MatVecAdd(Jacobian(x), q1, q2);
    MatVecScale(Jacobian(x), s, q1);
  }

  /** q with τ added to its translation entries 3, 7 and 11. */
  function Translate(q: Vec, tau: V3): (r: Vec)
    requires |q| == 12
    ensures |r| == 12
  {
    q[3 := q[3] + tau.x][7 := q[7] + tau.y][11 := q[11] + tau.z]
  }

  /** Translating a pose keeps F and moves every world point by exactly τ. */
  lemma TranslateShiftsWorld(q: Vec, tau: V3, x: V3)
    requires |q| == 12
    ensures LinearPart(Translate(q, tau)) == LinearPart(q)
    ensures Translation(Translate(q, tau)) == Add3(Translation(q), tau)
    ensures World(Translate(q, tau), x) == Add3(World(q, x), tau)
  {
  }

  /** The identity pose [I | 0] maps every point to itself. */
  lemma IdentityPoseFixes(x: V3)
    ensures World(Pose(Identity(), V3(0.0, 0.0, 0.0)), x) == x
  {
  }

  /** The 3x3 matrix n Xᵀ. */
  function OuterV3(n: V3, x: V3): M3 {
    M3(n.x * x.x, n.x * x.y, n.x * x.z,
       n.y * x.x, n.y * x.y, n.y * x.z,
       n.z * x.x, n.z * x.y, n.z * x.z)
  }

  /** Jᵀn: block r holds (n_r X0, n_r X1, n_r X2, n_r), that is the pose [n Xᵀ | n]. */
  function JacobianTransposeApply(x: V3, n: V3): (u: Vec)
    ensures |u| == 12
  {
    Pose(OuterV3(n, x), n)
  }

  /** ⟨Pose(M, t), q⟩ splits into ⟨M, F(q)⟩ + t·t(q). */
  lemma PoseDot(m: M3, t: V3, q: Vec)
    requires |q| == 12
    ensures Dot(Pose(m, t), q) == Frob(m, LinearPart(q)) + Dot3(t, Translation(q))
  {
    Dot12Expand(Pose(m, t), q);
  }

  lemma OuterFrob(n: V3, x: V3, f: M3, t: V3)
    ensures Frob(OuterV3(n, x), f) + Dot3(n, t) == Dot3(n, Add3(Apply(f, x), t))
  {
    OuterFrobRow0(n, x, f, t);
    OuterFrobRow1(n, x, f, t);
    OuterFrobRow2(n, x, f, t);
    FrobDotRows(n, OuterV3(n, x), f, t, Add3(Apply(f, x), t));
  }

  lemma OuterFrobRow0(n: V3, x: V3, f: M3, t: V3)
    ensures var o, w := OuterV3(n, x), Add3(Apply(f, x), t);
      o.m00 * f.m00 + o.m01 * f.m01 + o.m02 * f.m02 + n.x * t.x == n.x * w.x
  {
    var o, w := OuterV3(n, x), Add3(Apply(f, x), t);
    calc {
      o.m00 * f.m00 + o.m01 * f.m01 + o.m02 * f.m02 + n.x * t.x;
    ==
      (n.x * x.x) * f.m00 + (n.x * x.y) * f.m01 + (n.x * x.z) * f.m02 + n.x * t.x;
    == { OuterRow(n.x, x, f.m00, f.m01, f.m02, t.x); }
      n.x * (f.m00 * x.x + f.m01 * x.y + f.m02 * x.z + t.x);
    ==
      n.x * w.x;
    }
  }

  lemma OuterFrobRow1(n: V3, x: V3, f: M3, t: V3)
    ensures var o, w := OuterV3(n, x), Add3(Apply(f, x), t);
      o.m10 * f.m10 + o.m11 * f.m11 + o.m12 * f.m12 + n.y * t.y == n.y * w.y
  {
    var o, w := OuterV3(n, x), Add3(Apply(f, x), t);
    calc {
      o.m10 * f.m10 + o.m11 * f.m11 + o.m12 * f.m12 + n.y * t.y;
    ==
      (n.y * x.x) * f.m10 + (n.y * x.y) * f.m11 + (n.y * x.z) * f.m12 + n.y * t.y;
    == { OuterRow(n.y, x, f.m10, f.m11, f.m12, t.y); }
      n.y * (f.m10 * x.x + f.m11 * x.y + f.m12 * x.z + t.y);
    ==
      n.y * w.y;
    }
  }

  lemma OuterFrobRow2(n: V3, x: V3, f: M3, t: V3)
    ensures var o, w := OuterV3(n, x), Add3(Apply(f, x), t);
      o.m20 * f.m20 + o.m21 * f.m21 + o.m22 * f.m22 + n.z * t.z == n.z * w.z
  {
    var o, w := OuterV3(n, x), Add3(Apply(f, x), t);
    calc {
      o.m20 * f.m20 + o.m21 * f.m21 + o.m22 * f.m22 + n.z * t.z;
    ==
      (n.z * x.x) * f.m20 + (n.z * x.y) * f.m21 + (n.z * x.z) * f.m22 + n.z * t.z;
    == { OuterRow(n.z, x, f.m20, f.m21, f.m22, t.z); }
      n.z * (f.m20 * x.x + f.m21 * x.y + f.m22 * x.z + t.z);
    ==
      n.z * w.z;
    }
  }

  /** One row of OuterFrob, over plain reals: Σ_c (n_r X_c) f_rc + n_r t_r = n_r (f_r·X + t_r). */
  lemma OuterRow(nr: real, x: V3, a: real, b: real, c: real, tr: real)
    ensures (nr * x.x) * a + (nr * x.y) * b + (nr * x.z) * c + nr * tr == nr * (a * x.x + b * x.y + c * x.z + tr)
  {
  }

  /** Summing the three row identities. */
  lemma FrobDotRows(n: V3, o: M3, f: M3, t: V3, w: V3)
    requires o.m00 * f.m00 + o.m01 * f.m01 + o.m02 * f.m02 + n.x * t.x == n.x * w.x
    requires o.m10 * f.m10 + o.m11 * f.m11 + o.m12 * f.m12 + n.y * t.y == n.y * w.y
    requires o.m20 * f.m20 + o.m21 * f.m21 + o.m22 * f.m22 + n.z * t.z == n.z * w.z
    ensures Frob(o, f) + Dot3(n, t) == Dot3(n, w)
  {
  }

  /** (Jᵀn)·q = n·(J q): the normal component of the world point is linear in q. */
  lemma NormalComponent(x: V3, n: V3, q: Vec)
    requires |q| == 12
    ensures Dot(JacobianTransposeApply(x, n), q) == Dot3(n, World(q, x))
  {
    PoseDot(OuterV3(n, x), n, q);
    OuterFrob(n, x, LinearPart(q), Translation(q));
  }

  /** Jᵀn is the transpose of J(X) applied to n: (Jᵀn)·q = n·(J(X)·q) for every q. */
  lemma JacobianTransposeAdjoint(x: V3, n: V3, q: Vec)
    requires |q| == 12
    ensures Dot(JacobianTransposeApply(x, n), q) == Dot(ToSeq(n), MatVec(Jacobian(x), q))
  {
    NormalComponent(x, n, q);
    JacobianApply(x, q);
    Dot3Expand(ToSeq(n), ToSeq(World(q, x)));
  }

  /** The translation entries of Jᵀn are n itself, whatever the point. */
  lemma JacobianTransposeTranslation(x: V3, n: V3)
    ensures var u := JacobianTransposeApply(x, n); u[3] == n.x && u[7] == n.y && u[11] == n.z
  {
  }

  /** ⟨Embed(M), δ⟩ = ⟨M, F(δ)⟩: an embedded matrix only sees the F entries. */
  lemma EmbedDot(m: M3, d: Vec)
    requires |d| == 12
    ensures Dot(Embed(m), d) == Frob(m, LinearPart(d))
  {
    PoseDot(m, V3(0.0, 0.0, 0.0), d);
  }

  /** Entry (r, c) of J(X) is X[c mod 4] (with X[3] = 1) when c lies in block r, else 0. */
  lemma JacobianEntries(x: V3)
    ensures forall r, c :: 0 <= r < 3 && 0 <= c < 12 ==>
              Jacobian(x)[r][c] == (if c / 4 == r then Homogeneous(x)[c % 4] else 0.0)
  {
    var j, h := Jacobian(x), Homogeneous(x);
    forall r, c | 0 <= r < 3 && 0 <= c < 12
      ensures j[r][c] == (if c / 4 == r then h[c % 4] else 0.0)
    {
      if c == 0 {} else if c == 1 {} else if c == 2 {} else if c == 3 {}
      else if c == 4 {} else if c == 5 {} else if c == 6 {} else if c == 7 {}
      else if c == 8 {} else if c == 9 {} else if c == 10 {} else {}
    }
  }

  /** The 12x12 matrix J(X)ᵀJ(X): entry (i, k) is Σ_r J[r][i]·J[r][k]. */
  function JacobianGram(x: V3): (g: Mat)
    ensures IsMatrix(g, 12, 12)
  {
    var j := Jacobian(x);
    seq(12, i requires 0 <= i < 12 => seq(12, k requires 0 <= k < 12 =>
      j[0][i] * j[0][k] + j[1][i] * j[1][k] + j[2][i] * j[2][k]))
  }

  /** Entry (i, k) of the block-diagonal matrix with three copies of h hᵀ on the diagonal. */
  function BlockDiagonalEntry(h: Vec, i: nat, k: nat): real
    requires |h| == 4
  {
    if i / 4 == k / 4 then h[i % 4] * h[k % 4] else 0.0
  }

  /** J(X)ᵀJ(X) is block-diagonal with three equal 4x4 blocks h hᵀ, h = (X0, X1, X2, 1). */
  lemma JacobianGramBlocks(x: V3)
    ensures forall i, k :: 0 <= i < 12 && 0 <= k < 12 ==>
              JacobianGram(x)[i][k] == BlockDiagonalEntry(Homogeneous(x), i, k)
  {
    var j, h := Jacobian(x), Homogeneous(x);
    JacobianEntries(x);
    forall i, k | 0 <= i < 12 && 0 <= k < 12
      ensures JacobianGram(x)[i][k] == BlockDiagonalEntry(h, i, k)
    {
      var a, b := h[i % 4], h[k % 4];
      if i / 4 == 0 {
        assert j[0][i] == a && j[1][i] == 0.0 && j[2][i] == 0.0;
      } else if i / 4 == 1 {
        assert j[0][i] == 0.0 && j[1][i] == a && j[2][i] == 0.0;
      } else {
        assert j[0][i] == 0.0 && j[1][i] == 0.0 && j[2][i] == a;
      }
      if k / 4 == 0 {
        assert j[0][k] == b && j[1][k] == 0.0 && j[2][k] == 0.0;
      } else if k / 4 == 1 {
        assert j[0][k] == 0.0 && j[1][k] == b && j[2][k] == 0.0;
      } else {
        assert j[0][k] == 0.0 && j[1][k] == 0.0 && j[2][k] == b;
      }
    }
  }
}
