/** Dense real vectors and matrices as sequences.
    A vector is a `seq<real>`; a matrix is a sequence of rows. Every product in the
    simulator (J(X)·q, Jᵀn, the 12x12 blocks acting on a 12-vector) is expressed
    with the few operations here, and the algebraic facts the physics proofs lean on
    (bilinearity of the dot product, the quadratic form of an outer product,
    transposition) are proved once, by induction on the length. */
module LinAlg {

  type Vec = seq<real>
  type Mat = seq<seq<real>>

  function Zeros(n: nat): (z: Vec)
    ensures |z| == n
    ensures forall i :: 0 <= i < n ==> z[i] == 0.0
  {
    seq(n, i => 0.0)
  }

  function Add(u: Vec, v: Vec): (w: Vec)
    requires |u| == |v|
    ensures |w| == |u|
    ensures forall i :: 0 <= i < |w| ==> w[i] == u[i] + v[i]
  {
    seq(|u|, i requires 0 <= i < |u| => u[i] + v[i])
  }

  function Sub(u: Vec, v: Vec): (w: Vec)
    requires |u| == |v|
    ensures |w| == |u|
    ensures forall i :: 0 <= i < |w| ==> w[i] == u[i] - v[i]
  {
    seq(|u|, i requires 0 <= i < |u| => u[i] - v[i])
  }

  function Scale(s: real, v: Vec): (w: Vec)
    ensures |w| == |v|
    ensures forall i :: 0 <= i < |w| ==> w[i] == s * v[i]
  {
    seq(|v|, i requires 0 <= i < |v| => s * v[i])
  }

  // Regrouping products. Each helper states one regrouping over plain reals, so a caller
  // whose factors are entries of vectors or matrices only matches terms and adds.

  /** (s·x)·y = s·(x·y). */
  lemma ScaledProduct(s: real, x: real, y: real, sx: real, xy: real)
    requires sx == s * x && xy == x * y
    ensures sx * y == s * xy
  {
  }

  /** x·(s·y) = s·(x·y). */
  lemma ProductScaled(s: real, x: real, y: real, sy: real, xy: real)
    requires sy == s * y && xy == x * y
    ensures x * sy == s * xy
  {
  }

  /** Σ v[i], summed from the front. */
  function Sum(v: Vec): real
    decreases |v|
  {
    if |v| == 0 then 0.0 else v[0] + Sum(v[1..])
  }

  /** The entrywise product of two vectors. */
  function Hadamard(u: Vec, v: Vec): (w: Vec)
    requires |u| == |v|
    ensures |w| == |u|
    ensures forall i :: 0 <= i < |w| ==> w[i] == u[i] * v[i]
  {
    seq(|u|, i requires 0 <= i < |u| => u[i] * v[i])
  }

  /** Σ u[i]·v[i]. */
  function Dot(u: Vec, v: Vec): real
    requires |u| == |v|
  {
    Sum(Hadamard(u, v))
  }

  ghost predicate IsMatrix(m: Mat, rows: nat, cols: nat) {
    |m| == rows && forall i :: 0 <= i < rows ==> |m[i]| == cols
  }

  function MatVec(m: Mat, v: Vec): (w: Vec)
    requires forall i :: 0 <= i < |m| ==> |m[i]| == |v|
    ensures |w| == |m|
    ensures forall i :: 0 <= i < |m| ==> w[i] == Dot(m[i], v)
  {
    seq(|m|, i requires 0 <= i < |m| => Dot(m[i], v))
  }

  /** The transpose of a `rows x cols` matrix, as a `cols x rows` matrix. */
  function Transpose(m: Mat, cols: nat): (t: Mat)
    requires IsMatrix(m, |m|, cols)
    ensures IsMatrix(t, cols, |m|)
    ensures forall i, j :: 0 <= i < cols && 0 <= j < |m| ==> t[i][j] == m[j][i]
  {
    seq(cols, i requires 0 <= i < cols => seq(|m|, j requires 0 <= j < |m| => m[j][i]))
  }

  /** The outer product u vᵀ. */
  function Outer(u: Vec, v: Vec): (m: Mat)
    ensures IsMatrix(m, |u|, |v|)
    ensures forall i, j :: 0 <= i < |u| && 0 <= j < |v| ==> m[i][j] == u[i] * v[j]
  {
    seq(|u|, i requires 0 <= i < |u| => Scale(u[i], v))
  }

  function MatScale(s: real, m: Mat): (r: Mat)
    ensures |r| == |m|
    ensures forall i :: 0 <= i < |m| ==> r[i] == Scale(s, m[i])
  {
    seq(|m|, i requires 0 <= i < |m| => Scale(s, m[i]))
  }

  function MatAdd(a: Mat, b: Mat): (r: Mat)
    requires |a| == |b|
    requires forall i :: 0 <= i < |a| ==> |a[i]| == |b[i]|
    ensures |r| == |a|
    ensures forall i :: 0 <= i < |a| ==> r[i] == Add(a[i], b[i])
  {
    seq(|a|, i requires 0 <= i < |a| => Add(a[i], b[i]))
  }

  function ZeroMat(rows: nat, cols: nat): (z: Mat)
    ensures IsMatrix(z, rows, cols)
    ensures forall i, j :: 0 <= i < rows && 0 <= j < cols ==> z[i][j] == 0.0
  {
    seq(rows, i => Zeros(cols))
  }

  ghost predicate Symmetric(m: Mat, n: nat) {
    IsMatrix(m, n, n) && forall i, j :: 0 <= i < n && 0 <= j < n ==> m[i][j] == m[j][i]
  }

  /** The bilinear form xᵀ M y. */
  function Bilinear(m: Mat, x: Vec, y: Vec): real
    requires |m| == |x|
    requires forall i :: 0 <= i < |m| ==> |m[i]| == |y|
  {
    Dot(x, MatVec(m, y))
  }

  // ---------------------------------------------------------------------------
  // Algebra of sums and of the dot product

  lemma {:induction false} SumAdd(a: Vec, b: Vec)
    requires |a| == |b|
    ensures Sum(Add(a, b)) == Sum(a) + Sum(b)
    decreases |a|
  {
    if |a| > 0 {
      assert Add(a, b)[1..] == Add(a[1..], b[1..]);
      SumAdd(a[1..], b[1..]);
    }
  }

  lemma {:induction false} SumSub(a: Vec, b: Vec)
    requires |a| == |b|
    ensures Sum(Sub(a, b)) == Sum(a) - Sum(b)
    decreases |a|
  {
    if |a| > 0 {
      assert Sub(a, b)[1..] == Sub(a[1..], b[1..]);
      SumSub(a[1..], b[1..]);
    }
  }

  lemma {:induction false} SumScale(s: real, a: Vec)
    ensures Sum(Scale(s, a)) == s * Sum(a)
    decreases |a|
  {
    if |a| > 0 {
      forall i | 0 <= i < |a| - 1
        ensures Scale(s, a)[1..][i] == Scale(s, a[1..])[i]
      {
        assert Scale(s, a)[1..][i] == Scale(s, a)[i + 1];
      }
      assert Scale(s, a)[1..] == Scale(s, a[1..]);
      SumScale(s, a[1..]);
      Distribute(s, a[0], Sum(a[1..]));
    }
  }

  lemma Distribute(s: real, x: real, y: real)
    ensures s * (x + y) == s * x + s * y
  {
  }

  lemma {:induction false} SumZeros(n: nat)
    ensures Sum(Zeros(n)) == 0.0
    decreases n
  {
    if n > 0 {
      assert Zeros(n)[1..] == Zeros(n - 1);
      SumZeros(n - 1);
    }
  }

  /** A sum over a concatenation splits. */
  lemma {:induction false} SumConcat(a: Vec, b: Vec)
    ensures Sum(a + b) == Sum(a) + Sum(b)
    decreases |a|
  {
    if |a| == 0 {
      assert a + b == b;
    } else {
      assert (a + b)[1..] == a[1..] + b;
      SumConcat(a[1..], b);
    }
  }

  /** A sum of non-negative terms is non-negative. */
  lemma {:induction false} SumNonNegative(a: Vec)
    requires forall i :: 0 <= i < |a| ==> a[i] >= 0.0
    ensures Sum(a) >= 0.0
    decreases |a|
  {
    if |a| > 0 {
      assert forall i :: 0 <= i < |a| - 1 ==> a[1..][i] == a[i + 1];
      SumNonNegative(a[1..]);
    }
  }

  /** One step of unfolding `Sum` on suffixes. */
  lemma SumStep(a: Vec, k: nat)
    requires k < |a|
    ensures Sum(a[k..]) == a[k] + Sum(a[k + 1..])
  {
    assert a[k..][1..] == a[k + 1..];
  }

  lemma Sum3Expand(a: Vec)
    requires |a| == 3
    ensures Sum(a) == a[0] + a[1] + a[2]
  {
    assert a[0..] == a;
    SumStep(a, 0); SumStep(a, 1); SumStep(a, 2);
  }

  lemma Sum4Expand(a: Vec)
    requires |a| == 4
    ensures Sum(a) == a[0] + a[1] + a[2] + a[3]
  {
    assert a[0..] == a;
    SumStep(a, 0); SumStep(a, 1); SumStep(a, 2); SumStep(a, 3);
  }

  lemma Sum12Expand(a: Vec)
    requires |a| == 12
    ensures Sum(a) == a[0] + a[1] + a[2] + a[3] + a[4] + a[5]
                    + a[6] + a[7] + a[8] + a[9] + a[10] + a[11]
  {
    assert a[0..] == a;
    SumStep(a, 0); SumStep(a, 1); SumStep(a, 2); SumStep(a, 3);
    SumStep(a, 4); SumStep(a, 5); SumStep(a, 6); SumStep(a, 7);
    SumStep(a, 8); SumStep(a, 9); SumStep(a, 10); SumStep(a, 11);
  }

  /** Summation is order-independent: any rearrangement of the terms has the same sum.
      This is what makes the atomic-add reductions of the kernels deterministic in value. */
  lemma {:induction false} SumPermutation(a: Vec, b: Vec)
    requires multiset(a) == multiset(b)
    ensures Sum(a) == Sum(b)
    decreases |a|
  {
    if |a| == 0 {
      assert |multiset(a)| == |a| == 0;
      assert |b| == |multiset(b)| == 0;
    } else {
      var x := a[0];
      assert x in multiset(b);
      var k :| 0 <= k < |b| && b[k] == x;
      var rest := b[..k] + b[k + 1..];
      RemoveAt(a, b, k);
      SumPermutation(a[1..], rest);
      assert Sum(a) == x + Sum(a[1..]);
      assert b == b[..k] + b[k..];
      SumConcat(b[..k], b[k..]);
      SumStep(b, k);
      SumConcat(b[..k], b[k + 1..]);
    }
  }

  /** Removing the first element of `a` and an equal element of `b` keeps the two
      sequences permutations of each other. */
  lemma RemoveAt(a: Vec, b: Vec, k: nat)
    requires multiset(a) == multiset(b)
    requires |a| > 0 && k < |b| && b[k] == a[0]
    ensures multiset(a[1..]) == multiset(b[..k] + b[k + 1..])
  {
    assert a == [a[0]] + a[1..];
    assert b == b[..k] + [b[k]] + b[k + 1..];
    assert multiset(a) == multiset{a[0]} + multiset(a[1..]);
    assert multiset(b) == multiset(b[..k]) + multiset{b[k]} + multiset(b[k + 1..]);
    assert multiset(b[..k] + b[k + 1..]) == multiset(b[..k]) + multiset(b[k + 1..]);
    assert multiset(a[1..]) == multiset(a) - multiset{a[0]};
    assert multiset(b[..k]) + multiset(b[k + 1..]) == multiset(b) - multiset{b[k]};
  }

  lemma DotComm(u: Vec, v: Vec)
    requires |u| == |v|
    ensures Dot(u, v) == Dot(v, u)
  {
    forall i | 0 <= i < |u|
      ensures Hadamard(u, v)[i] == Hadamard(v, u)[i]
    {
    }
    assert Hadamard(u, v) == Hadamard(v, u);
  }

  lemma DotAddRight(u: Vec, v: Vec, w: Vec)
    requires |u| == |v| == |w|
    ensures Dot(u, Add(v, w)) == Dot(u, v) + Dot(u, w)
  {
    forall i | 0 <= i < |u|
      ensures Hadamard(u, Add(v, w))[i] == Add(Hadamard(u, v), Hadamard(u, w))[i]
    {
    }
    assert Hadamard(u, Add(v, w)) == Add(Hadamard(u, v), Hadamard(u, w));
    SumAdd(Hadamard(u, v), Hadamard(u, w));
  }

  lemma DotSubRight(u: Vec, v: Vec, w: Vec)
    requires |u| == |v| == |w|
    ensures Dot(u, Sub(v, w)) == Dot(u, v) - Dot(u, w)
  {
    forall i | 0 <= i < |u|
      ensures Hadamard(u, Sub(v, w))[i] == Sub(Hadamard(u, v), Hadamard(u, w))[i]
    {
    }
    assert Hadamard(u, Sub(v, w)) == Sub(Hadamard(u, v), Hadamard(u, w));
    SumSub(Hadamard(u, v), Hadamard(u, w));
  }

  lemma DotScaleRight(u: Vec, s: real, v: Vec)
    requires |u| == |v|
    ensures Dot(u, Scale(s, v)) == s * Dot(u, v)
  {
    calc {
      Dot(u, Scale(s, v));
    ==
      Sum(Hadamard(u, Scale(s, v)));
    == { HadamardScaleRight(u, s, v); }
      Sum(Scale(s, Hadamard(u, v)));
    == { SumScale(s, Hadamard(u, v)); }
      s * Dot(u, v);
    }
  }

  lemma HadamardScaleRight(u: Vec, s: real, v: Vec)
    requires |u| == |v|
    ensures Hadamard(u, Scale(s, v)) == Scale(s, Hadamard(u, v))
  {
    forall i | 0 <= i < |u|
      ensures Hadamard(u, Scale(s, v))[i] == Scale(s, Hadamard(u, v))[i]
    {
      ProductScaled(s, u[i], v[i], Scale(s, v)[i], Hadamard(u, v)[i]);
    }
  }

  lemma DotAddLeft(u: Vec, v: Vec, w: Vec)
    requires |u| == |v| == |w|
    ensures Dot(Add(u, v), w) == Dot(u, w) + Dot(v, w)
  {
    forall i | 0 <= i < |u|
      ensures Hadamard(Add(u, v), w)[i] == Add(Hadamard(u, w), Hadamard(v, w))[i]
    {
    }
    assert Hadamard(Add(u, v), w) == Add(Hadamard(u, w), Hadamard(v, w));
    SumAdd(Hadamard(u, w), Hadamard(v, w));
  }

  lemma DotScaleLeft(s: real, u: Vec, v: Vec)
    requires |u| == |v|
    ensures Dot(Scale(s, u), v) == s * Dot(u, v)
  {
    calc {
      Dot(Scale(s, u), v);
    ==
      Sum(Hadamard(Scale(s, u), v));
    == { HadamardScaleLeft(s, u, v); }
      Sum(Scale(s, Hadamard(u, v)));
    == { SumScale(s, Hadamard(u, v)); }
      s * Dot(u, v);
    }
  }

  lemma HadamardScaleLeft(s: real, u: Vec, v: Vec)
    requires |u| == |v|
    ensures Hadamard(Scale(s, u), v) == Scale(s, Hadamard(u, v))
  {
    forall i | 0 <= i < |u|
      ensures Hadamard(Scale(s, u), v)[i] == Scale(s, Hadamard(u, v))[i]
    {
      ScaledProduct(s, u[i], v[i], Scale(s, u)[i], Hadamard(u, v)[i]);
    }
  }

  lemma DotZeros(u: Vec)
    ensures Dot(u, Zeros(|u|)) == 0.0
  {
    forall i | 0 <= i < |u|
      ensures Hadamard(u, Zeros(|u|))[i] == Zeros(|u|)[i]
    {
    }
    assert Hadamard(u, Zeros(|u|)) == Zeros(|u|);
    SumZeros(|u|);
  }

  /** A dot product over a concatenation splits into the two halves. */
  lemma DotConcat(a1: Vec, a2: Vec, b1: Vec, b2: Vec)
    requires |a1| == |b1| && |a2| == |b2|
    ensures Dot(a1 + a2, b1 + b2) == Dot(a1, b1) + Dot(a2, b2)
  {
    var l := Hadamard(a1 + a2, b1 + b2);
    var r := Hadamard(a1, b1) + Hadamard(a2, b2);
    forall i | 0 <= i < |l|
      ensures l[i] == r[i]
    {
      if i < |a1| {
        assert (a1 + a2)[i] == a1[i] && (b1 + b2)[i] == b1[i];
      } else {
        assert (a1 + a2)[i] == a2[i - |a1|] && (b1 + b2)[i] == b2[i - |a1|];
      }
    }
    assert l == r;
    SumConcat(Hadamard(a1, b1), Hadamard(a2, b2));
  }

  /** A length-3 dot product written out. */
  lemma Dot3Expand(u: Vec, v: Vec)
    requires |u| == |v| == 3
    ensures Dot(u, v) == u[0] * v[0] + u[1] * v[1] + u[2] * v[2]
  {
    Sum3Expand(Hadamard(u, v));
  }

  /** A length-12 dot product written out. */
  lemma Dot12Expand(u: Vec, v: Vec)
    requires |u| == |v| == 12
    ensures Dot(u, v) == u[0] * v[0] + u[1] * v[1] + u[2] * v[2] + u[3] * v[3]
                       + u[4] * v[4] + u[5] * v[5] + u[6] * v[6] + u[7] * v[7]
                       + u[8] * v[8] + u[9] * v[9] + u[10] * v[10] + u[11] * v[11]
  {
    Sum12Expand(Hadamard(u, v));
  }

  // ---------------------------------------------------------------------------
  // Matrices acting on vectors

  lemma MatVecAdd(m: Mat, u: Vec, v: Vec)
    requires |u| == |v|
    requires forall i :: 0 <= i < |m| ==> |m[i]| == |u|
    ensures MatVec(m, Add(u, v)) == Add(MatVec(m, u), MatVec(m, v))
  {
    forall i | 0 <= i < |m| {
      DotAddRight(m[i], u, v);
    }
  }

  lemma MatVecScale(m: Mat, s: real, v: Vec)
    requires forall i :: 0 <= i < |m| ==> |m[i]| == |v|
    ensures MatVec(m, Scale(s, v)) == Scale(s, MatVec(m, v))
  {
    forall i | 0 <= i < |m|
      ensures MatVec(m, Scale(s, v))[i] == Scale(s, MatVec(m, v))[i]
    {
      DotScaleRight(m[i], s, v);
    }
  }

  lemma MatScaleVec(s: real, m: Mat, v: Vec)
    requires forall i :: 0 <= i < |m| ==> |m[i]| == |v|
    ensures MatVec(MatScale(s, m), v) == Scale(s, MatVec(m, v))
  {
    forall i | 0 <= i < |m|
      ensures MatVec(MatScale(s, m), v)[i] == Scale(s, MatVec(m, v))[i]
    {
      DotScaleLeft(s, m[i], v);
    }
  }

  /** An outer product applied to y is u scaled by v·y. */
  lemma OuterApply(u: Vec, v: Vec, y: Vec)
    requires |v| == |y|
    ensures MatVec(Outer(u, v), y) == Scale(Dot(v, y), u)
  {
    var o := Outer(u, v);
    forall i | 0 <= i < |u|
      ensures MatVec(o, y)[i] == Scale(Dot(v, y), u)[i]
    {
      DotScaleLeft(u[i], v, y);
    }
  }

  /** The bilinear form of an outer product factors: xᵀ(u vᵀ)y = (u·x)(v·y). */
  lemma BilinearOuter(u: Vec, v: Vec, x: Vec, y: Vec)
    requires |u| == |x| && |v| == |y|
    ensures Bilinear(Outer(u, v), x, y) == Dot(u, x) * Dot(v, y)
  {
    OuterApply(u, v, y);
    DotScaleRight(x, Dot(v, y), u);
    DotComm(x, u);
  }

  lemma TransposeOuter(u: Vec, v: Vec)
    ensures Transpose(Outer(u, v), |v|) == Outer(v, u)
  {
    var t := Transpose(Outer(u, v), |v|);
    var o := Outer(v, u);
    assert |t| == |o|;
    forall i | 0 <= i < |v|
      ensures t[i] == o[i]
    {
      assert |t[i]| == |o[i]|;
      forall j | 0 <= j < |u|
        ensures t[i][j] == o[i][j]
      {
      }
    }
  }

  lemma TransposeScale(s: real, m: Mat, cols: nat)
    requires IsMatrix(m, |m|, cols)
    ensures Transpose(MatScale(s, m), cols) == MatScale(s, Transpose(m, cols))
  {
    var l := Transpose(MatScale(s, m), cols);
    var r := MatScale(s, Transpose(m, cols));
    forall i | 0 <= i < cols
      ensures l[i] == r[i]
    {
      assert |l[i]| == |r[i]|;
      forall j | 0 <= j < |m|
        ensures l[i][j] == r[i][j]
      {
        assert l[i][j] == MatScale(s, m)[j][i] == s * m[j][i];
      }
    }
  }

  lemma DotSingle(a: real, b: real)
    ensures Dot([a], [b]) == a * b
  {
    var h := Hadamard([a], [b]);
    assert h[0] == [a][0] * [b][0] == a * b;
    assert h[1..] == [] && Sum(h[1..]) == 0.0;
    assert Sum(h) == h[0] + Sum(h[1..]);
  }

  /** Peeling the first row: Mᵀx gains x[0] times that row. */
  lemma TransposeApplyStep(m: Mat, cols: nat, x: Vec)
    requires IsMatrix(m, |m|, cols) && |x| == |m| > 0
    ensures IsMatrix(m[1..], |m| - 1, cols)
    ensures MatVec(Transpose(m, cols), x)
      == Add(Scale(x[0], m[0]), MatVec(Transpose(m[1..], cols), x[1..]))
  {
    var t, t1 := Transpose(m, cols), Transpose(m[1..], cols);
    var l, r := MatVec(t, x), Add(Scale(x[0], m[0]), MatVec(t1, x[1..]));
    forall i | 0 <= i < cols
      ensures l[i] == r[i]
    {
      TransposeColumnStep(m, cols, x, i);
    }
    assert l == r;
  }

  /** Column i of the transpose, dotted with x, splits off the first row's entry. */
  lemma TransposeColumnStep(m: Mat, cols: nat, x: Vec, i: nat)
    requires IsMatrix(m, |m|, cols) && |x| == |m| > 0 && i < cols
    ensures IsMatrix(m[1..], |m| - 1, cols)
    ensures Dot(Transpose(m, cols)[i], x)
      == x[0] * m[0][i] + Dot(Transpose(m[1..], cols)[i], x[1..])
  {
    var c, c1 := Transpose(m, cols)[i], Transpose(m[1..], cols)[i];
    assert c == [m[0][i]] + c1;
    assert x == [x[0]] + x[1..];
    DotConcat([m[0][i]], c1, [x[0]], x[1..]);
    DotSingle(m[0][i], x[0]);
    assert m[0][i] * x[0] == x[0] * m[0][i];
  }

  /** xᵀ M y, peeling the first row of M. */
  lemma BilinearStep(m: Mat, x: Vec, y: Vec)
    requires |m| == |x| > 0 && forall i :: 0 <= i < |m| ==> |m[i]| == |y|
    ensures Bilinear(m, x, y) == x[0] * Dot(m[0], y) + Bilinear(m[1..], x[1..], y)
  {
    var m1, x1 := m[1..], x[1..];
    assert MatVec(m, y) == [Dot(m[0], y)] + MatVec(m1, y);
    assert x == [x[0]] + x1;
    DotConcat([x[0]], x1, [Dot(m[0], y)], MatVec(m1, y));
    DotSingle(x[0], Dot(m[0], y));
  }

  /** yᵀ Mᵀ x, peeling the first row of M. */
  lemma TransposeBilinearStep(m: Mat, cols: nat, x: Vec, y: Vec)
    requires IsMatrix(m, |m|, cols) && |x| == |m| > 0 && |y| == cols
    ensures IsMatrix(m[1..], |m| - 1, cols)
    ensures Bilinear(Transpose(m, cols), y, x)
      == x[0] * Dot(m[0], y) + Bilinear(Transpose(m[1..], cols), y, x[1..])
  {
    var t1 := Transpose(m[1..], cols);
    TransposeApplyStep(m, cols, x);
    DotAddRight(y, Scale(x[0], m[0]), MatVec(t1, x[1..]));
    DotScaleRight(y, x[0], m[0]);
    DotComm(y, m[0]);
  }

  /** xᵀ M y = yᵀ Mᵀ x. */
  lemma {:induction false} BilinearTranspose(m: Mat, cols: nat, x: Vec, y: Vec)
    requires IsMatrix(m, |m|, cols) && |x| == |m| && |y| == cols
    ensures Bilinear(m, x, y) == Bilinear(Transpose(m, cols), y, x)
    decreases |m|
  {
    if |m| == 0 {
      assert MatVec(Transpose(m, cols), x) == Zeros(cols);
      DotZeros(y);
    } else {
      BilinearStep(m, x, y);
      TransposeBilinearStep(m, cols, x, y);
      BilinearTranspose(m[1..], cols, x[1..], y);
    }
  }

  /** A symmetric matrix is its own transpose. */
  lemma SymmetricTranspose(m: Mat, n: nat)
    requires Symmetric(m, n)
    ensures Transpose(m, n) == m
  {
    var t := Transpose(m, n);
    forall i | 0 <= i < n
      ensures t[i] == m[i]
    {
      assert |t[i]| == |m[i]|;
    }
  }

  /** For a symmetric M the bilinear form is symmetric: xᵀ M y = yᵀ M x. */
  lemma BilinearSymmetric(m: Mat, n: nat, x: Vec, y: Vec)
    requires Symmetric(m, n) && |x| == n && |y| == n
    ensures Bilinear(m, x, y) == Bilinear(m, y, x)
  {
    BilinearTranspose(m, n, x, y);
    SymmetricTranspose(m, n);
  }
}
