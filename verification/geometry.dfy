/** Three-dimensional points and 3x3 matrices.
    The linear part F of an affine pose, the collision kernel's A1 and A2, and the
    Green-strain matrix FᵀF − I are 3x3 matrices; world points, normals and
    translations are 3-vectors. Entries are exact reals. */
module Geometry {

  datatype V3 = V3(x: real, y: real, z: real)

  datatype M3 = M3(m00: real, m01: real, m02: real,
                   m10: real, m11: real, m12: real,
                   m20: real, m21: real, m22: real)

  // ---------------------------------------------------------------------------
  // Vectors

  function Add3(u: V3, v: V3): V3 { V3(u.x + v.x, u.y + v.y, u.z + v.z) }

  function Sub3(u: V3, v: V3): V3 { V3(u.x - v.x, u.y - v.y, u.z - v.z) }

  function Scale3(s: real, v: V3): V3 { V3(s * v.x, s * v.y, s * v.z) }

  function Neg3(v: V3): V3 { V3(-v.x, -v.y, -v.z) }

  function Dot3(u: V3, v: V3): real { u.x * v.x + u.y * v.y + u.z * v.z }

  /** The squared Euclidean length. */
  function Norm2(v: V3): real { Dot3(v, v) }

  function ToSeq(v: V3): (s: seq<real>)
    ensures |s| == 3
  {
    [v.x, v.y, v.z]
  }

  lemma Norm2NonNegative(v: V3)
    ensures Norm2(v) >= 0.0
  {
    assert v.x * v.x >= 0.0 && v.y * v.y >= 0.0 && v.z * v.z >= 0.0;
  }

  // ---------------------------------------------------------------------------
  // Matrices

  function Identity(): M3 { M3(1.0, 0.0, 0.0, 0.0, 1.0, 0.0, 0.0, 0.0, 1.0) }

  function ZeroM(): M3 { M3(0.0, 0.0, 0.0, 0.0, 0.0, 0.0, 0.0, 0.0, 0.0) }

  /** A·v. */
  function Apply(a: M3, v: V3): V3 {
    V3(a.m00 * v.x + a.m01 * v.y + a.m02 * v.z,
       a.m10 * v.x + a.m11 * v.y + a.m12 * v.z,
       a.m20 * v.x + a.m21 * v.y + a.m22 * v.z)
  }

  function Tr(a: M3): M3 {
    M3(a.m00, a.m10, a.m20,
       a.m01, a.m11, a.m21,
       a.m02, a.m12, a.m22)
  }

  function MAdd(a: M3, b: M3): M3 {
    M3(a.m00 + b.m00, a.m01 + b.m01, a.m02 + b.m02,
       a.m10 + b.m10, a.m11 + b.m11, a.m12 + b.m12,
       a.m20 + b.m20, a.m21 + b.m21, a.m22 + b.m22)
  }

  function MSub(a: M3, b: M3): M3 {
    M3(a.m00 - b.m00, a.m01 - b.m01, a.m02 - b.m02,
       a.m10 - b.m10, a.m11 - b.m11, a.m12 - b.m12,
       a.m20 - b.m20, a.m21 - b.m21, a.m22 - b.m22)
  }

  function MScale(s: real, a: M3): M3 {
    M3(s * a.m00, s * a.m01, s * a.m02,
       s * a.m10, s * a.m11, s * a.m12,
       s * a.m20, s * a.m21, s * a.m22)
  }

  /** The matrix product A·B. */
  function Mul(a: M3, b: M3): M3 {
    M3(a.m00 * b.m00 + a.m01 * b.m10 + a.m02 * b.m20,
       a.m00 * b.m01 + a.m01 * b.m11 + a.m02 * b.m21,
       a.m00 * b.m02 + a.m01 * b.m12 + a.m02 * b.m22,
       a.m10 * b.m00 + a.m11 * b.m10 + a.m12 * b.m20,
       a.m10 * b.m01 + a.m11 * b.m11 + a.m12 * b.m21,
       a.m10 * b.m02 + a.m11 * b.m12 + a.m12 * b.m22,
       a.m20 * b.m00 + a.m21 * b.m10 + a.m22 * b.m20,
       a.m20 * b.m01 + a.m21 * b.m11 + a.m22 * b.m21,
       a.m20 * b.m02 + a.m21 * b.m12 + a.m22 * b.m22)
  }

  /** Applying B and then A is applying A·B. */
  lemma ApplyMul(a: M3, b: M3, v: V3)
    ensures Apply(a, Apply(b, v)) == Apply(Mul(a, b), v)
  {
    ApplyMulX(a, b, v);
    ApplyMulY(a, b, v);
    ApplyMulZ(a, b, v);
  }

  lemma ApplyMulX(a: M3, b: M3, v: V3)
    ensures Apply(a, Apply(b, v)).x == Apply(Mul(a, b), v).x
  {
    var w, m := Apply(b, v), Mul(a, b);
    MulRowApply(a.m00, a.m01, a.m02, w.x, w.y, w.z, b.m00, b.m01, b.m02, b.m10, b.m11, b.m12,
                b.m20, b.m21, b.m22, v.x, v.y, v.z, m.m00, m.m01, m.m02);
  }

  lemma ApplyMulY(a: M3, b: M3, v: V3)
    ensures Apply(a, Apply(b, v)).y == Apply(Mul(a, b), v).y
  {
    var w, m := Apply(b, v), Mul(a, b);
    MulRowApply(a.m10, a.m11, a.m12, w.x, w.y, w.z, b.m00, b.m01, b.m02, b.m10, b.m11, b.m12,
                b.m20, b.m21, b.m22, v.x, v.y, v.z, m.m10, m.m11, m.m12);
  }

  lemma ApplyMulZ(a: M3, b: M3, v: V3)
    ensures Apply(a, Apply(b, v)).z == Apply(Mul(a, b), v).z
  {
    var w, m := Apply(b, v), Mul(a, b);
    MulRowApply(a.m20, a.m21, a.m22, w.x, w.y, w.z, b.m00, b.m01, b.m02, b.m10, b.m11, b.m12,
                b.m20, b.m21, b.m22, v.x, v.y, v.z, m.m20, m.m21, m.m22);
  }

  /** A row r of A against B·v, written through w = B·v and the row c = r·B of A·B:
      r·w = c·v. The caller's side of every fact here is a product of two entries. */
  lemma MulRowApply(r0: real, r1: real, r2: real, w0: real, w1: real, w2: real,
                    b00: real, b01: real, b02: real, b10: real, b11: real, b12: real,
                    b20: real, b21: real, b22: real, x: real, y: real, z: real,
                    c0: real, c1: real, c2: real)
    requires w0 == b00 * x + b01 * y + b02 * z
    requires w1 == b10 * x + b11 * y + b12 * z
    requires w2 == b20 * x + b21 * y + b22 * z
    requires c0 == r0 * b00 + r1 * b10 + r2 * b20
    requires c1 == r0 * b01 + r1 * b11 + r2 * b21
    requires c2 == r0 * b02 + r1 * b12 + r2 * b22
    ensures r0 * w0 + r1 * w1 + r2 * w2 == c0 * x + c1 * y + c2 * z
  {
  }

  /** The identity matrix fixes every vector. */
  lemma ApplyIdentity(i: M3, v: V3)
    requires i == Identity()
    ensures Apply(i, v) == v
  {
  }

  /** The Frobenius inner product ⟨A, B⟩ = Σ a_ij b_ij. */
  function Frob(a: M3, b: M3): real {
    a.m00 * b.m00 + a.m01 * b.m01 + a.m02 * b.m02
    + a.m10 * b.m10 + a.m11 * b.m11 + a.m12 * b.m12
    + a.m20 * b.m20 + a.m21 * b.m21 + a.m22 * b.m22
  }

  ghost predicate IsSymmetric(a: M3) {
    a.m01 == a.m10 && a.m02 == a.m20 && a.m12 == a.m21
  }

  ghost predicate IsAntisymmetric(a: M3) {
    Tr(a) == MScale(-1.0, a)
  }

  // ---------------------------------------------------------------------------
  // Algebraic identities

  lemma TrTr(a: M3)
    ensures Tr(Tr(a)) == a
  {
  }

  lemma TrAdd(a: M3, b: M3)
    ensures Tr(MAdd(a, b)) == MAdd(Tr(a), Tr(b))
  {
  }

  lemma MAddComm(a: M3, b: M3)
    ensures MAdd(a, b) == MAdd(b, a)
  {
  }

  lemma MulIdentityLeft(a: M3)
    ensures Mul(Identity(), a) == a
  {
  }

  lemma MulIdentityRight(a: M3)
    ensures Mul(a, Identity()) == a
  {
  }

  lemma MulZeroLeft(a: M3)
    ensures Mul(ZeroM(), a) == ZeroM()
  {
  }

  lemma MulZeroRight(a: M3)
    ensures Mul(a, ZeroM()) == ZeroM()
  {
  }

  /** ⟨A, A⟩ is a sum of squares. */
  lemma FrobSelfNonNegative(a: M3)
    ensures Frob(a, a) >= 0.0
  {
    assert a.m00 * a.m00 >= 0.0 && a.m01 * a.m01 >= 0.0 && a.m02 * a.m02 >= 0.0;
    assert a.m10 * a.m10 >= 0.0 && a.m11 * a.m11 >= 0.0 && a.m12 * a.m12 >= 0.0;
    assert a.m20 * a.m20 >= 0.0 && a.m21 * a.m21 >= 0.0 && a.m22 * a.m22 >= 0.0;
  }

  lemma FrobZeroLeft(a: M3)
    ensures Frob(ZeroM(), a) == 0.0
  {
  }

  lemma FrobComm(a: M3, b: M3)
    ensures Frob(a, b) == Frob(b, a)
  {
  }

  lemma FrobTr(a: M3, b: M3)
    ensures Frob(Tr(a), b) == Frob(a, Tr(b))
  {
  }

  lemma FrobAddLeft(a: M3, b: M3, c: M3)
    ensures Frob(MAdd(a, b), c) == Frob(a, c) + Frob(b, c)
  {
  }

  lemma FrobAddRight(a: M3, b: M3, c: M3)
    ensures Frob(a, MAdd(b, c)) == Frob(a, b) + Frob(a, c)
  {
  }

  lemma FrobScaleLeft(s: real, a: M3, b: M3)
    ensures Frob(MScale(s, a), b) == s * Frob(a, b)
  {
    var e := MScale(s, a);
    ScaledPairing(s, a.m00, a.m01, a.m02, a.m10, a.m11, a.m12, a.m20, a.m21, a.m22,
                  b.m00, b.m01, b.m02, b.m10, b.m11, b.m12, b.m20, b.m21, b.m22,
                  e.m00, e.m01, e.m02, e.m10, e.m11, e.m12, e.m20, e.m21, e.m22, Frob(a, b));
  }

  lemma FrobScaleRight(s: real, a: M3, b: M3)
    ensures Frob(a, MScale(s, b)) == s * Frob(a, b)
  {
    var e := MScale(s, b);
    PairingScaled(s, a.m00, a.m01, a.m02, a.m10, a.m11, a.m12, a.m20, a.m21, a.m22,
                  b.m00, b.m01, b.m02, b.m10, b.m11, b.m12, b.m20, b.m21, b.m22,
                  e.m00, e.m01, e.m02, e.m10, e.m11, e.m12, e.m20, e.m21, e.m22, Frob(a, b));
  }

  /** Σ (s·x_k)·y_k = s·Σ x_k·y_k over the nine entries, on plain reals: the caller
      supplies e_k = s·x_k and f = Σ x_k·y_k as it already has them. */
  lemma ScaledPairing(s: real, x0: real, x1: real, x2: real, x3: real, x4: real, x5: real,
                      x6: real, x7: real, x8: real, y0: real, y1: real, y2: real, y3: real,
                      y4: real, y5: real, y6: real, y7: real, y8: real, e0: real, e1: real,
                      e2: real, e3: real, e4: real, e5: real, e6: real, e7: real, e8: real, f: real)
    requires e0 == s * x0 && e1 == s * x1 && e2 == s * x2
    requires e3 == s * x3 && e4 == s * x4 && e5 == s * x5
    requires e6 == s * x6 && e7 == s * x7 && e8 == s * x8
    requires f == x0 * y0 + x1 * y1 + x2 * y2 + x3 * y3 + x4 * y4 + x5 * y5 + x6 * y6 + x7 * y7 + x8 * y8
    ensures e0 * y0 + e1 * y1 + e2 * y2 + e3 * y3 + e4 * y4 + e5 * y5 + e6 * y6 + e7 * y7 + e8 * y8 == s * f
  {
  }

  /** Σ x_k·(s·y_k) = s·Σ x_k·y_k over the nine entries, as ScaledPairing. */
  lemma PairingScaled(s: real, x0: real, x1: real, x2: real, x3: real, x4: real, x5: real,
                      x6: real, x7: real, x8: real, y0: real, y1: real, y2: real, y3: real,
                      y4: real, y5: real, y6: real, y7: real, y8: real, e0: real, e1: real,
                      e2: real, e3: real, e4: real, e5: real, e6: real, e7: real, e8: real, f: real)
    requires e0 == s * y0 && e1 == s * y1 && e2 == s * y2
    requires e3 == s * y3 && e4 == s * y4 && e5 == s * y5
    requires e6 == s * y6 && e7 == s * y7 && e8 == s * y8
    requires f == x0 * y0 + x1 * y1 + x2 * y2 + x3 * y3 + x4 * y4 + x5 * y5 + x6 * y6 + x7 * y7 + x8 * y8
    ensures x0 * e0 + x1 * e1 + x2 * e2 + x3 * e3 + x4 * e4 + x5 * e5 + x6 * e6 + x7 * e7 + x8 * e8 == s * f
  {
  }


  /** ‖A + B + C‖² expanded by bilinearity. */
  lemma FrobExpand3(a: M3, b: M3, c: M3)
    ensures Frob(MAdd(MAdd(a, b), c), MAdd(MAdd(a, b), c))
      == Frob(a, a) + 2.0 * Frob(a, b) + 2.0 * Frob(a, c) + Frob(b, b) + 2.0 * Frob(b, c) + Frob(c, c)
  {
    var x := MAdd(MAdd(a, b), c);
    FrobAddLeft(MAdd(a, b), c, x);
    FrobAddLeft(a, b, x);
    FrobAddRight(a, MAdd(a, b), c);
    FrobAddRight(a, a, b);
    FrobAddRight(b, MAdd(a, b), c);
    FrobAddRight(b, a, b);
    FrobAddRight(c, MAdd(a, b), c);
    FrobAddRight(c, a, b);
    FrobComm(a, b);
    FrobComm(a, c);
    FrobComm(b, c);
  }

  lemma FrobMulLeft(a: M3, b: M3, c: M3)
    ensures Frob(Mul(a, b), c) == Frob(b, Mul(Tr(a), c))
  {
    FrobMulLeftLhs(a, b, c);
    FrobMulLeftRhs(a, b, c);
    FrobMulLeftPoly(a, b, c);
  }

  lemma FrobMulLeftLhs(a: M3, b: M3, c: M3)
    ensures Frob(Mul(a, b), c)
      == (a.m00 * b.m00 + a.m01 * b.m10 + a.m02 * b.m20) * c.m00
      + (a.m00 * b.m01 + a.m01 * b.m11 + a.m02 * b.m21) * c.m01
      + (a.m00 * b.m02 + a.m01 * b.m12 + a.m02 * b.m22) * c.m02
      + (a.m10 * b.m00 + a.m11 * b.m10 + a.m12 * b.m20) * c.m10
      + (a.m10 * b.m01 + a.m11 * b.m11 + a.m12 * b.m21) * c.m11
      + (a.m10 * b.m02 + a.m11 * b.m12 + a.m12 * b.m22) * c.m12
      + (a.m20 * b.m00 + a.m21 * b.m10 + a.m22 * b.m20) * c.m20
      + (a.m20 * b.m01 + a.m21 * b.m11 + a.m22 * b.m21) * c.m21
      + (a.m20 * b.m02 + a.m21 * b.m12 + a.m22 * b.m22) * c.m22
  {
  }

  lemma FrobMulLeftRhs(a: M3, b: M3, c: M3)
    ensures Frob(b, Mul(Tr(a), c))
      == b.m00 * (a.m00 * c.m00 + a.m10 * c.m10 + a.m20 * c.m20)
      + b.m01 * (a.m00 * c.m01 + a.m10 * c.m11 + a.m20 * c.m21)
      + b.m02 * (a.m00 * c.m02 + a.m10 * c.m12 + a.m20 * c.m22)
      + b.m10 * (a.m01 * c.m00 + a.m11 * c.m10 + a.m21 * c.m20)
      + b.m11 * (a.m01 * c.m01 + a.m11 * c.m11 + a.m21 * c.m21)
      + b.m12 * (a.m01 * c.m02 + a.m11 * c.m12 + a.m21 * c.m22)
      + b.m20 * (a.m02 * c.m00 + a.m12 * c.m10 + a.m22 * c.m20)
      + b.m21 * (a.m02 * c.m01 + a.m12 * c.m11 + a.m22 * c.m21)
      + b.m22 * (a.m02 * c.m02 + a.m12 * c.m12 + a.m22 * c.m22)
  {
  }

  lemma FrobMulLeftPoly(a: M3, b: M3, c: M3)
    ensures (a.m00 * b.m00 + a.m01 * b.m10 + a.m02 * b.m20) * c.m00
      + (a.m00 * b.m01 + a.m01 * b.m11 + a.m02 * b.m21) * c.m01
      + (a.m00 * b.m02 + a.m01 * b.m12 + a.m02 * b.m22) * c.m02
      + (a.m10 * b.m00 + a.m11 * b.m10 + a.m12 * b.m20) * c.m10
      + (a.m10 * b.m01 + a.m11 * b.m11 + a.m12 * b.m21) * c.m11
      + (a.m10 * b.m02 + a.m11 * b.m12 + a.m12 * b.m22) * c.m12
      + (a.m20 * b.m00 + a.m21 * b.m10 + a.m22 * b.m20) * c.m20
      + (a.m20 * b.m01 + a.m21 * b.m11 + a.m22 * b.m21) * c.m21
      + (a.m20 * b.m02 + a.m21 * b.m12 + a.m22 * b.m22) * c.m22
      == b.m00 * (a.m00 * c.m00 + a.m10 * c.m10 + a.m20 * c.m20)
      + b.m01 * (a.m00 * c.m01 + a.m10 * c.m11 + a.m20 * c.m21)
      + b.m02 * (a.m00 * c.m02 + a.m10 * c.m12 + a.m20 * c.m22)
      + b.m10 * (a.m01 * c.m00 + a.m11 * c.m10 + a.m21 * c.m20)
      + b.m11 * (a.m01 * c.m01 + a.m11 * c.m11 + a.m21 * c.m21)
      + b.m12 * (a.m01 * c.m02 + a.m11 * c.m12 + a.m21 * c.m22)
      + b.m20 * (a.m02 * c.m00 + a.m12 * c.m10 + a.m22 * c.m20)
      + b.m21 * (a.m02 * c.m01 + a.m12 * c.m11 + a.m22 * c.m21)
      + b.m22 * (a.m02 * c.m02 + a.m12 * c.m12 + a.m22 * c.m22)
  {
  }

  /** ⟨AB, C⟩ = ⟨A, CBᵀ⟩. */
  lemma FrobMulRight(a: M3, b: M3, c: M3)
    ensures Frob(Mul(a, b), c) == Frob(a, Mul(c, Tr(b)))
  {
    FrobMulRightLhs(a, b, c);
    FrobMulRightRhs(a, b, c);
    FrobMulRightPoly(a, b, c);
  }

  lemma FrobMulRightLhs(a: M3, b: M3, c: M3)
    ensures Frob(Mul(a, b), c)
      == (a.m00 * b.m00 + a.m01 * b.m10 + a.m02 * b.m20) * c.m00
      + (a.m00 * b.m01 + a.m01 * b.m11 + a.m02 * b.m21) * c.m01
      + (a.m00 * b.m02 + a.m01 * b.m12 + a.m02 * b.m22) * c.m02
      + (a.m10 * b.m00 + a.m11 * b.m10 + a.m12 * b.m20) * c.m10
      + (a.m10 * b.m01 + a.m11 * b.m11 + a.m12 * b.m21) * c.m11
      + (a.m10 * b.m02 + a.m11 * b.m12 + a.m12 * b.m22) * c.m12
      + (a.m20 * b.m00 + a.m21 * b.m10 + a.m22 * b.m20) * c.m20
      + (a.m20 * b.m01 + a.m21 * b.m11 + a.m22 * b.m21) * c.m21
      + (a.m20 * b.m02 + a.m21 * b.m12 + a.m22 * b.m22) * c.m22
  {
  }

  lemma FrobMulRightRhs(a: M3, b: M3, c: M3)
    ensures Frob(a, Mul(c, Tr(b)))
      == a.m00 * (c.m00 * b.m00 + c.m01 * b.m01 + c.m02 * b.m02)
      + a.m01 * (c.m00 * b.m10 + c.m01 * b.m11 + c.m02 * b.m12)
      + a.m02 * (c.m00 * b.m20 + c.m01 * b.m21 + c.m02 * b.m22)
      + a.m10 * (c.m10 * b.m00 + c.m11 * b.m01 + c.m12 * b.m02)
      + a.m11 * (c.m10 * b.m10 + c.m11 * b.m11 + c.m12 * b.m12)
      + a.m12 * (c.m10 * b.m20 + c.m11 * b.m21 + c.m12 * b.m22)
      + a.m20 * (c.m20 * b.m00 + c.m21 * b.m01 + c.m22 * b.m02)
      + a.m21 * (c.m20 * b.m10 + c.m21 * b.m11 + c.m22 * b.m12)
      + a.m22 * (c.m20 * b.m20 + c.m21 * b.m21 + c.m22 * b.m22)
  {
  }

  lemma FrobMulRightPoly(a: M3, b: M3, c: M3)
    ensures (a.m00 * b.m00 + a.m01 * b.m10 + a.m02 * b.m20) * c.m00
      + (a.m00 * b.m01 + a.m01 * b.m11 + a.m02 * b.m21) * c.m01
      + (a.m00 * b.m02 + a.m01 * b.m12 + a.m02 * b.m22) * c.m02
      + (a.m10 * b.m00 + a.m11 * b.m10 + a.m12 * b.m20) * c.m10
      + (a.m10 * b.m01 + a.m11 * b.m11 + a.m12 * b.m21) * c.m11
      + (a.m10 * b.m02 + a.m11 * b.m12 + a.m12 * b.m22) * c.m12
      + (a.m20 * b.m00 + a.m21 * b.m10 + a.m22 * b.m20) * c.m20
      + (a.m20 * b.m01 + a.m21 * b.m11 + a.m22 * b.m21) * c.m21
      + (a.m20 * b.m02 + a.m21 * b.m12 + a.m22 * b.m22) * c.m22
      == a.m00 * (c.m00 * b.m00 + c.m01 * b.m01 + c.m02 * b.m02)
      + a.m01 * (c.m00 * b.m10 + c.m01 * b.m11 + c.m02 * b.m12)
      + a.m02 * (c.m00 * b.m20 + c.m01 * b.m21 + c.m02 * b.m22)
      + a.m10 * (c.m10 * b.m00 + c.m11 * b.m01 + c.m12 * b.m02)
      + a.m11 * (c.m10 * b.m10 + c.m11 * b.m11 + c.m12 * b.m12)
      + a.m12 * (c.m10 * b.m20 + c.m11 * b.m21 + c.m12 * b.m22)
      + a.m20 * (c.m20 * b.m00 + c.m21 * b.m01 + c.m22 * b.m02)
      + a.m21 * (c.m20 * b.m10 + c.m21 * b.m11 + c.m22 * b.m12)
      + a.m22 * (c.m20 * b.m20 + c.m21 * b.m21 + c.m22 * b.m22)
  {
  }
}
