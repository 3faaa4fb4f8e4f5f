/** The per-body elastic energy of affine body dynamics, its gradient and Hessian.
    The energy of a body with pose q is c·‖FᵀF − I‖²_F, F the linear part of q,
    for one stiffness constant c shared by the energy, gradient and Hessian
    kernels. The gradient on the F entries is 4c·F(FᵀF − I), and the Hessian is the
    bilinear form 2c(⟨L(X), L(Y)⟩ + ⟨FᵀF − I, XᵀY + YᵀX⟩) with L(D) = FᵀD + DᵀF,
    the directional derivative of FᵀF. The kernels launch one thread per body. */
module Elastic {
  import opened LinAlg
  import opened Geometry
  import opened Kinematics
  import opened Atomics

  /** FᵀF. */
  function Gram(f: M3): M3 { Mul(Tr(f), f) }

  /** FᵀF − I, twice the Green strain. */
  function Strain(f: M3): M3 { MSub(Gram(f), Identity()) }

  /** FᵀD + DᵀF, the part of (F + D)ᵀ(F + D) linear in D. */
  function Lin(f: M3, d: M3): M3 { MAdd(Mul(Tr(f), d), Mul(Tr(d), f)) }

  // ---------------------------------------------------------------------------
  // The energy density and its derivatives on F

  function StrainEnergy(c: real, f: M3): real {
    c * Frob(Strain(f), Strain(f))
  }

  function StrainGradient(c: real, f: M3): M3 {
    MScale(4.0 * c, Mul(f, Strain(f)))
  }

  /** The second derivative of StrainEnergy at F in the directions X and Y. */
  function HessianForm(c: real, f: M3, x: M3, y: M3): real {
    2.0 * c * (Frob(Lin(f, x), Lin(f, y)) + Frob(Strain(f), MAdd(Mul(Tr(x), y), Mul(Tr(y), x))))
  }

  /** (F + D)ᵀ(F + D) − I = (FᵀF − I) + (FᵀD + DᵀF) + DᵀD, entry by entry. */
  lemma GramPerturb(f: M3, d: M3)
    ensures Strain(MAdd(f, d)) == MAdd(MAdd(Strain(f), Lin(f, d)), Gram(d))
  {
    GramPerturbM00(f, d);
    GramPerturbM01(f, d);
    GramPerturbM02(f, d);
    GramPerturbM10(f, d);
    GramPerturbM11(f, d);
    GramPerturbM12(f, d);
    GramPerturbM20(f, d);
    GramPerturbM21(f, d);
    GramPerturbM22(f, d);
  }

  lemma GramPerturbM00(f: M3, d: M3)
    ensures Strain(MAdd(f, d)).m00 == MAdd(MAdd(Strain(f), Lin(f, d)), Gram(d)).m00
  {
  }

  lemma GramPerturbM01(f: M3, d: M3)
    ensures Strain(MAdd(f, d)).m01 == MAdd(MAdd(Strain(f), Lin(f, d)), Gram(d)).m01
  {
  }

  lemma GramPerturbM02(f: M3, d: M3)
    ensures Strain(MAdd(f, d)).m02 == MAdd(MAdd(Strain(f), Lin(f, d)), Gram(d)).m02
  {
  }

  lemma GramPerturbM10(f: M3, d: M3)
    ensures Strain(MAdd(f, d)).m10 == MAdd(MAdd(Strain(f), Lin(f, d)), Gram(d)).m10
  {
  }

  lemma GramPerturbM11(f: M3, d: M3)
    ensures Strain(MAdd(f, d)).m11 == MAdd(MAdd(Strain(f), Lin(f, d)), Gram(d)).m11
  {
  }

  lemma GramPerturbM12(f: M3, d: M3)
    ensures Strain(MAdd(f, d)).m12 == MAdd(MAdd(Strain(f), Lin(f, d)), Gram(d)).m12
  {
  }

  lemma GramPerturbM20(f: M3, d: M3)
    ensures Strain(MAdd(f, d)).m20 == MAdd(MAdd(Strain(f), Lin(f, d)), Gram(d)).m20
  {
  }

  lemma GramPerturbM21(f: M3, d: M3)
    ensures Strain(MAdd(f, d)).m21 == MAdd(MAdd(Strain(f), Lin(f, d)), Gram(d)).m21
  {
  }

  lemma GramPerturbM22(f: M3, d: M3)
    ensures Strain(MAdd(f, d)).m22 == MAdd(MAdd(Strain(f), Lin(f, d)), Gram(d)).m22
  {
  }

  lemma GramOffDiagonal(f: M3)
    ensures Gram(f).m01 == Gram(f).m10 && Gram(f).m02 == Gram(f).m20 && Gram(f).m12 == Gram(f).m21
  {
  }

  /** FᵀF − I is symmetric. */
  lemma StrainSymmetric(f: M3)
    ensures Tr(Strain(f)) == Strain(f)
  {
    GramOffDiagonal(f);
  }

  /** ⟨F·S, D⟩ = ½⟨S, FᵀD + DᵀF⟩ for symmetric S. */
  lemma SymmetricDirectional(f: M3, s: M3, d: M3)
    requires Tr(s) == s
    ensures 2.0 * Frob(Mul(f, s), d) == Frob(s, Lin(f, d))
  {
    var a, b := Mul(Tr(f), d), Mul(Tr(d), f);
    FrobAddRight(s, a, b);
    FrobComm(s, a);
    FrobComm(s, b);
    FrobMulLeft(Tr(f), d, s);
    FrobMulLeft(Tr(d), f, s);
    TrTr(f);
    TrTr(d);
    FrobMulRight(d, s, f);
    FrobComm(Mul(f, s), d);
    FrobComm(f, Mul(d, s));
  }

  lemma ScaledDirectional(k: real, f: M3, s: M3, d: M3)
    requires Tr(s) == s
    ensures Frob(MScale(k, Mul(f, s)), d) == k / 2.0 * Frob(s, Lin(f, d))
  {
    SymmetricDirectional(f, s, d);
    FrobScaleLeft(k, Mul(f, s), d);
  }

  /** ⟨4c·F(FᵀF − I), D⟩ is the derivative 2c⟨FᵀF − I, FᵀD + DᵀF⟩ of c‖FᵀF − I‖² along D. */
  lemma GradientDirectional(c: real, f: M3, d: M3)
    ensures Frob(StrainGradient(c, f), d) == 2.0 * c * Frob(Strain(f), Lin(f, d))
  {
    StrainSymmetric(f);
    ScaledDirectional(4.0 * c, f, Strain(f), d);
  }

  lemma HessianDiagonal(c: real, f: M3, d: M3)
    ensures HessianForm(c, f, d, d) == 2.0 * c * (Frob(Lin(f, d), Lin(f, d)) + 2.0 * Frob(Strain(f), Gram(d)))
  {
    FrobAddRight(Strain(f), Gram(d), Gram(d));
  }

  /** The exact Taylor expansion of the energy density: value, gradient term, half the
      Hessian form, and a remainder of degree three and four in D. */
  lemma EnergyExpansion(c: real, f: M3, d: M3)
    ensures StrainEnergy(c, MAdd(f, d))
      == StrainEnergy(c, f) + Frob(StrainGradient(c, f), d) + HessianForm(c, f, d, d) / 2.0
       + c * (2.0 * Frob(Lin(f, d), Gram(d)) + Frob(Gram(d), Gram(d)))
  {
    calc {
      StrainEnergy(c, MAdd(f, d));
    == { GramPerturb(f, d); }
      c * Frob(MAdd(MAdd(Strain(f), Lin(f, d)), Gram(d)), MAdd(MAdd(Strain(f), Lin(f, d)), Gram(d)));
    == { FrobExpand3(Strain(f), Lin(f, d), Gram(d)); }
      c * (Frob(Strain(f), Strain(f)) + 2.0 * Frob(Strain(f), Lin(f, d)) + 2.0 * Frob(Strain(f), Gram(d))
        + Frob(Lin(f, d), Lin(f, d)) + 2.0 * Frob(Lin(f, d), Gram(d)) + Frob(Gram(d), Gram(d)));
    == { ExpansionTerms(c, Frob(Strain(f), Strain(f)), Frob(Strain(f), Lin(f, d)), Frob(Strain(f), Gram(d)),
                        Frob(Lin(f, d), Lin(f, d)), Frob(Lin(f, d), Gram(d)), Frob(Gram(d), Gram(d))); }
      c * Frob(Strain(f), Strain(f)) + 2.0 * c * Frob(Strain(f), Lin(f, d))
        + 2.0 * c * (Frob(Lin(f, d), Lin(f, d)) + 2.0 * Frob(Strain(f), Gram(d))) / 2.0
        + c * (2.0 * Frob(Lin(f, d), Gram(d)) + Frob(Gram(d), Gram(d)));
    == { GradientDirectional(c, f, d); }
      c * Frob(Strain(f), Strain(f)) + Frob(StrainGradient(c, f), d)
        + 2.0 * c * (Frob(Lin(f, d), Lin(f, d)) + 2.0 * Frob(Strain(f), Gram(d))) / 2.0
        + c * (2.0 * Frob(Lin(f, d), Gram(d)) + Frob(Gram(d), Gram(d)));
    == { HessianDiagonal(c, f, d); }
      StrainEnergy(c, f) + Frob(StrainGradient(c, f), d) + HessianForm(c, f, d, d) / 2.0
        + c * (2.0 * Frob(Lin(f, d), Gram(d)) + Frob(Gram(d), Gram(d)));
    }
  }

  /** c‖S + L + Q‖² sorted by degree in D, with ‖S + L + Q‖² already expanded. */
  lemma ExpansionTerms(c: real, ss: real, sl: real, sq: real, ll: real, lq: real, qq: real)
    ensures c * (ss + 2.0 * sl + 2.0 * sq + ll + 2.0 * lq + qq)
      == c * ss + 2.0 * c * sl + 2.0 * c * (ll + 2.0 * sq) / 2.0 + c * (2.0 * lq + qq)
  {
  }

  /** The Hessian form is symmetric in its two directions. */
  lemma HessianFormSymmetric(c: real, f: M3, x: M3, y: M3)
    ensures HessianForm(c, f, x, y) == HessianForm(c, f, y, x)
  {
    FrobComm(Lin(f, x), Lin(f, y));
    MAddComm(Mul(Tr(x), y), Mul(Tr(y), x));
  }

  /** A zero direction contributes nothing to the Hessian form. */
  lemma HessianFormZero(c: real, f: M3, y: M3)
    ensures HessianForm(c, f, ZeroM(), y) == 0.0
    ensures HessianForm(c, f, y, ZeroM()) == 0.0
  {
    HessianFormZeroAt(c, f, y, ZeroM());
  }

  lemma HessianFormZeroAt(c: real, f: M3, y: M3, z: M3)
    requires z == ZeroM()
    ensures HessianForm(c, f, z, y) == 0.0
    ensures HessianForm(c, f, y, z) == 0.0
  {
    LinZeroAt(f, y, z);
    FrobZeroLeft(Lin(f, y));
    FrobComm(Lin(f, y), z);
    FrobComm(Strain(f), z);
    FrobZeroLeft(Strain(f));
    ZeroFactor(2.0 * c, Frob(Lin(f, z), Lin(f, y)) + Frob(Strain(f), MAdd(Mul(Tr(z), y), Mul(Tr(y), z))));
    HessianFormSymmetric(c, f, z, y);
  }

  lemma LinZeroAt(f: M3, y: M3, z: M3)
    requires z == ZeroM()
    ensures Lin(f, z) == z
    ensures MAdd(Mul(Tr(z), y), Mul(Tr(y), z)) == z
  {
  }

  // ---------------------------------------------------------------------------
  // The rest shape F = I

  lemma IdentityGram()
    ensures Gram(Identity()) == Identity()
  {
  }

  /** FᵀF = I makes the strain vanish. */
  lemma IsometryStrain(f: M3)
    requires Gram(f) == Identity()
    ensures Strain(f) == ZeroM()
  {
  }

  /** At F = I the linearised strain FᵀD + DᵀF is D + Dᵀ. */
  lemma LinIdentity(d: M3)
    ensures Lin(Identity(), d) == MAdd(d, Tr(d))
  {
    assert Tr(Identity()) == Identity();
    MulIdentityLeft(d);
    MulIdentityRight(Tr(d));
  }

  /** Where FᵀF = I the Hessian form along D is 2c‖FᵀD + DᵀF‖². */
  lemma IsometryHessianForm(c: real, f: M3, d: M3)
    requires Strain(f) == ZeroM()
    ensures HessianForm(c, f, d, d) == 2.0 * c * Frob(Lin(f, d), Lin(f, d))
  {
    FrobZeroLeft(MAdd(Mul(Tr(d), d), Mul(Tr(d), d)));
  }

  /** Around F = I the Hessian form along D is 2c‖D + Dᵀ‖². */
  lemma RestHessianForm(c: real, d: M3)
    ensures HessianForm(c, Identity(), d, d) == 2.0 * c * Frob(Lin(Identity(), d), Lin(Identity(), d))
    ensures Lin(Identity(), d) == MAdd(d, Tr(d))
  {
    RestHessianFormAt(c, d, Identity());
  }

  lemma RestHessianFormAt(c: real, d: M3, i: M3)
    requires i == Identity()
    ensures HessianForm(c, i, d, d) == 2.0 * c * Frob(Lin(i, d), Lin(i, d))
    ensures Lin(i, d) == MAdd(d, Tr(d))
  {
    IdentityGram();
    IsometryStrain(i);
    IsometryHessianForm(c, i, d);
    LinIdentity(d);
  }

  /** Around F = I the Hessian is positive semidefinite for c ≥ 0. */
  lemma RestHessianSemidefinite(c: real, d: M3)
    requires c >= 0.0
    ensures HessianForm(c, Identity(), d, d) >= 0.0
  {
    RestHessianForm(c, d);
    FrobSelfNonNegative(Lin(Identity(), d));
  }

  /** An antisymmetric direction, an infinitesimal rotation, is a null direction of the
      Hessian at F = I. */
  lemma RestHessianNullDirection(c: real, d: M3)
    requires IsAntisymmetric(d)
    ensures HessianForm(c, Identity(), d, d) == 0.0
  {
    RestHessianNullAt(c, d, Identity());
  }

  lemma RestHessianNullAt(c: real, d: M3, i: M3)
    requires IsAntisymmetric(d) && i == Identity()
    ensures HessianForm(c, i, d, d) == 0.0
  {
    IdentityStrain(i);
    AntisymmetricLin(d, i);
    IsometryNullDirection(c, i, d);
  }

  lemma IdentityStrain(i: M3)
    requires i == Identity()
    ensures Strain(i) == ZeroM()
  {
    IdentityGram();
    IsometryStrain(i);
  }

  /** At F = I an antisymmetric D leaves FᵀF unchanged to first order. */
  lemma AntisymmetricLin(d: M3, i: M3)
    requires IsAntisymmetric(d) && i == Identity()
    ensures Lin(i, d) == ZeroM()
  {
    LinIdentity(d);
    assert MAdd(d, Tr(d)) == ZeroM();
  }

  /** Where FᵀF = I, a direction with FᵀD + DᵀF = 0 has zero Hessian form. */
  lemma IsometryNullDirection(c: real, f: M3, d: M3)
    requires Strain(f) == ZeroM() && Lin(f, d) == ZeroM()
    ensures HessianForm(c, f, d, d) == 0.0
  {
    IsometryHessianForm(c, f, d);
    ScaledNormZero(2.0 * c, Lin(f, d));
  }

  /** k‖Z‖² = 0 for the zero matrix. */
  lemma ScaledNormZero(k: real, z: M3)
    requires z == ZeroM()
    ensures k * Frob(z, z) == 0.0
  {
    FrobZeroLeft(z);
    ZeroFactor(k, Frob(z, z));
  }

  lemma ZeroFactor(a: real, b: real)
    requires b == 0.0
    ensures a * b == 0.0
  {
  }

  /** A nonzero direction with zero Hessian form at F = I: the Hessian is not definite. */
  lemma RestHessianNotDefinite(c: real)
    ensures var d := M3(0.0, 1.0, 0.0, -1.0, 0.0, 0.0, 0.0, 0.0, 0.0);
      d != ZeroM() && HessianForm(c, Identity(), d, d) == 0.0
  {
    var d := M3(0.0, 1.0, 0.0, -1.0, 0.0, 0.0, 0.0, 0.0, 0.0);
    assert Tr(d) == MScale(-1.0, d);
    RestHessianNullDirection(c, d);
  }

  // ---------------------------------------------------------------------------
  // The two energy scales in the documentation

  function Trace(a: M3): real { a.m00 + a.m11 + a.m22 }

  /** The energy written as ½k‖FᵀF − I‖². */
  function NormEnergy(k: real, f: M3): real {
    0.5 * k * Frob(Strain(f), Strain(f))
  }

  /** The energy written as (k/2)·tr(E²) with the Green strain E = ½(FᵀF − I). */
  function TraceEnergy(k: real, f: M3): real {
    var e := MScale(0.5, Strain(f));
    k / 2.0 * Trace(Mul(e, e))
  }

  /** tr(A B) = ⟨A, Bᵀ⟩. */
  lemma TraceMul(a: M3, b: M3)
    ensures Trace(Mul(a, b)) == Frob(a, Tr(b))
  {
  }

  /** ½k‖FᵀF − I‖² is the model's energy with c = k/2, while (k/2)·tr(E²) is the
      model's energy with c = k/8: a quarter of it. */
  lemma EnergyScales(k: real, f: M3)
    ensures NormEnergy(k, f) == StrainEnergy(k / 2.0, f)
    ensures TraceEnergy(k, f) == StrainEnergy(k / 8.0, f)
    ensures 4.0 * TraceEnergy(k, f) == NormEnergy(k, f)
  {
    var s := Strain(f);
    var e := MScale(0.5, s);
    StrainSymmetric(f);
    assert Tr(e) == e;
    TraceMul(e, e);
    FrobScaleLeft(0.5, s, e);
    FrobScaleRight(0.5, s, s);
  }

  // ---------------------------------------------------------------------------
  // Per body, on the 12-entry pose vector

  /** The elastic energy of a body with pose q. */
  function BodyEnergy(c: real, q: Vec): real
    requires |q| == 12
  {
    StrainEnergy(c, LinearPart(q))
  }

  /** The 12-entry gradient of BodyEnergy: 4c·F(FᵀF − I) on the F entries, 0 at 3, 7 and 11. */
  function BodyGradient(c: real, q: Vec): (g: Vec)
    requires |q| == 12
    ensures |g| == 12
  {
    Embed(StrainGradient(c, LinearPart(q)))
  }

  /** The unit pose vector with a one at entry i. */
  function Unit(i: nat): (u: Vec)
    ensures |u| == 12
  {
    seq(12, k => if k == i then 1.0 else 0.0)
  }

  /** The change of F caused by a unit change of pose entry i. */
  function Direction(i: nat): M3 {
    LinearPart(Unit(i))
  }

  /** The 12x12 Hessian of BodyEnergy: entry (i, j) is the Hessian form along the
      directions of pose entries i and j. */
  function BodyHessian(c: real, q: Vec): (h: Mat)
    requires |q| == 12
    ensures IsMatrix(h, 12, 12)
  {
    seq(12, (i: nat) => seq(12, (j: nat) => HessianForm(c, LinearPart(q), Direction(i), Direction(j))))
  }

  /** The energy is never negative for a non-negative stiffness. */
  lemma BodyEnergyNonNegative(c: real, q: Vec)
    requires |q| == 12 && c >= 0.0
    ensures BodyEnergy(c, q) >= 0.0
  {
    FrobSelfNonNegative(Strain(LinearPart(q)));
  }

  /** Whenever FᵀF = I (a rotation or reflection) the energy vanishes. */
  lemma BodyEnergyZeroAtIsometry(c: real, q: Vec)
    requires |q| == 12 && Gram(LinearPart(q)) == Identity()
    ensures BodyEnergy(c, q) == 0.0
  {
    IsometryStrain(LinearPart(q));
    IsometryEnergy(c, LinearPart(q));
  }

  /** Whenever FᵀF = I the gradient is the zero vector. */
  lemma BodyGradientZeroAtIsometry(c: real, q: Vec)
    requires |q| == 12 && Gram(LinearPart(q)) == Identity()
    ensures BodyGradient(c, q) == Zeros(12)
  {
    IsometryStrain(LinearPart(q));
    IsometryGradient(c, LinearPart(q));
  }

  lemma IsometryEnergy(c: real, f: M3)
    requires Strain(f) == ZeroM()
    ensures StrainEnergy(c, f) == 0.0
  {
    ScaledNormZero(c, Strain(f));
  }

  lemma IsometryGradient(c: real, f: M3)
    requires Strain(f) == ZeroM()
    ensures Embed(StrainGradient(c, f)) == Zeros(12)
  {
    MulZeroRight(f);
    ScaleZeroAt(4.0 * c, ZeroM());
    EmbedZeroAt(ZeroM());
  }

  lemma ScaleZeroAt(k: real, z: M3)
    requires z == ZeroM()
    ensures MScale(k, z) == z
  {
  }

  lemma EmbedZeroAt(z: M3)
    requires z == ZeroM()
    ensures Embed(z) == Zeros(12)
  {
  }

  /** The rest pose [I | t] has no elastic energy, wherever it is placed. */
  lemma RestPoseEnergy(c: real, t: V3)
    ensures BodyEnergy(c, Pose(Identity(), t)) == 0.0
  {
    PoseRoundTrip(Identity(), t);
    IdentityGram();
    BodyEnergyZeroAtIsometry(c, Pose(Identity(), t));
  }

  /** Energy, gradient and Hessian do not depend on the translation entries 3, 7 and 11. */
  lemma BodyElasticTranslationInvariant(c: real, q: Vec, tau: V3)
    requires |q| == 12
    ensures BodyEnergy(c, Translate(q, tau)) == BodyEnergy(c, q)
    ensures BodyGradient(c, Translate(q, tau)) == BodyGradient(c, q)
    ensures BodyHessian(c, Translate(q, tau)) == BodyHessian(c, q)
  {
    TranslateShiftsWorld(q, tau, V3(0.0, 0.0, 0.0));
  }

  /** The gradient has no translation component. */
  lemma BodyGradientTranslationZero(c: real, q: Vec)
    requires |q| == 12
    ensures var g := BodyGradient(c, q); g[3] == 0.0 && g[7] == 0.0 && g[11] == 0.0
  {
  }

  /** The inner product of the gradient with any pose change δ is the derivative
      2c⟨FᵀF − I, FᵀD + DᵀF⟩ of the energy along δ, where F and D are the linear
      parts of q and δ. */
  lemma BodyGradientDirectional(c: real, q: Vec, d: Vec, f: M3, e: M3)
    requires |q| == 12 && |d| == 12 && f == LinearPart(q) && e == LinearPart(d)
    ensures Dot(BodyGradient(c, q), d) == 2.0 * c * Frob(Strain(f), Lin(f, e))
  {
    BodyGradientAt(c, q, f);
    EmbedDot(StrainGradient(c, f), d);
    GradientDirectional(c, f, e);
  }

  /** The exact expansion of the body energy around q: BodyGradient is the first-order
      term and the Hessian form the second-order term; the rest has degree three and four. */
  lemma BodyEnergyExpansion(c: real, q: Vec, d: Vec, f: M3, e: M3)
    requires |q| == 12 && |d| == 12 && f == LinearPart(q) && e == LinearPart(d)
    ensures BodyEnergy(c, Add(q, d))
        == BodyEnergy(c, q) + Dot(BodyGradient(c, q), d) + HessianForm(c, f, e, e) / 2.0
         + c * (2.0 * Frob(Lin(f, e), Gram(e)) + Frob(Gram(e), Gram(e)))
  {
    LinearPartAdd(q, d);
    BodyEnergyAt(c, Add(q, d), MAdd(f, e));
    BodyEnergyAt(c, q, f);
    BodyGradientAt(c, q, f);
    EnergyExpansion(c, f, e);
    EmbedDot(StrainGradient(c, f), d);
  }

  lemma BodyGradientAt(c: real, q: Vec, f: M3)
    requires |q| == 12 && f == LinearPart(q)
    ensures BodyGradient(c, q) == Embed(StrainGradient(c, f))
  {
  }

  lemma LinearPartAdd(q: Vec, d: Vec)
    requires |q| == 12 && |d| == 12
    ensures LinearPart(Add(q, d)) == MAdd(LinearPart(q), LinearPart(d))
  {
  }

  lemma BodyEnergyAt(c: real, q: Vec, f: M3)
    requires |q| == 12 && f == LinearPart(q)
    ensures BodyEnergy(c, q) == StrainEnergy(c, f)
  {
  }

  /** The Hessian is symmetric. */
  lemma BodyHessianSymmetric(c: real, q: Vec)
    requires |q| == 12
    ensures Symmetric(BodyHessian(c, q), 12)
  {
    var h, f := BodyHessian(c, q), LinearPart(q);
    forall i, j | 0 <= i < 12 && 0 <= j < 12
      ensures h[i][j] == h[j][i]
    {
      HessianFormSymmetric(c, f, Direction(i), Direction(j));
    }
  }

  /** Pose entries 3, 7 and 11 do not move F. */
  lemma TranslationDirection(i: nat)
    requires i == 3 || i == 7 || i == 11
    ensures Direction(i) == ZeroM()
  {
    var u := Unit(i);
    assert u[0] == 0.0 && u[1] == 0.0 && u[2] == 0.0 && u[4] == 0.0 && u[5] == 0.0
      && u[6] == 0.0 && u[8] == 0.0 && u[9] == 0.0 && u[10] == 0.0;
  }

  lemma BodyHessianEntry(c: real, q: Vec, i: nat, j: nat)
    requires |q| == 12 && i < 12 && j < 12
    ensures BodyHessian(c, q)[i][j] == HessianForm(c, LinearPart(q), Direction(i), Direction(j))
  {
    var h, f := BodyHessian(c, q), LinearPart(q);
    assert h[i][j] == HessianForm(c, f, Direction(i), Direction(j));
  }

  lemma BodyHessianRowZero(c: real, q: Vec, i: nat, j: nat)
    requires |q| == 12 && (i == 3 || i == 7 || i == 11) && j < 12
    ensures BodyHessian(c, q)[i][j] == 0.0
  {
    TranslationDirection(i);
    BodyHessianEntry(c, q, i, j);
    HessianFormZeroAt(c, LinearPart(q), Direction(j), Direction(i));
  }

  lemma BodyHessianColumnZero(c: real, q: Vec, i: nat, j: nat)
    requires |q| == 12 && (i == 3 || i == 7 || i == 11) && j < 12
    ensures BodyHessian(c, q)[j][i] == 0.0
  {
    TranslationDirection(i);
    BodyHessianEntry(c, q, j, i);
    HessianFormZeroAt(c, LinearPart(q), Direction(j), Direction(i));
  }

  /** Rows and columns 3, 7 and 11 of the Hessian are identically zero. */
  lemma BodyHessianTranslationZero(c: real, q: Vec)
    requires |q| == 12
    ensures forall i, j :: (i == 3 || i == 7 || i == 11) && 0 <= j < 12 ==> BodyHessian(c, q)[i][j] == 0.0
    ensures forall i, j :: (i == 3 || i == 7 || i == 11) && 0 <= j < 12 ==> BodyHessian(c, q)[j][i] == 0.0
  {
    forall i: nat, j: nat | (i == 3 || i == 7 || i == 11) && j < 12
      ensures BodyHessian(c, q)[i][j] == 0.0
    {
      BodyHessianRowZero(c, q, i, j);
    }
    forall i: nat, j: nat | (i == 3 || i == 7 || i == 11) && j < 12
      ensures BodyHessian(c, q)[j][i] == 0.0
    {
      BodyHessianColumnZero(c, q, i, j);
    }
  }

  // ---------------------------------------------------------------------------
  // The quadratic form of the 12x12 Hessian block

  /** FᵀX + XᵀF is symmetric. */
  lemma LinSymmetric(f: M3, x: M3)
    ensures Tr(Lin(f, x)) == Lin(f, x)
  {
  }

  /** The Hessian form without its factor 2c. */
  function ShapeForm(f: M3, x: M3, y: M3): real {
    Frob(Lin(f, x), Lin(f, y)) + Frob(Strain(f), MAdd(Mul(Tr(x), y), Mul(Tr(y), x)))
  }

  /** F(FᵀX + XᵀF) + X(FᵀF − I): half the derivative of ShapeForm in its second direction. */
  function ShapeRow(f: M3, x: M3): M3 {
    MAdd(Mul(f, Lin(f, x)), Mul(x, Strain(f)))
  }

  /** The Hessian form along X, as a matrix: 4c(F(FᵀX + XᵀF) + X(FᵀF − I)). */
  function HessianRow(c: real, f: M3, x: M3): M3 {
    MScale(4.0 * c, ShapeRow(f, x))
  }

  lemma HessianFormShape(c: real, f: M3, x: M3, y: M3)
    ensures HessianForm(c, f, x, y) == 2.0 * c * ShapeForm(f, x, y)
  {
  }

  /** ShapeForm is linear in its second direction. */
  lemma ShapeFormFrob(f: M3, x: M3, y: M3)
    ensures ShapeForm(f, x, y) == 2.0 * Frob(ShapeRow(f, x), y)
  {
    var l, s := Lin(f, x), Strain(f);
    LinSymmetric(f, x);
    StrainSymmetric(f);
    SymmetricDirectional(f, l, y);
    SymmetricDirectional(x, s, y);
    FrobAddLeft(Mul(f, l), Mul(x, s), y);
  }

  /** The Hessian form is linear in its second direction: it is the Frobenius product with
      HessianRow. */
  lemma HessianFormFrob(c: real, f: M3, x: M3, y: M3)
    ensures HessianForm(c, f, x, y) == Frob(HessianRow(c, f, x), y)
  {
    HessianFormShape(c, f, x, y);
    ShapeFormFrob(f, x, y);
    HessianRowScale(c, f, x, y);
    DoubledScale(c, HessianForm(c, f, x, y), ShapeForm(f, x, y), Frob(ShapeRow(f, x), y),
                 Frob(HessianRow(c, f, x), y));
  }

  lemma HessianRowScale(c: real, f: M3, x: M3, y: M3)
    ensures Frob(HessianRow(c, f, x), y) == 4.0 * c * Frob(ShapeRow(f, x), y)
  {
    FrobQuadrupled(c, ShapeRow(f, x), HessianRow(c, f, x), y);
  }

  /** Scaling a matrix by 4c scales its Frobenius product with y by 4c. */
  lemma FrobQuadrupled(c: real, s: M3, h: M3, y: M3)
    requires h == MScale(4.0 * c, s)
    ensures Frob(h, y) == 4.0 * c * Frob(s, y)
  {
    FrobScaleLeft(4.0 * c, s, y);
    QuadrupleScale(c, 4.0 * c, Frob(s, y));
  }

  /** k·g = 4c·g when k = 4c. */
  lemma QuadrupleScale(c: real, k: real, g: real)
    requires k == 4.0 * c
    ensures k * g == 4.0 * c * g
  {
  }

  lemma DoubledScale(c: real, h: real, s: real, g: real, r: real)
    requires h == 2.0 * c * s
    requires s == 2.0 * g
    requires r == 4.0 * c * g
    ensures h == r
  {
  }

  /** The Frobenius product with the direction of pose entry j reads one entry of G. */
  lemma FrobDirections(g: M3)
    ensures Frob(g, Direction(0)) == g.m00 && Frob(g, Direction(1)) == g.m01
    ensures Frob(g, Direction(2)) == g.m02 && Frob(g, Direction(3)) == 0.0
    ensures Frob(g, Direction(4)) == g.m10 && Frob(g, Direction(5)) == g.m11
    ensures Frob(g, Direction(6)) == g.m12 && Frob(g, Direction(7)) == 0.0
    ensures Frob(g, Direction(8)) == g.m20 && Frob(g, Direction(9)) == g.m21
    ensures Frob(g, Direction(10)) == g.m22 && Frob(g, Direction(11)) == 0.0
  {
    FrobDirectionsFirst(g);
    FrobDirectionsMiddle(g);
    FrobDirectionsLast(g);
  }

  lemma FrobDirectionsFirst(g: M3)
    ensures Frob(g, Direction(0)) == g.m00 && Frob(g, Direction(1)) == g.m01
    ensures Frob(g, Direction(2)) == g.m02 && Frob(g, Direction(3)) == 0.0
  {
  }

  lemma FrobDirectionsMiddle(g: M3)
    ensures Frob(g, Direction(4)) == g.m10 && Frob(g, Direction(5)) == g.m11
    ensures Frob(g, Direction(6)) == g.m12 && Frob(g, Direction(7)) == 0.0
  {
  }

  lemma FrobDirectionsLast(g: M3)
    ensures Frob(g, Direction(8)) == g.m20 && Frob(g, Direction(9)) == g.m21
    ensures Frob(g, Direction(10)) == g.m22 && Frob(g, Direction(11)) == 0.0
  {
  }

  /** The Hessian forms of F in direction X against the directions of the twelve pose entries. */
  function FormRow(c: real, f: M3, x: M3): (r: Vec)
    ensures |r| == 12
  {
    seq(12, (j: nat) => HessianForm(c, f, x, Direction(j)))
  }

  lemma FormRowAt(c: real, f: M3, x: M3, j: nat)
    requires j < 12
    ensures FormRow(c, f, x)[j] == HessianForm(c, f, x, Direction(j))
  {
    var r := FormRow(c, f, x);
    assert r[j] == HessianForm(c, f, x, Direction(j));
  }

  /** A row whose entries are those of G at the F positions of the pose, and zero at the
      translation positions, pairs with d as G pairs with D. */
  lemma RowDot(r: Vec, g: M3, d: Vec)
    requires |r| == 12 && |d| == 12
    requires r[0] == g.m00 && r[1] == g.m01 && r[2] == g.m02 && r[3] == 0.0
    requires r[4] == g.m10 && r[5] == g.m11 && r[6] == g.m12 && r[7] == 0.0
    requires r[8] == g.m20 && r[9] == g.m21 && r[10] == g.m22 && r[11] == 0.0
    ensures Dot(r, d) == Frob(g, LinearPart(d))
  {
    Dot12Expand(r, d);
  }

  /** Entry j of FormRow is entry j of HessianRow in pose layout. */
  lemma FormRowEntries(c: real, f: M3, x: M3, g: M3)
    requires g == HessianRow(c, f, x)
    ensures var r := FormRow(c, f, x);
      r[0] == g.m00 && r[1] == g.m01 && r[2] == g.m02 && r[3] == 0.0
      && r[4] == g.m10 && r[5] == g.m11 && r[6] == g.m12 && r[7] == 0.0
      && r[8] == g.m20 && r[9] == g.m21 && r[10] == g.m22 && r[11] == 0.0
  {
    forall j: nat | j < 12
      ensures FormRow(c, f, x)[j] == Frob(g, Direction(j))
    {
      FormRowAt(c, f, x, j);
      HessianFormFrob(c, f, x, Direction(j));
    }
    FrobDirections(g);
  }

  /** The Hessian form is linear in D = LinearPart(d): it is the sum over the pose entries
      of d[j] times the form in that entry's direction. */
  lemma FormRowDot(c: real, f: M3, x: M3, d: Vec)
    requires |d| == 12
    ensures HessianForm(c, f, x, LinearPart(d)) == Dot(FormRow(c, f, x), d)
  {
    var g := HessianRow(c, f, x);
    FormRowEntries(c, f, x, g);
    RowDot(FormRow(c, f, x), g, d);
    HessianFormFrob(c, f, x, LinearPart(d));
  }

  /** The 12x12 Hessian block has the quadratic form of the Hessian form on F:
      dᵀ H d is the second derivative of the energy along d. */
  lemma BodyHessianQuadratic(c: real, q: Vec, d: Vec, f: M3, e: M3)
    requires |q| == 12 && |d| == 12 && f == LinearPart(q) && e == LinearPart(d)
    ensures Bilinear(BodyHessian(c, q), d, d) == HessianForm(c, f, e, e)
  {
    var h := BodyHessian(c, q);
    var hd := MatVec(h, d);
    forall i: nat | i < 12
      ensures hd[i] == FormRow(c, f, e)[i]
    {
      assert h[i] == FormRow(c, f, Direction(i)) by {
        forall j: nat | j < 12
          ensures h[i][j] == FormRow(c, f, Direction(i))[j]
        {
          BodyHessianEntry(c, q, i, j);
          FormRowAt(c, f, Direction(i), j);
        }
      }
      FormRowDot(c, f, Direction(i), d);
      HessianFormSymmetric(c, f, Direction(i), e);
      FormRowAt(c, f, e, i);
    }
    assert hd == FormRow(c, f, e);
    DotComm(d, hd);
    FormRowDot(c, f, e, d);
  }

  // ---------------------------------------------------------------------------
  // Kernels

  /** The per-body energies of a scene. */
  function BodyEnergies(c: real, qs: seq<Vec>): (e: Vec)
    requires forall i :: 0 <= i < |qs| ==> |qs[i]| == 12
    ensures |e| == |qs|
  {
    seq(|qs|, i requires 0 <= i < |qs| => BodyEnergy(c, qs[i]))
  }

  /** The energy kernel: thread b adds the energy of body b into the output cell,
      the threads' adds landing in the given order. */
  function EnergyKernel(cell: real, c: real, qs: seq<Vec>, order: seq<nat>): real
    requires forall i :: 0 <= i < |qs| ==> |qs[i]| == 12
    requires InBounds(order, |qs|)
  {
    AtomicAdds(cell, BodyEnergies(c, qs), order)
  }

  /** One launch over all bodies adds the total elastic energy to the cell, whatever
      order the threads run in; the caller zeroes the cell first, so it ends holding the total. */
  lemma EnergyKernelTotal(cell: real, c: real, qs: seq<Vec>, order: seq<nat>)
    requires forall i :: 0 <= i < |qs| ==> |qs[i]| == 12
    requires multiset(order) == multiset(Range(|qs|))
    ensures InBounds(order, |qs|)
    ensures EnergyKernel(cell, c, qs, order) == cell + Sum(BodyEnergies(c, qs))
  {
    AtomicAddsOrderIndependent(cell, BodyEnergies(c, qs), order);
  }

  /** The gradient kernel: thread b overwrites slot b with the gradient of body b. */
  method GradientKernel(gOut: seq<Vec>, c: real, qs: seq<Vec>) returns (g: seq<Vec>)
    requires forall i :: 0 <= i < |qs| ==> |qs[i]| == 12
    requires |gOut| == |qs|
    ensures |g| == |qs|
    ensures forall b :: 0 <= b < |qs| ==> g[b] == BodyGradient(c, qs[b])
  {
    g := gOut;
    var b := 0;
    while b < |qs|
      invariant 0 <= b <= |qs| && |g| == |qs|
      invariant forall i :: 0 <= i < b ==> g[i] == BodyGradient(c, qs[i])
    {
      g := g[b := BodyGradient(c, qs[b])];
      b := b + 1;
    }
  }

  /** The Hessian kernel: thread b overwrites block b with the Hessian of body b. */
  method HessianKernel(hOut: seq<Mat>, c: real, qs: seq<Vec>) returns (h: seq<Mat>)
    requires forall i :: 0 <= i < |qs| ==> |qs[i]| == 12
    requires |hOut| == |qs|
    ensures |h| == |qs|
    ensures forall b :: 0 <= b < |qs| ==> h[b] == BodyHessian(c, qs[b])
  {
    h := hOut;
    var b := 0;
    while b < |qs|
      invariant 0 <= b <= |qs| && |h| == |qs|
      invariant forall i :: 0 <= i < b ==> h[i] == BodyHessian(c, qs[i])
    {
      h := h[b := BodyHessian(c, qs[b])];
      b := b + 1;
    }
  }
}
