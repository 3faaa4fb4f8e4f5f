/** The penalty spring that resists interpenetration at one contact, and the three kernels
    that sum it over the contact list: energy, gradient and Hessian blocks.

    A contact pairs the rest position X_a on body a with the rest position X_b on body b
    and carries the world normal n. With x_a = J(X_a)·q_a and x_b = J(X_b)·q_b the
    penetration depth is d = n·(x_b - x_a) and the energy is k·d². Because d is linear in
    the poses (d = u_b·q_b - u_a·q_a with u = J(X)ᵀn), the energy is a quadratic: its
    gradient is ±2kd·u and its Hessian is the constant rank-one matrix 2k·[-u_a; u_b][-u_a; u_b]ᵀ,
    cut into the four 12x12 blocks the assembly stores. */
module Penalty {
  import opened LinAlg
  import opened Geometry
  import opened Kinematics
  import opened Atomics
  import opened Collision

  // ---------------------------------------------------------------------------
  // One contact
  // ---------------------------------------------------------------------------

  /** The penetration depth n·(x_b - x_a). */
  function Depth(n: V3, xa: V3, xb: V3, qa: Vec, qb: Vec): real
    requires |qa| == 12 && |qb| == 12
  {
    Dot3(n, Sub3(World(qb, xb), World(qa, xa)))
  }

  /** The depth is linear in the two poses: d = J(X_b)ᵀn·q_b - J(X_a)ᵀn·q_a. */
  lemma DepthLinear(n: V3, xa: V3, xb: V3, qa: Vec, qb: Vec)
    requires |qa| == 12 && |qb| == 12
    ensures Depth(n, xa, xb, qa, qb)
      == Dot(JacobianTransposeApply(xb, n), qb) - Dot(JacobianTransposeApply(xa, n), qa)
  {
    NormalComponent(xa, n, qa);
    NormalComponent(xb, n, qb);
    Dot3Sub(n, World(qb, xb), World(qa, xa));
  }

  lemma Dot3Sub(n: V3, u: V3, v: V3)
    ensures Dot3(n, Sub3(u, v)) == Dot3(n, u) - Dot3(n, v)
  {
  }

  /** The energy k·d² of a spring of stiffness k compressed to depth d. */
  function SpringEnergy(k: real, d: real): (e: real)
    ensures k >= 0.0 ==> e >= 0.0
    ensures d == 0.0 ==> e == 0.0
  {
    assert d * d >= 0.0;
    k * (d * d)
  }

  /** The penalty energy of one contact: the spring energy at the contact's depth. */
  function Energy(k: real, n: V3, xa: V3, xb: V3, qa: Vec, qb: Vec): (e: real)
    requires |qa| == 12 && |qb| == 12
  {
    SpringEnergy(k, Depth(n, xa, xb, qa, qb))
  }

  /** dE/dd = 2kd, the magnitude of the spring's push along the normal. */
  function Force(k: real, d: real): real {
    2.0 * k * d
  }

  /** The first-order term 2kd·(b - a) of a spring at depth d whose depth changes by b - a:
      the work of the spring force over that change. */
  function ForceWork(k: real, d: real, a: real, b: real): real {
    Force(k, d) * (b - a)
  }

  /** The second-order term 2k·(b - a)² of a spring whose depth changes by b - a. */
  function CurvatureForm(k: real, a: real, b: real): (r: real)
    ensures k >= 0.0 ==> r >= 0.0
  {
    assert (b - a) * (b - a) >= 0.0;
    2.0 * k * ((b - a) * (b - a))
  }

  /** ∂E/∂q_a = -2kd·J(X_a)ᵀn. */
  function GradA(k: real, n: V3, xa: V3, xb: V3, qa: Vec, qb: Vec): (g: Vec)
    requires |qa| == 12 && |qb| == 12
    ensures |g| == 12
  {
    Scale(-Force(k, Depth(n, xa, xb, qa, qb)), JacobianTransposeApply(xa, n))
  }

  /** ∂E/∂q_b = 2kd·J(X_b)ᵀn. */
  function GradB(k: real, n: V3, xa: V3, xb: V3, qa: Vec, qb: Vec): (g: Vec)
    requires |qa| == 12 && |qb| == 12
    ensures |g| == 12
  {
    Scale(Force(k, Depth(n, xa, xb, qa, qb)), JacobianTransposeApply(xb, n))
  }

  /** A diagonal block 2k·u uᵀ. */
  function SelfBlock(k: real, u: Vec): (h: Mat)
    ensures IsMatrix(h, |u|, |u|)
  {
    MatScale(2.0 * k, Outer(u, u))
  }

  /** A mixed block -2k·u vᵀ. */
  function CrossBlock(k: real, u: Vec, v: Vec): (h: Mat)
    ensures IsMatrix(h, |u|, |v|)
  {
    MatScale(-2.0 * k, Outer(u, v))
  }

  /** The diagonal block of the body whose contact point has rest position x: 2k·u uᵀ with
      u = J(x)ᵀn. It is H_aa for x = x_a and H_bb for x = x_b. */
  function HessDiag(k: real, n: V3, x: V3): (h: Mat)
    ensures IsMatrix(h, 12, 12)
  {
    SelfBlock(k, JacobianTransposeApply(x, n))
  }

  /** H_ab = -2k·u_a u_bᵀ, the mixed block in row a and column b. */
  function HessAB(k: real, n: V3, xa: V3, xb: V3): (h: Mat)
    ensures IsMatrix(h, 12, 12)
  {
    CrossBlock(k, JacobianTransposeApply(xa, n), JacobianTransposeApply(xb, n))
  }

  /** H_ba, the transpose of H_ab. */
  function HessBA(k: real, n: V3, xa: V3, xb: V3): (h: Mat)
    ensures IsMatrix(h, 12, 12)
  {
    Transpose(HessAB(k, n, xa, xb), 12)
  }

  /** The quadratic form of the 24x24 contact Hessian [H_aa H_ab; H_ba H_bb] at (δ_a, δ_b). */
  function ContactForm(k: real, n: V3, xa: V3, xb: V3, da: Vec, db: Vec): real
    requires |da| == 12 && |db| == 12
  {
    Bilinear(HessDiag(k, n, xa), da, da) + Bilinear(HessAB(k, n, xa, xb), da, db)
      + Bilinear(HessBA(k, n, xa, xb), db, da) + Bilinear(HessDiag(k, n, xb), db, db)
  }

  lemma ScaledOuterForm(s: real, u: Vec, v: Vec, x: Vec, y: Vec)
    requires |u| == |x| && |v| == |y|
    ensures Bilinear(MatScale(s, Outer(u, v)), x, y) == s * (Dot(u, x) * Dot(v, y))
  {
    MatScaleVec(s, Outer(u, v), y);
    DotScaleRight(x, s, MatVec(Outer(u, v), y));
    BilinearOuter(u, v, x, y);
  }

  /** The transpose of a mixed block is the mixed block with its factors swapped. */
  lemma CrossBlockTranspose(k: real, u: Vec, v: Vec)
    ensures Transpose(CrossBlock(k, u, v), |v|) == CrossBlock(k, v, u)
  {
    TransposeScale(-2.0 * k, Outer(u, v), |v|);
    TransposeOuter(u, v);
  }

  /** The quadratic form of the blocks of 2k·w wᵀ with w = (-u, v), at (x, y). */
  function PairForm(k: real, u: Vec, v: Vec, x: Vec, y: Vec): real
    requires |u| == |x| && |v| == |y|
  {
    Bilinear(SelfBlock(k, u), x, x) + Bilinear(CrossBlock(k, u, v), x, y)
      + Bilinear(Transpose(CrossBlock(k, u, v), |v|), y, x) + Bilinear(SelfBlock(k, v), y, y)
  }

  lemma SquareExpand(k: real, a: real, b: real)
    ensures 2.0 * k * (a * a) + -2.0 * k * (a * b) + -2.0 * k * (b * a) + 2.0 * k * (b * b)
      == CurvatureForm(k, a, b)
  {
  }

  lemma SelfForm(k: real, u: Vec, x: Vec)
    requires |u| == |x|
    ensures Bilinear(SelfBlock(k, u), x, x) == 2.0 * k * (Dot(u, x) * Dot(u, x))
  {
    ScaledOuterForm(2.0 * k, u, u, x, x);
  }

  lemma CrossForm(k: real, u: Vec, v: Vec, x: Vec, y: Vec)
    requires |u| == |x| && |v| == |y|
    ensures Bilinear(CrossBlock(k, u, v), x, y) == -2.0 * k * (Dot(u, x) * Dot(v, y))
  {
    ScaledOuterForm(-2.0 * k, u, v, x, y);
  }

  lemma CrossTransposeForm(k: real, u: Vec, v: Vec, x: Vec, y: Vec)
    requires |u| == |x| && |v| == |y|
    ensures Bilinear(Transpose(CrossBlock(k, u, v), |v|), y, x) == -2.0 * k * (Dot(v, y) * Dot(u, x))
  {
    CrossBlockTranspose(k, u, v);
    CrossForm(k, v, u, y, x);
  }

  /** The form is 2k·(v·y - u·x)². */
  lemma PairFormValue(k: real, u: Vec, v: Vec, x: Vec, y: Vec)
    requires |u| == |x| && |v| == |y|
    ensures PairForm(k, u, v, x, y) == CurvatureForm(k, Dot(u, x), Dot(v, y))
  {
    SelfForm(k, u, x);
    CrossForm(k, u, v, x, y);
    CrossTransposeForm(k, u, v, x, y);
    SelfForm(k, v, y);
    SquareExpand(k, Dot(u, x), Dot(v, y));
  }

  /** The contact Hessian is 2k times the square of the depth's change: its quadratic form
      at (δ_a, δ_b) is 2k·(u_b·δ_b - u_a·δ_a)², so the Hessian is positive semi-definite
      for a non-negative stiffness. */
  lemma ContactFormValue(k: real, n: V3, xa: V3, xb: V3, da: Vec, db: Vec)
    requires |da| == 12 && |db| == 12
    ensures ContactForm(k, n, xa, xb, da, db)
      == CurvatureForm(k, Dot(JacobianTransposeApply(xa, n), da), Dot(JacobianTransposeApply(xb, n), db))
    ensures k >= 0.0 ==> ContactForm(k, n, xa, xb, da, db) >= 0.0
  {
    ContactFormIsPairForm(k, n, xa, xb, da, db);
    PairFormValue(k, JacobianTransposeApply(xa, n), JacobianTransposeApply(xb, n), da, db);
  }

  lemma ContactFormIsPairForm(k: real, n: V3, xa: V3, xb: V3, da: Vec, db: Vec)
    requires |da| == 12 && |db| == 12
    ensures ContactForm(k, n, xa, xb, da, db)
      == PairForm(k, JacobianTransposeApply(xa, n), JacobianTransposeApply(xb, n), da, db)
  {
  }

  /** The energy is exactly its second-order expansion: moving the poses by (δ_a, δ_b)
      changes it by the gradient's directional derivative plus half the Hessian's
      quadratic form, with no remainder. So GradA, GradB and the four blocks are the
      exact first and second derivatives of Energy. */
  lemma EnergyExpansion(k: real, n: V3, xa: V3, xb: V3, qa: Vec, qb: Vec, da: Vec, db: Vec)
    requires |qa| == 12 && |qb| == 12 && |da| == 12 && |db| == 12
    ensures Energy(k, n, xa, xb, Add(qa, da), Add(qb, db))
      == Energy(k, n, xa, xb, qa, qb)
        + Dot(GradA(k, n, xa, xb, qa, qb), da) + Dot(GradB(k, n, xa, xb, qa, qb), db)
        + ContactForm(k, n, xa, xb, da, db) / 2.0
  {
    EnergyMovedExpansion(k, n, xa, xb, qa, qb, da, db);
    ContactFormValue(k, n, xa, xb, da, db);
  }

  /** The expansion with the quadratic term written as 2k·(u_b·δ_b - u_a·δ_a)². */
  lemma EnergyMovedExpansion(k: real, n: V3, xa: V3, xb: V3, qa: Vec, qb: Vec, da: Vec, db: Vec)
    requires |qa| == 12 && |qb| == 12 && |da| == 12 && |db| == 12
    ensures Energy(k, n, xa, xb, Add(qa, da), Add(qb, db))
      == Energy(k, n, xa, xb, qa, qb)
        + Dot(GradA(k, n, xa, xb, qa, qb), da) + Dot(GradB(k, n, xa, xb, qa, qb), db)
        + CurvatureForm(k, Dot(JacobianTransposeApply(xa, n), da), Dot(JacobianTransposeApply(xb, n), db)) / 2.0
  {
    DepthMoved(n, xa, xb, qa, qb, da, db);
    GradientDirectional(k, n, xa, xb, qa, qb, da, db);
    SpringExpansion(k, Depth(n, xa, xb, qa, qb), Depth(n, xa, xb, Add(qa, da), Add(qb, db)),
      Dot(JacobianTransposeApply(xa, n), da), Dot(JacobianTransposeApply(xb, n), db));
  }

  /** The spring energy's Taylor expansion in the depth, which is exact at second order:
      E(d + (b - a)) = E(d) + 2kd·(b - a) + 2k·(b - a)²/2. */
  lemma SpringExpansion(k: real, d: real, d2: real, a: real, b: real)
    requires d2 == d + (b - a)
    ensures SpringEnergy(k, d2) == SpringEnergy(k, d) + ForceWork(k, d, a, b) + CurvatureForm(k, a, b) / 2.0
  {
  }

  /** The gradient's directional derivative along (δ_a, δ_b) is the force times the
      depth's change. */
  lemma GradientDirectional(k: real, n: V3, xa: V3, xb: V3, qa: Vec, qb: Vec, da: Vec, db: Vec)
    requires |qa| == 12 && |qb| == 12 && |da| == 12 && |db| == 12
    ensures Dot(GradA(k, n, xa, xb, qa, qb), da) + Dot(GradB(k, n, xa, xb, qa, qb), db)
      == ForceWork(k, Depth(n, xa, xb, qa, qb),
           Dot(JacobianTransposeApply(xa, n), da), Dot(JacobianTransposeApply(xb, n), db))
  {
    GradADot(k, n, xa, xb, qa, qb, da);
    GradBDot(k, n, xa, xb, qa, qb, db);
  }

  /** The directional derivative of the energy along δ_a. */
  lemma GradADot(k: real, n: V3, xa: V3, xb: V3, qa: Vec, qb: Vec, da: Vec)
    requires |qa| == 12 && |qb| == 12 && |da| == 12
    ensures Dot(GradA(k, n, xa, xb, qa, qb), da)
      == -Force(k, Depth(n, xa, xb, qa, qb)) * Dot(JacobianTransposeApply(xa, n), da)
  {
    DotScaleLeft(-Force(k, Depth(n, xa, xb, qa, qb)), JacobianTransposeApply(xa, n), da);
  }

  /** The directional derivative of the energy along δ_b. */
  lemma GradBDot(k: real, n: V3, xa: V3, xb: V3, qa: Vec, qb: Vec, db: Vec)
    requires |qa| == 12 && |qb| == 12 && |db| == 12
    ensures Dot(GradB(k, n, xa, xb, qa, qb), db)
      == Force(k, Depth(n, xa, xb, qa, qb)) * Dot(JacobianTransposeApply(xb, n), db)
  {
    DotScaleLeft(Force(k, Depth(n, xa, xb, qa, qb)), JacobianTransposeApply(xb, n), db);
  }

  /** Moving the poses by (δ_a, δ_b) moves the depth by u_b·δ_b - u_a·δ_a. */
  lemma DepthMoved(n: V3, xa: V3, xb: V3, qa: Vec, qb: Vec, da: Vec, db: Vec)
    requires |qa| == 12 && |qb| == 12 && |da| == 12 && |db| == 12
    ensures Depth(n, xa, xb, Add(qa, da), Add(qb, db))
      == Depth(n, xa, xb, qa, qb) + (Dot(JacobianTransposeApply(xb, n), db) - Dot(JacobianTransposeApply(xa, n), da))
  {
    var ua, ub := JacobianTransposeApply(xa, n), JacobianTransposeApply(xb, n);
    DepthLinear(n, xa, xb, qa, qb);
    DepthLinear(n, xa, xb, Add(qa, da), Add(qb, db));
    DotAddRight(ua, qa, da);
    DotAddRight(ub, qb, db);
  }

  /** Flipping the normal flips the depth's sign and leaves the energy unchanged. */
  lemma EnergyNormalNegation(k: real, n: V3, xa: V3, xb: V3, qa: Vec, qb: Vec)
    requires |qa| == 12 && |qb| == 12
    ensures Depth(Neg3(n), xa, xb, qa, qb) == -Depth(n, xa, xb, qa, qb)
    ensures Energy(k, Neg3(n), xa, xb, qa, qb) == Energy(k, n, xa, xb, qa, qb)
  {
  }

  /** Translating both bodies by the same τ changes neither the depth nor the energy. */
  lemma EnergyTranslationInvariant(k: real, n: V3, xa: V3, xb: V3, qa: Vec, qb: Vec, tau: V3)
    requires |qa| == 12 && |qb| == 12
    ensures Depth(n, xa, xb, Translate(qa, tau), Translate(qb, tau)) == Depth(n, xa, xb, qa, qb)
    ensures Energy(k, n, xa, xb, Translate(qa, tau), Translate(qb, tau))
      == Energy(k, n, xa, xb, qa, qb)
  {
    TranslateShiftsWorld(qa, tau, xa);
    TranslateShiftsWorld(qb, tau, xb);
  }

  /** The translational parts of the two gradients are equal and opposite and point along
      the normal: the spring pushes b by 2kd·n and a by -2kd·n. */
  lemma GradientTranslationOpposite(k: real, n: V3, xa: V3, xb: V3, qa: Vec, qb: Vec)
    requires |qa| == 12 && |qb| == 12
    ensures Translation(GradB(k, n, xa, xb, qa, qb)) == Scale3(Force(k, Depth(n, xa, xb, qa, qb)), n)
    ensures Translation(GradA(k, n, xa, xb, qa, qb)) == Neg3(Translation(GradB(k, n, xa, xb, qa, qb)))
  {
    GradTranslation(-Force(k, Depth(n, xa, xb, qa, qb)), xa, n);
    GradTranslation(Force(k, Depth(n, xa, xb, qa, qb)), xb, n);
    NegScale3(Force(k, Depth(n, xa, xb, qa, qb)), n);
  }

  /** The translational part of s·J(X)ᵀn is s·n. */
  lemma GradTranslation(s: real, x: V3, n: V3)
    ensures Translation(Scale(s, JacobianTransposeApply(x, n))) == Scale3(s, n)
  {
    JacobianTransposeTranslation(x, n);
    assert Translation(JacobianTransposeApply(x, n)) == n;
    TranslationScale(s, JacobianTransposeApply(x, n));
  }

  lemma TranslationScale(s: real, u: Vec)
    requires |u| == 12
    ensures Translation(Scale(s, u)) == Scale3(s, Translation(u))
  {
    var w := Scale(s, u);
    assert w[3] == s * u[3] && w[7] == s * u[7] && w[11] == s * u[11];
  }

  lemma NegScale3(s: real, v: V3)
    ensures Scale3(-s, v) == Neg3(Scale3(s, v))
  {
  }

  /** A contact at zero depth exerts no force on either body. */
  lemma GradientZeroAtZeroDepth(k: real, n: V3, xa: V3, xb: V3, qa: Vec, qb: Vec)
    requires |qa| == 12 && |qb| == 12
    requires Depth(n, xa, xb, qa, qb) == 0.0
    ensures GradA(k, n, xa, xb, qa, qb) == Zeros(12)
    ensures GradB(k, n, xa, xb, qa, qb) == Zeros(12)
  {
    var ga, gb := GradA(k, n, xa, xb, qa, qb), GradB(k, n, xa, xb, qa, qb);
    assert forall i :: 0 <= i < 12 ==> ga[i] == 0.0;
    assert forall i :: 0 <= i < 12 ==> gb[i] == 0.0;
  }

  /** The diagonal blocks are symmetric and H_ba is the transpose of H_ab entry by entry. */
  lemma HessianBlocksSymmetric(k: real, n: V3, xa: V3, xb: V3)
    ensures Symmetric(HessDiag(k, n, xa), 12)
    ensures Symmetric(HessDiag(k, n, xb), 12)
    ensures forall i, j :: 0 <= i < 12 && 0 <= j < 12 ==>
      HessBA(k, n, xa, xb)[i][j] == HessAB(k, n, xa, xb)[j][i]
  {
    ScaledOuterSymmetric(2.0 * k, JacobianTransposeApply(xa, n));
    ScaledOuterSymmetric(2.0 * k, JacobianTransposeApply(xb, n));
  }

  lemma ScaledOuterSymmetric(s: real, u: Vec)
    ensures Symmetric(MatScale(s, Outer(u, u)), |u|)
  {
    var m := MatScale(s, Outer(u, u));
    forall i, j | 0 <= i < |u| && 0 <= j < |u|
      ensures m[i][j] == m[j][i]
    {
      assert m[i][j] == s * (u[i] * u[j]);
      assert m[j][i] == s * (u[j] * u[i]);
    }
  }

  // ---------------------------------------------------------------------------
  // The contact list
  // ---------------------------------------------------------------------------

  /** Every contact names two bodies of the scene. */
  ghost predicate ContactsInRange(contacts: seq<Contact>, bodies: nat) {
    forall c :: 0 <= c < |contacts| ==>
      0 <= contacts[c].object1 < bodies && 0 <= contacts[c].object2 < bodies
  }

  /** The energy of contact c at the global poses qs. */
  function ContactEnergy(k: real, qs: seq<Vec>, c: Contact): real
    requires IsGlobalPose(qs)
    requires 0 <= c.object1 < |qs| && 0 <= c.object2 < |qs|
  {
    Energy(k, c.normal, c.refPos1, c.refPos2, qs[c.object1], qs[c.object2])
  }

  /** What each of dim threads adds to the energy cell: thread t handles contact t, and a
      thread at or past the end of the contact list returns without adding. */
  function ThreadEnergies(k: real, qs: seq<Vec>, contacts: seq<Contact>, dim: nat): (v: Vec)
    requires IsGlobalPose(qs) && ContactsInRange(contacts, |qs|)
    ensures |v| == dim
  {
    seq(dim, t requires 0 <= t < dim =>
      if t < |contacts| then ContactEnergy(k, qs, contacts[t]) else 0.0)
  }

  /** The energies of a list of contacts. */
  function ContactEnergies(k: real, qs: seq<Vec>, contacts: seq<Contact>): (v: Vec)
    requires IsGlobalPose(qs) && ContactsInRange(contacts, |qs|)
    ensures |v| == |contacts|
    ensures forall c :: 0 <= c < |contacts| ==> v[c] == ContactEnergy(k, qs, contacts[c])
  {
    seq(|contacts|, c requires 0 <= c < |contacts| => ContactEnergy(k, qs, contacts[c]))
  }

  /** The energy launch over dim threads, its atomic adds landing in the given order. */
  function EnergyLaunch(acc: real, k: real, qs: seq<Vec>, contacts: seq<Contact>, dim: nat,
                        order: seq<nat>): real
    requires IsGlobalPose(qs) && ContactsInRange(contacts, |qs|) && InBounds(order, dim)
  {
    AtomicAdds(acc, ThreadEnergies(k, qs, contacts, dim), order)
  }

  /** However the adds interleave, the energy cell gains the energies of the first
      min(dim, |contacts|) contacts; threads past the list's end add nothing. With a
      non-negative stiffness and starting content the total is non-negative. */
  lemma EnergyLaunchTotal(acc: real, k: real, qs: seq<Vec>, contacts: seq<Contact>, dim: nat,
                          order: seq<nat>)
    requires IsGlobalPose(qs) && ContactsInRange(contacts, |qs|)
    requires multiset(order) == multiset(Range(dim))
    ensures InBounds(order, dim)
    ensures var m := if dim < |contacts| then dim else |contacts|;
      EnergyLaunch(acc, k, qs, contacts, dim, order)
        == acc + Sum(ContactEnergies(k, qs, contacts[..m]))
    ensures k >= 0.0 && acc >= 0.0 ==> EnergyLaunch(acc, k, qs, contacts, dim, order) >= 0.0
  {
    var vals := ThreadEnergies(k, qs, contacts, dim);
    AtomicAddsOrderIndependent(acc, vals, order);
    var m := if dim < |contacts| then dim else |contacts|;
    var e := ContactEnergies(k, qs, contacts[..m]);
    assert vals == e + Zeros(dim - m);
    SumConcat(e, Zeros(dim - m));
    SumZeros(dim - m);
    if k >= 0.0 {
      SumNonNegative(e);
    }
  }

  // ---------------------------------------------------------------------------
  // The gradient launch
  // ---------------------------------------------------------------------------

  /** Every per-body block holds twelve entries. */
  ghost predicate Blocks(g: seq<Vec>) {
    forall i :: 0 <= i < |g| ==> |g[i]| == 12
  }

  /** An atomic add of u into block i. */
  function AddAt(g: seq<Vec>, i: int, u: Vec): (r: seq<Vec>)
    requires 0 <= i < |g| && |g[i]| == |u|
    ensures |r| == |g|
  {
    g[i := Add(g[i], u)]
  }

  /** Thread t of the gradient launch: it adds GradA into the block of body a and GradB
      into the block of body b; a thread past the list's end does nothing. */
  function GradientThread(g: seq<Vec>, k: real, qs: seq<Vec>, contacts: seq<Contact>, t: nat)
    : (r: seq<Vec>)
    requires IsGlobalPose(qs) && ContactsInRange(contacts, |qs|) && Blocks(g) && |g| == |qs|
    ensures |r| == |g| && Blocks(r)
  {
    if t >= |contacts| then g
    else
      var c := contacts[t];
      var qa, qb := qs[c.object1], qs[c.object2];
      var g1 := AddAt(g, c.object1, GradA(k, c.normal, c.refPos1, c.refPos2, qa, qb));
      AddAt(g1, c.object2, GradB(k, c.normal, c.refPos1, c.refPos2, qa, qb))
  }

  /** The gradient launch, its threads' adds landing in the given order. */
  function GradientLaunch(g: seq<Vec>, k: real, qs: seq<Vec>, contacts: seq<Contact>,
                          order: seq<nat>): (r: seq<Vec>)
    requires IsGlobalPose(qs) && ContactsInRange(contacts, |qs|) && Blocks(g) && |g| == |qs|
    ensures |r| == |g| && Blocks(r)
    decreases |order|
  {
    if |order| == 0 then g
    else GradientLaunch(GradientThread(g, k, qs, contacts, order[0]), k, qs, contacts, order[1..])
  }

  /** A thread touches only the blocks of its contact's two bodies, adding the two
      gradients there; a thread past the list's end changes nothing. */
  lemma GradientThreadEffect(g: seq<Vec>, k: real, qs: seq<Vec>, contacts: seq<Contact>, t: nat)
    requires IsGlobalPose(qs) && ContactsInRange(contacts, |qs|) && Blocks(g) && |g| == |qs|
    ensures t >= |contacts| ==> GradientThread(g, k, qs, contacts, t) == g
    ensures t < |contacts| ==>
      var c := contacts[t];
      var qa, qb := qs[c.object1], qs[c.object2];
      var r := GradientThread(g, k, qs, contacts, t);
      var ga := GradA(k, c.normal, c.refPos1, c.refPos2, qa, qb);
      var gb := GradB(k, c.normal, c.refPos1, c.refPos2, qa, qb);
      (forall i :: 0 <= i < |g| && i != c.object1 && i != c.object2 ==> r[i] == g[i])
      && (c.object1 != c.object2 ==> r[c.object1] == Add(g[c.object1], ga)
                                     && r[c.object2] == Add(g[c.object2], gb))
      && (c.object1 == c.object2 ==> r[c.object1] == Add(Add(g[c.object1], ga), gb))
  {
  }

  /** Two atomic adds commute, into the same block or into different ones. */
  lemma AddAtCommute(g: seq<Vec>, i: int, u: Vec, j: int, v: Vec)
    requires 0 <= i < |g| && 0 <= j < |g| && |g[i]| == |u| && |g[j]| == |v|
    ensures AddAt(AddAt(g, i, u), j, v) == AddAt(AddAt(g, j, v), i, u)
  {
    if i == j {
      var l, r := Add(Add(g[i], u), v), Add(Add(g[i], v), u);
      assert forall m :: 0 <= m < |l| ==> l[m] == r[m];
      assert l == r;
    }
  }

  /** Two threads of the gradient launch leave the same blocks whichever adds first. */
  lemma GradientThreadsCommute(g: seq<Vec>, k: real, qs: seq<Vec>, contacts: seq<Contact>,
                               s: nat, t: nat)
    requires IsGlobalPose(qs) && ContactsInRange(contacts, |qs|) && Blocks(g) && |g| == |qs|
    ensures GradientThread(GradientThread(g, k, qs, contacts, s), k, qs, contacts, t)
      == GradientThread(GradientThread(g, k, qs, contacts, t), k, qs, contacts, s)
  {
    if s < |contacts| && t < |contacts| {
      var cs, ct := contacts[s], contacts[t];
      var as_, bs := cs.object1, cs.object2;
      var at, bt := ct.object1, ct.object2;
      var gas := GradA(k, cs.normal, cs.refPos1, cs.refPos2, qs[as_], qs[bs]);
      var gbs := GradB(k, cs.normal, cs.refPos1, cs.refPos2, qs[as_], qs[bs]);
      var gat := GradA(k, ct.normal, ct.refPos1, ct.refPos2, qs[at], qs[bt]);
      var gbt := GradB(k, ct.normal, ct.refPos1, ct.refPos2, qs[at], qs[bt]);
      // s then t: (((g + gas@as) + gbs@bs) + gat@at) + gbt@bt; move gat and gbt to the front.
      var g1 := AddAt(g, as_, gas);
      var g2 := AddAt(g1, bs, gbs);
      AddAtCommute(g1, bs, gbs, at, gat);
      AddAtCommute(g, as_, gas, at, gat);
      var h1 := AddAt(g, at, gat);
      var h2 := AddAt(AddAt(h1, as_, gas), bs, gbs);
      assert AddAt(g2, at, gat) == h2;
      AddAtCommute(AddAt(h1, as_, gas), bs, gbs, bt, gbt);
      AddAtCommute(h1, as_, gas, bt, gbt);
    }
  }

  /** Thread o[k] can be moved to the front of the launch order. */
  lemma {:induction false} MoveToFront(g: seq<Vec>, k: real, qs: seq<Vec>, contacts: seq<Contact>,
                                       o: seq<nat>, p: nat)
    requires IsGlobalPose(qs) && ContactsInRange(contacts, |qs|) && Blocks(g) && |g| == |qs|
    requires p < |o|
    ensures GradientLaunch(g, k, qs, contacts, o)
      == GradientLaunch(GradientThread(g, k, qs, contacts, o[p]), k, qs, contacts, o[..p] + o[p + 1..])
    decreases p
  {
    if p == 0 {
      assert o[..0] + o[1..] == o[1..];
    } else {
      var g1 := GradientThread(g, k, qs, contacts, o[0]);
      MoveToFront(g1, k, qs, contacts, o[1..], p - 1);
      RemoveAfterFirst(o, p);
      GradientThreadsCommute(g, k, qs, contacts, o[0], o[p]);
      var front := GradientThread(g, k, qs, contacts, o[p]);
      var tail := o[..p] + o[p + 1..];
      calc {
        GradientLaunch(front, k, qs, contacts, tail);
        GradientLaunch(GradientThread(front, k, qs, contacts, o[0]), k, qs, contacts, tail[1..]);
        GradientLaunch(GradientThread(g1, k, qs, contacts, o[p]), k, qs, contacts, o[1..][..p - 1] + o[1..][p..]);
      }
    }
  }

  /** Removing entry p > 0 keeps the first entry in front; the rest is the tail with its
      entry p - 1 removed. */
  lemma RemoveAfterFirst(o: seq<nat>, p: nat)
    requires 0 < p < |o|
    ensures o[1..][p - 1] == o[p]
    ensures (o[..p] + o[p + 1..])[0] == o[0]
    ensures (o[..p] + o[p + 1..])[1..] == o[1..][..p - 1] + o[1..][p..]
  {
  }

  /** The blocks the gradient launch leaves do not depend on the order in which its
      threads' atomic adds land. */
  lemma {:induction false} GradientLaunchOrderIndependent(g: seq<Vec>, k: real, qs: seq<Vec>,
                                                          contacts: seq<Contact>, o1: seq<nat>, o2: seq<nat>)
    requires IsGlobalPose(qs) && ContactsInRange(contacts, |qs|) && Blocks(g) && |g| == |qs|
    requires multiset(o1) == multiset(o2)
    ensures GradientLaunch(g, k, qs, contacts, o1) == GradientLaunch(g, k, qs, contacts, o2)
    decreases |o1|
  {
    if |o1| == 0 {
      assert |o2| == |multiset(o2)| == 0;
    } else {
      assert o1[0] in multiset(o2);
      var p :| 0 <= p < |o2| && o2[p] == o1[0];
      RemoveIndex(o1, o2, p);
      MoveToFront(g, k, qs, contacts, o2, p);
      GradientLaunchOrderIndependent(GradientThread(g, k, qs, contacts, o1[0]), k, qs, contacts,
                                     o1[1..], o2[..p] + o2[p + 1..]);
    }
  }

  /** The sum of the translational parts of all blocks: the net force on the scene's
      centres of mass. */
  function TranslationTotal(g: seq<Vec>): V3
    requires Blocks(g)
    decreases |g|
  {
    if |g| == 0 then V3(0.0, 0.0, 0.0) else Add3(Translation(g[0]), TranslationTotal(g[1..]))
  }

  /** An add into one block moves the translation total by the added translation. */
  lemma {:induction false} AddAtTotal(g: seq<Vec>, i: nat, u: Vec)
    requires Blocks(g) && i < |g| && |u| == 12
    ensures Blocks(AddAt(g, i, u))
    ensures TranslationTotal(AddAt(g, i, u)) == Add3(TranslationTotal(g), Translation(u))
    decreases i
  {
    var r := AddAt(g, i, u);
    assert Translation(Add(g[i], u)) == Add3(Translation(g[i]), Translation(u));
    if i == 0 {
      assert r[1..] == g[1..];
    } else {
      assert r[1..] == AddAt(g[1..], i - 1, u);
      AddAtTotal(g[1..], i - 1, u);
    }
  }

  /** Each contact pushes its two bodies with equal and opposite translational forces, so a
      gradient thread leaves the translation total unchanged. */
  lemma GradientThreadBalanced(g: seq<Vec>, k: real, qs: seq<Vec>, contacts: seq<Contact>, t: nat)
    requires IsGlobalPose(qs) && ContactsInRange(contacts, |qs|) && Blocks(g) && |g| == |qs|
    ensures TranslationTotal(GradientThread(g, k, qs, contacts, t)) == TranslationTotal(g)
  {
    if t < |contacts| {
      var c := contacts[t];
      var qa, qb := qs[c.object1], qs[c.object2];
      var ga := GradA(k, c.normal, c.refPos1, c.refPos2, qa, qb);
      var gb := GradB(k, c.normal, c.refPos1, c.refPos2, qa, qb);
      GradientTranslationOpposite(k, c.normal, c.refPos1, c.refPos2, qa, qb);
      OpposedAddsBalanced(g, c.object1, ga, c.object2, gb);
    }
  }

  /** Adding u into block i and v into block j, with opposite translational parts, leaves
      the translation total unchanged. */
  lemma OpposedAddsBalanced(g: seq<Vec>, i: nat, u: Vec, j: nat, v: Vec)
    requires Blocks(g) && i < |g| && j < |g| && |u| == 12 && |v| == 12
    requires Translation(u) == Neg3(Translation(v))
    ensures Blocks(AddAt(AddAt(g, i, u), j, v))
    ensures TranslationTotal(AddAt(AddAt(g, i, u), j, v)) == TranslationTotal(g)
  {
    AddAtTotal(g, i, u);
    AddAtTotal(AddAt(g, i, u), j, v);
    AddNegCancel(TranslationTotal(g), Translation(v));
  }

  lemma AddNegCancel(t: V3, v: V3)
    ensures Add3(Add3(t, Neg3(v)), v) == t
  {
  }

  /** The whole launch conserves the translation total: the contact forces of the scene
      sum to zero. */
  lemma {:induction false} GradientLaunchBalanced(g: seq<Vec>, k: real, qs: seq<Vec>,
                                                  contacts: seq<Contact>, order: seq<nat>)
    requires IsGlobalPose(qs) && ContactsInRange(contacts, |qs|) && Blocks(g) && |g| == |qs|
    ensures TranslationTotal(GradientLaunch(g, k, qs, contacts, order)) == TranslationTotal(g)
    decreases |order|
  {
    if |order| > 0 {
      GradientThreadBalanced(g, k, qs, contacts, order[0]);
      GradientLaunchBalanced(GradientThread(g, k, qs, contacts, order[0]), k, qs, contacts, order[1..]);
    }
  }

  // ---------------------------------------------------------------------------
  // The Hessian launch
  // ---------------------------------------------------------------------------

  /** Block j of contact c's four: H_aa, H_bb, H_ab, H_ba. */
  function ContactBlock(k: real, c: Contact, j: nat): (h: Mat)
    requires j < 4
    ensures IsMatrix(h, 12, 12)
  {
    if j == 0 then HessDiag(k, c.normal, c.refPos1)
    else if j == 1 then HessDiag(k, c.normal, c.refPos2)
    else if j == 2 then HessAB(k, c.normal, c.refPos1, c.refPos2)
    else HessBA(k, c.normal, c.refPos1, c.refPos2)
  }

  /** Every stored block is 12x12. */
  ghost predicate MatBlocks(h: seq<Mat>) {
    forall i :: 0 <= i < |h| ==> IsMatrix(h[i], 12, 12)
  }

  /** The values the Hessian threads compute: slot 4c + j holds block j of contact c. */
  function HessianBlocks(k: real, contacts: seq<Contact>): (b: seq<Mat>)
    ensures |b| == 4 * |contacts| && MatBlocks(b)
  {
    seq(4 * |contacts|, s requires 0 <= s < 4 * |contacts| => ContactBlock(k, contacts[s / 4], s % 4))
  }

  lemma HessianBlocksAt(k: real, contacts: seq<Contact>, c: nat, j: nat)
    requires c < |contacts| && j < 4
    ensures HessianBlocks(k, contacts)[4 * c + j] == ContactBlock(k, contacts[c], j)
  {
    assert (4 * c + j) / 4 == c && (4 * c + j) % 4 == j;
  }

  /** An atomic add of a 12x12 block into slot i. */
  function AddBlock(h: seq<Mat>, i: nat, b: Mat): (r: seq<Mat>)
    requires i < |h| && IsMatrix(h[i], 12, 12) && IsMatrix(b, 12, 12)
    ensures |r| == |h|
  {
    h[i := MatAdd(h[i], b)]
  }

  /** A value buffer and the blocks to add into it: one group of four per contact, and
      room for all of them in the buffer. */
  ghost predicate HessianBuffers(h: seq<Mat>, b: seq<Mat>) {
    MatBlocks(h) && MatBlocks(b) && |b| % 4 == 0 && |b| <= |h|
  }

  /** Thread t of the Hessian launch adds its contact's four blocks b[4t .. 4t+3] into
      slots 4t .. 4t+3; a thread past the list's end does nothing. */
  function HessianThread(h: seq<Mat>, b: seq<Mat>, t: nat): (r: seq<Mat>)
    requires HessianBuffers(h, b)
    ensures |r| == |h| && MatBlocks(r)
  {
    if 4 * t + 4 > |b| then h
    else
      var h0 := AddBlock(h, 4 * t, b[4 * t]);
      var h1 := AddBlock(h0, 4 * t + 1, b[4 * t + 1]);
      var h2 := AddBlock(h1, 4 * t + 2, b[4 * t + 2]);
      AddBlock(h2, 4 * t + 3, b[4 * t + 3])
  }

  /** The Hessian launch, its threads' adds landing in the given order. */
  function HessianLaunch(h: seq<Mat>, b: seq<Mat>, order: seq<nat>): (r: seq<Mat>)
    requires HessianBuffers(h, b)
    ensures |r| == |h| && MatBlocks(r)
    decreases |order|
  {
    if |order| == 0 then h
    else HessianLaunch(HessianThread(h, b, order[0]), b, order[1..])
  }

  /** One Hessian thread adds b[s] into each slot s of 4t .. 4t+3 and changes no other slot. */
  lemma HessianThreadEffect(h: seq<Mat>, b: seq<Mat>, t: nat, s: nat)
    requires HessianBuffers(h, b) && s < |h|
    ensures HessianThread(h, b, t)[s]
      == if 4 * t + 4 <= |b| && 4 * t <= s < 4 * t + 4 then MatAdd(h[s], b[s]) else h[s]
  {
  }

  /** Dropping the first thread of an order without repeats leaves an order without
      repeats that no longer holds that thread. */
  lemma DistinctTail(o: seq<nat>)
    requires |o| > 0 && Distinct(o)
    ensures Distinct(o[1..]) && o[0] !in o[1..]
  {
    forall p | 0 <= p < |o[1..]|
      ensures o[1..][p] != o[0]
    {
      assert o[1..][p] == o[p + 1];
    }
    forall i, j | 0 <= i < j < |o[1..]|
      ensures o[1..][i] != o[1..][j]
    {
      assert o[1..][i] == o[i + 1] && o[1..][j] == o[j + 1];
    }
  }

  /** In a launch whose order runs no thread twice, slot 4c + j receives b[4c + j] exactly
      when thread c is in the order, and otherwise keeps its content. */
  lemma {:induction false} HessianLaunchSlot(h: seq<Mat>, b: seq<Mat>, o: seq<nat>, c: nat, j: nat)
    requires HessianBuffers(h, b) && Distinct(o)
    requires 4 * c + 4 <= |b| && j < 4
    ensures HessianLaunch(h, b, o)[4 * c + j]
      == if c in o then MatAdd(h[4 * c + j], b[4 * c + j]) else h[4 * c + j]
    decreases |o|
  {
    if |o| > 0 {
      DistinctTail(o);
      HessianThreadEffect(h, b, o[0], 4 * c + j);
      HessianLaunchSlot(HessianThread(h, b, o[0]), b, o[1..], c, j);
      assert (c in o) == (c == o[0] || c in o[1..]);
    }
  }

  /** Slots past the last contact's group are never written. */
  lemma {:induction false} HessianLaunchTail(h: seq<Mat>, b: seq<Mat>, o: seq<nat>, s: nat)
    requires HessianBuffers(h, b) && |b| <= s < |h|
    ensures HessianLaunch(h, b, o)[s] == h[s]
    decreases |o|
  {
    if |o| > 0 {
      HessianThreadEffect(h, b, o[0], s);
      HessianLaunchTail(HessianThread(h, b, o[0]), b, o[1..], s);
    }
  }

  /** Adding a 12x12 block into a zero slot stores the block. */
  lemma MatAddZero(b: Mat)
    requires IsMatrix(b, 12, 12)
    ensures MatAdd(ZeroMat(12, 12), b) == b
  {
    var r := MatAdd(ZeroMat(12, 12), b);
    forall i | 0 <= i < 12
      ensures r[i] == b[i]
    {
      assert forall j :: 0 <= j < 12 ==> r[i][j] == b[i][j];
    }
  }

  /** Into a zeroed value buffer, a launch of dim threads in any order stores the four
      blocks of each contact c < dim in slots 4c .. 4c+3 and leaves every other slot zero. */
  lemma HessianLaunchValues(h: seq<Mat>, k: real, contacts: seq<Contact>, dim: nat, order: seq<nat>)
    requires 4 * |contacts| <= |h|
    requires forall s :: 0 <= s < |h| ==> h[s] == ZeroMat(12, 12)
    requires multiset(order) == multiset(Range(dim))
    ensures HessianBuffers(h, HessianBlocks(k, contacts))
    ensures forall c, j :: 0 <= c < |contacts| && 0 <= j < 4 ==>
      HessianLaunch(h, HessianBlocks(k, contacts), order)[4 * c + j]
        == if c < dim then ContactBlock(k, contacts[c], j) else ZeroMat(12, 12)
    ensures forall s :: 4 * |contacts| <= s < |h| ==>
      HessianLaunch(h, HessianBlocks(k, contacts), order)[s] == ZeroMat(12, 12)
  {
    PermutationDistinct(order, dim);
    var b := HessianBlocks(k, contacts);
    var r := HessianLaunch(h, b, order);
    forall c, j | 0 <= c < |contacts| && 0 <= j < 4
      ensures r[4 * c + j] == if c < dim then ContactBlock(k, contacts[c], j) else ZeroMat(12, 12)
    {
      HessianLaunchSlot(h, b, order, c, j);
      HessianBlocksAt(k, contacts, c, j);
      assert (c in order) == (c in multiset(order));
      RangeMultiplicity(dim, c);
      MatAddZero(ContactBlock(k, contacts[c], j));
    }
    forall s | 4 * |contacts| <= s < |h|
      ensures r[s] == ZeroMat(12, 12)
    {
      HessianLaunchTail(h, b, order, s);
    }
  }
}
