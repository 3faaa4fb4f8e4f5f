/** The scene-level simulator: setting up the global pose vectors, the gravity vector and
    the pinned blocks; one time step's contact sweep over the ordered body pairs, the
    contact-Hessian sparsity pattern it records, the inertial prediction and the state
    rotation; and the residual and Hessian the Newton solve works on.

    The global pose is held as one 12-entry block per body, the source's q.reshape((-1, 12)). */
module Simulator {
  import opened LinAlg
  import opened Geometry
  import opened Kinematics
  import opened Atomics
  import opened SimObject
  import FixedDofProjection
  import opened Collision
  import opened Penalty
  import Elastic

  // ---------------------------------------------------------------------------
  // Setup
  // ---------------------------------------------------------------------------

  /** The configuration of one body: its transform, initial velocity and pinned list, each
      possibly missing. */
  datatype BodyConfig = BodyConfig(transform: Option<Mat>, velocity: Option<seq<real>>,
                                   pinned: Option<seq<int>>)

  /** A given transform has three full rows and a given velocity three entries. */
  ghost predicate WellConfigured(cfgs: seq<BodyConfig>) {
    forall i :: 0 <= i < |cfgs| ==>
      (Given(cfgs[i].transform) ==> IsTransform(cfgs[i].transform.value))
      && (Given(cfgs[i].velocity) ==> |cfgs[i].velocity.value| == 3)
  }

  /** The global state: the current and the previous pose of every body. */
  datatype State = State(q: seq<Vec>, qm1: seq<Vec>)

  /** Both pose vectors hold n blocks of twelve entries. */
  ghost predicate IsState(s: State, n: nat) {
    |s.q| == n && |s.qm1| == n && IsGlobalPose(s.q) && IsGlobalPose(s.qm1)
  }

  /** The initial poses of body i, from its configuration with defaults filled in. */
  function BodyStart(cfg: BodyConfig, dt: real): (s: InitialState)
    requires Given(cfg.transform) ==> IsTransform(cfg.transform.value)
    requires Given(cfg.velocity) ==> |cfg.velocity.value| == 3
    ensures |s.q| == 12 && |s.qPrev| == 12
  {
    InitialDofs(ObjectTransform(cfg.transform), ObjectVelocity(cfg.velocity), dt)
  }

  /** The initial poses of every body. */
  function Starts(cfgs: seq<BodyConfig>, dt: real): (r: seq<InitialState>)
    requires WellConfigured(cfgs)
    ensures |r| == |cfgs| && Sized(r)
    ensures forall i :: 0 <= i < |cfgs| ==> r[i] == BodyStart(cfgs[i], dt)
  {
    seq(|cfgs|, i requires 0 <= i < |cfgs| => BodyStart(cfgs[i], dt))
  }

  /** Every initial pose has twelve entries. */
  ghost predicate Sized(starts: seq<InitialState>) {
    forall i :: 0 <= i < |starts| ==> |starts[i].q| == 12 && |starts[i].qPrev| == 12
  }

  /** Writing the initial poses of body i into block i of both global vectors. */
  function ResetBody(s: State, starts: seq<InitialState>, i: nat): (r: State)
    requires Sized(starts) && i < |starts| && IsState(s, |starts|)
    ensures IsState(r, |starts|)
  {
    State(s.q[i := starts[i].q], s.qm1[i := starts[i].qPrev])
  }

  /** The loop over the first m bodies, each writing its own blocks. */
  function ResetBodies(s: State, starts: seq<InitialState>, m: nat): (r: State)
    requires Sized(starts) && m <= |starts| && IsState(s, |starts|)
    ensures IsState(r, |starts|)
  {
    if m == 0 then s else ResetBody(ResetBodies(s, starts, m - 1), starts, m - 1)
  }

  /** Reset: every body writes its initial poses over whatever the state holds. */
  function Reset(s: State, cfgs: seq<BodyConfig>, dt: real): (r: State)
    requires WellConfigured(cfgs) && IsState(s, |cfgs|)
    ensures IsState(r, |cfgs|)
  {
    ResetBodies(s, Starts(cfgs, dt), |cfgs|)
  }

  /** Setup: both global vectors start as zeros and every body writes its blocks. */
  function Setup(cfgs: seq<BodyConfig>, dt: real): (r: State)
    requires WellConfigured(cfgs)
    ensures IsState(r, |cfgs|)
  {
    var zero := seq(|cfgs|, i => Zeros(12));
    Reset(State(zero, zero), cfgs, dt)
  }

  /** The scene's initial state, body by body. */
  function InitialScene(cfgs: seq<BodyConfig>, dt: real): (r: State)
    requires WellConfigured(cfgs)
    ensures IsState(r, |cfgs|)
  {
    var starts := Starts(cfgs, dt);
    State(seq(|cfgs|, i requires 0 <= i < |cfgs| => starts[i].q),
          seq(|cfgs|, i requires 0 <= i < |cfgs| => starts[i].qPrev))
  }

  /** After the loop has visited the first m bodies, their blocks hold the initial poses
      and the other blocks are as they were. */
  lemma {:induction false} ResetBodiesEffect(s: State, starts: seq<InitialState>, m: nat)
    requires Sized(starts) && m <= |starts| && IsState(s, |starts|)
    ensures var r := ResetBodies(s, starts, m);
      forall i :: 0 <= i < |starts| ==>
        r.q[i] == (if i < m then starts[i].q else s.q[i])
        && r.qm1[i] == (if i < m then starts[i].qPrev else s.qm1[i])
    decreases m
  {
    if m > 0 {
      ResetBodiesEffect(s, starts, m - 1);
    }
  }

  /** Reset brings any state of the scene back to the state setup produced, so a reset
      after any number of steps restarts the simulation, and resetting twice is resetting once. */
  lemma ResetRestoresSetup(s: State, cfgs: seq<BodyConfig>, dt: real)
    requires WellConfigured(cfgs) && IsState(s, |cfgs|)
    ensures Reset(s, cfgs, dt) == InitialScene(cfgs, dt)
    ensures Setup(cfgs, dt) == InitialScene(cfgs, dt)
    ensures Reset(Reset(s, cfgs, dt), cfgs, dt) == Reset(s, cfgs, dt)
  {
    var zero := seq(|cfgs|, i => Zeros(12));
    ResetIsInitial(s, cfgs, dt);
    ResetIsInitial(State(zero, zero), cfgs, dt);
    ResetIsInitial(Reset(s, cfgs, dt), cfgs, dt);
  }

  lemma ResetIsInitial(s: State, cfgs: seq<BodyConfig>, dt: real)
    requires WellConfigured(cfgs) && IsState(s, |cfgs|)
    ensures Reset(s, cfgs, dt) == InitialScene(cfgs, dt)
  {
    var r, e := Reset(s, cfgs, dt), InitialScene(cfgs, dt);
    ResetBodiesEffect(s, Starts(cfgs, dt), |cfgs|);
    assert r.q == e.q;
    assert r.qm1 == e.qm1;
  }

  /** A scene configured without initial velocities starts at rest: q_prev equals q. */
  lemma SetupAtRest(cfgs: seq<BodyConfig>, dt: real)
    requires WellConfigured(cfgs)
    requires forall i :: 0 <= i < |cfgs| ==> !Given(cfgs[i].velocity)
    ensures Setup(cfgs, dt).qm1 == Setup(cfgs, dt).q
  {
    ResetRestoresSetup(State(seq(|cfgs|, i => Zeros(12)), seq(|cfgs|, i => Zeros(12))), cfgs, dt);
    var r := InitialScene(cfgs, dt);
    forall i | 0 <= i < |cfgs|
      ensures r.qm1[i] == r.q[i]
    {
      InitialAtRest(ObjectTransform(cfgs[i].transform), dt);
    }
  }

  /** The scene has one DOF block per body, so the global vector has 12 entries per body. */
  function TotalDofs(cfgs: seq<BodyConfig>): (n: nat)
    ensures n * DofBlockSize == 12 * |cfgs|
  {
    |cfgs| * NumDofs
  }

  // ---------------------------------------------------------------------------
  // Gravity
  // ---------------------------------------------------------------------------

  /** A body's gravity block: the 3x4 matrix with g in its last column and zeros elsewhere. */
  function GravityBlock(g: V3): (b: Vec)
    ensures |b| == 12
  {
    Pose(ZeroM(), g)
  }

  /** The global gravity vector: the same block for every body. */
  function GravityVector(n: nat, g: V3): (gs: seq<Vec>)
    ensures |gs| == n && IsGlobalPose(gs)
  {
    seq(n, i => GravityBlock(g))
  }

  /** Each gravity block is nonzero only at entries 3, 7 and 11, which hold g: gravity pulls on
      the translation and never on F. */
  lemma GravityLayout(n: nat, g: V3)
    ensures forall i, e :: 0 <= i < n && 0 <= e < 12 ==>
      GravityVector(n, g)[i][e]
        == if e == 3 then g.x else if e == 7 then g.y else if e == 11 then g.z else 0.0
    ensures forall i :: 0 <= i < n ==>
      LinearPart(GravityVector(n, g)[i]) == ZeroM() && Translation(GravityVector(n, g)[i]) == g
  {
    PoseRoundTrip(ZeroM(), g);
  }

  // ---------------------------------------------------------------------------
  // Pinned blocks
  // ---------------------------------------------------------------------------

  /** The pinned list of body i, its block indices moved to global numbering. */
  function Shift(s: seq<int>, i: nat): (r: seq<int>)
    ensures |r| == |s| && forall k :: 0 <= k < |s| ==> r[k] == s[k] + i
  {
    seq(|s|, k requires 0 <= k < |s| => s[k] + i)
  }

  /** The global pinned list: the bodies' pinned lists in body order, each shifted by its
      body index; bodies without a pinned list contribute nothing. */
  function GlobalPinned(pins: seq<Option<seq<int>>>): (g: seq<int>)
    decreases |pins|
  {
    if |pins| == 0 then []
    else
      var last := pins[|pins| - 1];
      GlobalPinned(pins[..|pins| - 1]) + (if last.Some? then Shift(last.value, |pins| - 1) else [])
  }

  /** The pinned lists of a configuration, with a missing or empty list turned into none. */
  function ConfiguredPins(cfgs: seq<BodyConfig>): (pins: seq<Option<seq<int>>>)
    ensures |pins| == |cfgs|
    ensures forall i :: 0 <= i < |cfgs| ==> pins[i] == ObjectPinned(cfgs[i].pinned)
  {
    seq(|cfgs|, i requires 0 <= i < |cfgs| => ObjectPinned(cfgs[i].pinned))
  }

  /** Global index x is pinned exactly when x - i is in the pinned list of some body i. */
  lemma {:induction false} GlobalPinnedMembers(pins: seq<Option<seq<int>>>, x: int)
    ensures x in GlobalPinned(pins)
      <==> exists i :: 0 <= i < |pins| && pins[i].Some? && x - i in pins[i].value
    decreases |pins|
  {
    if |pins| > 0 {
      var n := |pins| - 1;
      GlobalPinnedMembers(pins[..n], x);
      PinnedByLast(pins, x);
      if pins[n].Some? {
        ShiftMember(pins[n].value, n, x);
      }
    }
  }

  /** x is in the shifted list exactly when x - i is in the body's list. */
  lemma ShiftMember(s: seq<int>, i: nat, x: int)
    ensures x in Shift(s, i) <==> x - i in s
  {
    if x - i in s {
      var k :| 0 <= k < |s| && s[k] == x - i;
      assert Shift(s, i)[k] == x;
    }
  }

  /** Some body pins x exactly when one of the bodies before the last does, or the last does. */
  lemma PinnedByLast(pins: seq<Option<seq<int>>>, x: int)
    requires |pins| > 0
    ensures var n := |pins| - 1;
      (exists i :: 0 <= i < |pins| && pins[i].Some? && x - i in pins[i].value)
      <==> (exists i :: 0 <= i < n && pins[..n][i].Some? && x - i in pins[..n][i].value)
           || (pins[n].Some? && x - n in pins[n].value)
  {
    var n := |pins| - 1;
    var init := pins[..n];
    if exists i :: 0 <= i < |pins| && pins[i].Some? && x - i in pins[i].value {
      var i :| 0 <= i < |pins| && pins[i].Some? && x - i in pins[i].value;
      if i < n {
        assert init[i] == pins[i];
      }
    }
    if exists i :: 0 <= i < n && init[i].Some? && x - i in init[i].value {
      var i :| 0 <= i < n && init[i].Some? && x - i in init[i].value;
      assert pins[i] == init[i];
    }
  }

  /** Each body has the single block 0, so a valid pinned list names that block once. */
  ghost predicate ValidLocalPins(pins: seq<Option<seq<int>>>) {
    forall i :: 0 <= i < |pins| && pins[i].Some? ==> pins[i].value == [0]
  }

  /** A pinned list naming each block of a body once and nothing else is the list [0]. */
  lemma LocalPinsSingleBlock(s: seq<int>)
    requires |s| > 0
    ensures FixedDofProjection.Distinct(s) && FixedDofProjection.AllInRange(s, NumDofs) <==> s == [0]
  {
    if FixedDofProjection.AllInRange(s, NumDofs) {
      if |s| == 1 {
        assert s == [0];
      } else {
        assert s[0] == 0 == s[1];
      }
    }
  }

  /** With valid local lists, the global list names each pinned body once and only bodies
      of the scene. */
  lemma {:induction false} GlobalPinnedWellFormed(pins: seq<Option<seq<int>>>)
    requires ValidLocalPins(pins)
    ensures FixedDofProjection.Distinct(GlobalPinned(pins))
    ensures FixedDofProjection.AllInRange(GlobalPinned(pins), |pins|)
    decreases |pins|
  {
    if |pins| > 0 {
      var n := |pins| - 1;
      var init := pins[..n];
      assert ValidLocalPins(init) by {
        forall i | 0 <= i < n && init[i].Some?
          ensures init[i].value == [0]
        {
          assert init[i] == pins[i];
        }
      }
      GlobalPinnedWellFormed(init);
      var a := GlobalPinned(init);
      var tail := if pins[n].Some? then [n] else [];
      var g := a + tail;
      assert GlobalPinned(pins) == g;
      forall k | 0 <= k < |g|
        ensures 0 <= g[k] < |pins|
      {
        if k < |a| {
          assert g[k] == a[k];
        }
      }
      forall p, r | 0 <= p < r < |g|
        ensures g[p] != g[r]
      {
        assert g[p] == a[p] && a[p] < n;
      }
    }
  }

  /** With valid local lists, the pinned-DOF projection of the scene is declared with as many
      rows as it fills, and its free blocks are exactly the bodies without a pinned list. */
  lemma ScenePinnedProjection(pins: seq<Option<seq<int>>>)
    requires ValidLocalPins(pins)
    ensures var g := GlobalPinned(pins);
      |FixedDofProjection.FreeIndices(|pins|, g)| == FixedDofProjection.DeclaredRows(|pins|, g)
      && forall i :: 0 <= i < |pins| ==> (i in FixedDofProjection.FreeIndices(|pins|, g) <==> pins[i].None?)
  {
    var g := GlobalPinned(pins);
    GlobalPinnedWellFormed(pins);
    FixedDofProjection.RowCountMatches(|pins|, g);
    forall i | 0 <= i < |pins|
      ensures i in g <==> pins[i].Some?
    {
      GlobalPinnedMembers(pins, i);
      if pins[i].Some? {
        assert i - i in pins[i].value;
      }
    }
  }

  // ---------------------------------------------------------------------------
  // The inertial prediction and the state rotation
  // ---------------------------------------------------------------------------

  /** q_pred = q + (q - q_prev) + dt²·g, block by block. */
  function Predict(s: State, g: V3, dt: real): (p: seq<Vec>)
    requires IsState(s, |s.q|)
    ensures |p| == |s.q| && IsGlobalPose(p)
  {
    seq(|s.q|, i requires 0 <= i < |s.q| =>
      Add(Add(s.q[i], Sub(s.q[i], s.qm1[i])), Scale(dt * dt, GravityBlock(g))))
  }

  /** The prediction moves F with its own velocity and the translation with its velocity plus
      dt²·g; gravity does not touch F. */
  lemma PredictParts(s: State, g: V3, dt: real, i: nat)
    requires IsState(s, |s.q|) && i < |s.q|
    ensures var f, fm, t, tm := LinearPart(s.q[i]), LinearPart(s.qm1[i]), Translation(s.q[i]), Translation(s.qm1[i]);
      LinearPart(Predict(s, g, dt)[i]) == MAdd(f, MSub(f, fm))
      && Translation(Predict(s, g, dt)[i]) == Add3(Add3(t, Sub3(t, tm)), Scale3(dt * dt, g))
  {
    PredictBlock(s.q[i], s.qm1[i], dt * dt, g, Predict(s, g, dt)[i]);
  }

  /** One block of the prediction, q + (q - q_prev) + h·gravity block, split into F and t. */
  lemma PredictBlock(q: Vec, qm: Vec, h: real, g: V3, p: Vec)
    requires |q| == 12 && |qm| == 12 && p == Add(Add(q, Sub(q, qm)), Scale(h, GravityBlock(g)))
    ensures LinearPart(p) == MAdd(LinearPart(q), MSub(LinearPart(q), LinearPart(qm)))
    ensures Translation(p) == Add3(Add3(Translation(q), Sub3(Translation(q), Translation(qm))), Scale3(h, g))
  {
    var t := Scale3(h, g);
    GravityScaled(h, g);
    assert forall j :: 0 <= j < 12 ==> p[j] == (q[j] + (q[j] - qm[j])) + Pose(ZeroM(), t)[j];
  }

  /** h times the gravity block of g is the gravity block of h·g. */
  lemma GravityScaled(h: real, g: V3)
    ensures Scale(h, GravityBlock(g)) == GravityBlock(Scale3(h, g))
  {
    var l, r := Scale(h, GravityBlock(g)), GravityBlock(Scale3(h, g));
    assert h * 0.0 == 0.0;
    forall j | 0 <= j < 12
      ensures l[j] == r[j]
    {
    }
  }


  /** A scene at rest without gravity predicts that nothing moves. */
  lemma PredictAtRest(s: State, dt: real)
    requires IsState(s, |s.q|) && s.q == s.qm1
    ensures Predict(s, V3(0.0, 0.0, 0.0), dt) == s.q
  {
    var p := Predict(s, V3(0.0, 0.0, 0.0), dt);
    forall i | 0 <= i < |s.q|
      ensures p[i] == s.q[i]
    {
      PredictParts(s, V3(0.0, 0.0, 0.0), dt, i);
      PoseOfParts(p[i]);
      PoseOfParts(s.q[i]);
    }
  }

  /** A body at rest is predicted to fall by dt²·g without deforming. */
  lemma PredictFreeFall(s: State, g: V3, dt: real, i: nat)
    requires IsState(s, |s.q|) && i < |s.q| && s.q[i] == s.qm1[i]
    ensures LinearPart(Predict(s, g, dt)[i]) == LinearPart(s.q[i])
    ensures Translation(Predict(s, g, dt)[i]) == Add3(Translation(s.q[i]), Scale3(dt * dt, g))
  {
    PredictParts(s, g, dt, i);
  }

  /** The end of a step: the previous pose takes the pose the step started from, and the
      solver's result becomes the current pose. */
  function Rotate(s: State, solved: seq<Vec>): (r: State)
    requires IsState(s, |s.q|) && |solved| == |s.q| && IsGlobalPose(solved)
    ensures IsState(r, |s.q|)
  {
    State(solved, s.q)
  }

  /** When the solver returns the prediction (no elastic or contact force acts), the step is
      inertial: each body keeps its velocity, the translation's increased by dt²·g. */
  lemma RotateInertial(s: State, g: V3, dt: real, i: nat)
    requires IsState(s, |s.q|) && i < |s.q|
    ensures var r := Rotate(s, Predict(s, g, dt));
      LinearPart(r.q[i]) == MAdd(LinearPart(r.qm1[i]), MSub(LinearPart(s.q[i]), LinearPart(s.qm1[i])))
      && Sub3(Translation(r.q[i]), Translation(r.qm1[i]))
           == Add3(Sub3(Translation(s.q[i]), Translation(s.qm1[i])), Scale3(dt * dt, g))
  {
    PredictParts(s, g, dt, i);
  }

  // ---------------------------------------------------------------------------
  // The contact sweep of one step
  // ---------------------------------------------------------------------------

  /** An ordered pair of bodies: a queries its vertices against the mesh of b. */
  datatype Pair = Pair(a: nat, b: nat)

  /** Pair p is visited before pair q: by first body, then by second body. */
  predicate VisitedBefore(p: Pair, q: Pair) {
    p.a < q.a || (p.a == q.a && p.b < q.b)
  }

  /** Every pair is visited before every later one, so no pair occurs twice. */
  ghost predicate InVisitingOrder(r: seq<Pair>) {
    forall i, j :: 0 <= i < j < |r| ==> VisitedBefore(r[i], r[j])
  }

  /** Two runs in visiting order, the first wholly before the second, join in visiting order. */
  lemma VisitingOrderConcat(x: seq<Pair>, y: seq<Pair>)
    requires InVisitingOrder(x) && InVisitingOrder(y)
    requires forall i, j :: 0 <= i < |x| && 0 <= j < |y| ==> VisitedBefore(x[i], y[j])
    ensures InVisitingOrder(x + y)
  {
    var r := x + y;
    forall i, j | 0 <= i < j < |r|
      ensures VisitedBefore(r[i], r[j])
    {
      if j < |x| {
        assert r[i] == x[i] && r[j] == x[j];
      } else if i < |x| {
        assert r[i] == x[i] && r[j] == y[j - |x|];
      } else {
        assert r[i] == y[i - |x|] && r[j] == y[j - |x|];
      }
    }
  }

  /** The inner loop for body a over the first m bodies b, skipping b = a. */
  function PairsRow(a: nat, m: nat): (r: seq<Pair>)
    ensures forall p :: p in r <==> p.a == a && p.b < m && p.b != a
    ensures InVisitingOrder(r)
  {
    if m == 0 then []
    else
      var init := PairsRow(a, m - 1);
      var last := if m - 1 != a then [Pair(a, m - 1)] else [];
      assert forall i, j :: 0 <= i < |init| && 0 <= j < |last| ==> VisitedBefore(init[i], last[j]) by {
        forall i, j | 0 <= i < |init| && 0 <= j < |last|
          ensures VisitedBefore(init[i], last[j])
        {
          assert init[i] in init;
        }
      }
      VisitingOrderConcat(init, last);
      init + last
  }

  /** The outer loop over the first m bodies a, each running the inner loop over all n bodies. */
  function PairsUpTo(n: nat, m: nat): (r: seq<Pair>)
    ensures forall p :: p in r <==> p.a < m && p.b < n && p.a != p.b
    ensures InVisitingOrder(r)
  {
    if m == 0 then []
    else
      var init, row := PairsUpTo(n, m - 1), PairsRow(m - 1, n);
      assert forall i, j :: 0 <= i < |init| && 0 <= j < |row| ==> VisitedBefore(init[i], row[j]) by {
        forall i, j | 0 <= i < |init| && 0 <= j < |row|
          ensures VisitedBefore(init[i], row[j])
        {
          assert init[i] in init && row[j] in row;
        }
      }
      VisitingOrderConcat(init, row);
      init + row
  }

  /** The ordered pairs of distinct bodies in the order the step visits them: each once, by
      first body and then by second body. */
  function OrderedPairs(n: nat): (r: seq<Pair>)
    ensures forall p :: p in r <==> p.a < n && p.b < n && p.a != p.b
    ensures InVisitingOrder(r)
  {
    PairsUpTo(n, n)
  }

  /** The four sparsity-pattern entries recorded for a pair (a, b) that found contacts:
      (a, a), (b, b), (a, b), (b, a). */
  function Group(p: Pair): (g: seq<Pair>)
    ensures |g| == 4
  {
    [Pair(p.a, p.a), Pair(p.b, p.b), Pair(p.a, p.b), Pair(p.b, p.a)]
  }

  /** What the sweep carries from pair to pair: the contact list and its counter, the
      per-vertex detection buffer, and the sparsity pattern recorded so far. */
  datatype Sweep = Sweep(list: Compaction, buffer: seq<Contact>, pattern: seq<Pair>)

  /** Every body's vertices fit in the detection buffer, which is sized for the largest mesh,
      and every body has its own mesh services: meshes[b] answers the queries against b. */
  ghost predicate SceneFits(verts: seq<seq<V3>>, qs: seq<Vec>, meshes: seq<Services>, size: nat) {
    IsGlobalPose(qs) && |verts| == |qs| && |meshes| == |qs|
    && forall i :: 0 <= i < |verts| ==> |verts[i]| <= size
  }

  /** Every pair names two bodies of the scene. */
  ghost predicate PairsIn(pairs: seq<Pair>, n: nat) {
    forall k :: 0 <= k < |pairs| ==> pairs[k].a < n && pairs[k].b < n
  }

  /** A prefix of a list of pairs of the scene names bodies of the scene. */
  lemma PairsInPrefix(pairs: seq<Pair>, n: nat, m: nat)
    requires PairsIn(pairs, n) && m <= |pairs|
    ensures PairsIn(pairs[..m], n)
  {
    forall k | 0 <= k < m
      ensures pairs[..m][k].a < n && pairs[..m][k].b < n
    {
      assert pairs[..m][k] == pairs[k];
    }
  }

  /** One pass of the loop body: detection of a's vertices against b's mesh, the reduction
      into the contact list, and a group of four pattern entries when the counter grew. */
  function SweepPair(w: Sweep, verts: seq<seq<V3>>, qs: seq<Vec>, meshes: seq<Services>, p: Pair,
                     eps: real, order: seq<nat>): (r: Sweep)
    requires SceneFits(verts, qs, meshes, |w.buffer|) && p.a < |qs| && p.b < |qs|
    ensures |r.buffer| == |w.buffer|
  {
    var list := DetectCollisions(w.list, w.buffer, verts[p.a], qs, p.a, p.b, eps, meshes[p.b], order);
    var buffer := DetectAll(w.buffer, verts[p.a], qs, p.a, p.b, eps, meshes[p.b]);
    Sweep(list, buffer, if list.count > w.list.count then w.pattern + Group(p) else w.pattern)
  }

  /** The loop over a list of pairs; orders[k] is the order in which the reduction threads of
      pair k claim their indices. */
  function SweepPairs(w: Sweep, verts: seq<seq<V3>>, qs: seq<Vec>, meshes: seq<Services>,
                      pairs: seq<Pair>, eps: real, orders: seq<seq<nat>>): (r: Sweep)
    requires SceneFits(verts, qs, meshes, |w.buffer|) && PairsIn(pairs, |qs|) && |orders| == |pairs|
    ensures |r.buffer| == |w.buffer|
    decreases |pairs|
  {
    if |pairs| == 0 then w
    else
      var n := |pairs| - 1;
      PairsInPrefix(pairs, |qs|, n);
      SweepPair(SweepPairs(w, verts, qs, meshes, pairs[..n], eps, orders[..n]), verts, qs, meshes,
                pairs[n], eps, orders[n])
  }

  /** The ordered pairs of the scene name bodies of the scene, two distinct ones each. */
  lemma OrderedPairsIn(n: nat)
    ensures PairsIn(OrderedPairs(n), n)
    ensures forall k :: 0 <= k < |OrderedPairs(n)| ==> OrderedPairs(n)[k].a != OrderedPairs(n)[k].b
  {
    var pairs := OrderedPairs(n);
    forall k | 0 <= k < |pairs|
      ensures pairs[k].a < n && pairs[k].b < n && pairs[k].a != pairs[k].b
    {
      assert pairs[k] in pairs;
    }
  }

  /** The contact search of one step: the counter is reset to zero, the pattern starts empty,
      and every ordered pair of distinct bodies is visited. The contact list and the buffer
      keep whatever the previous step left in them. */
  function FindContacts(list: Compaction, buffer: seq<Contact>, verts: seq<seq<V3>>, qs: seq<Vec>,
                        meshes: seq<Services>, eps: real, orders: seq<seq<nat>>): (r: Sweep)
    requires SceneFits(verts, qs, meshes, |buffer|) && |orders| == |OrderedPairs(|qs|)|
    ensures |r.buffer| == |buffer|
  {
    OrderedPairsIn(|qs|);
    SweepPairs(Sweep(Compaction(0, list.results), buffer, []), verts, qs, meshes, OrderedPairs(|qs|),
               eps, orders)
  }

  /** Group g of a pattern: its entries 4g .. 4g+3. */
  function GroupAt(pattern: seq<Pair>, g: nat): seq<Pair>
    requires 4 * g + 4 <= |pattern|
  {
    pattern[4 * g .. 4 * g + 4]
  }

  /** A pattern made of whole groups, each recorded for a pair of distinct bodies of the scene. */
  ghost predicate Grouped(pattern: seq<Pair>, n: nat) {
    |pattern| % 4 == 0
    && (forall g :: 0 <= g < |pattern| / 4 ==> GroupAt(pattern, g) == Group(PairOf(pattern, g)))
    && (forall g :: 0 <= g < |pattern| / 4 ==> PairOf(pattern, g).a < n)
    && (forall g :: 0 <= g < |pattern| / 4 ==> PairOf(pattern, g).b < n)
    && (forall g :: 0 <= g < |pattern| / 4 ==> PairOf(pattern, g).a != PairOf(pattern, g).b)
  }

  /** The pair group g was recorded for. */
  function PairOf(pattern: seq<Pair>, g: nat): Pair
    requires 4 * g + 4 <= |pattern|
  {
    pattern[4 * g + 2]
  }

  /** Whenever (a, b) is in the pattern so is (b, a). */
  ghost predicate Transposable(pattern: seq<Pair>) {
    forall x :: x in pattern ==> Pair(x.b, x.a) in pattern
  }

  /** Appending the group of a pair of distinct bodies keeps a pattern grouped and
      transposable. */
  lemma GroupedAppend(pattern: seq<Pair>, p: Pair, n: nat)
    requires Grouped(pattern, n) && Transposable(pattern)
    requires p.a < n && p.b < n && p.a != p.b
    ensures Grouped(pattern + Group(p), n) && Transposable(pattern + Group(p))
  {
    var r := pattern + Group(p);
    var m := |pattern| / 4;
    assert |r| / 4 == m + 1;
    forall g | 0 <= g < m + 1
      ensures GroupAt(r, g) == Group(PairOf(r, g))
      ensures PairOf(r, g).a < n && PairOf(r, g).b < n && PairOf(r, g).a != PairOf(r, g).b
    {
      if g < m {
        assert GroupAt(r, g) == GroupAt(pattern, g);
        assert PairOf(r, g) == PairOf(pattern, g);
      } else {
        assert GroupAt(r, g) == Group(p);
        assert PairOf(r, g) == p;
      }
    }
    forall x | x in r
      ensures Pair(x.b, x.a) in r
    {
      if x in pattern {
        assert Pair(x.b, x.a) in pattern;
      } else {
        assert x in Group(p);
      }
    }
  }

  /** One pass of the loop keeps the pattern grouped and transposable and never lowers the
      counter; it appends the pair's group if and only if the counter grew, and otherwise
      leaves the pattern as it was. */
  lemma SweepPairPattern(w: Sweep, verts: seq<seq<V3>>, qs: seq<Vec>, meshes: seq<Services>, p: Pair,
                         eps: real, order: seq<nat>)
    requires SceneFits(verts, qs, meshes, |w.buffer|) && p.a < |qs| && p.b < |qs| && p.a != p.b
    requires Grouped(w.pattern, |qs|) && Transposable(w.pattern)
    ensures var r := SweepPair(w, verts, qs, meshes, p, eps, order);
      Grouped(r.pattern, |qs|) && Transposable(r.pattern) && r.list.count >= w.list.count
      && (r.list.count > w.list.count <==> r.pattern == w.pattern + Group(p))
      && (r.list.count == w.list.count <==> r.pattern == w.pattern)
  {
    var buffer := DetectAll(w.buffer, verts[p.a], qs, p.a, p.b, eps, meshes[p.b]);
    ReduceEffect(w.list, buffer, order);
    GroupedAppend(w.pattern, p, |qs|);
    assert |w.pattern + Group(p)| != |w.pattern|;
  }

  /** Over any list of pairs of distinct bodies, the pattern stays made of whole groups and
      transposable, and each group recorded stands for at least one new contact counted. */
  lemma {:induction false} SweepPattern(w: Sweep, verts: seq<seq<V3>>, qs: seq<Vec>,
                                        meshes: seq<Services>, pairs: seq<Pair>, eps: real,
                                        orders: seq<seq<nat>>)
    requires SceneFits(verts, qs, meshes, |w.buffer|) && PairsIn(pairs, |qs|) && |orders| == |pairs|
    requires forall k :: 0 <= k < |pairs| ==> pairs[k].a != pairs[k].b
    requires Grouped(w.pattern, |qs|) && Transposable(w.pattern)
    ensures var r := SweepPairs(w, verts, qs, meshes, pairs, eps, orders);
      Grouped(r.pattern, |qs|) && Transposable(r.pattern) && r.list.count >= w.list.count
      && |r.pattern| / 4 - |w.pattern| / 4 <= r.list.count - w.list.count
    decreases |pairs|
  {
    if |pairs| > 0 {
      var n := |pairs| - 1;
      PairsInPrefix(pairs, |qs|, n);
      forall k | 0 <= k < n
        ensures pairs[..n][k].a != pairs[..n][k].b
      {
        assert pairs[..n][k] == pairs[k];
      }
      SweepPattern(w, verts, qs, meshes, pairs[..n], eps, orders[..n]);
      var mid := SweepPairs(w, verts, qs, meshes, pairs[..n], eps, orders[..n]);
      SweepPairPattern(mid, verts, qs, meshes, pairs[n], eps, orders[n]);
    }
  }

  /** The number of set flags. */
  function CountSet(flags: seq<bool>): (c: nat)
    ensures c <= |flags|
    decreases |flags|
  {
    if |flags| == 0 then 0
    else CountSet(flags[..|flags| - 1]) + (if flags[|flags| - 1] then 1 else 0)
  }

  /** The groups of the pairs whose flag is set, one after another in the order of the pairs. */
  function Groups(pairs: seq<Pair>, flags: seq<bool>): (g: seq<Pair>)
    requires |flags| == |pairs|
    ensures |g| == 4 * CountSet(flags)
    decreases |pairs|
  {
    if |pairs| == 0 then []
    else
      var n := |pairs| - 1;
      Groups(pairs[..n], flags[..n]) + (if flags[n] then Group(pairs[n]) else [])
  }

  /** The contact list and its counter after the first m pairs of a sweep. */
  function ListAfter(w: Sweep, verts: seq<seq<V3>>, qs: seq<Vec>, meshes: seq<Services>,
                     pairs: seq<Pair>, eps: real, orders: seq<seq<nat>>, m: nat): Compaction
    requires SceneFits(verts, qs, meshes, |w.buffer|) && PairsIn(pairs, |qs|) && |orders| == |pairs|
    requires m <= |pairs|
  {
    PairsInPrefix(pairs, |qs|, m);
    SweepPairs(w, verts, qs, meshes, pairs[..m], eps, orders[..m]).list
  }

  /** The contact counter after the first m pairs of a sweep. */
  function CountAfter(w: Sweep, verts: seq<seq<V3>>, qs: seq<Vec>, meshes: seq<Services>,
                      pairs: seq<Pair>, eps: real, orders: seq<seq<nat>>, m: nat): nat
    requires SceneFits(verts, qs, meshes, |w.buffer|) && PairsIn(pairs, |qs|) && |orders| == |pairs|
    requires m <= |pairs|
  {
    ListAfter(w, verts, qs, meshes, pairs, eps, orders, m).count
  }

  /** Flag k is set when the detection of pair k raised the contact counter. */
  function Grew(w: Sweep, verts: seq<seq<V3>>, qs: seq<Vec>, meshes: seq<Services>,
                pairs: seq<Pair>, eps: real, orders: seq<seq<nat>>): (g: seq<bool>)
    requires SceneFits(verts, qs, meshes, |w.buffer|) && PairsIn(pairs, |qs|) && |orders| == |pairs|
    ensures |g| == |pairs|
  {
    seq(|pairs|, k requires 0 <= k < |pairs| =>
      CountAfter(w, verts, qs, meshes, pairs, eps, orders, k + 1)
        > CountAfter(w, verts, qs, meshes, pairs, eps, orders, k))
  }

  /** The lists along a prefix of the sweep are the lists along the whole sweep. */
  lemma ListAfterPrefix(w: Sweep, verts: seq<seq<V3>>, qs: seq<Vec>, meshes: seq<Services>,
                        pairs: seq<Pair>, eps: real, orders: seq<seq<nat>>, n: nat, m: nat)
    requires SceneFits(verts, qs, meshes, |w.buffer|) && PairsIn(pairs, |qs|) && |orders| == |pairs|
    requires m <= n <= |pairs|
    ensures PairsIn(pairs[..n], |qs|)
    ensures ListAfter(w, verts, qs, meshes, pairs[..n], eps, orders[..n], m)
      == ListAfter(w, verts, qs, meshes, pairs, eps, orders, m)
  {
    PairsInPrefix(pairs, |qs|, n);
    assert pairs[..n][..m] == pairs[..m];
    assert orders[..n][..m] == orders[..m];
  }

  /** The pattern after the first m pairs of a sweep. */
  function PatternAfter(w: Sweep, verts: seq<seq<V3>>, qs: seq<Vec>, meshes: seq<Services>,
                        pairs: seq<Pair>, eps: real, orders: seq<seq<nat>>, m: nat): seq<Pair>
    requires SceneFits(verts, qs, meshes, |w.buffer|) && PairsIn(pairs, |qs|) && |orders| == |pairs|
    requires m <= |pairs|
  {
    PairsInPrefix(pairs, |qs|, m);
    SweepPairs(w, verts, qs, meshes, pairs[..m], eps, orders[..m]).pattern
  }

  /** The pattern a sweep records is the group of each pair whose detection raised the
      counter, in the order the pairs are visited, and nothing else. */
  lemma SweepGroups(w: Sweep, verts: seq<seq<V3>>, qs: seq<Vec>, meshes: seq<Services>,
                    pairs: seq<Pair>, eps: real, orders: seq<seq<nat>>)
    requires SceneFits(verts, qs, meshes, |w.buffer|) && PairsIn(pairs, |qs|) && |orders| == |pairs|
    ensures SweepPairs(w, verts, qs, meshes, pairs, eps, orders).pattern
      == w.pattern + Groups(pairs, Grew(w, verts, qs, meshes, pairs, eps, orders))
  {
    var g := Grew(w, verts, qs, meshes, pairs, eps, orders);
    var ps := seq(|pairs| + 1, m requires 0 <= m <= |pairs| =>
      PatternAfter(w, verts, qs, meshes, pairs, eps, orders, m));
    forall k | 0 <= k < |pairs|
      ensures ps[k + 1] == ps[k] + (if g[k] then Group(pairs[k]) else [])
    {
      PatternStep(w, verts, qs, meshes, pairs, eps, orders, k);
    }
    GroupsOfSteps(ps, pairs, g, |pairs|);
    PatternAfterEnds(w, verts, qs, meshes, pairs, eps, orders);
    assert pairs[..|pairs|] == pairs && g[..|pairs|] == g;
  }

  /** Before any pair the pattern is the starting one; after all of them it is the sweep's. */
  lemma PatternAfterEnds(w: Sweep, verts: seq<seq<V3>>, qs: seq<Vec>, meshes: seq<Services>,
                         pairs: seq<Pair>, eps: real, orders: seq<seq<nat>>)
    requires SceneFits(verts, qs, meshes, |w.buffer|) && PairsIn(pairs, |qs|) && |orders| == |pairs|
    ensures PatternAfter(w, verts, qs, meshes, pairs, eps, orders, 0) == w.pattern
    ensures PatternAfter(w, verts, qs, meshes, pairs, eps, orders, |pairs|)
      == SweepPairs(w, verts, qs, meshes, pairs, eps, orders).pattern
  {
    assert pairs[..|pairs|] == pairs && orders[..|pairs|] == orders;
  }

  /** Pass k appends pair k's group to the pattern exactly when flag k is set. */
  lemma PatternStep(w: Sweep, verts: seq<seq<V3>>, qs: seq<Vec>, meshes: seq<Services>,
                    pairs: seq<Pair>, eps: real, orders: seq<seq<nat>>, k: nat)
    requires SceneFits(verts, qs, meshes, |w.buffer|) && PairsIn(pairs, |qs|) && |orders| == |pairs|
    requires k < |pairs|
    ensures PatternAfter(w, verts, qs, meshes, pairs, eps, orders, k + 1)
      == PatternAfter(w, verts, qs, meshes, pairs, eps, orders, k)
         + (if Grew(w, verts, qs, meshes, pairs, eps, orders)[k] then Group(pairs[k]) else [])
  {
    PairsInPrefix(pairs, |qs|, k + 1);
    assert pairs[..k + 1][..k] == pairs[..k] && orders[..k + 1][..k] == orders[..k];
    assert pairs[..k + 1][k] == pairs[k] && orders[..k + 1][k] == orders[k];
  }

  /** Patterns that grow pass by pass by the groups of the flagged pairs end up as the first
      pattern followed by those groups. */
  lemma {:induction false} GroupsOfSteps(ps: seq<seq<Pair>>, pairs: seq<Pair>, flags: seq<bool>, m: nat)
    requires |ps| == |pairs| + 1 && |flags| == |pairs| && m <= |pairs|
    requires forall k :: 0 <= k < |pairs| ==> ps[k + 1] == ps[k] + (if flags[k] then Group(pairs[k]) else [])
    ensures ps[m] == ps[0] + Groups(pairs[..m], flags[..m])
    decreases m
  {
    if m > 0 {
      var n := m - 1;
      GroupsOfSteps(ps, pairs, flags, n);
      GroupsLast(pairs[..m], flags[..m]);
      assert pairs[..m][..n] == pairs[..n] && flags[..m][..n] == flags[..n];
      assert pairs[..m][n] == pairs[n] && flags[..m][n] == flags[n];
      AppendChain(ps[m], ps[n], ps[0], Groups(pairs[..n], flags[..n]),
                  if flags[n] then Group(pairs[n]) else [], Groups(pairs[..m], flags[..m]));
    }
  }

  /** Appending in two steps is appending the two parts joined. */
  lemma AppendChain(r: seq<Pair>, mid: seq<Pair>, start: seq<Pair>, front: seq<Pair>, tail: seq<Pair>,
                    whole: seq<Pair>)
    requires r == mid + tail && mid == start + front && whole == front + tail
    ensures r == start + whole
  {
  }

  /** The groups of a list of pairs are those of all but the last pair, followed by the last
      pair's group when its flag is set. */
  lemma GroupsLast(pairs: seq<Pair>, flags: seq<bool>)
    requires |flags| == |pairs| > 0
    ensures var n := |pairs| - 1;
      Groups(pairs, flags) == Groups(pairs[..n], flags[..n]) + (if flags[n] then Group(pairs[n]) else [])
  {
  }

  /** The step's sparsity pattern: whole groups of four, closed under transposition, made of
      the group of exactly those ordered pairs of distinct bodies whose detection raised the
      counter, in the order of the sweep; each group stands for at least one contact, so the
      pattern never has more groups than the step has contacts. */
  lemma FindContactsPattern(list: Compaction, buffer: seq<Contact>, verts: seq<seq<V3>>, qs: seq<Vec>,
                            meshes: seq<Services>, eps: real, orders: seq<seq<nat>>)
    requires SceneFits(verts, qs, meshes, |buffer|) && |orders| == |OrderedPairs(|qs|)|
    ensures PairsIn(OrderedPairs(|qs|), |qs|)
    ensures var r := FindContacts(list, buffer, verts, qs, meshes, eps, orders);
      var start := Sweep(Compaction(0, list.results), buffer, []);
      Grouped(r.pattern, |qs|) && Transposable(r.pattern) && |r.pattern| / 4 <= r.list.count
      && r.pattern == Groups(OrderedPairs(|qs|), Grew(start, verts, qs, meshes, OrderedPairs(|qs|), eps, orders))
  {
    OrderedPairsIn(|qs|);
    var start := Sweep(Compaction(0, list.results), buffer, []);
    SweepPattern(start, verts, qs, meshes, OrderedPairs(|qs|), eps, orders);
    SweepGroups(start, verts, qs, meshes, OrderedPairs(|qs|), eps, orders);
  }

  /** The contact search as the step runs it, with the index table of 4·maxPairs rows: group g
      is written to rows 4g .. 4g+3, and the write past the table's end raises an index error,
      so the step fails when the pattern outgrows the table. */
  function SearchContacts(list: Compaction, buffer: seq<Contact>, verts: seq<seq<V3>>, qs: seq<Vec>,
                          meshes: seq<Services>, eps: real, orders: seq<seq<nat>>, maxPairs: nat)
    : (r: Option<Sweep>)
    requires SceneFits(verts, qs, meshes, |buffer|) && |orders| == |OrderedPairs(|qs|)|
    ensures r.Some? ==> |r.value.pattern| <= 4 * maxPairs
  {
    var s := FindContacts(list, buffer, verts, qs, meshes, eps, orders);
    if |s.pattern| <= 4 * maxPairs then Some(s) else None
  }

  /** The step fails exactly when more than maxPairs ordered pairs raise the contact counter;
      otherwise it returns the full sweep, whose pattern fits the table. */
  lemma SearchContactsFails(list: Compaction, buffer: seq<Contact>, verts: seq<seq<V3>>, qs: seq<Vec>,
                            meshes: seq<Services>, eps: real, orders: seq<seq<nat>>, maxPairs: nat)
    requires SceneFits(verts, qs, meshes, |buffer|) && |orders| == |OrderedPairs(|qs|)|
    ensures PairsIn(OrderedPairs(|qs|), |qs|)
    ensures var r := SearchContacts(list, buffer, verts, qs, meshes, eps, orders, maxPairs);
      var start := Sweep(Compaction(0, list.results), buffer, []);
      (r.None? <==> CountSet(Grew(start, verts, qs, meshes, OrderedPairs(|qs|), eps, orders)) > maxPairs)
      && (r.Some? ==> r.value == FindContacts(list, buffer, verts, qs, meshes, eps, orders))
  {
    FindContactsPattern(list, buffer, verts, qs, meshes, eps, orders);
  }

  /** No slot of the buffer holds a valid record. */
  ghost predicate NoValidSlot(buffer: seq<Contact>) {
    forall i :: 0 <= i < |buffer| ==> buffer[i].isValid == 0
  }

  /** No vertex of any body lies inside another body within the contact threshold, each body
      queried through its own mesh. */
  ghost predicate NoTouch(verts: seq<seq<V3>>, qs: seq<Vec>, meshes: seq<Services>, eps: real) {
    IsGlobalPose(qs) && |verts| == |qs| && |meshes| == |qs| &&
    forall a, b, x :: 0 <= a < |qs| && 0 <= b < |qs| && a != b && x in verts[a] ==>
      DetectVertex(qs, a, b, x, eps, meshes[b]).isValid == 0
  }

  /** A reduction over a buffer without valid records leaves the list and its counter alone. */
  lemma {:induction false} ReduceNoValid(s: Compaction, buffer: seq<Contact>, order: seq<nat>)
    requires NoValidSlot(buffer)
    ensures Reduce(s, buffer, order) == s
    decreases |order|
  {
    if |order| > 0 {
      ReduceNoValid(s, buffer, order[..|order| - 1]);
    }
  }

  /** In a scene where nothing touches, a sweep over a clean buffer counts nothing, stores
      nothing, records no pattern and leaves the buffer clean. */
  lemma {:induction false} SweepQuiet(w: Sweep, verts: seq<seq<V3>>, qs: seq<Vec>,
                                      meshes: seq<Services>, pairs: seq<Pair>, eps: real,
                                      orders: seq<seq<nat>>)
    requires SceneFits(verts, qs, meshes, |w.buffer|) && PairsIn(pairs, |qs|) && |orders| == |pairs|
    requires forall k :: 0 <= k < |pairs| ==> pairs[k].a != pairs[k].b
    requires NoValidSlot(w.buffer) && NoTouch(verts, qs, meshes, eps)
    ensures var r := SweepPairs(w, verts, qs, meshes, pairs, eps, orders);
      r.list == w.list && r.pattern == w.pattern && NoValidSlot(r.buffer)
    decreases |pairs|
  {
    if |pairs| > 0 {
      var n := |pairs| - 1;
      PairsInPrefix(pairs, |qs|, n);
      forall k | 0 <= k < n
        ensures pairs[..n][k].a != pairs[..n][k].b
      {
        assert pairs[..n][k] == pairs[k];
      }
      SweepQuiet(w, verts, qs, meshes, pairs[..n], eps, orders[..n]);
      var mid := SweepPairs(w, verts, qs, meshes, pairs[..n], eps, orders[..n]);
      var p := pairs[n];
      var buffer := DetectAll(mid.buffer, verts[p.a], qs, p.a, p.b, eps, meshes[p.b]);
      forall i | 0 <= i < |buffer|
        ensures buffer[i].isValid == 0
      {
        if i < |verts[p.a]| {
          assert verts[p.a][i] in verts[p.a];
        }
      }
      ReduceNoValid(mid.list, buffer, orders[n]);
    }
  }

  /** A step in a scene where nothing touches finds no contact: the counter ends at zero and
      the sparsity pattern is empty, provided the buffer holds no valid record left over. */
  lemma FindContactsQuiet(list: Compaction, buffer: seq<Contact>, verts: seq<seq<V3>>, qs: seq<Vec>,
                          meshes: seq<Services>, eps: real, orders: seq<seq<nat>>)
    requires SceneFits(verts, qs, meshes, |buffer|) && |orders| == |OrderedPairs(|qs|)|
    requires NoValidSlot(buffer) && NoTouch(verts, qs, meshes, eps)
    ensures var r := FindContacts(list, buffer, verts, qs, meshes, eps, orders);
      r.list == Compaction(0, list.results) && r.pattern == []
  {
    OrderedPairsIn(|qs|);
    SweepQuiet(Sweep(Compaction(0, list.results), buffer, []), verts, qs, meshes, OrderedPairs(|qs|),
               eps, orders);
  }

  // ---------------------------------------------------------------------------
  // The contact Hessian triplets
  // ---------------------------------------------------------------------------

  /** One block triplet of the sparse contact Hessian: a 12x12 value at block (row, col). */
  datatype BlockTriplet = BlockTriplet(row: nat, col: nat, value: Mat)

  /** The triplets as the step hands them to the sparse matrix: pattern entry j gives the
      block row and column of triplet j, and value slot j gives its block. */
  function ZipTriplets(pattern: seq<Pair>, values: seq<Mat>): (t: seq<BlockTriplet>)
    requires |pattern| <= |values|
    ensures |t| == |pattern|
  {
    seq(|pattern|, j requires 0 <= j < |pattern| => BlockTriplet(pattern[j].a, pattern[j].b, values[j]))
  }

  /** Every contact names two bodies by non-negative index. */
  ghost predicate IdsValid(contacts: seq<Contact>) {
    forall c :: 0 <= c < |contacts| ==> contacts[c].object1 >= 0 && contacts[c].object2 >= 0
  }

  /** The pair of bodies a contact couples. */
  function ContactPair(c: Contact): Pair
    requires c.object1 >= 0 && c.object2 >= 0
  {
    Pair(c.object1, c.object2)
  }

  /** The sparsity pattern indexed like the value buffer: one group per contact. */
  function ContactPattern(contacts: seq<Contact>): (p: seq<Pair>)
    requires IdsValid(contacts)
    ensures |p| == 4 * |contacts|
  {
    seq(4 * |contacts|, s requires 0 <= s < 4 * |contacts| => Group(ContactPair(contacts[s / 4]))[s % 4])
  }

  /** The triplets of the contact Hessian with each contact's four blocks placed at the blocks
      of its own two bodies. */
  function ContactTriplets(k: real, contacts: seq<Contact>): (t: seq<BlockTriplet>)
    requires IdsValid(contacts)
    ensures |t| == 4 * |contacts|
  {
    ZipTriplets(ContactPattern(contacts), HessianBlocks(k, contacts))
  }

  /** Triplet 4c + j of the corrected list holds block j of contact c at (a, a), (b, b), (a, b)
      or (b, a) for j = 0, 1, 2, 3, where a and b are the contact's two bodies. */
  lemma ContactTripletsAt(k: real, contacts: seq<Contact>, c: nat, j: nat)
    requires IdsValid(contacts) && c < |contacts| && j < 4
    ensures var x := contacts[c];
      ContactTriplets(k, contacts)[4 * c + j] == BlockTriplet(
        if j == 0 || j == 2 then x.object1 else x.object2,
        if j == 0 || j == 3 then x.object1 else x.object2,
        ContactBlock(k, x, j))
  {
    HessianBlocksAt(k, contacts, c, j);
    assert (4 * c + j) / 4 == c && (4 * c + j) % 4 == j;
  }

  /** Pair (0, 1) finds two contacts and pair (1, 0) none: the step records one group, so the
      assembled triplets are those of the first contact alone and the second contact's four
      blocks never reach the matrix. */
  lemma ZipDropsContact(k: real, c0: Contact, c1: Contact)
    requires c0.object1 == 0 && c0.object2 == 1 && c1.object1 == 0 && c1.object2 == 1
    ensures ZipTriplets(Group(Pair(0, 1)), HessianBlocks(k, [c0, c1])) == ContactTriplets(k, [c0])
    ensures |ContactTriplets(k, [c0, c1])| == 8
  {
    var z := ZipTriplets(Group(Pair(0, 1)), HessianBlocks(k, [c0, c1]));
    var t := ContactTriplets(k, [c0]);
    forall j | 0 <= j < 4
      ensures z[j] == t[j]
    {
      HessianBlocksAt(k, [c0, c1], 0, j);
      ContactTripletsAt(k, [c0], 0, j);
    }
  }

  /** Pair (0, 1) finds two contacts and pair (1, 0) one: the second group of the pattern is
      labelled (1, 0) but value slots 4 .. 7 hold the blocks of the second contact, between
      bodies 0 and 1. Triplet 4 puts that contact's H_aa, a block of body 0, at block (1, 1);
      the third contact is dropped. */
  lemma ZipMislabels(k: real, c0: Contact, c1: Contact, c2: Contact)
    requires c0.object1 == 0 && c0.object2 == 1 && c1.object1 == 0 && c1.object2 == 1
    requires c2.object1 == 1 && c2.object2 == 0
    ensures var z := ZipTriplets(Group(Pair(0, 1)) + Group(Pair(1, 0)), HessianBlocks(k, [c0, c1, c2]));
      |z| == 8 && z[4] == BlockTriplet(1, 1, HessDiag(k, c1.normal, c1.refPos1))
    ensures var t := ContactTriplets(k, [c0, c1, c2]);
      |t| == 12 && t[4] == BlockTriplet(0, 0, HessDiag(k, c1.normal, c1.refPos1))
  {
    HessianBlocksAt(k, [c0, c1, c2], 1, 0);
    ContactTripletsAt(k, [c0, c1, c2], 1, 0);
  }

  /** Pairing the per-contact pattern with the value buffer the Hessian launch fills yields the
      corrected triplets of the stored contacts. The launch runs one thread per counted contact,
      and the counter may have passed the list's capacity; threads past the list do nothing.
      With a zeroed buffer and the threads in any order, triplet 4c + j carries block j of
      stored contact c at that contact's bodies. */
  lemma ContactTripletsFromLaunch(h: seq<Mat>, k: real, list: Compaction, order: seq<nat>)
    requires 4 * |list.results| <= |h|
    requires IdsValid(list.results[..if list.count <= |list.results| then list.count else |list.results|])
    requires forall s :: 0 <= s < |h| ==> h[s] == ZeroMat(12, 12)
    requires multiset(order) == multiset(Range(list.count))
    ensures HessianBuffers(h, HessianBlocks(k, list.results))
    ensures var m := if list.count <= |list.results| then list.count else |list.results|;
      ZipTriplets(ContactPattern(list.results[..m]), HessianLaunch(h, HessianBlocks(k, list.results), order))
        == ContactTriplets(k, list.results[..m])
  {
    var m := if list.count <= |list.results| then list.count else |list.results|;
    ZipLaunchPrefix(h, k, list.results, list.count, m, order);
  }

  /** The zip of the first m contacts' pattern with a launch of dim ≥ m threads. */
  lemma ZipLaunchPrefix(h: seq<Mat>, k: real, contacts: seq<Contact>, dim: nat, m: nat, order: seq<nat>)
    requires 4 * |contacts| <= |h| && m <= |contacts| && m <= dim
    requires IdsValid(contacts[..m])
    requires forall s :: 0 <= s < |h| ==> h[s] == ZeroMat(12, 12)
    requires multiset(order) == multiset(Range(dim))
    ensures HessianBuffers(h, HessianBlocks(k, contacts))
    ensures ZipTriplets(ContactPattern(contacts[..m]), HessianLaunch(h, HessianBlocks(k, contacts), order))
      == ContactTriplets(k, contacts[..m])
  {
    var cs := contacts[..m];
    HessianLaunchValues(h, k, contacts, dim, order);
    var v, b := HessianLaunch(h, HessianBlocks(k, contacts), order), HessianBlocks(k, cs);
    forall s | 0 <= s < 4 * |cs|
      ensures v[s] == b[s]
    {
      var c, j := s / 4, s % 4;
      assert s == 4 * c + j;
      LaunchSlot(h, k, contacts, dim, m, order, c, j);
    }
    ZipSameValues(ContactPattern(cs), v, b);
  }

  /** Slot 4c + j of the launch, for c < m, holds the block the first m contacts give it. */
  lemma LaunchSlot(h: seq<Mat>, k: real, contacts: seq<Contact>, dim: nat, m: nat, order: seq<nat>,
                   c: nat, j: nat)
    requires 4 * |contacts| <= |h| && m <= |contacts| && m <= dim && c < m && j < 4
    requires forall s :: 0 <= s < |h| ==> h[s] == ZeroMat(12, 12)
    requires multiset(order) == multiset(Range(dim))
    ensures HessianBuffers(h, HessianBlocks(k, contacts))
    ensures HessianLaunch(h, HessianBlocks(k, contacts), order)[4 * c + j]
      == HessianBlocks(k, contacts[..m])[4 * c + j]
  {
    HessianLaunchValues(h, k, contacts, dim, order);
    HessianBlocksAt(k, contacts[..m], c, j);
    assert contacts[..m][c] == contacts[c];
  }

  /** Zipping a pattern with two buffers that agree along it gives the same triplets. */
  lemma ZipSameValues(pattern: seq<Pair>, v: seq<Mat>, b: seq<Mat>)
    requires |pattern| <= |v| && |pattern| <= |b|
    requires forall s :: 0 <= s < |pattern| ==> v[s] == b[s]
    ensures ZipTriplets(pattern, v) == ZipTriplets(pattern, b)
  {
    var l, r := ZipTriplets(pattern, v), ZipTriplets(pattern, b);
    forall s | 0 <= s < |pattern|
      ensures l[s] == r[s]
    {
    }
  }

  // ---------------------------------------------------------------------------
  // When the recorded pattern is the per-contact pattern
  // ---------------------------------------------------------------------------

  /** The pass over pair p left the counter alone, or raised it by one and stored, below the
      list's capacity, one record naming p's two bodies. */
  ghost predicate StoredOwnRecord(before: Compaction, after: Compaction, p: Pair) {
    after.count == before.count
    || (after.count == before.count + 1 && before.count < |after.results|
        && after.results[before.count].object1 == p.a && after.results[before.count].object2 == p.b)
  }

  /** Every pass of the sweep stored at most one record, naming the pair's own bodies. */
  ghost predicate OneRecordPerPair(w: Sweep, verts: seq<seq<V3>>, qs: seq<Vec>, meshes: seq<Services>,
                                   pairs: seq<Pair>, eps: real, orders: seq<seq<nat>>) {
    SceneFits(verts, qs, meshes, |w.buffer|) && PairsIn(pairs, |qs|) && |orders| == |pairs|
    && forall k :: 0 <= k < |pairs| ==>
         StoredOwnRecord(ListAfter(w, verts, qs, meshes, pairs, eps, orders, k),
                         ListAfter(w, verts, qs, meshes, pairs, eps, orders, k + 1), pairs[k])
  }

  /** The counted contacts are all stored, name bodies, and the pattern holds one group per
      stored contact. */
  ghost predicate PatternOfStored(w: Sweep) {
    w.list.count <= |w.list.results| && IdsValid(w.list.results[..w.list.count])
    && w.pattern == ContactPattern(w.list.results[..w.list.count])
  }

  /** One more contact adds its group to the end of the per-contact pattern. */
  lemma ContactPatternAppend(cs: seq<Contact>, x: Contact)
    requires IdsValid(cs) && x.object1 >= 0 && x.object2 >= 0
    ensures IdsValid(cs + [x])
    ensures ContactPattern(cs + [x]) == ContactPattern(cs) + Group(ContactPair(x))
  {
    var l, r := ContactPattern(cs + [x]), ContactPattern(cs) + Group(ContactPair(x));
    forall s | 0 <= s < |l|
      ensures l[s] == r[s]
    {
      if s < 4 * |cs| {
        assert (cs + [x])[s / 4] == cs[s / 4];
      } else {
        assert s / 4 == |cs| && s % 4 == s - 4 * |cs|;
      }
    }
  }

  /** A pass that stores at most one record, naming its own pair, keeps the pattern the
      per-contact pattern of the stored contacts. */
  lemma SweepPairStored(w: Sweep, verts: seq<seq<V3>>, qs: seq<Vec>, meshes: seq<Services>, p: Pair,
                        eps: real, order: seq<nat>)
    requires SceneFits(verts, qs, meshes, |w.buffer|) && p.a < |qs| && p.b < |qs|
    requires PatternOfStored(w)
    requires StoredOwnRecord(w.list, SweepPair(w, verts, qs, meshes, p, eps, order).list, p)
    ensures var r := SweepPair(w, verts, qs, meshes, p, eps, order);
      PatternOfStored(r) && |r.list.results| == |w.list.results|
  {
    var r := SweepPair(w, verts, qs, meshes, p, eps, order);
    var buffer := DetectAll(w.buffer, verts[p.a], qs, p.a, p.b, eps, meshes[p.b]);
    ReduceEffect(w.list, buffer, order);
    SamePrefix(r.list.results, w.list.results, w.list.count);
    StoredStep(w, r, p);
  }

  /** Two lists that agree below c agree on their prefixes of length c. */
  lemma SamePrefix(x: seq<Contact>, y: seq<Contact>, c: nat)
    requires c <= |x| && c <= |y|
    requires forall i :: 0 <= i < |y| && i < c ==> x[i] == y[i]
    ensures x[..c] == y[..c]
  {
  }

  /** A step that keeps the stored contacts and adds at most one record, naming pair p, with
      p's group exactly when the counter grew, keeps the pattern one group per stored contact. */
  lemma StoredStep(w: Sweep, r: Sweep, p: Pair)
    requires PatternOfStored(w) && |r.list.results| == |w.list.results|
    requires r.list.results[..w.list.count] == w.list.results[..w.list.count]
    requires StoredOwnRecord(w.list, r.list, p)
    requires r.pattern == if r.list.count > w.list.count then w.pattern + Group(p) else w.pattern
    ensures PatternOfStored(r)
  {
    if r.list.count != w.list.count {
      StoredAppended(w.list.results[..w.list.count], r.list.results[..r.list.count], w.pattern, p);
    }
  }

  /** Stored contacts extended by one record naming pair p have p's group appended to their
      pattern. */
  lemma StoredAppended(before: seq<Contact>, after: seq<Contact>, pattern: seq<Pair>, p: Pair)
    requires IdsValid(before) && pattern == ContactPattern(before)
    requires |after| == |before| + 1 && after[..|before|] == before
    requires after[|before|].object1 == p.a && after[|before|].object2 == p.b
    ensures IdsValid(after) && ContactPattern(after) == pattern + Group(p)
  {
    assert after == before + [after[|before|]];
    ContactPatternAppend(before, after[|before|]);
  }

  /** Over a sweep whose every pass stores at most one record, naming its own pair, the
      pattern stays the per-contact pattern of the stored contacts. */
  lemma {:induction false} SweepStoredPattern(w: Sweep, verts: seq<seq<V3>>, qs: seq<Vec>,
                                              meshes: seq<Services>, pairs: seq<Pair>, eps: real,
                                              orders: seq<seq<nat>>)
    requires PatternOfStored(w) && OneRecordPerPair(w, verts, qs, meshes, pairs, eps, orders)
    ensures var r := SweepPairs(w, verts, qs, meshes, pairs, eps, orders);
      PatternOfStored(r) && |r.list.results| == |w.list.results|
    decreases |pairs|
  {
    if |pairs| > 0 {
      var n := |pairs| - 1;
      OneRecordPerPairPrefix(w, verts, qs, meshes, pairs, eps, orders, n);
      SweepStoredPattern(w, verts, qs, meshes, pairs[..n], eps, orders[..n]);
      var mid := SweepPairs(w, verts, qs, meshes, pairs[..n], eps, orders[..n]);
      assert pairs[..n + 1] == pairs && orders[..n + 1] == orders;
      var last := SweepPair(mid, verts, qs, meshes, pairs[n], eps, orders[n]);
      assert ListAfter(w, verts, qs, meshes, pairs, eps, orders, n) == mid.list;
      assert ListAfter(w, verts, qs, meshes, pairs, eps, orders, n + 1) == last.list;
      assert StoredOwnRecord(mid.list, last.list, pairs[n]);
      SweepPairStored(mid, verts, qs, meshes, pairs[n], eps, orders[n]);
    }
  }

  /** A prefix of a sweep that stores at most one record per pair does the same. */
  lemma OneRecordPerPairPrefix(w: Sweep, verts: seq<seq<V3>>, qs: seq<Vec>, meshes: seq<Services>,
                               pairs: seq<Pair>, eps: real, orders: seq<seq<nat>>, n: nat)
    requires OneRecordPerPair(w, verts, qs, meshes, pairs, eps, orders) && n <= |pairs|
    ensures OneRecordPerPair(w, verts, qs, meshes, pairs[..n], eps, orders[..n])
  {
    PairsInPrefix(pairs, |qs|, n);
    forall k | 0 <= k < n
      ensures StoredOwnRecord(ListAfter(w, verts, qs, meshes, pairs[..n], eps, orders[..n], k),
                              ListAfter(w, verts, qs, meshes, pairs[..n], eps, orders[..n], k + 1),
                              pairs[..n][k])
    {
      StoredOwnRecordPrefix(w, verts, qs, meshes, pairs, eps, orders, n, k);
    }
  }

  /** Pass k of a prefix of a sweep is pass k of the whole sweep. */
  lemma StoredOwnRecordPrefix(w: Sweep, verts: seq<seq<V3>>, qs: seq<Vec>, meshes: seq<Services>,
                              pairs: seq<Pair>, eps: real, orders: seq<seq<nat>>, n: nat, k: nat)
    requires SceneFits(verts, qs, meshes, |w.buffer|) && PairsIn(pairs, |qs|) && |orders| == |pairs|
    requires k < n <= |pairs|
    requires StoredOwnRecord(ListAfter(w, verts, qs, meshes, pairs, eps, orders, k),
                             ListAfter(w, verts, qs, meshes, pairs, eps, orders, k + 1), pairs[k])
    ensures PairsIn(pairs[..n], |qs|)
    ensures StoredOwnRecord(ListAfter(w, verts, qs, meshes, pairs[..n], eps, orders[..n], k),
                            ListAfter(w, verts, qs, meshes, pairs[..n], eps, orders[..n], k + 1),
                            pairs[..n][k])
  {
    ListAfterPrefix(w, verts, qs, meshes, pairs, eps, orders, n, k);
    ListAfterPrefix(w, verts, qs, meshes, pairs, eps, orders, n, k + 1);
    assert pairs[..n][k] == pairs[k];
  }

  /** When every pair's detection stores at most one record and that record names the pair's
      own bodies, the pattern the sweep records is the per-contact pattern of the stored
      contacts. The Hessian callback's zip of that pattern with the buffer filled by a launch
      of one thread per counted contact, in any order, is then the corrected triplets. */
  lemma FindContactsZip(list: Compaction, buffer: seq<Contact>, verts: seq<seq<V3>>, qs: seq<Vec>,
                        meshes: seq<Services>, eps: real, orders: seq<seq<nat>>, h: seq<Mat>, k: real,
                        order: seq<nat>)
    requires SceneFits(verts, qs, meshes, |buffer|) && |orders| == |OrderedPairs(|qs|)|
    requires OneRecordPerPair(Sweep(Compaction(0, list.results), buffer, []), verts, qs, meshes,
                              OrderedPairs(|qs|), eps, orders)
    requires 4 * |list.results| <= |h| && forall s :: 0 <= s < |h| ==> h[s] == ZeroMat(12, 12)
    requires multiset(order) == multiset(Range(FindContacts(list, buffer, verts, qs, meshes, eps, orders).list.count))
    ensures var r := FindContacts(list, buffer, verts, qs, meshes, eps, orders);
      r.list.count <= |r.list.results| == |list.results| && IdsValid(r.list.results[..r.list.count])
      && r.pattern == ContactPattern(r.list.results[..r.list.count])
    ensures HessianBuffers(h, HessianBlocks(k, FindContacts(list, buffer, verts, qs, meshes, eps, orders).list.results))
    ensures var r := FindContacts(list, buffer, verts, qs, meshes, eps, orders);
      ZipTriplets(r.pattern, HessianLaunch(h, HessianBlocks(k, r.list.results), order))
        == ContactTriplets(k, r.list.results[..r.list.count])
  {
    var start := Sweep(Compaction(0, list.results), buffer, []);
    var r := FindContacts(list, buffer, verts, qs, meshes, eps, orders);
    assert PatternOfStored(start);
    SweepStoredPattern(start, verts, qs, meshes, OrderedPairs(|qs|), eps, orders);
    ContactTripletsFromLaunch(h, k, r.list, order);
  }

  /** Every triplet addresses blocks of the direction ds and holds a 12x12 value. */
  ghost predicate TripletsFit(t: seq<BlockTriplet>, ds: seq<Vec>) {
    forall j :: 0 <= j < |t| ==> t[j].row < |ds| && t[j].col < |ds| && IsMatrix(t[j].value, 12, 12)
  }

  /** The contribution x_rowᵀ · value · x_col of one triplet to dᵀ H d. */
  function TripletValue(t: BlockTriplet, ds: seq<Vec>): real
    requires IsGlobalPose(ds) && t.row < |ds| && t.col < |ds| && IsMatrix(t.value, 12, 12)
  {
    Bilinear(t.value, ds[t.row], ds[t.col])
  }

  /** Each triplet's contribution, in list order. */
  function TripletValues(t: seq<BlockTriplet>, ds: seq<Vec>): (v: Vec)
    requires IsGlobalPose(ds) && TripletsFit(t, ds)
    ensures |v| == |t|
  {
    seq(|t|, j requires 0 <= j < |t| => TripletValue(t[j], ds))
  }

  /** dᵀ H d for the sparse matrix H the triplets assemble; triplets at the same block add up. */
  function TripletForm(t: seq<BlockTriplet>, ds: seq<Vec>): real
    requires IsGlobalPose(ds) && TripletsFit(t, ds)
  {
    Sum(TripletValues(t, ds))
  }

  /** Each contact's 24x24 quadratic form at its two bodies' blocks of the direction ds. */
  function ContactForms(k: real, contacts: seq<Contact>, ds: seq<Vec>): (v: Vec)
    requires IsGlobalPose(ds) && ContactsInRange(contacts, |ds|)
    ensures |v| == |contacts|
  {
    seq(|contacts|, c requires 0 <= c < |contacts| =>
      ContactForm(k, contacts[c].normal, contacts[c].refPos1, contacts[c].refPos2,
                  ds[contacts[c].object1], ds[contacts[c].object2]))
  }

  /** Appended triplets add their contributions to the form of the first ones. */
  lemma TripletFormConcat(a: seq<BlockTriplet>, b: seq<BlockTriplet>, ds: seq<Vec>)
    requires IsGlobalPose(ds) && TripletsFit(a, ds) && TripletsFit(b, ds)
    ensures TripletsFit(a + b, ds)
    ensures TripletForm(a + b, ds) == TripletForm(a, ds) + TripletForm(b, ds)
  {
    TripletsFitConcat(a, b, ds);
    var u, v, w := TripletValues(a + b, ds), TripletValues(a, ds), TripletValues(b, ds);
    forall j | 0 <= j < |u|
      ensures u[j] == (v + w)[j]
    {
      if j < |a| {
        assert (a + b)[j] == a[j];
      } else {
        assert (a + b)[j] == b[j - |a|];
      }
    }
    assert u == v + w;
    SumConcat(v, w);
  }

  lemma TripletsFitConcat(a: seq<BlockTriplet>, b: seq<BlockTriplet>, ds: seq<Vec>)
    requires TripletsFit(a, ds) && TripletsFit(b, ds)
    ensures TripletsFit(a + b, ds)
  {
    forall j | 0 <= j < |a + b|
      ensures (a + b)[j].row < |ds| && (a + b)[j].col < |ds| && IsMatrix((a + b)[j].value, 12, 12)
    {
      if j < |a| {
        assert (a + b)[j] == a[j];
      } else {
        assert (a + b)[j] == b[j - |a|];
      }
    }
  }

  /** The corrected triplets address the scene's bodies and hold 12x12 blocks. */
  lemma ContactTripletsFit(k: real, contacts: seq<Contact>, ds: seq<Vec>)
    requires IsGlobalPose(ds) && ContactsInRange(contacts, |ds|)
    ensures IdsValid(contacts) && TripletsFit(ContactTriplets(k, contacts), ds)
  {
    var t := ContactTriplets(k, contacts);
    forall s | 0 <= s < |t|
      ensures t[s].row < |ds| && t[s].col < |ds| && IsMatrix(t[s].value, 12, 12)
    {
      ContactTripletsAt(k, contacts, s / 4, s % 4);
    }
  }

  /** The four triplets of one contact: its blocks at the diagonal positions of its two
      bodies, then at the two off-diagonal positions. */
  function GroupTriplets(k: real, x: Contact): (t: seq<BlockTriplet>)
    requires x.object1 >= 0 && x.object2 >= 0
    ensures |t| == 4
  {
    var a, b := x.object1, x.object2;
    [BlockTriplet(a, a, ContactBlock(k, x, 0)), BlockTriplet(b, b, ContactBlock(k, x, 1)),
     BlockTriplet(a, b, ContactBlock(k, x, 2)), BlockTriplet(b, a, ContactBlock(k, x, 3))]
  }

  /** The corrected triplets of a contact list are those of all but its last contact
      followed by the last contact's group. */
  lemma ContactTripletsSnoc(k: real, contacts: seq<Contact>)
    requires IdsValid(contacts) && |contacts| > 0
    ensures IdsValid(contacts[..|contacts| - 1])
    ensures ContactTriplets(k, contacts)
      == ContactTriplets(k, contacts[..|contacts| - 1]) + GroupTriplets(k, contacts[|contacts| - 1])
  {
    var n := |contacts|;
    var init := contacts[..n - 1];
    var t, u, g := ContactTriplets(k, contacts), ContactTriplets(k, init), GroupTriplets(k, contacts[n - 1]);
    forall s | 0 <= s < 4 * n
      ensures t[s] == (u + g)[s]
    {
      var c, j := s / 4, s % 4;
      assert s == 4 * c + j;
      ContactTripletsAt(k, contacts, c, j);
      if c < n - 1 {
        assert init[c] == contacts[c];
        ContactTripletsAt(k, init, c, j);
      }
    }
  }

  /** The four blocks of a contact, at its two bodies, add up to its 24x24 quadratic form. */
  lemma ContactBlocksForm(k: real, x: Contact, da: Vec, db: Vec, h0: Mat, h1: Mat, h2: Mat, h3: Mat)
    requires |da| == 12 && |db| == 12
    requires h0 == ContactBlock(k, x, 0) && h1 == ContactBlock(k, x, 1)
    requires h2 == ContactBlock(k, x, 2) && h3 == ContactBlock(k, x, 3)
    ensures Bilinear(h0, da, da) + Bilinear(h1, db, db) + Bilinear(h2, da, db) + Bilinear(h3, db, da)
      == ContactForm(k, x.normal, x.refPos1, x.refPos2, da, db)
  {
  }

  /** Four triplets holding blocks at the diagonal and off-diagonal positions of bodies a and
      b contribute the blocks' forms at those bodies' directions. */
  lemma GroupValue(ds: seq<Vec>, a: nat, b: nat, u0: BlockTriplet, u1: BlockTriplet,
                   u2: BlockTriplet, u3: BlockTriplet, h0: Mat, h1: Mat, h2: Mat, h3: Mat)
    requires IsGlobalPose(ds) && a < |ds| && b < |ds|
    requires IsMatrix(h0, 12, 12) && IsMatrix(h1, 12, 12)
    requires IsMatrix(h2, 12, 12) && IsMatrix(h3, 12, 12)
    requires u0 == BlockTriplet(a, a, h0) && u1 == BlockTriplet(b, b, h1)
    requires u2 == BlockTriplet(a, b, h2) && u3 == BlockTriplet(b, a, h3)
    ensures TripletValue(u0, ds) + TripletValue(u1, ds) + TripletValue(u2, ds) + TripletValue(u3, ds)
      == Bilinear(h0, ds[a], ds[a]) + Bilinear(h1, ds[b], ds[b]) + Bilinear(h2, ds[a], ds[b])
        + Bilinear(h3, ds[b], ds[a])
  {
  }

  /** Four triplets add their four contributions. */
  lemma TripletFormFour(t: seq<BlockTriplet>, ds: seq<Vec>)
    requires IsGlobalPose(ds) && TripletsFit(t, ds) && |t| == 4
    ensures TripletForm(t, ds)
      == TripletValue(t[0], ds) + TripletValue(t[1], ds) + TripletValue(t[2], ds) + TripletValue(t[3], ds)
  {
    Sum4Expand(TripletValues(t, ds));
  }

  /** Four triplets holding blocks h0 to h3 at the diagonal and off-diagonal positions of
      bodies a and b contribute the blocks' forms at those bodies' directions. */
  lemma BlockGroupForm(ds: seq<Vec>, a: nat, b: nat, h0: Mat, h1: Mat, h2: Mat, h3: Mat)
    requires IsGlobalPose(ds) && a < |ds| && b < |ds|
    requires IsMatrix(h0, 12, 12) && IsMatrix(h1, 12, 12)
    requires IsMatrix(h2, 12, 12) && IsMatrix(h3, 12, 12)
    ensures var g := [BlockTriplet(a, a, h0), BlockTriplet(b, b, h1), BlockTriplet(a, b, h2),
                      BlockTriplet(b, a, h3)];
      TripletsFit(g, ds)
      && TripletForm(g, ds) == Bilinear(h0, ds[a], ds[a]) + Bilinear(h1, ds[b], ds[b])
        + Bilinear(h2, ds[a], ds[b]) + Bilinear(h3, ds[b], ds[a])
  {
    var g := [BlockTriplet(a, a, h0), BlockTriplet(b, b, h1), BlockTriplet(a, b, h2),
              BlockTriplet(b, a, h3)];
    assert TripletsFit(g, ds);
    TripletFormFour(g, ds);
    GroupValue(ds, a, b, g[0], g[1], g[2], g[3], h0, h1, h2, h3);
  }

  /** One contact's group of triplets contributes that contact's 24x24 quadratic form. */
  lemma GroupTripletsForm(k: real, x: Contact, ds: seq<Vec>)
    requires IsGlobalPose(ds) && 0 <= x.object1 < |ds| && 0 <= x.object2 < |ds|
    ensures TripletsFit(GroupTriplets(k, x), ds)
    ensures TripletForm(GroupTriplets(k, x), ds)
      == ContactForm(k, x.normal, x.refPos1, x.refPos2, ds[x.object1], ds[x.object2])
  {
    var h0, h1, h2, h3 := ContactBlock(k, x, 0), ContactBlock(k, x, 1), ContactBlock(k, x, 2),
      ContactBlock(k, x, 3);
    BlockGroupForm(ds, x.object1, x.object2, h0, h1, h2, h3);
    ContactBlocksForm(k, x, ds[x.object1], ds[x.object2], h0, h1, h2, h3);
  }

  /** With a non-negative stiffness every contact's form is non-negative, and so is the sum. */
  lemma ContactFormsNonNegative(k: real, contacts: seq<Contact>, ds: seq<Vec>)
    requires IsGlobalPose(ds) && ContactsInRange(contacts, |ds|) && k >= 0.0
    ensures Sum(ContactForms(k, contacts, ds)) >= 0.0
  {
    var v := ContactForms(k, contacts, ds);
    forall c | 0 <= c < |contacts|
      ensures v[c] >= 0.0
    {
      var x := contacts[c];
      ContactFormValue(k, x.normal, x.refPos1, x.refPos2, ds[x.object1], ds[x.object2]);
    }
    SumNonNegative(v);
  }

  lemma SumSnoc(v: Vec)
    requires |v| > 0
    ensures Sum(v) == Sum(v[..|v| - 1]) + v[|v| - 1]
  {
    assert v == v[..|v| - 1] + [v[|v| - 1]];
    SumConcat(v[..|v| - 1], [v[|v| - 1]]);
  }

  /** The sparse contact Hessian assembled from the corrected triplets has, at every
      direction, the quadratic form of the sum of the contacts' 24x24 Hessians. */
  lemma {:induction false} ContactTripletsForm(k: real, contacts: seq<Contact>, ds: seq<Vec>)
    requires IsGlobalPose(ds) && ContactsInRange(contacts, |ds|)
    ensures IdsValid(contacts) && TripletsFit(ContactTriplets(k, contacts), ds)
    ensures TripletForm(ContactTriplets(k, contacts), ds) == Sum(ContactForms(k, contacts, ds))
    decreases |contacts|
  {
    ContactTripletsFit(k, contacts, ds);
    var n := |contacts|;
    if n == 0 {
      assert ContactTriplets(k, contacts) == [];
    } else {
      var init, x := contacts[..n - 1], contacts[n - 1];
      ContactFormsSnoc(k, contacts, ds);
      ContactTripletsForm(k, init, ds);
      ContactTripletsSnoc(k, contacts);
      GroupTripletsForm(k, x, ds);
      TripletFormConcat(ContactTriplets(k, init), GroupTriplets(k, x), ds);
    }
  }

  /** The contact forms of a list add up to those of all but its last contact plus the last
      contact's form. */
  lemma ContactFormsSnoc(k: real, contacts: seq<Contact>, ds: seq<Vec>)
    requires IsGlobalPose(ds) && ContactsInRange(contacts, |ds|) && |contacts| > 0
    ensures ContactsInRange(contacts[..|contacts| - 1], |ds|)
    ensures var x := contacts[|contacts| - 1];
      Sum(ContactForms(k, contacts, ds)) == Sum(ContactForms(k, contacts[..|contacts| - 1], ds))
        + ContactForm(k, x.normal, x.refPos1, x.refPos2, ds[x.object1], ds[x.object2])
  {
    var n := |contacts|;
    var init := contacts[..n - 1];
    assert ContactsInRange(init, |ds|) by {
      forall c | 0 <= c < n - 1
        ensures init[c] == contacts[c]
      {
      }
    }
    var v := ContactForms(k, contacts, ds);
    assert v[..n - 1] == ContactForms(k, init, ds);
    SumSnoc(v);
  }
}
