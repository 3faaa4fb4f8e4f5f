/** One affine body: how its configuration is defaulted, how its pose vectors q and
    q_prev are initialised from the 4x4 transform and the initial velocity, and how its
    mesh vertices are deformed by a pose. */
module SimObject {
  import opened LinAlg
  import opened Geometry
  import opened Kinematics

  datatype Option<T> = None | Some(value: T)

  /** A configuration field counts as given when it is present and not an empty list;
      a missing field and an empty list both fall back to the default. */
  predicate Given<T>(o: Option<seq<T>>) {
    o.Some? && |o.value| > 0
  }

  /** The 4x4 identity transform. */
  function Identity4(): (m: Mat)
    ensures IsMatrix(m, 4, 4)
    ensures forall i, j :: 0 <= i < 4 && 0 <= j < 4 ==> m[i][j] == if i == j then 1.0 else 0.0
  {
    seq(4, i => seq(4, j => if i == j then 1.0 else 0.0))
  }

  /** The object's transform: the configured matrix, or the identity when none is given. */
  function ObjectTransform(t: Option<Mat>): (m: Mat)
    ensures Given(t) ==> m == t.value
    ensures !Given(t) ==> m == Identity4()
  {
    if Given(t) then t.value else Identity4()
  }

  /** The object's initial velocity: the configured 3-vector, or zero when none is given. */
  function ObjectVelocity(v: Option<seq<real>>): (r: V3)
    requires Given(v) ==> |v.value| == 3
    ensures Given(v) ==> ToSeq(r) == v.value
    ensures !Given(v) ==> r == V3(0.0, 0.0, 0.0)
  {
    if Given(v) then V3(v.value[0], v.value[1], v.value[2]) else V3(0.0, 0.0, 0.0)
  }

  /** The object's pinned pose entries: the configured list, or none at all when the
      list is missing or empty. */
  function ObjectPinned(p: Option<seq<int>>): (r: Option<seq<int>>)
    ensures r.Some? <==> Given(p)
    ensures r.Some? ==> r.value == p.value && |r.value| > 0
  {
    if Given(p) then Some(p.value) else None
  }

  /** A body pins nothing when its pinned list is missing or empty; a non-empty configured
      list is kept as it is. */
  lemma PinnedDefault(p: Option<seq<int>>)
    ensures ObjectPinned(p).None? <==> p.None? || |p.value| == 0
    ensures p.Some? && |p.value| > 0 ==> ObjectPinned(p) == p
  {
  }

  /** Each object is a single element carrying one block of twelve pose entries. */
  const NumDofs: nat := 1
  const DofBlockSize: nat := 12
  const EleBlockDim: nat := 1

  /** The pose at the start of the simulation and the pose one step earlier. */
  datatype InitialState = InitialState(q: Vec, qPrev: Vec)

  /** The first three rows of a transform are present and hold four entries each. */
  ghost predicate IsTransform(t: Mat) {
    |t| >= 3 && |t[0]| == 4 && |t[1]| == 4 && |t[2]| == 4
  }

  /** q is the top 3x4 block of the transform flattened row by row; the previous pose
      has the same linear part and its translation moved back by dt·v. */
  function InitialDofs(t: Mat, v: V3, dt: real): (s: InitialState)
    requires IsTransform(t)
    ensures |s.q| == 12 && |s.qPrev| == 12
  {
    InitialState(
      t[0] + t[1] + t[2],
      t[0][..3] + [t[0][3] - dt * v.x] + t[1][..3] + [t[1][3] - dt * v.y]
        + t[2][..3] + [t[2][3] - dt * v.z])
  }

  /** Entry 4r + c of q is transform entry (r, c): F is the top-left 3x3 block and the
      translation, at entries 3, 7 and 11, is the last column. */
  lemma InitialPoseLayout(t: Mat, v: V3, dt: real)
    requires IsTransform(t)
    ensures forall r, c :: 0 <= r < 3 && 0 <= c < 4 ==> InitialDofs(t, v, dt).q[4 * r + c] == t[r][c]
    ensures Translation(InitialDofs(t, v, dt).q) == V3(t[0][3], t[1][3], t[2][3])
  {
    var q := InitialDofs(t, v, dt).q;
    forall r, c | 0 <= r < 3 && 0 <= c < 4
      ensures q[4 * r + c] == t[r][c]
    {
      if r == 0 {
        assert q[c] == t[0][c];
      } else if r == 1 {
        assert q[4 + c] == (t[1] + t[2])[c];
      } else {
        assert q[8 + c] == t[2][c];
      }
    }
  }

  /** The previous pose differs from q only in its translation, which lies dt·v behind:
      the integrator's first velocity estimate (q - q_prev)/dt is the configured v. */
  lemma InitialVelocityRecovered(t: Mat, v: V3, dt: real)
    requires IsTransform(t)
    ensures LinearPart(InitialDofs(t, v, dt).qPrev) == LinearPart(InitialDofs(t, v, dt).q)
    ensures Sub3(Translation(InitialDofs(t, v, dt).q), Translation(InitialDofs(t, v, dt).qPrev))
      == Scale3(dt, v)
  {
    var s := InitialDofs(t, v, dt);
    assert s.q[0] == t[0][0] && s.q[1] == t[0][1] && s.q[2] == t[0][2] && s.q[3] == t[0][3];
    assert s.q[4] == t[1][0] && s.q[5] == t[1][1] && s.q[6] == t[1][2] && s.q[7] == t[1][3];
    assert s.q[8] == t[2][0] && s.q[9] == t[2][1] && s.q[10] == t[2][2] && s.q[11] == t[2][3];
  }

  /** With zero initial velocity the body starts at rest: q_prev equals q. */
  lemma InitialAtRest(t: Mat, dt: real)
    requires IsTransform(t)
    ensures InitialDofs(t, V3(0.0, 0.0, 0.0), dt).qPrev == InitialDofs(t, V3(0.0, 0.0, 0.0), dt).q
  {
    var s := InitialDofs(t, V3(0.0, 0.0, 0.0), dt);
    InitialVelocityRecovered(t, V3(0.0, 0.0, 0.0), dt);
    PoseOfParts(s.q);
    PoseOfParts(s.qPrev);
  }

  /** An object configured with neither a transform nor a velocity starts at rest in the
      identity pose [I | 0]. */
  lemma DefaultInitialState(dt: real)
    ensures var s := InitialDofs(ObjectTransform(None), ObjectVelocity(None), dt);
      s.q == Pose(Identity(), V3(0.0, 0.0, 0.0)) && s.qPrev == s.q
  {
    var t := ObjectTransform(None);
    assert t == Identity4();
    InitialPoseLayout(t, V3(0.0, 0.0, 0.0), dt);
    InitialAtRest(t, dt);
    var q := InitialDofs(t, V3(0.0, 0.0, 0.0), dt).q;
    assert q == Pose(Identity(), V3(0.0, 0.0, 0.0)) by {
      assert q[0] == t[0][0] && q[1] == t[0][1] && q[2] == t[0][2] && q[3] == t[0][3];
      assert q[4] == t[1][0] && q[5] == t[1][1] && q[6] == t[1][2] && q[7] == t[1][3];
      assert q[8] == t[2][0] && q[9] == t[2][1] && q[10] == t[2][2] && q[11] == t[2][3];
    }
  }

  /** The mesh vertices moved by pose q: vertex X goes to F·X + t, with F and t read
      from the row-major 3x4 reshape of q. */
  function DeformedVertices(q: Vec, verts: seq<V3>): (r: seq<V3>)
    requires |q| == 12
    ensures |r| == |verts|
  {
    seq(|verts|, i requires 0 <= i < |verts| => World(q, verts[i]))
  }

  /** Each deformed vertex is the kinematic Jacobian of its rest position applied to q,
      and equals F·X + t. */
  lemma DeformedVerticesJacobian(q: Vec, verts: seq<V3>, i: nat)
    requires |q| == 12 && i < |verts|
    ensures ToSeq(DeformedVertices(q, verts)[i]) == MatVec(Jacobian(verts[i]), q)
    ensures DeformedVertices(q, verts)[i] == Add3(Apply(LinearPart(q), verts[i]), Translation(q))
  {
    JacobianApply(verts[i], q);
  }

  /** The identity pose leaves the mesh where it is. */
  lemma DeformedVerticesIdentity(verts: seq<V3>)
    ensures DeformedVertices(Pose(Identity(), V3(0.0, 0.0, 0.0)), verts) == verts
  {
    var r := DeformedVertices(Pose(Identity(), V3(0.0, 0.0, 0.0)), verts);
    forall i | 0 <= i < |verts|
      ensures r[i] == verts[i]
    {
      IdentityPoseFixes(verts[i]);
    }
  }

  /** Translating the pose by τ translates every deformed vertex by τ. */
  lemma DeformedVerticesTranslate(q: Vec, tau: V3, verts: seq<V3>)
    requires |q| == 12
    ensures forall i :: 0 <= i < |verts| ==>
      DeformedVertices(Translate(q, tau), verts)[i] == Add3(DeformedVertices(q, verts)[i], tau)
  {
    forall i | 0 <= i < |verts|
      ensures DeformedVertices(Translate(q, tau), verts)[i] == Add3(DeformedVertices(q, verts)[i], tau)
    {
      TranslateShiftsWorld(q, tau, verts[i]);
    }
  }
}
