/** Contact detection between an ordered pair of bodies (a, b) and the compaction of the
    per-vertex detection buffer into the bounded contact list.

    Detection runs one thread per vertex X of body a: X is moved to the world by a's
    pose, pulled back into b's rest space by the inverse of b's linear part, and the
    closest point of b's mesh is queried there. The reduction then runs one thread per
    buffer slot; each thread holding a valid record claims the next index of a shared
    counter with an atomic increment and copies its record there if the index is below
    the list's capacity. */
module Collision {
  import opened LinAlg
  import opened Geometry
  import opened Kinematics
  import opened Atomics

  /** One contact record. */
  datatype Contact = Contact(
    refPos1: V3,       // the querying vertex in a's rest space
    refPos2: V3,       // the closest point in b's rest space
    closestPoint: V3,  // the closest point in the world
    normal: V3,        // the contact normal in the world
    isValid: int,      // 1 for a contact, 0 otherwise
    distance: real,    // distance from the world vertex to the closest point
    object1: int,      // a, the querying body
    object2: int)      // b, the target body

  /** What the mesh query reports for a point in b's rest space: the closest point on
      the mesh, the normal of the face it lies on, and the sign of the point's side
      (negative inside). */
  datatype QueryHit = QueryHit(point: V3, faceNormal: V3, sign: real)

  /** The services the detection kernel calls: the 3x3 inverse, the mesh query of body
      b, and the Euclidean length. */
  datatype Services = Services(inverse: M3 -> M3, query: V3 -> QueryHit, length: V3 -> real)

  /** The length service returns the Euclidean norm: non-negative, squaring to |v|². */
  ghost predicate IsLength(length: V3 -> real) {
    forall v :: length(v) >= 0.0 && length(v) * length(v) == Norm2(v)
  }

  /** The global pose: one 12-entry block per body. */
  ghost predicate IsGlobalPose(qs: seq<Vec>) {
    forall i :: 0 <= i < |qs| ==> |qs[i]| == 12
  }

  /** The point of b's rest space that lands on world point w: A2⁻¹(w - t2). */
  function LocalPoint(q2: Vec, inv: M3, w: V3): V3
    requires |q2| == 12
  {
    Apply(inv, Sub3(w, Translation(q2)))
  }

  /** The contact normal as the kernel computes it: A2⁻ᵀ applied to the face normal. */
  function WorldNormal(inv: M3, n: V3): V3 {
    Apply(Tr(inv), n)
  }

  /** The record thread tid writes for rest-space vertex x of body a against body b. */
  function DetectVertex(qs: seq<Vec>, a: nat, b: nat, x: V3, eps: real, sv: Services): (c: Contact)
    requires IsGlobalPose(qs) && a < |qs| && b < |qs|
    ensures c.refPos1 == x && c.object1 == a && c.object2 == b
    ensures c.isValid == 0 || c.isValid == 1
  {
    var w := World(qs[a], x);
    var inv := sv.inverse(LinearPart(qs[b]));
    var hit := sv.query(LocalPoint(qs[b], inv, w));
    var closest := World(qs[b], hit.point);
    var dist := sv.length(Sub3(w, closest));
    Contact(x, hit.point, closest, WorldNormal(inv, hit.faceNormal),
            if dist <= eps && hit.sign < 0.0 then 1 else 0, dist, a, b)
  }

  /** The world vertex is A1·X + t1 with A1 and t1 read from entries 0-2, 4-6, 8-10 and
      3, 7, 11 of a's block, the closest point is b's pose applied to the rest-space
      closest point, and the stored distance is a Euclidean length, so never negative. */
  lemma DetectVertexGeometry(qs: seq<Vec>, a: nat, b: nat, x: V3, eps: real, sv: Services)
    requires IsGlobalPose(qs) && a < |qs| && b < |qs| && IsLength(sv.length)
    ensures var c := DetectVertex(qs, a, b, x, eps, sv);
      var w := Add3(Apply(LinearPart(qs[a]), x), Translation(qs[a]));
      c.closestPoint == Add3(Apply(LinearPart(qs[b]), c.refPos2), Translation(qs[b]))
      && c.distance >= 0.0
      && c.distance * c.distance == Norm2(Sub3(w, c.closestPoint))
  {
  }

  /** For invertible A2, the query point mapped back by b's pose is the world vertex:
      the query is asked at the right place of b's rest space. */
  lemma LocalPointRoundTrip(q1: Vec, q2: Vec, inv: M3, x: V3)
    requires |q1| == 12 && |q2| == 12
    requires Mul(LinearPart(q2), inv) == Identity()
    ensures World(q2, LocalPoint(q2, inv, World(q1, x))) == World(q1, x)
  {
    var w := World(q1, x);
    var u := Sub3(w, Translation(q2));
    ApplyMul(LinearPart(q2), inv, u);
    ApplyIdentity(Mul(LinearPart(q2), inv), u);
  }

  /** A record is valid exactly when the vertex lies inside b (negative sign) and within
      eps of the closest point; with the squared distance this reads |w - p|² ≤ eps²
      for a non-negative eps. */
  lemma DetectVertexValid(qs: seq<Vec>, a: nat, b: nat, x: V3, eps: real, sv: Services)
    requires IsGlobalPose(qs) && a < |qs| && b < |qs| && IsLength(sv.length)
    ensures var c := DetectVertex(qs, a, b, x, eps, sv);
      var hit := sv.query(LocalPoint(qs[b], sv.inverse(LinearPart(qs[b])), World(qs[a], x)));
      c.isValid == 1 <==>
        (0.0 <= eps && Norm2(Sub3(World(qs[a], x), c.closestPoint)) <= eps * eps && hit.sign < 0.0)
  {
    var c := DetectVertex(qs, a, b, x, eps, sv);
    var w := World(qs[a], x);
    var hit := sv.query(LocalPoint(qs[b], sv.inverse(LinearPart(qs[b])), w));
    ValidRecord(c, w, eps, hit.sign, sv.length);
  }

  /** The validity test of a record whose distance is the length of w − p, restated on
      the squared length. */
  lemma ValidRecord(c: Contact, w: V3, eps: real, sign: real, length: V3 -> real)
    requires IsLength(length)
    requires c.distance == length(Sub3(w, c.closestPoint))
    requires c.isValid == 1 <==> c.distance <= eps && sign < 0.0
    ensures c.isValid == 1 <==> 0.0 <= eps && Norm2(Sub3(w, c.closestPoint)) <= eps * eps && sign < 0.0
  {
    ValidThroughSquares(c.distance, Norm2(Sub3(w, c.closestPoint)), eps, sign, c.isValid);
  }

  /** The validity test on a distance r with r² = n2, restated on n2. */
  lemma ValidThroughSquares(r: real, n2: real, eps: real, sign: real, valid: int)
    requires r >= 0.0 && r * r == n2
    requires valid == 1 <==> r <= eps && sign < 0.0
    ensures valid == 1 <==> 0.0 <= eps && n2 <= eps * eps && sign < 0.0
  {
    SquareMonotone(r, eps);
  }

  /** For r ≥ 0: r ≤ e exactly when e ≥ 0 and r² ≤ e². */
  lemma SquareMonotone(r: real, e: real)
    requires r >= 0.0
    ensures r <= e <==> 0.0 <= e && r * r <= e * e
  {
    if r <= e {
      assert r * r <= r * e <= e * e;
    } else if 0.0 <= e {
      var d := r - e;
      assert r * r == e * e + d * (r + e);
      assert d * (r + e) > 0.0;
    }
  }

  /** The detection launch: thread i < |verts| overwrites buffer slot i; the remaining
      slots keep whatever an earlier launch left there. */
  function DetectAll(buffer: seq<Contact>, verts: seq<V3>, qs: seq<Vec>, a: nat, b: nat,
                     eps: real, sv: Services): (r: seq<Contact>)
    requires IsGlobalPose(qs) && a < |qs| && b < |qs| && |verts| <= |buffer|
    ensures |r| == |buffer|
  {
    seq(|buffer|, i requires 0 <= i < |buffer| =>
      if i < |verts| then DetectVertex(qs, a, b, verts[i], eps, sv) else buffer[i])
  }

  /** The records detection computes for the vertices of a, one per vertex. */
  function DetectEach(verts: seq<V3>, qs: seq<Vec>, a: nat, b: nat, eps: real, sv: Services): (r: seq<Contact>)
    requires IsGlobalPose(qs) && a < |qs| && b < |qs|
    ensures |r| == |verts|
  {
    seq(|verts|, i requires 0 <= i < |verts| => DetectVertex(qs, a, b, verts[i], eps, sv))
  }

  /** Detection writes a new record for each vertex of a and leaves every later slot
      as it was. */
  lemma DetectAllSlots(buffer: seq<Contact>, verts: seq<V3>, qs: seq<Vec>, a: nat, b: nat,
                       eps: real, sv: Services)
    requires IsGlobalPose(qs) && a < |qs| && b < |qs| && |verts| <= |buffer|
    ensures var r := DetectAll(buffer, verts, qs, a, b, eps, sv);
      (forall i :: 0 <= i < |verts| ==> r[i].refPos1 == verts[i] && r[i].object1 == a && r[i].object2 == b)
      && r[|verts|..] == buffer[|verts|..]
  {
  }

  // ---------------------------------------------------------------------------
  // Bounded compaction
  // ---------------------------------------------------------------------------

  /** The counter and the contact list. */
  datatype Compaction = Compaction(count: nat, results: seq<Contact>)

  /** Whether thread tid finds a valid record in its slot. */
  predicate ValidSlot(buffer: seq<Contact>, tid: nat) {
    tid < |buffer| && buffer[tid].isValid != 0
  }

  /** One thread of the reduction: out-of-range or invalid slots do nothing; otherwise the
      thread takes the counter's old value as its index, increments the counter, and
      copies its record there when the index is below capacity. */
  function ReduceThread(s: Compaction, buffer: seq<Contact>, tid: nat): Compaction {
    if !ValidSlot(buffer, tid) then s
    else if s.count < |s.results| then Compaction(s.count + 1, s.results[s.count := buffer[tid]])
    else Compaction(s.count + 1, s.results)
  }

  /** The reduction with its threads' increments landing in the given order. */
  function Reduce(s: Compaction, buffer: seq<Contact>, order: seq<nat>): Compaction
    decreases |order|
  {
    if |order| == 0 then s
    else ReduceThread(Reduce(s, buffer, order[..|order| - 1]), buffer, order[|order| - 1])
  }

  /** The threads of the order that hold a valid record, in the order they claim indices. */
  function ValidThreads(buffer: seq<Contact>, order: seq<nat>): (v: seq<nat>)
    ensures forall k :: 0 <= k < |v| ==> ValidSlot(buffer, v[k])
    decreases |order|
  {
    if |order| == 0 then []
    else
      var init := ValidThreads(buffer, order[..|order| - 1]);
      if ValidSlot(buffer, order[|order| - 1]) then init + [order[|order| - 1]] else init
  }

  /** The reduction's effect: the counter grows by the number of valid threads; the k-th
      valid thread claims index count + k (so claimed indices are pairwise distinct) and
      its record lands there when that index is below capacity; every other slot keeps
      its content; the counter may pass the capacity, and the records past it are lost. */
  lemma {:induction false} ReduceEffect(s: Compaction, buffer: seq<Contact>, order: seq<nat>)
    ensures var r, v := Reduce(s, buffer, order), ValidThreads(buffer, order);
      r.count == s.count + |v|
      && |r.results| == |s.results|
      && (forall k :: 0 <= k < |v| && s.count + k < |s.results| ==> r.results[s.count + k] == buffer[v[k]])
      && (forall i :: 0 <= i < |s.results| && (i < s.count || i >= r.count) ==> r.results[i] == s.results[i])
    decreases |order|
  {
    if |order| > 0 {
      ReduceEffect(s, buffer, order[..|order| - 1]);
    }
  }

  /** The valid threads of two orders holding the same threads are the same threads. */
  lemma {:induction false} ValidThreadsCount(buffer: seq<Contact>, order: seq<nat>)
    ensures forall t :: multiset(ValidThreads(buffer, order))[t]
                     == (if ValidSlot(buffer, t) then multiset(order)[t] else 0)
    decreases |order|
  {
    if |order| > 0 {
      var init := order[..|order| - 1];
      ValidThreadsCount(buffer, init);
      assert order == init + [order[|order| - 1]];
    }
  }

  lemma ValidThreadsPermutation(buffer: seq<Contact>, o1: seq<nat>, o2: seq<nat>)
    requires multiset(o1) == multiset(o2)
    ensures multiset(ValidThreads(buffer, o1)) == multiset(ValidThreads(buffer, o2))
  {
    ValidThreadsCount(buffer, o1);
    ValidThreadsCount(buffer, o2);
  }

  /** The slots holding a valid record, in slot order. */
  function ValidRecords(buffer: seq<Contact>): (r: seq<Contact>)
    ensures forall k :: 0 <= k < |r| ==> r[k].isValid != 0
  {
    Gather(buffer, ValidThreads(buffer, Range(|buffer|)))
  }

  /** However the reduction's threads interleave: the counter grows by exactly the number
      of valid slots, and when the list does not overflow, its new entries are the valid
      records of the buffer, each exactly once, in some order. */
  lemma ReduceOrderIndependent(s: Compaction, buffer: seq<Contact>, order: seq<nat>)
    requires multiset(order) == multiset(Range(|buffer|))
    ensures var r := Reduce(s, buffer, order);
      r.count == s.count + |ValidRecords(buffer)| && |r.results| == |s.results|
      && (r.count <= |s.results| ==>
            multiset(r.results[s.count..r.count]) == multiset(ValidRecords(buffer)))
  {
    var v := ValidThreads(buffer, order);
    var v0 := ValidThreads(buffer, Range(|buffer|));
    var r := Reduce(s, buffer, order);
    ValidThreadsPermutation(buffer, order, Range(|buffer|));
    assert |v| == |multiset(v)| == |multiset(v0)| == |v0|;
    ReduceEffect(s, buffer, order);
    if r.count <= |s.results| {
      ReducedSlots(s, buffer, order);
      GatherPermutation(buffer, v, v0);
    }
  }

  /** Without overflow, the slots the reduction filled hold the valid threads' records in
      the order the threads claimed their indices. */
  lemma ReducedSlots(s: Compaction, buffer: seq<Contact>, order: seq<nat>)
    requires Reduce(s, buffer, order).count <= |s.results|
    ensures InBounds(ValidThreads(buffer, order), |buffer|)
    ensures var r := Reduce(s, buffer, order);
      r.count == s.count + |ValidThreads(buffer, order)| && |r.results| == |s.results|
      && r.results[s.count..r.count] == Gather(buffer, ValidThreads(buffer, order))
  {
    var v := ValidThreads(buffer, order);
    var r := Reduce(s, buffer, order);
    ReduceEffect(s, buffer, order);
    assert InBounds(v, |buffer|) by {
      forall k | 0 <= k < |v|
        ensures v[k] < |buffer|
      {
        assert ValidSlot(buffer, v[k]);
      }
    }
    assert r.results[s.count..r.count] == Gather(buffer, v);
  }

  /** A list with no room left still counts every valid record but stores none. */
  lemma ReduceOverflow(buffer: seq<Contact>, order: seq<nat>)
    requires multiset(order) == multiset(Range(|buffer|))
    ensures Reduce(Compaction(0, []), buffer, order) == Compaction(|ValidRecords(buffer)|, [])
  {
    ReduceEffect(Compaction(0, []), buffer, order);
    ReduceOrderIndependent(Compaction(0, []), buffer, order);
  }

  // ---------------------------------------------------------------------------
  // One detection call: detection launch followed by the reduction
  // ---------------------------------------------------------------------------

  /** The reduction as launched, with one thread per slot of the whole buffer, including
      the slots past the vertex count of body a that this detection did not write. */
  function DetectCollisions(s: Compaction, buffer: seq<Contact>, verts: seq<V3>, qs: seq<Vec>,
                            a: nat, b: nat, eps: real, sv: Services, order: seq<nat>): Compaction
    requires IsGlobalPose(qs) && a < |qs| && b < |qs| && |verts| <= |buffer|
  {
    Reduce(s, DetectAll(buffer, verts, qs, a, b, eps, sv), order)
  }

  /** The counter grows by the number of valid slots of the whole buffer after detection,
      fresh or left over. */
  lemma DetectCollisionsCount(s: Compaction, buffer: seq<Contact>, verts: seq<V3>, qs: seq<Vec>,
                              a: nat, b: nat, eps: real, sv: Services, order: seq<nat>)
    requires IsGlobalPose(qs) && a < |qs| && b < |qs| && |verts| <= |buffer|
    requires multiset(order) == multiset(Range(|buffer|))
    ensures DetectCollisions(s, buffer, verts, qs, a, b, eps, sv, order).count
      == s.count + |ValidRecords(DetectAll(buffer, verts, qs, a, b, eps, sv))|
  {
    ReduceOrderIndependent(s, DetectAll(buffer, verts, qs, a, b, eps, sv), order);
  }

  /** A valid record left in slot 1 by an earlier pair is counted and copied again by a
      detection call whose body has a single vertex and finds no contact. The length service
      here is the squared norm rather than a length: the query reports the outside, so the
      record is invalid whatever length is returned, and StaleSlotRecounted places no
      condition on that service. */
  lemma StaleSlotCounted()
    ensures var stale := Contact(V3(0.0, 0.0, 0.0), V3(0.0, 0.0, 0.0), V3(0.0, 0.0, 0.0),
                                 V3(1.0, 0.0, 0.0), 1, 0.0, 5, 6);
      var pose := Pose(Identity(), V3(0.0, 0.0, 0.0));
      var sv := Services(m => m, p => QueryHit(p, V3(1.0, 0.0, 0.0), 1.0), v => Norm2(v));
      var r := DetectCollisions(Compaction(0, [stale]), [stale, stale], [V3(0.0, 0.0, 0.0)],
                                [pose, pose], 0, 1, 0.01, sv, [0, 1]);
      r.count == 1 && |r.results| == 1 && r.results[0].object1 == 5
  {
    var stale := Contact(V3(0.0, 0.0, 0.0), V3(0.0, 0.0, 0.0), V3(0.0, 0.0, 0.0),
                         V3(1.0, 0.0, 0.0), 1, 0.0, 5, 6);
    var pose := Pose(Identity(), V3(0.0, 0.0, 0.0));
    var sv := Services(m => m, p => QueryHit(p, V3(1.0, 0.0, 0.0), 1.0), v => Norm2(v));
    var qs := [pose, pose];
    assert IsGlobalPose(qs);
    assert forall p :: sv.query(p).sign >= 0.0;
    StaleSlotRecounted(stale, qs, V3(0.0, 0.0, 0.0), 0.01, sv);
  }

  /** Whatever the inputs, a body with one vertex that lies outside b writes slot 0 with
      an invalid record, and a valid record left in slot 1 is then counted and copied. */
  lemma StaleSlotRecounted(stale: Contact, qs: seq<Vec>, x: V3, eps: real, sv: Services)
    requires stale.isValid == 1 && IsGlobalPose(qs) && |qs| == 2
    requires forall p :: sv.query(p).sign >= 0.0
    ensures var r := DetectCollisions(Compaction(0, [stale]), [stale, stale], [x], qs, 0, 1, eps, sv, [0, 1]);
      r.count == 1 && r.results == [stale]
  {
    var detected := DetectAll([stale, stale], [x], qs, 0, 1, eps, sv);
    DetectVertexOutside(qs, 0, 1, x, eps, sv);
    assert detected[0].isValid == 0;
    assert detected[1] == stale;
    var s := Compaction(0, [stale]);
    assert [0, 1][..1] == [0] && [0][..0] == [];
    assert Reduce(s, detected, [0]) == s;
  }

  /** A vertex the mesh query places outside b never yields a valid record. */
  lemma DetectVertexOutside(qs: seq<Vec>, a: nat, b: nat, x: V3, eps: real, sv: Services)
    requires IsGlobalPose(qs) && a < |qs| && b < |qs|
    requires forall p :: sv.query(p).sign >= 0.0
    ensures DetectVertex(qs, a, b, x, eps, sv).isValid == 0
  {
  }

  /** The reduction over the slots this detection wrote, one thread per vertex of a. */
  function DetectCollisionsFresh(s: Compaction, buffer: seq<Contact>, verts: seq<V3>, qs: seq<Vec>,
                                 a: nat, b: nat, eps: real, sv: Services, order: seq<nat>): (r: Compaction)
    requires IsGlobalPose(qs) && a < |qs| && b < |qs| && |verts| <= |buffer|
    requires multiset(order) == multiset(Range(|verts|))
  {
    Reduce(s, DetectAll(buffer, verts, qs, a, b, eps, sv)[..|verts|], order)
  }

  /** Reducing only the slots this call wrote, every record the call adds is a valid contact of the
      pair (a, b) found at one of a's vertices, and the counter grows by the number of
      a's vertices in contact, whatever the buffer held before. */
  lemma DetectCollisionsFreshContacts(s: Compaction, buffer: seq<Contact>, verts: seq<V3>, qs: seq<Vec>,
                                      a: nat, b: nat, eps: real, sv: Services, order: seq<nat>)
    requires IsGlobalPose(qs) && a < |qs| && b < |qs| && |verts| <= |buffer|
    requires multiset(order) == multiset(Range(|verts|))
    ensures var r := DetectCollisionsFresh(s, buffer, verts, qs, a, b, eps, sv, order);
      var found := DetectEach(verts, qs, a, b, eps, sv);
      r.count == s.count + |ValidRecords(found)| && |r.results| == |s.results|
      && forall i :: s.count <= i < r.count && i < |r.results| ==>
           r.results[i].isValid == 1 && r.results[i].object1 == a && r.results[i].object2 == b
           && r.results[i].refPos1 in verts
  {
    var detected := DetectAll(buffer, verts, qs, a, b, eps, sv)[..|verts|];
    var found := DetectEach(verts, qs, a, b, eps, sv);
    assert detected == found;
    ReduceOrderIndependent(s, detected, order);
    ReduceEffect(s, detected, order);
    var r := Reduce(s, detected, order);
    var v := ValidThreads(detected, order);
    forall i | s.count <= i < r.count && i < |r.results|
      ensures r.results[i].isValid == 1 && r.results[i].object1 == a && r.results[i].object2 == b
              && r.results[i].refPos1 in verts
    {
      var k := i - s.count;
      assert r.results[s.count + k] == detected[v[k]];
    }
  }

  // ---------------------------------------------------------------------------
  // The contact normal
  // ---------------------------------------------------------------------------

  /** For A2 = 2I the kernel's normal of a unit face normal has squared length 1/4. */
  lemma WorldNormalNotUnit()
    ensures var a2 := M3(2.0, 0.0, 0.0, 0.0, 2.0, 0.0, 0.0, 0.0, 2.0);
      var inv := M3(0.5, 0.0, 0.0, 0.0, 0.5, 0.0, 0.0, 0.0, 0.5);
      Mul(a2, inv) == Identity() && Norm2(V3(1.0, 0.0, 0.0)) == 1.0
      && Norm2(WorldNormal(inv, V3(1.0, 0.0, 0.0))) == 0.25
  {
    WorldNormalNotUnitAt(M3(2.0, 0.0, 0.0, 0.0, 2.0, 0.0, 0.0, 0.0, 2.0),
                         M3(0.5, 0.0, 0.0, 0.0, 0.5, 0.0, 0.0, 0.0, 0.5), V3(1.0, 0.0, 0.0));
  }

  lemma WorldNormalNotUnitAt(a2: M3, inv: M3, n: V3)
    requires a2 == M3(2.0, 0.0, 0.0, 0.0, 2.0, 0.0, 0.0, 0.0, 2.0)
    requires inv == M3(0.5, 0.0, 0.0, 0.0, 0.5, 0.0, 0.0, 0.0, 0.5)
    requires n == V3(1.0, 0.0, 0.0)
    ensures Mul(a2, inv) == Identity() && Norm2(n) == 1.0 && Norm2(WorldNormal(inv, n)) == 0.25
  {
    HalfNormal(inv, n, WorldNormal(inv, n));
  }

  lemma HalfNormal(inv: M3, n: V3, m: V3)
    requires inv == M3(0.5, 0.0, 0.0, 0.0, 0.5, 0.0, 0.0, 0.0, 0.5)
    requires n == V3(1.0, 0.0, 0.0) && m == WorldNormal(inv, n)
    ensures m == V3(0.5, 0.0, 0.0)
  {
  }

  /** The kernel's normal scaled to unit length (left as is when it is zero). */
  function UnitWorldNormal(inv: M3, n: V3, length: V3 -> real): V3 {
    var m := WorldNormal(inv, n);
    if length(m) == 0.0 then m else Scale3(1.0 / length(m), m)
  }

  /** The scaled normal points the same way as the kernel's and has unit length whenever
      the kernel's normal is not zero. */
  lemma UnitWorldNormalIsUnit(inv: M3, n: V3, length: V3 -> real)
    requires IsLength(length)
    requires Norm2(WorldNormal(inv, n)) != 0.0
    ensures var m, u := WorldNormal(inv, n), UnitWorldNormal(inv, n, length);
      Norm2(u) == 1.0 && exists s: real :: s > 0.0 && u == Scale3(s, m)
  {
    var m := WorldNormal(inv, n);
    var l := length(m);
    assert l != 0.0;
    var s := 1.0 / l;
    assert s * l == 1.0;
    Norm2Scale(s, m);
    assert s * s * Norm2(m) == (s * l) * (s * l);
  }

  lemma Norm2Scale(s: real, v: V3)
    ensures Norm2(Scale3(s, v)) == s * s * Norm2(v)
  {
  }
}
