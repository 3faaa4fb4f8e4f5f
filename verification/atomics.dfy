/** Kernel launches whose threads add into shared memory with atomic adds.
    The threads of a launch run concurrently; their adds land in some order the
    program does not control. A launch is modelled as a sequential fold over that
    order, given as a sequence of thread indices. */
module Atomics {
  import opened LinAlg

  /** The thread indices 0, 1, ..., n - 1 in launch order. */
  function Range(n: nat): (r: seq<nat>)
    ensures |r| == n
    ensures forall i :: 0 <= i < n ==> r[i] == i
  {
    seq(n, i => i)
  }

  /** Every index of the order addresses one of n threads. */
  ghost predicate InBounds(order: seq<nat>, n: nat) {
    forall k :: 0 <= k < |order| ==> order[k] < n
  }

  /** The values the threads add, listed in the order their adds land. */
  function Gather<T>(vals: seq<T>, order: seq<nat>): (g: seq<T>)
    requires InBounds(order, |vals|)
    ensures |g| == |order|
    ensures forall k :: 0 <= k < |order| ==> g[k] == vals[order[k]]
  {
    seq(|order|, k requires 0 <= k < |order| => vals[order[k]])
  }

  /** A cell holding acc after thread order[0], order[1], ... each atomically adds vals[thread]. */
  function AtomicAdds(acc: real, vals: Vec, order: seq<nat>): real
    requires InBounds(order, |vals|)
    decreases |order|
  {
    if |order| == 0 then acc else AtomicAdds(acc + vals[order[0]], vals, order[1..])
  }

  /** The fold adds exactly the gathered values to the starting content. */
  lemma {:induction false} AtomicAddsSum(acc: real, vals: Vec, order: seq<nat>)
    requires InBounds(order, |vals|)
    ensures AtomicAdds(acc, vals, order) == acc + Sum(Gather(vals, order))
    decreases |order|
  {
    if |order| > 0 {
      AtomicAddsSum(acc + vals[order[0]], vals, order[1..]);
      assert Gather(vals, order)[1..] == Gather(vals, order[1..]);
    }
  }

  lemma GatherConcat<T>(vals: seq<T>, a: seq<nat>, b: seq<nat>)
    requires InBounds(a, |vals|) && InBounds(b, |vals|)
    ensures InBounds(a + b, |vals|)
    ensures Gather(vals, a + b) == Gather(vals, a) + Gather(vals, b)
  {
    assert InBounds(a + b, |vals|) by {
      forall k | 0 <= k < |a + b|
        ensures (a + b)[k] < |vals|
      {
        if k < |a| {
          assert (a + b)[k] == a[k];
        } else {
          assert (a + b)[k] == b[k - |a|];
        }
      }
    }
  }

  /** Two orders holding the same threads gather the same multiset of values. */
  lemma {:induction false} GatherPermutation<T>(vals: seq<T>, o1: seq<nat>, o2: seq<nat>)
    requires InBounds(o1, |vals|) && InBounds(o2, |vals|)
    requires multiset(o1) == multiset(o2)
    ensures multiset(Gather(vals, o1)) == multiset(Gather(vals, o2))
    decreases |o1|
  {
    if |o1| == 0 {
      assert |o2| == |multiset(o2)| == 0;
    } else {
      assert o1[0] in multiset(o2);
      var k :| 0 <= k < |o2| && o2[k] == o1[0];
      var rest := o2[..k] + o2[k + 1..];
      RemoveIndex(o1, o2, k);
      GatherRemove(vals, o2, k);
      GatherPermutation(vals, o1[1..], rest);
      var g1 := Gather(vals, o1);
      assert g1 == [g1[0]] + Gather(vals, o1[1..]);
      assert multiset(g1) == multiset{g1[0]} + multiset(Gather(vals, o1[1..]));
    }
  }

  /** Removing the first thread of o1 and the same thread from o2 keeps them permutations. */
  lemma RemoveIndex(o1: seq<nat>, o2: seq<nat>, k: nat)
    requires multiset(o1) == multiset(o2)
    requires |o1| > 0 && k < |o2| && o2[k] == o1[0]
    ensures multiset(o1[1..]) == multiset(o2[..k] + o2[k + 1..])
  {
    var x := o1[0];
    assert o1 == [x] + o1[1..];
    assert o2 == o2[..k] + [x] + o2[k + 1..];
    assert multiset(o1) == multiset{x} + multiset(o1[1..]);
    assert multiset(o2) == multiset(o2[..k]) + multiset{x} + multiset(o2[k + 1..]);
    assert multiset(o2[..k] + o2[k + 1..]) == multiset(o2[..k]) + multiset(o2[k + 1..]);
    assert multiset(o1[1..]) == multiset(o1) - multiset{x};
    assert multiset(o2[..k]) + multiset(o2[k + 1..]) == multiset(o2) - multiset{x};
  }

  /** Dropping thread k from an order drops its value from the gathered multiset. */
  lemma GatherRemove<T>(vals: seq<T>, o: seq<nat>, k: nat)
    requires InBounds(o, |vals|) && k < |o|
    ensures InBounds(o[..k] + o[k + 1..], |vals|)
    ensures multiset(Gather(vals, o)) == multiset(Gather(vals, o[..k] + o[k + 1..])) + multiset{vals[o[k]]}
  {
    var g := Gather(vals, o);
    assert InBounds(o[..k], |vals|) && InBounds(o[k + 1..], |vals|);
    GatherConcat(vals, o[..k], o[k + 1..]);
    assert Gather(vals, o[..k]) == g[..k];
    assert Gather(vals, o[k + 1..]) == g[k + 1..];
    assert g == g[..k] + [g[k]] + g[k + 1..];
    assert multiset(g) == multiset(g[..k]) + multiset{g[k]} + multiset(g[k + 1..]);
  }

  /** However the threads of a launch over all of vals interleave, the cell ends at
      its starting content plus the sum of every thread's value. */
  lemma AtomicAddsOrderIndependent(acc: real, vals: Vec, order: seq<nat>)
    requires multiset(order) == multiset(Range(|vals|))
    ensures InBounds(order, |vals|)
    ensures AtomicAdds(acc, vals, order) == acc + Sum(vals)
  {
    var n := |vals|;
    forall k | 0 <= k < |order|
      ensures order[k] < n
    {
      assert order[k] in multiset(Range(n));
    }
    assert Gather(vals, Range(n)) == vals;
    GatherPermutation(vals, order, Range(n));
    SumPermutation(Gather(vals, order), vals);
    AtomicAddsSum(acc, vals, order);
  }

  /** Each thread index below n occurs once in Range(n), and no other index occurs. */
  lemma {:induction false} RangeMultiplicity(n: nat, x: nat)
    ensures multiset(Range(n))[x] == if x < n then 1 else 0
    decreases n
  {
    if n > 0 {
      assert Range(n) == Range(n - 1) + [n - 1];
      RangeMultiplicity(n - 1, x);
    }
  }

  /** A value found at two distinct positions is counted twice. */
  lemma CountTwo(o: seq<nat>, i: nat, j: nat)
    requires i < j < |o|
    ensures multiset(o)[o[i]] >= if o[i] == o[j] then 2 else 1
  {
    assert o == o[..j] + [o[j]] + o[j + 1..];
    assert o[..j][i] == o[i];
    assert multiset(o) == multiset(o[..j]) + multiset{o[j]} + multiset(o[j + 1..]);
  }

  /** No thread occurs twice in an order. */
  ghost predicate Distinct(order: seq<nat>) {
    forall i, j :: 0 <= i < j < |order| ==> order[i] != order[j]
  }

  /** A launch order that is a permutation of the n threads runs each thread exactly once. */
  lemma PermutationDistinct(order: seq<nat>, n: nat)
    requires multiset(order) == multiset(Range(n))
    ensures InBounds(order, n) && Distinct(order)
  {
    forall k | 0 <= k < |order|
      ensures order[k] < n
    {
      assert order[k] in multiset(Range(n));
    }
    forall i, j | 0 <= i < j < |order|
      ensures order[i] != order[j]
    {
      CountTwo(order, i, j);
      RangeMultiplicity(n, order[i]);
    }
  }
}
