/** The pinned-DOF projection P. The global pose vector is a sequence of n blocks of
    twelve entries; P has one block row per free block and copies that block, so P·q is
    the reduced vector of free blocks. P is built from triplets (row r, column free[r],
    identity block). */
module FixedDofProjection {
  import opened LinAlg

  /** The pose entries of one body. */
  type Block = Vec

  /** The block indices in [0, n) that are not pinned, in ascending order. */
  function FreeIndices(n: nat, fixed: seq<int>): (free: seq<nat>)
    ensures forall i: int :: i in free <==> 0 <= i < n && i !in fixed
    ensures forall r :: 0 <= r < |free| ==> free[r] < n
    ensures forall r, s :: 0 <= r < s < |free| ==> free[r] < free[s]
    decreases n
  {
    if n == 0 then []
    else if n - 1 in fixed then FreeIndices(n - 1, fixed)
    else FreeIndices(n - 1, fixed) + [n - 1]
  }

  /** One block triplet of P: an identity block at (row, col). */
  datatype Triplet = Triplet(row: nat, col: nat)

  /** The triplets P is built from: row r holds the identity block in column free[r]. */
  function ProjectionTriplets(n: nat, fixed: seq<int>): (t: seq<Triplet>)
    ensures |t| == |FreeIndices(n, fixed)|
    ensures forall r :: 0 <= r < |t| ==> t[r].row == r && t[r].col < n && t[r].col !in fixed
  {
    var free := FreeIndices(n, fixed);
    seq(|free|, r requires 0 <= r < |free| => Triplet(r, free[r]))
  }

  /** The number of block rows P is declared with: n minus the length of the pinned list. */
  function DeclaredRows(n: nat, fixed: seq<int>): int {
    n - |fixed|
  }

  /** P·q: the free blocks of q, in order. */
  function Project(free: seq<nat>, q: seq<Block>): (p: seq<Block>)
    requires forall r :: 0 <= r < |free| ==> free[r] < |q|
    ensures |p| == |free|
  {
    seq(|free|, r requires 0 <= r < |free| => q[free[r]])
  }

  /** Position of i in free; the caller knows i occurs there. */
  function IndexOf(free: seq<nat>, i: nat): (r: nat)
    requires i in free
    ensures r < |free| && free[r] == i
  {
    if free[0] == i then 0 else 1 + IndexOf(free[1..], i)
  }

  /** Pᵀ·y: block free[r] receives y[r]; every pinned block is zero. */
  function Expand(free: seq<nat>, n: nat, y: seq<Block>): (q: seq<Block>)
    requires |y| == |free|
    ensures |q| == n
  {
    seq(n, i requires 0 <= i < n => if i in free then y[IndexOf(free, i)] else Zeros(12))
  }

  /** In a strictly increasing sequence every entry has a unique position. */
  lemma {:induction false} IndexOfUnique(free: seq<nat>, r: nat)
    requires forall a, b :: 0 <= a < b < |free| ==> free[a] < free[b]
    requires r < |free|
    ensures IndexOf(free, free[r]) == r
    decreases r
  {
    if r > 0 {
      assert free[0] < free[r];
      assert free[1..][r - 1] == free[r];
      IndexOfUnique(free[1..], r - 1);
    }
  }

  /** P·Pᵀ = I: expanding a reduced vector and projecting it back returns it. */
  lemma ProjectExpand(n: nat, fixed: seq<int>, y: seq<Block>)
    requires |y| == |FreeIndices(n, fixed)|
    ensures Project(FreeIndices(n, fixed), Expand(FreeIndices(n, fixed), n, y)) == y
  {
    var free := FreeIndices(n, fixed);
    var p := Project(free, Expand(free, n, y));
    forall r | 0 <= r < |free|
      ensures p[r] == y[r]
    {
      IndexOfUnique(free, r);
    }
  }

  /** Pᵀ·P·q keeps every free block of q and zeroes every pinned block. */
  lemma ExpandProject(n: nat, fixed: seq<int>, q: seq<Block>)
    requires |q| == n
    ensures var free := FreeIndices(n, fixed);
      forall i :: 0 <= i < n ==>
        Expand(free, n, Project(free, q))[i] == if i in fixed then Zeros(12) else q[i]
  {
    var free := FreeIndices(n, fixed);
    var e := Expand(free, n, Project(free, q));
    forall i | 0 <= i < n
      ensures e[i] == if i in fixed then Zeros(12) else q[i]
    {
      if i in free {
        var r := IndexOf(free, i);
        assert e[i] == q[free[r]];
      }
    }
  }

  /** Pᵀ·P is idempotent: projecting twice is projecting once. */
  lemma ProjectionIdempotent(n: nat, fixed: seq<int>, q: seq<Block>)
    requires |q| == n
    ensures var free := FreeIndices(n, fixed);
      var once := Expand(free, n, Project(free, q));
      Expand(free, n, Project(free, once)) == once
  {
    var free := FreeIndices(n, fixed);
    var once := Expand(free, n, Project(free, q));
    var twice := Expand(free, n, Project(free, once));
    ExpandProject(n, fixed, q);
    ExpandProject(n, fixed, once);
    forall i | 0 <= i < n
      ensures twice[i] == once[i]
    {
    }
  }

  /** With nothing pinned, every block is free and P is the identity. */
  lemma NoFixedIdentity(n: nat, q: seq<Block>)
    requires |q| == n
    ensures FreeIndices(n, []) == seq(n, i => i)
    ensures Project(FreeIndices(n, []), q) == q
  {
    NoFixedAll(n);
  }

  lemma {:induction false} NoFixedAll(n: nat)
    ensures FreeIndices(n, []) == seq(n, i => i)
  {
    if n > 0 {
      NoFixedAll(n - 1);
      assert seq(n, i => i) == seq(n - 1, i => i) + [n - 1];
    }
  }

  // ---------------------------------------------------------------------------
  // Row count
  // ---------------------------------------------------------------------------

  /** How many of the block indices 0, ..., n - 1 are pinned. */
  function PinnedCount(n: nat, fixed: seq<int>): (k: nat)
    ensures k <= n
  {
    if n == 0 then 0 else PinnedCount(n - 1, fixed) + (if n - 1 in fixed then 1 else 0)
  }

  /** No pinned index occurs twice. */
  ghost predicate Distinct(s: seq<int>) {
    forall a, b :: 0 <= a < b < |s| ==> s[a] != s[b]
  }

  /** Every pinned index addresses one of the n blocks. */
  ghost predicate AllInRange(s: seq<int>, n: nat) {
    forall k :: 0 <= k < |s| ==> 0 <= s[k] < n
  }

  /** The free list and the pinned blocks partition [0, n). */
  lemma {:induction false} FreeCount(n: nat, fixed: seq<int>)
    ensures |FreeIndices(n, fixed)| + PinnedCount(n, fixed) == n
    decreases n
  {
    if n > 0 {
      FreeCount(n - 1, fixed);
    }
  }

  /** Appending x to the pinned list pins one more block exactly when x is a new block index. */
  lemma {:induction false} PinnedCountSnoc(n: nat, s: seq<int>, x: int)
    ensures PinnedCount(n, s + [x]) == PinnedCount(n, s) + (if 0 <= x < n && x !in s then 1 else 0)
    decreases n
  {
    if n > 0 {
      PinnedCountSnoc(n - 1, s, x);
      assert (n - 1 in s + [x]) <==> (n - 1 in s || n - 1 == x);
    }
  }

  /** At most |fixed| blocks are pinned, and exactly |fixed| precisely when the list has no
      repeats and stays in range. */
  lemma {:induction false} PinnedCountBound(n: nat, s: seq<int>)
    ensures PinnedCount(n, s) <= |s|
    ensures PinnedCount(n, s) == |s| <==> Distinct(s) && AllInRange(s, n)
    decreases |s|
  {
    if |s| == 0 {
      PinnedCountEmpty(n, s);
    } else {
      var init, x := s[..|s| - 1], s[|s| - 1];
      assert s == init + [x];
      PinnedCountBound(n, init);
      PinnedCountSnoc(n, init, x);
      if Distinct(s) && AllInRange(s, n) {
        forall k | 0 <= k < |init|
          ensures init[k] != x
        {
          assert init[k] == s[k];
        }
        assert 0 <= s[|s| - 1] < n;
        assert Distinct(init) && AllInRange(init, n);
      }
      if Distinct(init) && AllInRange(init, n) && 0 <= x < n && x !in init {
        forall a, b | 0 <= a < b < |s|
          ensures s[a] != s[b]
        {
          if b == |s| - 1 {
            assert s[a] == init[a];
          } else {
            assert s[a] == init[a] && s[b] == init[b];
          }
        }
        assert AllInRange(s, n) by {
          forall k | 0 <= k < |s|
            ensures 0 <= s[k] < n
          {
            if k < |init| {
              assert s[k] == init[k];
            }
          }
        }
      }
    }
  }

  lemma {:induction false} PinnedCountEmpty(n: nat, s: seq<int>)
    requires |s| == 0
    ensures PinnedCount(n, s) == 0
    decreases n
  {
    if n > 0 {
      PinnedCountEmpty(n - 1, s);
    }
  }

  /** P is declared with exactly as many block rows as it fills precisely when the
      pinned list has no repeats and every entry addresses one of the n blocks. */
  lemma RowCountMatches(n: nat, fixed: seq<int>)
    ensures |FreeIndices(n, fixed)| == DeclaredRows(n, fixed)
      <==> Distinct(fixed) && AllInRange(fixed, n)
  {
    FreeCount(n, fixed);
    PinnedCountBound(n, fixed);
  }
}
