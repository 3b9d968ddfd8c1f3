/**
 * k-th smallest pairwise product of two arrays ("combined investment return").
 *
 * The program seeds a min-heap with the first product of every row i,
 * array1[i] * array2[0], then polls k times; after polling row i at column j
 * it offers the next column j + 1 of that row. This finds the k-th smallest
 * product when every row of products grows from left to right, which holds when
 * array2 is sorted and array1 has no negative element. A negative array1[i]
 * reverses its row, and the walk can then report a wrong value.
 *
 * Rows are walked in a fixed column order: left to right as the program does,
 * or, in the corrected walk, right to left for a row whose multiplier is negative.
 * The queue is java.util.PriorityQueue's binary heap with its siftUp and siftDown,
 * so among equal products the one polled first is the one the program polls.
 */
module KthProduct {
  import opened Wrappers

  /** A heap entry as the program stores it: {product, row, column}. */
  datatype Entry = Entry(value: int, row: nat, col: nat)

  predicate Ascending(s: seq<int>)
  {
    forall p, q :: 0 <= p <= q < |s| ==> s[p] <= s[q]
  }

  function Prod(a1: seq<int>, a2: seq<int>, i: nat, j: nat): int
    requires i < |a1| && j < |a2|
  {
    a1[i] * a2[j]
  }

  ghost predicate IsProduct(a1: seq<int>, a2: seq<int>, v: int)
  {
    exists i, j :: 0 <= i < |a1| && 0 <= j < |a2| && v == a1[i] * a2[j]
  }

  /** Whether row i is walked from the right: only in the corrected walk, and only for a negative multiplier. */
  predicate Mirrored(a1: seq<int>, mirror: bool, i: nat)
    requires i < |a1|
  {
    mirror && a1[i] < 0
  }

  /** The column visited at step t of row i's walk. */
  function Col(a1: seq<int>, n2: nat, mirror: bool, i: nat, t: nat): (j: nat)
    requires i < |a1| && t < n2
    ensures j < n2
    ensures Mirrored(a1, mirror, i) ==> j + t == n2 - 1
    ensures !Mirrored(a1, mirror, i) ==> j == t
  {
    if Mirrored(a1, mirror, i) then n2 - 1 - t else t
  }

  /** Every row's products never decrease along its walk. */
  ghost predicate WalkSorted(a1: seq<int>, a2: seq<int>, mirror: bool)
  {
    forall i, t, u :: 0 <= i < |a1| && 0 <= t <= u < |a2| ==>
      Prod(a1, a2, i, Col(a1, |a2|, mirror, i, t)) <= Prod(a1, a2, i, Col(a1, |a2|, mirror, i, u))
  }

  lemma NonNegativeRowsAreSorted(a1: seq<int>, a2: seq<int>)
    requires Ascending(a2) && forall i :: 0 <= i < |a1| ==> a1[i] >= 0
    ensures WalkSorted(a1, a2, false)
  {
    forall i, t, u | 0 <= i < |a1| && 0 <= t <= u < |a2|
      ensures a1[i] * a2[t] <= a1[i] * a2[u]
    {
      MultiplyMonotone(a1[i], a2[t], a2[u]);
    }
  }

  lemma MirroredRowsAreSorted(a1: seq<int>, a2: seq<int>)
    requires Ascending(a2)
    ensures WalkSorted(a1, a2, true)
  {
    var n2 := |a2|;
    forall i, t, u | 0 <= i < |a1| && 0 <= t <= u < n2
      ensures Prod(a1, a2, i, Col(a1, n2, true, i, t)) <= Prod(a1, a2, i, Col(a1, n2, true, i, u))
    {
      if a1[i] < 0 {
        MultiplyAntitone(a1[i], a2[n2 - 1 - u], a2[n2 - 1 - t]);
      } else {
        MultiplyMonotone(a1[i], a2[t], a2[u]);
      }
    }
  }

  lemma MultiplyMonotone(x: int, a: int, b: int)
    requires x >= 0 && a <= b
    ensures x * a <= x * b
  {
    assert x * b - x * a == x * (b - a);
  }

  lemma MultiplyAntitone(x: int, a: int, b: int)
    requires x < 0 && a <= b
    ensures x * b <= x * a
  {
    assert x * a - x * b == (-x) * (b - a);
  }

  // ---------------------------------------------------------------------------
  // Rank of a value among all products

  function Hit(x: int, r: int, strict: bool): bool
  {
    if strict then x < r else x <= r
  }

  /** Number of columns j in [lo, hi) of row i whose product is below r (strict) or at most r. */
  function RowCount(a1: seq<int>, a2: seq<int>, i: nat, r: int, strict: bool, lo: nat, hi: nat): (n: nat)
    requires i < |a1| && lo <= hi <= |a2|
    ensures n <= hi - lo
    decreases hi - lo
  {
    if lo == hi then 0
    else (if Hit(Prod(a1, a2, i, lo), r, strict) then 1 else 0) + RowCount(a1, a2, i, r, strict, lo + 1, hi)
  }

  /** Number of index pairs in rows [0, m) whose product is below r (strict) or at most r. */
  function GridCount(a1: seq<int>, a2: seq<int>, r: int, strict: bool, m: nat): nat
    requires m <= |a1|
  {
    if m == 0 then 0 else GridCount(a1, a2, r, strict, m - 1) + RowCount(a1, a2, m - 1, r, strict, 0, |a2|)
  }

  /** r is the k-th smallest product: fewer than k products lie below it and at least k lie at or below it. */
  ghost predicate IsKthSmallest(a1: seq<int>, a2: seq<int>, k: int, r: int)
  {
    GridCount(a1, a2, r, true, |a1|) < k <= GridCount(a1, a2, r, false, |a1|)
  }

  lemma {:induction false} RowCountSplit(a1: seq<int>, a2: seq<int>, i: nat, r: int, strict: bool, lo: nat, mid: nat, hi: nat)
    requires i < |a1| && lo <= mid <= hi <= |a2|
    ensures RowCount(a1, a2, i, r, strict, lo, hi) == RowCount(a1, a2, i, r, strict, lo, mid) + RowCount(a1, a2, i, r, strict, mid, hi)
    decreases mid - lo
  {
    if lo < mid {
      RowCountSplit(a1, a2, i, r, strict, lo + 1, mid, hi);
    }
  }

  lemma {:induction false} RowCountAll(a1: seq<int>, a2: seq<int>, i: nat, r: int, strict: bool, lo: nat, hi: nat)
    requires i < |a1| && lo <= hi <= |a2|
    requires forall j :: lo <= j < hi ==> Hit(Prod(a1, a2, i, j), r, strict)
    ensures RowCount(a1, a2, i, r, strict, lo, hi) == hi - lo
    decreases hi - lo
  {
    if lo < hi {
      RowCountAll(a1, a2, i, r, strict, lo + 1, hi);
    }
  }

  lemma {:induction false} RowCountNone(a1: seq<int>, a2: seq<int>, i: nat, r: int, strict: bool, lo: nat, hi: nat)
    requires i < |a1| && lo <= hi <= |a2|
    requires forall j :: lo <= j < hi ==> !Hit(Prod(a1, a2, i, j), r, strict)
    ensures RowCount(a1, a2, i, r, strict, lo, hi) == 0
    decreases hi - lo
  {
    if lo < hi {
      RowCountNone(a1, a2, i, r, strict, lo + 1, hi);
    }
  }

  lemma {:induction false} RowCountMiss(a1: seq<int>, a2: seq<int>, i: nat, r: int, strict: bool, lo: nat, hi: nat, j0: nat)
    requires i < |a1| && lo <= j0 < hi <= |a2|
    requires !Hit(Prod(a1, a2, i, j0), r, strict)
    ensures RowCount(a1, a2, i, r, strict, lo, hi) <= hi - lo - 1
    decreases hi - lo
  {
    if lo < j0 {
      RowCountMiss(a1, a2, i, r, strict, lo + 1, hi, j0);
    }
  }

  /** Products at most r1 are all below any larger r2. */
  lemma {:induction false} GridCountMonotone(a1: seq<int>, a2: seq<int>, r1: int, r2: int, m: nat)
    requires m <= |a1| && r1 < r2
    ensures GridCount(a1, a2, r1, false, m) <= GridCount(a1, a2, r2, true, m)
  {
    if m > 0 {
      GridCountMonotone(a1, a2, r1, r2, m - 1);
      RowCountMonotone(a1, a2, m - 1, r1, r2, 0, |a2|);
    }
  }

  lemma {:induction false} RowCountMonotone(a1: seq<int>, a2: seq<int>, i: nat, r1: int, r2: int, lo: nat, hi: nat)
    requires i < |a1| && lo <= hi <= |a2| && r1 < r2
    ensures RowCount(a1, a2, i, r1, false, lo, hi) <= RowCount(a1, a2, i, r2, true, lo, hi)
    decreases hi - lo
  {
    if lo < hi {
      RowCountMonotone(a1, a2, i, r1, r2, lo + 1, hi);
    }
  }

  /** The k-th smallest product is unique. */
  lemma KthSmallestUnique(a1: seq<int>, a2: seq<int>, k: int, r1: int, r2: int)
    requires IsKthSmallest(a1, a2, k, r1) && IsKthSmallest(a1, a2, k, r2)
    ensures r1 == r2
  {
    if r1 < r2 {
      GridCountMonotone(a1, a2, r1, r2, |a1|);
    } else if r2 < r1 {
      GridCountMonotone(a1, a2, r2, r1, |a1|);
    }
  }

  // ---------------------------------------------------------------------------
  // From the polled staircase to the rank

  /** Sum of the per-row poll counts. */
  function Total(c: seq<nat>): nat
  {
    if c == [] then 0 else Total(c[..|c| - 1]) + c[|c| - 1]
  }

  lemma {:induction false} TotalFull(c: seq<nat>, n2: nat)
    requires forall i :: 0 <= i < |c| ==> c[i] == n2
    ensures Total(c) == |c| * n2
  {
    if c != [] {
      TotalFull(c[..|c| - 1], n2);
    }
  }

  lemma {:induction false} TotalBelowFull(c: seq<nat>, n2: nat)
    requires forall i :: 0 <= i < |c| ==> c[i] <= n2
    ensures Total(c) <= |c| * n2
  {
    if c != [] {
      TotalBelowFull(c[..|c| - 1], n2);
    }
  }

  lemma {:induction false} TotalIncrement(c: seq<nat>, i: nat)
    requires i < |c|
    ensures Total(c[i := c[i] + 1]) == Total(c) + 1
  {
    var d := c[i := c[i] + 1];
    if i < |c| - 1 {
      assert d[..|d| - 1] == c[..|c| - 1][i := c[i] + 1];
      TotalIncrement(c[..|c| - 1], i);
    } else {
      assert d[..|d| - 1] == c[..|c| - 1];
    }
  }

  /** Polled products of row i fill one run of columns and are at most r; the rest are at least r. */
  lemma RowStaircase(a1: seq<int>, a2: seq<int>, i: nat, r: int, lo: nat, hi: nat)
    requires i < |a1| && lo <= hi <= |a2|
    requires forall j :: lo <= j < hi ==> Prod(a1, a2, i, j) <= r
    requires forall j :: 0 <= j < |a2| && (j < lo || hi <= j) ==> Prod(a1, a2, i, j) >= r
    ensures RowCount(a1, a2, i, r, false, 0, |a2|) >= hi - lo
    ensures RowCount(a1, a2, i, r, true, 0, |a2|) <= hi - lo
    ensures (exists j :: lo <= j < hi && Prod(a1, a2, i, j) == r) ==> RowCount(a1, a2, i, r, true, 0, |a2|) < hi - lo
  {
    var n2 := |a2|;
    RowCountSplit(a1, a2, i, r, false, 0, lo, n2);
    RowCountSplit(a1, a2, i, r, false, lo, hi, n2);
    RowCountAll(a1, a2, i, r, false, lo, hi);
    RowCountSplit(a1, a2, i, r, true, 0, lo, n2);
    RowCountSplit(a1, a2, i, r, true, lo, hi, n2);
    RowCountNone(a1, a2, i, r, true, 0, lo);
    RowCountNone(a1, a2, i, r, true, hi, n2);
    if j0 :| lo <= j0 < hi && Prod(a1, a2, i, j0) == r {
      RowCountMiss(a1, a2, i, r, true, lo, hi, j0);
    }
  }

  lemma {:induction false} GridStaircase(a1: seq<int>, a2: seq<int>, r: int, c: seq<nat>, m: nat, i0: nat)
    requires m <= |a1| == |c| && i0 < |a1| && c[i0] >= 1
    requires forall i :: 0 <= i < |a1| ==> RowCount(a1, a2, i, r, false, 0, |a2|) >= c[i]
    requires forall i :: 0 <= i < |a1| ==> RowCount(a1, a2, i, r, true, 0, |a2|) <= c[i]
    requires RowCount(a1, a2, i0, r, true, 0, |a2|) < c[i0]
    ensures GridCount(a1, a2, r, false, m) >= Total(c[..m])
    ensures GridCount(a1, a2, r, true, m) + (if i0 < m then 1 else 0) <= Total(c[..m])
  {
    if m > 0 {
      GridStaircase(a1, a2, r, c, m - 1, i0);
      assert c[..m][..m - 1] == c[..m - 1];
    }
  }

  /**
   * The polled positions t < c[i] of every row walk hold products at most r, the others
   * hold products at least r, and one polled product equals r: then r is the k-th smallest
   * product for k the number of polled positions.
   */
  lemma StaircaseRank(a1: seq<int>, a2: seq<int>, mirror: bool, c: seq<nat>, r: int, i0: nat, t0: nat)
    requires |c| == |a1| && forall i :: 0 <= i < |c| ==> c[i] <= |a2|
    requires forall i, t :: 0 <= i < |a1| && 0 <= t < c[i] ==> Prod(a1, a2, i, Col(a1, |a2|, mirror, i, t)) <= r
    requires forall i, t :: 0 <= i < |a1| && c[i] <= t < |a2| ==> Prod(a1, a2, i, Col(a1, |a2|, mirror, i, t)) >= r
    requires i0 < |a1| && t0 < c[i0] && Prod(a1, a2, i0, Col(a1, |a2|, mirror, i0, t0)) == r
    ensures IsKthSmallest(a1, a2, Total(c), r)
  {
    var n2 := |a2|;
    forall i | 0 <= i < |a1|
      ensures RowCount(a1, a2, i, r, false, 0, n2) >= c[i]
      ensures RowCount(a1, a2, i, r, true, 0, n2) <= c[i]
      ensures i == i0 ==> RowCount(a1, a2, i, r, true, 0, n2) < c[i]
    {
      var lo, hi := if Mirrored(a1, mirror, i) then n2 - c[i] else 0, if Mirrored(a1, mirror, i) then n2 else c[i];
      forall j | 0 <= j < n2
        ensures lo <= j < hi ==> Prod(a1, a2, i, j) <= r
        ensures (j < lo || hi <= j) ==> Prod(a1, a2, i, j) >= r
      {
        var t := if Mirrored(a1, mirror, i) then n2 - 1 - j else j;
        assert Col(a1, n2, mirror, i, t) == j;
      }
      RowStaircase(a1, a2, i, r, lo, hi);
      if i == i0 {
        assert lo <= Col(a1, n2, mirror, i0, t0) < hi;
      }
    }
    GridStaircase(a1, a2, r, c, |a1|, i0);
    assert c[..|a1|] == c;
  }

  // ---------------------------------------------------------------------------
  // The heap walk

  /** The entries of s without the one at p, as a sequence (used for what a poll leaves, up to order). */
  function Remove(s: seq<Entry>, p: nat): (r: seq<Entry>)
    requires p < |s|
    ensures |r| == |s| - 1
    ensures forall q :: 0 <= q < |r| ==> r[q] == s[if q < p then q else q + 1]
  {
    s[..p] + s[p + 1..]
  }

  // ---------------------------------------------------------------------------
  // java.util.PriorityQueue as OpenJDK implements it: a binary min-heap in an
  // array, here ordered by the comparator of the program, on the product alone.
  // Slot k's parent is slot (k - 1) / 2. Which of two equal products comes out
  // first is decided by the slots they occupy, so the tie order is modelled too.

  /** The slot of slot p's parent. */
  function Parent(p: nat): nat
    requires p > 0
  {
    (p - 1) / 2
  }

  /** Heap order: no entry is smaller than its parent. */
  ghost predicate IsHeap(h: seq<Entry>)
  {
    forall p {:trigger Parent(p)} :: 0 < p < |h| ==> h[Parent(p)].value <= h[p].value
  }

  /** Heap order on every edge except the one into slot k. */
  ghost predicate HeapExceptAbove(a: seq<Entry>, k: nat)
  {
    forall p {:trigger Parent(p)} :: 0 < p < |a| && p != k ==> a[Parent(p)].value <= a[p].value
  }

  /** Heap order on every edge except those out of slot k. */
  ghost predicate HeapExceptBelow(a: seq<Entry>, k: nat)
  {
    forall p {:trigger Parent(p)} :: 0 < p < |a| && Parent(p) != k ==> a[Parent(p)].value <= a[p].value
  }

  /** The parent of slot k is no larger than the children of slot k. */
  ghost predicate ParentBoundsChildren(a: seq<Entry>, k: nat)
  {
    0 < k < |a| ==> forall c {:trigger Parent(c)} :: 0 < c < |a| && Parent(c) == k ==> a[Parent(k)].value <= a[c].value
  }

  /**
   * PriorityQueue.siftUp: x is to go into slot k; every parent larger than x moves
   * down into the vacant slot, and x lands where the next parent is no larger.
   * Slot k of h is vacant: its old content is never read.
   */
  function SiftUp(h: seq<Entry>, k: nat, x: Entry): (r: seq<Entry>)
    requires k < |h|
    ensures |r| == |h|
    decreases k
  {
    if k == 0 then h[0 := x]
    else if x.value >= h[Parent(k)].value then h[k := x]
    else SiftUp(h[k := h[Parent(k)]], Parent(k), x)
  }

  /** The child of slot k that siftDown compares with: the right one only when it is strictly smaller. */
  function SmallerChild(h: seq<Entry>, k: nat): (c: nat)
    requires 2 * k + 1 < |h|
    ensures k < c < |h| && Parent(c) == k
    ensures forall d :: 0 < d < |h| && Parent(d) == k ==> h[c].value <= h[d].value
  {
    if 2 * k + 2 < |h| && h[2 * k + 1].value > h[2 * k + 2].value then 2 * k + 2 else 2 * k + 1
  }

  /**
   * PriorityQueue.siftDown: x is to go into slot k; while the smaller child is
   * smaller than x, it moves up into the vacant slot. Slot k of h is vacant.
   */
  function SiftDown(h: seq<Entry>, k: nat, x: Entry): (r: seq<Entry>)
    requires k < |h|
    ensures |r| == |h|
    decreases |h| - k
  {
    if 2 * k + 1 >= |h| then h[k := x]
    else if x.value <= h[SmallerChild(h, k)].value then h[k := x]
    else SiftDown(h[k := h[SmallerChild(h, k)]], SmallerChild(h, k), x)
  }

  /** The queue after PriorityQueue.offer(e): e takes the next slot and sifts up. */
  function Pushed(h: seq<Entry>, e: Entry): (r: seq<Entry>)
    ensures |r| == |h| + 1
  {
    SiftUp(h + [e], |h|, e)
  }

  /** The queue after PriorityQueue.poll(): the last entry moves into the root and sifts down. */
  function Popped(h: seq<Entry>): (r: seq<Entry>)
    requires h != []
    ensures |r| == |h| - 1
  {
    if |h| == 1 then [] else SiftDown(h[..|h| - 1], 0, h[|h| - 1])
  }

  lemma {:induction false} AncestorNoLarger(h: seq<Entry>, q: nat)
    requires IsHeap(h) && q < |h|
    ensures h[0].value <= h[q].value
    decreases q
  {
    if q > 0 {
      AncestorNoLarger(h, Parent(q));
    }
  }

  /** The root of a heap is a least entry, so poll returns a least product. */
  lemma HeapRootIsLeast(h: seq<Entry>)
    requires IsHeap(h) && h != []
    ensures forall q :: 0 <= q < |h| ==> h[0].value <= h[q].value
  {
    forall q | 0 <= q < |h|
      ensures h[0].value <= h[q].value
    {
      AncestorNoLarger(h, q);
    }
  }

  lemma SwapPermutes(s: seq<Entry>, i: nat, j: nat)
    requires i < |s| && j < |s|
    ensures multiset(s[i := s[j]][j := s[i]]) == multiset(s)
  {
  }

  lemma {:induction false} SiftUpPermutes(h: seq<Entry>, k: nat, x: Entry)
    requires k < |h|
    ensures multiset(SiftUp(h, k, x)) == multiset(h[k := x])
    decreases k
  {
    if k > 0 && x.value < h[Parent(k)].value {
      var pk := Parent(k);
      SiftUpPermutes(h[k := h[pk]], pk, x);
      assert h[k := h[pk]][pk := x] == h[k := x][k := h[k := x][pk]][pk := h[k := x][k]];
      SwapPermutes(h[k := x], k, pk);
    }
  }

  lemma {:induction false} SiftDownPermutes(h: seq<Entry>, k: nat, x: Entry)
    requires k < |h|
    ensures multiset(SiftDown(h, k, x)) == multiset(h[k := x])
    decreases |h| - k
  {
    if 2 * k + 1 < |h| && x.value > h[SmallerChild(h, k)].value {
      var c := SmallerChild(h, k);
      SiftDownPermutes(h[k := h[c]], c, x);
      assert h[k := h[c]][c := x] == h[k := x][k := h[k := x][c]][c := h[k := x][k]];
      SwapPermutes(h[k := x], k, c);
    }
  }

  lemma {:induction false} SiftUpKeepsHeap(h: seq<Entry>, k: nat, x: Entry)
    requires k < |h|
    requires HeapExceptAbove(h[k := x], k) && ParentBoundsChildren(h[k := x], k)
    ensures IsHeap(SiftUp(h, k, x))
    decreases k
  {
    if k > 0 && x.value < h[Parent(k)].value {
      var a := h[k := x];
      var pk := Parent(k);
      var a' := h[k := h[pk]][pk := x];
      forall p | 0 < p < |a'| && p != pk
        ensures a'[Parent(p)].value <= a'[p].value
      {
        var q := Parent(p);
        if p == k {
        } else if q == k {
          assert a[pk].value <= a[p].value;
        } else if q == pk {
          assert a[pk].value <= a[p].value;
        } else {
          assert a[q].value <= a[p].value;
        }
      }
      if pk > 0 {
        forall c | 0 < c < |a'| && Parent(c) == pk
          ensures a'[Parent(pk)].value <= a'[c].value
        {
          assert a[Parent(pk)].value <= a[pk].value;
          if c != k {
            assert a[pk].value <= a[c].value;
          }
        }
      }
      SiftUpKeepsHeap(h[k := h[pk]], pk, x);
    }
  }

  lemma {:induction false} SiftDownKeepsHeap(h: seq<Entry>, k: nat, x: Entry)
    requires k < |h|
    requires HeapExceptBelow(h[k := x], k) && ParentBoundsChildren(h[k := x], k)
    ensures IsHeap(SiftDown(h, k, x))
    decreases |h| - k
  {
    var a := h[k := x];
    if 2 * k + 1 >= |h| {
      forall p | 0 < p < |a|
        ensures a[Parent(p)].value <= a[p].value
      {
        assert Parent(p) != k;
      }
    } else if x.value <= h[SmallerChild(h, k)].value {
      forall p | 0 < p < |a|
        ensures a[Parent(p)].value <= a[p].value
      {
        if Parent(p) == k {
          assert h[SmallerChild(h, k)].value <= h[p].value;
        }
      }
    } else {
      var c := SmallerChild(h, k);
      var a' := h[k := h[c]][c := x];
      forall p | 0 < p < |a'| && Parent(p) != c
        ensures a'[Parent(p)].value <= a'[p].value
      {
        var q := Parent(p);
        if p == c {
        } else if q == k {
          assert h[c].value <= h[p].value;
        } else if p == k {
          assert a[q].value <= a[c].value;
        } else {
          assert a[q].value <= a[p].value;
        }
      }
      forall d | 0 < d < |a'| && Parent(d) == c
        ensures a'[Parent(c)].value <= a'[d].value
      {
        assert a[c].value <= a[d].value;
      }
      SiftDownKeepsHeap(h[k := h[c]], c, x);
    }
  }

  /** offer keeps heap order and adds exactly the offered entry. */
  lemma PushedIsHeap(h: seq<Entry>, e: Entry)
    requires IsHeap(h)
    ensures IsHeap(Pushed(h, e)) && multiset(Pushed(h, e)) == multiset(h) + multiset{e}
  {
    var a := h + [e];
    assert a[|h| := e] == a;
    assert HeapExceptAbove(a, |h|);
    SiftUpKeepsHeap(a, |h|, e);
    SiftUpPermutes(a, |h|, e);
  }

  /** Moving the last entry into the root leaves heap order everywhere below the root, and the entries after the head. */
  lemma LastIntoRoot(h: seq<Entry>)
    requires IsHeap(h) && |h| > 1
    ensures HeapExceptBelow(h[..|h| - 1][0 := h[|h| - 1]], 0)
    ensures multiset(h[..|h| - 1][0 := h[|h| - 1]]) == multiset(h[1..])
  {
    var s := |h| - 1;
    var a := h[..s][0 := h[s]];
    forall p | 0 < p < |a| && Parent(p) != 0
      ensures a[Parent(p)].value <= h[p].value
    {
      assert h[Parent(p)].value <= h[p].value;
    }
    assert a == [h[s]] + h[1..s];
    assert h[1..] == h[1..s] + [h[s]];
  }

  /** poll keeps heap order and removes exactly the head. */
  lemma PoppedIsHeap(h: seq<Entry>)
    requires IsHeap(h) && h != []
    ensures IsHeap(Popped(h)) && multiset(Popped(h)) == multiset(h[1..])
  {
    if |h| > 1 {
      LastIntoRoot(h);
      SiftDownKeepsHeap(h[..|h| - 1], 0, h[|h| - 1]);
      SiftDownPermutes(h[..|h| - 1], 0, h[|h| - 1]);
    }
  }

  /** PriorityQueue.offer with its siftUp loop. */
  method HeapOffer(queue: seq<Entry>, e: Entry) returns (queue': seq<Entry>)
    ensures queue' == Pushed(queue, e)
  {
    var q := queue + [e];
    var k: nat := |queue|;
    while k > 0
      invariant k < |q| == |queue| + 1
      invariant SiftUp(q, k, e) == Pushed(queue, e)
      decreases k
    {
      var parent := (k - 1) / 2;
      var p := q[parent];
      if e.value >= p.value {
        break;
      }
      q := q[k := p];
      k := parent;
    }
    q := q[k := e];
    queue' := q;
  }

  /** PriorityQueue.poll with its siftDown loop: the head comes out and the last entry sifts down from the root. */
  method HeapPoll(queue: seq<Entry>) returns (head: Entry, queue': seq<Entry>)
    requires queue != []
    ensures head == queue[0] && queue' == Popped(queue)
  {
    var s := |queue| - 1;
    head := queue[0];
    var x := queue[s];
    var q := queue[..s];
    if s != 0 {
      var k: nat := 0;
      var half := s / 2;
      while k < half
        invariant k < |q| == s
        invariant SiftDown(q, k, x) == Popped(queue)
        decreases s - k
      {
        var child := 2 * k + 1;
        var c := q[child];
        var right := child + 1;
        if right < s && c.value > q[right].value {
          child := right;
          c := q[child];
        }
        if x.value <= c.value {
          break;
        }
        q := q[k := c];
        k := child;
      }
      q := q[k := x];
    }
    queue' := q;
  }

  /** Every heap entry is the product at its row's next column. */
  ghost predicate EntriesMatch(a1: seq<int>, a2: seq<int>, mirror: bool, c: seq<nat>, heap: seq<Entry>)
    requires |c| == |a1|
  {
    forall p :: 0 <= p < |heap| ==>
      && heap[p].row < |a1| && c[heap[p].row] < |a2|
      && heap[p].col == Col(a1, |a2|, mirror, heap[p].row, c[heap[p].row])
      && heap[p].value == Prod(a1, a2, heap[p].row, heap[p].col)
  }

  /** No row has two entries in the heap. */
  ghost predicate RowsDistinct(heap: seq<Entry>)
  {
    forall p, q :: 0 <= p < q < |heap| ==> heap[p].row != heap[q].row
  }

  /** Every row whose walk is not finished has an entry in the heap. */
  ghost predicate RowsPresent(a1: seq<int>, a2: seq<int>, c: seq<nat>, heap: seq<Entry>)
    requires |c| == |a1|
  {
    forall i :: 0 <= i < |a1| && c[i] < |a2| ==> exists p :: 0 <= p < |heap| && heap[p].row == i
  }

  /** The heap holds one entry for each row whose walk is not finished, at its next column. */
  ghost predicate HeapShape(a1: seq<int>, a2: seq<int>, mirror: bool, c: seq<nat>, heap: seq<Entry>)
    requires |c| == |a1|
  {
    EntriesMatch(a1, a2, mirror, c, heap) && RowsDistinct(heap) && RowsPresent(a1, a2, c, heap)
  }

  /** The entry offered after polling row i at walk step c[i], if that walk goes on. */
  function Offer(a1: seq<int>, a2: seq<int>, mirror: bool, c: seq<nat>, i: nat): seq<Entry>
    requires |c| == |a1| && i < |a1|
  {
    if c[i] + 1 < |a2| then [Entry(Prod(a1, a2, i, Col(a1, |a2|, mirror, i, c[i] + 1)), i, Col(a1, |a2|, mirror, i, c[i] + 1))] else []
  }

  lemma RemoveKeepsOthers(heap: seq<Entry>, p: nat)
    requires p < |heap| && RowsDistinct(heap)
    ensures forall q :: 0 <= q < |Remove(heap, p)| ==> Remove(heap, p)[q].row != heap[p].row && Remove(heap, p)[q] in heap
    ensures RowsDistinct(Remove(heap, p))
  {
    var rest := Remove(heap, p);
    forall q | 0 <= q < |rest|
      ensures rest[q].row != heap[p].row && rest[q] in heap
    {
      assert rest[q] == heap[if q < p then q else q + 1];
    }
    forall q, s | 0 <= q < s < |rest|
      ensures rest[q].row != rest[s].row
    {
      assert rest[q] == heap[if q < p then q else q + 1];
      assert rest[s] == heap[if s < p then s else s + 1];
    }
  }

  lemma PollKeepsEntries(a1: seq<int>, a2: seq<int>, mirror: bool, c: seq<nat>, heap: seq<Entry>, p: nat)
    requires |c| == |a1| && p < |heap| && EntriesMatch(a1, a2, mirror, c, heap) && RowsDistinct(heap)
    ensures EntriesMatch(a1, a2, mirror, c[heap[p].row := c[heap[p].row] + 1],
                         Remove(heap, p) + Offer(a1, a2, mirror, c, heap[p].row))
  {
    var i := heap[p].row;
    var c' := c[i := c[i] + 1];
    var rest := Remove(heap, p);
    var heap' := rest + Offer(a1, a2, mirror, c, i);
    RemoveKeepsOthers(heap, p);
    forall q | 0 <= q < |heap'|
      ensures heap'[q].row < |a1| && c'[heap'[q].row] < |a2|
      ensures heap'[q].col == Col(a1, |a2|, mirror, heap'[q].row, c'[heap'[q].row])
      ensures heap'[q].value == Prod(a1, a2, heap'[q].row, heap'[q].col)
    {
      if q < |rest| {
        assert heap'[q] == rest[q];
      }
    }
  }

  lemma PollKeepsDistinct(a1: seq<int>, a2: seq<int>, mirror: bool, c: seq<nat>, heap: seq<Entry>, p: nat)
    requires |c| == |a1| && p < |heap| && heap[p].row < |a1| && RowsDistinct(heap)
    ensures RowsDistinct(Remove(heap, p) + Offer(a1, a2, mirror, c, heap[p].row))
  {
    var rest := Remove(heap, p);
    var heap' := rest + Offer(a1, a2, mirror, c, heap[p].row);
    RemoveKeepsOthers(heap, p);
    forall q, s | 0 <= q < s < |heap'|
      ensures heap'[q].row != heap'[s].row
    {
      assert heap'[q] == rest[q];
      if s < |rest| {
        assert heap'[s] == rest[s];
      }
    }
  }

  lemma PollKeepsPresence(a1: seq<int>, a2: seq<int>, c: seq<nat>, mirror: bool, heap: seq<Entry>, p: nat)
    requires |c| == |a1| && p < |heap| && heap[p].row < |a1| && RowsPresent(a1, a2, c, heap)
    ensures RowsPresent(a1, a2, c[heap[p].row := c[heap[p].row] + 1],
                        Remove(heap, p) + Offer(a1, a2, mirror, c, heap[p].row))
  {
    var i := heap[p].row;
    var c' := c[i := c[i] + 1];
    var rest := Remove(heap, p);
    var heap' := rest + Offer(a1, a2, mirror, c, i);
    forall i' | 0 <= i' < |a1| && c'[i'] < |a2|
      ensures exists q :: 0 <= q < |heap'| && heap'[q].row == i'
    {
      if i' == i {
        assert heap'[|rest|].row == i;
      } else {
        var q :| 0 <= q < |heap| && heap[q].row == i';
        var q' := if q < p then q else q - 1;
        assert heap'[q'] == rest[q'];
      }
    }
  }

  /** Polling entry p of row i and offering row i's next column keeps the heap's shape. */
  lemma PollKeepsShape(a1: seq<int>, a2: seq<int>, mirror: bool, c: seq<nat>, heap: seq<Entry>, p: nat)
    requires |c| == |a1| && p < |heap| && HeapShape(a1, a2, mirror, c, heap)
    ensures HeapShape(a1, a2, mirror, c[heap[p].row := c[heap[p].row] + 1],
                      Remove(heap, p) + Offer(a1, a2, mirror, c, heap[p].row))
  {
    PollKeepsEntries(a1, a2, mirror, c, heap, p);
    PollKeepsDistinct(a1, a2, mirror, c, heap, p);
    PollKeepsPresence(a1, a2, c, mirror, heap, p);
  }

  /** Java's first-step result: the least first product of any row, and itself a first product. */
  ghost predicate LeastFirstStep(a1: seq<int>, a2: seq<int>, mirror: bool, r: int)
    requires |a2| > 0
  {
    && (exists i :: 0 <= i < |a1| && r == Prod(a1, a2, i, Col(a1, |a2|, mirror, i, 0)))
    && (forall i :: 0 <= i < |a1| ==> r <= Prod(a1, a2, i, Col(a1, |a2|, mirror, i, 0)))
  }

  /** Before any poll every row has its first entry in the heap, so the first poll takes the least of them. */
  lemma FirstPollIsLeast(a1: seq<int>, a2: seq<int>, mirror: bool, c: seq<nat>, heap: seq<Entry>, p: nat)
    requires |c| == |a1| && p < |heap| && HeapShape(a1, a2, mirror, c, heap)
    requires forall i :: 0 <= i < |a1| ==> c[i] == 0
    requires forall q :: 0 <= q < |heap| ==> heap[p].value <= heap[q].value
    ensures |a2| > 0 && LeastFirstStep(a1, a2, mirror, heap[p].value)
  {
    var i := heap[p].row;
    assert heap[p].value == Prod(a1, a2, i, Col(a1, |a2|, mirror, i, 0));
    forall i' | 0 <= i' < |a1|
      ensures heap[p].value <= Prod(a1, a2, i', Col(a1, |a2|, mirror, i', 0))
    {
      assert c[i'] < |a2|;
      var q :| 0 <= q < |heap| && heap[q].row == i';
    }
  }

  /** After a poll of value r: every entry still in the heap is at least r, and every polled product at most r. */
  ghost predicate Ordered(a1: seq<int>, a2: seq<int>, mirror: bool, c: seq<nat>, heap: seq<Entry>, r: int)
    requires |c| == |a1| && forall i :: 0 <= i < |c| ==> c[i] <= |a2|
  {
    && (forall p :: 0 <= p < |heap| ==> heap[p].value >= r)
    && (forall i, t :: 0 <= i < |a1| && 0 <= t < c[i] ==> Prod(a1, a2, i, Col(a1, |a2|, mirror, i, t)) <= r)
  }

  /** The heap runs empty only once every product has been polled. */
  lemma HeapEmptyOnlyAtEnd(a1: seq<int>, a2: seq<int>, mirror: bool, c: seq<nat>, heap: seq<Entry>)
    requires |c| == |a1| && forall i :: 0 <= i < |c| ==> c[i] <= |a2|
    requires HeapShape(a1, a2, mirror, c, heap)
    ensures heap == [] ==> Total(c) == |a1| * |a2|
  {
    if heap == [] {
      forall i | 0 <= i < |a1|
        ensures c[i] == |a2|
      {
      }
      TotalFull(c, |a2|);
    }
  }

  /** Row i's entry at the start of its walk. */
  function FirstEntry(a1: seq<int>, a2: seq<int>, mirror: bool, i: nat): Entry
    requires i < |a1| && |a2| > 0
  {
    Entry(Prod(a1, a2, i, Col(a1, |a2|, mirror, i, 0)), i, Col(a1, |a2|, mirror, i, 0))
  }

  /** The first entries of rows 0 .. m - 1, in row order. */
  function Firsts(a1: seq<int>, a2: seq<int>, mirror: bool, m: nat): (r: seq<Entry>)
    requires m <= |a1| && (m == 0 || |a2| > 0)
    ensures |r| == m && forall p :: 0 <= p < m ==> r[p] == FirstEntry(a1, a2, mirror, p)
  {
    if m == 0 then [] else Firsts(a1, a2, mirror, m - 1) + [FirstEntry(a1, a2, mirror, m - 1)]
  }

  /** The queue after the seeding loop has offered the first entries of rows 0 .. m - 1. */
  function Seeded(a1: seq<int>, a2: seq<int>, mirror: bool, m: nat): (r: seq<Entry>)
    requires m <= |a1| && (m == 0 || |a2| > 0)
  {
    if m == 0 then [] else Pushed(Seeded(a1, a2, mirror, m - 1), FirstEntry(a1, a2, mirror, m - 1))
  }

  /** Before any poll, the first entries of all rows have the heap's shape. */
  lemma FirstsShape(a1: seq<int>, a2: seq<int>, mirror: bool)
    requires |a1| == 0 || |a2| > 0
    ensures HeapShape(a1, a2, mirror, seq(|a1|, _ => 0), Firsts(a1, a2, mirror, |a1|))
  {
    var n1 := |a1|;
    var heap := Firsts(a1, a2, mirror, n1);
    ghost var c: seq<nat> := seq(n1, _ => 0);
    forall i | 0 <= i < n1 && c[i] < |a2|
      ensures exists p :: 0 <= p < |heap| && heap[p].row == i
    {
      assert heap[i].row == i;
    }
  }

  /** The heap's shape depends only on which entries it holds, not on their slots. */
  lemma ShapeUnderPermutation(a1: seq<int>, a2: seq<int>, mirror: bool, c: seq<nat>, h: seq<Entry>, h': seq<Entry>)
    requires |c| == |a1| && HeapShape(a1, a2, mirror, c, h) && multiset(h') == multiset(h)
    ensures HeapShape(a1, a2, mirror, c, h')
  {
    forall p | 0 <= p < |h'|
      ensures exists q :: 0 <= q < |h| && h[q] == h'[p]
    {
      assert h'[p] in multiset(h');
    }
    forall i | 0 <= i < |a1| && c[i] < |a2|
      ensures exists p :: 0 <= p < |h'| && h'[p].row == i
    {
      var q :| 0 <= q < |h| && h[q].row == i;
      assert h[q] in multiset(h);
    }
    forall p, q | 0 <= p < q < |h'|
      ensures h'[p].row != h'[q].row
    {
      var p1 :| 0 <= p1 < |h| && h[p1] == h'[p];
      var q1 :| 0 <= q1 < |h| && h[q1] == h'[q];
      if h'[p] == h'[q] {
        TwiceCounted(h', p, q);
        DistinctOnce(h, h'[p]);
      }
    }
  }

  /** With distinct rows, no entry occurs twice. */
  lemma {:induction false} DistinctOnce(h: seq<Entry>, e: Entry)
    requires RowsDistinct(h)
    ensures multiset(h)[e] <= 1
    decreases |h|
  {
    if h != [] {
      assert h == [h[0]] + h[1..];
      assert RowsDistinct(h[1..]) by {
        forall p, q | 0 <= p < q < |h[1..]|
          ensures h[1..][p].row != h[1..][q].row
        {
          assert h[1..][p] == h[p + 1] && h[1..][q] == h[q + 1];
        }
      }
      DistinctOnce(h[1..], e);
      if e == h[0] {
        forall q | 0 <= q < |h[1..]|
          ensures h[1..][q] != e
        {
          assert h[1..][q] == h[q + 1];
        }
      }
    }
  }

  lemma TwiceCounted(h: seq<Entry>, p: nat, q: nat)
    requires p < q < |h| && h[p] == h[q]
    ensures multiset(h)[h[p]] >= 2
  {
    assert h == h[..q] + h[q..];
    assert h[..q][p] == h[p];
    assert h[q..][0] == h[p];
  }

  /** Ordered depends only on which entries the heap holds. */
  lemma OrderedUnderPermutation(a1: seq<int>, a2: seq<int>, mirror: bool, c: seq<nat>, h: seq<Entry>, h': seq<Entry>, r: int)
    requires |c| == |a1| && forall i :: 0 <= i < |c| ==> c[i] <= |a2|
    requires Ordered(a1, a2, mirror, c, h, r) && multiset(h') == multiset(h)
    ensures Ordered(a1, a2, mirror, c, h', r)
  {
    forall p | 0 <= p < |h'|
      ensures h'[p].value >= r
    {
      assert h'[p] in multiset(h');
      var q :| 0 <= q < |h| && h[q] == h'[p];
    }
  }

  /** The seeding loop: every row's first walk entry is offered, in row order. */
  method Seed(a1: seq<int>, a2: seq<int>, mirror: bool) returns (heap: seq<Entry>)
    requires |a1| == 0 || |a2| > 0
    ensures heap == Seeded(a1, a2, mirror, |a1|) && IsHeap(heap)
    ensures HeapShape(a1, a2, mirror, seq(|a1|, _ => 0), heap)
  {
    var n1, n2 := |a1|, |a2|;
    heap := [];
    for i := 0 to n1
      invariant heap == Seeded(a1, a2, mirror, i) && IsHeap(heap)
      invariant multiset(heap) == multiset(Firsts(a1, a2, mirror, i))
    {
      var j := if mirror && a1[i] < 0 then n2 - 1 else 0;
      PushedIsHeap(heap, FirstEntry(a1, a2, mirror, i));
      heap := HeapOffer(heap, Entry(a1[i] * a2[j], i, j));
    }
    FirstsShape(a1, a2, mirror);
    ShapeUnderPermutation(a1, a2, mirror, seq(n1, _ => 0), Firsts(a1, a2, mirror, n1), heap);
  }

  /** Polling a least entry keeps the polled products below and the heap above the polled value. */
  lemma PollKeepsOrder(a1: seq<int>, a2: seq<int>, mirror: bool, c: seq<nat>, heap: seq<Entry>, p: nat, r: int, first: bool)
    requires |c| == |a1| && forall i :: 0 <= i < |c| ==> c[i] <= |a2|
    requires p < |heap| && HeapShape(a1, a2, mirror, c, heap) && WalkSorted(a1, a2, mirror)
    requires forall q :: 0 <= q < |heap| ==> heap[p].value <= heap[q].value
    requires first ==> forall i :: 0 <= i < |c| ==> c[i] == 0
    requires !first ==> Ordered(a1, a2, mirror, c, heap, r)
    ensures Ordered(a1, a2, mirror, c[heap[p].row := c[heap[p].row] + 1],
                    Remove(heap, p) + Offer(a1, a2, mirror, c, heap[p].row), heap[p].value)
  {
    var i := heap[p].row;
    var v := heap[p].value;
    var c' := c[i := c[i] + 1];
    var rest := Remove(heap, p);
    var heap' := rest + Offer(a1, a2, mirror, c, i);
    forall q | 0 <= q < |heap'|
      ensures heap'[q].value >= v
    {
      if q < |rest| {
        assert heap'[q] == heap[if q < p then q else q + 1];
      } else {
        assert heap'[q].value == Prod(a1, a2, i, Col(a1, |a2|, mirror, i, c[i] + 1));
      }
    }
    forall i', t | 0 <= i' < |a1| && 0 <= t < c'[i']
      ensures Prod(a1, a2, i', Col(a1, |a2|, mirror, i', t)) <= v
    {
      if i' == i && t == c[i] {
      } else {
        assert !first && t < c[i'];
      }
    }
  }

  /** When the polls stop, the last polled value is ranked by the number of polls. */
  lemma PolledRank(a1: seq<int>, a2: seq<int>, mirror: bool, c: seq<nat>, heap: seq<Entry>, r: int, i0: nat, t0: nat)
    requires |c| == |a1| && forall i :: 0 <= i < |c| ==> c[i] <= |a2|
    requires HeapShape(a1, a2, mirror, c, heap) && WalkSorted(a1, a2, mirror) && Ordered(a1, a2, mirror, c, heap, r)
    requires i0 < |a1| && t0 < c[i0] && r == Prod(a1, a2, i0, Col(a1, |a2|, mirror, i0, t0))
    ensures IsKthSmallest(a1, a2, Total(c), r)
  {
    forall i, t | 0 <= i < |a1| && c[i] <= t < |a2|
      ensures Prod(a1, a2, i, Col(a1, |a2|, mirror, i, t)) >= r
    {
      var p :| 0 <= p < |heap| && heap[p].row == i;
    }
    StaircaseRank(a1, a2, mirror, c, r, i0, t0);
  }

  /** The entry offered after polling column j of row i: the walk's next column, if there is one. */
  function Following(a1: seq<int>, a2: seq<int>, mirror: bool, i: nat, j: nat): seq<Entry>
  {
    if i < |a1| && j < |a2| then
      if mirror && a1[i] < 0 then
        (if j >= 1 then [Entry(a1[i] * a2[j - 1], i, j - 1)] else [])
      else
        (if j + 1 < |a2| then [Entry(a1[i] * a2[j + 1], i, j + 1)] else [])
    else []
  }

  /** Offering the column after j is offering the next step of row i's walk. */
  lemma FollowingIsOffer(a1: seq<int>, a2: seq<int>, mirror: bool, c: seq<nat>, i: nat, j: nat)
    requires |c| == |a1| && i < |a1| && c[i] < |a2| && j == Col(a1, |a2|, mirror, i, c[i])
    ensures Following(a1, a2, mirror, i, j) == Offer(a1, a2, mirror, c, i)
  {
  }

  /** The queue after one round: poll the head, then offer its row's next column. */
  function AfterPoll(a1: seq<int>, a2: seq<int>, mirror: bool, heap: seq<Entry>): seq<Entry>
    requires heap != []
  {
    var offer := Following(a1, a2, mirror, heap[0].row, heap[0].col);
    if offer == [] then Popped(heap) else Pushed(Popped(heap), offer[0])
  }

  /**
   * The value of `result` after `left` more rounds from queue `heap`. An empty
   * queue ends the rounds; the program never reaches one while k is in range.
   */
  function Run(a1: seq<int>, a2: seq<int>, mirror: bool, heap: seq<Entry>, left: int, result: int): int
    decreases if left < 0 then 0 else left
  {
    if left <= 0 || heap == [] then result
    else Run(a1, a2, mirror, AfterPoll(a1, a2, mirror, heap), left - 1, heap[0].value)
  }

  /** Whatever slots they occupy, the entries left after a round keep the heap's shape. */
  lemma RoundKeepsShape(a1: seq<int>, a2: seq<int>, mirror: bool, c: seq<nat>, heap: seq<Entry>, next: seq<Entry>, row: nat)
    requires |c| == |a1| && heap != [] && HeapShape(a1, a2, mirror, c, heap) && row == heap[0].row
    requires multiset(next) == multiset(Remove(heap, 0) + Offer(a1, a2, mirror, c, heap[0].row))
    ensures row < |a1| && c[row] < |a2|
    ensures heap[0].value == Prod(a1, a2, row, Col(a1, |a2|, mirror, row, c[row]))
    ensures HeapShape(a1, a2, mirror, c[row := c[row] + 1], next)
  {
    var c' := c[row := c[row] + 1];
    var pool := Remove(heap, 0) + Offer(a1, a2, mirror, c, row);
    PollKeepsShape(a1, a2, mirror, c, heap, 0);
    assert HeapShape(a1, a2, mirror, c', pool);
    ShapeUnderPermutation(a1, a2, mirror, c', pool, next);
  }

  /** Whatever slots they occupy, the entries left after polling a least entry stay above the polled value. */
  lemma RoundKeepsOrder(a1: seq<int>, a2: seq<int>, mirror: bool, c: seq<nat>, heap: seq<Entry>, next: seq<Entry>,
                        previous: int, first: bool, row: nat, value: int)
    requires |c| == |a1| && forall i :: 0 <= i < |c| ==> c[i] <= |a2|
    requires heap != [] && HeapShape(a1, a2, mirror, c, heap) && WalkSorted(a1, a2, mirror)
    requires row == heap[0].row && value == heap[0].value
    requires forall q :: 0 <= q < |heap| ==> heap[0].value <= heap[q].value
    requires first ==> forall i :: 0 <= i < |c| ==> c[i] == 0
    requires !first ==> Ordered(a1, a2, mirror, c, heap, previous)
    requires multiset(next) == multiset(Remove(heap, 0) + Offer(a1, a2, mirror, c, heap[0].row))
    ensures Ordered(a1, a2, mirror, c[row := c[row] + 1], next, value)
  {
    var c' := c[row := c[row] + 1];
    var pool := Remove(heap, 0) + Offer(a1, a2, mirror, c, row);
    PollKeepsOrder(a1, a2, mirror, c, heap, 0, previous, first);
    OrderedUnderPermutation(a1, a2, mirror, c', pool, next, value);
  }

  /** The queue operations of one round: poll the head, then offer the column after it in its row. */
  method PollAndOffer(a1: seq<int>, a2: seq<int>, mirror: bool, heap: seq<Entry>) returns (head: Entry, next: seq<Entry>)
    requires heap != [] && IsHeap(heap)
    ensures head == heap[0] && next == AfterPoll(a1, a2, mirror, heap) && IsHeap(next)
    ensures multiset(next) == multiset(heap[1..] + Following(a1, a2, mirror, head.row, head.col))
  {
    var rest;
    head, rest := HeapPoll(heap);
    var offer := Following(a1, a2, mirror, head.row, head.col);
    next := rest;
    if offer != [] {
      next := HeapOffer(rest, offer[0]);
    }
    AfterPollIsHeap(a1, a2, mirror, heap);
  }

  /** A round leaves a heap holding the entries but the root, and the offer. */
  lemma AfterPollIsHeap(a1: seq<int>, a2: seq<int>, mirror: bool, heap: seq<Entry>)
    requires heap != [] && IsHeap(heap)
    ensures IsHeap(AfterPoll(a1, a2, mirror, heap))
    ensures multiset(AfterPoll(a1, a2, mirror, heap)) == multiset(heap[1..] + Following(a1, a2, mirror, heap[0].row, heap[0].col))
  {
    var offer := Following(a1, a2, mirror, heap[0].row, heap[0].col);
    PoppedIsHeap(heap);
    if offer != [] {
      PushedIsHeap(Popped(heap), offer[0]);
    } else {
      assert heap[1..] + offer == heap[1..];
    }
  }

  /** One more round of a walk that has rounds left. */
  lemma RunStep(a1: seq<int>, a2: seq<int>, mirror: bool, heap: seq<Entry>, left: int, result: int)
    requires left > 0 && heap != []
    ensures Run(a1, a2, mirror, heap, left, result) == Run(a1, a2, mirror, AfterPoll(a1, a2, mirror, heap), left - 1, heap[0].value)
  {
  }

  /**
   * One round of the loop: poll the queue's head, then offer the next column of
   * its row. The head is a least entry, and the queue keeps one entry per
   * unfinished row.
   */
  method Poll(a1: seq<int>, a2: seq<int>, mirror: bool, heap: seq<Entry>, ghost c: seq<nat>, ghost previous: int, ghost first: bool)
    returns (next: seq<Entry>, value: int, ghost row: nat)
    requires |c| == |a1| && forall i :: 0 <= i < |c| ==> c[i] <= |a2|
    requires heap != [] && IsHeap(heap) && HeapShape(a1, a2, mirror, c, heap)
    requires first ==> forall i :: 0 <= i < |c| ==> c[i] == 0
    requires !first && WalkSorted(a1, a2, mirror) ==> Ordered(a1, a2, mirror, c, heap, previous)
    ensures next == AfterPoll(a1, a2, mirror, heap) && value == heap[0].value && IsHeap(next)
    ensures row < |a1| && c[row] < |a2|
    ensures value == Prod(a1, a2, row, Col(a1, |a2|, mirror, row, c[row]))
    ensures HeapShape(a1, a2, mirror, c[row := c[row] + 1], next)
    ensures first ==> LeastFirstStep(a1, a2, mirror, value)
    ensures WalkSorted(a1, a2, mirror) ==> Ordered(a1, a2, mirror, c[row := c[row] + 1], next, value)
  {
    var current;
    current, next := PollAndOffer(a1, a2, mirror, heap);
    value := current.value;
    row := current.row;
    FollowingIsOffer(a1, a2, mirror, c, row, current.col);
    assert Remove(heap, 0) == heap[1..];
    RoundKeepsShape(a1, a2, mirror, c, heap, next, row);
    if WalkSorted(a1, a2, mirror) {
      HeapRootIsLeast(heap);
      RoundKeepsOrder(a1, a2, mirror, c, heap, next, previous, first, row, value);
    }
    if first {
      HeapRootIsLeast(heap);
      FirstPollIsLeast(a1, a2, mirror, c, heap, 0);
    }
  }

  /**
   * The state of the walk after `count` of k rounds: c[i] entries of row i have
   * been polled, the queue is a heap with one entry per unfinished row, the rest
   * of the walk from here ends as the walk from the seeded queue does, and the
   * last polled value is the product at step lastPos of row lastRow.
   */
  ghost predicate Walking(a1: seq<int>, a2: seq<int>, mirror: bool, k: int, seeded: seq<Entry>, count: int,
                          c: seq<nat>, heap: seq<Entry>, result: int, lastRow: nat, lastPos: nat)
  {
    && 0 <= count && (count <= k || count == 0)
    && |c| == |a1| && (forall i :: 0 <= i < |a1| ==> c[i] <= |a2|)
    && Total(c) == count
    && (count == 0 ==> forall i :: 0 <= i < |a1| ==> c[i] == 0)
    && IsHeap(heap) && HeapShape(a1, a2, mirror, c, heap)
    && Run(a1, a2, mirror, heap, k - count, result) == Run(a1, a2, mirror, seeded, k, 0)
    && (count == 0 ==> result == 0)
    && (count >= 1 ==>
          lastRow < |a1| && lastPos < c[lastRow] && result == Prod(a1, a2, lastRow, Col(a1, |a2|, mirror, lastRow, lastPos)))
    && (count == 1 ==> |a2| > 0 && LeastFirstStep(a1, a2, mirror, result))
    && (WalkSorted(a1, a2, mirror) && count >= 1 ==> Ordered(a1, a2, mirror, c, heap, result))
  }

  /** One pass of the loop body: a round of the walk, and the bookkeeping of what has been polled. */
  method Round(a1: seq<int>, a2: seq<int>, mirror: bool, k: int, ghost seeded: seq<Entry>, count: int,
               ghost c: seq<nat>, heap: seq<Entry>, result: int, ghost lastRow: nat, ghost lastPos: nat)
    returns (ghost c': seq<nat>, heap': seq<Entry>, result': int, ghost lastRow': nat, ghost lastPos': nat)
    requires k <= |a1| * |a2| && count < k
    requires Walking(a1, a2, mirror, k, seeded, count, c, heap, result, lastRow, lastPos)
    ensures Walking(a1, a2, mirror, k, seeded, count + 1, c', heap', result', lastRow', lastPos')
  {
    HeapEmptyOnlyAtEnd(a1, a2, mirror, c, heap);
    RunStep(a1, a2, mirror, heap, k - count, result);
    ghost var i: nat;
    heap', result', i := Poll(a1, a2, mirror, heap, c, result, count == 0);
    TotalIncrement(c, i);
    lastRow', lastPos' := i, c[i];
    c' := c[i := c[i] + 1];
  }

  /**
   * The seeding loop and the k polls. With `mirror` false this is the program's walk;
   * with `mirror` true, rows with a negative multiplier are walked right to left.
   */
  method Walk(a1: seq<int>, a2: seq<int>, k: int, mirror: bool) returns (result: int)
    requires |a1| == 0 || |a2| > 0
    requires k <= |a1| * |a2|
    ensures result == Run(a1, a2, mirror, Seeded(a1, a2, mirror, |a1|), k, 0)
    ensures k <= 0 ==> result == 0
    ensures k >= 1 ==> IsProduct(a1, a2, result)
    ensures k == 1 ==> LeastFirstStep(a1, a2, mirror, result)
    ensures k >= 1 && WalkSorted(a1, a2, mirror) ==> IsKthSmallest(a1, a2, k, result)
  {
    var heap := Seed(a1, a2, mirror);
    ghost var seeded := heap;
    ghost var c: seq<nat> := seq(|a1|, _ => 0);
    TotalFull(c, 0);
    ghost var lastRow: nat, lastPos: nat := 0, 0;

    result := 0;
    var count := 0;
    while count < k
      invariant Walking(a1, a2, mirror, k, seeded, count, c, heap, result, lastRow, lastPos)
      decreases k - count
    {
      c, heap, result, lastRow, lastPos := Round(a1, a2, mirror, k, seeded, count, c, heap, result, lastRow, lastPos);
      count := count + 1;
    }

    if k >= 1 && WalkSorted(a1, a2, mirror) {
      PolledRank(a1, a2, mirror, c, heap, result, lastRow, lastPos);
    }
  }

  // ---------------------------------------------------------------------------
  // Entry points

  /**
   * The program as written. k beyond the number of products is rejected; an empty
   * a2 with a non-empty a1 fails on a2[0]; otherwise the result is a
   * product, and the k-th smallest one when a2 is sorted and a1 has no
   * negative element.
   */
  method KthSmallestInvestment(a1: seq<int>, a2: seq<int>, k: int) returns (res: Result<int>)
    ensures k > |a1| * |a2| ==> res == Failure(IllegalArgument)
    ensures k <= |a1| * |a2| && |a1| > 0 && |a2| == 0 ==> res == Failure(IndexOutOfBounds)
    ensures res.Success? <==> k <= |a1| * |a2| && (|a1| == 0 || |a2| > 0)
    ensures res.Success? && k <= 0 ==> res.value == 0
    ensures res.Success? && k >= 1 ==> IsProduct(a1, a2, res.value)
    ensures res.Success? && k == 1 ==> LeastFirstStep(a1, a2, false, res.value)
    ensures res.Success? && k >= 1 && Ascending(a2) && (forall i :: 0 <= i < |a1| ==> a1[i] >= 0) ==>
      IsKthSmallest(a1, a2, k, res.value)
    ensures res.Success? ==> res.value == Run(a1, a2, false, Seeded(a1, a2, false, |a1|), k, 0)
  {
    if k > |a1| * |a2| {
      return Failure(IllegalArgument);
    }
    if |a1| > 0 && |a2| == 0 {
      return Failure(IndexOutOfBounds);
    }
    var v := Walk(a1, a2, k, false);
    if Ascending(a2) && forall i :: 0 <= i < |a1| ==> a1[i] >= 0 {
      NonNegativeRowsAreSorted(a1, a2);
    }
    return Success(v);
  }

  /**
   * The same search with rows of a negative multiplier walked from their last column,
   * so that every walk is ascending whenever a2 is sorted: the result is then
   * always the k-th smallest product.
   */
  method KthSmallestProduct(a1: seq<int>, a2: seq<int>, k: int) returns (res: Result<int>)
    ensures k > |a1| * |a2| ==> res == Failure(IllegalArgument)
    ensures k <= |a1| * |a2| && |a1| > 0 && |a2| == 0 ==> res == Failure(IndexOutOfBounds)
    ensures res.Success? <==> k <= |a1| * |a2| && (|a1| == 0 || |a2| > 0)
    ensures res.Success? && k <= 0 ==> res.value == 0
    ensures res.Success? && k >= 1 && Ascending(a2) ==> IsKthSmallest(a1, a2, k, res.value)
    ensures res.Success? ==> res.value == Run(a1, a2, true, Seeded(a1, a2, true, |a1|), k, 0)
  {
    if k > |a1| * |a2| {
      return Failure(IllegalArgument);
    }
    if |a1| > 0 && |a2| == 0 {
      return Failure(IndexOutOfBounds);
    }
    var v := Walk(a1, a2, k, true);
    if Ascending(a2) {
      MirroredRowsAreSorted(a1, a2);
    }
    return Success(v);
  }

  /** For a1 = [-1], a2 = [1, 2], k = 1 the program answers -1, but the smallest product is -2. */
  method NegativeRowCounterexample() returns (res: Result<int>)
    ensures res == Success(-1)
    ensures !IsKthSmallest([-1], [1, 2], 1, -1) && IsKthSmallest([-1], [1, 2], 1, -2)
  {
    res := KthSmallestInvestment([-1], [1, 2], 1);
    assert Prod([-1], [1, 2], 0, 0) == -1;
    assert Prod([-1], [1, 2], 0, 1) == -2;
  }

  /** The second smallest product of [2, 5] and [3, 4] is 8. */
  lemma FirstSampleIsKth(r: int)
    requires IsKthSmallest([2, 5], [3, 4], 2, r)
    ensures r == 8
  {
    assert IsKthSmallest([2, 5], [3, 4], 2, 8);
    KthSmallestUnique([2, 5], [3, 4], 2, r, 8);
  }

  /** The sixth smallest product of [-4, -2, 0, 3] and [2, 4] is 0. */
  lemma SecondSampleIsKth()
    ensures IsKthSmallest([-4, -2, 0, 3], [2, 4], 6, 0)
  {
  }

  // The queue after each round of the walk on a1 = [-4, -2, 0, 3], a2 = [2, 4].

  lemma SecondSampleSeeded()
    ensures Seeded([-4, -2, 0, 3], [2, 4], false, 4)
         == [Entry(-8, 0, 0), Entry(-4, 1, 0), Entry(0, 2, 0), Entry(6, 3, 0)]
  {
  }

  lemma SecondSampleRound1()
    ensures AfterPoll([-4, -2, 0, 3], [2, 4], false, [Entry(-8, 0, 0), Entry(-4, 1, 0), Entry(0, 2, 0), Entry(6, 3, 0)])
         == [Entry(-16, 0, 1), Entry(-4, 1, 0), Entry(0, 2, 0), Entry(6, 3, 0)]
  {
    var rest := [Entry(-8, 0, 0), Entry(-4, 1, 0), Entry(0, 2, 0)];
    var popped := [Entry(-4, 1, 0), Entry(6, 3, 0), Entry(0, 2, 0)];
    assert SmallerChild(rest, 0) == 1;
    assert SiftDown(rest, 0, Entry(6, 3, 0)) == SiftDown(rest[0 := rest[1]], 1, Entry(6, 3, 0)) == popped;
    var e := Entry(-16, 0, 1);
    assert Parent(3) == 1 && Parent(1) == 0;
    assert SiftUp(popped + [e], 3, e) == SiftUp((popped + [e])[3 := popped[1]], 1, e);
    var h := [Entry(-8, 0, 0), Entry(-4, 1, 0), Entry(0, 2, 0), Entry(6, 3, 0)];
    assert h[..3] == rest;
    assert Popped(h) == popped;
    assert Following([-4, -2, 0, 3], [2, 4], false, 0, 0) == [e];
  }

  lemma SecondSampleRound2()
    ensures AfterPoll([-4, -2, 0, 3], [2, 4], false, [Entry(-16, 0, 1), Entry(-4, 1, 0), Entry(0, 2, 0), Entry(6, 3, 0)])
         == [Entry(-4, 1, 0), Entry(6, 3, 0), Entry(0, 2, 0)]
  {
    var rest := [Entry(-16, 0, 1), Entry(-4, 1, 0), Entry(0, 2, 0)];
    assert SmallerChild(rest, 0) == 1;
    assert SiftDown(rest, 0, Entry(6, 3, 0)) == SiftDown(rest[0 := rest[1]], 1, Entry(6, 3, 0));
    var h := [Entry(-16, 0, 1), Entry(-4, 1, 0), Entry(0, 2, 0), Entry(6, 3, 0)];
    assert h[..3] == rest;
    assert Following([-4, -2, 0, 3], [2, 4], false, 0, 1) == [];
  }

  lemma SecondSampleRound3()
    ensures AfterPoll([-4, -2, 0, 3], [2, 4], false, [Entry(-4, 1, 0), Entry(6, 3, 0), Entry(0, 2, 0)])
         == [Entry(-8, 1, 1), Entry(6, 3, 0), Entry(0, 2, 0)]
  {
  }

  lemma SecondSampleRound4()
    ensures AfterPoll([-4, -2, 0, 3], [2, 4], false, [Entry(-8, 1, 1), Entry(6, 3, 0), Entry(0, 2, 0)])
         == [Entry(0, 2, 0), Entry(6, 3, 0)]
  {
  }

  lemma SecondSampleRound5()
    ensures AfterPoll([-4, -2, 0, 3], [2, 4], false, [Entry(0, 2, 0), Entry(6, 3, 0)])
         == [Entry(0, 2, 1), Entry(6, 3, 0)]
  {
  }

  /** Six rounds of the program's walk on ([-4, -2, 0, 3], [2, 4]) end on the value 0. */
  lemma SecondSampleRun()
    ensures Run([-4, -2, 0, 3], [2, 4], false, Seeded([-4, -2, 0, 3], [2, 4], false, 4), 6, 0) == 0
  {
    var a1, a2 := [-4, -2, 0, 3], [2, 4];
    var h0 := [Entry(-8, 0, 0), Entry(-4, 1, 0), Entry(0, 2, 0), Entry(6, 3, 0)];
    var h1 := [Entry(-16, 0, 1), Entry(-4, 1, 0), Entry(0, 2, 0), Entry(6, 3, 0)];
    var h2 := [Entry(-4, 1, 0), Entry(6, 3, 0), Entry(0, 2, 0)];
    var h3 := [Entry(-8, 1, 1), Entry(6, 3, 0), Entry(0, 2, 0)];
    var h4 := [Entry(0, 2, 0), Entry(6, 3, 0)];
    var h5 := [Entry(0, 2, 1), Entry(6, 3, 0)];
    SecondSampleSeeded();
    SecondSampleRound1();
    SecondSampleRound2();
    SecondSampleRound3();
    SecondSampleRound4();
    SecondSampleRound5();
    calc {
      Run(a1, a2, false, h0, 6, 0);
      Run(a1, a2, false, h1, 5, -8);
      Run(a1, a2, false, h2, 4, -16);
      Run(a1, a2, false, h3, 3, -4);
      Run(a1, a2, false, h4, 2, -8);
      Run(a1, a2, false, h5, 1, 0);
      Run(a1, a2, false, AfterPoll(a1, a2, false, h5), 0, 0);
      0;
    }
  }

  /**
   * The recorded outputs: ([2, 5], [3, 4], 2) gives 8 and ([-4, -2, 0, 3], [2, 4], 6)
   * gives 0, which is the sixth smallest product even though two rows run downward.
   */
  method RecordedOutputs() returns (first: Result<int>, second: Result<int>)
    ensures first == Success(8) && second == Success(0)
    ensures IsKthSmallest([-4, -2, 0, 3], [2, 4], 6, second.value)
  {
    first := KthSmallestInvestment([2, 5], [3, 4], 2);
    FirstSampleIsKth(first.value);
    second := KthSmallestInvestment([-4, -2, 0, 3], [2, 4], 6);
    SecondSampleRun();
    SecondSampleIsKth();
  }

  // The queue after each round of the walk on a1 = [-2, -2, -1], a2 = [0, 1], where
  // the three first entries tie at 0 and the heap decides which row goes first.

  lemma TieSampleSeeded()
    ensures Seeded([-2, -2, -1], [0, 1], false, 3) == [Entry(0, 0, 0), Entry(0, 1, 0), Entry(0, 2, 0)]
  {
  }

  lemma TieSampleRound1()
    ensures AfterPoll([-2, -2, -1], [0, 1], false, [Entry(0, 0, 0), Entry(0, 1, 0), Entry(0, 2, 0)])
         == [Entry(-2, 0, 1), Entry(0, 1, 0), Entry(0, 2, 0)]
  {
  }

  lemma TieSampleRound2()
    ensures AfterPoll([-2, -2, -1], [0, 1], false, [Entry(-2, 0, 1), Entry(0, 1, 0), Entry(0, 2, 0)])
         == [Entry(0, 2, 0), Entry(0, 1, 0)]
  {
  }

  lemma TieSampleRound3()
    ensures AfterPoll([-2, -2, -1], [0, 1], false, [Entry(0, 2, 0), Entry(0, 1, 0)])
         == [Entry(-1, 2, 1), Entry(0, 1, 0)]
  {
  }

  /**
   * On ([-2, -2, -1], [0, 1], 4) the program answers -1: after the first poll the
   * last slot moves to the root, so row 2 is polled before row 1 although both
   * start at 0.
   */
  method TieOrderSample() returns (res: Result<int>)
    ensures res == Success(-1)
  {
    res := KthSmallestInvestment([-2, -2, -1], [0, 1], 4);
    var a1, a2 := [-2, -2, -1], [0, 1];
    TieSampleSeeded();
    TieSampleRound1();
    TieSampleRound2();
    TieSampleRound3();
    calc {
      Run(a1, a2, false, [Entry(0, 0, 0), Entry(0, 1, 0), Entry(0, 2, 0)], 4, 0);
      Run(a1, a2, false, [Entry(-2, 0, 1), Entry(0, 1, 0), Entry(0, 2, 0)], 3, 0);
      Run(a1, a2, false, [Entry(0, 2, 0), Entry(0, 1, 0)], 2, -2);
      Run(a1, a2, false, [Entry(-1, 2, 1), Entry(0, 1, 0)], 1, 0);
      Run(a1, a2, false, AfterPoll(a1, a2, false, [Entry(-1, 2, 1), Entry(0, 1, 0)]), 0, -1);
      -1;
    }
  }
}
