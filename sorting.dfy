/**
 * Stable in-place sorting by a comparator, as done by Java's List.sort and
 * JavaScript's Array.prototype.sort. Both library sorts are stable, so the
 * order they produce is that of a stable insertion sort: each element goes
 * after every earlier element that is not greater than it.
 */
module Sorting {

  /** `lt` is a strict weak order: asymmetric, and "not less than" is transitive. */
  ghost predicate StrictWeakOrder<T(!new)>(lt: (T, T) -> bool)
  {
    && (forall x, y :: lt(x, y) ==> !lt(y, x))
    && (forall x, y, z :: !lt(x, y) && !lt(y, z) ==> !lt(x, z))
  }

  /** No element is less than an element before it. */
  predicate Sorted<T>(s: seq<T>, lt: (T, T) -> bool)
  {
    forall p, q :: 0 <= p < q < |s| ==> !lt(s[q], s[p])
  }

  /** Place x into s from the right: it goes after every element that is not greater than it. */
  function InsertBack<T>(s: seq<T>, x: T, lt: (T, T) -> bool): (r: seq<T>)
    ensures |r| == |s| + 1
  {
    if s == [] || !lt(x, s[|s| - 1]) then s + [x]
    else InsertBack(s[..|s| - 1], x, lt) + [s[|s| - 1]]
  }

  /** The stable sort: insert the elements one after the other, from the left. */
  function Sort<T>(s: seq<T>, lt: (T, T) -> bool): (r: seq<T>)
    ensures |r| == |s|
  {
    if s == [] then [] else InsertBack(Sort(s[..|s| - 1], lt), s[|s| - 1], lt)
  }

  lemma {:induction false} InsertBackPermutes<T>(s: seq<T>, x: T, lt: (T, T) -> bool)
    ensures multiset(InsertBack(s, x, lt)) == multiset(s) + multiset{x}
  {
    if s != [] && lt(x, s[|s| - 1]) {
      InsertBackPermutes(s[..|s| - 1], x, lt);
      assert s == s[..|s| - 1] + [s[|s| - 1]];
    }
  }

  /** Sorting only reorders. */
  lemma {:induction false} SortPermutes<T>(s: seq<T>, lt: (T, T) -> bool)
    ensures multiset(Sort(s, lt)) == multiset(s)
  {
    if s != [] {
      SortPermutes(s[..|s| - 1], lt);
      InsertBackPermutes(Sort(s[..|s| - 1], lt), s[|s| - 1], lt);
      assert s == s[..|s| - 1] + [s[|s| - 1]];
    }
  }

  lemma {:induction false} InsertBackSorted<T(!new)>(s: seq<T>, x: T, lt: (T, T) -> bool)
    requires StrictWeakOrder(lt) && Sorted(s, lt)
    ensures Sorted(InsertBack(s, x, lt), lt)
  {
    var r := InsertBack(s, x, lt);
    if s == [] || !lt(x, s[|s| - 1]) {
      forall p | 0 <= p < |s|
        ensures !lt(x, s[p])
      {
        assert !lt(s[|s| - 1], s[p]) || p == |s| - 1;
      }
    } else {
      var init := s[..|s| - 1];
      InsertBackSorted(init, x, lt);
      InsertBackPermutes(init, x, lt);
      var last := s[|s| - 1];
      forall p | 0 <= p < |r| - 1
        ensures !lt(last, r[p])
      {
        assert r[p] in multiset(init) + multiset{x};
        if r[p] != x {
          var q :| 0 <= q < |init| && init[q] == r[p];
        }
      }
    }
  }

  /** The sort's output is sorted. */
  lemma {:induction false} SortSorts<T(!new)>(s: seq<T>, lt: (T, T) -> bool)
    requires StrictWeakOrder(lt)
    ensures Sorted(Sort(s, lt), lt)
  {
    if s != [] {
      SortSorts(s[..|s| - 1], lt);
      InsertBackSorted(Sort(s[..|s| - 1], lt), s[|s| - 1], lt);
    }
  }

  /** x lands at j when everything from j on is greater than x and s[j - 1] is not. */
  lemma {:induction false} InsertBackAt<T>(s: seq<T>, j: nat, x: T, lt: (T, T) -> bool)
    requires j <= |s| && (j == 0 || !lt(x, s[j - 1]))
    requires forall k :: j <= k < |s| ==> lt(x, s[k])
    ensures InsertBack(s, x, lt) == s[..j] + [x] + s[j..]
  {
    if j < |s| {
      var init := s[..|s| - 1];
      assert init[..j] == s[..j] && init[j..] + [s[|s| - 1]] == s[j..];
      InsertBackAt(init, j, x, lt);
    }
  }

  /** Sorting a sorted sequence leaves it as it is. */
  lemma {:induction false} SortOfSorted<T>(s: seq<T>, lt: (T, T) -> bool)
    requires Sorted(s, lt)
    ensures Sort(s, lt) == s
  {
    if s != [] {
      var init := s[..|s| - 1];
      assert Sorted(init, lt);
      SortOfSorted(init, lt);
      assert init == [] || !lt(s[|s| - 1], init[|init| - 1]);
      assert s == init + [s[|s| - 1]];
    }
  }

  /**
   * Shift the elements of a[..i] greater than x, from the right, one step right. The
   * gap left at j is where x belongs.
   */
  method ShiftGreater<T>(a: array<T>, i: nat, x: T, lt: (T, T) -> bool) returns (j: nat)
    requires i < a.Length
    modifies a
    ensures j <= i
    ensures forall k :: 0 <= k < j ==> a[k] == old(a[k])
    ensures forall k :: j < k <= i ==> a[k] == old(a[k - 1])
    ensures forall k :: i < k < a.Length ==> a[k] == old(a[k])
    ensures InsertBack(old(a[..i]), x, lt) == old(a[..j]) + [x] + old(a[j..i])
  {
    j := i;
    while j > 0 && lt(x, a[j - 1])
      invariant 0 <= j <= i
      invariant forall k :: 0 <= k < j ==> a[k] == old(a[k])
      invariant forall k :: j < k <= i ==> a[k] == old(a[k - 1])
      invariant forall k :: i < k < a.Length ==> a[k] == old(a[k])
      invariant forall k :: j <= k < i ==> lt(x, old(a[k]))
    {
      a[j] := a[j - 1];
      j := j - 1;
    }
    ghost var prefix := old(a[..i]);
    InsertBackAt(prefix, j, x, lt);
    assert prefix[..j] == old(a[..j]) && prefix[j..] == old(a[j..i]);
  }

  /** Shift the elements of a[..i] greater than a[i] one step right and drop a[i] into the gap. */
  method InsertInPlace<T>(a: array<T>, i: nat, lt: (T, T) -> bool)
    requires i < a.Length
    modifies a
    ensures a[..i + 1] == InsertBack(old(a[..i]), old(a[i]), lt)
    ensures a[i + 1..] == old(a[i + 1..])
  {
    var x := a[i];
    var j := ShiftGreater(a, i, x, lt);
    a[j] := x;
    assert a[..i + 1] == old(a[..j]) + [x] + old(a[j..i]);
  }

  /**
   * Insertion sort in place, shifting greater elements one step right.
   * The array ends up holding the stable sort of its old contents.
   */
  method InsertionSort<T>(a: array<T>, lt: (T, T) -> bool)
    modifies a
    ensures a[..] == Sort(old(a[..]), lt)
  {
    ghost var s := a[..];
    for i := 0 to a.Length
      invariant a[..i] == Sort(s[..i], lt)
      invariant a[i..] == s[i..]
    {
      InsertInPlace(a, i, lt);
      assert s[..i + 1][..i] == s[..i];
    }
    assert s[..a.Length] == s;
  }
}
