/**
 * Closest pair of points by Manhattan distance, with ties broken towards the
 * lexicographically smallest index pair.
 *
 * The program scans every ordered pair (i, j) with i != j in lexicographic
 * order, keeping the best distance in an int that starts at Integer.MAX_VALUE
 * and the best pair in a two-element array that starts as [0, 0].
 */
module ClosestPair {
  import opened Wrappers

  /** Java's Integer.MAX_VALUE, the scan's initial best distance. */
  const IntMax: int := 0x7fff_ffff

  function Abs(x: int): nat
  {
    if x < 0 then -x else x
  }

  /** Manhattan distance between points i and j. */
  function Distance(xs: seq<int>, ys: seq<int>, i: nat, j: nat): nat
    requires i < |xs| && j < |xs| && i < |ys| && j < |ys|
  {
    Abs(xs[i] - xs[j]) + Abs(ys[i] - ys[j])
  }

  /** A pair of two different points. */
  predicate IsPair(n: nat, i: int, j: int)
  {
    0 <= i < n && 0 <= j < n && i != j
  }

  /** Every pair the scan compares has both y coordinates: there is no pair, or ys is long enough. */
  predicate Readable(xs: seq<int>, ys: seq<int>)
  {
    |xs| <= 1 || |xs| <= |ys|
  }

  /** Lexicographic order on index pairs. */
  predicate Before(i: int, j: int, k: int, l: int)
  {
    i < k || (i == k && j < l)
  }

  /** (i, j) has the least distance, and no pair at that distance comes before it. */
  ghost predicate IsClosest(xs: seq<int>, ys: seq<int>, i: int, j: int)
    requires Readable(xs, ys)
  {
    && IsPair(|xs|, i, j)
    && (forall k, l :: IsPair(|xs|, k, l) ==> Distance(xs, ys, i, j) <= Distance(xs, ys, k, l))
    && (forall k, l :: IsPair(|xs|, k, l) && Distance(xs, ys, k, l) == Distance(xs, ys, i, j) ==> !Before(k, l, i, j))
  }

  /** Some pair lies closer than the scan's initial bound. */
  ghost predicate HasPairBelowBound(xs: seq<int>, ys: seq<int>)
    requires Readable(xs, ys)
  {
    exists k, l :: IsPair(|xs|, k, l) && Distance(xs, ys, k, l) < IntMax
  }

  /** Distance is symmetric, so the chosen pair always lists the smaller index first. */
  lemma ClosestIsOrdered(xs: seq<int>, ys: seq<int>, i: int, j: int)
    requires Readable(xs, ys) && IsClosest(xs, ys, i, j)
    ensures i < j
  {
    if j < i {
      assert Distance(xs, ys, j, i) == Distance(xs, ys, i, j);
      assert Before(j, i, i, j);
    }
  }

  /** The closest pair is unique. */
  lemma ClosestIsUnique(xs: seq<int>, ys: seq<int>, i: int, j: int, k: int, l: int)
    requires Readable(xs, ys) && IsClosest(xs, ys, i, j) && IsClosest(xs, ys, k, l)
    ensures i == k && j == l
  {
    assert Distance(xs, ys, i, j) == Distance(xs, ys, k, l);
    assert !Before(k, l, i, j) && !Before(i, j, k, l);
  }

  /**
   * The source's nested scan. It reads the y coordinates of every pair, so a ys
   * shorter than xs makes it index past ys once there is a pair; nothing else
   * happens before that, so the failure is reported before the scan. Otherwise, whenever some
   * pair is closer than Integer.MAX_VALUE (always, unless the coordinates are near
   * the int range) the result is the closest pair; when none is, and in particular
   * for fewer than two points, it is (0, 0).
   */
  method FindClosestPair(xs: seq<int>, ys: seq<int>) returns (res: Result<(int, int)>)
    ensures res.Failure? <==> !Readable(xs, ys)
    ensures res.Failure? ==> res.error == IndexOutOfBounds
    ensures res.Success? && HasPairBelowBound(xs, ys) ==>
      IsClosest(xs, ys, res.value.0, res.value.1) && res.value.0 < res.value.1
    ensures res.Success? && !HasPairBelowBound(xs, ys) ==> res.value == (0, 0)
    ensures |xs| < 2 ==> res == Success((0, 0))
  {
    if !Readable(xs, ys) {
      // the scan reaches the pair (0, 1), or (0, |ys|), and reads yCoords past its end
      return Failure(IndexOutOfBounds);
    }
    var n := |xs|;
    var first, second := 0, 0;
    var minDistance := IntMax;
    for i := 0 to n
      invariant minDistance <= IntMax
      invariant minDistance < IntMax ==>
        IsPair(n, first, second) && Distance(xs, ys, first, second) == minDistance && first < i
      invariant minDistance == IntMax ==> first == 0 && second == 0
      invariant forall k, l :: IsPair(n, k, l) && k < i ==> minDistance <= Distance(xs, ys, k, l)
      invariant forall k, l :: IsPair(n, k, l) && k < i && Distance(xs, ys, k, l) == minDistance && minDistance < IntMax ==>
        !Before(k, l, first, second)
    {
      for j := 0 to n
        invariant minDistance <= IntMax
        invariant minDistance < IntMax ==>
          IsPair(n, first, second) && Distance(xs, ys, first, second) == minDistance && Before(first, second, i, j)
        invariant minDistance == IntMax ==> first == 0 && second == 0
        invariant forall k, l :: IsPair(n, k, l) && Before(k, l, i, j) ==> minDistance <= Distance(xs, ys, k, l)
        invariant forall k, l :: IsPair(n, k, l) && Before(k, l, i, j) && Distance(xs, ys, k, l) == minDistance && minDistance < IntMax ==>
          !Before(k, l, first, second)
      {
        if i == j {
          continue;
        }
        var distance := Abs(xs[i] - xs[j]) + Abs(ys[i] - ys[j]);
        if distance < minDistance {
          minDistance := distance;
          first, second := i, j;
        } else if distance == minDistance {
          if i < first || (i == first && j < second) {
            first, second := i, j;
          }
        }
      }
    }
    if HasPairBelowBound(xs, ys) {
      var k, l :| IsPair(n, k, l) && Distance(xs, ys, k, l) < IntMax;
      assert minDistance < IntMax;
      ClosestIsOrdered(xs, ys, first, second);
    }
    return Success((first, second));
  }

  /** The recorded output: for x = [1, 2, 3, 2, 4] and y = [2, 3, 1, 2, 3] the pair is (0, 3). */
  lemma RecordedOutput()
    ensures IsClosest([1, 2, 3, 2, 4], [2, 3, 1, 2, 3], 0, 3)
  {
    var xs, ys := [1, 2, 3, 2, 4], [2, 3, 1, 2, 3];
    forall k, l | IsPair(5, k, l)
      ensures Distance(xs, ys, 0, 3) <= Distance(xs, ys, k, l)
      ensures Distance(xs, ys, k, l) == 1 ==> !Before(k, l, 0, 3)
    {
    }
  }
}
