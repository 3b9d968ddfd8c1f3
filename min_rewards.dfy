/**
 * Minimum rewards ("candy" distribution) over a row of employee ratings.
 *
 * Every employee gets at least one reward and an employee rated higher than
 * an adjacent colleague gets more rewards than that colleague. The two-pass
 * algorithm is proved to produce an assignment meeting both rules whose total
 * is no larger than that of any other assignment meeting them.
 */
module MinRewards {

  /** Sum of a sequence, peeling the last element so that prefixes extend easily. */
  function Sum(s: seq<int>): int
  {
    if s == [] then 0 else Sum(s[..|s| - 1]) + s[|s| - 1]
  }

  /** The two rules an assignment of rewards must satisfy. */
  ghost predicate Fair(ratings: seq<int>, a: seq<int>)
  {
    && |a| == |ratings|
    && (forall i :: 0 <= i < |a| ==> a[i] >= 1)
    && (forall i :: 0 < i < |a| && ratings[i] > ratings[i - 1] ==> a[i] > a[i - 1])
    && (forall i :: 0 < i < |a| && ratings[i - 1] > ratings[i] ==> a[i - 1] > a[i])
  }

  /** Length of the strictly increasing run of ratings that ends at i. */
  function Ascent(ratings: seq<int>, i: nat): (r: nat)
    requires i < |ratings|
    ensures r >= 1
    decreases i
  {
    if i > 0 && ratings[i] > ratings[i - 1] then Ascent(ratings, i - 1) + 1 else 1
  }

  /** Length of the strictly decreasing run of ratings that starts at i. */
  function Descent(ratings: seq<int>, i: nat): (r: nat)
    requires i < |ratings|
    ensures r >= 1
    decreases |ratings| - i
  {
    if i + 1 < |ratings| && ratings[i] > ratings[i + 1] then Descent(ratings, i + 1) + 1 else 1
  }

  function Max(a: int, b: int): int
  {
    if a >= b then a else b
  }

  /** The assignment the two passes compute: the longer of the two runs through each position. */
  function Rewards(ratings: seq<int>): (a: seq<int>)
    ensures |a| == |ratings|
  {
    seq(|ratings|, i requires 0 <= i < |ratings| => Max(Ascent(ratings, i), Descent(ratings, i)))
  }

  lemma RewardsAreFair(ratings: seq<int>)
    ensures Fair(ratings, Rewards(ratings))
  {
    var a := Rewards(ratings);
    forall i | 0 < i < |a| && ratings[i] > ratings[i - 1]
      ensures a[i] > a[i - 1]
    {
      assert Descent(ratings, i - 1) == 1;
    }
    forall i | 0 < i < |a| && ratings[i - 1] > ratings[i]
      ensures a[i - 1] > a[i]
    {
      assert Ascent(ratings, i) == 1;
    }
  }

  /** Any fair assignment gives position i at least the length of the ascending run ending there. */
  lemma {:induction false} FairAboveAscent(ratings: seq<int>, a: seq<int>, i: nat)
    requires Fair(ratings, a) && i < |ratings|
    ensures a[i] >= Ascent(ratings, i)
    decreases i
  {
    if i > 0 && ratings[i] > ratings[i - 1] {
      FairAboveAscent(ratings, a, i - 1);
    }
  }

  /** Any fair assignment gives position i at least the length of the descending run starting there. */
  lemma {:induction false} FairAboveDescent(ratings: seq<int>, a: seq<int>, i: nat)
    requires Fair(ratings, a) && i < |ratings|
    ensures a[i] >= Descent(ratings, i)
    decreases |ratings| - i
  {
    if i + 1 < |ratings| && ratings[i] > ratings[i + 1] {
      FairAboveDescent(ratings, a, i + 1);
    }
  }

  lemma {:induction false} SumMonotone(a: seq<int>, b: seq<int>)
    requires |a| == |b|
    requires forall i :: 0 <= i < |a| ==> a[i] <= b[i]
    ensures Sum(a) <= Sum(b)
    decreases |a|
  {
    if a != [] {
      SumMonotone(a[..|a| - 1], b[..|b| - 1]);
    }
  }

  /** No fair assignment costs less than the computed one. */
  lemma RewardsAreMinimal(ratings: seq<int>, a: seq<int>)
    requires Fair(ratings, a)
    ensures Sum(Rewards(ratings)) <= Sum(a)
  {
    var r := Rewards(ratings);
    forall i | 0 <= i < |r|
      ensures r[i] <= a[i]
    {
      FairAboveAscent(ratings, a, i);
      FairAboveDescent(ratings, a, i);
    }
    SumMonotone(r, a);
  }

  /** Step 2: left to right, a higher rating than the left neighbour earns one more than it. */
  method LeftPass(ratings: seq<int>, rewards: array<int>)
    requires rewards.Length == |ratings|
    requires forall k :: 0 <= k < rewards.Length ==> rewards[k] == 1
    modifies rewards
    ensures forall k :: 0 <= k < rewards.Length ==> rewards[k] == Ascent(ratings, k)
  {
    var n := |ratings|;
    var i := 1;
    while i < n
      invariant n == 0 || 1 <= i <= n
      invariant forall k :: 0 <= k < i && k < n ==> rewards[k] == Ascent(ratings, k)
      invariant forall k :: i <= k < n ==> rewards[k] == 1
    {
      if ratings[i] > ratings[i - 1] {
        rewards[i] := rewards[i - 1] + 1;
      }
      i := i + 1;
    }
  }

  /** Step 3: right to left, a higher rating than the right neighbour needs more than it. */
  method RightPass(ratings: seq<int>, rewards: array<int>)
    requires rewards.Length == |ratings|
    requires forall k :: 0 <= k < rewards.Length ==> rewards[k] == Ascent(ratings, k)
    modifies rewards
    ensures rewards[..] == Rewards(ratings)
  {
    var n := |ratings|;
    assert n > 0 ==> Descent(ratings, n - 1) == 1;
    var i := n - 2;
    while i >= 0
      invariant -2 <= i <= n - 2
      invariant i >= -1 || n == 0
      invariant forall k :: 0 <= k <= i ==> rewards[k] == Ascent(ratings, k)
      invariant forall k :: 0 <= k && i < k < n ==> rewards[k] == Max(Ascent(ratings, k), Descent(ratings, k))
    {
      if ratings[i] > ratings[i + 1] {
        assert Ascent(ratings, i + 1) == 1;
        rewards[i] := Max(rewards[i], rewards[i + 1] + 1);
      }
      i := i - 1;
    }
  }

  /** Step 4: add the rewards up. */
  method Total(rewards: array<int>) returns (total: int)
    ensures total == Sum(rewards[..])
  {
    total := 0;
    for j := 0 to rewards.Length
      invariant total == Sum(rewards[..j])
    {
      assert rewards[..j + 1][..j] == rewards[..j];
      total := total + rewards[j];
    }
    assert rewards[..rewards.Length] == rewards[..];
  }

  /**
   * The source's three passes over a fresh rewards array followed by the summing loop.
   * The total is that of a fair assignment and no fair assignment has a smaller total.
   */
  method MinRewards(ratings: seq<int>) returns (total: int)
    ensures total == Sum(Rewards(ratings))
    ensures exists a :: Fair(ratings, a) && Sum(a) == total
    ensures forall a :: Fair(ratings, a) ==> total <= Sum(a)
    ensures ratings == [] ==> total == 0
  {
    var n := |ratings|;
    var rewards := new int[n];

    // Step 1: everybody starts with one reward.
    for i := 0 to n
      invariant forall k :: 0 <= k < i ==> rewards[k] == 1
    {
      rewards[i] := 1;
    }
    LeftPass(ratings, rewards);
    RightPass(ratings, rewards);
    total := Total(rewards);

    RewardsAreFair(ratings);
    forall a | Fair(ratings, a)
      ensures total <= Sum(a)
    {
      RewardsAreMinimal(ratings, a);
    }
  }

  /** The recorded outputs: [1, 0, 2] needs 5 rewards and [1, 2, 2] needs 4. */
  lemma RecordedOutputs()
    ensures Sum(Rewards([1, 0, 2])) == 5
    ensures Sum(Rewards([1, 2, 2])) == 4
  {
    assert Rewards([1, 0, 2]) == [2, 1, 2];
    assert Sum([2, 1, 2]) == Sum([2, 1]) + 2 == Sum([2]) + 3 == 5;
    assert Rewards([1, 2, 2]) == [1, 2, 1];
    assert Sum([1, 2, 1]) == Sum([1, 2]) + 1 == Sum([1]) + 3 == 4;
  }
}
