/**
 * Critical temperature search (the egg-drop problem): the fewest measurements
 * that identify the critical level among `levels` temperature levels when
 * `samples` identical samples are available.
 *
 * The program fills a table dp[i][m], the number of levels that i samples and
 * m measurements can cover, one column m at a time, and stops at the first
 * column whose last row reaches `levels`.
 */
module CriticalTemperature {
  import opened Wrappers

  /** Levels coverable with i samples and m measurements: the table's recurrence. */
  function Coverage(i: nat, m: nat): nat
  {
    if i == 0 || m == 0 then 0 else Coverage(i - 1, m - 1) + Coverage(i, m - 1) + 1
  }

  /** With at least one sample every extra measurement covers at least one more level. */
  lemma {:induction false} CoverageAtLeastMeasurements(i: nat, m: nat)
    requires i >= 1
    ensures Coverage(i, m) >= m
  {
    if m > 0 {
      CoverageAtLeastMeasurements(i, m - 1);
    }
  }

  /** More measurements never cover fewer levels. */
  lemma CoverageGrowsWithMeasurements(i: nat, m: nat)
    ensures Coverage(i, m) <= Coverage(i, m + 1)
  {
  }

  /** `attempts` is the least number of measurements whose coverage reaches `levels`. */
  ghost predicate LeastAttempts(samples: nat, levels: nat, attempts: nat)
  {
    && Coverage(samples, attempts) >= levels
    && forall m :: 0 <= m < attempts ==> Coverage(samples, m) < levels
  }

  /**
   * The source's table-filling loop over a (samples + 1) x (levels + 1) table.
   * A dimension below zero cannot be allocated; with samples = -1 the table has no
   * row `samples`, and with levels = -1 its rows have no column 0. With no samples
   * and at least one level the column index runs past the table. The last three
   * are index-out-of-bounds errors.
   */
  method FindCriticalTemperature(samples: int, levels: int) returns (res: Result<nat>)
    ensures samples < -1 || levels < -1 ==> res == Failure(NegativeArraySize)
    ensures res.Failure? <==> samples < 0 || levels < 0 || (samples == 0 && levels >= 1)
    ensures res.Failure? && samples >= -1 && levels >= -1 ==> res.error == IndexOutOfBounds
    ensures res.Success? ==> samples >= 0 && levels >= 0 && LeastAttempts(samples, levels, res.value) && res.value <= levels
    ensures samples >= 0 && levels == 0 ==> res == Success(0)
  {
    if samples + 1 < 0 || levels + 1 < 0 {
      return Failure(NegativeArraySize);
    }
    if samples < 0 || levels < 0 {
      // dp[samples] does not exist, or dp[samples][0] does not
      return Failure(IndexOutOfBounds);
    }
    var dp := new nat[samples + 1, levels + 1]((i, m) => 0);
    var attempts: nat := 0;
    while dp[samples, attempts] < levels
      invariant attempts <= levels
      invariant forall m {:trigger Coverage(samples, m)} :: 0 <= m < attempts ==> Coverage(samples, m) < levels
      invariant forall i, m {:trigger dp[i, m]} :: 0 <= i <= samples && 0 <= m <= attempts ==> dp[i, m] == Coverage(i, m)
      invariant forall m :: 0 <= m <= levels ==> dp[0, m] == 0
      decreases levels - attempts
    {
      if attempts == levels {
        // the next column does not exist
        if samples >= 1 {
          CoverageAtLeastMeasurements(samples, attempts);
          assert false;
        }
        return Failure(IndexOutOfBounds);
      }
      assert Coverage(samples, attempts) < levels;
      attempts := attempts + 1;
      for i := 1 to samples + 1
        invariant forall r, m {:trigger dp[r, m]} :: 0 <= r <= samples && 0 <= m < attempts ==> dp[r, m] == Coverage(r, m)
        invariant forall m :: 0 <= m <= levels ==> dp[0, m] == 0
        invariant forall r {:trigger dp[r, attempts]} :: 0 <= r < i ==> dp[r, attempts] == Coverage(r, attempts)
      {
        dp[i, attempts] := dp[i - 1, attempts - 1] + dp[i, attempts - 1] + 1;
      }
    }
    if samples == 0 && levels >= 1 {
      assert false;
    }
    return Success(attempts);
  }

  /** The recorded outputs: (1, 2) needs 2 measurements, (2, 6) needs 3 and (3, 14) needs 4. */
  lemma RecordedOutputs()
    ensures LeastAttempts(1, 2, 2)
    ensures LeastAttempts(2, 6, 3)
    ensures LeastAttempts(3, 14, 4)
  {
    assert Coverage(1, 1) == 1 && Coverage(1, 2) == 2;
    assert Coverage(2, 2) == 3 && Coverage(2, 3) == 6;
    assert Coverage(3, 3) == 7 && Coverage(3, 4) == 14;
    forall m | 0 <= m < 3 ensures Coverage(2, m) < 6 {
      CoverageGrowsWithMeasurements(2, m);
      if m < 2 { CoverageGrowsWithMeasurements(2, m + 1); }
    }
    forall m | 0 <= m < 4 ensures Coverage(3, m) < 14 {
      if m < 3 { CoverageGrowsWithMeasurements(3, m); }
      if m < 2 { CoverageGrowsWithMeasurements(3, m + 1); }
      if m < 1 { CoverageGrowsWithMeasurements(3, m + 2); }
    }
  }
}
