/**
 * Reference definitions over the sequence of every elapsed time a recording
 * has received, in the order received. The running aggregates a recording
 * keeps are proved equal to these.
 */
module Samples {
  import opened Units

  /** The sum of all samples. */
  function Sum(s: seq<Elapsed>): (r: int)
    ensures 0 <= r
    ensures s != [] ==> s[|s| - 1] <= r
  {
    if s == [] then 0 else Sum(s[..|s| - 1]) + s[|s| - 1]
  }

  /** The smallest sample, folded from the first to the last as std::min does. */
  function Minimum(s: seq<Elapsed>): (r: Elapsed)
    requires s != []
  {
    if |s| == 1 then s[0]
    else
      var m := Minimum(s[..|s| - 1]);
      if m < s[|s| - 1] then m else s[|s| - 1]
  }

  /** The largest sample, folded from the first to the last as std::max does. */
  function Maximum(s: seq<Elapsed>): (r: Elapsed)
    requires s != []
  {
    if |s| == 1 then s[0]
    else
      var m := Maximum(s[..|s| - 1]);
      if s[|s| - 1] < m then m else s[|s| - 1]
  }

  /** The minimum is one of the samples and no sample is smaller. */
  lemma {:induction false} MinimumIsSmallest(s: seq<Elapsed>)
    requires s != []
    ensures Minimum(s) in s
    ensures forall i | 0 <= i < |s| :: Minimum(s) <= s[i]
  {
    if |s| > 1 {
      var init := s[..|s| - 1];
      MinimumIsSmallest(init);
      assert forall i | 0 <= i < |init| :: s[i] == init[i];
    }
  }

  /** The maximum is one of the samples and no sample is larger. */
  lemma {:induction false} MaximumIsLargest(s: seq<Elapsed>)
    requires s != []
    ensures Maximum(s) in s
    ensures forall i | 0 <= i < |s| :: s[i] <= Maximum(s)
  {
    if |s| > 1 {
      var init := s[..|s| - 1];
      MaximumIsLargest(init);
      assert forall i | 0 <= i < |init| :: s[i] == init[i];
    }
  }

  /** The sum of n samples lies between n times the smallest and n times the largest. */
  lemma {:induction false} SumBetweenExtremes(s: seq<Elapsed>)
    requires s != []
    ensures |s| * Minimum(s) <= Sum(s) <= |s| * Maximum(s)
  {
    if |s| > 1 {
      var init, last := s[..|s| - 1], s[|s| - 1];
      assert s == init + [last];
      SumBetweenExtremes(init);
      MinimumIsSmallest(s);
      MaximumIsLargest(s);
      var n, lo, hi := |init|, Minimum(s), Maximum(s);
      assert Sum(s) == Sum(init) + last;
      assert lo <= Minimum(init) && lo <= last;
      assert Maximum(init) <= hi && last <= hi;
      MulMonotone(n, lo, Minimum(init));
      MulMonotone(n, Maximum(init), hi);
      Distribute(n, lo);
      Distribute(n, hi);
    }
  }

  lemma Distribute(n: nat, a: int)
    ensures (n + 1) * a == n * a + a
  {
  }

  lemma MulMonotone(n: nat, a: int, b: int)
    requires a <= b
    ensures n * a <= n * b
  {
  }

  /**
   * In any unit, the truncated total divided by the number of samples lies
   * between the truncated smallest and the truncated largest sample.
   */
  lemma {:induction false} CastAverageBetweenExtremes(s: seq<Elapsed>, u: Unit)
    requires s != []
    ensures DurationCast(Minimum(s), u) <= DurationCast(Sum(s), u) / |s|
    ensures DurationCast(Sum(s), u) / |s| <= DurationCast(Maximum(s), u)
  {
    SumBetweenExtremes(s);
    AverageBounds(|s|, Minimum(s), Sum(s), u);
    AverageBoundsAbove(|s|, Sum(s), Maximum(s), u);
  }

  lemma AverageBounds(n: int, lo: int, total: int, u: int)
    requires 0 < n && 0 < u && 0 <= lo && n * lo <= total
    ensures lo / u <= (total / u) / n
  {
    var qLo := lo / u;
    DivTimesBelow(lo, u);
    MulMonotone(n, qLo * u, lo);
    Reassociate(n, qLo, u);
    FloorLower(n * qLo, total, u);
    Commute(n, qLo);
    FloorLower(qLo, total / u, n);
  }

  lemma AverageBoundsAbove(n: int, total: int, hi: int, u: int)
    requires 0 < n && 0 < u && 0 <= hi && 0 <= total <= n * hi
    ensures (total / u) / n <= hi / u
  {
    var qTotal := total / u;
    var q := qTotal / n;
    DivTimesBelow(total, u);
    DivTimesBelow(qTotal, n);
    MulMonotone(u, q * n, qTotal);
    Reassociate(u, q, n);
    Commute(u, q);
    Commute(u, qTotal);
    Commute(n, hi);
    assert (q * u) * n <= hi * n;
    MulCancel(q * u, hi, n);
    FloorLower(q, hi, u);
  }

  /** Truncating division by d leaves a non-negative quotient that times d does not exceed x. */
  lemma DivTimesBelow(x: int, d: int)
    requires 0 <= x && 0 < d
    ensures 0 <= x / d && (x / d) * d <= x
  {
  }

  lemma Reassociate(a: int, b: int, c: int)
    ensures a * (b * c) == (a * b) * c
  {
  }

  lemma Commute(a: int, b: int)
    ensures a * b == b * a
  {
  }

  lemma MulCancel(a: int, b: int, n: int)
    requires 0 < n && a * n <= b * n
    ensures a <= b
  {
    assert (b - a) * n >= 0;
  }
}
