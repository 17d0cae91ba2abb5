/**
 * block_recording: the running aggregates of one metric. Each update bumps
 * the entry count, adds to the running total and folds the sample into the
 * running minimum and maximum; no sample is stored.
 */
module Recording {
  import opened Units
  import opened Samples

  class BlockRecording {
    var timesEntered: nat
    var total: int
    var minimum: int
    var maximum: int

    /** Every elapsed time this recording has received, oldest first. */
    ghost var samples: seq<Elapsed>

    /**
     * The four fields are the aggregates of the samples. While there are none,
     * the minimum and maximum hold the nanoseconds::max() and
     * nanoseconds::min() sentinels they start from.
     */
    ghost predicate Valid()
      reads this
    {
      && timesEntered == |samples|
      && total == Sum(samples)
      && (samples == [] ==> minimum == MaxNanos && maximum == MinNanos)
      && (samples != [] ==> minimum == Minimum(samples) && maximum == Maximum(samples))
    }

    constructor ()
      ensures Valid() && samples == []
    {
      timesEntered, total := 0, 0;
      minimum, maximum := MaxNanos, MinNanos;
      samples := [];
    }

    /** Records one more elapsed time. */
    method Update(elapsed: Elapsed)
      requires Valid()
      modifies this
      ensures Valid()
      ensures samples == old(samples) + [elapsed]
      ensures TimesEntered() == old(TimesEntered()) + 1
      ensures Total() == old(Total()) + elapsed
    {
      timesEntered := timesEntered + 1;
      total := total + elapsed;
      // std::min(elapsed, min_) and std::max(elapsed, max_)
      minimum := if minimum < elapsed then minimum else elapsed;
      maximum := if elapsed < maximum then maximum else elapsed;
      samples := samples + [elapsed];
      assert samples[..|samples| - 1] == old(samples);
    }

    /** How many times the metric was entered: the number of samples. */
    function TimesEntered(): (r: nat)
      reads this
      requires Valid()
      ensures r == |samples|
    {
      timesEntered
    }

    /** The sum of every elapsed time received. */
    function Total(): (r: int)
      reads this
      requires Valid()
      ensures r == Sum(samples)
      ensures 0 <= r
    {
      total
    }

    /** The smallest elapsed time received, or 0 before the first one. */
    function Min(): (r: int)
      reads this
      requires Valid()
      ensures samples == [] ==> r == 0
      ensures samples != [] ==> r in samples && forall i :: 0 <= i < |samples| ==> r <= samples[i]
    {
      if timesEntered > 0 then MinimumIsSmallest(samples); minimum else 0
    }

    /** The largest elapsed time received, or 0 before the first one. */
    function Max(): (r: int)
      reads this
      requires Valid()
      ensures samples == [] ==> r == 0
      ensures samples != [] ==> r in samples && forall i :: 0 <= i < |samples| ==> samples[i] <= r
    {
      if timesEntered > 0 then MaximumIsLargest(samples); maximum else 0
    }
  }
}
