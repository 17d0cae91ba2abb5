/**
 * metric_aggregator: the registry from metric name to its block_recording,
 * the unit-generic queries over it, and the text reports built from them.
 */
module Aggregator {
  import opened Units
  import opened Samples
  import opened Recording
  import opened Report

  class MetricAggregator {
    var metrics: map<string, BlockRecording>

    /** Every recorded name with all the samples it received, oldest first. */
    ghost var recorded: map<string, seq<Elapsed>>

    /** The name each recording is stored under. */
    ghost var owner: map<BlockRecording, string>

    /**
     * Each name owns its own recording (the C++ map holds them by value), each
     * recording is consistent and holds the samples recorded under its name,
     * and a name is only ever present once it has received a sample.
     */
    ghost predicate Valid()
      reads this, metrics.Values
    {
      && recorded.Keys == metrics.Keys
      && (forall name | name in metrics ::
            && metrics[name].Valid()
            && metrics[name].samples == recorded[name]
            && recorded[name] != []
            && metrics[name] in owner && owner[metrics[name]] == name)
    }

    constructor ()
      ensures Valid() && recorded == map[]
    {
      metrics, recorded, owner := map[], map[], map[];
    }

    /**
     * update_metric: a known name's recording takes the sample in place; an
     * unknown name gets a fresh recording that has already taken it. No other
     * name gains, loses or changes samples.
     */
    method UpdateMetric(name: string, elapsed: Elapsed)
      requires Valid()
      modifies this, metrics.Values
      ensures Valid()
      ensures recorded == old(recorded)[name := (if name in old(recorded) then old(recorded)[name] else []) + [elapsed]]
      ensures forall other | other in old(metrics) :: other in metrics && metrics[other] == old(metrics[other])
      ensures fresh(metrics.Values - old(metrics.Values))
    {
      if name in metrics {
        UpdateExisting(name, elapsed);
      } else {
        var recording := new BlockRecording();
        recording.Update(elapsed);
        assert name !in recorded;
        Emplace(name, recording);
        assert [] + [elapsed] == [elapsed];
      }
    }

    /** The recording already stored under name takes the sample in place. */
    method UpdateExisting(name: string, elapsed: Elapsed)
      requires Valid() && name in metrics
      modifies metrics[name], this`recorded
      ensures Valid() && metrics == old(metrics)
      ensures recorded == old(recorded)[name := old(recorded)[name] + [elapsed]]
    {
      var recording := metrics[name];
      recording.Update(elapsed);
      recorded := recorded[name := recorded[name] + [elapsed]];
    }

    /** A recording that no name owns yet is stored under the new name. */
    method Emplace(name: string, recording: BlockRecording)
      requires Valid() && name !in metrics
      requires recording.Valid() && recording.samples != [] && recording !in owner
      modifies this
      ensures Valid()
      ensures recorded == old(recorded)[name := recording.samples]
      ensures metrics == old(metrics)[name := recording]
    {
      metrics := metrics[name := recording];
      owner := owner[recording := name];
      recorded := recorded[name := recording.samples];
    }

    /** times_entered: how many samples the name received; 0 for an unknown name. */
    function TimesEntered(name: string): (r: nat)
      reads this, metrics.Values
      requires Valid()
      ensures name !in recorded ==> r == 0
      ensures name in recorded ==> r == |recorded[name]| && 1 <= r
    {
      if name in metrics then metrics[name].TimesEntered() else 0
    }

    /** min<T>: the smallest sample, truncated to the unit; 0 for an unknown name. */
    function Min(name: string, u: Unit): (r: int)
      reads this, metrics.Values
      requires Valid()
      ensures name !in recorded ==> r == 0
      ensures name in recorded ==> r == DurationCast(Minimum(recorded[name]), u)
    {
      if name !in metrics then 0 else DurationCast(metrics[name].Min(), u)
    }

    /** max<T>: the largest sample, truncated to the unit; 0 for an unknown name. */
    function Max(name: string, u: Unit): (r: int)
      reads this, metrics.Values
      requires Valid()
      ensures name !in recorded ==> r == 0
      ensures name in recorded ==> r == DurationCast(Maximum(recorded[name]), u)
    {
      if name !in metrics then 0 else DurationCast(metrics[name].Max(), u)
    }

    /**
     * min_max<T>: the truncated minimum and maximum together; the first never
     * exceeds the second.
     */
    function MinMax(name: string, u: Unit): (r: (int, int))
      reads this, metrics.Values
      requires Valid()
      ensures name !in recorded ==> r == (0, 0)
      ensures name in recorded ==> r.0 == DurationCast(Minimum(recorded[name]), u)
      ensures name in recorded ==> r.1 == DurationCast(Maximum(recorded[name]), u)
      ensures r.0 <= r.1
    {
      MinAtMostMax(name, u);
      (Min(name, u), Max(name, u))
    }

    /** In every unit, the minimum a query reports never exceeds the maximum. */
    lemma MinAtMostMax(name: string, u: Unit)
      requires Valid()
      ensures Min(name, u) <= Max(name, u)
    {
      if name in metrics {
        var s := metrics[name].samples;
        DurationCastMonotonic(Minimum(s), Maximum(s), u);
      }
    }

    /**
     * average<T>: the total, truncated to the unit, divided with truncation by
     * the entry count; 0 for an unknown name.
     */
    function Average(name: string, u: Unit): (r: int)
      reads this, metrics.Values
      requires Valid()
      ensures name !in recorded ==> r == 0
      ensures name in recorded ==> r == DurationCast(Sum(recorded[name]), u) / |recorded[name]|
    {
      if name !in metrics then 0
      else DurationCast(metrics[name].Total(), u) / metrics[name].TimesEntered()
    }

    /** total<T>: the sum of the samples, truncated to the unit; 0 for an unknown name. */
    function Total(name: string, u: Unit): (r: int)
      reads this, metrics.Values
      requires Valid()
      ensures name !in recorded ==> r == 0
      ensures name in recorded ==> r == DurationCast(Sum(recorded[name]), u)
    {
      if name !in metrics then 0 else DurationCast(metrics[name].Total(), u)
    }

    /** In every unit, the reported average lies between the reported minimum and maximum. */
    lemma AverageWithinMinMax(name: string, u: Unit)
      requires Valid()
      ensures Min(name, u) <= Average(name, u) <= Max(name, u)
    {
      if name in metrics {
        CastAverageBetweenExtremes(recorded[name], u);
      }
    }

    /**
     * When no recorded sample is below lo, no statistic of the name, in any
     * unit, is below lo truncated to that unit.
     */
    lemma LowerBoundCarries(name: string, lo: Elapsed, u: Unit)
      requires Valid() && name in recorded
      requires forall i | 0 <= i < |recorded[name]| :: lo <= recorded[name][i]
      ensures DurationCast(lo, u) <= Min(name, u) <= Average(name, u) <= Max(name, u)
      ensures DurationCast(lo, u) <= Total(name, u)
    {
      var s := recorded[name];
      MinimumIsSmallest(s);
      DurationCastMonotonic(lo, Minimum(s), u);
      DurationCastMonotonic(lo, Sum(s), u);
      AverageWithinMinMax(name, u);
    }

    /**
     * dump_metrics<T>: nothing for an unknown name; a unit that differs from
     * its common type with seconds is reported in seconds instead; otherwise
     * the six-line report in the unit itself, with stringify_unit's suffix.
     */
    function DumpMetrics(name: string, u: Unit): (lines: seq<string>)
      reads this, metrics.Values
      requires Valid()
      ensures name !in recorded ==> lines == []
      ensures name in recorded ==> |lines| == 6
      ensures name in recorded ==> lines == Block(name, TimesEntered(name),
        Total(name, ReportUnit(u)), Average(name, ReportUnit(u)),
        Min(name, ReportUnit(u)), Max(name, ReportUnit(u)), Suffix(ReportUnit(u)))
      decreases if CommonPeriodWithSeconds(u) == u then 0 else 1
    {
      if name !in metrics then []
      else if CommonPeriodWithSeconds(u) != u then
        assert CommonPeriodWithSeconds(Seconds) == Seconds;
        DumpMetrics(name, Seconds)
      else
        Block(name, TimesEntered(name), Total(name, u), Average(name, u), Min(name, u), Max(name, u), Suffix(u))
    }

    /**
     * The report of a recorded name opens with its header, and every statistic
     * reads back from its line: the entry count without a suffix, the others
     * in the report unit, followed by that unit's suffix.
     */
    lemma ReportReadsBack(name: string, u: Unit)
      requires Valid() && name in recorded
      ensures var lines, unit := DumpMetrics(name, u), ReportUnit(u);
        && lines[0] == name + " metrics:"
        && ParseField(lines[1], "Entered", "") == Some(|recorded[name]|)
        && ParseField(lines[2], "Total", Suffix(unit)) == Some(DurationCast(Sum(recorded[name]), unit))
        && ParseField(lines[3], "Average", Suffix(unit)) == Some(DurationCast(Sum(recorded[name]), unit) / |recorded[name]|)
        && ParseField(lines[4], "Min", Suffix(unit)) == Some(DurationCast(Minimum(recorded[name]), unit))
        && ParseField(lines[5], "Max", Suffix(unit)) == Some(DurationCast(Maximum(recorded[name]), unit))
    {
      var unit := ReportUnit(u);
      BlockRoundTrip(name, TimesEntered(name), Total(name, unit), Average(name, unit),
        Min(name, unit), Max(name, unit), Suffix(unit));
    }

    /**
     * A report asked for in a unit coarser than a second, minutes among them,
     * is the report in seconds, labelled "s".
     */
    lemma CoarseReportIsSecondsReport(name: string, u: Unit)
      requires Valid() && Seconds <= u
      ensures DumpMetrics(name, u) == DumpMetrics(name, Seconds)
      ensures DumpMetrics(name, Minutes) == DumpMetrics(name, Seconds)
      ensures Suffix(ReportUnit(u)) == "s"
    {
      assert ReportUnit(Minutes) == Seconds;
    }

    /**
     * As written, a report in centiseconds of at least one centisecond in total
     * carries, on its Total line, the count of centiseconds followed by "s":
     * a number that is not the count of seconds.
     */
    lemma CentisecondReportMislabelled(name: string)
      requires Valid() && name in recorded && Centiseconds <= Sum(recorded[name])
      ensures ParseField(DumpMetrics(name, Centiseconds)[2], "Total", "s")
        == Some(DurationCast(Sum(recorded[name]), Centiseconds))
      ensures DurationCast(Sum(recorded[name]), Centiseconds) != DurationCast(Sum(recorded[name]), Seconds)
      ensures DumpMetrics(name, Centiseconds) != LabelledDumpMetrics(name, Centiseconds)
    {
      CentisecondsReportMislabelled();
      ReportReadsBack(name, Centiseconds);
      LabelledReportReadsBack(name, Centiseconds);
      CentisecondsExceedSeconds(Sum(recorded[name]));
    }

    /**
     * dump_metrics<T> corrected so that the suffix always names the unit of the
     * counts: the report is in LabelledReportUnit(u).
     */
    function LabelledDumpMetrics(name: string, u: Unit): (lines: seq<string>)
      reads this, metrics.Values
      requires Valid()
      ensures name !in recorded ==> lines == []
      ensures name in recorded ==> lines == Block(name, TimesEntered(name),
        Total(name, LabelledReportUnit(u)), Average(name, LabelledReportUnit(u)),
        Min(name, LabelledReportUnit(u)), Max(name, LabelledReportUnit(u)), Suffix(LabelledReportUnit(u)))
    {
      if name !in metrics then []
      else
        var unit := LabelledReportUnit(u);
        Block(name, TimesEntered(name), Total(name, unit), Average(name, unit), Min(name, unit), Max(name, unit), Suffix(unit))
    }

    /**
     * In the corrected report every statistic reads back from its line in the
     * very unit its suffix names.
     */
    lemma LabelledReportReadsBack(name: string, u: Unit)
      requires Valid() && name in recorded
      ensures var lines, unit := LabelledDumpMetrics(name, u), LabelledReportUnit(u);
        && TickOfSuffix(Suffix(unit)) == unit
        && ParseField(lines[1], "Entered", "") == Some(|recorded[name]|)
        && ParseField(lines[2], "Total", Suffix(unit)) == Some(DurationCast(Sum(recorded[name]), unit))
        && ParseField(lines[3], "Average", Suffix(unit)) == Some(DurationCast(Sum(recorded[name]), unit) / |recorded[name]|)
        && ParseField(lines[4], "Min", Suffix(unit)) == Some(DurationCast(Minimum(recorded[name]), unit))
        && ParseField(lines[5], "Max", Suffix(unit)) == Some(DurationCast(Maximum(recorded[name]), unit))
    {
      var unit := LabelledReportUnit(u);
      BlockRoundTrip(name, TimesEntered(name), Total(name, unit), Average(name, unit),
        Min(name, unit), Max(name, unit), Suffix(unit));
    }

    /**
     * Wherever the header labels its own choice of unit correctly, which takes
     * in nanoseconds, microseconds, milliseconds, seconds and every unit
     * coarser than a second, the corrected report is the header's report.
     */
    lemma LabelledAgreesWithHeader(name: string, u: Unit)
      requires Valid()
      requires TickOfSuffix(Suffix(ReportUnit(u))) == ReportUnit(u)
      ensures LabelledDumpMetrics(name, u) == DumpMetrics(name, u)
    {
      LabelledReportUnitDiffersOnlyWhenMislabelled(u);
      ReportUnitIsUnitIffDividesSecond(u);
    }

    /** The reports of the given names in order, each followed by an empty line. */
    function DumpSequence(order: seq<string>, u: Unit): (lines: seq<string>)
      reads this, metrics.Values
      requires Valid()
      ensures |order| <= |lines|
      ensures order != [] ==> lines[|lines| - 1] == ""
    {
      if order == [] then []
      else DumpSequence(order[..|order| - 1], u) + DumpMetrics(order[|order| - 1], u) + [""]
    }

    lemma DumpSequenceAppend(order: seq<string>, name: string, u: Unit)
      requires Valid()
      ensures DumpSequence(order + [name], u) == DumpSequence(order, u) + DumpMetrics(name, u) + [""]
    {
      assert (order + [name])[..|order|] == order;
    }

    /** Seven lines per recorded name: its six-line report and an empty line. */
    lemma {:induction false} DumpSequenceLength(order: seq<string>, u: Unit)
      requires Valid()
      requires forall i | 0 <= i < |order| :: order[i] in metrics
      ensures |DumpSequence(order, u)| == 7 * |order|
    {
      if order != [] {
        var init, last := order[..|order| - 1], order[|order| - 1];
        DumpSequenceLength(init, u);
        assert |DumpMetrics(last, u)| == 6;
      }
    }

    /**
     * dump_all<T>: walks the map in its iteration order, writing each name's
     * report followed by an empty line.
     */
    method DumpAll(u: Unit) returns (lines: seq<string>, order: seq<string>)
      requires Valid()
      ensures IsEnumeration(order, metrics.Keys)
      ensures lines == DumpSequence(order, u)
      ensures |lines| == 7 * |metrics|
    {
      order := Enumerate(metrics.Keys);
      lines := DumpInOrder(order, u);
      DumpSequenceLength(order, u);
    }

    /** Writes the report of each name in order, each followed by an empty line. */
    method DumpInOrder(order: seq<string>, u: Unit) returns (lines: seq<string>)
      requires Valid()
      ensures lines == DumpSequence(order, u)
    {
      lines := [];
      for i := 0 to |order|
        invariant lines == DumpSequence(order[..i], u)
      {
        DumpSequenceAppend(order[..i], order[i], u);
        PrefixExtend(order, i);
        lines := lines + DumpMetrics(order[i], u) + [""];
      }
      assert order[..|order|] == order;
    }
  }

  lemma PrefixExtend<T>(s: seq<T>, i: nat)
    requires i < |s|
    ensures s[..i + 1] == s[..i] + [s[i]]
  {
  }

  /** order lists every element of keys exactly once. */
  ghost predicate IsEnumeration(order: seq<string>, keys: set<string>)
  {
    && |order| == |keys|
    && (forall i | 0 <= i < |order| :: order[i] in keys)
    && (forall name | name in keys :: name in order)
    && (forall i, j | 0 <= i < j < |order| :: order[i] != order[j])
  }

  /**
   * The iteration order of an unordered map's keys: every key once, in an
   * order nothing specifies.
   */
  method Enumerate(keys: set<string>) returns (order: seq<string>)
    ensures IsEnumeration(order, keys)
  {
    var remaining := keys;
    order := [];
    while remaining != {}
      invariant remaining <= keys
      invariant |order| + |remaining| == |keys|
      invariant forall i | 0 <= i < |order| :: order[i] in keys && order[i] !in remaining
      invariant forall name | name in keys :: name in remaining || name in order
      invariant forall i, j | 0 <= i < j < |order| :: order[i] != order[j]
      decreases remaining
    {
      var name :| name in remaining;
      order := order + [name];
      remaining := remaining - {name};
    }
  }
}
