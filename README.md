# cpp-metrics: block recordings and the metric aggregator

The metrics header `mtr/metrics.hpp` times named blocks of code. It keeps one
`block_recording` per metric name inside a `metric_aggregator`. Each recording
keeps four running aggregates of the elapsed times it was given: how often it
was entered, the total, the minimum and the maximum. The aggregator answers
queries in any `std::chrono` unit the caller names, and writes a six-line text
report for one metric (`dump_metrics`) or for every metric (`dump_all`).

This project models that core in Dafny:

- `units.dfy` (module `Units`): a unit is the number of nanoseconds in one of
  its ticks. `DurationCast` is `std::chrono::duration_cast`, truncating toward
  zero. `CommonPeriodWithSeconds` is the period of
  `std::common_type_t<T, std::chrono::seconds>`, the greatest common divisor of
  the two periods. `ReportUnit` is the header's own rule for choosing the unit
  a report is written in. `Suffix` is `stringify_unit`.
- `samples.dfy` (module `Samples`): reference definitions over the sequence of
  every elapsed time received: `Sum`, `Minimum` and `Maximum`. `Minimum` and
  `Maximum` fold from the first sample to the last, in the argument order of
  `std::min` and `std::max`.
- `recording.dfy` (module `Recording`): `block_recording` as a class whose
  fields are updated in place. A ghost field holds the samples it has received.
  Its invariant says that the four fields are the aggregates of those samples.
- `report.dfy` (module `Report`): the text of a report. An integer is written
  the way a stream writes it. A parser reads each statistic back out of its
  line.
- `aggregator.dfy` (module `Aggregator`): `metric_aggregator` as a class holding
  a map from name to recording, plus a ghost map from each name to its samples.
  It has the update, every query, `dump_metrics` and `dump_all`.

An elapsed time is a nanosecond count between 0 and the `int64_t` maximum.
For such values, truncating division and the unsigned division that `average`
performs agree with Dafny's division. A report is a sequence of lines, and
`std::endl` ends each line.

Three points about the header, read against its own files:

- `test/block_recording.t.cpp:15-38` checks a ring buffer of the most recent
  samples (`MAX_RECORDINGS`, `begin`, `end`). The header has no such buffer:
  `block_recording` keeps running aggregates over every sample it received,
  and so does the model.
- The comment at `include/mtr/metrics.hpp:252-253` sends only units "larger"
  than a second to seconds. The condition at `:254` sends every unit that differs
  from its common type with seconds. For units whose count has the same type
  as the count of seconds, that is every unit of which a second is not a whole
  number of ticks, so a 3 ns or a 7 ms unit is reported in seconds too.
  `Units.ReportUnitIsUnitIffDividesSecond` states this rule, and the model
  follows the condition, not the comment.
- `test/metric_aggregator.t.cpp:87` expects four "ns" in a nanosecond report:
  the Total, Average, Min and Max lines carry the suffix and the Entered line
  does not. `Aggregator.MetricAggregator.ReportReadsBack` states this layout.

## Model

| member | source | states |
|---|---|---|
| Units.DurationCast | include/mtr/metrics.hpp:235-243 | casting n nanoseconds to a unit of period p gives r, with r*p <= n < r*p + p for n >= 0, and the mirror bound for n < 0, i.e. truncation toward zero |
| Units.DurationCastMonotonic | include/mtr/metrics.hpp:199-217 | casting never reorders two non-negative durations |
| Units.CommonPeriodWithSeconds | include/mtr/metrics.hpp:254 | the common period with seconds is at most one second and at most the unit, and equals the unit when it divides a second |
| Units.ReportUnit | include/mtr/metrics.hpp:252-257 | for a unit whose count has the type of the count of seconds, the header's report unit is never coarser than a second; every unit coarser than a second gives seconds; a unit that divides a second is kept |
| Units.ReportUnitIsUnitIffDividesSecond | include/mtr/metrics.hpp:252-257 | for a unit whose count has the type of the count of seconds, the header reports in u exactly when a second is a whole number of u's ticks, and in seconds otherwise |
| Units.Suffix | include/mtr/metrics.hpp:108-125 | the suffix is "ns", "us" or "ms" exactly for those three units, and "s" exactly for every other unit |
| Units.CentisecondsReportMislabelled | include/mtr/metrics.hpp:252-263 | the header keeps centiseconds as the report unit but labels the counts "s" |
| Units.LabelledReportUnit | include/mtr/metrics.hpp:252-263 | the corrected report unit is the asked unit or seconds, and the suffix it gets always names it |
| Units.LabelledReportUnitDiffersOnlyWhenMislabelled | include/mtr/metrics.hpp:252-263 | the corrected and the header's report units differ exactly when the unit divides a second and its suffix names another unit |
| Units.HeaderLabelsNamedAndCoarseUnits | include/mtr/metrics.hpp:108-125 | for ns, us, ms and every unit of a second or coarser, the header's suffix names the unit it reports in |
| Samples.MinimumIsSmallest | include/mtr/metrics.hpp:130 | the folded minimum is one of the samples and no sample is below it |
| Samples.MaximumIsLargest | include/mtr/metrics.hpp:131 | the folded maximum is one of the samples and no sample is above it |
| Samples.SumBetweenExtremes | include/mtr/metrics.hpp:127-132 | n samples sum to between n times the minimum and n times the maximum |
| Samples.CastAverageBetweenExtremes | include/mtr/metrics.hpp:224-233 | in every unit, the truncated total divided by the count lies between the truncated minimum and the truncated maximum |
| Recording.BlockRecording.constructor | include/mtr/metrics.hpp:38-43 | a new recording has no samples, and its minimum and maximum hold the nanoseconds::max() and nanoseconds::min() sentinels |
| Recording.BlockRecording.Update | include/mtr/metrics.hpp:127-132 | update appends the sample, adds one to the count and the sample to the total, and keeps every field equal to the aggregate of all samples |
| Recording.BlockRecording.TimesEntered | include/mtr/metrics.hpp:134-136 | the count is the number of samples received |
| Recording.BlockRecording.Total | include/mtr/metrics.hpp:138-140 | the total is the sum of the samples received |
| Recording.BlockRecording.Min | include/mtr/metrics.hpp:142-144 | 0 before the first sample; afterwards a received sample that no sample is below |
| Recording.BlockRecording.Max | include/mtr/metrics.hpp:146-148 | 0 before the first sample; afterwards a received sample that no sample is above |
| Report.Decimal | include/mtr/metrics.hpp:262 | a count is written as non-empty decimal digits without a leading zero |
| Report.DecimalRoundTrip | include/mtr/metrics.hpp:262 | the digits written for a count read back as that count |
| Report.IntString | include/mtr/metrics.hpp:262-266 | a count is written with a leading minus sign exactly when it is negative, followed by its digits |
| Report.IntRoundTrip | include/mtr/metrics.hpp:263-266 | a signed count written with its minus sign reads back as that count |
| Report.Field | include/mtr/metrics.hpp:263-266 | a statistics line starts with a tab, the title and ": ", and ends with the unit suffix, the count lying in between |
| Report.FieldRoundTrip | include/mtr/metrics.hpp:262-266 | one statistics line gives back exactly the value written into it |
| Report.Block | include/mtr/metrics.hpp:261-266 | a report has six lines, the first being the name followed by " metrics:" |
| Report.BlockRoundTrip | include/mtr/metrics.hpp:261-266 | the count reads back from the Entered line without a suffix, and total, average, min and max each read back from their line with the unit suffix |
| Aggregator.MetricAggregator.constructor | include/mtr/metrics.hpp:101-105 | a new aggregator has recorded nothing |
| Aggregator.MetricAggregator.UpdateMetric | include/mtr/metrics.hpp:178-188 | the sample is appended to the name's samples, and an unknown name starts with just that sample; every other name keeps its recording and its samples |
| Aggregator.MetricAggregator.UpdateExisting | include/mtr/metrics.hpp:179-181 | a known name's recording takes the sample in place, and the map is unchanged |
| Aggregator.MetricAggregator.Emplace | include/mtr/metrics.hpp:182-187 | a recording that already took the sample is stored under the new name, and every other entry is unchanged |
| Aggregator.MetricAggregator.TimesEntered | include/mtr/metrics.hpp:190-197 | 0 for an unknown name; otherwise the number of samples recorded under it, at least 1 |
| Aggregator.MetricAggregator.Min | include/mtr/metrics.hpp:199-207 | 0 for an unknown name; otherwise the smallest sample cast to the unit |
| Aggregator.MetricAggregator.Max | include/mtr/metrics.hpp:209-217 | 0 for an unknown name; otherwise the largest sample cast to the unit |
| Aggregator.MetricAggregator.MinMax | include/mtr/metrics.hpp:219-222 | the pair of the cast minimum and the cast maximum, (0, 0) for an unknown name, the first never above the second |
| Aggregator.MetricAggregator.MinAtMostMax | include/mtr/metrics.hpp:219-222 | in every unit, the reported minimum is at most the reported maximum |
| Aggregator.MetricAggregator.Average | include/mtr/metrics.hpp:224-233 | 0 for an unknown name; otherwise the total cast to the unit, divided with truncation by the number of samples |
| Aggregator.MetricAggregator.Total | include/mtr/metrics.hpp:235-243 | 0 for an unknown name; otherwise the sum of the samples cast to the unit |
| Aggregator.MetricAggregator.AverageWithinMinMax | include/mtr/metrics.hpp:224-233 | in every unit, min <= average <= max |
| Aggregator.MetricAggregator.LowerBoundCarries | test/metric_aggregator.t.cpp:60-65 | when no sample is below a bound, min, average, max and total in any unit are all at least the bound cast to that unit |
| Aggregator.MetricAggregator.DumpMetrics | include/mtr/metrics.hpp:245-267 | nothing for an unknown name; otherwise the six-line report of count, total, average, min and max in the header's report unit, with that unit's suffix |
| Aggregator.MetricAggregator.ReportReadsBack | include/mtr/metrics.hpp:259-266 | the report starts with the name's header; the count reads back from the Entered line without a suffix, and each of the other statistics reads back from its line, in the report unit, with that unit's suffix |
| Aggregator.MetricAggregator.CoarseReportIsSecondsReport | test/metric_aggregator.t.cpp:89-90 | a report asked for in minutes, or in any unit coarser than a second, is the seconds report and carries the suffix "s" |
| Aggregator.MetricAggregator.CentisecondReportMislabelled | include/mtr/metrics.hpp:254-263 | a centisecond report of at least one centisecond writes the count of centiseconds, which is not the count of seconds, before the suffix "s", and so differs from the corrected report |
| Aggregator.MetricAggregator.LabelledDumpMetrics | include/mtr/metrics.hpp:245-267 | the corrected report: nothing for an unknown name; otherwise the six-line report in the corrected report unit |
| Aggregator.MetricAggregator.LabelledReportReadsBack | include/mtr/metrics.hpp:259-266 | in the corrected report, the suffix names the unit of the counts, and every statistic reads back from its line in that unit |
| Aggregator.MetricAggregator.LabelledAgreesWithHeader | include/mtr/metrics.hpp:252-266 | wherever the header's suffix names the header's report unit, the corrected report is exactly the header's report |
| Aggregator.MetricAggregator.DumpSequence | include/mtr/metrics.hpp:271-274 | the output of the dump_all loop has at least one line per name, and its last line is the empty line written after the last report |
| Aggregator.MetricAggregator.DumpSequenceLength | include/mtr/metrics.hpp:269-275 | reporting k recorded names gives 7k lines |
| Aggregator.MetricAggregator.DumpInOrder | include/mtr/metrics.hpp:271-274 | the loop writes each name's report followed by an empty line, in the given order |
| Aggregator.MetricAggregator.DumpAll | include/mtr/metrics.hpp:269-275 | every recorded name is reported exactly once, in some order, each report followed by an empty line, 7 lines per name |
| Aggregator.Enumerate | include/mtr/metrics.hpp:271 | the map's iteration visits every key exactly once |

## Left out

- The timer, the collector and the `METRICS_RECORD_BLOCK` macro (`include/mtr/metrics.hpp:15-25`, `45-67`, `150-171`) read the clock. The elapsed time they pass to `update_metric` is a parameter of `UpdateMetric` instead.
- `metric_aggregator::instance()` is a function-local static singleton, and copying is deleted. The model constructs an aggregator explicitly.
- The output stream is a sequence of lines. Writing to a `std::ostream`, flushing by `std::endl` and stream errors are not modelled.
- The iteration order of `std::unordered_map` is unspecified. `DumpAll` returns the order it used, and its contract holds for any order.
- Aggregator.MetricAggregator.UpdateMetric: does not model signed 64-bit overflow of `total_` or the wrap-around of the `uint64_t` counter, because both are unbounded integers here.
- Aggregator.MetricAggregator.Average: does not model a negative total meeting the unsigned division by the count, because elapsed times are never negative here.
- Units are integer numbers of nanoseconds per tick with an integer count. Units finer than a nanosecond, fractional periods and floating-point counts are not modelled.
- Units.ReportUnit / Units.Suffix: only units whose count has the same type as the count of `std::chrono::seconds` are modelled. A unit is its period alone. `std::is_same_v` at `include/mtr/metrics.hpp:112-117` and `:254` also compares the count's type, so the header gives `duration<int32_t, std::milli>` the suffix "s" and reports it in seconds, where the model keeps milliseconds and "ms".
- Recording.BlockRecording.Update: the header accepts any nanosecond count, while the model takes only counts of at least 0. `high_resolution_clock` (`include/mtr/metrics.hpp:53`, `:161-162`) need not be steady, so a negative elapsed time can reach it.
- Aggregator.MetricAggregator.UpdateMetric: the header accepts any nanosecond count, while the model takes only counts of at least 0, for the same reason.
- The ring buffer that `test/block_recording.t.cpp` exercises (`MAX_RECORDINGS`, `begin`, `end`) is not part of this header. The recording has no buffer to model.
- The timing claims of the tests rely on `sleep_for`. They appear only as `LowerBoundCarries`, which takes the lower bound on the samples as given.
- `test/metric_aggregator.t.cpp:91` counts "s" in the nanosecond report's stream rather than the minutes report's. It is not modelled.
- Concurrency: the header has no locking, and the model is single-threaded.

## Findings

| source | as written | input that shows it | evidently intended | confidence | as-written member | corrected member |
|---|---|---|---|---|---|---|
| include/mtr/metrics.hpp:254-263 | a unit that divides a second, and whose count has the type of the count of seconds, is reported in its own ticks, but `stringify_unit` gives every unit other than ns, us and ms the suffix "s" | where `std::int64_t` is the count type of `std::chrono::seconds` (libstdc++), `dump_metrics<std::chrono::duration<std::int64_t, std::centi>>` for 1.5 s of samples writes `Total: 150s` | a report's suffix names the unit its counts are in, so a unit without a suffix of its own is reported in seconds | medium, not executed | Aggregator.MetricAggregator.CentisecondReportMislabelled | Aggregator.MetricAggregator.LabelledDumpMetrics |
