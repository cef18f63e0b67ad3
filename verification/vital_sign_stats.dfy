/**
 * The vital-sign statistics of src/utils/vitalSignStats.ts: records are
 * windowed to `measuredAt >= periodStart`, and for each of five metrics the
 * non-null readings, in input order, yield the current (first) reading,
 * minimum, maximum, mean, a trend comparing the first two readings, and the
 * goal's target for that metric.
 *
 * The function never sorts: "current" is the newest reading only because
 * callers pass records newest first (see `CurrentIsNewest`).
 */
module VitalSignStats {
  import opened Options
  import opened Numbers
  import opened Types

  datatype Trend = Up | Down | Stable

  /** The statistics of one metric; every field is `None` when absent. */
  datatype Stats = Stats(
    current: Option<real>,
    min: Option<real>,
    max: Option<real>,
    avg: Option<real>,
    trend: Option<Trend>,
    goal: Option<real>)

  /** The statistics of all five metrics. */
  datatype Report = Report(
    weight: Stats,
    systolicBp: Stats,
    diastolicBp: Stats,
    heartRate: Stats,
    bodyTemperature: Stats)

  datatype Metric = Weight | SystolicBp | DiastolicBp | HeartRate | BodyTemperature

  datatype Period = Week | Month

  /**
   * The two instants the local-calendar arithmetic derives from the clock:
   * what `setDate(getDate() - 7)` yields, and what `setMonth(getMonth() - 1)`
   * yields. The latter is not always one calendar month back: on a
   * month-end day the day number overflows into the next month (March 31
   * becomes "February 31", that is March 2 or 3).
   */
  datatype Clock = Clock(weekAgo: int, monthAgo: int)

  /** The start of the reporting window; a missing period means a week. */
  function PeriodStart(period: Option<Period>, clock: Clock): (start: int)
    ensures period == Some(Month) ==> start == clock.monthAgo
    ensures period == None || period == Some(Week) ==> start == clock.weekAgo
  {
    if period == Some(Month) then clock.monthAgo else clock.weekAgo
  }

  /** The records in the window, in input order. */
  function PeriodData(records: seq<VitalSign>, periodStart: int): (w: seq<VitalSign>)
    ensures |w| <= |records|
  {
    if |records| == 0 then []
    else
      var x := records[|records| - 1];
      PeriodData(records[..|records| - 1], periodStart) + (if x.measuredAt >= periodStart then [x] else [])
  }

  /** The metric's reading on a record. */
  function Reading(r: VitalSign, m: Metric): Option<real>
  {
    match m
    case Weight => r.weight
    case SystolicBp => r.systolicBp
    case DiastolicBp => r.diastolicBp
    case HeartRate => r.heartRate
    case BodyTemperature => r.bodyTemperature
  }

  /** The goal's target for the metric; the goal has no body-temperature field. */
  function Target(g: VitalSignGoal, m: Metric): Option<real>
  {
    match m
    case Weight => g.targetWeight
    case SystolicBp => g.targetSystolicBp
    case DiastolicBp => g.targetDiastolicBp
    case HeartRate => g.targetHeartRate
    case BodyTemperature => None
  }

  /** The target reported for a metric: none without a goal. */
  function GoalValue(goal: Option<VitalSignGoal>, m: Metric): Option<real>
  {
    match goal
    case Some(g) => Target(g, m)
    case None => None
  }

  /** The metric's non-null readings, in input order. */
  function MetricValues(data: seq<VitalSign>, m: Metric): (vs: seq<real>)
    ensures |vs| <= |data|
  {
    if |data| == 0 then []
    else MetricValues(data[..|data| - 1], m) + ReadingAsSeq(data[|data| - 1], m)
  }

  /** A record's reading of `m` as a sequence of zero or one values. */
  function ReadingAsSeq(x: VitalSign, m: Metric): (s: seq<real>)
    ensures |s| <= 1
  {
    match Reading(x, m) case Some(v) => [v] case None => []
  }

  /** A value is among the readings exactly when some record carries it for `m`. */
  lemma {:induction false} MetricValuesMembers(data: seq<VitalSign>, m: Metric, v: real)
    ensures v in MetricValues(data, m) <==> exists i :: 0 <= i < |data| && Reading(data[i], m) == Some(v)
  {
    if |data| > 0 {
      var p, x := data[..|data| - 1], data[|data| - 1];
      assert data == p + [x];
      MetricValuesMembers(p, m, v);
      assert (exists i :: 0 <= i < |data| && Reading(data[i], m) == Some(v))
         <==> (exists i :: 0 <= i < |p| && Reading(p[i], m) == Some(v)) || Reading(x, m) == Some(v) by {
        assert forall i :: 0 <= i < |p| ==> p[i] == data[i];
      }
    }
  }

  /**
   * The trend from the two first readings: stable when they differ by less
   * than 5% of the magnitude of the second, otherwise up when the first is
   * larger and down when it is not.
   */
  function TrendOf(values: seq<real>): (t: Option<Trend>)
    ensures t == None <==> |values| < 2
    ensures t == Some(Stable) <==> |values| >= 2 && Abs(values[0] - values[1]) < 0.05 * Abs(values[1])
    ensures t == Some(Up) ==> values[0] > values[1]
    ensures t == Some(Down) ==> values[0] <= values[1]
  {
    if |values| < 2 then None
    else
      var diff := values[0] - values[1];
      var threshold := Abs(values[1]) * 0.05;
      if Abs(diff) < threshold then Some(Stable)
      else if diff > 0.0 then Some(Up)
      else Some(Down)
  }

  /** The statistics of one metric's readings (`calculateMetricStats`). */
  function MetricStats(values: seq<real>, goalValue: Option<real>): (s: Stats)
    ensures s.goal == goalValue
    ensures s.trend == TrendOf(values)
    ensures |values| == 0 ==> s.current == s.min == s.max == s.avg == None && s.trend == None
    ensures |values| > 0 ==>
      && s.current == Some(values[0])
      && s.min.Some? && s.max.Some?
      && s.avg == Some(Mean(values))
      && s.min.value in values && s.max.value in values
      && (forall i :: 0 <= i < |values| ==> s.min.value <= values[i] <= s.max.value)
      && s.min.value <= s.avg.value <= s.max.value
  {
    if |values| == 0 then Stats(None, None, None, None, None, goalValue)
    else
      MeanBetweenMinAndMax(values);
      Stats(Some(values[0]), Some(MinOf(values)), Some(MaxOf(values)), Some(Mean(values)),
            TrendOf(values), goalValue)
  }

  /** `calculateStats`: the statistics of every metric over the window. */
  function CalculateStats(records: seq<VitalSign>, goal: Option<VitalSignGoal>,
                          period: Option<Period>, clock: Clock): (r: Report)
    ensures forall m :: StatsOf(r, m) == MetricEntry(records, goal, period, clock, m)
    ensures r.bodyTemperature.goal == None
  {
    var r := Report(MetricEntry(records, goal, period, clock, Weight),
                    MetricEntry(records, goal, period, clock, SystolicBp),
                    MetricEntry(records, goal, period, clock, DiastolicBp),
                    MetricEntry(records, goal, period, clock, HeartRate),
                    MetricEntry(records, goal, period, clock, BodyTemperature));
    EntriesByMetric(r, (m: Metric) => MetricEntry(records, goal, period, clock, m));
    r
  }

  /** A report built field by field from `f` has `f(m)` as the entry of every metric `m`. */
  lemma EntriesByMetric(r: Report, f: Metric -> Stats)
    requires r == Report(f(Weight), f(SystolicBp), f(DiastolicBp), f(HeartRate), f(BodyTemperature))
    ensures forall m :: StatsOf(r, m) == f(m)
  {
    forall m ensures StatsOf(r, m) == f(m) {
      match m
      case Weight =>
      case SystolicBp =>
      case DiastolicBp =>
      case HeartRate =>
      case BodyTemperature =>
    }
  }

  /** The statistics of metric `m` over the window, with its target. */
  function MetricEntry(records: seq<VitalSign>, goal: Option<VitalSignGoal>,
                       period: Option<Period>, clock: Clock, m: Metric): Stats
  {
    MetricStats(WindowValues(records, period, clock, m), GoalValue(goal, m))
  }

  /** The report's entry for one metric. */
  function StatsOf(report: Report, m: Metric): Stats
  {
    match m
    case Weight => report.weight
    case SystolicBp => report.systolicBp
    case DiastolicBp => report.diastolicBp
    case HeartRate => report.heartRate
    case BodyTemperature => report.bodyTemperature
  }

  /** The readings of metric `m` that feed the report. */
  function WindowValues(records: seq<VitalSign>, period: Option<Period>, clock: Clock, m: Metric): seq<real>
  {
    MetricValues(PeriodData(records, PeriodStart(period, clock)), m)
  }

  // ---------------------------------------------------------------------------
  // Windowing

  /** A missing period selects the weekly window. */
  lemma DefaultPeriodIsWeek(records: seq<VitalSign>, goal: Option<VitalSignGoal>, clock: Clock)
    ensures CalculateStats(records, goal, None, clock) == CalculateStats(records, goal, Some(Week), clock)
    ensures PeriodStart(None, clock) == clock.weekAgo
  {
  }

  /**
   * A record is in the window exactly when it was measured at or after the
   * period start: the bound is inclusive and there is no upper bound.
   */
  lemma {:induction false} WindowMembership(records: seq<VitalSign>, periodStart: int, r: VitalSign)
    ensures r in PeriodData(records, periodStart) <==> r in records && r.measuredAt >= periodStart
  {
    if |records| > 0 {
      var p, x := records[..|records| - 1], records[|records| - 1];
      assert records == p + [x];
      WindowMembership(p, periodStart, r);
    }
  }

  /** Windowing keeps input order: it distributes over concatenation. */
  lemma {:induction false} PeriodDataAppend(a: seq<VitalSign>, b: seq<VitalSign>, periodStart: int)
    ensures PeriodData(a + b, periodStart) == PeriodData(a, periodStart) + PeriodData(b, periodStart)
  {
    if |b| == 0 {
      assert a + b == a;
    } else {
      var q, y := b[..|b| - 1], b[|b| - 1];
      assert (a + b)[..|a + b| - 1] == a + q;
      assert b == q + [y];
      PeriodDataAppend(a, q, periodStart);
    }
  }

  /** Projection keeps input order: it distributes over concatenation. */
  lemma {:induction false} MetricValuesAppend(a: seq<VitalSign>, b: seq<VitalSign>, m: Metric)
    ensures MetricValues(a + b, m) == MetricValues(a, m) + MetricValues(b, m)
  {
    if |b| == 0 {
      assert a + b == a;
    } else {
      var q := b[..|b| - 1];
      assert (a + b)[..|a + b| - 1] == a + q;
      MetricValuesAppend(a, q, m);
    }
  }

  /** The window's readings of one record: its reading, if it is in the window and present. */
  function RecordContribution(x: VitalSign, periodStart: int, m: Metric): seq<real>
  {
    if x.measuredAt >= periodStart then ReadingAsSeq(x, m) else []
  }

  lemma PeriodDataSingle(x: VitalSign, periodStart: int)
    ensures PeriodData([x], periodStart) == (if x.measuredAt >= periodStart then [x] else [])
  {
    assert [x][..0] == [];
  }

  lemma MetricValuesSingle(x: VitalSign, m: Metric)
    ensures MetricValues([x], m) == ReadingAsSeq(x, m)
  {
    assert [x][..0] == [];
  }

  /** The window's readings are the records' contributions, concatenated in order. */
  lemma WindowValuesCons(x: VitalSign, rest: seq<VitalSign>, periodStart: int, m: Metric)
    ensures MetricValues(PeriodData([x] + rest, periodStart), m)
         == RecordContribution(x, periodStart, m) + MetricValues(PeriodData(rest, periodStart), m)
  {
    var head, tail := PeriodData([x], periodStart), PeriodData(rest, periodStart);
    PeriodDataAppend([x], rest, periodStart);
    MetricValuesAppend(head, tail, m);
    PeriodDataSingle(x, periodStart);
    MetricValuesSingle(x, m);
    assert MetricValues(head, m) == RecordContribution(x, periodStart, m);
  }

  // ---------------------------------------------------------------------------
  // Per-metric statistics

  /** The report entry of metric `m` is the statistics of that metric's window readings and target. */
  lemma StatsOfReport(records: seq<VitalSign>, goal: Option<VitalSignGoal>,
                      period: Option<Period>, clock: Clock, m: Metric)
    ensures StatsOf(CalculateStats(records, goal, period, clock), m)
         == MetricStats(WindowValues(records, period, clock, m), GoalValue(goal, m))
  {
  }

  /**
   * Two record lists that agree, record by record, on the measurement time
   * and on metric `m` yield the same window readings of `m`.
   */
  lemma {:induction false} SameReadingsSameValues(a: seq<VitalSign>, b: seq<VitalSign>, periodStart: int, m: Metric)
    requires |a| == |b|
    requires forall i :: 0 <= i < |a| ==> a[i].measuredAt == b[i].measuredAt && Reading(a[i], m) == Reading(b[i], m)
    ensures MetricValues(PeriodData(a, periodStart), m) == MetricValues(PeriodData(b, periodStart), m)
  {
    if |a| > 0 {
      assert a == [a[0]] + a[1..];
      assert b == [b[0]] + b[1..];
      SameReadingsSameValues(a[1..], b[1..], periodStart, m);
      WindowValuesCons(a[0], a[1..], periodStart, m);
      WindowValuesCons(b[0], b[1..], periodStart, m);
    }
  }

  /**
   * Metric independence: a metric's statistics depend only on the records'
   * times and that metric's readings, so other metrics (null or not) never
   * affect it.
   */
  lemma MetricIndependence(a: seq<VitalSign>, b: seq<VitalSign>, goal: Option<VitalSignGoal>,
                           period: Option<Period>, clock: Clock, m: Metric)
    requires |a| == |b|
    requires forall i :: 0 <= i < |a| ==> a[i].measuredAt == b[i].measuredAt && Reading(a[i], m) == Reading(b[i], m)
    ensures StatsOf(CalculateStats(a, goal, period, clock), m) == StatsOf(CalculateStats(b, goal, period, clock), m)
  {
    SameReadingsSameValues(a, b, PeriodStart(period, clock), m);
    StatsOfReport(a, goal, period, clock, m);
    StatsOfReport(b, goal, period, clock, m);
  }

  /**
   * With no reading of `m` in the window every statistic is null, but the
   * goal's target is still reported.
   */
  lemma NoReadingsAllNull(records: seq<VitalSign>, goal: Option<VitalSignGoal>,
                          period: Option<Period>, clock: Clock, m: Metric)
    requires WindowValues(records, period, clock, m) == []
    ensures var s := StatsOf(CalculateStats(records, goal, period, clock), m);
      s == Stats(None, None, None, None, None, GoalValue(goal, m))
  {
    StatsOfReport(records, goal, period, clock, m);
  }

  /** One reading: current, minimum, maximum and mean all equal it, and there is no trend. */
  lemma SingleReading(v: real, goalValue: Option<real>)
    ensures MetricStats([v], goalValue) == Stats(Some(v), Some(v), Some(v), Some(v), None, goalValue)
  {
    SumSingleton(v);
  }

  /** The trend looks at the first two readings only, never at longer history. */
  lemma TrendUsesFirstTwo(a: seq<real>, b: seq<real>)
    requires |a| >= 2 && |b| >= 2
    requires a[0] == b[0] && a[1] == b[1]
    ensures TrendOf(a) == TrendOf(b)
  {
  }

  /**
   * A second reading of zero leaves no room for "stable": the threshold is
   * zero, so two equal zero readings give "down".
   */
  lemma ZeroSecondReadingNeverStable(values: seq<real>)
    requires |values| >= 2 && values[1] == 0.0
    ensures TrendOf(values) == (if values[0] > 0.0 then Some(Up) else Some(Down))
    ensures values[0] == 0.0 ==> TrendOf(values) == Some(Down)
  {
  }

  /** Equal non-zero readings are stable. */
  lemma EqualReadingsStable(values: seq<real>)
    requires |values| >= 2 && values[0] == values[1] != 0.0
    ensures TrendOf(values) == Some(Stable)
  {
  }

  /** The report carries the goal's matching target, never a body-temperature one. */
  lemma GoalLookup(records: seq<VitalSign>, goal: Option<VitalSignGoal>,
                   period: Option<Period>, clock: Clock)
    ensures var rep := CalculateStats(records, goal, period, clock);
      && rep.bodyTemperature.goal == None
      && (goal == None ==> forall m :: StatsOf(rep, m).goal == None)
      && (goal.Some? ==>
            && rep.weight.goal == goal.value.targetWeight
            && rep.systolicBp.goal == goal.value.targetSystolicBp
            && rep.diastolicBp.goal == goal.value.targetDiastolicBp
            && rep.heartRate.goal == goal.value.targetHeartRate)
  {
    var rep := CalculateStats(records, goal, period, clock);
    forall m ensures StatsOf(rep, m).goal == GoalValue(goal, m) {
      EntryGoal(records, goal, period, clock, m);
    }
    GoalFields(rep, goal);
  }

  lemma EntryGoal(records: seq<VitalSign>, goal: Option<VitalSignGoal>,
                  period: Option<Period>, clock: Clock, m: Metric)
    ensures MetricEntry(records, goal, period, clock, m).goal == GoalValue(goal, m)
  {
  }

  /** A report whose every entry carries the goal's target for its metric, read field by field. */
  lemma GoalFields(rep: Report, goal: Option<VitalSignGoal>)
    requires forall m :: StatsOf(rep, m).goal == GoalValue(goal, m)
    ensures rep.bodyTemperature.goal == None
    ensures goal.Some? ==>
      && rep.weight.goal == goal.value.targetWeight
      && rep.systolicBp.goal == goal.value.targetSystolicBp
      && rep.diastolicBp.goal == goal.value.targetDiastolicBp
      && rep.heartRate.goal == goal.value.targetHeartRate
  {
    assert StatsOf(rep, Weight) == rep.weight;
    assert StatsOf(rep, SystolicBp) == rep.systolicBp;
    assert StatsOf(rep, DiastolicBp) == rep.diastolicBp;
    assert StatsOf(rep, HeartRate) == rep.heartRate;
    assert StatsOf(rep, BodyTemperature) == rep.bodyTemperature;
  }

  /** Records ordered newest first, as the page fetches them. */
  predicate NewestFirst(records: seq<VitalSign>)
  {
    forall i, j :: 0 <= i < j < |records| ==> records[i].measuredAt >= records[j].measuredAt
  }

  /**
   * Record `i` is in the window, carries `v` for metric `m`, and is at least
   * as recent as every other in-window record carrying the metric.
   */
  predicate IsNewestReading(records: seq<VitalSign>, periodStart: int, m: Metric, i: int, v: real)
  {
    && 0 <= i < |records|
    && records[i].measuredAt >= periodStart
    && Reading(records[i], m) == Some(v)
    && forall j :: 0 <= j < |records| && records[j].measuredAt >= periodStart && Reading(records[j], m).Some?
         ==> records[j].measuredAt <= records[i].measuredAt
  }

  /**
   * A record outside the window or without metric `m` at the front does not
   * change which record is the newest reading: record `k` of the rest is
   * record `k + 1` of the whole list.
   */
  lemma NewestReadingShift(records: seq<VitalSign>, periodStart: int, m: Metric, k: int, v: real)
    requires |records| > 0 && RecordContribution(records[0], periodStart, m) == []
    requires IsNewestReading(records[1..], periodStart, m, k, v)
    ensures IsNewestReading(records, periodStart, m, k + 1, v)
  {
    var rest := records[1..];
    forall j | 0 <= j < |records| && records[j].measuredAt >= periodStart && Reading(records[j], m).Some?
      ensures records[j].measuredAt <= records[k + 1].measuredAt
    {
      assert j != 0;
      assert records[j] == rest[j - 1];
    }
  }

  /** In a newest-first list, a front record with an in-window reading holds the newest reading. */
  lemma HeadIsNewest(records: seq<VitalSign>, periodStart: int, m: Metric)
    requires NewestFirst(records) && |records| > 0
    requires RecordContribution(records[0], periodStart, m) != []
    ensures IsNewestReading(records, periodStart, m, 0, Reading(records[0], m).value)
  {
  }

  /**
   * When records come newest first, the current reading is that of an
   * in-window record at least as recent as every other in-window record
   * carrying the metric.
   */
  lemma {:induction false} CurrentIsNewest(records: seq<VitalSign>, periodStart: int, m: Metric)
    requires NewestFirst(records)
    requires |MetricValues(PeriodData(records, periodStart), m)| > 0
    ensures exists i :: IsNewestReading(records, periodStart, m, i, MetricValues(PeriodData(records, periodStart), m)[0])
  {
    var x, rest := records[0], records[1..];
    assert records == [x] + rest;
    var vs := MetricValues(PeriodData(records, periodStart), m);
    WindowValuesCons(x, rest, periodStart, m);
    if RecordContribution(x, periodStart, m) != [] {
      var v := Reading(x, m).value;
      assert RecordContribution(x, periodStart, m) == [v];
      assert vs[0] == v;
      HeadIsNewest(records, periodStart, m);
    } else {
      assert NewestFirst(rest);
      CurrentIsNewest(rest, periodStart, m);
      var k :| IsNewestReading(rest, periodStart, m, k, vs[0]);
      NewestReadingShift(records, periodStart, m, k, vs[0]);
    }
  }
}
