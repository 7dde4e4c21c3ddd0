/** The simulator object: a per-second sample table that grows one row per
    call, a 15-minute table that grows one row whenever the sample count
    reaches a multiple of 900, the hourly rollup of the 15-minute table, and
    the two-hour driver that feeds it. */
module Simulation {
  import opened Stats
  import opened Records
  import opened Windowing
  import opened Rollup
  import opened HourExactness

  /** The three readings one sensor poll yields. */
  datatype SensorPoll = SensorPoll(heartRate: int, respirationRate: int, activity: int)
  {
    /** The reading of one metric in this poll. */
    function Reading(m: Metric): int {
      match m
      case HeartRate => heartRate
      case RespirationRate => respirationRate
      case Activity => activity
    }
  }

  /** Lowest value the sensor produces for a metric. */
  function Low(m: Metric): int {
    match m
    case HeartRate => 30
    case RespirationRate => 8
    case Activity => 0
  }

  /** One past the highest value the sensor produces for a metric. */
  function High(m: Metric): int {
    match m
    case HeartRate => 180
    case RespirationRate => 40
    case Activity => 100
  }

  /** The range the sensor draws a metric from: heart rate 30..179,
      respiration rate 8..39, activity 0..99. */
  predicate InSensorRange(m: Metric, v: int) {
    Low(m) <= v < High(m)
  }

  /** Every reading of a sample lies in its sensor range. */
  predicate SampleInSensorRange(x: Sample) {
    forall m: Metric :: InSensorRange(m, x.Reading(m))
  }

  /** Every min and max of a summary lies in its sensor range. */
  predicate SummaryInSensorRange(r: Summary) {
    forall m: Metric :: InSensorRange(m, r.StatOf(m).min) && InSensorRange(m, r.StatOf(m).max)
  }

  /** Length of the simulated run, in seconds (two hours). */
  const SimulatedSeconds: nat := 7200  // 2 * 60 * 60

  /** 15-minute rows of a fresh run. */
  const RunSegmentCount: nat := 8  // SimulatedSeconds / SegmentLength

  /** The hourly rollup met a last block of fewer than four segments: the
      block starts at segment `start` and holds `rows` segments. */
  datatype RollupError = IncompleteHour(start: nat, rows: nat)

  /** The samples of n consecutive seconds starting at initialTime, second i
      carrying the sensor's i-th poll. */
  function SensorRun(initialTime: int, sensor: nat -> SensorPoll, n: nat): (r: seq<Sample>)
    ensures |r| == n
    ensures forall i :: 0 <= i < n ==> r[i].userId == 1 && r[i].timestamp == initialTime + i
  {
    var run := seq(n, i requires 0 <= i < n => Simulator.GetSensorData(initialTime + i, sensor(i)));
    assert forall i :: 0 <= i < n ==> run[i] == Simulator.GetSensorData(initialTime + i, sensor(i));
    run
  }

  lemma SensorRunAt(initialTime: int, sensor: nat -> SensorPoll, n: nat, i: nat)
    requires i < n
    ensures |SensorRun(initialTime, sensor, n)| == n
    ensures SensorRun(initialTime, sensor, n)[i] == Simulator.GetSensorData(initialTime + i, sensor(i))
  {
  }

  class Simulator {
    /** The per-second sample table. */
    var df: seq<Sample>
    /** The 15-minute table. */
    var resDf: seq<Summary>

    /** The 15-minute table is always the summary of every complete window
        of the sample table. */
    ghost predicate Valid()
      reads this
    {
      resDf == Segments(df)
    }

    /** The sample for second `time`: always user 1, carrying one sensor poll. */
    static function GetSensorData(time: int, reading: SensorPoll): (r: Sample)
      ensures r.userId == 1 && r.timestamp == time
      ensures forall m: Metric :: r.Reading(m) == reading.Reading(m)
    {
      Sample(1, time, reading.heartRate, reading.respirationRate, reading.activity)
    }

    constructor ()
      ensures Valid()
      ensures df == [] && resDf == []
    {
      df := [];
      resDf := [];
    }

    /** Appends one sample; when the sample count becomes a multiple of 900,
        appends the summary of the last 900 samples to the 15-minute table.
        Earlier rows of both tables are never changed. */
    method ProcessData(data: Sample)
      requires Valid()
      modifies this
      ensures Valid()
      ensures df == old(df) + [data]
      ensures |df| % SegmentLength != 0 ==> resDf == old(resDf)
      ensures |df| % SegmentLength == 0 ==>
                |df| >= SegmentLength
                && resDf == old(resDf) + [SummarizeWindow(df[|df| - SegmentLength..])]
    {
      SegmentsSnoc(df, data);
      df := df + [data];
      if |df| != 0 && |df| % SegmentLength == 0 {
        var last15Mins := df[|df| - SegmentLength..];
        resDf := resDf + [SummarizeWindow(last15Mins)];
      }
    }

    /** Rolls the 15-minute table up four rows at a time. A table whose
        length is not a multiple of four fails on its last, short block. */
    static method ProcessForHourly(segmentDf: seq<Summary>) returns (r: Result<seq<Summary>, RollupError>)
      ensures r.Success? <==> |segmentDf| % HourLength == 0
      ensures r.Success? ==> r.value == HourlyRollup(segmentDf)
      ensures r.Failure? ==> r.error == IncompleteHour(|segmentDf| - |segmentDf| % HourLength,
                                                       |segmentDf| % HourLength)
    {
      var hourly: seq<Summary> := [];
      var i := 0;
      while i < |segmentDf|
        invariant i <= |segmentDf| && i % HourLength == 0
        invariant hourly == HourlyRollup(segmentDf[..i])
        decreases |segmentDf| - i
      {
        var end := if i + HourLength <= |segmentDf| then i + HourLength else |segmentDf|;
        var lastHour := segmentDf[i .. end];
        if |lastHour| < HourLength {
          ShortLastBlock(|segmentDf|, i);
          return Failure(IncompleteHour(i, |lastHour|));
        }
        RollupStep(segmentDf, i, end);
        hourly := hourly + [RollupBlock(lastHour)];
        i := end;  // end == i + HourLength here, as RollupStep requires
      }
      RollupDone(segmentDf, i);
      return Success(hourly);
    }

    /** Feeds two hours of sensor polls, one per second from initialTime,
        through ProcessData, then rolls the 15-minute table up to hours. */
    method RunSimulation(initialTime: int, sensor: nat -> SensorPoll) returns (hourly: Result<seq<Summary>, RollupError>)
      requires Valid()
      modifies this
      ensures Valid()
      ensures df == old(df) + SensorRun(initialTime, sensor, SimulatedSeconds)
      ensures hourly.Success? <==> |resDf| % HourLength == 0
      ensures hourly.Success? ==> hourly.value == HourlyRollup(resDf)
      ensures old(df) == [] ==> hourly == Success(HourlyRollup(resDf)) && |resDf| == RunSegmentCount
    {
      ghost var before := df;
      for i := 0 to SimulatedSeconds
        invariant Valid()
        invariant df == before + SensorRun(initialTime, sensor, i)
      {
        var data := GetSensorData(initialTime + i, sensor(i));
        ProcessData(data);
        assert SensorRun(initialTime, sensor, i + 1) == SensorRun(initialTime, sensor, i) + [data];
      }
      if before == [] {
        RunSegments(initialTime, sensor, 0);
      }
      hourly := ProcessForHourly(resDf);
    }
  }

  /** A block that starts at a multiple i of four and runs off the end of a
      table of n rows is its last one, and n is not a multiple of four. */
  lemma ShortLastBlock(n: nat, i: nat)
    requires i % HourLength == 0
    requires i < n < i + HourLength
    ensures n % HourLength != 0
    ensures i == n - n % HourLength && n - i == n % HourLength
  {
  }

  /** One step of the hourly loop: a full block of four starting at a
      multiple of four extends the rollup of the rows before it by its own
      hourly row. */
  lemma RollupStep(segments: seq<Summary>, i: nat, end: nat)
    requires i % HourLength == 0
    requires end == i + HourLength <= |segments|
    ensures end % HourLength == 0
    ensures HourlyRollup(segments[..end])
         == HourlyRollup(segments[..i]) + [RollupBlock(segments[i .. end])]
  {
    HourlyRollupExtend(segments, i);
  }

  /** The hourly loop ran to the end of the table: all rows were rolled up. */
  lemma RollupDone(segments: seq<Summary>, i: nat)
    requires i == |segments| && i % HourLength == 0
    ensures segments[..i] == segments
    ensures |segments| % HourLength == 0
  {
  }

  /** A fresh two-hour run yields eight 15-minute rows, row k covering
      seconds 900k .. 900k+899 of user 1 and keeping min <= avg <= max. */
  lemma RunSegments(initialTime: int, sensor: nat -> SensorPoll, k: nat)
    requires k < RunSegmentCount
    ensures var s := SensorRun(initialTime, sensor, SimulatedSeconds);
            && |Segments(s)| == RunSegmentCount
            && Segments(s)[k].userId == 1
            && Segments(s)[k].segStart == initialTime + k * SegmentLength
            && Segments(s)[k].segEnd == initialTime + k * SegmentLength + SegmentLength - 1
            && Segments(s)[k].Ordered()
  {
    var s := SensorRun(initialTime, sensor, SimulatedSeconds);
    SegmentsWellFormed(s, k);
    var lo := k * SegmentLength;
    SensorRunAt(initialTime, sensor, SimulatedSeconds, lo);
    SensorRunAt(initialTime, sensor, SimulatedSeconds, lo + SegmentLength - 1);
  }

  /** A fresh two-hour run yields two hourly rows, and row j equals the
      summary of seconds 3600j .. 3600j+3599 taken directly from the samples. */
  lemma RunHourMatchesSamples(initialTime: int, sensor: nat -> SensorPoll, j: nat)
    requires j < 2
    ensures |Segments(SensorRun(initialTime, sensor, SimulatedSeconds))| % HourLength == 0
    ensures |HourlyRollup(Segments(SensorRun(initialTime, sensor, SimulatedSeconds)))| == 2
    ensures HourlyRollup(Segments(SensorRun(initialTime, sensor, SimulatedSeconds)))[j]
         == SummarizeWindow(SensorRun(initialTime, sensor, SimulatedSeconds)[j * HourSamples .. j * HourSamples + HourSamples])
  {
    var s := SensorRun(initialTime, sensor, SimulatedSeconds);
    var segs := Segments(s);
    RunSegments(initialTime, sensor, 0);
    HourAt(segs, j);
    SegmentsOfHour(s, j);
    HourMatchesRawSamples(s[j * HourSamples .. j * HourSamples + HourSamples]);
  }

  /** Hourly row j of a fresh two-hour run covers seconds 3600j .. 3600j+3599
      of user 1 and keeps min <= avg <= max. */
  lemma RunHours(initialTime: int, sensor: nat -> SensorPoll, j: nat)
    requires j < 2
    ensures |Segments(SensorRun(initialTime, sensor, SimulatedSeconds))| % HourLength == 0
    ensures var hourly := HourlyRollup(Segments(SensorRun(initialTime, sensor, SimulatedSeconds)));
            && |hourly| == 2
            && hourly[j].userId == 1
            && hourly[j].segStart == initialTime + j * HourSamples
            && hourly[j].segEnd == initialTime + j * HourSamples + HourSamples - 1
            && hourly[j].Ordered()
  {
    var s := SensorRun(initialTime, sensor, SimulatedSeconds);
    RunHourMatchesSamples(initialTime, sensor, j);
    var hour := s[j * HourSamples .. j * HourSamples + HourSamples];
    SensorRunAt(initialTime, sensor, SimulatedSeconds, j * HourSamples);
    SensorRunAt(initialTime, sensor, SimulatedSeconds, j * HourSamples + HourSamples - 1);
    assert hour[0] == s[j * HourSamples] && hour[|hour| - 1] == s[j * HourSamples + HourSamples - 1];
  }

  /** A window of in-range samples has every min and max in range. */
  lemma WindowInSensorRange(w: seq<Sample>)
    requires |w| > 0
    requires forall i :: 0 <= i < |w| ==> SampleInSensorRange(w[i])
    ensures SummaryInSensorRange(SummarizeWindow(w))
  {
    var r := SummarizeWindow(w);
    forall m: Metric ensures InSensorRange(m, r.StatOf(m).min) && InSensorRange(m, r.StatOf(m).max) {
      SummarizeWindowStats(w, m);
      var c := Column(w, m);
      var a :| 0 <= a < |c| && c[a] == r.StatOf(m).max;
      var b :| 0 <= b < |c| && c[b] == r.StatOf(m).min;
      assert SampleInSensorRange(w[a]) && SampleInSensorRange(w[b]);
    }
  }

  /** With a sensor that stays in its ranges, every 15-minute and every
      hourly row of a fresh two-hour run has its mins and maxes in range. */
  lemma RunInSensorRange(initialTime: int, sensor: nat -> SensorPoll)
    requires forall i: nat, m: Metric :: InSensorRange(m, sensor(i).Reading(m))
    ensures var segs := Segments(SensorRun(initialTime, sensor, SimulatedSeconds));
            && |segs| % HourLength == 0
            && (forall k :: 0 <= k < |segs| ==> SummaryInSensorRange(segs[k]))
            && (forall j :: 0 <= j < |HourlyRollup(segs)| ==> SummaryInSensorRange(HourlyRollup(segs)[j]))
  {
    var s := SensorRun(initialTime, sensor, SimulatedSeconds);
    var segs := Segments(s);
    RunSegments(initialTime, sensor, 0);
    forall k | 0 <= k < |segs| ensures SummaryInSensorRange(segs[k]) {
      SegmentAt(s, k);
      SliceInSensorRange(s, k * SegmentLength, k * SegmentLength + SegmentLength, initialTime, sensor);
    }
    forall j | 0 <= j < |HourlyRollup(segs)| ensures SummaryInSensorRange(HourlyRollup(segs)[j]) {
      RunHourMatchesSamples(initialTime, sensor, j);
      SliceInSensorRange(s, j * HourSamples, j * HourSamples + HourSamples, initialTime, sensor);
    }
  }

  lemma SliceInSensorRange(s: seq<Sample>, lo: nat, hi: nat, initialTime: int, sensor: nat -> SensorPoll)
    requires s == SensorRun(initialTime, sensor, SimulatedSeconds)
    requires forall i: nat, m: Metric :: InSensorRange(m, sensor(i).Reading(m))
    requires lo < hi <= |s|
    ensures SummaryInSensorRange(SummarizeWindow(s[lo..hi]))
  {
    var w := s[lo..hi];
    forall i | 0 <= i < |w| ensures SampleInSensorRange(w[i]) {
      assert w[i] == Simulator.GetSensorData(initialTime + lo + i, sensor(lo + i));
    }
    WindowInSensorRange(w);
  }
}
