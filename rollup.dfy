/** The hourly level: consecutive, non-overlapping blocks of four 15-minute
    summaries collapse into one hourly summary, computed from the child
    summaries alone (never from the raw samples). */
module Rollup {
  import opened Stats
  import opened Records
  import opened Windowing

  /** Segments per hour. */
  const HourLength: nat := 4  // 60 // 15

  /** The max_x column of a block of summaries. */
  function Maxes(b: seq<Summary>, m: Metric): seq<int> {
    seq(|b|, i requires 0 <= i < |b| => b[i].StatOf(m).max)
  }

  /** The min_x column of a block of summaries. */
  function Mins(b: seq<Summary>, m: Metric): seq<int> {
    seq(|b|, i requires 0 <= i < |b| => b[i].StatOf(m).min)
  }

  /** The avg_x column of a block of summaries. */
  function Avgs(b: seq<Summary>, m: Metric): seq<real> {
    seq(|b|, i requires 0 <= i < |b| => b[i].StatOf(m).avg)
  }

  /** avg, max and min of one metric over a block of child summaries: the
      max is one of the child maxes and the min one of the child mins. */
  function RollupStat(b: seq<Summary>, m: Metric): (r: Stat)
    requires |b| > 0
    ensures exists i :: 0 <= i < |b| && r.max == b[i].StatOf(m).max
    ensures exists i :: 0 <= i < |b| && r.min == b[i].StatOf(m).min
  {
    MaxIsLargest(Maxes(b, m));
    MinIsSmallest(Mins(b, m));
    Stat(MeanR(Avgs(b, m)), Max(Maxes(b, m)), Min(Mins(b, m)))
  }

  /** What the rolled-up avg, max and min of one metric mean: the max is the
      largest child max, the min the smallest child min, and the avg the
      unweighted mean of the child averages. */
  ghost predicate StatOfBlock(st: Stat, b: seq<Summary>, m: Metric)
    requires |b| > 0
  {
    && (forall i :: 0 <= i < |b| ==> st.min <= b[i].StatOf(m).min && b[i].StatOf(m).max <= st.max)
    && st.max in Maxes(b, m)
    && st.min in Mins(b, m)
    && st.avg == SumR(Avgs(b, m)) / |b| as real
  }

  lemma RollupStatOfBlock(b: seq<Summary>, m: Metric)
    requires |b| > 0
    ensures StatOfBlock(RollupStat(b, m), b, m)
  {
    MaxIsLargest(Maxes(b, m));
    MinIsSmallest(Mins(b, m));
    forall i | 0 <= i < |b|
      ensures Min(Mins(b, m)) <= b[i].StatOf(m).min && b[i].StatOf(m).max <= Max(Maxes(b, m))
    {
      assert Mins(b, m)[i] in Mins(b, m) && Maxes(b, m)[i] in Maxes(b, m);
    }
  }

  /** The hourly row of one block of four segments: subject and start from
      the first child, end from the fourth, and per metric the rolled-up
      Stat described by StatOfBlock. */
  function RollupBlock(b: seq<Summary>): (r: Summary)
    requires |b| == HourLength
    ensures r.userId == b[0].userId
    ensures r.segStart == b[0].segStart && r.segEnd == b[HourLength - 1].segEnd
  {
    Summary(b[0].userId, b[0].segStart, b[HourLength - 1].segEnd,
            RollupStat(b, HeartRate), RollupStat(b, RespirationRate), RollupStat(b, Activity))
  }

  /** Per metric, the hourly row holds the largest child max, the smallest
      child min and the unweighted mean of the child averages. */
  lemma RollupBlockStats(b: seq<Summary>, m: Metric)
    requires |b| == HourLength
    ensures StatOfBlock(RollupBlock(b).StatOf(m), b, m)
  {
    RollupStatOfBlock(b, m);
  }

  /** If every child keeps min <= avg <= max, so does the hourly row. */
  lemma RollupKeepsOrdered(b: seq<Summary>)
    requires |b| == HourLength
    requires forall i :: 0 <= i < |b| ==> b[i].Ordered()
    ensures RollupBlock(b).Ordered()
  {
    var r := RollupBlock(b);
    forall m: Metric ensures r.StatOf(m).Ordered() {
      var st := r.StatOf(m);
      RollupBlockStats(b, m);
      forall x | x in Avgs(b, m) ensures st.min as real <= x <= st.max as real {
        var i :| 0 <= i < |b| && Avgs(b, m)[i] == x;
        assert b[i].StatOf(m).Ordered() by {
          assert b[i].Ordered();
        }
      }
      MeanRBetween(Avgs(b, m), st.min as real, st.max as real);
    }
    assert r.hr == r.StatOf(HeartRate);
    assert r.rr == r.StatOf(RespirationRate);
    assert r.activity == r.StatOf(Activity);
  }

  /** The complete blocks of a 15-minute table: consecutive, non-overlapping
      runs of HourLength rows, in order. */
  function Blocks<T>(s: seq<T>): (r: seq<seq<T>>)
    ensures |r| == |s| / HourLength
    ensures forall j :: 0 <= j < |r| ==> |r[j]| == HourLength
    decreases |s|
  {
    if |s| < HourLength then []
    else [s[..HourLength]] + Blocks(s[HourLength..])
  }

  /** Block j holds exactly rows 4j .. 4j+3. */
  lemma {:induction false} BlockAt<T>(s: seq<T>, j: nat)
    requires j < |s| / HourLength
    ensures j * HourLength + HourLength <= |s|
    ensures Blocks(s)[j] == s[j * HourLength .. j * HourLength + HourLength]
  {
    if j > 0 {
      var t := s[HourLength..];
      BlockAt(t, j - 1);
      assert t[(j - 1) * HourLength .. (j - 1) * HourLength + HourLength]
          == s[j * HourLength .. j * HourLength + HourLength];
    }
  }

  /** The hourly table of a 15-minute table whose length is a multiple of
      four: one row per block of four, in order. */
  function HourlyRollup(segments: seq<Summary>): (r: seq<Summary>)
    requires |segments| % HourLength == 0
    ensures |r| == |segments| / HourLength
  {
    RollupAll(Blocks(segments))
  }

  /** The hourly row of each block, in order. */
  function RollupAll(bs: seq<seq<Summary>>): (r: seq<Summary>)
    requires forall j :: 0 <= j < |bs| ==> |bs[j]| == HourLength
    ensures |r| == |bs|
  {
    seq(|bs|, j requires 0 <= j < |bs| => RollupBlock(bs[j]))
  }

  lemma RollupAllSnoc(bs: seq<seq<Summary>>, b: seq<Summary>)
    requires forall j :: 0 <= j < |bs| ==> |bs[j]| == HourLength
    requires |b| == HourLength
    ensures RollupAll(bs + [b]) == RollupAll(bs) + [RollupBlock(b)]
  {
    var x, y := RollupAll(bs + [b]), RollupAll(bs);
    forall j | 0 <= j < |y| ensures x[j] == y[j] {
      assert (bs + [b])[j] == bs[j];
    }
    ExtendedBy(x, y, RollupBlock(b));
  }

  /** Four more rows add exactly one block, made of those four rows. */
  lemma BlocksExtend<T>(s: seq<T>, i: nat)
    requires i % HourLength == 0
    requires i + HourLength <= |s|
    ensures Blocks(s[..i + HourLength]) == Blocks(s[..i]) + [s[i .. i + HourLength]]
  {
    var longer, shorter := s[..i + HourLength], s[..i];
    var a, b := Blocks(longer), Blocks(shorter);
    assert |a| == |b| + 1 by {
      assert (i + HourLength) / HourLength == i / HourLength + 1;
    }
    forall j | 0 <= j < |b| ensures a[j] == b[j] {
      BlockAt(longer, j);
      BlockAt(shorter, j);
      var lo := j * HourLength;
      assert longer[lo .. lo + HourLength] == shorter[lo .. lo + HourLength];
    }
    BlockAt(longer, |b|);
    assert |b| * HourLength == i;
    assert longer[i .. i + HourLength] == s[i .. i + HourLength];
    ExtendedBy(a, b, s[i .. i + HourLength]);
  }

  /** The j-th hourly row is built from segments 4j .. 4j+3. */
  lemma HourAt(segments: seq<Summary>, j: nat)
    requires |segments| % HourLength == 0
    requires j < |segments| / HourLength
    ensures j * HourLength + HourLength <= |segments|
    ensures HourlyRollup(segments)[j]
         == RollupBlock(segments[j * HourLength .. j * HourLength + HourLength])
  {
    BlockAt(segments, j);
  }

  /** Rolling up four more segments appends exactly one hourly row, built
      from those four, and leaves the earlier rows as they were. */
  lemma HourlyRollupExtend(segments: seq<Summary>, i: nat)
    requires i % HourLength == 0
    requires i + HourLength <= |segments|
    ensures HourlyRollup(segments[..i + HourLength])
         == HourlyRollup(segments[..i]) + [RollupBlock(segments[i .. i + HourLength])]
  {
    BlocksExtend(segments, i);
    RollupAllSnoc(Blocks(segments[..i]), segments[i .. i + HourLength]);
  }

  /** min <= avg <= max carries through the whole hourly table. */
  lemma HourlyKeepsOrdered(segments: seq<Summary>)
    requires |segments| % HourLength == 0
    requires forall k :: 0 <= k < |segments| ==> segments[k].Ordered()
    ensures forall j :: 0 <= j < |HourlyRollup(segments)| ==> HourlyRollup(segments)[j].Ordered()
  {
    forall j | 0 <= j < |HourlyRollup(segments)|
      ensures HourlyRollup(segments)[j].Ordered()
    {
      HourOrdered(segments, j);
    }
  }

  lemma HourOrdered(segments: seq<Summary>, j: nat)
    requires |segments| % HourLength == 0
    requires forall k :: 0 <= k < |segments| ==> segments[k].Ordered()
    requires j < |segments| / HourLength
    ensures HourlyRollup(segments)[j].Ordered()
  {
    HourAt(segments, j);
    var start := j * HourLength;
    SliceOrdered(segments, start, start + HourLength);
    RollupKeepsOrdered(segments[start .. start + HourLength]);
  }

  lemma SliceOrdered(segments: seq<Summary>, lo: nat, hi: nat)
    requires lo <= hi <= |segments|
    requires forall k :: 0 <= k < |segments| ==> segments[k].Ordered()
    ensures forall i :: 0 <= i < hi - lo ==> segments[lo..hi][i].Ordered()
  {
    forall i | 0 <= i < hi - lo ensures segments[lo..hi][i].Ordered() {
      assert segments[lo..hi][i] == segments[lo + i];
    }
  }
}

/** The hourly level never touches raw samples, and in general an unweighted
    mean of averages is not the mean of the underlying readings. Here every
    segment holds exactly SegmentLength samples, so the rollup is exact: the
    hourly row of an hour's four segments equals the summary taken directly
    over that hour's samples. */
module HourExactness {
  import opened Stats
  import opened Records
  import opened Windowing
  import opened Rollup

  /** Samples per hour: HourLength segments of SegmentLength samples. */
  const HourSamples: nat := 3600  // HourLength * SegmentLength

  lemma SummaryStatIsColumnStat(w: seq<Sample>, m: Metric)
    requires |w| > 0
    ensures SummarizeWindow(w).StatOf(m) == ColumnStat(Column(w, m))
  {
  }

  /** Segment i of an hour of samples summarises quarter i of each column. */
  lemma QuarterStat(s: seq<Sample>, m: Metric, i: nat)
    requires |s| == HourSamples
    requires i < HourLength
    ensures |Segments(s)| == HourLength
    ensures Segments(s)[i].StatOf(m) == ColumnStat(Quarter(Column(s, m), i))
  {
    var lo := i * SegmentLength;
    SegmentAt(s, i);
    SummaryStatIsColumnStat(s[lo .. lo + SegmentLength], m);
    ColumnOfSlice(s, m, lo, lo + SegmentLength);
  }

  lemma ColumnOfSlice(s: seq<Sample>, m: Metric, lo: nat, hi: nat)
    requires lo <= hi <= |s|
    ensures Column(s[lo..hi], m) == Column(s, m)[lo..hi]
  {
  }

  /** Quarter i of a column of an hour of samples. */
  function Quarter(c: seq<int>, i: nat): seq<int>
    requires |c| == HourSamples && i < HourLength
  {
    c[i * SegmentLength .. i * SegmentLength + SegmentLength]
  }

  /** The Stat of each child segment of an hour, as a function of its quarter. */
  lemma ChildStats(s: seq<Sample>, m: Metric)
    requires |s| == HourSamples
    ensures |Segments(s)| == HourLength
    ensures forall i :: 0 <= i < HourLength ==>
              Segments(s)[i].StatOf(m) == ColumnStat(Quarter(Column(s, m), i))
  {
    forall i | 0 <= i < HourLength
      ensures Segments(s)[i].StatOf(m) == ColumnStat(Quarter(Column(s, m), i))
    {
      QuarterStat(s, m, i);
    }
  }

  lemma ChildColumns(s: seq<Sample>, m: Metric)
    requires |s| == HourSamples
    ensures |Segments(s)| == HourLength
    ensures var c := Column(s, m);
            var q0, q1, q2, q3 := Quarter(c, 0), Quarter(c, 1), Quarter(c, 2), Quarter(c, 3);
            && Maxes(Segments(s), m) == [Max(q0), Max(q1), Max(q2), Max(q3)]
            && Mins(Segments(s), m) == [Min(q0), Min(q1), Min(q2), Min(q3)]
            && Avgs(Segments(s), m) == [Mean(q0), Mean(q1), Mean(q2), Mean(q3)]
  {
    var b := Segments(s);
    ChildStats(s, m);
    ColumnsOfFour(b, m);
    assert b[0].StatOf(m) == ColumnStat(Quarter(Column(s, m), 0));
    assert b[1].StatOf(m) == ColumnStat(Quarter(Column(s, m), 1));
    assert b[2].StatOf(m) == ColumnStat(Quarter(Column(s, m), 2));
    assert b[3].StatOf(m) == ColumnStat(Quarter(Column(s, m), 3));
  }

  lemma ColumnsOfFour(b: seq<Summary>, m: Metric)
    requires |b| == HourLength
    ensures Maxes(b, m) == [b[0].StatOf(m).max, b[1].StatOf(m).max, b[2].StatOf(m).max, b[3].StatOf(m).max]
    ensures Mins(b, m) == [b[0].StatOf(m).min, b[1].StatOf(m).min, b[2].StatOf(m).min, b[3].StatOf(m).min]
    ensures Avgs(b, m) == [b[0].StatOf(m).avg, b[1].StatOf(m).avg, b[2].StatOf(m).avg, b[3].StatOf(m).avg]
  {
  }

  lemma QuartersJoin(c: seq<int>)
    requires |c| == HourSamples
    ensures c == Quarter(c, 0) + Quarter(c, 1) + Quarter(c, 2) + Quarter(c, 3)
  {
  }

  lemma HourStatMatches(s: seq<Sample>, m: Metric)
    requires |s| == HourSamples
    ensures |Segments(s)| == HourLength
    ensures RollupStat(Segments(s), m) == ColumnStat(Column(s, m))
  {
    var c := Column(s, m);
    var q0, q1, q2, q3 := Quarter(c, 0), Quarter(c, 1), Quarter(c, 2), Quarter(c, 3);
    ChildColumns(s, m);
    QuartersJoin(c);
    MaxOfFour(q0, q1, q2, q3);
    MinOfFour(q0, q1, q2, q3);
    MeanOfFourEqualMeans(q0, q1, q2, q3);
  }

  /** The hourly row rolled up from an hour's four segments equals the
      summary of that hour's samples taken directly. */
  lemma HourMatchesRawSamples(s: seq<Sample>)
    requires |s| == HourSamples
    ensures |Segments(s)| == HourLength
    ensures RollupBlock(Segments(s)) == SummarizeWindow(s)
  {
    var segs := Segments(s);
    HourHeaderMatches(s);
    HourStatMatches(s, HeartRate);
    HourStatMatches(s, RespirationRate);
    HourStatMatches(s, Activity);
    var r, w := RollupBlock(segs), SummarizeWindow(s);
    assert r.hr == RollupStat(segs, HeartRate) && w.hr == ColumnStat(Column(s, HeartRate));
    assert r.rr == RollupStat(segs, RespirationRate) && w.rr == ColumnStat(Column(s, RespirationRate));
    assert r.activity == RollupStat(segs, Activity) && w.activity == ColumnStat(Column(s, Activity));
  }

  /** Subject, start and end of the hour come from its first and last sample. */
  lemma HourHeaderMatches(s: seq<Sample>)
    requires |s| == HourSamples
    ensures |Segments(s)| == HourLength
    ensures Segments(s)[0].userId == s[0].userId
    ensures Segments(s)[0].segStart == s[0].timestamp
    ensures Segments(s)[HourLength - 1].segEnd == s[|s| - 1].timestamp
  {
    SegmentsWellFormed(s, 0);
    SegmentsWellFormed(s, HourLength - 1);
    assert (HourLength - 1) * SegmentLength + SegmentLength - 1 == |s| - 1;
  }

  /** Hour j of the 15-minute table is the 15-minute table of hour j's samples. */
  lemma SegmentsOfHour(s: seq<Sample>, j: nat)
    requires (j + 1) * HourSamples <= |s|
    ensures j * HourLength + HourLength <= |Segments(s)|
    ensures Segments(s)[j * HourLength .. j * HourLength + HourLength]
         == Segments(s[j * HourSamples .. j * HourSamples + HourSamples])
  {
    var hour := s[j * HourSamples .. j * HourSamples + HourSamples];
    var a, b := Segments(s)[j * HourLength .. j * HourLength + HourLength], Segments(hour);
    forall i | 0 <= i < HourLength ensures a[i] == b[i] {
      SegmentOfHour(s, j, i);
    }
  }

  lemma SegmentOfHour(s: seq<Sample>, j: nat, i: nat)
    requires (j + 1) * HourSamples <= |s|
    requires i < HourLength
    ensures j * HourLength + i < |Segments(s)|
    ensures |Segments(s[j * HourSamples .. j * HourSamples + HourSamples])| == HourLength
    ensures Segments(s)[j * HourLength + i] == Segments(s[j * HourSamples .. j * HourSamples + HourSamples])[i]
  {
    WindowOfHour(s, j, i);
  }

  /** Window i of hour j's samples is window 4j+i of the whole table. */
  lemma WindowOfHour<T>(s: seq<T>, j: nat, i: nat)
    requires (j + 1) * HourSamples <= |s|
    requires i < HourLength
    ensures j * HourLength + i < |Windows(s)|
    ensures |Windows(s[j * HourSamples .. j * HourSamples + HourSamples])| == HourLength
    ensures Windows(s)[j * HourLength + i] == Windows(s[j * HourSamples .. j * HourSamples + HourSamples])[i]
  {
    var hour := s[j * HourSamples .. j * HourSamples + HourSamples];
    var k := j * HourLength + i;
    var lo := i * SegmentLength;
    SegmentOffset(j, i, |s|);
    WindowAt(s, k);
    WindowAt(hour, i);
    SliceOfSlice(s, j * HourSamples, j * HourSamples + HourSamples, lo, lo + SegmentLength);
  }

  /** Segment i of hour j is segment 4j+i of the whole table, and it starts
      at sample 3600j + 900i. */
  lemma SegmentOffset(j: nat, i: nat, n: nat)
    requires (j + 1) * HourSamples <= n
    requires i < HourLength
    ensures (j * HourLength + i) * SegmentLength == j * HourSamples + i * SegmentLength
    ensures j * HourLength + i < n / SegmentLength
    ensures i < HourSamples / SegmentLength
  {
  }
}
