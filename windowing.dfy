/** The 15-minute level: a window of consecutive samples collapses into one
    summary row, and a sample table of length n yields n / 900 rows, one per
    complete window, in order. */
module Windowing {
  import opened Stats
  import opened Records

  /** Samples per segment: one sample per second for 15 minutes. */
  const SegmentLength: nat := 900  // 60 * 15

  /** The readings of one metric over a window, in arrival order. */
  function Column(w: seq<Sample>, m: Metric): seq<int> {
    seq(|w|, i requires 0 <= i < |w| => w[i].Reading(m))
  }

  /** avg, max and min of one column; min <= avg <= max. */
  function ColumnStat(c: seq<int>): (r: Stat)
    requires |c| > 0
    ensures r.Ordered()
  {
    MeanBetweenExtrema(c);
    Stat(Mean(c), Max(c), Min(c))
  }

  /** What the avg, max and min of one metric over a window mean. */
  ghost predicate StatOfWindow(st: Stat, w: seq<Sample>, m: Metric)
    requires |w| > 0
  {
    && (forall i :: 0 <= i < |w| ==> st.min <= w[i].Reading(m) <= st.max)
    && st.max in Column(w, m)
    && st.min in Column(w, m)
    && st.avg == Sum(Column(w, m)) as real / |w| as real
  }

  lemma ColumnStatOfWindow(w: seq<Sample>, m: Metric)
    requires |w| > 0
    ensures StatOfWindow(ColumnStat(Column(w, m)), w, m)
    ensures ColumnStat(Column(w, m)).Ordered()
  {
    var c := Column(w, m);
    MaxIsLargest(c);
    MinIsSmallest(c);
    forall i | 0 <= i < |w| ensures Max(c) >= w[i].Reading(m) >= Min(c) {
      assert c[i] == w[i].Reading(m) && c[i] in c;
    }
    MeanBetweenExtrema(c);
  }

  /** The summary row of a window: subject and start from its first sample,
      end from its last sample, and per metric the max, min and exact mean
      of the window's readings. */
  function SummarizeWindow(w: seq<Sample>): (r: Summary)
    requires |w| > 0
    ensures r.userId == w[0].userId
    ensures r.segStart == w[0].timestamp && r.segEnd == w[|w| - 1].timestamp
    ensures r.Ordered()
  {
    ColumnStatOfWindow(w, HeartRate);
    ColumnStatOfWindow(w, RespirationRate);
    ColumnStatOfWindow(w, Activity);
    Summary(w[0].userId, w[0].timestamp, w[|w| - 1].timestamp,
            ColumnStat(Column(w, HeartRate)),
            ColumnStat(Column(w, RespirationRate)),
            ColumnStat(Column(w, Activity)))
  }

  /** Per metric, a window's summary holds the max, the min and the exact
      mean of the window's readings. */
  lemma SummarizeWindowStats(w: seq<Sample>, m: Metric)
    requires |w| > 0
    ensures StatOfWindow(SummarizeWindow(w).StatOf(m), w, m)
  {
    ColumnStatOfWindow(w, m);
  }

  /** The complete windows of a table: consecutive, non-overlapping runs of
      SegmentLength rows, in order; an unfinished last window is not one. */
  function Windows<T>(s: seq<T>): (r: seq<seq<T>>)
    ensures |r| == |s| / SegmentLength
    ensures forall k :: 0 <= k < |r| ==> |r[k]| == SegmentLength
    decreases |s|
  {
    if |s| < SegmentLength then []
    else [s[..SegmentLength]] + Windows(s[SegmentLength..])
  }

  /** Window k holds exactly rows k*900 .. k*900+899. */
  lemma {:induction false} WindowAt<T>(s: seq<T>, k: nat)
    requires k < |s| / SegmentLength
    ensures k * SegmentLength + SegmentLength <= |s|
    ensures Windows(s)[k] == s[k * SegmentLength .. k * SegmentLength + SegmentLength]
  {
    if k > 0 {
      var t := s[SegmentLength..];
      WindowAt(t, k - 1);
      assert t[(k - 1) * SegmentLength .. (k - 1) * SegmentLength + SegmentLength]
          == s[k * SegmentLength .. k * SegmentLength + SegmentLength];
    }
  }

  /** Appending one row closes a window exactly when the row count becomes a
      multiple of 900; that window is the last 900 rows, and the earlier
      windows stay as they were. */
  lemma WindowsSnoc<T>(s: seq<T>, x: T)
    ensures Windows(s + [x])
         == Windows(s) + if (|s| + 1) % SegmentLength == 0
                         then [(s + [x])[|s| + 1 - SegmentLength..]]
                         else []
  {
    if (|s| + 1) % SegmentLength == 0 {
      SnocCompletesWindow(s, x);
    } else {
      SnocInsideWindow(s, x);
    }
  }

  lemma SnocInsideWindow<T>(s: seq<T>, x: T)
    requires (|s| + 1) % SegmentLength != 0
    ensures Windows(s + [x]) == Windows(s)
  {
    var before, after := Windows(s), Windows(s + [x]);
    CountAfterOneMore(|s|);
    forall k | 0 <= k < |before| ensures after[k] == before[k] {
      SnocKeepsWindow(s, x, k);
    }
  }

  lemma SnocCompletesWindow<T>(s: seq<T>, x: T)
    requires (|s| + 1) % SegmentLength == 0
    ensures Windows(s + [x]) == Windows(s) + [(s + [x])[|s| + 1 - SegmentLength..]]
  {
    var before, after := Windows(s), Windows(s + [x]);
    SnocAddsWindow(s, x);
    forall k | 0 <= k < |before| ensures after[k] == before[k] {
      SnocKeepsWindow(s, x, k);
    }
    ExtendedBy(after, before, (s + [x])[|s| + 1 - SegmentLength..]);
  }

  /** A sequence that agrees with b on b's indices and has y just after them is b + [y]. */
  lemma ExtendedBy<U>(a: seq<U>, b: seq<U>, y: U)
    requires |a| == |b| + 1 && a[|b|] == y
    requires forall k :: 0 <= k < |b| ==> a[k] == b[k]
    ensures a == b + [y]
  {
  }

  lemma SnocKeepsWindow<T>(s: seq<T>, x: T, k: nat)
    requires k < |s| / SegmentLength
    ensures k < |Windows(s + [x])| && Windows(s + [x])[k] == Windows(s)[k]
  {
    var t := s + [x];
    CountAfterOneMore(|s|);
    WindowAt(t, k);
    WindowAt(s, k);
    var lo := k * SegmentLength;
    SliceBeforeEnd(s, x, lo, lo + SegmentLength);
  }

  /** Appending a row leaves every slice of the old rows as it was. */
  lemma SliceBeforeEnd<T>(s: seq<T>, x: T, lo: nat, hi: nat)
    requires lo <= hi <= |s|
    ensures (s + [x])[lo..hi] == s[lo..hi]
  {
  }

  lemma SnocAddsWindow<T>(s: seq<T>, x: T)
    requires (|s| + 1) % SegmentLength == 0
    ensures |Windows(s + [x])| == |s| / SegmentLength + 1
    ensures Windows(s + [x])[|s| / SegmentLength] == (s + [x])[|s| + 1 - SegmentLength..]
  {
    var t := s + [x];
    CountAfterOneMore(|s|);
    var k := |s| / SegmentLength;
    WindowAt(t, k);
    assert k * SegmentLength == |s| + 1 - SegmentLength;
  }

  /** One more row completes a window exactly when the new count is a
      multiple of the window length, and that window starts at
      (count / length) * length. */
  lemma CountAfterOneMore(n: nat)
    ensures (n + 1) / SegmentLength
         == n / SegmentLength + if (n + 1) % SegmentLength == 0 then 1 else 0
    ensures (n + 1) % SegmentLength == 0
         ==> (n / SegmentLength) * SegmentLength == n + 1 - SegmentLength
  {
  }

  /** The 15-minute table derived from a sample table: one summary per
      complete window, in order. */
  function Segments(s: seq<Sample>): (r: seq<Summary>)
    ensures |r| == |s| / SegmentLength
  {
    Summaries(Windows(s))
  }

  /** The summary of each window, in order. */
  function Summaries(ws: seq<seq<Sample>>): seq<Summary>
    requires forall k :: 0 <= k < |ws| ==> |ws[k]| > 0
  {
    seq(|ws|, k requires 0 <= k < |ws| => SummarizeWindow(ws[k]))
  }

  lemma SummariesSnoc(ws: seq<seq<Sample>>, w: seq<Sample>)
    requires forall k :: 0 <= k < |ws| ==> |ws[k]| > 0
    requires |w| > 0
    ensures Summaries(ws + [w]) == Summaries(ws) + [SummarizeWindow(w)]
  {
    var a, b := Summaries(ws + [w]), Summaries(ws);
    forall k | 0 <= k < |b| ensures a[k] == b[k] {
      assert (ws + [w])[k] == ws[k];
    }
    ExtendedBy(a, b, SummarizeWindow(w));
  }

  /** There are |s| / 900 segments, and segment k summarises exactly
      samples k*900 .. k*900+899. */
  lemma SegmentAt(s: seq<Sample>, k: nat)
    requires k < |s| / SegmentLength
    ensures |Segments(s)| == |s| / SegmentLength
    ensures k * SegmentLength + SegmentLength <= |s|
    ensures Segments(s)[k]
         == SummarizeWindow(s[k * SegmentLength .. k * SegmentLength + SegmentLength])
  {
    WindowAt(s, k);
  }

  /** Appending one sample appends a segment exactly when the sample count
      becomes a multiple of 900, and that segment summarises the last 900
      samples; earlier segments are unchanged. */
  lemma SegmentsSnoc(s: seq<Sample>, x: Sample)
    ensures Segments(s + [x])
         == Segments(s) + if (|s| + 1) % SegmentLength == 0
                          then [SummarizeWindow((s + [x])[|s| + 1 - SegmentLength..])]
                          else []
  {
    var t := s + [x];
    WindowsSnoc(s, x);
    if (|s| + 1) % SegmentLength == 0 {
      var w := t[|s| + 1 - SegmentLength..];
      assert Windows(t) == Windows(s) + [w];
      SummariesSnoc(Windows(s), w);
    } else {
      assert Windows(t) == Windows(s);
    }
  }

  /** Every row of the 15-minute table keeps min <= avg <= max; its subject
      and start come from sample k*900 and its end from sample k*900+899. */
  lemma SegmentsWellFormed(s: seq<Sample>, k: nat)
    requires k < |s| / SegmentLength
    ensures |Segments(s)| == |s| / SegmentLength
    ensures k * SegmentLength + SegmentLength <= |s|
    ensures Segments(s)[k].Ordered()
    ensures Segments(s)[k].userId == s[k * SegmentLength].userId
    ensures Segments(s)[k].segStart == s[k * SegmentLength].timestamp
    ensures Segments(s)[k].segEnd == s[k * SegmentLength + SegmentLength - 1].timestamp
  {
    SegmentAt(s, k);
    var lo := k * SegmentLength;
    var w := s[lo .. lo + SegmentLength];
    assert w[0] == s[lo] && w[|w| - 1] == s[lo + SegmentLength - 1];
  }

  /** A slice of a slice is a slice of the original. */
  lemma SliceOfSlice<T>(s: seq<T>, lo: nat, hi: nat, a: nat, b: nat)
    requires lo <= hi <= |s| && a <= b <= hi - lo
    ensures s[lo..hi][a..b] == s[lo + a .. lo + b]
  {
    var x, y := s[lo..hi][a..b], s[lo + a .. lo + b];
    assert |x| == |y|;
    forall i | 0 <= i < |x| ensures x[i] == y[i] {
      assert x[i] == s[lo..hi][a + i] == s[lo + a + i];
    }
  }
}
