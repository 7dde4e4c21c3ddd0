/** Column statistics used by both aggregation levels: the sum, extrema and
    exact mean of a column of integer readings, and the sum and mean of a
    column of (already averaged) real values. Averages are exact rationals. */
module Stats {

  /** Sum of a column of integer readings. */
  function Sum(s: seq<int>): int {
    if s == [] then 0 else s[0] + Sum(s[1..])
  }

  /** Sum of a column of real values. */
  function SumR(s: seq<real>): real {
    if s == [] then 0.0 else s[0] + SumR(s[1..])
  }

  /** Largest value of a non-empty column. */
  function Max(s: seq<int>): int
    requires |s| > 0
  {
    if |s| == 1 then s[0]
    else
      var m := Max(s[1..]);
      if s[0] >= m then s[0] else m
  }

  /** Smallest value of a non-empty column. */
  function Min(s: seq<int>): int
    requires |s| > 0
  {
    if |s| == 1 then s[0]
    else
      var m := Min(s[1..]);
      if s[0] <= m then s[0] else m
  }

  /** Max picks a value of the column that no other value exceeds. */
  lemma {:induction false} MaxIsLargest(s: seq<int>)
    requires |s| > 0
    ensures Max(s) in s
    ensures forall x :: x in s ==> x <= Max(s)
  {
    if |s| > 1 {
      MaxIsLargest(s[1..]);
      assert s == [s[0]] + s[1..];
    }
  }

  /** Min picks a value of the column that no other value undercuts. */
  lemma {:induction false} MinIsSmallest(s: seq<int>)
    requires |s| > 0
    ensures Min(s) in s
    ensures forall x :: x in s ==> Min(s) <= x
  {
    if |s| > 1 {
      MinIsSmallest(s[1..]);
      assert s == [s[0]] + s[1..];
    }
  }

  /** Arithmetic mean of a non-empty integer column, as an exact rational. */
  function Mean(s: seq<int>): real
    requires |s| > 0
  {
    Sum(s) as real / |s| as real
  }

  /** Arithmetic mean of a non-empty real column (each value weighs the same). */
  function MeanR(s: seq<real>): real
    requires |s| > 0
  {
    SumR(s) / |s| as real
  }

  lemma {:induction false} SumAppend(a: seq<int>, b: seq<int>)
    ensures Sum(a + b) == Sum(a) + Sum(b)
  {
    if a != [] {
      assert (a + b)[1..] == a[1..] + b;
      SumAppend(a[1..], b);
    } else {
      assert a + b == b;
    }
  }

  /** n copies of a added up. */
  function Repeat(n: nat, a: int): int {
    if n == 0 then 0 else a + Repeat(n - 1, a)
  }

  function RepeatR(n: nat, a: real): real {
    if n == 0 then 0.0 else a + RepeatR(n - 1, a)
  }

  lemma {:induction false} RepeatIsProduct(n: nat, a: int)
    ensures Repeat(n, a) == n * a
  {
    if n > 0 {
      RepeatIsProduct(n - 1, a);
      MulStep(n, n - 1, a);
    }
  }

  lemma {:induction false} RepeatRIsProduct(n: nat, a: real)
    ensures RepeatR(n, a) == n as real * a
  {
    if n > 0 {
      RepeatRIsProduct(n - 1, a);
      MulStepR(n as real, (n - 1) as real, a);
    }
  }

  lemma MulStep(m: int, n: int, a: int)
    requires m == n + 1
    ensures m * a == n * a + a
  {
  }

  lemma MulStepR(m: real, n: real, a: real)
    requires m == n + 1.0
    ensures m * a == n * a + a
  {
  }

  /** Every reading between lo and hi bounds the sum by |s|*lo and |s|*hi. */
  lemma SumBounds(s: seq<int>, lo: int, hi: int)
    requires forall x :: x in s ==> lo <= x <= hi
    ensures |s| * lo <= Sum(s) <= |s| * hi
  {
    SumRepeatBounds(s, lo, hi);
    RepeatIsProduct(|s|, lo);
    RepeatIsProduct(|s|, hi);
  }

  lemma {:induction false} SumRepeatBounds(s: seq<int>, lo: int, hi: int)
    requires forall x :: x in s ==> lo <= x <= hi
    ensures Repeat(|s|, lo) <= Sum(s) <= Repeat(|s|, hi)
  {
    if s != [] {
      var t := s[1..];
      assert forall x :: x in t ==> x in s;
      SumRepeatBounds(t, lo, hi);
      assert s[0] in s;
    }
  }

  /** Every value between lo and hi bounds the sum by |s|*lo and |s|*hi. */
  lemma SumRBounds(s: seq<real>, lo: real, hi: real)
    requires forall x :: x in s ==> lo <= x <= hi
    ensures |s| as real * lo <= SumR(s) <= |s| as real * hi
  {
    SumRRepeatBounds(s, lo, hi);
    RepeatRIsProduct(|s|, lo);
    RepeatRIsProduct(|s|, hi);
  }

  lemma {:induction false} SumRRepeatBounds(s: seq<real>, lo: real, hi: real)
    requires forall x :: x in s ==> lo <= x <= hi
    ensures RepeatR(|s|, lo) <= SumR(s) <= RepeatR(|s|, hi)
  {
    if s != [] {
      var t := s[1..];
      assert forall x :: x in t ==> x in s;
      SumRRepeatBounds(t, lo, hi);
      assert s[0] in s;
    }
  }

  /** Dividing a total that lies between n*lo and n*hi by n lands between lo and hi. */
  lemma DivideBounds(total: real, n: real, lo: real, hi: real)
    requires n > 0.0
    requires n * lo <= total <= n * hi
    ensures lo <= total / n <= hi
  {
    assert total / n * n == total;
  }

  /** The mean of a column lies between its minimum and its maximum. */
  lemma MeanBetweenExtrema(s: seq<int>)
    requires |s| > 0
    ensures Min(s) as real <= Mean(s) <= Max(s) as real
  {
    MaxIsLargest(s);
    MinIsSmallest(s);
    SumBounds(s, Min(s), Max(s));
    QuotientBounds(Sum(s), |s|, Min(s), Max(s));
  }

  /** An integer total between n*lo and n*hi, divided by n, lies between lo and hi. */
  lemma QuotientBounds(total: int, n: int, lo: int, hi: int)
    requires n > 0
    requires n * lo <= total <= n * hi
    ensures lo as real <= total as real / n as real <= hi as real
  {
    ProductAsReal(n, lo);
    ProductAsReal(n, hi);
    DivideBounds(total as real, n as real, lo as real, hi as real);
  }

  lemma ProductAsReal(a: int, b: int)
    ensures (a * b) as real == a as real * b as real
  {
  }

  /** A mean of real values that all lie between lo and hi lies between lo and hi. */
  lemma MeanRBetween(s: seq<real>, lo: real, hi: real)
    requires |s| > 0
    requires forall x :: x in s ==> lo <= x <= hi
    ensures lo <= MeanR(s) <= hi
  {
    SumRBounds(s, lo, hi);
    DivideBounds(SumR(s), |s| as real, lo, hi);
  }

  /** The maximum of a concatenation is the larger of the two maxima. */
  lemma MaxConcat(a: seq<int>, b: seq<int>)
    requires |a| > 0 && |b| > 0
    ensures Max(a + b) == if Max(a) >= Max(b) then Max(a) else Max(b)
  {
    MaxIsLargest(a);
    MaxIsLargest(b);
    MaxIsLargest(a + b);
    var r := if Max(a) >= Max(b) then Max(a) else Max(b);
    assert r in a + b;
    assert Max(a + b) in a || Max(a + b) in b;
  }

  /** The minimum of a concatenation is the smaller of the two minima. */
  lemma MinConcat(a: seq<int>, b: seq<int>)
    requires |a| > 0 && |b| > 0
    ensures Min(a + b) == if Min(a) <= Min(b) then Min(a) else Min(b)
  {
    MinIsSmallest(a);
    MinIsSmallest(b);
    MinIsSmallest(a + b);
    var r := if Min(a) <= Min(b) then Min(a) else Min(b);
    assert r in a + b;
    assert Min(a + b) in a || Min(a + b) in b;
  }

  lemma SumRFour(x0: real, x1: real, x2: real, x3: real)
    ensures SumR([x0, x1, x2, x3]) == x0 + x1 + x2 + x3
  {
    assert [x3][1..] == [];
    assert SumR([x3]) == x3;
    assert [x2, x3][1..] == [x3];
    assert SumR([x2, x3]) == x2 + x3;
    assert [x1, x2, x3][1..] == [x2, x3];
    assert SumR([x1, x2, x3]) == x1 + x2 + x3;
    assert [x0, x1, x2, x3][1..] == [x1, x2, x3];
  }

  /** The largest of four maxima is the maximum of the four columns joined. */
  lemma MaxOfFour(a: seq<int>, b: seq<int>, c: seq<int>, d: seq<int>)
    requires |a| > 0 && |b| > 0 && |c| > 0 && |d| > 0
    ensures Max([Max(a), Max(b), Max(c), Max(d)]) == Max(a + b + c + d)
  {
    var x0, x1, x2, x3 := Max(a), Max(b), Max(c), Max(d);
    MaxConcat(a, b);
    var y1 := if x0 >= x1 then x0 else x1;
    assert Max(a + b) == y1;
    MaxConcat(a + b, c);
    var y2 := if y1 >= x2 then y1 else x2;
    assert Max(a + b + c) == y2;
    MaxConcat(a + b + c, d);
    var y3 := if y2 >= x3 then y2 else x3;
    assert Max(a + b + c + d) == y3;
    MaxOfLiteral(x0, x1, x2, x3);
  }

  lemma MaxOfLiteral(x0: int, x1: int, x2: int, x3: int)
    ensures var r := Max([x0, x1, x2, x3]);
            && r >= x0 && r >= x1 && r >= x2 && r >= x3
            && (r == x0 || r == x1 || r == x2 || r == x3)
  {
    var xs := [x0, x1, x2, x3];
    MaxIsLargest(xs);
    assert xs[0] in xs && xs[1] in xs && xs[2] in xs && xs[3] in xs;
  }

  /** The smallest of four minima is the minimum of the four columns joined. */
  lemma MinOfFour(a: seq<int>, b: seq<int>, c: seq<int>, d: seq<int>)
    requires |a| > 0 && |b| > 0 && |c| > 0 && |d| > 0
    ensures Min([Min(a), Min(b), Min(c), Min(d)]) == Min(a + b + c + d)
  {
    var x0, x1, x2, x3 := Min(a), Min(b), Min(c), Min(d);
    MinConcat(a, b);
    var y1 := if x0 <= x1 then x0 else x1;
    assert Min(a + b) == y1;
    MinConcat(a + b, c);
    var y2 := if y1 <= x2 then y1 else x2;
    assert Min(a + b + c) == y2;
    MinConcat(a + b + c, d);
    var y3 := if y2 <= x3 then y2 else x3;
    assert Min(a + b + c + d) == y3;
    MinOfLiteral(x0, x1, x2, x3);
  }

  lemma MinOfLiteral(x0: int, x1: int, x2: int, x3: int)
    ensures var r := Min([x0, x1, x2, x3]);
            && r <= x0 && r <= x1 && r <= x2 && r <= x3
            && (r == x0 || r == x1 || r == x2 || r == x3)
  {
    var xs := [x0, x1, x2, x3];
    MinIsSmallest(xs);
    assert xs[0] in xs && xs[1] in xs && xs[2] in xs && xs[3] in xs;
  }

  /** For four columns of one common length, the unweighted mean of their
      means is the mean of the four columns joined. */
  lemma MeanOfFourEqualMeans(a: seq<int>, b: seq<int>, c: seq<int>, d: seq<int>)
    requires |a| > 0 && |b| == |a| && |c| == |a| && |d| == |a|
    ensures MeanR([Mean(a), Mean(b), Mean(c), Mean(d)]) == Mean(a + b + c + d)
  {
    SumAppend(a, b);
    SumAppend(a + b, c);
    SumAppend(a + b + c, d);
    SumRFour(Mean(a), Mean(b), Mean(c), Mean(d));
    var n := |a| as real;
    var sa, sb, sc, sd := Sum(a) as real, Sum(b) as real, Sum(c) as real, Sum(d) as real;
    assert |a + b + c + d| as real == 4.0 * n;
    assert Sum(a + b + c + d) as real == sa + sb + sc + sd;
    SplitQuotient(sa, sb, sc, sd, n);
  }

  lemma SplitQuotient(sa: real, sb: real, sc: real, sd: real, n: real)
    requires n > 0.0
    ensures (sa / n + sb / n + sc / n + sd / n) / 4.0 == (sa + sb + sc + sd) / (4.0 * n)
  {
    assert sa / n + sb / n + sc / n + sd / n == (sa + sb + sc + sd) / n;
  }
}
