/** The dashboard numbers (app.py:374-394): the average day
    (`groupby(index.hour).mean()`), the daily and annual metrics, the
    day/night split of the average day, and the load-duration curves. */
module Metrics {
  import opened Calendar
  import opened Series
  import opened Sorting
  import opened Scenario

  /** One row of the average day: an hour of the day and the mean power of
      the samples at that hour. */
  datatype ProfileRow = ProfileRow(hour: int, kw: real)

  /** Energy of the samples at hour `h` of the day. */
  function HourSum(s: seq<Sample>, h: int): real {
    if |s| == 0 then 0.0
    else (if HourOf(s[0].ts) == h then s[0].kw else 0.0) + HourSum(s[1..], h)
  }

  /** Number of samples at hour `h` of the day. */
  function HourCount(s: seq<Sample>, h: int): nat {
    if |s| == 0 then 0 else (if HourOf(s[0].ts) == h then 1 else 0) + HourCount(s[1..], h)
  }

  /** An hour has a sample count exactly when some sample falls in it. */
  lemma {:induction false} HourCountCounts(s: seq<Sample>, h: int)
    ensures HourCount(s, h) > 0 <==> exists i :: 0 <= i < |s| && HourOf(s[i].ts) == h
  {
    if |s| > 0 {
      HourCountCounts(s[1..], h);
      assert forall i :: 1 <= i < |s| ==> s[i] == s[1..][i - 1];
      if HourCount(s[1..], h) > 0 {
        var i :| 0 <= i < |s[1..]| && HourOf(s[1..][i].ts) == h;
        assert HourOf(s[i + 1].ts) == h;
      }
    }
  }

  /** Mean power of the samples at an hour that occurs. */
  function HourMean(s: seq<Sample>, h: int): real
    requires HourCount(s, h) > 0
  {
    HourSum(s, h) / HourCount(s, h) as real
  }

  lemma {:induction false} AbsentHourHasNoEnergy(s: seq<Sample>, h: int)
    requires HourCount(s, h) == 0
    ensures HourSum(s, h) == 0.0
  {
    if |s| > 0 {
      AbsentHourHasNoEnergy(s[1..], h);
    }
  }

  /** The rows of the hours `h`..23 that occur in the series, in hour order. */
  function ProfileFrom(s: seq<Sample>, h: int): (p: seq<ProfileRow>)
    requires 0 <= h <= HoursPerDay
    ensures forall k :: 0 <= k < |p| ==> h <= p[k].hour < HoursPerDay
    decreases HoursPerDay - h
  {
    if h == HoursPerDay then []
    else
      var rest := ProfileFrom(s, h + 1);
      var n := HourCount(s, h);
      if n > 0 then [ProfileRow(h, HourMean(s, h))] + rest else rest
  }

  /** `df.groupby(df.index.hour)['Potencia_kW'].mean()`. */
  function HourlyProfile(s: seq<Sample>): (p: seq<ProfileRow>)
    ensures forall k :: 0 <= k < |p| ==>
      0 <= p[k].hour < HoursPerDay && HourCount(s, p[k].hour) > 0
      && p[k].kw == HourMean(s, p[k].hour)
  {
    ProfileFromRows(s, 0);
    ProfileFrom(s, 0)
  }

  lemma {:induction false} ProfileFromRows(s: seq<Sample>, h: int)
    requires 0 <= h <= HoursPerDay
    ensures forall k :: 0 <= k < |ProfileFrom(s, h)| ==>
      HourCount(s, ProfileFrom(s, h)[k].hour) > 0 && ProfileFrom(s, h)[k].kw == HourMean(s, ProfileFrom(s, h)[k].hour)
    decreases HoursPerDay - h
  {
    if h < HoursPerDay {
      ProfileFromRows(s, h + 1);
      ProfileShift(s, h);
    }
  }

  /** The rows come in increasing hour order, each hour at most once. */
  lemma ProfileInHourOrder(s: seq<Sample>)
    ensures forall k, l :: 0 <= k < l < |HourlyProfile(s)| ==> HourlyProfile(s)[k].hour < HourlyProfile(s)[l].hour
  {
    ProfileFromInHourOrder(s, 0);
  }

  lemma {:induction false} ProfileFromInHourOrder(s: seq<Sample>, h: int)
    requires 0 <= h <= HoursPerDay
    ensures forall k, l :: 0 <= k < l < |ProfileFrom(s, h)| ==> ProfileFrom(s, h)[k].hour < ProfileFrom(s, h)[l].hour
    decreases HoursPerDay - h
  {
    if h < HoursPerDay {
      ProfileFromInHourOrder(s, h + 1);
      ProfileShift(s, h);
      var p, rest := ProfileFrom(s, h), ProfileFrom(s, h + 1);
      if HourCount(s, h) > 0 {
        forall k, l | 0 <= k < l < |p|
          ensures p[k].hour < p[l].hour
        {
          assert p[l] == rest[l - 1];
          if k > 0 {
            assert p[k] == rest[k - 1];
          } else {
            assert p[0].hour == h < h + 1 <= rest[l - 1].hour;
          }
        }
      }
    }
  }

  /** Every hour that occurs in the series has its row. */
  lemma {:induction false} ProfileCovers(s: seq<Sample>, h: int, g: int)
    requires 0 <= h <= g < HoursPerDay && HourCount(s, g) > 0
    ensures exists k :: 0 <= k < |ProfileFrom(s, h)| && ProfileFrom(s, h)[k].hour == g
    decreases HoursPerDay - h
  {
    if g == h {
      ProfileShift(s, h);
    } else {
      ProfileCovers(s, h + 1, g);
      var rest := ProfileFrom(s, h + 1);
      var k :| 0 <= k < |rest| && rest[k].hour == g;
      ProfileShift(s, h);
      if HourCount(s, h) > 0 {
        assert ProfileFrom(s, h)[k + 1].hour == g;
      } else {
        assert ProfileFrom(s, h)[k].hour == g;
      }
    }
  }

  /** The rows from hour `h` are those from `h + 1`, preceded by the row of
      `h` when that hour occurs. */
  lemma ProfileShift(s: seq<Sample>, h: int)
    requires 0 <= h < HoursPerDay
    ensures var p, rest := ProfileFrom(s, h), ProfileFrom(s, h + 1);
      if HourCount(s, h) > 0 then |p| == |rest| + 1 && p[0] == ProfileRow(h, HourMean(s, h)) && p[1..] == rest
      else p == rest
  {
  }

  /** The average day has a row for hour `g` exactly when some sample of
      the series falls in that hour. */
  lemma ProfileRowIffHourPresent(s: seq<Sample>, g: int)
    ensures (exists k :: 0 <= k < |HourlyProfile(s)| && HourlyProfile(s)[k].hour == g)
        <==> exists i :: 0 <= i < |s| && HourOf(s[i].ts) == g
  {
    var p := HourlyProfile(s);
    HourCountCounts(s, g);
    if exists i :: 0 <= i < |s| && HourOf(s[i].ts) == g {
      var i :| 0 <= i < |s| && HourOf(s[i].ts) == g;
      ProfileCovers(s, 0, g);
    }
    if exists k :: 0 <= k < |p| && p[k].hour == g {
      var k :| 0 <= k < |p| && p[k].hour == g;
      assert HourCount(s, g) > 0;
    }
  }

  /** A series with a sample has a nonempty average day. */
  lemma ProfileOfNonEmpty(s: seq<Sample>)
    requires |s| > 0
    ensures |HourlyProfile(s)| > 0
  {
    HourCountCounts(s, HourOf(s[0].ts));
    ProfileCovers(s, 0, HourOf(s[0].ts));
  }

  /** Sum over rows of the sample count times the mean: the energy the
      average day stands for. */
  function Weighted(s: seq<Sample>, p: seq<ProfileRow>): real {
    if |p| == 0 then 0.0
    else HourCount(s, p[0].hour) as real * p[0].kw + Weighted(s, p[1..])
  }

  /** Energy of the hours `h`..23. */
  function HourSums(s: seq<Sample>, h: int): real
    requires 0 <= h <= HoursPerDay
    decreases HoursPerDay - h
  {
    if h == HoursPerDay then 0.0 else HourSum(s, h) + HourSums(s, h + 1)
  }

  lemma {:induction false} WeightedIsHourSums(s: seq<Sample>, h: int)
    requires 0 <= h <= HoursPerDay
    ensures Weighted(s, ProfileFrom(s, h)) == HourSums(s, h)
    decreases HoursPerDay - h
  {
    if h < HoursPerDay {
      WeightedIsHourSums(s, h + 1);
      WeightedStep(s, h);
    }
  }

  /** The row of hour `h`, if any, weighs exactly the energy of that hour. */
  lemma WeightedStep(s: seq<Sample>, h: int)
    requires 0 <= h < HoursPerDay
    ensures Weighted(s, ProfileFrom(s, h)) == HourSum(s, h) + Weighted(s, ProfileFrom(s, h + 1))
  {
    var p, rest := ProfileFrom(s, h), ProfileFrom(s, h + 1);
    if HourCount(s, h) > 0 {
      var x := ProfileRow(h, HourMean(s, h));
      assert p == [x] + rest;
      WeightedCons(s, x, rest);
      CountTimesMean(s, h);
    } else {
      assert p == rest;
      AbsentHourHasNoEnergy(s, h);
    }
  }

  lemma WeightedCons(s: seq<Sample>, x: ProfileRow, rest: seq<ProfileRow>)
    ensures Weighted(s, [x] + rest) == HourCount(s, x.hour) as real * x.kw + Weighted(s, rest)
  {
    assert ([x] + rest)[1..] == rest;
  }

  lemma CountTimesMean(s: seq<Sample>, h: int)
    requires HourCount(s, h) > 0
    ensures HourCount(s, h) as real * HourMean(s, h) == HourSum(s, h)
  {
    QuotientTimes(HourSum(s, h), HourCount(s, h) as real);
  }

  lemma QuotientTimes(x: real, n: real)
    requires n > 0.0
    ensures n * (x / n) == x
  {
  }

  lemma {:induction false} HourSumsSplit(s: seq<Sample>, h: int)
    requires |s| > 0 && 0 <= h <= HoursPerDay
    ensures HourSums(s, h) == (if h <= HourOf(s[0].ts) then s[0].kw else 0.0) + HourSums(s[1..], h)
    decreases HoursPerDay - h
  {
    if h < HoursPerDay {
      HourSumsSplit(s, h + 1);
    }
  }

  lemma {:induction false} HourSumsIsTotal(s: seq<Sample>)
    ensures HourSums(s, 0) == Total(s)
  {
    if |s| == 0 {
      EmptyHourSums(s, 0);
    } else {
      HourSumsSplit(s, 0);
      HourSumsIsTotal(s[1..]);
    }
  }

  lemma {:induction false} EmptyHourSums(s: seq<Sample>, h: int)
    requires |s| == 0 && 0 <= h <= HoursPerDay
    ensures HourSums(s, h) == 0.0
    decreases HoursPerDay - h
  {
    if h < HoursPerDay {
      EmptyHourSums(s, h + 1);
    }
  }

  /** The average day loses no energy: each row's mean times its sample
      count, summed over the rows, is the total energy of the series. */
  lemma ProfileWeightsGiveTotal(s: seq<Sample>)
    ensures Weighted(s, HourlyProfile(s)) == Total(s)
  {
    WeightedIsHourSums(s, 0);
    HourSumsIsTotal(s);
  }

  /** A series of at least a day of consecutive hours has all 24 rows,
      hour `k` at position `k`. */
  lemma FullDayProfile(s: seq<Sample>)
    requires |s| >= HoursPerDay && HourlyGrid(s)
    ensures |HourlyProfile(s)| == HoursPerDay
    ensures forall k :: 0 <= k < HoursPerDay ==> HourlyProfile(s)[k].hour == k
  {
    forall h | 0 <= h < HoursPerDay
      ensures HourCount(s, h) > 0
    {
      HourOccurs(s, h);
    }
    AllHoursPresent(s, 0);
  }

  /** In a day of consecutive hours every hour of the day occurs. */
  lemma HourOccurs(s: seq<Sample>, h: int)
    requires |s| >= HoursPerDay && HourlyGrid(s) && 0 <= h < HoursPerDay
    ensures HourCount(s, h) > 0
  {
    var a := HourOf(s[0].ts);
    var i := if h >= a then h - a else h - a + HoursPerDay;
    assert 0 <= i < HoursPerDay && (a + i) % HoursPerDay == h;
    HourAfter(s[0].ts, i);
    assert s[i].ts == s[0].ts + SecondsPerHour * i;
    assert HourOf(s[i].ts) == h;
    HourCountCounts(s, h);
  }

  lemma {:induction false} AllHoursPresent(s: seq<Sample>, h: int)
    requires 0 <= h <= HoursPerDay
    requires forall g :: h <= g < HoursPerDay ==> HourCount(s, g) > 0
    ensures |ProfileFrom(s, h)| == HoursPerDay - h
    ensures forall k :: 0 <= k < HoursPerDay - h ==> ProfileFrom(s, h)[k].hour == h + k
    decreases HoursPerDay - h
  {
    if h < HoursPerDay {
      AllHoursPresent(s, h + 1);
      var p, rest := ProfileFrom(s, h), ProfileFrom(s, h + 1);
      assert forall k :: 1 <= k < |p| ==> p[k] == rest[k - 1];
    }
  }

  function RowValues(p: seq<ProfileRow>): (v: seq<real>)
    ensures |v| == |p|
    ensures forall k :: 0 <= k < |p| ==> v[k] == p[k].kw
  {
    seq(|p|, k requires 0 <= k < |p| => p[k].kw)
  }

  /** The four dashboard numbers, plus the energy of the average day. */
  datatype DailyMetrics = DailyMetrics(dailyKwh: real, peakKw: real, meanKw: real, monthlyKwh: real, annualKwh: real)

  /** Metrics of a nonempty average day: its energy is the sum of the
      hourly means, the peak is the largest hourly mean, the mean is the
      value that repeated over the rows gives the day's energy, and the
      month and year are 30 and 365 such days. */
  function ProfileMetrics(p: seq<ProfileRow>): (m: DailyMetrics)
    requires |p| > 0
    ensures forall k :: 0 <= k < |p| ==> p[k].kw <= m.peakKw
    ensures exists k :: 0 <= k < |p| && p[k].kw == m.peakKw
    ensures m.dailyKwh == Sum(RowValues(p))
    ensures m.meanKw * (|p| as real) == m.dailyKwh
    ensures m.monthlyKwh == 30.0 * m.dailyKwh && m.annualKwh == 365.0 * m.dailyKwh
  {
    var v := RowValues(p);
    var daily := Sum(v);
    DailyMetrics(daily, MaxOf(v), Mean(v), daily * 30.0, daily * 365.0)
  }

  /** The dashboard metrics of a nonempty series. */
  function Daily(s: seq<Sample>): DailyMetrics
    requires |s| > 0
  {
    ProfileOfNonEmpty(s);
    ProfileMetrics(HourlyProfile(s))
  }

  /** The daily mean lies between the smallest hourly mean and the peak. */
  lemma DailyMeanWithinProfile(s: seq<Sample>)
    requires |s| > 0
    ensures var v := RowValues(HourlyProfile(s));
      |v| > 0 && MinOf(v) <= Daily(s).meanKw <= Daily(s).peakKw
  {
    ProfileOfNonEmpty(s);
    MeanWithinRange(RowValues(HourlyProfile(s)));
  }

  /** Total, peak and mean of the adjusted series itself. */
  datatype AnnualMetrics = AnnualMetrics(totalKwh: real, peakKw: real, meanKw: real)

  function Annual(s: seq<Sample>): (m: AnnualMetrics)
    requires |s| > 0
    ensures m.totalKwh == Total(s)
    ensures forall i :: 0 <= i < |s| ==> s[i].kw <= m.peakKw
    ensures exists i :: 0 <= i < |s| && s[i].kw == m.peakKw
    ensures m.meanKw * (|s| as real) == m.totalKwh
  {
    var v := Values(s);
    TotalIsSumOfValues(s);
    AnnualMetrics(Sum(v), MaxOf(v), Mean(v))
  }

  /** The annual mean lies between the smallest sample and the peak. */
  lemma AnnualMeanWithinSeries(s: seq<Sample>)
    requires |s| > 0
    ensures MinOf(Values(s)) <= Annual(s).meanKw <= Annual(s).peakKw
  {
    MeanWithinRange(Values(s));
  }

  /** Rows of the average day inside the window's hours
      `range(start.hour, end.hour + 1)`, in order. */
  function DayRows(p: seq<ProfileRow>, w: Window): (d: seq<ProfileRow>)
    ensures forall r :: r in d <==> r in p && InWindowHours(w, r.hour)
    ensures |d| <= |p|
  {
    if |p| == 0 then []
    else if InWindowHours(w, p[0].hour) then [p[0]] + DayRows(p[1..], w)
    else DayRows(p[1..], w)
  }

  /** The remaining rows, in order. */
  function NightRows(p: seq<ProfileRow>, w: Window): (n: seq<ProfileRow>)
    ensures forall r :: r in n <==> r in p && !InWindowHours(w, r.hour)
    ensures |n| <= |p|
  {
    if |p| == 0 then []
    else if InWindowHours(w, p[0].hour) then NightRows(p[1..], w)
    else [p[0]] + NightRows(p[1..], w)
  }

  /** Both charts keep the rows in the order of the average day: the rows
      of a profile split in two are those of the first part followed by
      those of the second ... */
  lemma {:induction false} DayRowsAppend(a: seq<ProfileRow>, b: seq<ProfileRow>, w: Window)
    ensures DayRows(a + b, w) == DayRows(a, w) + DayRows(b, w)
  {
    if |a| == 0 {
      assert a + b == b;
    } else {
      var t := a[1..];
      assert a + b == [a[0]] + (t + b);
      assert (a + b)[1..] == t + b;
      DayRowsAppend(t, b, w);
    }
  }

  lemma {:induction false} NightRowsAppend(a: seq<ProfileRow>, b: seq<ProfileRow>, w: Window)
    ensures NightRows(a + b, w) == NightRows(a, w) + NightRows(b, w)
  {
    if |a| == 0 {
      assert a + b == b;
    } else {
      var t := a[1..];
      assert a + b == [a[0]] + (t + b);
      assert (a + b)[1..] == t + b;
      NightRowsAppend(t, b, w);
    }
  }

  /** ... and a single row goes to exactly one chart, by its hour. */
  lemma DayNightOfOne(x: ProfileRow, w: Window)
    ensures DayRows([x], w) == if InWindowHours(w, x.hour) then [x] else []
    ensures NightRows([x], w) == if InWindowHours(w, x.hour) then [] else [x]
  {
    assert [x][1..] == [];
  }

  /** The two charts share out the rows of the average day: every row is
      on exactly one of them. */
  lemma DayNightSplit(p: seq<ProfileRow>, w: Window)
    ensures |DayRows(p, w)| + |NightRows(p, w)| == |p|
    ensures Sum(RowValues(DayRows(p, w))) + Sum(RowValues(NightRows(p, w))) == Sum(RowValues(p))
  {
    DayNightCount(p, w);
    DayNightSum(p, w);
  }

  lemma {:induction false} DayNightCount(p: seq<ProfileRow>, w: Window)
    ensures |DayRows(p, w)| + |NightRows(p, w)| == |p|
  {
    if |p| > 0 {
      DayNightCount(p[1..], w);
    }
  }

  lemma {:induction false} DayNightSum(p: seq<ProfileRow>, w: Window)
    ensures Sum(RowValues(DayRows(p, w))) + Sum(RowValues(NightRows(p, w))) == Sum(RowValues(p))
  {
    if |p| > 0 {
      DayNightSum(p[1..], w);
      assert p == [p[0]] + p[1..];
      RowValuesCons(p[0], p[1..]);
      if InWindowHours(w, p[0].hour) {
        RowValuesCons(p[0], DayRows(p[1..], w));
      } else {
        RowValuesCons(p[0], NightRows(p[1..], w));
      }
    }
  }

  /** The energy of rows is the first row's value plus that of the rest. */
  lemma RowValuesCons(x: ProfileRow, d: seq<ProfileRow>)
    ensures Sum(RowValues([x] + d)) == x.kw + Sum(RowValues(d))
  {
    var v := RowValues([x] + d);
    assert v[1..] == RowValues(d);
  }

  /** One point of a load-duration curve: a power and the share of time
      (in percent) at or above it. */
  datatype DurationPoint = DurationPoint(kw: real, pct: real)

  function PointValues(c: seq<DurationPoint>): seq<real> {
    seq(|c|, i requires 0 <= i < |c| => c[i].kw)
  }

  /** `sort_values(ascending=False)` paired with
      `arange(1, n + 1) / n * 100`. */
  function LoadDuration(xs: seq<real>): (c: seq<DurationPoint>)
    ensures |c| == |xs|
    ensures multiset(PointValues(c)) == multiset(xs)
    ensures NonIncreasing(PointValues(c))
    ensures forall i :: 0 <= i < |c| ==> c[i].pct == (i + 1) as real / |c| as real * 100.0
    ensures forall i, j :: 0 <= i < j < |c| ==> c[i].pct < c[j].pct
    ensures forall i :: 0 <= i < |c| ==> 0.0 < c[i].pct <= 100.0
    ensures |c| > 0 ==> c[|c| - 1].pct == 100.0
  {
    var d := SortDesc(xs);
    var n := |xs|;
    var c := seq(n, i requires 0 <= i < n => DurationPoint(d[i], Percent(i + 1, n)));
    assert PointValues(c) == d;
    PercentIncreasing(n);
    c
  }

  /** `k / n * 100`. */
  function Percent(k: int, n: int): real
    requires n > 0
  {
    k as real / n as real * 100.0
  }

  lemma PercentIncreasing(n: int)
    ensures forall i, j :: 1 <= i < j <= n ==> Percent(i, n) < Percent(j, n)
    ensures forall i :: 1 <= i <= n ==> 0.0 < Percent(i, n) <= 100.0
    ensures n > 0 ==> Percent(n, n) == 100.0
  {
    forall i, j | 1 <= i < j <= n
      ensures Percent(i, n) < Percent(j, n)
    {
      PercentBelow(i, j, n);
    }
    forall i | 1 <= i <= n
      ensures 0.0 < Percent(i, n) <= 100.0
    {
      PercentBelow(i, n, n);
    }
    if n > 0 {
      assert (n as real) / (n as real) == 1.0;
    }
  }

  lemma PercentBelow(i: int, j: int, n: int)
    requires 1 <= i <= j <= n
    ensures 0.0 < Percent(i, n) <= Percent(j, n)
    ensures i < j ==> Percent(i, n) < Percent(j, n)
  {
    var a, b := i as real / n as real, j as real / n as real;
    DivideMonotone(i as real, j as real, n as real);
    assert Percent(i, n) == a * 100.0 && Percent(j, n) == b * 100.0;
  }

  lemma DivideMonotone(a: real, b: real, n: real)
    requires 0.0 < a <= b && n > 0.0
    ensures 0.0 < a / n <= b / n
    ensures a < b ==> a / n < b / n
  {
  }

  /** The curve starts at the peak the chart marks with its dotted line. */
  lemma LoadDurationStartsAtPeak(xs: seq<real>)
    requires |xs| > 0
    ensures LoadDuration(xs)[0].kw == MaxOf(xs)
  {
    var c := LoadDuration(xs);
    var v := PointValues(c);
    assert v[0] in multiset(xs);
    assert MaxOf(xs) in multiset(v);
    var j :| 0 <= j < |v| && v[j] == MaxOf(xs);
    assert v[0] >= v[j];
  }
}
