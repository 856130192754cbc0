/** The monthly-bill path (app.py:276-283): twelve monthly kWh readings,
    the yearly total and monthly mean over the months with consumption,
    and the months ordered for the bar chart. */
module Billing {
  import opened Series
  import opened Sorting

  datatype MonthReading = MonthReading(month: string, kwh: real)

  /** `{m: v for m, v in consumos.items() if v > 0}`, in month order. */
  function PositiveMonths(bill: seq<MonthReading>): (r: seq<MonthReading>)
    ensures forall x :: x in r <==> x in bill && x.kwh > 0.0
    ensures forall k :: 0 <= k < |r| ==> r[k].kwh > 0.0
    ensures |r| <= |bill|
  {
    if |bill| == 0 then []
    else if bill[0].kwh > 0.0 then [bill[0]] + PositiveMonths(bill[1..])
    else PositiveMonths(bill[1..])
  }

  function Kwh(bill: seq<MonthReading>): (v: seq<real>)
    ensures |v| == |bill|
    ensures forall k :: 0 <= k < |bill| ==> v[k] == bill[k].kwh
  {
    seq(|bill|, k requires 0 <= k < |bill| => bill[k].kwh)
  }

  /** `total_anual`, `promedio_mensual` and the number of months averaged. */
  datatype BillSummary = BillSummary(totalKwh: real, meanKwh: real, months: nat)

  /** Reference definitions, accumulated month by month from January: the
      consumption of the positive months and their number. */
  function PositiveTotal(bill: seq<MonthReading>): real {
    if |bill| == 0 then 0.0
    else
      var last := bill[|bill| - 1];
      PositiveTotal(bill[..|bill| - 1]) + (if last.kwh > 0.0 then last.kwh else 0.0)
  }

  function PositiveCount(bill: seq<MonthReading>): nat {
    if |bill| == 0 then 0
    else PositiveCount(bill[..|bill| - 1]) + (if bill[|bill| - 1].kwh > 0.0 then 1 else 0)
  }

  /** The summary, or `None` (the warning) when no month is positive:
      `total_anual` is the consumption of the positive months, and
      `promedio_mensual` spreads it evenly over them. */
  function Summarize(bill: seq<MonthReading>): (r: Option<BillSummary>)
    ensures r.None? <==> forall k :: 0 <= k < |bill| ==> bill[k].kwh <= 0.0
    ensures r.Some? ==> r.value.totalKwh == PositiveTotal(bill)
    ensures r.Some? ==> r.value.months == PositiveCount(bill) > 0
    ensures r.Some? ==> SpreadsEvenly(r.value)
  {
    var valid := PositiveMonths(bill);
    if |valid| == 0 then
      assert forall k :: 0 <= k < |bill| ==> bill[k] !in valid;
      None
    else
      assert valid[0] in bill;
      var summary := SummaryOf(Kwh(valid));
      PositiveTotals(bill);
      Some(summary)
  }

  /** The positive months hold the reference total and count. */
  lemma {:induction false} PositiveTotals(bill: seq<MonthReading>)
    ensures Sum(Kwh(PositiveMonths(bill))) == PositiveTotal(bill)
    ensures |PositiveMonths(bill)| == PositiveCount(bill)
  {
    if |bill| > 0 {
      PositiveTotals(bill[..|bill| - 1]);
      PositiveStep(bill);
    }
  }

  /** The last month adds its consumption and one to the count when it is
      positive, and nothing otherwise. */
  lemma PositiveStep(bill: seq<MonthReading>)
    requires |bill| > 0
    ensures var p, x := bill[..|bill| - 1], bill[|bill| - 1];
      && Sum(Kwh(PositiveMonths(bill))) == Sum(Kwh(PositiveMonths(p))) + (if x.kwh > 0.0 then x.kwh else 0.0)
      && |PositiveMonths(bill)| == |PositiveMonths(p)| + (if x.kwh > 0.0 then 1 else 0)
  {
    var p, x := bill[..|bill| - 1], bill[|bill| - 1];
    assert bill == p + [x];
    var front, back := PositiveMonths(p), PositiveMonths([x]);
    assert PositiveMonths(bill) == front + back by {
      PositiveMonthsAppend(p, [x]);
    }
    PositiveMonthOfOne(x);
    assert Sum(Kwh(front + back)) == Sum(Kwh(front)) + Sum(Kwh(back)) by {
      KwhAppend(front, back);
      SumAppend(Kwh(front), Kwh(back));
    }
    if x.kwh > 0.0 {
      assert Kwh(back) == [x.kwh] && [x.kwh][1..] == [];
      assert Sum(Kwh(back)) == x.kwh;
    } else {
      assert Kwh(back) == [];
    }
  }

  /** `PositiveMonths` is an order-preserving filter: the positive months
      of a bill split in two are those of the first part followed by those
      of the second, and a single month is kept exactly when positive. */
  lemma {:induction false} PositiveMonthsAppend(a: seq<MonthReading>, b: seq<MonthReading>)
    ensures PositiveMonths(a + b) == PositiveMonths(a) + PositiveMonths(b)
  {
    if |a| == 0 {
      assert a + b == b;
    } else {
      assert (a + b)[0] == a[0];
      assert (a + b)[1..] == a[1..] + b;
      PositiveMonthsAppend(a[1..], b);
    }
  }

  lemma PositiveMonthOfOne(x: MonthReading)
    ensures PositiveMonths([x]) == if x.kwh > 0.0 then [x] else []
  {
    assert [x][1..] == [];
  }

  lemma KwhAppend(a: seq<MonthReading>, b: seq<MonthReading>)
    ensures Kwh(a + b) == Kwh(a) + Kwh(b)
  {
  }

  /** The mean taken once per month gives the total. */
  predicate SpreadsEvenly(b: BillSummary) {
    b.meanKwh * (b.months as real) == b.totalKwh
  }

  /** Total, mean and count of a nonempty list of monthly readings. */
  function SummaryOf(v: seq<real>): (r: BillSummary)
    requires |v| > 0
    ensures r.months == |v| && r.totalKwh == Sum(v)
    ensures SpreadsEvenly(r)
  {
    BillSummary(Sum(v), Mean(v), |v|)
  }

  /** The monthly mean lies between the smallest and the largest positive
      month. */
  lemma SummaryMeanWithinMonths(bill: seq<MonthReading>)
    requires Summarize(bill).Some?
    ensures var v := Kwh(PositiveMonths(bill));
      |v| > 0 && MinOf(v) <= Summarize(bill).value.meanKwh <= MaxOf(v)
  {
    var v := Kwh(PositiveMonths(bill));
    assert Summarize(bill).value == SummaryOf(v);
    MeanWithinRange(v);
  }

  lemma {:induction false} SumOfPositives(xs: seq<real>)
    requires |xs| > 0 && forall k :: 0 <= k < |xs| ==> xs[k] > 0.0
    ensures Sum(xs) > 0.0
  {
    if |xs| > 1 {
      SumOfPositives(xs[1..]);
    }
  }

  /** The total of a summarised bill is positive. */
  lemma SummaryTotalPositive(bill: seq<MonthReading>)
    requires Summarize(bill).Some?
    ensures Summarize(bill).value.totalKwh > 0.0
  {
    var v := Kwh(PositiveMonths(bill));
    assert Summarize(bill).value == SummaryOf(v);
    SumOfPositives(v);
  }

  /** The bar chart sorts whole readings, month names included, so it needs
      a sort keyed on `kwh` besides the value sort of `Sorting`;
      `ChartValuesSorted` shows the two agree on the values. */
  predicate ByDecreasingKwh(s: seq<MonthReading>) {
    forall i, j :: 0 <= i < j < |s| ==> s[i].kwh >= s[j].kwh
  }

  /** Inserts a month into a list ordered by decreasing consumption. */
  function InsertByKwh(x: MonthReading, s: seq<MonthReading>): (r: seq<MonthReading>)
    requires ByDecreasingKwh(s)
    ensures ByDecreasingKwh(r)
    ensures multiset(r) == multiset(s) + multiset{x}
    ensures |r| == |s| + 1 && (r[0] == x || (|s| > 0 && r[0] == s[0]))
  {
    if |s| == 0 || x.kwh >= s[0].kwh then [x] + s
    else
      var tail := InsertByKwh(x, s[1..]);
      assert s == [s[0]] + s[1..];
      assert s[0].kwh >= tail[0].kwh;
      [s[0]] + tail
  }

  /** `sort_values(by="kWh", ascending=False)` over all twelve months: the
      same readings, by decreasing consumption. */
  function ChartOrder(bill: seq<MonthReading>): (r: seq<MonthReading>)
    ensures ByDecreasingKwh(r)
    ensures multiset(r) == multiset(bill)
    ensures |r| == |bill|
  {
    if |bill| == 0 then []
    else
      assert bill == [bill[0]] + bill[1..];
      InsertByKwh(bill[0], ChartOrder(bill[1..]))
  }

  lemma KwhCons(x: MonthReading, s: seq<MonthReading>)
    ensures Kwh([x] + s) == [x.kwh] + Kwh(s)
  {
    KwhAppend([x], s);
  }

  lemma ByDecreasingValues(s: seq<MonthReading>)
    requires ByDecreasingKwh(s)
    ensures NonIncreasing(Kwh(s))
  {
  }

  /** The keyed insertion moves the values as `InsertDesc` does. */
  lemma {:induction false} InsertByKwhValues(x: MonthReading, s: seq<MonthReading>)
    requires ByDecreasingKwh(s)
    ensures NonIncreasing(Kwh(s))
    ensures Kwh(InsertByKwh(x, s)) == InsertDesc(x.kwh, Kwh(s))
  {
    ByDecreasingValues(s);
    if |s| == 0 || x.kwh >= s[0].kwh {
      KwhCons(x, s);
    } else {
      var t := s[1..];
      assert s == [s[0]] + t;
      KwhCons(s[0], t);
      InsertByKwhValues(x, t);
      KwhCons(s[0], InsertByKwh(x, t));
    }
  }

  /** The chart's consumption values, bar by bar, are the values of the
      bill sorted by `Sorting.SortDesc`. */
  lemma {:induction false} ChartValuesSorted(bill: seq<MonthReading>)
    ensures Kwh(ChartOrder(bill)) == SortDesc(Kwh(bill))
  {
    if |bill| > 0 {
      var t := bill[1..];
      assert bill == [bill[0]] + t;
      KwhCons(bill[0], t);
      ChartValuesSorted(t);
      InsertByKwhValues(bill[0], ChartOrder(t));
    }
  }

  /** The first bar of the chart is the month of highest consumption. */
  lemma ChartStartsAtLargest(bill: seq<MonthReading>)
    requires |bill| > 0
    ensures forall k :: 0 <= k < |bill| ==> bill[k].kwh <= ChartOrder(bill)[0].kwh
  {
    var r := ChartOrder(bill);
    forall k | 0 <= k < |bill|
      ensures bill[k].kwh <= r[0].kwh
    {
      assert bill[k] in multiset(r);
      var j :| 0 <= j < |r| && r[j] == bill[k];
      if j > 0 {
        assert r[0].kwh >= r[j].kwh;
      }
    }
  }
}
