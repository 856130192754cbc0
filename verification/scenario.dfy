/** The scenario adjustment (app.py:358-371): a seasonal multiplier chosen
    by scenario name, then a day/night rescaling that gives the daytime
    window a target share of the total energy. */
module Scenario {
  import opened Calendar
  import opened Series

  datatype Season = Normal | DrySummer | RainyWinter | Holidays

  /** The scenario select box; a name matching no branch leaves the data
      as it is, like "Normal". */
  function SeasonNamed(name: string): (k: Season)
    ensures k == DrySummer <==> name == "Verano / Seca"
    ensures k == RainyWinter <==> name == "Invierno / Lluvias"
    ensures k == Holidays <==> name == "Vacaciones"
  {
    if name == "Verano / Seca" then DrySummer
    else if name == "Invierno / Lluvias" then RainyWinter
    else if name == "Vacaciones" then Holidays
    else Normal
  }

  /** `df['Potencia_kW'] *= f`. */
  function ScaleAll(s: seq<Sample>, f: real): (r: seq<Sample>)
    ensures SameStamps(s, r)
  {
    seq(|s|, i requires 0 <= i < |s| => Sample(s[i].ts, s[i].kw * f))
  }

  /** `df.loc[df.index.hour.isin(range(lo, hi + 1)), 'Potencia_kW'] *= f`. */
  function ScaleHours(s: seq<Sample>, lo: int, hi: int, f: real): (r: seq<Sample>)
    ensures SameStamps(s, r)
  {
    seq(|s|, i requires 0 <= i < |s| =>
          if lo <= HourOf(s[i].ts) <= hi then Sample(s[i].ts, s[i].kw * f) else s[i])
  }

  /** Reference definition: the overall factor a scenario puts on an hour
      of the day. */
  function SeasonFactor(k: Season, h: int): real {
    match k
    case Normal => 1.0
    case DrySummer => if 14 <= h <= 21 then 1.38 else 1.20
    case RainyWinter => if 18 <= h <= 22 then 1.21 else 1.10
    case Holidays => 0.60
  }

  /** The seasonal step: timestamps and length kept, every value multiplied
      by its scenario's factor for that hour; "Normal" changes nothing. */
  function Seasonal(s: seq<Sample>, k: Season): (r: seq<Sample>)
    ensures SameStamps(s, r)
    ensures forall i :: 0 <= i < |s| ==> r[i].kw == s[i].kw * SeasonFactor(k, HourOf(s[i].ts))
    ensures k == Normal ==> r == s
  {
    match k
    case Normal => s
    case DrySummer => ScaleHours(ScaleAll(s, 1.20), 14, 21, 1.15)
    case RainyWinter => ScaleHours(ScaleAll(s, 1.10), 18, 22, 1.10)
    case Holidays => ScaleAll(s, 0.60)
  }

  /** One day at a constant 1 kW under "Verano / Seca" reads 1.20 kW outside
      14..21 h and 1.38 kW inside. */
  lemma DrySummerDay(s: seq<Sample>)
    requires |s| == 24 && forall i :: 0 <= i < 24 ==> s[i] == Sample(SecondsPerHour * i, 1.0)
    ensures var r := Seasonal(s, SeasonNamed("Verano / Seca"));
      forall i :: 0 <= i < 24 ==> r[i].kw == if 14 <= i <= 21 then 1.38 else 1.20
  {
    forall i | 0 <= i < 24
      ensures HourOf(s[i].ts) == i
    {
      HourAfter(0, i);
    }
  }

  /** The day window of the sidebar slider: two times of day in seconds. */
  datatype Window = Window(start: int, end: int)

  /** Hours the rescaling and the day chart treat as daytime:
      `isin(range(start.hour, end.hour + 1))`. */
  predicate InWindowHours(w: Window, h: int) {
    w.start / SecondsPerHour <= h <= w.end / SecondsPerHour
  }

  /** Rows the rescaling treats as daytime. */
  predicate InDayHours(w: Window, ts: int) {
    InWindowHours(w, HourOf(ts))
  }

  /** Rows `between_time(start, end)` selects: time of day within the
      window, both ends included, wrapping past midnight when start > end. */
  predicate InBetweenTime(w: Window, ts: int) {
    var tod := ts % SecondsPerDay;
    if w.start <= w.end then w.start <= tod <= w.end else tod >= w.start || tod <= w.end
  }

  function DayEnergy(s: seq<Sample>, w: Window): real {
    if |s| == 0 then 0.0
    else (if InDayHours(w, s[0].ts) then s[0].kw else 0.0) + DayEnergy(s[1..], w)
  }

  function NightEnergy(s: seq<Sample>, w: Window): real {
    if |s| == 0 then 0.0
    else (if InDayHours(w, s[0].ts) then 0.0 else s[0].kw) + NightEnergy(s[1..], w)
  }

  /** `df.between_time(start, end)['Potencia_kW'].sum()`. */
  function BetweenTimeEnergy(s: seq<Sample>, w: Window): real {
    if |s| == 0 then 0.0
    else (if InBetweenTime(w, s[0].ts) then s[0].kw else 0.0) + BetweenTimeEnergy(s[1..], w)
  }

  /** Daytime and nighttime energy partition the total. */
  lemma {:induction false} TotalSplits(s: seq<Sample>, w: Window)
    ensures Total(s) == DayEnergy(s, w) + NightEnergy(s, w)
  {
    if |s| > 0 {
      TotalSplits(s[1..], w);
    }
  }

  /** The factor the two `.loc` updates of the rescaling put on the row at
      `ts`: `fd` on daytime rows, `fn` on the others. */
  function RowFactor(w: Window, ts: int, fd: real, fn: real): real {
    if InDayHours(w, ts) then fd else fn
  }

  /** The rescaling; the two updates touch disjoint rows, so one pass. */
  function Rescale(s: seq<Sample>, w: Window, fd: real, fn: real): (r: seq<Sample>)
    ensures SameStamps(s, r)
  {
    if |s| == 0 then []
    else [Sample(s[0].ts, s[0].kw * RowFactor(w, s[0].ts, fd, fn))] + Rescale(s[1..], w, fd, fn)
  }

  /** `r` is `s` with every row multiplied by the factor of its side of the
      window. */
  predicate ScaledBy(s: seq<Sample>, r: seq<Sample>, w: Window, fd: real, fn: real) {
    |r| == |s| && forall i :: 0 <= i < |s| ==> r[i].kw == s[i].kw * RowFactor(w, s[i].ts, fd, fn)
  }

  /** Every row is multiplied by the factor of its side of the window. */
  lemma {:induction false} RescaleRows(s: seq<Sample>, w: Window, fd: real, fn: real)
    ensures forall i :: 0 <= i < |s| ==>
      Rescale(s, w, fd, fn)[i].kw == s[i].kw * RowFactor(w, s[i].ts, fd, fn)
  {
    if |s| > 0 {
      RescaleRows(s[1..], w, fd, fn);
      var r, t := Rescale(s, w, fd, fn), Rescale(s[1..], w, fd, fn);
      assert r == [r[0]] + t;
      forall i | 1 <= i < |s|
        ensures r[i].kw == s[i].kw * RowFactor(w, s[i].ts, fd, fn)
      {
        assert r[i] == t[i - 1] && s[i] == s[1..][i - 1];
      }
    }
  }

  lemma RescaleEnergy(s: seq<Sample>, w: Window, fd: real, fn: real)
    ensures DayEnergy(Rescale(s, w, fd, fn), w) == fd * DayEnergy(s, w)
    ensures NightEnergy(Rescale(s, w, fd, fn), w) == fn * NightEnergy(s, w)
  {
    RescaleDayEnergy(s, w, fd, fn);
    RescaleNightEnergy(s, w, fd, fn);
  }

  lemma {:induction false} RescaleDayEnergy(s: seq<Sample>, w: Window, fd: real, fn: real)
    ensures DayEnergy(Rescale(s, w, fd, fn), w) == fd * DayEnergy(s, w)
  {
    if |s| > 0 {
      assert Rescale(s, w, fd, fn)[1..] == Rescale(s[1..], w, fd, fn);
      RescaleDayEnergy(s[1..], w, fd, fn);
    }
  }

  lemma {:induction false} RescaleNightEnergy(s: seq<Sample>, w: Window, fd: real, fn: real)
    ensures NightEnergy(Rescale(s, w, fd, fn), w) == fn * NightEnergy(s, w)
  {
    if |s| > 0 {
      assert Rescale(s, w, fd, fn)[1..] == Rescale(s[1..], w, fd, fn);
      RescaleNightEnergy(s[1..], w, fd, fn);
    }
  }

  /** `want / have if have > 0 else 0`. */
  function Factor(want: real, have: real): real {
    if have > 0.0 then want / have else 0.0
  }

  /** `factor_dia` and `factor_noche` for a total and a measured daytime
      energy: the target share over the measured one, night taking the rest
      of the total. */
  function DayFactor(total: real, day: real, pct: int): real {
    Factor(total * (pct as real / 100.0), day)
  }

  function NightFactor(total: real, day: real, pct: int): real {
    Factor(total * (1.0 - pct as real / 100.0), total - day)
  }

  /** `r` is `s` with each row scaled by its side's factor, for a measured
      daytime energy `day` and a target of `pct`% daytime. */
  predicate RescaledFor(s: seq<Sample>, r: seq<Sample>, w: Window, day: real, pct: int) {
    ScaledBy(s, r, w, DayFactor(Total(s), day, pct), NightFactor(Total(s), day, pct))
  }

  /** The redistribution as written: daytime energy measured with
      `between_time`, rows rescaled by whole hours. */
  function RedistributeAsWritten(s: seq<Sample>, w: Window, pct: int): (r: seq<Sample>)
    ensures SameStamps(s, r)
    ensures RescaledFor(s, r, w, BetweenTimeEnergy(s, w), pct)
    ensures BetweenTimeEnergy(s, w) <= 0.0 ==>
      forall i :: 0 <= i < |s| && InDayHours(w, s[i].ts) ==> r[i].kw == 0.0
    ensures Total(s) - BetweenTimeEnergy(s, w) <= 0.0 ==>
      forall i :: 0 <= i < |s| && !InDayHours(w, s[i].ts) ==> r[i].kw == 0.0
  {
    var total, day := Total(s), BetweenTimeEnergy(s, w);
    var fd, fn := DayFactor(total, day, pct), NightFactor(total, day, pct);
    RescaleRows(s, w, fd, fn);
    var r := Rescale(s, w, fd, fn);
    assert ScaledBy(s, r, w, fd, fn);
    r
  }

  /** The redistribution with daytime energy measured on the same rows it
      rescales. A partition without positive energy is multiplied by 0. */
  function Redistribute(s: seq<Sample>, w: Window, pct: int): (r: seq<Sample>)
    ensures SameStamps(s, r)
    ensures RescaledFor(s, r, w, DayEnergy(s, w), pct)
    ensures DayEnergy(s, w) <= 0.0 ==> forall i :: 0 <= i < |s| && InDayHours(w, s[i].ts) ==> r[i].kw == 0.0
    ensures Total(s) - DayEnergy(s, w) <= 0.0 ==>
      forall i :: 0 <= i < |s| && !InDayHours(w, s[i].ts) ==> r[i].kw == 0.0
  {
    var total, day := Total(s), DayEnergy(s, w);
    var fd, fn := DayFactor(total, day, pct), NightFactor(total, day, pct);
    RescaleRows(s, w, fd, fn);
    var r := Rescale(s, w, fd, fn);
    assert ScaledBy(s, r, w, fd, fn);
    r
  }

  /** The arithmetic of the rescaling factors, on plain numbers. */
  lemma ShareArithmetic(total: real, day: real, night: real, pct: int)
    requires day > 0.0 && night > 0.0 && total == day + night
    ensures DayFactor(total, day, pct) * day == total * (pct as real / 100.0)
    ensures NightFactor(total, day, pct) * night == total * (1.0 - pct as real / 100.0)
  {
    assert total - day == night;
  }

  /** With energy on both sides, the rescaled series puts exactly the target
      share in the daytime hours and keeps the total. */
  lemma RedistributeHitsShare(s: seq<Sample>, w: Window, pct: int)
    requires DayEnergy(s, w) > 0.0 && NightEnergy(s, w) > 0.0
    ensures var r, share := Redistribute(s, w, pct), pct as real / 100.0;
      && DayEnergy(r, w) == Total(s) * share
      && NightEnergy(r, w) == Total(s) * (1.0 - share)
      && Total(r) == Total(s)
  {
    var total, day, night := Total(s), DayEnergy(s, w), NightEnergy(s, w);
    TotalSplits(s, w);
    ShareArithmetic(total, day, night, pct);
    var r := Redistribute(s, w, pct);
    RescaleEnergy(s, w, DayFactor(total, day, pct), NightFactor(total, day, pct));
    TotalSplits(r, w);
  }

  /** A target equal to the current daytime share leaves the series as is. */
  lemma RedistributeAtCurrentShare(s: seq<Sample>, w: Window, pct: int)
    requires DayEnergy(s, w) > 0.0 && NightEnergy(s, w) > 0.0
    requires Total(s) * (pct as real) == 100.0 * DayEnergy(s, w)
    ensures Redistribute(s, w, pct) == s
  {
    var total, day, night := Total(s), DayEnergy(s, w), NightEnergy(s, w);
    TotalSplits(s, w);
    UnitFactors(total, day, night, pct);
    RescaleByOne(s, w);
  }

  lemma UnitFactors(total: real, day: real, night: real, pct: int)
    requires day > 0.0 && night > 0.0 && total == day + night
    requires total * (pct as real) == 100.0 * day
    ensures DayFactor(total, day, pct) == 1.0 && NightFactor(total, day, pct) == 1.0
  {
    assert total - day == night;
    assert total * (pct as real / 100.0) == day;
    assert total * (1.0 - pct as real / 100.0) == total - total * (pct as real / 100.0);
    assert total * (1.0 - pct as real / 100.0) == night;
    assert NightFactor(total, day, pct) == night / night;
  }

  lemma {:induction false} RescaleByOne(s: seq<Sample>, w: Window)
    ensures Rescale(s, w, 1.0, 1.0) == s
  {
    if |s| > 0 {
      RescaleByOne(s[1..], w);
    }
  }

  /** When every timestamp is on the hour and the window is a pair of whole
      hours with start <= end, both ways of choosing daytime rows agree, so
      the written code and the corrected one give the same series. */
  lemma AsWrittenAgreesOnWholeHours(s: seq<Sample>, w: Window, pct: int)
    requires forall i :: 0 <= i < |s| ==> s[i].ts % SecondsPerHour == 0
    requires 0 <= w.start <= w.end < SecondsPerDay
    requires w.start % SecondsPerHour == 0 && w.end % SecondsPerHour == 0
    ensures RedistributeAsWritten(s, w, pct) == Redistribute(s, w, pct)
  {
    forall i | 0 <= i < |s|
      ensures InBetweenTime(w, s[i].ts) == InDayHours(w, s[i].ts)
    {
      var ts := s[i].ts;
      var h := HourOf(ts);
      assert ts % SecondsPerDay == SecondsPerHour * h by {
        DivModUnique(ts, SecondsPerHour, ts / SecondsPerHour, 0);
        var q := ts / SecondsPerDay;
        assert ts == SecondsPerDay * q + ts % SecondsPerDay;
        assert (ts % SecondsPerDay) % SecondsPerHour == 0 by {
          DivModUnique(ts % SecondsPerDay, SecondsPerHour, ts / SecondsPerHour - 24 * q, 0);
        }
      }
    }
    SameDayEnergy(s, w);
  }

  lemma {:induction false} SameDayEnergy(s: seq<Sample>, w: Window)
    requires forall i :: 0 <= i < |s| ==> InBetweenTime(w, s[i].ts) == InDayHours(w, s[i].ts)
    ensures BetweenTimeEnergy(s, w) == DayEnergy(s, w)
  {
    if |s| > 0 {
      SameDayEnergy(s[1..], w);
    }
  }

  /** A counterexample to the written code on the hourly grid the readers
      produce: 1 kW at 05:00, 06:00 and 07:00 with the window 06:15-18:00
      and a 50% target. `between_time` leaves 06:00 out of the measured
      daytime energy, but the rescaling multiplies it by the daytime factor,
      so the total grows from 3 to 3.75 kWh and the daytime hours end with
      80% of it. */
  lemma AsWrittenMissesShare()
    ensures var s := [Sample(5 * SecondsPerHour, 1.0), Sample(6 * SecondsPerHour, 1.0), Sample(7 * SecondsPerHour, 1.0)];
      var w := Window(6 * SecondsPerHour + 900, 18 * SecondsPerHour);
      var r := RedistributeAsWritten(s, w, 50);
      && HourlyGrid(s)
      && Total(s) == 3.0
      && Total(r) == 3.75
      && DayEnergy(r, w) == 3.0
  {
    var s := [Sample(5 * SecondsPerHour, 1.0), Sample(6 * SecondsPerHour, 1.0), Sample(7 * SecondsPerHour, 1.0)];
    var w := Window(6 * SecondsPerHour + 900, 18 * SecondsPerHour);
    assert !InBetweenTime(w, s[0].ts) && !InBetweenTime(w, s[1].ts) && InBetweenTime(w, s[2].ts);
    assert !InDayHours(w, s[0].ts) && InDayHours(w, s[1].ts) && InDayHours(w, s[2].ts);
    assert s[2..] == [s[2]] && s[1..] == [s[1]] + s[2..];
    assert Total(s[2..]) == 1.0 by {
      assert s[2..][1..] == [];
    }
    assert Total(s[1..]) == 2.0 by {
      assert s[1..][1..] == s[2..];
    }
    assert Total(s) == 3.0;
    assert BetweenTimeEnergy(s[2..], w) == 1.0 by {
      assert s[2..][1..] == [];
      assert InBetweenTime(w, s[2..][0].ts);
    }
    assert BetweenTimeEnergy(s[1..], w) == 1.0 by {
      assert s[1..][1..] == s[2..];
      assert !InBetweenTime(w, s[1..][0].ts);
    }
    assert BetweenTimeEnergy(s, w) == 1.0;
    var r := RedistributeAsWritten(s, w, 50);
    assert r == Rescale(s, w, 1.5, 0.75);
    var r2 := [Sample(7 * SecondsPerHour, 1.5)];
    var r1 := [Sample(6 * SecondsPerHour, 1.5)] + r2;
    assert Rescale(s[2..], w, 1.5, 0.75) == r2 by {
      assert Rescale(s[2..][1..], w, 1.5, 0.75) == [];
    }
    assert Rescale(s[1..], w, 1.5, 0.75) == r1 by {
      assert s[1..][1..] == s[2..];
    }
    assert r == [Sample(5 * SecondsPerHour, 0.75)] + r1;
    assert r1[1..] == r2 && r[1..] == r1 && r2[1..] == [];
    assert r[0].ts == s[0].ts && r1[0].ts == s[1].ts && r2[0].ts == s[2].ts;
    assert Total(r2) == 1.5 && Total(r1) == 3.0 && Total(r) == 3.75;
    assert DayEnergy(r2, w) == 1.5;
    assert InDayHours(w, r1[0].ts);
    assert DayEnergy(r1, w) == 3.0;
    assert DayEnergy(r, w) == 3.0;
  }

  /** The daytime hours of `r` hold `pct`% of its total energy. */
  predicate DaytimeShare(r: seq<Sample>, w: Window, pct: int) {
    DayEnergy(r, w) == Total(r) * (pct as real / 100.0)
  }

  /** The whole adjustment: the seasonal step first, then the redistribution
      on the seasonally scaled series. */
  function Adjust(s: seq<Sample>, k: Season, w: Window, pct: int): (r: seq<Sample>)
    ensures SameStamps(s, r)
  {
    Redistribute(Seasonal(s, k), w, pct)
  }

  /** The target share is reached on the adjusted series whenever the
      seasonally scaled series has energy on both sides of the window. */
  lemma AdjustHitsShare(s: seq<Sample>, k: Season, w: Window, pct: int)
    requires DayEnergy(Seasonal(s, k), w) > 0.0 && NightEnergy(Seasonal(s, k), w) > 0.0
    ensures var r := Adjust(s, k, w, pct);
      Total(r) == Total(Seasonal(s, k)) && DaytimeShare(r, w, pct)
  {
    var t := Seasonal(s, k);
    var r := Adjust(s, k, w, pct);
    assert r == Redistribute(t, w, pct);
    assert Total(r) == Total(t) && DaytimeShare(r, w, pct) by {
      RedistributeHitsShare(t, w, pct);
    }
  }
}
