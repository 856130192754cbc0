/** Naive (time-zone free) calendar arithmetic on timestamps counted in
    seconds since 1970-01-01 00:00, proleptic Gregorian calendar. */
module Calendar {

  const SecondsPerHour: int := 3600
  const SecondsPerDay: int := 86400
  const HoursPerDay: int := 24

  /** Hour of the day (0..23) of a timestamp, as `DatetimeIndex.hour`. */
  function HourOf(ts: int): (h: int)
    ensures 0 <= h < HoursPerDay
    ensures SecondsPerHour * h <= ts % SecondsPerDay < SecondsPerHour * (h + 1)
  {
    (ts % SecondsPerDay) / SecondsPerHour
  }

  /** Day of the week, Monday = 0 .. Sunday = 6, as `DatetimeIndex.dayofweek`.
      Day 0 of the epoch (1970-01-01) was a Thursday. */
  function Weekday(ts: int): (d: int)
    ensures 0 <= d < 7
  {
    (ts / SecondsPerDay + 3) % 7
  }

  predicate IsLeap(y: int) {
    y % 4 == 0 && (y % 100 != 0 || y % 400 == 0)
  }

  /** Leap years strictly before year `y`, counted from year 1 (negative for
      years before 1; only differences of this count are used). */
  function LeapYearsBefore(y: int): int {
    (y - 1) / 4 - (y - 1) / 100 + (y - 1) / 400
  }

  /** Days from 1970-01-01 to January 1st of year `y`. */
  function DaysFromEpoch(y: int): int {
    365 * (y - 1970) + LeapYearsBefore(y) - LeapYearsBefore(1970)
  }

  function DaysInYear(y: int): int {
    DaysFromEpoch(y + 1) - DaysFromEpoch(y)
  }

  /** Timestamp of `y`-01-01 00:00. */
  function YearStart(y: int): int {
    DaysFromEpoch(y) * SecondsPerDay
  }

  /** Floor division by `d` steps up by one exactly at the multiples of `d`. */
  lemma {:induction false} DivStep(y: int, d: int)
    requires 0 < d
    ensures y / d - (y - 1) / d == if y % d == 0 then 1 else 0
  {
    var q := (y - 1) / d;
    var r := (y - 1) % d;
    assert y - 1 == d * q + r && 0 <= r < d;
    if r + 1 < d {
      assert y == d * q + (r + 1);
      DivModUnique(y, d, q, r + 1);
    } else {
      assert y == d * (q + 1) + 0;
      DivModUnique(y, d, q + 1, 0);
    }
  }

  /** Quotient and remainder of a floor division are unique. */
  lemma {:induction false} DivModUnique(y: int, d: int, q: int, r: int)
    requires 0 < d && 0 <= r < d && y == d * q + r
    ensures y / d == q && y % d == r
  {
    var q' := y / d;
    var r' := y % d;
    assert y == d * q' + r' && 0 <= r' < d;
    assert d * (q - q') == r' - r;
    if q > q' {
      MulAtLeast(d, q - q');
    } else if q < q' {
      MulAtLeast(d, q' - q);
    }
  }

  lemma {:induction false} MulAtLeast(d: int, k: int)
    requires 0 < d && 1 <= k
    ensures d * k >= d
  {
    if k > 1 {
      MulAtLeast(d, k - 1);
      assert d * k == d * (k - 1) + d;
    }
  }

  /** A calendar year has 366 days in a leap year and 365 otherwise; the
      year index built for the appliance profile therefore holds 8784 or
      8760 hours. */
  lemma {:induction false} DaysInYearIsCalendarLength(y: int)
    ensures DaysInYear(y) == if IsLeap(y) then 366 else 365
  {
    DivStep(y, 4);
    DivStep(y, 100);
    DivStep(y, 400);
    assert y % 4 != 0 ==> y % 100 != 0 && y % 400 != 0 by {
      if y % 100 == 0 {
        DivModUnique(y, 4, 25 * (y / 100), 0);
      }
      if y % 400 == 0 {
        DivModUnique(y, 4, 100 * (y / 400), 0);
      }
    }
    assert y % 100 != 0 ==> y % 400 != 0 by {
      if y % 400 == 0 {
        DivModUnique(y, 100, 4 * (y / 400), 0);
      }
    }
  }

  /** Adding `i` whole hours moves the hour of day forward by `i` modulo 24. */
  lemma {:induction false} HourAfter(ts: int, i: int)
    ensures HourOf(ts + SecondsPerHour * i) == (HourOf(ts) + i) % HoursPerDay
  {
    var a := ts / SecondsPerDay;
    var b := HourOf(ts);
    var c := ts % SecondsPerDay - SecondsPerHour * b;
    assert ts == SecondsPerDay * a + SecondsPerHour * b + c;
    var q := (b + i) / HoursPerDay;
    var m := (b + i) % HoursPerDay;
    assert b + i == HoursPerDay * q + m;
    var t := ts + SecondsPerHour * i;
    assert t == SecondsPerDay * (a + q) + (SecondsPerHour * m + c);
    DivModUnique(t, SecondsPerDay, a + q, SecondsPerHour * m + c);
    DivModUnique(SecondsPerHour * m + c, SecondsPerHour, m, c);
  }

  /** Adding `k` whole days keeps the hour of day and moves the weekday
      forward by `k` modulo 7; day 0 of the epoch is a Thursday. */
  lemma {:induction false} WeekdayAfter(ts: int, k: int)
    ensures Weekday(ts + SecondsPerDay * k) == (Weekday(ts) + k) % 7
    ensures HourOf(ts + SecondsPerDay * k) == HourOf(ts)
    ensures Weekday(0) == 3
  {
    var a := ts / SecondsPerDay;
    var c := ts % SecondsPerDay;
    var t := ts + SecondsPerDay * k;
    assert t == SecondsPerDay * (a + k) + c;
    DivModUnique(t, SecondsPerDay, a + k, c);
    var q := (a + 3) / 7;
    var m := (a + 3) % 7;
    var q2 := (m + k) / 7;
    var m2 := (m + k) % 7;
    assert a + k + 3 == 7 * (q + q2) + m2;
    DivModUnique(a + k + 3, 7, q + q2, m2);
  }

  /** 2024 is a leap year that starts on a Monday. */
  lemma Year2024()
    ensures DaysInYear(2024) == 366
    ensures Weekday(YearStart(2024)) == 0
  {
    DaysInYearIsCalendarLength(2024);
  }
}
