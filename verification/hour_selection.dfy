/** The manual appliance form (app.py:238-253): the daytime slider splits
    the hours 0..23 into the options of two pick lists, the picks become
    one sorted hour list, and a submission with no hours adds nothing. */
module HourSelection {
  import opened Calendar
  import opened Sorting
  import opened Synthesis

  /** `list(range(lo, hi))`. */
  function Range(lo: int, hi: int): (r: seq<int>)
    ensures |r| == if lo <= hi then hi - lo else 0
    ensures forall i :: 0 <= i < |r| ==> r[i] == lo + i
    decreases hi - lo
  {
    if lo >= hi then [] else [lo] + Range(lo + 1, hi)
  }

  lemma RangeMembers(lo: int, hi: int)
    ensures StrictlyIncreasing(Range(lo, hi))
    ensures forall k :: k in Range(lo, hi) <==> lo <= k < hi
  {
    var r := Range(lo, hi);
    forall k | lo <= k < hi
      ensures k in r
    {
      assert r[k - lo] == k;
    }
  }

  /** The daytime pick list: `sorted(set(range(start, end + 1)))`. */
  function DayOptions(start: int, end: int): (r: seq<int>)
    ensures StrictlyIncreasing(r)
    ensures forall k :: k in r <==> start <= k <= end
  {
    RangeMembers(start, end + 1);
    Range(start, end + 1)
  }

  /** The nighttime pick list: the other hours of the day, in order. */
  function NightOptions(start: int, end: int): (r: seq<int>)
    ensures StrictlyIncreasing(r)
    ensures forall k :: k in r <==> 0 <= k < HoursPerDay && !(start <= k <= end)
  {
    NightFrom(start, end, 0)
  }

  function NightFrom(start: int, end: int, h: int): (r: seq<int>)
    requires 0 <= h <= HoursPerDay
    ensures StrictlyIncreasing(r)
    ensures forall k :: k in r <==> h <= k < HoursPerDay && !(start <= k <= end)
    ensures forall i :: 0 <= i < |r| ==> h <= r[i]
    decreases HoursPerDay - h
  {
    if h == HoursPerDay then []
    else if start <= h <= end then NightFrom(start, end, h + 1)
    else [h] + NightFrom(start, end, h + 1)
  }

  /** For a slider position (0 <= start <= end <= 23, as the range slider
      gives) the two lists share out the 24 hours: every hour is in exactly
      one of them. */
  lemma OptionsPartitionTheDay(start: int, end: int)
    requires 0 <= start <= end < HoursPerDay
    ensures |DayOptions(start, end)| + |NightOptions(start, end)| == HoursPerDay
    ensures forall h :: 0 <= h < HoursPerDay ==> (h in DayOptions(start, end) <==> h !in NightOptions(start, end))
  {
    NightCount(start, end, 0);
  }

  lemma {:induction false} NightCount(start: int, end: int, h: int)
    requires 0 <= start <= end < HoursPerDay && 0 <= h <= HoursPerDay
    ensures |NightFrom(start, end, h)| ==
      (HoursPerDay - h) - (if h <= start then end - start + 1 else if h <= end then end - h + 1 else 0)
    decreases HoursPerDay - h
  {
    if h < HoursPerDay {
      NightCount(start, end, h + 1);
    }
  }

  /** `list(range(24))` when the whole day is ticked, else
      `sorted(set(day_picks + night_picks))`. */
  function FinalHours(wholeDay: bool, dayPicks: seq<int>, nightPicks: seq<int>): (r: seq<int>)
    ensures StrictlyIncreasing(r)
    ensures wholeDay ==> forall k :: k in r <==> 0 <= k < HoursPerDay
    ensures !wholeDay ==> forall k :: k in r <==> k in dayPicks || k in nightPicks
  {
    if wholeDay then
      RangeMembers(0, HoursPerDay);
      Range(0, HoursPerDay)
    else
      SortedDistinct(dayPicks + nightPicks)
  }

  /** The form's submit button: the appliance is appended with its final
      hour list, unless that list is empty (the warning case). */
  function AddAppliance(rules: seq<Rule>, name: string, count: int, powerW: real, daysPerWeek: int,
                        wholeDay: bool, dayPicks: seq<int>, nightPicks: seq<int>): (r: seq<Rule>)
    ensures |FinalHours(wholeDay, dayPicks, nightPicks)| == 0 ==> r == rules
    ensures |FinalHours(wholeDay, dayPicks, nightPicks)| > 0 ==>
      r == rules + [Rule(name, count, powerW, daysPerWeek, FinalHours(wholeDay, dayPicks, nightPicks))]
    ensures |FinalHours(wholeDay, dayPicks, nightPicks)| == 0 <==> !wholeDay && |dayPicks| == 0 && |nightPicks| == 0
  {
    var hours := FinalHours(wholeDay, dayPicks, nightPicks);
    NoHoursOnlyWithoutPicks(wholeDay, dayPicks, nightPicks);
    if |hours| == 0 then rules else rules + [Rule(name, count, powerW, daysPerWeek, hours)]
  }

  lemma NoHoursOnlyWithoutPicks(wholeDay: bool, dayPicks: seq<int>, nightPicks: seq<int>)
    ensures |FinalHours(wholeDay, dayPicks, nightPicks)| == 0 <==> !wholeDay && |dayPicks| == 0 && |nightPicks| == 0
  {
    var hours := FinalHours(wholeDay, dayPicks, nightPicks);
    if wholeDay {
      assert 0 in hours;
    } else if |dayPicks| > 0 {
      assert dayPicks[0] in hours;
    } else if |nightPicks| > 0 {
      assert nightPicks[0] in hours;
    }
  }
}
