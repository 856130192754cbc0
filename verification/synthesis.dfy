/** Appliance-profile synthesis, `generar_perfil_manual` (app.py:134-146):
    one sample per hour of a calendar year, starting at zero, with every
    appliance rule adding its power on the hours and weekdays it runs. */
module Synthesis {
  import opened Calendar
  import opened Series

  /** One appliance entry: `nombre`, `cantidad`, `potencia_w`,
      `dias_por_semana` (the first that many weekdays, Monday first) and
      `horas_de_uso` (hours of the day). */
  datatype Rule = Rule(name: string, count: int, powerW: real, daysPerWeek: int, hours: seq<int>)

  /** `potencia_w * cantidad / 1000`. */
  function RuleKw(r: Rule): real {
    r.powerW * r.count as real / 1000.0
  }

  /** The rule draws power at `ts`: its weekday is in `range(dias_por_semana)`
      and its hour of day is listed. */
  predicate Runs(r: Rule, ts: int) {
    Weekday(ts) < r.daysPerWeek && HourOf(ts) in r.hours
  }

  /** Reference definition: the power all rules together draw at `ts`. */
  function Demand(rules: seq<Rule>, ts: int): real {
    if |rules| == 0 then 0.0
    else (if Runs(rules[0], ts) then RuleKw(rules[0]) else 0.0) + Demand(rules[1..], ts)
  }

  /** The zero-filled index `date_range(y-01-01 00:00, y-12-31 23:00, 'h')`. */
  function EmptyYear(y: int): (p: seq<Sample>)
    ensures |p| == HoursPerDay * (if IsLeap(y) then 366 else 365)
    ensures HourlyGrid(p) && p[0].ts == YearStart(y)
    ensures forall i :: 0 <= i < |p| ==> p[i].kw == 0.0
  {
    DaysInYearIsCalendarLength(y);
    seq(HoursPerDay * DaysInYear(y), i => Sample(YearStart(y) + SecondsPerHour * i, 0.0))
  }

  /** One pass of the loop: a rule without hours is skipped, otherwise its
      power is added on the selected rows. */
  function AddRule(p: seq<Sample>, r: Rule): (q: seq<Sample>)
    ensures SameStamps(p, q)
    ensures forall i :: 0 <= i < |p| ==> q[i].kw == p[i].kw + (if Runs(r, p[i].ts) then RuleKw(r) else 0.0)
  {
    if |r.hours| == 0 then p
    else
      seq(|p|, i requires 0 <= i < |p| =>
            if Runs(r, p[i].ts) then Sample(p[i].ts, p[i].kw + RuleKw(r)) else p[i])
  }

  /** The loop over the rules, in order. */
  function Overlay(p: seq<Sample>, rules: seq<Rule>): (q: seq<Sample>)
    ensures SameStamps(p, q)
    ensures forall i :: 0 <= i < |p| ==> q[i].kw == p[i].kw + Demand(rules, p[i].ts)
    decreases |rules|
  {
    if |rules| == 0 then p
    else
      var p' := AddRule(p, rules[0]);
      var q := Overlay(p', rules[1..]);
      assert forall i :: 0 <= i < |p| ==>
        p'[i].kw == p[i].kw + (if Runs(rules[0], p[i].ts) then RuleKw(rules[0]) else 0.0);
      q
  }

  /** The synthesised profile: empty for no rules (the warning case),
      otherwise every hour of the year carrying the summed demand. */
  function Synthesize(rules: seq<Rule>, year: int): (p: seq<Sample>)
    ensures |p| == 0 <==> |rules| == 0
    ensures |rules| > 0 ==> |p| == HoursPerDay * (if IsLeap(year) then 366 else 365)
    ensures |rules| > 0 ==> HourlyGrid(p) && p[0].ts == YearStart(year)
    ensures forall i :: 0 <= i < |p| ==> p[i].kw == Demand(rules, p[i].ts)
  {
    if |rules| == 0 then [] else Overlay(EmptyYear(year), rules)
  }

  lemma {:induction false} DemandAppend(a: seq<Rule>, b: seq<Rule>, ts: int)
    ensures Demand(a + b, ts) == Demand(a, ts) + Demand(b, ts)
  {
    if |a| == 0 {
      assert a + b == b;
    } else {
      DemandAppend(a[1..], b, ts);
      assert (a + b)[1..] == a[1..] + b;
    }
  }

  /** Loads stack: the profile of two rule lists together is the sum of
      their separate profiles, hour by hour. */
  lemma SynthesisIsAdditive(a: seq<Rule>, b: seq<Rule>, year: int)
    requires |a| > 0 && |b| > 0
    ensures var pa, pb, pab := Synthesize(a, year), Synthesize(b, year), Synthesize(a + b, year);
      SameStamps(pa, pab) && SameStamps(pb, pab)
      && forall i :: 0 <= i < |pab| ==> pab[i].kw == pa[i].kw + pb[i].kw
  {
    var pa, pb, pab := Synthesize(a, year), Synthesize(b, year), Synthesize(a + b, year);
    forall i | 0 <= i < |pab|
      ensures pab[i].kw == pa[i].kw + pb[i].kw
    {
      DemandAppend(a, b, pab[i].ts);
    }
  }

  /** A rule whose hour list is empty adds nothing. */
  lemma IdleRuleChangesNothing(rules: seq<Rule>, idle: Rule, year: int)
    requires |rules| > 0 && |idle.hours| == 0
    ensures Synthesize(rules + [idle], year) == Synthesize(rules, year)
  {
    var p, q := Synthesize(rules + [idle], year), Synthesize(rules, year);
    forall i | 0 <= i < |p|
      ensures p[i] == q[i]
    {
      DemandAppend(rules, [idle], p[i].ts);
    }
  }

  /** The reference scenario: five 10 W lamps every day at 18, 19 and 20 h
      draw 0.05 kW at those hours and nothing otherwise, through all 8784
      hours of 2024. */
  lemma LampScenario2024()
    ensures var p := Synthesize([Rule("Foco LED", 5, 10.0, 7, [18, 19, 20])], 2024);
      |p| == 8784
      && forall i :: 0 <= i < |p| ==>
           p[i].kw == if HourOf(p[i].ts) in {18, 19, 20} then 0.05 else 0.0
  {
    assert IsLeap(2024);
  }
}
