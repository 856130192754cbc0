/** The load-profile reader `cargar_perfil_desde_archivo` (app.py:148-164):
    a table with a `Carga` column, a `Potencia (W)` column and hour columns
    `0`..`23` holding 0/1 flags becomes one appliance rule per usable row,
    and the rules are synthesised into a year profile. */
module LoadProfile {
  import opened Series
  import opened Columns
  import opened Canonical
  import opened Synthesis

  const NameColumn: string := "Carga"
  const PowerColumn: string := "Potencia (W)"

  /** `str(h)` for an hour of the day. */
  function HourLabel(h: int): (s: string)
    requires 0 <= h < 24
    ensures 1 <= |s| <= 2 && (|s| == 1 <==> h < 10)
  {
    if h < 10 then [Digit(h)] else [Digit(h / 10), Digit(h % 10)]
  }

  function Digit(d: int): char
    requires 0 <= d < 10
  {
    ('0' as int + d) as char
  }

  /** An hour column: the hour it stands for and its position. */
  datatype HourColumn = HourColumn(hour: int, col: nat)

  /** Where the reader finds its columns. */
  datatype Layout = Layout(nameCol: nat, powerCol: nat, hourCols: seq<HourColumn>)

  function ProfileNames(header: seq<string>): (names: seq<string>)
    ensures |names| == |header|
    ensures forall i :: 0 <= i < |header| ==> names[i] == ProfileHeaderName(header[i])
  {
    seq(|header|, i requires 0 <= i < |header| => ProfileHeaderName(header[i]))
  }

  /** `[str(i) for i in range(h, 24) if str(i) in names]`, with the
      position of the first column carrying each label. */
  function HourColumns(names: seq<string>, h: int): (cols: seq<HourColumn>)
    requires 0 <= h <= 24
    ensures forall k :: 0 <= k < |cols| ==>
      h <= cols[k].hour < 24 && Labelled(names, cols[k].hour)
      && cols[k].col == IndexOf(names, HourLabel(cols[k].hour))
    ensures forall k, l :: 0 <= k < l < |cols| ==> cols[k].hour < cols[l].hour
    decreases 24 - h
  {
    if h == 24 then []
    else
      var rest := HourColumns(names, h + 1);
      if Labelled(names, h) then [HourColumn(h, IndexOf(names, HourLabel(h)))] + rest
      else rest
  }

  predicate Labelled(names: seq<string>, g: int)
    requires 0 <= g < 24
  {
    HourLabel(g) in names
  }

  /** Every hour whose label is a column name has its column listed. */
  lemma {:induction false} HourColumnsCover(names: seq<string>, h: int, g: int)
    requires 0 <= h <= g < 24 && Labelled(names, g)
    ensures exists k :: 0 <= k < |HourColumns(names, h)| && HourColumns(names, h)[k].hour == g
    decreases 24 - h
  {
    var cols, rest := HourColumns(names, h), HourColumns(names, h + 1);
    if g == h {
      var x := HourColumn(h, IndexOf(names, HourLabel(h)));
      assert cols == [x] + rest;
      assert cols[0].hour == g;
    } else {
      HourColumnsCover(names, h + 1, g);
      var k :| 0 <= k < |rest| && rest[k].hour == g;
      if Labelled(names, h) {
        var x := HourColumn(h, IndexOf(names, HourLabel(h)));
        assert cols == [x] + rest;
        assert ([x] + rest)[k + 1].hour == g;
      } else {
        assert cols == rest;
      }
    }
  }

  /** The first hour from `h` on whose label is carried by two or more
      columns. */
  function RepeatedHourFrom(names: seq<string>, h: int): (r: Option<int>)
    requires 0 <= h <= 24
    ensures r.None? <==> forall g :: h <= g < 24 ==> Occurrences(names, HourLabel(g)) <= 1
    ensures r.Some? ==> h <= r.value < 24 && Occurrences(names, HourLabel(r.value)) > 1
    decreases 24 - h
  {
    if h == 24 then None
    else if Occurrences(names, HourLabel(h)) > 1 then Some(h)
    else RepeatedHourFrom(names, h + 1)
  }

  /** Header check: both named columns must be present (app.py:153). A
      name carried by two columns (pandas renames the second `Carga` to
      `Carga.1`, which the dot cut turns back into `Carga`) makes the row
      lookups of the loop yield a Series, whose truth value raises; the
      reader then returns nothing, so such a header has no layout. */
  function ProfileLayout(header: seq<string>): (r: Result<Layout, LoadError>)
    ensures r == Failure(MissingColumns) <==> NameColumn !in ProfileNames(header) || PowerColumn !in ProfileNames(header)
    ensures r.Success? <==>
      var names := ProfileNames(header);
      && Occurrences(names, NameColumn) == 1 && Occurrences(names, PowerColumn) == 1
      && forall g :: 0 <= g < 24 ==> Occurrences(names, HourLabel(g)) <= 1
    ensures r.Failure? ==> r.error.MissingColumns? || r.error.AmbiguousColumn?
    ensures r.Failure? && r.error.AmbiguousColumn? ==> Occurrences(ProfileNames(header), r.error.name) > 1
    ensures r.Success? ==>
      && r.value.nameCol < |header| && ProfileNames(header)[r.value.nameCol] == NameColumn
      && r.value.powerCol < |header| && ProfileNames(header)[r.value.powerCol] == PowerColumn
      && r.value.hourCols == HourColumns(ProfileNames(header), 0)
  {
    var names := ProfileNames(header);
    if NameColumn !in names || PowerColumn !in names then Failure(MissingColumns)
    else if Occurrences(names, NameColumn) > 1 then Failure(AmbiguousColumn(NameColumn))
    else if Occurrences(names, PowerColumn) > 1 then Failure(AmbiguousColumn(PowerColumn))
    else
      var repeated := RepeatedHourFrom(names, 0);
      if repeated.Some? then Failure(AmbiguousColumn(HourLabel(repeated.value)))
      else Success(Layout(IndexOf(names, NameColumn), IndexOf(names, PowerColumn), HourColumns(names, 0)))
  }

  /** The hours whose flag cell reads as exactly 1. */
  function FlaggedHours(row: seq<Cell>, cols: seq<HourColumn>): (hs: seq<int>)
    ensures forall g :: g in hs <==>
      exists k :: 0 <= k < |cols| && cols[k].hour == g && CellAt(row, cols[k].col).number == Some(1.0)
  {
    if |cols| == 0 then []
    else
      var rest := FlaggedHours(row, cols[1..]);
      assert forall k :: 1 <= k < |cols| ==> cols[k] == cols[1..][k - 1];
      if CellAt(row, cols[0].col).number == Some(1.0) then [cols[0].hour] + rest else rest
  }

  /** One row: skipped (`None`) when the name is missing, the power is not
      numeric or zero, or no hour is flagged; otherwise one unit used all
      seven days on the flagged hours. */
  function RowRule(row: seq<Cell>, layout: Layout): (r: Option<Rule>)
    ensures r.None? <==>
      || CellAt(row, layout.nameCol).text.None?
      || CellAt(row, layout.powerCol).number.None?
      || CellAt(row, layout.powerCol).number == Some(0.0)
      || |FlaggedHours(row, layout.hourCols)| == 0
    ensures r.Some? ==>
      && r.value.name == CellAt(row, layout.nameCol).text.value
      && r.value.powerW == CellAt(row, layout.powerCol).number.value != 0.0
      && r.value.count == 1 && r.value.daysPerWeek == 7
      && |r.value.hours| > 0
      && forall g :: g in r.value.hours <==>
           exists k :: 0 <= k < |layout.hourCols| && layout.hourCols[k].hour == g
             && CellAt(row, layout.hourCols[k].col).number == Some(1.0)
  {
    var name := CellAt(row, layout.nameCol).text;
    var power := CellAt(row, layout.powerCol).number;
    if name.None? || power.None? || power.value == 0.0 then None
    else
      var hours := FlaggedHours(row, layout.hourCols);
      if |hours| == 0 then None
      else Some(Rule(name.value, 1, power.value, 7, hours))
  }

  /** The row loop: the rules of the usable rows, in table order. */
  function RowsToRules(rows: seq<seq<Cell>>, layout: Layout): (rules: seq<Rule>)
    ensures |rules| <= |rows|
    ensures forall x :: x in rules ==> exists j :: 0 <= j < |rows| && RowRule(rows[j], layout) == Some(x)
    ensures forall j :: 0 <= j < |rows| && RowRule(rows[j], layout).Some? ==>
      RowRule(rows[j], layout).value in rules
    ensures |rules| == 0 <==> forall j :: 0 <= j < |rows| ==> RowRule(rows[j], layout).None?
  {
    if |rows| == 0 then []
    else
      var rest := RowsToRules(rows[1..], layout);
      assert forall j :: 1 <= j < |rows| ==> rows[j] == rows[1..][j - 1];
      var r := RowRule(rows[0], layout);
      if r.Some? then [r.value] + rest else rest
  }

  /** The row loop is an order-preserving filter: one rule per usable row,
      in table order. The rules of a table split in two are those of the
      first part followed by those of the second ... */
  lemma {:induction false} RowsToRulesAppend(a: seq<seq<Cell>>, b: seq<seq<Cell>>, layout: Layout)
    ensures RowsToRules(a + b, layout) == RowsToRules(a, layout) + RowsToRules(b, layout)
  {
    if |a| == 0 {
      assert a + b == b;
    } else {
      assert (a + b)[0] == a[0];
      assert (a + b)[1..] == a[1..] + b;
      RowsToRulesAppend(a[1..], b, layout);
    }
  }

  /** ... and a single row gives its rule, or none when it is skipped. */
  lemma RowsToRulesOfOne(row: seq<Cell>, layout: Layout)
    ensures RowsToRules([row], layout) ==
      if RowRule(row, layout).Some? then [RowRule(row, layout).value] else []
  {
    assert [row][1..] == [];
  }

  /** The whole reader: the year profile of the usable rows, or the reason
      there is none. */
  function LoadProfileTable(t: Table, year: int): (r: Result<seq<Sample>, LoadError>)
    ensures ProfileLayout(t.header).Failure? ==> r == Failure(ProfileLayout(t.header).error)
    ensures r == Failure(NoUsableRows) <==>
      ProfileLayout(t.header).Success? && |RowsToRules(t.rows, ProfileLayout(t.header).value)| == 0
    ensures r.Success? <==>
      ProfileLayout(t.header).Success? && |RowsToRules(t.rows, ProfileLayout(t.header).value)| > 0
    ensures r.Success? ==> r.value == Synthesize(RowsToRules(t.rows, ProfileLayout(t.header).value), year)
    ensures r.Success? ==> |r.value| > 0
  {
    var layout := ProfileLayout(t.header);
    if layout.Failure? then Failure(layout.error)
    else
      var rules := RowsToRules(t.rows, layout.value);
      if |rules| == 0 then Failure(NoUsableRows) else Success(Synthesize(rules, year))
  }

  /** With the hour columns the reader lists for a header, an hour is
      flagged in a row exactly when its label is a column name and the
      first column with that label reads 1. */
  lemma RuleHoursAreFlaggedColumns(names: seq<string>, row: seq<Cell>, g: int)
    requires 0 <= g < 24
    ensures g in FlaggedHours(row, HourColumns(names, 0)) <==>
      HourLabel(g) in names && CellAt(row, IndexOf(names, HourLabel(g))).number == Some(1.0)
  {
    var cols := HourColumns(names, 0);
    var tag := HourLabel(g);
    if g in FlaggedHours(row, cols) {
      var k :| 0 <= k < |cols| && cols[k].hour == g && CellAt(row, cols[k].col).number == Some(1.0);
      assert tag in names && cols[k].col == IndexOf(names, tag);
    }
    if tag in names && CellAt(row, IndexOf(names, tag)).number == Some(1.0) {
      HourColumnsCover(names, 0, g);
      var k :| 0 <= k < |cols| && cols[k].hour == g;
      assert cols[k].col == IndexOf(names, tag);
    }
  }
}
