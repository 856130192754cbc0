/** The time-series reader `cargar_datos_masivos` (app.py:121-132): column
    detection, the watts heuristic, sorting with duplicate removal and the
    forward-filled hourly grid. Reading the file and parsing cells are the
    reader's business: each cell arrives with the three coercions pandas
    applies to it. */
module Canonical {
  import opened Calendar
  import opened Series
  import opened Sorting
  import opened Columns

  /** One cell of an uploaded table: its text (`None` when pandas reads it
      as missing), `pd.to_numeric(errors='coerce')` of it and
      `pd.to_datetime(errors='coerce')` of it in seconds since the epoch. */
  datatype Cell = Cell(text: Option<string>, number: Option<real>, stamp: Option<int>)

  /** A parsed upload: header names and rows of cells. */
  datatype Table = Table(header: seq<string>, rows: seq<seq<Cell>>)

  const Blank: Cell := Cell(None, None, None)

  /** A short row reads as missing beyond its end. */
  function CellAt(row: seq<Cell>, j: int): Cell {
    if 0 <= j < |row| then row[j] else Blank
  }

  /** A reading of the frame after `to_numeric`: `None` stands for NaN. */
  datatype Reading = Reading(ts: int, kw: Option<real>)

  /** Why an upload yields no series: a required column is missing, a
      required column name is carried by two columns, or a load-profile
      table has no usable row. */
  datatype LoadError = MissingColumns | AmbiguousColumn(name: string) | NoUsableRows

  /** Positions of the timestamp and the power columns. */
  datatype Chosen = Chosen(tsCol: nat, kwCol: nat)

  const TimeAliases: seq<string> := ["timestamp", "fecha", "time", "date"]
  const PowerAliases: seq<string> := ["potencia_kw", "kw", "power_kw", "potencia_w", "w", "consumo"]

  function NormalisedNames(header: seq<string>): (names: seq<string>)
    ensures |names| == |header|
    ensures forall i :: 0 <= i < |header| ==> names[i] == NormaliseName(header[i])
  {
    seq(|header|, i requires 0 <= i < |header| => NormaliseName(header[i]))
  }

  /** Column detection: names are lower-cased and stripped, each column is
      the first alias present, and a name carried by two columns makes
      pandas raise (the selection is then a frame), which the reader turns
      into an empty result. */
  function ChooseColumns(header: seq<string>): (r: Result<Chosen, LoadError>)
    ensures r == Failure(MissingColumns) <==>
      FirstPresent(TimeAliases, NormalisedNames(header)).None?
      || FirstPresent(PowerAliases, NormalisedNames(header)).None?
    ensures r.Success? <==>
      var names := NormalisedNames(header);
      var ts, kw := FirstPresent(TimeAliases, names), FirstPresent(PowerAliases, names);
      ts.Some? && kw.Some? && Occurrences(names, ts.value) == 1 && Occurrences(names, kw.value) == 1
    ensures r.Failure? && r.error.AmbiguousColumn? ==>
      Occurrences(NormalisedNames(header), r.error.name) > 1
      && (Some(r.error.name) == FirstPresent(TimeAliases, NormalisedNames(header))
          || Some(r.error.name) == FirstPresent(PowerAliases, NormalisedNames(header)))
    ensures r.Failure? ==> r.error.MissingColumns? || r.error.AmbiguousColumn?
    ensures r.Success? ==> r.value.tsCol < |header| && r.value.kwCol < |header|
    ensures r.Success? ==>
      Some(NormalisedNames(header)[r.value.tsCol]) == FirstPresent(TimeAliases, NormalisedNames(header))
    ensures r.Success? ==>
      Some(NormalisedNames(header)[r.value.kwCol]) == FirstPresent(PowerAliases, NormalisedNames(header))
    ensures r.Success? ==>
      && Occurrences(NormalisedNames(header), NormalisedNames(header)[r.value.tsCol]) == 1
      && Occurrences(NormalisedNames(header), NormalisedNames(header)[r.value.kwCol]) == 1
  {
    var names := NormalisedNames(header);
    var ts := FirstPresent(TimeAliases, names);
    var kw := FirstPresent(PowerAliases, names);
    if ts.None? || kw.None? then Failure(MissingColumns)
    else if Occurrences(names, ts.value) != 1 then Failure(AmbiguousColumn(ts.value))
    else if Occurrences(names, kw.value) != 1 then Failure(AmbiguousColumn(kw.value))
    else Success(Chosen(IndexOf(names, ts.value), IndexOf(names, kw.value)))
  }

  /** Positions, from `j` on, of the rows whose stamp parses, in table
      order. */
  function StampedRowsFrom(rows: seq<seq<Cell>>, c: Chosen, j: nat): (idx: seq<nat>)
    requires j <= |rows|
    ensures forall k :: 0 <= k < |idx| ==> j <= idx[k] < |rows|
    ensures forall k, l :: 0 <= k < l < |idx| ==> idx[k] < idx[l]
    ensures forall m :: m in idx <==> j <= m < |rows| && CellAt(rows[m], c.tsCol).stamp.Some?
    decreases |rows| - j
  {
    if j == |rows| then []
    else
      var rest := StampedRowsFrom(rows, c, j + 1);
      if CellAt(rows[j], c.tsCol).stamp.Some? then [j] + rest else rest
  }

  function StampedRows(rows: seq<seq<Cell>>, c: Chosen): (idx: seq<nat>)
    ensures forall k :: 0 <= k < |idx| ==> idx[k] < |rows|
    ensures forall k, l :: 0 <= k < l < |idx| ==> idx[k] < idx[l]
    ensures forall m :: m in idx <==> 0 <= m < |rows| && CellAt(rows[m], c.tsCol).stamp.Some?
  {
    StampedRowsFrom(rows, c, 0)
  }

  /** `dropna(subset=['Timestamp'])`: one reading per row whose stamp
      parses, in table order; the other rows are dropped. */
  function StampedReadings(rows: seq<seq<Cell>>, c: Chosen): (r: seq<Reading>)
    ensures |r| == |StampedRows(rows, c)|
    ensures forall k :: 0 <= k < |r| ==> Stamped(rows[StampedRows(rows, c)[k]], c, r[k])
    ensures forall x :: x in r ==> exists j :: 0 <= j < |rows| && Stamped(rows[j], c, x)
    ensures forall j :: 0 <= j < |rows| && CellAt(rows[j], c.tsCol).stamp.Some? ==>
      Reading(CellAt(rows[j], c.tsCol).stamp.value, CellAt(rows[j], c.kwCol).number) in r
  {
    var idx := StampedRows(rows, c);
    var r := seq(|idx|, k requires 0 <= k < |idx| =>
                   Reading(CellAt(rows[idx[k]], c.tsCol).stamp.value, CellAt(rows[idx[k]], c.kwCol).number));
    assert forall j :: 0 <= j < |rows| && CellAt(rows[j], c.tsCol).stamp.Some? ==>
      Reading(CellAt(rows[j], c.tsCol).stamp.value, CellAt(rows[j], c.kwCol).number) in r by {
      forall j | 0 <= j < |rows| && CellAt(rows[j], c.tsCol).stamp.Some?
        ensures Reading(CellAt(rows[j], c.tsCol).stamp.value, CellAt(rows[j], c.kwCol).number) in r
      {
        var k :| 0 <= k < |idx| && idx[k] == j;
        assert r[k] == Reading(CellAt(rows[j], c.tsCol).stamp.value, CellAt(rows[j], c.kwCol).number);
      }
    }
    r
  }

  /** Row `row` parses to reading `x`. */
  predicate Stamped(row: seq<Cell>, c: Chosen, x: Reading) {
    CellAt(row, c.tsCol).stamp == Some(x.ts) && CellAt(row, c.kwCol).number == x.kw
  }

  /** The numeric values present (pandas' `median` skips NaN). */
  function Present(s: seq<Reading>): (v: seq<real>)
    ensures forall x :: x in v <==> exists i :: 0 <= i < |s| && s[i].kw == Some(x)
  {
    if |s| == 0 then []
    else
      var rest := Present(s[1..]);
      assert forall i :: 1 <= i < |s| ==> s[i] == s[1..][i - 1];
      if s[0].kw.Some? then [s[0].kw.value] + rest else rest
  }

  /** `Present` keeps every present value once, in order: the values of a
      list split in two are those of the first part followed by those of
      the second ... */
  lemma {:induction false} PresentAppend(a: seq<Reading>, b: seq<Reading>)
    ensures Present(a + b) == Present(a) + Present(b)
  {
    if |a| == 0 {
      assert a + b == b;
    } else {
      assert (a + b)[0] == a[0];
      assert (a + b)[1..] == a[1..] + b;
      PresentAppend(a[1..], b);
    }
  }

  /** ... and a single reading gives its value, or nothing when it is NaN. */
  lemma PresentOfOne(x: Reading)
    ensures Present([x]) == if x.kw.Some? then [x.kw.value] else []
  {
    assert [x][1..] == [];
  }

  /** The unit heuristic: a median above 1000 means the column is in W. */
  predicate InWatts(s: seq<Reading>) {
    var m := Median(Present(s));
    m.Some? && m.value > 1000.0
  }

  /** A power value after the unit step: divided by 1000 when the column
      is in W; a missing value stays missing. */
  function Convert(v: Option<real>, watts: bool): Option<real> {
    if watts && v.Some? then Some(v.value / 1000.0) else v
  }

  /** Divides every present value by 1000 when the column is in W. */
  function ToKilowatts(s: seq<Reading>): (r: seq<Reading>)
    ensures |r| == |s|
    ensures forall i :: 0 <= i < |s| ==> r[i].ts == s[i].ts && r[i].kw.Some? == s[i].kw.Some?
  {
    if InWatts(s) then
      seq(|s|, i requires 0 <= i < |s| => Reading(s[i].ts, Convert(s[i].kw, true)))
    else s
  }

  /** The watts heuristic divides only when some value exceeds 1000, and
      always divides when every value does; otherwise values are kept. */
  lemma WattsDetection(s: seq<Reading>)
    ensures InWatts(s) ==> exists i :: 0 <= i < |s| && s[i].kw.Some? && s[i].kw.value > 1000.0
    ensures (exists i :: 0 <= i < |s| && s[i].kw.Some?)
         && (forall i :: 0 <= i < |s| && s[i].kw.Some? ==> s[i].kw.value > 1000.0)
         ==> InWatts(s)
    ensures forall i :: 0 <= i < |s| && s[i].kw.Some? ==>
      ToKilowatts(s)[i].kw.value == if InWatts(s) then s[i].kw.value / 1000.0 else s[i].kw.value
  {
    MedianAboveMeansLargeValue(s);
    AllLargeMeansWatts(s);
  }

  lemma MedianAboveMeansLargeValue(s: seq<Reading>)
    ensures InWatts(s) ==> exists i :: 0 <= i < |s| && s[i].kw.Some? && s[i].kw.value > 1000.0
  {
    var v := Present(s);
    if |v| > 0 {
      MedianWithinRange(v);
      var hi := MaxOf(v);
      assert exists i :: 0 <= i < |s| && s[i].kw == Some(hi);
    }
  }

  lemma AllLargeMeansWatts(s: seq<Reading>)
    ensures (exists i :: 0 <= i < |s| && s[i].kw.Some?)
         && (forall i :: 0 <= i < |s| && s[i].kw.Some? ==> s[i].kw.value > 1000.0)
         ==> InWatts(s)
  {
    var v := Present(s);
    if (exists i :: 0 <= i < |s| && s[i].kw.Some?)
      && (forall i :: 0 <= i < |s| && s[i].kw.Some? ==> s[i].kw.value > 1000.0)
    {
      var i :| 0 <= i < |s| && s[i].kw.Some?;
      assert s[i].kw.value in v;
      MedianWithinRange(v);
      var lo := MinOf(v);
      var j :| 0 <= j < |s| && s[j].kw == Some(lo);
      assert lo > 1000.0;
    }
  }

  /** Timestamps strictly increasing. */
  predicate Ascending(s: seq<Reading>) {
    forall i, j :: 0 <= i < j < |s| ==> s[i].ts < s[j].ts
  }

  predicate HasStamp(s: seq<Reading>, t: int) {
    exists i :: 0 <= i < |s| && s[i].ts == t
  }

  /** `x` is the earliest reading of `s` carrying its timestamp. */
  predicate FirstOccurrence(s: seq<Reading>, x: Reading) {
    exists j :: 0 <= j < |s| && s[j] == x && forall k :: 0 <= k < j ==> s[k].ts != x.ts
  }

  lemma HasStampConcat(a: seq<Reading>, b: seq<Reading>, t: int)
    ensures HasStamp(a + b, t) <==> HasStamp(a, t) || HasStamp(b, t)
  {
    if HasStamp(a + b, t) {
      var i :| 0 <= i < |a + b| && (a + b)[i].ts == t;
      if i >= |a| { assert b[i - |a|].ts == t; } else { assert a[i].ts == t; }
    }
    if HasStamp(a, t) {
      var i :| 0 <= i < |a| && a[i].ts == t;
      assert (a + b)[i].ts == t;
    }
    if HasStamp(b, t) {
      var i :| 0 <= i < |b| && b[i].ts == t;
      assert (a + b)[|a| + i].ts == t;
    }
  }

  lemma HasStampSingle(x: Reading)
    ensures forall t :: HasStamp([x], t) <==> t == x.ts
  {
    assert [x][0].ts == x.ts;
  }

  /** Places `x` in an ascending series unless its stamp is already there. */
  function InsertNew(s: seq<Reading>, x: Reading): (r: seq<Reading>)
    requires Ascending(s)
    ensures Ascending(r)
    ensures forall t :: HasStamp(r, t) <==> HasStamp(s, t) || t == x.ts
    ensures forall y :: y in r ==> y in s || y == x
    ensures HasStamp(s, x.ts) ==> r == s
  {
    if |s| == 0 then
      HasStampSingle(x);
      [x]
    else if x.ts < s[0].ts then
      HasStampSingle(x);
      assert forall t :: HasStamp([x] + s, t) <==> HasStamp([x], t) || HasStamp(s, t) by {
        forall t { HasStampConcat([x], s, t); }
      }
      assert !HasStamp(s, x.ts);
      [x] + s
    else if x.ts == s[0].ts then s
    else
      var s0 := s[0];
      var tail := InsertNew(s[1..], x);
      assert s == [s0] + s[1..];
      HasStampSingle(s0);
      assert forall t :: HasStamp(s, t) <==> HasStamp([s0], t) || HasStamp(s[1..], t) by {
        forall t { HasStampConcat([s0], s[1..], t); }
      }
      assert forall t :: HasStamp([s0] + tail, t) <==> HasStamp([s0], t) || HasStamp(tail, t) by {
        forall t { HasStampConcat([s0], tail, t); }
      }
      assert forall k :: 0 <= k < |tail| ==> tail[k] in s[1..] || tail[k] == x;
      [s0] + tail
  }

  /** `sort_index()` followed by `~index.duplicated(keep='first')`, with a
      stable sort: readings by increasing stamp, one per stamp, and the one
      kept is the first of its stamp in input order. */
  function SortKeepFirst(s: seq<Reading>): (r: seq<Reading>)
    ensures Ascending(r)
    ensures forall t :: HasStamp(r, t) <==> HasStamp(s, t)
    ensures forall i :: 0 <= i < |r| ==> FirstOccurrence(s, r[i])
  {
    if |s| == 0 then []
    else
      var p := s[..|s| - 1];
      var x := s[|s| - 1];
      var prev := SortKeepFirst(p);
      var r := InsertNew(prev, x);
      assert s == p + [x];
      HasStampSingle(x);
      assert forall t :: HasStamp(s, t) <==> HasStamp(p, t) || HasStamp([x], t) by {
        forall t { HasStampConcat(p, [x], t); }
      }
      KeptAreFirst(s, p, x, prev, r);
      r
  }

  lemma KeptAreFirst(s: seq<Reading>, p: seq<Reading>, x: Reading, prev: seq<Reading>, r: seq<Reading>)
    requires s == p + [x]
    requires forall t :: HasStamp(prev, t) <==> HasStamp(p, t)
    requires forall i :: 0 <= i < |prev| ==> FirstOccurrence(p, prev[i])
    requires forall y :: y in r ==> y in prev || y == x
    requires HasStamp(prev, x.ts) ==> r == prev
    ensures forall i :: 0 <= i < |r| ==> FirstOccurrence(s, r[i])
  {
    forall i | 0 <= i < |r|
      ensures FirstOccurrence(s, r[i])
    {
      if r[i] in prev {
        var k :| 0 <= k < |prev| && prev[k] == r[i];
        var j :| 0 <= j < |p| && p[j] == r[i] && forall m :: 0 <= m < j ==> p[m].ts != r[i].ts;
        assert s[j] == r[i];
      } else {
        assert r[i] == x && !HasStamp(p, x.ts);
        forall m | 0 <= m < |s| - 1 ensures s[m].ts != x.ts {
          assert p[m] == s[m];
        }
        assert s[|s| - 1] == x;
      }
    }
  }

  /** Grid point `g` carries `v`, the value of the latest reading at or
      before `g`. */
  predicate CarriesLatest(s: seq<Reading>, g: int, v: Option<real>) {
    exists j {:trigger s[j]} :: 0 <= j < |s| && s[j].ts <= g && (j == |s| - 1 || g < s[j + 1].ts) && s[j].kw == v
  }

  /** `asfreq('h', method='ffill')`: an hourly grid from the first to the
      last stamp, each point carrying the latest reading at or before it. */
  method FillForward(s: seq<Reading>) returns (r: seq<Reading>)
    requires Ascending(s)
    ensures HourlyFillOf(s, r)
    ensures |s| == 0 ==> r == []
    ensures |s| > 0 ==> |r| > 0 && r[|r| - 1].ts <= s[|s| - 1].ts < r[|r| - 1].ts + SecondsPerHour
    ensures forall k :: 0 <= k < |r| ==> r[k].ts == s[0].ts + SecondsPerHour * k
    ensures forall k :: 0 <= k < |r| ==> CarriesLatest(s, r[k].ts, r[k].kw)
    ensures forall j :: 0 <= j < |s| && (s[j].ts - s[0].ts) % SecondsPerHour == 0 ==>
      0 <= (s[j].ts - s[0].ts) / SecondsPerHour < |r| && r[(s[j].ts - s[0].ts) / SecondsPerHour] == s[j]
  {
    r := [];
    if |s| == 0 {
      return;
    }
    var t0 := s[0].ts;
    var last := s[|s| - 1].ts;
    assert t0 <= last;
    GridReachesLast(t0, last);
    var n := (last - t0) / SecondsPerHour + 1;
    r := FillGrid(s, n);
    AlignedReadingsKept(s, r);
  }

  /** Every reading that falls on the hourly grid is kept there unchanged. */
  lemma AlignedReadingsKept(s: seq<Reading>, r: seq<Reading>)
    requires Ascending(s) && |s| > 0
    requires |r| == (s[|s| - 1].ts - s[0].ts) / SecondsPerHour + 1
    requires GridCarriesLatest(s, s[0].ts, r)
    ensures forall j :: 0 <= j < |s| && (s[j].ts - s[0].ts) % SecondsPerHour == 0 ==>
      0 <= (s[j].ts - s[0].ts) / SecondsPerHour < |r| && r[(s[j].ts - s[0].ts) / SecondsPerHour] == s[j]
  {
    forall j | 0 <= j < |s| && (s[j].ts - s[0].ts) % SecondsPerHour == 0
      ensures 0 <= (s[j].ts - s[0].ts) / SecondsPerHour < |r| && r[(s[j].ts - s[0].ts) / SecondsPerHour] == s[j]
    {
      AlignedReadingKept(s, r, j);
    }
  }

  /** `r` is an hourly grid from `t0` whose every point carries the latest
      reading of `s` at or before it. */
  predicate GridCarriesLatest(s: seq<Reading>, t0: int, r: seq<Reading>) {
    forall q :: 0 <= q < |r| ==> r[q].ts == t0 + SecondsPerHour * q && CarriesLatest(s, r[q].ts, r[q].kw)
  }

  lemma LatestAt(s: seq<Reading>, g: int, i: int)
    requires 0 <= i < |s|
    requires s[i].ts <= g
    requires i + 1 == |s| || g < s[i + 1].ts
    ensures CarriesLatest(s, g, s[i].kw)
  {
  }

  /** One more grid point, carrying reading `j` when `j` is the latest
      reading at or before it. */
  lemma ExtendGrid(s: seq<Reading>, t0: int, r: seq<Reading>, j: int)
    requires GridCarriesLatest(s, t0, r) && 0 <= j < |s|
    requires s[j].ts <= t0 + SecondsPerHour * |r|
    requires j + 1 == |s| || t0 + SecondsPerHour * |r| < s[j + 1].ts
    ensures GridCarriesLatest(s, t0, r + [Reading(t0 + SecondsPerHour * |r|, s[j].kw)])
  {
    var g := t0 + SecondsPerHour * |r|;
    var x := Reading(g, s[j].kw);
    LatestAt(s, g, j);
    var r' := r + [x];
    forall q | 0 <= q < |r'|
      ensures r'[q].ts == t0 + SecondsPerHour * q && CarriesLatest(s, r'[q].ts, r'[q].kw)
    {
      if q < |r| {
        assert r'[q] == r[q];
      }
    }
  }

  /** The first `n` points of the hourly grid from the first stamp, each
      carrying the latest reading at or before it. */
  method FillGrid(s: seq<Reading>, n: int) returns (r: seq<Reading>)
    requires Ascending(s) && |s| > 0 && n >= 0
    ensures |r| == n && GridCarriesLatest(s, s[0].ts, r)
  {
    var t0 := s[0].ts;
    r := [];
    var j := 0;
    var k := 0;
    while k < n
      invariant 0 <= k <= n && 0 <= j < |s|
      invariant |r| == k
      invariant s[j].ts <= t0 + SecondsPerHour * k
      invariant GridCarriesLatest(s, t0, r)
    {
      var g := t0 + SecondsPerHour * k;
      while j + 1 < |s| && s[j + 1].ts <= g
        invariant 0 <= j < |s| && s[j].ts <= g
      {
        j := j + 1;
      }
      ExtendGrid(s, t0, r, j);
      r := r + [Reading(g, s[j].kw)];
      k := k + 1;
    }
  }

  /** The last grid point at or before `last` lies less than an hour
      before it. */
  lemma GridReachesLast(t0: int, last: int)
    requires t0 <= last
    ensures var q := (last - t0) / SecondsPerHour;
      q >= 0 && t0 + SecondsPerHour * q <= last < t0 + SecondsPerHour * q + SecondsPerHour
  {
  }

  /** A reading on the hourly grid is the grid point's own value. */
  lemma AlignedReadingKept(s: seq<Reading>, r: seq<Reading>, j: int)
    requires Ascending(s) && 0 <= j < |s|
    requires |r| == (s[|s| - 1].ts - s[0].ts) / SecondsPerHour + 1
    requires GridCarriesLatest(s, s[0].ts, r)
    requires (s[j].ts - s[0].ts) % SecondsPerHour == 0
    ensures 0 <= (s[j].ts - s[0].ts) / SecondsPerHour < |r|
    ensures r[(s[j].ts - s[0].ts) / SecondsPerHour] == s[j]
  {
    var t0 := s[0].ts;
    var last := s[|s| - 1].ts;
    assert t0 <= s[j].ts <= last;
    var k := (s[j].ts - t0) / SecondsPerHour;
    assert SecondsPerHour * k == s[j].ts - t0;
    GridReachesLast(t0, last);
    assert k <= (last - t0) / SecondsPerHour;
    assert r[k].ts == s[j].ts;
    LatestIsExact(s, j, r[k].kw);
  }

  /** On an ascending series the latest reading at or before a reading's
      own stamp is that reading. */
  lemma LatestIsExact(s: seq<Reading>, j: int, v: Option<real>)
    requires Ascending(s) && 0 <= j < |s|
    requires CarriesLatest(s, s[j].ts, v)
    ensures v == s[j].kw
  {
    var i :| 0 <= i < |s| && s[i].ts <= s[j].ts && (i == |s| - 1 || s[j].ts < s[i + 1].ts) && s[i].kw == v;
  }

  /** The detected columns and the readings before the grid is laid. */
  function Cleaned(t: Table, c: Chosen): (r: seq<Reading>)
    ensures Ascending(r)
  {
    SortKeepFirst(ToKilowatts(StampedReadings(t.rows, c)))
  }

  /** Row `j` is the first row of the table whose stamp parses to `ts`. */
  predicate FirstRowWith(rows: seq<seq<Cell>>, c: Chosen, ts: int, j: int) {
    0 <= j < |rows| && CellAt(rows[j], c.tsCol).stamp == Some(ts)
    && forall m :: 0 <= m < j ==> CellAt(rows[m], c.tsCol).stamp != Some(ts)
  }

  /** Each cleaned reading comes from the first table row carrying its
      stamp, with that row's power after the unit step. */
  lemma CleanedKeepsFirstRow(t: Table, c: Chosen, i: int)
    requires 0 <= i < |Cleaned(t, c)|
    ensures var x := Cleaned(t, c)[i];
      exists j :: FirstRowWith(t.rows, c, x.ts, j)
        && x.kw == Convert(CellAt(t.rows[j], c.kwCol).number, InWatts(StampedReadings(t.rows, c)))
  {
    var q := StampedReadings(t.rows, c);
    var x := Cleaned(t, c)[i];
    var k := CleanedSource(t, c, i);
    FirstStampedRow(t.rows, c, k);
    var j := StampedRows(t.rows, c)[k];
    assert FirstRowWith(t.rows, c, x.ts, j);
  }

  /** The position among the stamped readings of the reading a cleaned one
      was kept from: the first with its stamp, converted to kW. */
  lemma CleanedSource(t: Table, c: Chosen, i: int) returns (k: int)
    requires 0 <= i < |Cleaned(t, c)|
    ensures var q, x := StampedReadings(t.rows, c), Cleaned(t, c)[i];
      && 0 <= k < |q| && q[k].ts == x.ts && x.kw == Convert(q[k].kw, InWatts(q))
      && forall l :: 0 <= l < k ==> q[l].ts != q[k].ts
  {
    var q := StampedReadings(t.rows, c);
    var u := ToKilowatts(q);
    var x := Cleaned(t, c)[i];
    assert FirstOccurrence(u, x);
    k :| 0 <= k < |u| && u[k] == x && forall l :: 0 <= l < k ==> u[l].ts != x.ts;
    ToKilowattsAt(q, k);
    forall l | 0 <= l < k
      ensures q[l].ts != q[k].ts
    {
      ToKilowattsAt(q, l);
    }
  }

  lemma ToKilowattsAt(q: seq<Reading>, k: int)
    requires 0 <= k < |q|
    ensures ToKilowatts(q)[k] == Reading(q[k].ts, Convert(q[k].kw, InWatts(q)))
  {
  }

  /** A stamped reading whose stamp no earlier reading carries comes from
      the first row with that stamp. */
  lemma FirstStampedRow(rows: seq<seq<Cell>>, c: Chosen, k: int)
    requires 0 <= k < |StampedReadings(rows, c)|
    requires forall l :: 0 <= l < k ==> StampedReadings(rows, c)[l].ts != StampedReadings(rows, c)[k].ts
    ensures var j, x := StampedRows(rows, c)[k], StampedReadings(rows, c)[k];
      && CellAt(rows[j], c.tsCol).stamp == Some(x.ts) && CellAt(rows[j], c.kwCol).number == x.kw
      && forall m :: 0 <= m < j ==> CellAt(rows[m], c.tsCol).stamp != Some(x.ts)
  {
    var q := StampedReadings(rows, c);
    var idx := StampedRows(rows, c);
    var j := idx[k];
    assert Stamped(rows[j], c, q[k]);
    forall m | 0 <= m < j
      ensures CellAt(rows[m], c.tsCol).stamp != Some(q[k].ts)
    {
      if CellAt(rows[m], c.tsCol).stamp.Some? {
        var l :| 0 <= l < |idx| && idx[l] == m;
        assert Stamped(rows[m], c, q[l]);
      }
    }
  }

  /** `r` is the forward-filled hourly grid of `s`: empty exactly when `s`
      is, from the first stamp to within an hour below the last, every point
      carrying the latest reading at or before it, and every reading on the
      grid kept at its place. */
  predicate HourlyFillOf(s: seq<Reading>, r: seq<Reading>) {
    && (|r| == 0 <==> |s| == 0)
    && (|s| > 0 ==> r[|r| - 1].ts <= s[|s| - 1].ts < r[|r| - 1].ts + SecondsPerHour)
    && (forall k :: 0 <= k < |r| ==> r[k].ts == s[0].ts + SecondsPerHour * k)
    && (forall k :: 0 <= k < |r| ==> CarriesLatest(s, r[k].ts, r[k].kw))
    && (forall j :: 0 <= j < |s| && (s[j].ts - s[0].ts) % SecondsPerHour == 0 ==>
          0 <= (s[j].ts - s[0].ts) / SecondsPerHour < |r| && r[(s[j].ts - s[0].ts) / SecondsPerHour] == s[j])
  }

  /** The whole reader: an error when the columns cannot be found, else the
      forward-filled hourly grid over the cleaned readings (empty when no
      row has a parseable stamp). */
  method Canonicalize(t: Table) returns (r: Result<seq<Reading>, LoadError>)
    ensures r.Failure? <==> ChooseColumns(t.header).Failure?
    ensures r.Failure? ==> r.error == ChooseColumns(t.header).error
    ensures r.Success? ==> HourlyFillOf(Cleaned(t, ChooseColumns(t.header).value), r.value)
  {
    var cols := ChooseColumns(t.header);
    if cols.Failure? {
      return Failure(cols.error);
    }
    var s := Cleaned(t, cols.value);
    var grid := FillForward(s);
    r := Success(grid);
  }
}
