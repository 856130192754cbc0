/** The upload dispatch (app.py:223-230): a file is first read as a time
    series; when that gives nothing it is read again as a load-profile
    table; when that also gives nothing the file is not recognised. */
module Ingest {
  import opened Series
  import opened Canonical
  import opened LoadProfile

  /** An uploaded file as the two readers see it: the whole table, and the
      table that starts after the seven preamble rows the load-profile
      reader skips. */
  datatype Upload = Upload(whole: Table, afterPreamble: Table)

  /** What ends up in the session: an hourly time series, a synthesised
      year profile, or nothing (the error message). */
  datatype Loaded = TimeSeries(readings: seq<Reading>) | Profile(samples: seq<Sample>) | NotRecognized

  /** The time-series reader yields rows: its columns are found and some
      row survives cleaning. */
  predicate TimeSeriesReadable(t: Table) {
    ChooseColumns(t.header).Success? && |Cleaned(t, ChooseColumns(t.header).value)| > 0
  }

  method Ingest(u: Upload, year: int) returns (r: Loaded)
    ensures r.TimeSeries? <==> TimeSeriesReadable(u.whole)
    ensures r.TimeSeries? ==> |r.readings| > 0
    ensures r.TimeSeries? ==> HourlyFillOf(Cleaned(u.whole, ChooseColumns(u.whole.header).value), r.readings)
    ensures r.Profile? <==> !TimeSeriesReadable(u.whole) && LoadProfileTable(u.afterPreamble, year).Success?
    ensures r.Profile? ==> r.samples == LoadProfileTable(u.afterPreamble, year).value && |r.samples| > 0
    ensures r.NotRecognized? <==>
      !TimeSeriesReadable(u.whole) && LoadProfileTable(u.afterPreamble, year).Failure?
  {
    var series := Canonicalize(u.whole);
    if series.Success? && |series.value| > 0 {
      return TimeSeries(series.value);
    }
    var profile := LoadProfileTable(u.afterPreamble, year);
    if profile.Success? {
      return Profile(profile.value);
    }
    return NotRecognized;
  }
}
