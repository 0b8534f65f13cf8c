/**
 * The latest recorded date and the one-year window that ends there, as both
 * the precipitation and the temperature routes compute them.
 */
module DateWindow {
  import opened Wrappers
  import opened Records
  import Calendar

  /** The window reaches back a fixed number of days, with no month or leap-year adjustment. */
  const WINDOW_DAYS: int := 365

  /**
   * The first date of a descending sort of all measurement dates, that is the
   * largest one. An empty table has no first row: the route fails, modelled as None.
   */
  function LatestDate(ms: seq<Measurement>): (r: Option<Day>)
    ensures r.None? <==> |ms| == 0
    ensures r.Some? ==> exists i :: 0 <= i < |ms| && ms[i].date == r.value
    ensures r.Some? ==> forall i :: 0 <= i < |ms| ==> ms[i].date <= r.value
  {
    if |ms| == 0 then None
    else
      var rest := LatestDate(ms[1..]);
      if rest.None? || ms[0].date >= rest.value then
        Some(ms[0].date)
      else
        assert exists i :: 1 <= i < |ms| && ms[i].date == rest.value by {
          var j :| 0 <= j < |ms[1..]| && ms[1..][j].date == rest.value;
          assert ms[j + 1].date == rest.value;
        }
        rest
  }

  /** The latest date shifted back by the window length: always strictly earlier. */
  function WindowStart(latest: Day): (r: Day)
    ensures r < latest
  {
    latest - WINDOW_DAYS
  }

  /**
   * The start of the one-year window, relative to the latest measurement: it
   * lies exactly WINDOW_DAYS before a date that occurs in the table and that no
   * measurement exceeds. Fails on an empty table.
   */
  function OneYearAgo(ms: seq<Measurement>): (r: Option<Day>)
    ensures r.None? <==> |ms| == 0
    ensures r.Some? ==> exists i :: 0 <= i < |ms| && ms[i].date == r.value + WINDOW_DAYS
    ensures r.Some? ==> forall i :: 0 <= i < |ms| ==> ms[i].date <= r.value + WINDOW_DAYS
  {
    match LatestDate(ms)
    case None => None
    case Some(latest) => Some(WindowStart(latest))
  }

  /** 2017-08-23 shifted back one window is 2016-08-23. */
  lemma WindowStartExample()
    ensures WindowStart(Calendar.Days(Calendar.Date(2017, 8, 23)))
         == Calendar.Days(Calendar.Date(2016, 8, 23))
  {
  }

  /**
   * Across February 29 the fixed offset does not land on the same calendar day
   * a year earlier: 2016-08-23 shifted back one window is 2015-08-24.
   */
  lemma WindowStartAcrossLeapDay()
    ensures WindowStart(Calendar.Days(Calendar.Date(2016, 8, 23)))
         == Calendar.Days(Calendar.Date(2015, 8, 24))
  {
  }
}
