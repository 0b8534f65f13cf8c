/**
 * The four query routes of the weather API, as the values they return with
 * the database replaced by the two tables passed in as sequences:
 * the last year of precipitation, the station list, the last year of
 * temperatures at the most active station, and MIN/AVG/MAX of temperature
 * over a caller-supplied date range.
 */
module Queries {
  import opened Wrappers
  import opened Records
  import opened DateWindow
  import opened Aggregation
  import Calendar

  /** Date -> precipitation, as the route's dictionary; a NULL reading stays None. */
  type PrecipMap = map<Day, Option<int>>

  /** The window filter `date >= one_year_ago`. */
  predicate InWindow(m: Measurement, start: Day) {
    m.date >= start
  }

  // ---------------------------------------------------------------------------
  // Precipitation

  /**
   * The dictionary comprehension over the filtered rows, taken in row order:
   * each in-window row writes its (date, prcp) pair, so for a date that several
   * rows share, the last of them wins.
   */
  function PrecipFold(rows: seq<Measurement>, start: Day): (r: PrecipMap)
    ensures forall d :: d in r ==> d >= start
  {
    if |rows| == 0 then map[]
    else
      var last := rows[|rows| - 1];
      var acc := PrecipFold(rows[..|rows| - 1], start);
      if InWindow(last, start) then acc[last.date := last.prcp] else acc
  }

  /** The keys of the dictionary are exactly the dates of the in-window rows. */
  lemma {:induction false} PrecipFoldKeys(rows: seq<Measurement>, start: Day, d: Day)
    ensures d in PrecipFold(rows, start)
        <==> exists i :: 0 <= i < |rows| && rows[i].date == d && InWindow(rows[i], start)
  {
    if |rows| > 0 {
      var init := rows[..|rows| - 1];
      PrecipFoldKeys(init, start, d);
      if d in PrecipFold(init, start) {
        var i :| 0 <= i < |init| && init[i].date == d && InWindow(init[i], start);
        assert rows[i] == init[i];
      }
      if exists i :: 0 <= i < |rows| && rows[i].date == d && InWindow(rows[i], start) {
        var i :| 0 <= i < |rows| && rows[i].date == d && InWindow(rows[i], start);
        if i < |rows| - 1 {
          assert init[i] == rows[i];
        }
      }
    }
  }

  /**
   * For a date, the value stored is the precipitation of the last in-window
   * row with that date, passed through as it is (a missing reading stays missing).
   */
  lemma {:induction false} PrecipFoldLastWins(rows: seq<Measurement>, start: Day, i: nat)
    requires i < |rows| && InWindow(rows[i], start)
    requires forall j :: i < j < |rows| ==> rows[j].date != rows[i].date
    ensures rows[i].date in PrecipFold(rows, start)
    ensures PrecipFold(rows, start)[rows[i].date] == rows[i].prcp
  {
    if i < |rows| - 1 {
      var init := rows[..|rows| - 1];
      assert init[i] == rows[i];
      PrecipFoldLastWins(init, start, i);
    }
  }

  /** The precipitation route. An empty measurement table has no latest date: the route fails. */
  function Precipitation(ms: seq<Measurement>): (r: Option<PrecipMap>)
    ensures r.None? <==> |ms| == 0
  {
    match OneYearAgo(ms)
    case None => None
    case Some(start) => Some(PrecipFold(ms, start))
  }

  /**
   * Every date after the window start that some row carries is a key, no date
   * before the window start is, and the latest date always is.
   */
  lemma PrecipitationWindow(ms: seq<Measurement>, d: Day)
    requires |ms| > 0
    ensures d > OneYearAgo(ms).value
        ==> (d in Precipitation(ms).value <==> exists i :: 0 <= i < |ms| && ms[i].date == d)
    ensures d < OneYearAgo(ms).value ==> d !in Precipitation(ms).value
    ensures LatestDate(ms).value in Precipitation(ms).value
  {
    var start := OneYearAgo(ms).value;
    PrecipFoldKeys(ms, start, d);
    PrecipFoldKeys(ms, start, LatestDate(ms).value);
  }

  /** The last row of a date after the window start gives that date's value. */
  lemma PrecipitationLastWins(ms: seq<Measurement>, i: nat)
    requires i < |ms| && ms[i].date > OneYearAgo(ms).value
    requires forall j :: i < j < |ms| ==> ms[j].date != ms[i].date
    ensures ms[i].date in Precipitation(ms).value
    ensures Precipitation(ms).value[ms[i].date] == ms[i].prcp
  {
    PrecipFoldLastWins(ms, OneYearAgo(ms).value, i);
  }

  /**
   * With readings on 2016-08-22, 2016-08-24 and 2017-08-23, the year back from
   * 2017-08-23 keeps 2016-08-24 and drops 2016-08-22.
   */
  lemma PrecipitationScenario(ms: seq<Measurement>, s: string)
    requires ms == [
      Measurement(s, Calendar.Days(Calendar.Date(2016, 8, 22)), Some(5), 75),
      Measurement(s, Calendar.Days(Calendar.Date(2016, 8, 24)), None, 76),
      Measurement(s, Calendar.Days(Calendar.Date(2017, 8, 23)), Some(0), 81)]
    ensures Calendar.Days(Calendar.Date(2016, 8, 24)) in Precipitation(ms).value
    ensures Calendar.Days(Calendar.Date(2016, 8, 22)) !in Precipitation(ms).value
    ensures Precipitation(ms).value[Calendar.Days(Calendar.Date(2016, 8, 24))] == None
  {
    var latest := Calendar.Days(Calendar.Date(2017, 8, 23));
    assert LatestDate(ms) == Some(latest) by {
      assert ms[2].date == latest;
    }
    WindowStartExample();
    PrecipitationWindow(ms, Calendar.Days(Calendar.Date(2016, 8, 24)));
    PrecipitationWindow(ms, Calendar.Days(Calendar.Date(2016, 8, 22)));
    PrecipitationLastWins(ms, 1);
  }

  // ---------------------------------------------------------------------------
  // Stations

  /** The station route: one code per station row, in row order, with no deduplication. */
  function StationCodes(ss: seq<Station>): (r: seq<string>)
    ensures |r| == |ss|
    ensures forall i :: 0 <= i < |ss| ==> r[i] == ss[i].code
  {
    if |ss| == 0 then [] else [ss[0].code] + StationCodes(ss[1..])
  }

  // ---------------------------------------------------------------------------
  // Temperature observations of the most active station

  /** One `{date: tobs}` entry of the temperature route. */
  datatype Reading = Reading(date: Day, tobs: int)

  /** The two filters of the temperature query: this station, inside the window. */
  predicate Matches(m: Measurement, station: string, start: Day) {
    m.station == station && InWindow(m, start)
  }

  /** How many rows pass both filters. */
  function NumMatching(rows: seq<Measurement>, station: string, start: Day): nat {
    if |rows| == 0 then 0
    else NumMatching(rows[..|rows| - 1], station, start)
         + (if Matches(rows[|rows| - 1], station, start) then 1 else 0)
  }

  /** The list comprehension over the filtered rows: a (date, tobs) entry per row, in row order. */
  function Series(rows: seq<Measurement>, station: string, start: Day): (r: seq<Reading>)
    ensures |r| == NumMatching(rows, station, start)
    ensures forall k :: 0 <= k < |r| ==> r[k].date >= start
  {
    if |rows| == 0 then []
    else
      var last := rows[|rows| - 1];
      Series(rows[..|rows| - 1], station, start)
      + (if Matches(last, station, start) then [Reading(last.date, last.tobs)] else [])
  }

  /** The series of a prefix of the rows is a prefix of the series. */
  lemma {:induction false} SeriesPrefix(rows: seq<Measurement>, station: string, start: Day, n: nat)
    requires n <= |rows|
    ensures Series(rows[..n], station, start) <= Series(rows, station, start)
    decreases |rows| - n
  {
    if n < |rows| {
      var init := rows[..|rows| - 1];
      assert init[..n] == rows[..n];
      SeriesPrefix(init, station, start, n);
      assert rows[..|rows|] == rows;
    } else {
      assert rows[..n] == rows;
    }
  }

  /**
   * A matching row appears in the series at the position given by the number
   * of matching rows before it.
   */
  lemma SeriesRank(rows: seq<Measurement>, station: string, start: Day, i: nat)
    requires i < |rows| && Matches(rows[i], station, start)
    ensures NumMatching(rows[..i], station, start) < |Series(rows, station, start)|
    ensures Series(rows, station, start)[NumMatching(rows[..i], station, start)]
         == Reading(rows[i].date, rows[i].tobs)
  {
    var upTo := rows[..i + 1];
    assert upTo[..i] == rows[..i];
    SeriesPrefix(rows, station, start, i + 1);
  }

  /** Matching rows keep their relative order in the series. */
  lemma {:induction false} RankIncreasing(rows: seq<Measurement>, station: string, start: Day, i: nat, j: nat)
    requires i < j <= |rows| && Matches(rows[i], station, start)
    ensures NumMatching(rows[..i], station, start) < NumMatching(rows[..j], station, start)
    decreases j - i
  {
    var upTo := rows[..j];
    assert upTo[..j - 1] == rows[..j - 1];
    if i < j - 1 {
      RankIncreasing(rows, station, start, i, j - 1);
    }
  }

  /** Every entry of the series comes from a matching row, the one of that rank. */
  lemma {:induction false} SeriesOrigin(rows: seq<Measurement>, station: string, start: Day, k: nat)
    requires k < |Series(rows, station, start)|
    ensures exists i :: 0 <= i < |rows| && Matches(rows[i], station, start)
                     && NumMatching(rows[..i], station, start) == k
  {
    var init := rows[..|rows| - 1];
    if k < |Series(init, station, start)| {
      SeriesOrigin(init, station, start, k);
      var i :| 0 <= i < |init| && Matches(init[i], station, start)
               && NumMatching(init[..i], station, start) == k;
      assert init[..i] == rows[..i];
    } else {
      assert rows[..|rows| - 1] == init;
    }
  }

  /**
   * The temperature route: the most active station over the whole table, then
   * its rows inside the one-year window. Fails on an empty measurement table.
   */
  function TemperatureSeries(ms: seq<Measurement>): (r: Option<seq<Reading>>)
    ensures r.None? <==> |ms| == 0
    ensures r.Some? ==> forall k :: 0 <= k < |r.value| ==> r.value[k].date >= OneYearAgo(ms).value
  {
    match OneYearAgo(ms)
    case None => None
    case Some(start) => Some(Series(ms, MostActive(ms).value, start))
  }

  /**
   * A row of the most active station dated after the window start has its own
   * entry in the route's result, after the entries of the earlier such rows;
   * and every entry is the row of one such station, not before the window.
   */
  lemma TemperatureSeriesRows(ms: seq<Measurement>, i: nat)
    requires i < |ms| && ms[i].station == MostActive(ms).value && ms[i].date > OneYearAgo(ms).value
    ensures NumMatching(ms[..i], MostActive(ms).value, OneYearAgo(ms).value) < |TemperatureSeries(ms).value|
    ensures var station, start := MostActive(ms).value, OneYearAgo(ms).value;
      TemperatureSeries(ms).value[NumMatching(ms[..i], station, start)] == Reading(ms[i].date, ms[i].tobs)
  {
    SeriesRank(ms, MostActive(ms).value, OneYearAgo(ms).value, i);
  }

  /** Each entry of the temperature route is a row of the most active station, not before the window. */
  lemma TemperatureSeriesOrigin(ms: seq<Measurement>, k: nat)
    requires |ms| > 0 && k < |TemperatureSeries(ms).value|
    ensures exists i :: 0 <= i < |ms| && ms[i].station == MostActive(ms).value
                     && ms[i].date >= OneYearAgo(ms).value
                     && TemperatureSeries(ms).value[k] == Reading(ms[i].date, ms[i].tobs)
  {
    var station, start := MostActive(ms).value, OneYearAgo(ms).value;
    SeriesOrigin(ms, station, start, k);
    var i :| 0 <= i < |ms| && Matches(ms[i], station, start) && NumMatching(ms[..i], station, start) == k;
    SeriesRank(ms, station, start, i);
  }

  // ---------------------------------------------------------------------------
  // Range statistics

  /** The stats filter: `date >= start`, and `date <= end` when an end is given. */
  predicate InRange(m: Measurement, start: Day, end: Option<Day>) {
    m.date >= start && (end.None? || m.date <= end.value)
  }

  /** How many rows are in range: the divisor of AVG. */
  function NumInRange(ms: seq<Measurement>, start: Day, end: Option<Day>): nat {
    if |ms| == 0 then 0
    else (if InRange(ms[0], start, end) then 1 else 0) + NumInRange(ms[1..], start, end)
  }

  /** The total temperature of the rows in range, added up row by row. */
  function SumInRange(ms: seq<Measurement>, start: Day, end: Option<Day>): int {
    if |ms| == 0 then 0
    else (if InRange(ms[0], start, end) then ms[0].tobs else 0) + SumInRange(ms[1..], start, end)
  }

  /**
   * The temperatures of the rows in range, one per row: as many values as rows
   * in range, adding up to their total, and a value occurs exactly when some
   * row in range has it.
   */
  function RangeTemps(ms: seq<Measurement>, start: Day, end: Option<Day>): (r: seq<int>)
    ensures |r| == NumInRange(ms, start, end)
    ensures Sum(r) == SumInRange(ms, start, end)
    ensures forall t :: t in r <==> exists i :: 0 <= i < |ms| && InRange(ms[i], start, end) && ms[i].tobs == t
  {
    if |ms| == 0 then []
    else
      var rest := RangeTemps(ms[1..], start, end);
      assert forall t :: t in rest <==> exists i :: 1 <= i < |ms| && InRange(ms[i], start, end) && ms[i].tobs == t by {
        forall t ensures t in rest <==> exists i :: 1 <= i < |ms| && InRange(ms[i], start, end) && ms[i].tobs == t {
          if t in rest {
            var j :| 0 <= j < |ms[1..]| && InRange(ms[1..][j], start, end) && ms[1..][j].tobs == t;
            assert ms[j + 1] == ms[1..][j];
          }
          if exists i :: 1 <= i < |ms| && InRange(ms[i], start, end) && ms[i].tobs == t {
            var i :| 1 <= i < |ms| && InRange(ms[i], start, end) && ms[i].tobs == t;
            assert ms[1..][i - 1] == ms[i];
          }
        }
      }
      if InRange(ms[0], start, end) then
        assert ([ms[0].tobs] + rest)[1..] == rest;
        [ms[0].tobs] + rest
      else rest
  }

  /**
   * The stats route: `[MIN(tobs), AVG(tobs), MAX(tobs)]` over the rows in range.
   * SQL aggregates over no rows are NULL, so an empty range gives three Nones.
   * Otherwise MIN and MAX are temperatures of rows in range that bound all of
   * them, and AVG is their exact mean, between the two.
   */
  function Stats(ms: seq<Measurement>, start: Day, end: Option<Day>): (r: seq<Option<real>>)
    ensures |r| == 3
    ensures r[0].None? <==> forall i :: 0 <= i < |ms| ==> !InRange(ms[i], start, end)
    ensures r[1].None? <==> r[0].None?
    ensures r[2].None? <==> r[0].None?
    ensures r[0].Some? ==> r[0].value <= r[1].value <= r[2].value
    ensures r[0].Some? ==>
      && (exists i :: 0 <= i < |ms| && InRange(ms[i], start, end) && ms[i].tobs as real == r[0].value)
      && (forall i :: 0 <= i < |ms| && InRange(ms[i], start, end) ==> r[0].value <= ms[i].tobs as real)
    ensures r[2].Some? ==>
      && (exists i :: 0 <= i < |ms| && InRange(ms[i], start, end) && ms[i].tobs as real == r[2].value)
      && (forall i :: 0 <= i < |ms| && InRange(ms[i], start, end) ==> ms[i].tobs as real <= r[2].value)
    ensures r[1].Some? ==> NumInRange(ms, start, end) > 0
    ensures r[1].Some? ==>
      r[1].value == SumInRange(ms, start, end) as real / NumInRange(ms, start, end) as real
  {
    var ts := RangeTemps(ms, start, end);
    RangeTempsEmpty(ms, start, end);
    if |ts| == 0 then [None, None, None]
    else
      RangeTempsBounds(ms, start, end);
      var lo, avg, hi := Min(ts), Mean(ts), Max(ts);
      assert lo as real <= avg <= hi as real;
      [Some(lo as real), Some(avg), Some(hi as real)]
  }

  /** The range's temperature column is empty exactly when no row is in range. */
  lemma RangeTempsEmpty(ms: seq<Measurement>, start: Day, end: Option<Day>)
    ensures |RangeTemps(ms, start, end)| == 0 <==> forall i :: 0 <= i < |ms| ==> !InRange(ms[i], start, end)
  {
    forall i | 0 <= i < |ms|
      ensures InRange(ms[i], start, end) ==> ms[i].tobs in RangeTemps(ms, start, end)
    {
    }
    if |RangeTemps(ms, start, end)| > 0 {
      assert RangeTemps(ms, start, end)[0] in RangeTemps(ms, start, end);
    }
  }

  /** MIN and MAX of the range's temperatures are temperatures of rows in range and bound all of them. */
  lemma RangeTempsBounds(ms: seq<Measurement>, start: Day, end: Option<Day>)
    requires |RangeTemps(ms, start, end)| > 0
    ensures var ts := RangeTemps(ms, start, end);
      && (exists i :: 0 <= i < |ms| && InRange(ms[i], start, end) && ms[i].tobs as real == Min(ts) as real)
      && (forall i :: 0 <= i < |ms| && InRange(ms[i], start, end) ==> Min(ts) as real <= ms[i].tobs as real)
    ensures var ts := RangeTemps(ms, start, end);
      && (exists i :: 0 <= i < |ms| && InRange(ms[i], start, end) && ms[i].tobs as real == Max(ts) as real)
      && (forall i :: 0 <= i < |ms| && InRange(ms[i], start, end) ==> ms[i].tobs as real <= Max(ts) as real)
  {
    var ts := RangeTemps(ms, start, end);
    var lo, hi := Min(ts), Max(ts);
    forall i | 0 <= i < |ms| && InRange(ms[i], start, end) ensures lo <= ms[i].tobs <= hi {
      assert ms[i].tobs in ts;
    }
    var j :| 0 <= j < |ms| && InRange(ms[j], start, end) && ms[j].tobs == lo;
    var k :| 0 <= k < |ms| && InRange(ms[k], start, end) && ms[k].tobs == hi;
  }

  /** A row dated exactly on the start day is inside the range (when the range is not reversed). */
  lemma StatsIncludesStartDay(ms: seq<Measurement>, start: Day, end: Option<Day>, i: nat)
    requires i < |ms| && ms[i].date == start && (end.None? || start <= end.value)
    ensures Stats(ms, start, end)[0].Some?
    ensures Stats(ms, start, end)[0].value <= ms[i].tobs as real <= Stats(ms, start, end)[2].value
  {
    assert InRange(ms[i], start, end);
  }

  /** A row outside the range can be removed without changing the result. */
  lemma {:induction false} RangeTempsIgnoresOutside(a: seq<Measurement>, m: Measurement, b: seq<Measurement>,
                                                    start: Day, end: Option<Day>)
    requires !InRange(m, start, end)
    ensures RangeTemps(a + [m] + b, start, end) == RangeTemps(a + b, start, end)
  {
    if |a| == 0 {
      assert a + [m] + b == [m] + b;
      assert ([m] + b)[1..] == b;
      assert a + b == b;
    } else {
      RangeTempsIgnoresOutside(a[1..], m, b, start, end);
      assert (a + [m] + b)[1..] == a[1..] + [m] + b;
      assert (a + b)[1..] == a[1..] + b;
    }
  }

  lemma StatsIgnoresOutside(a: seq<Measurement>, m: Measurement, b: seq<Measurement>, start: Day, end: Option<Day>)
    requires !InRange(m, start, end)
    ensures Stats(a + [m] + b, start, end) == Stats(a + b, start, end)
  {
    RangeTempsIgnoresOutside(a, m, b, start, end);
  }

  /** Three readings of 60, 70 and 80 degrees inside the range give [60, 70, 80]. */
  lemma StatsExample(s: string, d: Day)
    ensures Stats([Measurement(s, d, None, 60), Measurement(s, d + 1, None, 70), Measurement(s, d + 2, None, 80)],
                  d, Some(d + 2))
         == [Some(60.0), Some(70.0), Some(80.0)]
  {
    var ms := [Measurement(s, d, None, 60), Measurement(s, d + 1, None, 70), Measurement(s, d + 2, None, 80)];
    var e := Some(d + 2);
    assert RangeTemps(ms[2..], d, e) == [80];
    assert RangeTemps(ms[1..], d, e) == [70, 80] by {
      assert ms[1..][1..] == ms[2..];
    }
    assert RangeTemps(ms, d, e) == [60, 70, 80];
    var ts := [60, 70, 80];
    assert ts[1..] == [70, 80] && ts[1..][1..] == [80] && ts[1..][1..][1..] == [];
    assert Sum(ts) == 210;
    assert Min(ts) == 60 && Max(ts) == 80;
  }
}
