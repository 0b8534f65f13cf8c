/**
 * The aggregates the queries ask of the database: a group-by count per
 * station, the station with the largest count, and MIN, AVG and MAX of a
 * column over a filtered set of rows.
 */
module Aggregation {
  import opened Wrappers
  import opened Records

  /** The size of the group of rows with this station code. */
  function Count(ms: seq<Measurement>, s: string): nat {
    if |ms| == 0 then 0
    else (if ms[0].station == s then 1 else 0) + Count(ms[1..], s)
  }

  /** A station has a non-empty group exactly when some row carries its code. */
  lemma {:induction false} CountPositive(ms: seq<Measurement>, s: string)
    ensures Count(ms, s) > 0 <==> exists i :: 0 <= i < |ms| && ms[i].station == s
  {
    if |ms| > 0 {
      CountPositive(ms[1..], s);
      if ms[0].station != s && Count(ms, s) > 0 {
        var j :| 0 <= j < |ms[1..]| && ms[1..][j].station == s;
        assert ms[j + 1].station == s;
      }
      if exists i :: 0 <= i < |ms| && ms[i].station == s {
        var i :| 0 <= i < |ms| && ms[i].station == s;
        if i > 0 {
          assert ms[1..][i - 1].station == s;
        }
      }
    }
  }

  /**
   * The station of some row among `rows` whose group in `ms` is largest.
   * Among equal groups the first in row order is kept.
   */
  function MostActiveAmong(ms: seq<Measurement>, rows: seq<Measurement>): (r: string)
    requires |rows| > 0
    ensures exists i :: 0 <= i < |rows| && rows[i].station == r
    ensures forall i :: 0 <= i < |rows| ==> Count(ms, rows[i].station) <= Count(ms, r)
  {
    if |rows| == 1 then rows[0].station
    else
      var rest := MostActiveAmong(ms, rows[1..]);
      assert forall i :: 1 <= i < |rows| ==> Count(ms, rows[i].station) <= Count(ms, rest) by {
        forall i | 1 <= i < |rows| ensures Count(ms, rows[i].station) <= Count(ms, rest) {
          assert rows[i] == rows[1..][i - 1];
        }
      }
      if Count(ms, rows[0].station) >= Count(ms, rest) then rows[0].station
      else
        assert exists i :: 1 <= i < |rows| && rows[i].station == rest by {
          var j :| 0 <= j < |rows[1..]| && rows[1..][j].station == rest;
          assert rows[j + 1].station == rest;
        }
        rest
  }

  /**
   * Group by station, order by count descending, take the first: the station
   * with the most rows. An empty table has no first group, modelled as None.
   */
  function MostActive(ms: seq<Measurement>): (r: Option<string>)
    ensures r.None? <==> |ms| == 0
    ensures r.Some? ==> exists i :: 0 <= i < |ms| && ms[i].station == r.value
  {
    if |ms| == 0 then None else Some(MostActiveAmong(ms, ms))
  }

  /** No station code at all, whether it occurs in the table or not, has more rows than the chosen one. */
  lemma MostActiveIsMaximal(ms: seq<Measurement>, s: string)
    requires |ms| > 0
    ensures Count(ms, s) <= Count(ms, MostActive(ms).value)
  {
    CountPositive(ms, s);
  }

  /** A station whose group is strictly larger than every other station's is the one chosen. */
  lemma MostActiveUnique(ms: seq<Measurement>, s: string)
    requires exists i :: 0 <= i < |ms| && ms[i].station == s
    requires forall i :: 0 <= i < |ms| && ms[i].station != s ==> Count(ms, ms[i].station) < Count(ms, s)
    ensures MostActive(ms) == Some(s)
  {
    var i :| 0 <= i < |ms| && ms[i].station == s;
    MostActiveIsMaximal(ms, s);
  }

  function Sum(ts: seq<int>): int {
    if |ts| == 0 then 0 else ts[0] + Sum(ts[1..])
  }

  /** MIN over a non-empty column: a value of the column that no value is below. */
  function Min(ts: seq<int>): (r: int)
    requires |ts| > 0
    ensures r in ts
    ensures forall t :: t in ts ==> r <= t
  {
    if |ts| == 1 then ts[0]
    else
      var rest := Min(ts[1..]);
      assert forall t :: t in ts ==> t == ts[0] || t in ts[1..];
      if ts[0] <= rest then ts[0] else rest
  }

  /** MAX over a non-empty column: a value of the column that no value exceeds. */
  function Max(ts: seq<int>): (r: int)
    requires |ts| > 0
    ensures r in ts
    ensures forall t :: t in ts ==> t <= r
  {
    if |ts| == 1 then ts[0]
    else
      var rest := Max(ts[1..]);
      assert forall t :: t in ts ==> t == ts[0] || t in ts[1..];
      if ts[0] >= rest then ts[0] else rest
  }

  lemma {:induction false} SumAtLeast(ts: seq<int>, lo: int)
    requires forall t :: t in ts ==> lo <= t
    ensures |ts| * lo <= Sum(ts)
  {
    if |ts| > 0 {
      assert ts[0] in ts;
      assert forall t :: t in ts[1..] ==> t in ts;
      SumAtLeast(ts[1..], lo);
    }
  }

  lemma {:induction false} SumAtMost(ts: seq<int>, hi: int)
    requires forall t :: t in ts ==> t <= hi
    ensures Sum(ts) <= |ts| * hi
  {
    if |ts| > 0 {
      assert ts[0] in ts;
      assert forall t :: t in ts[1..] ==> t in ts;
      SumAtMost(ts[1..], hi);
    }
  }

  /**
   * AVG over a non-empty column, computed exactly: the sum divided by the
   * number of values, which lies between MIN and MAX.
   */
  function Mean(ts: seq<int>): (r: real)
    requires |ts| > 0
    ensures r * (|ts| as real) == Sum(ts) as real
    ensures Min(ts) as real <= r <= Max(ts) as real
  {
    MeanBounds(ts);
    Sum(ts) as real / |ts| as real
  }

  lemma MeanBounds(ts: seq<int>)
    requires |ts| > 0
    ensures (Sum(ts) as real / |ts| as real) * (|ts| as real) == Sum(ts) as real
    ensures Min(ts) as real <= Sum(ts) as real / |ts| as real <= Max(ts) as real
  {
    var s, n, lo, hi := Sum(ts), |ts|, Min(ts), Max(ts);
    SumAtLeast(ts, lo);
    SumAtMost(ts, hi);
    QuotientBetween(s, n, lo, hi);
  }

  /** From n * lo <= s <= n * hi on integers, the exact quotient s / n lies in [lo, hi]. */
  lemma QuotientBetween(s: int, n: int, lo: int, hi: int)
    requires n > 0 && n * lo <= s <= n * hi
    ensures lo as real <= s as real / n as real <= hi as real
    ensures (s as real / n as real) * (n as real) == s as real
  {
    ProductAsReal(n, lo);
    ProductAsReal(n, hi);
    assert (n as real) * (lo as real) <= s as real;
    assert (n as real) * (hi as real) >= s as real;
    MeanBetween(s as real, n as real, lo as real, hi as real);
  }

  lemma ProductAsReal(a: int, b: int)
    ensures (a * b) as real == (a as real) * (b as real)
  {
  }

  lemma MeanBetween(s: real, n: real, lo: real, hi: real)
    requires n > 0.0 && n * lo <= s <= n * hi
    ensures lo <= s / n <= hi
    ensures (s / n) * n == s
  {
  }
}
