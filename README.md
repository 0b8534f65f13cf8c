# SurfsUp query layer, modelled in Dafny

The SurfsUp API answers four read-only questions about a weather database of
Hawaiian stations. It has a `station` table and a `measurement` table: one row
per station per day, with date, precipitation and temperature. The four routes are:

- `/api/v1.0/precipitation`: a date -> precipitation dictionary for the year
  ending at the latest recorded date;
- `/api/v1.0/stations`: the list of station codes;
- `/api/v1.0/tobs`: the `(date, temperature)` readings of the most active
  station (the one with the most rows) over that same year;
- `/api/v1.0/<start>` and `/api/v1.0/<start>/<end>`: `[MIN, AVG, MAX]` of
  temperature over the rows dated from `start` (inclusive), and up to `end`
  (inclusive) when an end is given.

The model has no SQL. The two tables are sequences of records (`Records`), and
each route is a function over them (`Queries`). They are built from the
aggregates the queries ask of the database (`Aggregation`: group count,
most active station, MIN/AVG/MAX) and from the latest-date and window logic
(`DateWindow`). Dates are day numbers. `Calendar` converts an ISO date to its
day number and proves that ISO (year, month, day) order is exactly day-number
order, in both directions. So "order by date" and "date >= bound" on the text
column mean the same on day numbers. Every route is a function of the tables,
so calling it twice on the same tables gives the same result.

Modules and files:

| file | module | contents |
|---|---|---|
| wrappers.dfy | Wrappers | `Option`, for nullable columns and for queries that find no row |
| calendar.dfy | Calendar | Gregorian dates, day numbers, the order lemma |
| records.dfy | Records | `Station`, `Measurement` |
| date_window.dfy | DateWindow | latest date, the 365-day window start |
| aggregation.dfy | Aggregation | group count, most active station, MIN, MAX, exact mean |
| queries.dfy | Queries | the four route results and their properties |

Error paths. On an empty measurement table, `.first()` returns no row and
indexing it raises. The precipitation and temperature routes therefore fail;
the model returns `None` for them. On an empty range the SQL aggregates are
NULL, so the stats route returns `[null, null, null]`. The model gives
`[None, None, None]`. It does not raise an error for this case: the code raises
none, so the model follows the code.

## Model

| member | source | states |
|---|---|---|
| `DateWindow.LatestDate` | SurfsUp/app.py:68 | None exactly on an empty table; otherwise a date that occurs in the table and that no measurement's date exceeds |
| `DateWindow.WindowStart` | SurfsUp/app.py:70 | the fixed-offset subtraction `last_date - timedelta(days=365)`, strictly earlier than the latest date; `OneYearAgo` and the two examples characterise it |
| `DateWindow.OneYearAgo` | SurfsUp/app.py:68-70 | None exactly on an empty table; otherwise a date exactly 365 days before a date that occurs in the table and that no date exceeds |
| `DateWindow.WindowStartExample` | SurfsUp/app.py:70 | 2017-08-23 minus the window is 2016-08-23 |
| `DateWindow.WindowStartAcrossLeapDay` | SurfsUp/app.py:70 | the offset is a fixed 365 days with no leap-year adjustment: 2016-08-23 minus the window is 2015-08-24 |
| `Calendar.Days` | SurfsUp/app.py:69 | the day number a parsed `YYYY-MM-DD` date stands for, never negative; `DaysOrderIsIsoOrder` characterises its order |
| `Calendar.DaysOrderIsIsoOrder` | SurfsUp/app.py:68 | on valid dates (four-digit years), the (year, month, day) order, which is the order of their `YYYY-MM-DD` text, holds exactly when day-number order does, and equal day numbers mean equal dates |
| `Queries.InWindow` | SurfsUp/app.py:71 | the window filter `date >= one_year_ago`, the definition the precipitation and temperature lemmas are stated over |
| `Queries.PrecipFold` | SurfsUp/app.py:71-72 | the dictionary comprehension over the filtered rows; no key is before the window start; `PrecipFoldKeys` and `PrecipFoldLastWins` characterise it |
| `Queries.PrecipFoldKeys` | SurfsUp/app.py:71-72 | a date is a key of the dictionary exactly when some in-window row has that date |
| `Queries.PrecipFoldLastWins` | SurfsUp/app.py:72 | a date's value is the precipitation of the last in-window row with that date, a missing reading staying missing |
| `Queries.Precipitation` | SurfsUp/app.py:66-73 | the route fails exactly on an empty measurement table |
| `Queries.PrecipitationWindow` | SurfsUp/app.py:68-72 | a date after the window start is a key exactly when some row has it; no date before the window start is a key; the latest date is a key |
| `Queries.PrecipitationLastWins` | SurfsUp/app.py:71-72 | for a date after the window start, the value comes from the last row with that date |
| `Queries.PrecipitationScenario` | SurfsUp/app.py:68-72 | with latest date 2017-08-23, 2016-08-24 is kept with its missing reading as None, and 2016-08-22 is dropped |
| `Queries.StationCodes` | SurfsUp/app.py:78-79 | one code per station row, same length and order, duplicates kept |
| `Aggregation.Count` | SurfsUp/app.py:88 | the group count `func.count` per station code, the definition that `CountPositive`, `MostActiveAmong` and `MostActiveIsMaximal` are stated over |
| `Aggregation.CountPositive` | SurfsUp/app.py:88 | a station's group count is positive exactly when some row carries its code |
| `Aggregation.MostActiveAmong` | SurfsUp/app.py:88 | the chosen code occurs among the rows, and no row's station has a larger group |
| `Aggregation.MostActive` | SurfsUp/app.py:88 | None exactly on an empty table; otherwise a code that occurs in the measurements |
| `Aggregation.MostActiveIsMaximal` | SurfsUp/app.py:88 | no station code has more rows than the chosen one |
| `Aggregation.MostActiveUnique` | SurfsUp/app.py:88 | a station with strictly more rows than every other station is the one chosen |
| `Aggregation.Sum` | SurfsUp/app.py:98 | the numerator of AVG; `Mean` and `RangeTemps` tie it to the rows |
| `Aggregation.Min` | SurfsUp/app.py:98 | MIN is a value of the column and no value is below it |
| `Aggregation.Max` | SurfsUp/app.py:98 | MAX is a value of the column and no value exceeds it |
| `Aggregation.Mean` | SurfsUp/app.py:98 | AVG times the number of values is their sum, and it lies between MIN and MAX |
| `Queries.Matches` | SurfsUp/app.py:89 | the two filters of the temperature query, `station == most_active_station` and `date >= one_year_ago`, the definition `Series`, `SeriesRank`, `SeriesOrigin` and `RankIncreasing` are stated over |
| `Queries.NumMatching` | SurfsUp/app.py:89-90 | the number of rows passing both filters, counted row by row: the length `Series` is proved to have, and the rank `SeriesRank` places each entry at |
| `Queries.Series` | SurfsUp/app.py:89-90 | one entry per row passing both filters, none dated before the window start |
| `Queries.SeriesPrefix` | SurfsUp/app.py:90 | the entries of the first n rows are a prefix of the entries of all rows |
| `Queries.SeriesRank` | SurfsUp/app.py:89-90 | each row passing both filters has its (date, tobs) entry at the position given by the number of such rows before it |
| `Queries.RankIncreasing` | SurfsUp/app.py:90 | of two rows passing both filters, the earlier row's entry comes first |
| `Queries.SeriesOrigin` | SurfsUp/app.py:89-90 | every entry is the entry of some row passing both filters |
| `Queries.TemperatureSeries` | SurfsUp/app.py:84-91 | the route fails exactly on an empty table; no entry is dated before the window start |
| `Queries.TemperatureSeriesRows` | SurfsUp/app.py:88-90 | each row of the most active station dated after the window start has its own entry, after those of earlier such rows |
| `Queries.TemperatureSeriesOrigin` | SurfsUp/app.py:88-90 | every entry is a row of the most active station dated no earlier than the window start |
| `Queries.InRange` | SurfsUp/app.py:97-100 | the stats filter `date >= start`, and `date <= end` when an end is given, the definition the stats lemmas are stated over |
| `Queries.NumInRange` | SurfsUp/app.py:97-100 | the number of rows in range, counted row by row: the length `RangeTemps` is proved to have, and the count that the AVG clause of `Stats` divides by |
| `Queries.SumInRange` | SurfsUp/app.py:98-100 | the total temperature of the rows in range, added row by row, the reference that `RangeTemps` and `Stats` relate AVG to |
| `Queries.RangeTemps` | SurfsUp/app.py:97-100 | one temperature per row in range: as many values as rows in range, adding up to the rows' total temperature, and a value occurs exactly when some row in range has it |
| `Queries.RangeTempsEmpty` | SurfsUp/app.py:97-101 | the filtered column is empty exactly when no row is in range |
| `Queries.RangeTempsBounds` | SurfsUp/app.py:98-100 | MIN and MAX of the filtered column are temperatures of rows in range that bound every row in range |
| `Queries.Stats` | SurfsUp/app.py:96-102 | three entries, all None exactly when no row has `date >= start` (and `date <= end` if given); otherwise min <= avg <= max, min and max are attained by rows in range and bound them all, and avg is the total temperature of exactly those rows (`SumInRange`) divided by their number |
| `Queries.StatsIncludesStartDay` | SurfsUp/app.py:98-100 | a row dated exactly on `start` is inside the range and so lies between MIN and MAX |
| `Queries.RangeTempsIgnoresOutside` | SurfsUp/app.py:98-100 | removing a row outside the range leaves the filtered column unchanged |
| `Queries.StatsIgnoresOutside` | SurfsUp/app.py:97-101 | removing a row outside the range leaves the result unchanged |
| `Queries.StatsExample` | SurfsUp/app.py:96-102 | readings of 60, 70 and 80 inside the range give `[60, 70, 80]` |

## Left out

- Flask: app creation, route decorators, `jsonify`, the `home` and `about` pages and both `app.run` blocks (SurfsUp/app.py:30-54, 103-104). These are HTTP plumbing. JSON serialisation, such as turning date keys into strings, is not modelled.
- The database engine, automap reflection and the global session (SurfsUp/app.py:14-22). The tables are passed in as sequences instead.
- `strptime` and date text (SurfsUp/app.py:69, 86). Dates are already-parsed day numbers, and `Calendar.Days` gives the conversion from a calendar date. The `start`/`end` path strings of the stats route are compared as text with the date column. The model takes them as day numbers, so a malformed or non-ISO string is not modelled.
- Python's date range. Dates are unbounded day numbers, and `DateWindow.WindowStart` subtracts 365 from any of them. Python dates stop at 0001-01-01, so on a table whose latest date is before 0002-01-01 `last_date - timedelta(days=365)` (SurfsUp/app.py:70, 87) raises OverflowError and the route fails. The model instead gives a negative day number and a result; that error is not modelled.
- The window start day itself (SurfsUp/app.py:71, 89). There SQLite compares the text `date` column with a bound Python `datetime`, so whether that exact day is included depends on how the driver formats the datetime. The model filters with `date >= start`. The route-level lemmas (`PrecipitationWindow`, `PrecipitationLastWins`, `TemperatureSeriesRows`) say nothing about rows dated exactly on the window start.
- The result order of the three unordered queries (SurfsUp/app.py:71, 78, 89). None has an ORDER BY, so the database chooses the order of `.all()`; for the dictionary at line 72 that order decides which of several same-date rows wins. The model takes that order to be table row order: "last row" in `PrecipFoldLastWins` and `PrecipitationLastWins`, "row order" in `SeriesRank`, `RankIncreasing` and `TemperatureSeriesRows`, and "same order as the station rows" in `StationCodes` all mean table order.
- Tie-breaking among equally active stations (SurfsUp/app.py:88). The order of the group-by is defined by the database. The model keeps the first such station in row order, and no lemma depends on that choice: only "no station has more rows" is stated.
- Floating point. SQL `AVG` over floating-point values is replaced by an exact `real` mean of integer temperatures, and precipitation is an integer (hundredths of an inch) or None.
- Concurrency and the one-time data load: the tables are immutable values, so there is nothing to model.
