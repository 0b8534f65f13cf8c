/**
 * The two read-only tables of the weather database: stations and daily
 * measurements. The columns the queries never read (station name, position,
 * elevation) are kept so that a station row is a whole row.
 */
module Records {
  import opened Wrappers

  /** A day number, as given by `Calendar.Days` for a valid calendar date. */
  type Day = int

  datatype Station = Station(
    code: string,
    name: string,
    latitude: real,
    longitude: real,
    elevation: real)

  /**
   * One daily observation at one station. Precipitation is a nullable column;
   * it is held in hundredths of an inch. Temperature is in whole degrees.
   */
  datatype Measurement = Measurement(
    station: string,
    date: Day,
    prcp: Option<int>,
    tobs: int)
}
