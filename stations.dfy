/** The station tables the script reads: `station_coordinates` keeps the
    columns `x`, `y` and `hzbnr01` of `messstellen_alle.csv`. */
module Stations {

  /** One row of a coordinates table: `x`, `y` and the station number `hzbnr01`. */
  datatype Station = Station(x: real, y: real, id: int)

  /** A coordinates frame: `Columnless` is the bare `pd.DataFrame()`, without
      even the columns `x`, `y` and `hzbnr01`; `Rows` is a table with those
      columns and the given rows, possibly none. */
  datatype Coordinates = Columnless | Rows(stations: seq<Station>)
}
