/**
 * The coordinate join: every route row gets the coordinates of its
 * departure and arrival port from the port coordinate table, by exact name.
 */
module PortCoordinates {
  import opened Options

  /** One line of the coordinate table; an empty Latitude/Longitude cell reads as missing. */
  datatype Position = Position(lat: Option<real>, lon: Option<real>)

  /** `port_coordinates.csv` indexed by "Port": at most one position per name. */
  type CoordTable = map<string, Position>

  /** One row of the route file. */
  datatype RouteRow = RouteRow(
    ship: Option<string>,
    dep: Option<string>,
    arr: Option<string>,
    etd: Option<int>,
    eta: Option<int>)

  /** A route row with the four coordinate columns appended. */
  datatype JoinedRow = JoinedRow(
    ship: Option<string>,
    dep: Option<string>,
    arr: Option<string>,
    etd: Option<int>,
    eta: Option<int>,
    depLat: Option<real>,
    depLon: Option<real>,
    arrLat: Option<real>,
    arrLon: Option<real>)

  /** The original five columns of a joined row. */
  function RouteOf(j: JoinedRow): RouteRow {
    RouteRow(j.ship, j.dep, j.arr, j.etd, j.eta)
  }

  /** `get_lat`: the table's latitude for a name that is a key, None otherwise (a missing name is never a key). */
  function GetLat(table: CoordTable, name: Option<string>): (r: Option<real>)
    ensures r.Some? ==> name.Some? && name.value in table && r == table[name.value].lat
    ensures name.Some? && name.value in table ==> r == table[name.value].lat
    ensures name.None? || name.value !in table ==> r.None?
  {
    if name.Some? && name.value in table then table[name.value].lat else None
  }

  /** `get_lon`: the same lookup for the longitude. */
  function GetLon(table: CoordTable, name: Option<string>): (r: Option<real>)
    ensures r.Some? ==> name.Some? && name.value in table && r == table[name.value].lon
    ensures name.Some? && name.value in table ==> r == table[name.value].lon
    ensures name.None? || name.value !in table ==> r.None?
  {
    if name.Some? && name.value in table then table[name.value].lon else None
  }

  function Join(table: CoordTable, row: RouteRow): JoinedRow {
    JoinedRow(row.ship, row.dep, row.arr, row.etd, row.eta,
              GetLat(table, row.dep), GetLon(table, row.dep),
              GetLat(table, row.arr), GetLon(table, row.arr))
  }

  /**
   * The row-wise `apply` of the script: the same rows in the same order, the
   * five original columns untouched, departure coordinates looked up from the
   * departure name and arrival coordinates from the arrival name.
   */
  function AddCoordinates(table: CoordTable, rows: seq<RouteRow>): (r: seq<JoinedRow>)
    ensures |r| == |rows|
    ensures forall i :: 0 <= i < |rows| ==> RouteOf(r[i]) == rows[i]
    ensures forall i :: 0 <= i < |rows| ==>
      r[i].depLat == GetLat(table, rows[i].dep) && r[i].depLon == GetLon(table, rows[i].dep) &&
      r[i].arrLat == GetLat(table, rows[i].arr) && r[i].arrLon == GetLon(table, rows[i].arr)
  {
    seq(|rows|, i requires 0 <= i < |rows| => Join(table, rows[i]))
  }

  /**
   * A port name gets the same coordinates wherever it appears, as departure
   * or as arrival, in any row.
   */
  lemma SameNameSameCoordinates(table: CoordTable, rows: seq<RouteRow>, i: nat, j: nat)
    requires i < |rows| && j < |rows|
    ensures var r := AddCoordinates(table, rows);
      && (rows[i].dep == rows[j].dep ==> r[i].depLat == r[j].depLat && r[i].depLon == r[j].depLon)
      && (rows[i].dep == rows[j].arr ==> r[i].depLat == r[j].arrLat && r[i].depLon == r[j].arrLon)
      && (rows[i].arr == rows[j].arr ==> r[i].arrLat == r[j].arrLat && r[i].arrLon == r[j].arrLon)
  {
  }

  /**
   * Coordinates never come from nowhere: a present coordinate means the port
   * is named, is a key of the table and has that value there (no default 0).
   */
  lemma CoordinatesOnlyFromTable(table: CoordTable, rows: seq<RouteRow>, i: nat)
    requires i < |rows|
    ensures var r := AddCoordinates(table, rows)[i];
      && (r.depLat.Some? || r.depLon.Some? ==> rows[i].dep.Some? && rows[i].dep.value in table)
      && (r.arrLat.Some? || r.arrLon.Some? ==> rows[i].arr.Some? && rows[i].arr.value in table)
      && (r.depLat.Some? ==> Some(r.depLat.value) == table[rows[i].dep.value].lat)
      && (r.depLon.Some? ==> Some(r.depLon.value) == table[rows[i].dep.value].lon)
      && (r.arrLat.Some? ==> Some(r.arrLat.value) == table[rows[i].arr.value].lat)
      && (r.arrLon.Some? ==> Some(r.arrLon.value) == table[rows[i].arr.value].lon)
  {
  }

  /** An unknown port, or a known one written without coordinates, yields missing values. */
  lemma UnknownPortIsMissing(table: CoordTable, name: string)
    requires name !in table || table[name] == Position(None, None)
    ensures GetLat(table, Some(name)) == None && GetLon(table, Some(name)) == None
  {
  }
}
