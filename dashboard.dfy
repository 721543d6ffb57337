/**
 * The dashboard's data preparation: dropping route rows that cannot be
 * placed on the map, the rename to display columns, and the two free-text
 * search filters of the sidebar.
 */
module Dashboard {
  import opened Options
  import opened Seqs
  import opened Strings
  import opened PortCoordinates

  /** One row of the dashboard's table after the coordinate drop and the rename. */
  datatype Voyage = Voyage(
    ship: Option<string>,
    dep: string,
    arr: string,
    etd: Option<int>,
    eta: Option<int>,
    depLat: real,
    depLon: real,
    arrLat: real,
    arrLon: real)

  predicate HasAllCoordinates(j: JoinedRow) {
    j.depLat.Some? && j.depLon.Some? && j.arrLat.Some? && j.arrLon.Some?
  }

  /** `df.dropna(subset=["dep_lat", "dep_lon", "arr_lat", "arr_lon"])`. */
  function DropMissingCoordinates(rows: seq<JoinedRow>): (r: seq<JoinedRow>)
    ensures forall j :: j in r <==> j in rows && HasAllCoordinates(j)
    ensures forall j :: multiset(r)[j] == if HasAllCoordinates(j) then multiset(rows)[j] else 0
    ensures IsSubsequence(r, rows)
  {
    Filter(rows, HasAllCoordinates)
  }

  /** A row the rename can turn into a Voyage: all four coordinates and both port names. */
  predicate Placeable(j: JoinedRow) {
    HasAllCoordinates(j) && j.dep.Some? && j.arr.Some?
  }

  function ToVoyage(j: JoinedRow): Voyage
    requires Placeable(j)
  {
    Voyage(j.ship, j.dep.value, j.arr.value, j.etd, j.eta,
           j.depLat.value, j.depLon.value, j.arrLat.value, j.arrLon.value)
  }

  function Rename(rows: seq<JoinedRow>): (r: seq<Voyage>)
    requires forall j :: j in rows ==> Placeable(j)
    ensures |r| == |rows| && forall i :: 0 <= i < |rows| ==> r[i] == ToVoyage(rows[i])
  {
    seq(|rows|, i requires 0 <= i < |rows| => ToVoyage(rows[i]))
  }

  /** On the join's output a row with all four coordinates has both port names. */
  lemma JoinedCoordinatesImplyNames(table: CoordTable, routes: seq<RouteRow>)
    ensures forall j :: j in AddCoordinates(table, routes) && HasAllCoordinates(j) ==> Placeable(j)
  {
  }

  /** The route's ports both have complete coordinates in the table. */
  predicate Locatable(table: CoordTable, route: RouteRow) {
    && route.dep.Some? && route.dep.value in table
    && table[route.dep.value].lat.Some? && table[route.dep.value].lon.Some?
    && route.arr.Some? && route.arr.value in table
    && table[route.arr.value].lat.Some? && table[route.arr.value].lon.Some?
  }

  /** The five route columns of a voyage. */
  function RouteOfVoyage(v: Voyage): RouteRow {
    RouteRow(v.ship, Some(v.dep), Some(v.arr), v.etd, v.eta)
  }

  /** A voyage carries exactly the table's coordinates of its two ports. */
  predicate Agrees(table: CoordTable, v: Voyage) {
    && v.dep in table && table[v.dep] == Position(Some(v.depLat), Some(v.depLon))
    && v.arr in table && table[v.arr] == Position(Some(v.arrLat), Some(v.arrLon))
  }

  /** The dashboard's table, read from the join's output, dropped and renamed. */
  function LoadVoyages(table: CoordTable, routes: seq<RouteRow>): (r: seq<Voyage>)
    ensures forall v :: v in r ==> Agrees(table, v)
  {
    var joined := AddCoordinates(table, routes);
    JoinedCoordinatesImplyNames(table, routes);
    var kept := DropMissingCoordinates(joined);
    var r := Rename(kept);
    forall v | v in r ensures Agrees(table, v) {
      var i :| 0 <= i < |r| && r[i] == v;
      assert kept[i] in joined;
    }
    r
  }

  function LocatableIn(table: CoordTable): RouteRow -> bool {
    route => Locatable(table, route)
  }

  function RoutesOfJoined(js: seq<JoinedRow>): (r: seq<RouteRow>)
    ensures |r| == |js| && forall i :: 0 <= i < |js| ==> r[i] == RouteOf(js[i])
  {
    seq(|js|, i requires 0 <= i < |js| => RouteOf(js[i]))
  }

  lemma AddCoordinatesCons(table: CoordTable, routes: seq<RouteRow>)
    requires routes != []
    ensures AddCoordinates(table, routes) == [Join(table, routes[0])] + AddCoordinates(table, routes[1..])
  {
  }

  lemma JoinLocatable(table: CoordTable, route: RouteRow)
    ensures HasAllCoordinates(Join(table, route)) <==> LocatableIn(table)(route)
    ensures RouteOf(Join(table, route)) == route
  {
  }

  lemma RoutesOfJoinedAppend(a: seq<JoinedRow>, b: seq<JoinedRow>)
    ensures RoutesOfJoined(a + b) == RoutesOfJoined(a) + RoutesOfJoined(b)
  {
  }

  /** The first joined row survives the drop iff its route is locatable. */
  lemma DropHead(table: CoordTable, routes: seq<RouteRow>)
    requires routes != []
    ensures RoutesOfJoined(DropMissingCoordinates(AddCoordinates(table, routes)))
            == (if LocatableIn(table)(routes[0]) then [routes[0]] else [])
               + RoutesOfJoined(DropMissingCoordinates(AddCoordinates(table, routes[1..])))
  {
    var joined := AddCoordinates(table, routes);
    AddCoordinatesCons(table, routes);
    JoinLocatable(table, routes[0]);
    assert joined[0] == Join(table, routes[0]) && joined[1..] == AddCoordinates(table, routes[1..]);
    var head := if HasAllCoordinates(joined[0]) then [joined[0]] else [];
    var rest := DropMissingCoordinates(joined[1..]);
    FilterCons(joined, HasAllCoordinates);
    RoutesOfJoinedAppend(head, rest);
    assert RoutesOfJoined(head) == if LocatableIn(table)(routes[0]) then [routes[0]] else [];
  }

  /** Dropping the rows of the join that lack a coordinate keeps exactly the locatable routes. */
  lemma {:induction false} DropKeepsLocatable(table: CoordTable, routes: seq<RouteRow>)
    ensures RoutesOfJoined(DropMissingCoordinates(AddCoordinates(table, routes)))
            == Filter(routes, LocatableIn(table))
  {
    if routes != [] {
      DropKeepsLocatable(table, routes[1..]);
      DropHead(table, routes);
      FilterCons(routes, LocatableIn(table));
    }
  }

  /**
   * Exactly the routes whose two ports have complete coordinates reach the
   * dashboard, in their original order and unchanged.
   */
  lemma LoadVoyagesKeepsLocatable(table: CoordTable, routes: seq<RouteRow>)
    ensures var r := LoadVoyages(table, routes);
      var kept := Filter(routes, LocatableIn(table));
      |r| == |kept| && forall i :: 0 <= i < |r| ==> RouteOfVoyage(r[i]) == kept[i]
  {
    DropKeepsLocatable(table, routes);
    JoinedCoordinatesImplyNames(table, routes);
    var dropped := DropMissingCoordinates(AddCoordinates(table, routes));
    var r := LoadVoyages(table, routes);
    var kept := Filter(routes, LocatableIn(table));
    assert r == Rename(dropped);
    assert |kept| == |RoutesOfJoined(dropped)|;
    forall i | 0 <= i < |r| ensures RouteOfVoyage(r[i]) == kept[i] {
      assert r[i] == ToVoyage(dropped[i]);
      assert kept[i] == RouteOf(dropped[i]);
    }
  }

  // ---- search filters ----

  predicate PortMatches(v: Voyage, query: string) {
    ContainsIgnoringCase(v.dep, query) || ContainsIgnoringCase(v.arr, query)
  }

  predicate ShipMatches(v: Voyage, query: string) {
    v.ship.Some? && ContainsIgnoringCase(v.ship.value, query)
  }

  /** A row passes the port search: the stripped search text is blank, or one of its ports matches it. */
  predicate PortKept(v: Voyage, search: string) {
    Strip(search) == [] || PortMatches(v, Strip(search))
  }

  /** A row passes the ship search: the stripped search text is blank, or its ship name matches it. */
  predicate ShipKept(v: Voyage, search: string) {
    Strip(search) == [] || ShipMatches(v, Strip(search))
  }

  /**
   * The port search: with a non-blank search text, the rows whose departure
   * or arrival port contains the stripped text, ignoring case; with a blank
   * one, every row. Order and repeated rows are kept.
   */
  function PortFilter(rows: seq<Voyage>, search: string): (r: seq<Voyage>)
    ensures Strip(search) == [] ==> r == rows
    ensures Strip(search) != [] ==> forall v :: v in r <==> v in rows && PortMatches(v, Strip(search))
    ensures forall v :: multiset(r)[v] == if PortKept(v, search) then multiset(rows)[v] else 0
    ensures forall v :: v in r ==> v in rows
    ensures IsSubsequence(r, rows)
  {
    var query := Strip(search);
    if query == [] then
      SubsequenceOfItself(rows);
      rows
    else Filter(rows, v => PortMatches(v, query))
  }

  /** The ship search: the same, on the ship name; a row without a ship name never matches. */
  function ShipFilter(rows: seq<Voyage>, search: string): (r: seq<Voyage>)
    ensures Strip(search) == [] ==> r == rows
    ensures Strip(search) != [] ==> forall v :: v in r <==> v in rows && ShipMatches(v, Strip(search))
    ensures Strip(search) != [] ==> forall v :: v in r ==> v.ship.Some?
    ensures forall v :: multiset(r)[v] == if ShipKept(v, search) then multiset(rows)[v] else 0
    ensures forall v :: v in r ==> v in rows
    ensures IsSubsequence(r, rows)
  {
    var query := Strip(search);
    if query == [] then
      SubsequenceOfItself(rows);
      rows
    else Filter(rows, v => ShipMatches(v, query))
  }

  /**
   * The port search, then the ship search: the rows that pass every
   * non-blank search, each as often as in the table, in table order.
   */
  function Search(rows: seq<Voyage>, portSearch: string, shipSearch: string): (r: seq<Voyage>)
    ensures forall v :: v in r <==> v in rows && PortKept(v, portSearch) && ShipKept(v, shipSearch)
    ensures forall v :: (multiset(r)[v] ==
      if PortKept(v, portSearch) && ShipKept(v, shipSearch) then multiset(rows)[v] else 0)
    ensures IsSubsequence(r, rows)
  {
    var ported := PortFilter(rows, portSearch);
    var r := ShipFilter(ported, shipSearch);
    SubsequenceTransitive(r, ported, rows);
    r
  }

  /** Searching never adds a row, so what holds of every loaded row holds after the search. */
  lemma SearchKeepsAgreement(table: CoordTable, rows: seq<Voyage>, portSearch: string, shipSearch: string)
    requires forall v :: v in rows ==> Agrees(table, v)
    ensures forall v :: v in Search(rows, portSearch, shipSearch) ==> Agrees(table, v)
  {
  }
}
