/**
 * The "Data & Summary" tab: the four metrics, the sortable display table
 * and the Route Stats listing.
 */
module SummaryView {
  import opened Options
  import opened Seqs
  import opened Strings
  import opened Dashboard
  import opened Aggregation

  // ---- Unique Ships ----

  /** The ship names the rows carry, as a set (missing names are not values). */
  ghost function ShipNames(rows: seq<Voyage>): set<string> {
    set v | v in rows && v.ship.Some? :: v.ship.value
  }

  /** The non-missing entries of the "Ship Name" column, in row order. */
  function PresentShips(rows: seq<Voyage>): (r: seq<string>)
    ensures |r| <= |rows|
    ensures forall name :: name in r <==> exists v :: v in rows && v.ship == Some(name)
  {
    if rows == [] then []
    else
      var rest := PresentShips(rows[1..]);
      assert forall v :: v in rows <==> v == rows[0] || v in rows[1..];
      if rows[0].ship.Some? then [rows[0].ship.value] + rest else rest
  }

  /** `df["Ship Name"].nunique() if not df.empty else 0`. */
  function UniqueShips(rows: seq<Voyage>): (r: nat)
    ensures rows == [] ==> r == 0
    ensures r <= |rows|
  {
    if rows == [] then 0 else |Dedup(PresentShips(rows))|
  }

  /** "Unique Ships" is the number of distinct non-missing ship names, 0 for an empty table. */
  lemma UniqueShipsCountsNames(rows: seq<Voyage>)
    ensures UniqueShips(rows) == |ShipNames(rows)|
  {
    var d := Dedup(PresentShips(rows));
    DistinctCardinality(d);
    assert (set x | x in d) == ShipNames(rows) by {
      forall x ensures x in d <==> x in ShipNames(rows) {
        if x in ShipNames(rows) {
          var v :| v in rows && v.ship.Some? && v.ship.value == x;
          assert v.ship == Some(x);
        }
      }
    }
  }

  // ---- Most Frequent Departure / Arrival ----

  function Count(s: seq<string>, x: string): nat {
    multiset(s)[x]
  }

  /** `m` is what `s.mode()[0]` gives: of maximal count, and the smallest among equally frequent values. */
  predicate IsMode(s: seq<string>, m: string) {
    && m in s
    && forall x :: x in s ==> Count(s, x) <= Count(s, m) && (Count(s, x) == Count(s, m) ==> LexLe(m, x))
  }

  /** The best of `cands` by (count descending, value ascending). */
  function ModeAmong(s: seq<string>, cands: seq<string>): (m: string)
    requires cands != []
    ensures m in cands
    ensures forall x :: x in cands ==> Count(s, x) <= Count(s, m) && (Count(s, x) == Count(s, m) ==> LexLe(m, x))
  {
    if |cands| == 1 then
      assert forall x :: x in cands ==> x == cands[0];
      LexLeTotal(cands[0], cands[0]);
      cands[0]
    else
      var best := ModeAmong(s, cands[1..]);
      assert forall x :: x in cands ==> x == cands[0] || x in cands[1..];
      var c := cands[0];
      if Count(s, c) > Count(s, best) || (Count(s, c) == Count(s, best) && LexLe(c, best)) then
        assert forall x :: x in cands[1..] ==> Count(s, x) <= Count(s, c) && (Count(s, x) == Count(s, c) ==> LexLe(c, x)) by {
          forall x | x in cands[1..] ensures Count(s, x) <= Count(s, c) && (Count(s, x) == Count(s, c) ==> LexLe(c, x)) {
            if Count(s, x) == Count(s, c) {
              LexLeTransitive(c, best, x);
            }
          }
        }
        LexLeTotal(c, c);
        c
      else
        LexLeTotal(c, best);
        best
  }

  /** `s.mode()[0]`; pandas needs a non-empty column, which the dashboard checks first. */
  function Mode(s: seq<string>): (m: string)
    requires s != []
    ensures IsMode(s, m)
  {
    ModeAmong(s, s)
  }

  /** Only one value answers to the mode's description, so the metric is well defined. */
  lemma ModeUnique(s: seq<string>, m: string)
    requires s != [] && IsMode(s, m)
    ensures m == Mode(s)
  {
    var n := Mode(s);
    LexLeAntisymmetric(m, n);
  }

  /** The four metrics; the two ports are None when the table is empty ("No data for stats."). */
  datatype Summary = Summary(
    totalRows: nat,
    uniqueShips: nat,
    mostFrequentDeparture: Option<string>,
    mostFrequentArrival: Option<string>)

  function Summarize(rows: seq<Voyage>): (r: Summary)
    ensures r.totalRows == |rows|
    ensures r.uniqueShips == |ShipNames(rows)|
    ensures r.mostFrequentDeparture.Some? <==> rows != []
    ensures r.mostFrequentArrival.Some? <==> rows != []
    ensures r.mostFrequentDeparture.Some? ==> IsMode(Deps(rows), r.mostFrequentDeparture.value)
    ensures r.mostFrequentArrival.Some? ==> IsMode(Arrs(rows), r.mostFrequentArrival.value)
  {
    UniqueShipsCountsNames(rows);
    if rows == [] then Summary(0, 0, None, None)
    else Summary(|rows|, UniqueShips(rows), Some(Mode(Deps(rows))), Some(Mode(Arrs(rows))))
  }

  // ---- the sortable display table ----

  /** The five columns of `df_for_display`. */
  datatype Column = ShipName | DeparturePort | ArrivalPort | EtdFormatted | EtaFormatted

  /** One row of `df_for_display`; a missing time formats to a missing cell. */
  datatype DisplayRow = DisplayRow(
    shipName: Option<string>,
    departurePort: Option<string>,
    arrivalPort: Option<string>,
    etdFormatted: Option<string>,
    etaFormatted: Option<string>)

  function FormatTime(t: Option<int>, format: int -> string): (r: Option<string>)
    ensures r.Some? <==> t.Some?
  {
    if t.Some? then Some(format(t.value)) else None
  }

  /** `df[[...]].reset_index(drop=True)`, with `strftime` given as `format`. */
  function DisplayRows(rows: seq<Voyage>, format: int -> string): (r: seq<DisplayRow>)
    ensures |r| == |rows|
    ensures forall i :: 0 <= i < |rows| ==>
      r[i] == DisplayRow(rows[i].ship, Some(rows[i].dep), Some(rows[i].arr),
                         FormatTime(rows[i].etd, format), FormatTime(rows[i].eta, format))
  {
    seq(|rows|, i requires 0 <= i < |rows| =>
      DisplayRow(rows[i].ship, Some(rows[i].dep), Some(rows[i].arr),
                 FormatTime(rows[i].etd, format), FormatTime(rows[i].eta, format)))
  }

  function CellOf(row: DisplayRow, column: Column): Option<string> {
    match column
    case ShipName => row.shipName
    case DeparturePort => row.departurePort
    case ArrivalPort => row.arrivalPort
    case EtdFormatted => row.etdFormatted
    case EtaFormatted => row.etaFormatted
  }

  /**
   * `sort_values` order on one text column: missing cells last in either
   * direction, present ones by Python string order or its reverse.
   */
  predicate CellLe(a: Option<string>, b: Option<string>, ascending: bool) {
    match (a, b)
    case (Some(x), Some(y)) => if ascending then LexLe(x, y) else LexLe(y, x)
    case (Some(_), None) => true
    case (None, Some(_)) => false
    case (None, None) => true
  }

  function RowOrder(column: Column, ascending: bool): (DisplayRow, DisplayRow) -> bool {
    (a: DisplayRow, b: DisplayRow) => CellLe(CellOf(a, column), CellOf(b, column), ascending)
  }

  lemma RowOrderTotalPreorder(column: Column, ascending: bool)
    ensures Total(RowOrder(column, ascending)) && Transitive(RowOrder(column, ascending))
  {
    var le := RowOrder(column, ascending);
    forall a: DisplayRow, b: DisplayRow ensures le(a, b) || le(b, a) {
      var x, y := CellOf(a, column), CellOf(b, column);
      if x.Some? && y.Some? {
        LexLeTotal(x.value, y.value);
      }
    }
    forall a: DisplayRow, b: DisplayRow, c: DisplayRow | le(a, b) && le(b, c) ensures le(a, c) {
      var x, y, z := CellOf(a, column), CellOf(b, column), CellOf(c, column);
      if x.Some? && y.Some? && z.Some? {
        if ascending {
          LexLeTransitive(x.value, y.value, z.value);
        } else {
          LexLeTransitive(z.value, y.value, x.value);
        }
      }
    }
  }

  /**
   * `sort_values(by=column, ascending=ascending, ignore_index=True)`: the same
   * rows, ordered by the chosen column, missing cells at the end. pandas does
   * not promise a stable order for equal cells, and neither does this.
   */
  function SortDisplay(rows: seq<DisplayRow>, column: Column, ascending: bool): (r: seq<DisplayRow>)
    ensures multiset(r) == multiset(rows)
    ensures forall i, j :: 0 <= i < j < |r| ==> CellLe(CellOf(r[i], column), CellOf(r[j], column), ascending)
    ensures forall i, j :: 0 <= i < j < |r| && CellOf(r[i], column).None? ==> CellOf(r[j], column).None?
  {
    RowOrderTotalPreorder(column, ascending);
    SortBySorted(rows, RowOrder(column, ascending));
    var r := SortBy(rows, RowOrder(column, ascending));
    assert forall i, j :: 0 <= i < j < |r| ==> RowOrder(column, ascending)(r[i], r[j]);
    r
  }

  // ---- Route Stats ----

  predicate CountDescending(a: RouteCount, b: RouteCount) {
    a.count >= b.count
  }

  function RouteStatsRows(routes: seq<Route>): (r: seq<RouteCount>)
    ensures |r| == |routes|
    ensures forall k :: 0 <= k < |routes| ==> r[k] == RouteCount(routes[k].dep, routes[k].arr, routes[k].count)
  {
    seq(|routes|, k requires 0 <= k < |routes| => RouteCount(routes[k].dep, routes[k].arr, routes[k].count))
  }

  /**
   * The Route Stats table: shown only when there are routes, as the
   * (departure, arrival, count) columns of every route, largest count first.
   */
  function RouteStats(routes: seq<Route>): (r: Option<seq<RouteCount>>)
    ensures r.None? <==> routes == []
    ensures r.Some? ==> multiset(r.value) == multiset(RouteStatsRows(routes))
    ensures r.Some? ==> forall i, j :: 0 <= i < j < |r.value| ==> r.value[i].count >= r.value[j].count
  {
    if routes == [] then None
    else
      assert Total(CountDescending) && Transitive(CountDescending);
      SortBySorted(RouteStatsRows(routes), CountDescending);
      Some(SortBy(RouteStatsRows(routes), CountDescending))
  }
}
