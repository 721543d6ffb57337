/**
 * The two tables the map is drawn from: `route_counts`, one row per directed
 * (departure, arrival) pair with its voyage count and endpoint coordinates,
 * and `all_ports`, one row per port with its departure and arrival tallies.
 */
module Aggregation {
  import opened Options
  import opened Seqs
  import opened Strings
  import opened PortCoordinates
  import opened Dashboard

  /** A port with the coordinates one row gives it. */
  datatype Endpoint = Endpoint(port: string, lat: real, lon: real)

  /** `df[["Departure Port", "Dep Lat", "Dep Lon"]]`. */
  function DepEnds(rows: seq<Voyage>): (r: seq<Endpoint>)
    ensures |r| == |rows|
    ensures forall i :: 0 <= i < |rows| ==> r[i] == Endpoint(rows[i].dep, rows[i].depLat, rows[i].depLon)
  {
    seq(|rows|, i requires 0 <= i < |rows| => Endpoint(rows[i].dep, rows[i].depLat, rows[i].depLon))
  }

  /** `df[["Arrival Port", "Arr Lat", "Arr Lon"]]`. */
  function ArrEnds(rows: seq<Voyage>): (r: seq<Endpoint>)
    ensures |r| == |rows|
    ensures forall i :: 0 <= i < |rows| ==> r[i] == Endpoint(rows[i].arr, rows[i].arrLat, rows[i].arrLon)
  {
    seq(|rows|, i requires 0 <= i < |rows| => Endpoint(rows[i].arr, rows[i].arrLat, rows[i].arrLon))
  }

  function Ports(es: seq<Endpoint>): (r: seq<string>)
    ensures |r| == |es| && forall i :: 0 <= i < |es| ==> r[i] == es[i].port
  {
    seq(|es|, i requires 0 <= i < |es| => es[i].port)
  }

  /** The departure port column. */
  function Deps(rows: seq<Voyage>): seq<string> {
    Ports(DepEnds(rows))
  }

  /** The arrival port column. */
  function Arrs(rows: seq<Voyage>): seq<string> {
    Ports(ArrEnds(rows))
  }

  // ---- drop_duplicates on the port column ----

  /** `es[i]` is the first entry for port `p`. */
  predicate FirstAt(es: seq<Endpoint>, p: string, i: int) {
    0 <= i < |es| && es[i].port == p && forall j :: 0 <= j < i ==> es[j].port != p
  }

  lemma FirstAtUnique(es: seq<Endpoint>, p: string, i: int, j: int)
    requires FirstAt(es, p, i) && FirstAt(es, p, j)
    ensures i == j
  {
  }

  /** The first entry for port `p`. */
  function FirstWith(es: seq<Endpoint>, p: string): (e: Endpoint)
    requires p in Ports(es)
    ensures exists i :: FirstAt(es, p, i) && e == es[i]
  {
    if es[0].port == p then
      assert FirstAt(es, p, 0);
      es[0]
    else
      PortInTail(es, p);
      var e := FirstWith(es[1..], p);
      var i :| FirstAt(es[1..], p, i) && e == es[1..][i];
      FirstAtShift(es, p, i);
      e
  }

  lemma PortInTail(es: seq<Endpoint>, p: string)
    requires p in Ports(es) && es[0].port != p
    ensures p in Ports(es[1..])
  {
    var i :| 0 <= i < |es| && Ports(es)[i] == p;
    assert Ports(es[1..])[i - 1] == p;
  }

  lemma FirstAtShift(es: seq<Endpoint>, p: string, i: int)
    requires es != [] && es[0].port != p && FirstAt(es[1..], p, i)
    ensures FirstAt(es, p, i + 1) && es[i + 1] == es[1..][i]
  {
  }

  lemma FirstWithAppend(es: seq<Endpoint>, x: Endpoint, p: string)
    requires p in Ports(es)
    ensures p in Ports(es + [x]) && FirstWith(es + [x], p) == FirstWith(es, p)
  {
    var i :| 0 <= i < |es| && Ports(es)[i] == p;
    assert Ports(es + [x])[i] == p;
    var e := FirstWith(es, p);
    var j :| FirstAt(es, p, j) && e == es[j];
    assert FirstAt(es + [x], p, j);
    var e' := FirstWith(es + [x], p);
    var k :| FirstAt(es + [x], p, k) && e' == (es + [x])[k];
    FirstAtUnique(es + [x], p, j, k);
  }

  lemma FirstWithAppendNew(es: seq<Endpoint>, x: Endpoint)
    requires x.port !in Ports(es)
    ensures x.port in Ports(es + [x]) && FirstWith(es + [x], x.port) == x
  {
    assert Ports(es + [x])[|es|] == x.port;
    assert forall j :: 0 <= j < |es| ==> Ports(es)[j] != x.port;
    assert FirstAt(es + [x], x.port, |es|);
    var e' := FirstWith(es + [x], x.port);
    var k :| FirstAt(es + [x], x.port, k) && e' == (es + [x])[k];
    FirstAtUnique(es + [x], x.port, |es|, k);
  }

  /** `r` holds each port of `es` once, as its first entry there. */
  ghost predicate FirstEntriesOf(es: seq<Endpoint>, r: seq<Endpoint>) {
    && Distinct(Ports(r))
    && (forall p :: p in Ports(r) <==> p in Ports(es))
    && (forall k :: 0 <= k < |r| ==> r[k].port in Ports(es) && r[k] == FirstWith(es, r[k].port))
  }

  /** One more entry: it is kept iff its port is new. */
  lemma FirstEntriesExtend(es: seq<Endpoint>, d: seq<Endpoint>)
    requires es != [] && FirstEntriesOf(es[..|es| - 1], d)
    ensures es[|es| - 1].port in Ports(d) ==> FirstEntriesOf(es, d)
    ensures es[|es| - 1].port !in Ports(d) ==> FirstEntriesOf(es, d + [es[|es| - 1]])
  {
    var init, x := es[..|es| - 1], es[|es| - 1];
    assert es == init + [x];
    assert Ports(es) == Ports(init) + [x.port];
    forall k | 0 <= k < |d| ensures d[k].port in Ports(es) && d[k] == FirstWith(es, d[k].port) {
      FirstWithAppend(init, x, d[k].port);
    }
    if x.port !in Ports(d) {
      assert Ports(d + [x]) == Ports(d) + [x.port];
      FirstWithAppendNew(init, x);
    }
  }

  /**
   * `drop_duplicates("Departure Port")`: the first entry of every port, in
   * order of first appearance; so each port once, no port lost, and each
   * kept entry the first one for its port.
   */
  function FirstPerPort(es: seq<Endpoint>): (r: seq<Endpoint>)
    ensures FirstEntriesOf(es, r)
  {
    if es == [] then []
    else
      var d := FirstPerPort(es[..|es| - 1]);
      FirstEntriesExtend(es, d);
      if es[|es| - 1].port in Ports(d) then d else d + [es[|es| - 1]]
  }

  /** The first entry of a port survives drop_duplicates unchanged. */
  lemma FirstPerPortKeepsFirst(es: seq<Endpoint>, p: string)
    requires p in Ports(es)
    ensures p in Ports(FirstPerPort(es)) && FirstWith(FirstPerPort(es), p) == FirstWith(es, p)
  {
    var r := FirstPerPort(es);
    var e := FirstWith(r, p);
    var k :| FirstAt(r, p, k) && e == r[k];
  }

  // ---- route_counts ----

  /** Python's tuple order on (departure, arrival), the order groupby lists its keys in. */
  predicate PairLe(a: (string, string), b: (string, string)) {
    if a.0 == b.0 then LexLe(a.1, b.1) else LexLe(a.0, b.0)
  }

  lemma PairLeTotalPreorder()
    ensures Total(PairLe) && Transitive(PairLe)
  {
    forall a: (string, string), b: (string, string) ensures PairLe(a, b) || PairLe(b, a) {
      LexLeTotal(a.0, b.0);
      LexLeTotal(a.1, b.1);
    }
    forall a: (string, string), b: (string, string), c: (string, string) | PairLe(a, b) && PairLe(b, c)
      ensures PairLe(a, c)
    {
      if a.0 == b.0 && b.0 == c.0 {
        LexLeTransitive(a.1, b.1, c.1);
      } else if a.0 != b.0 && b.0 != c.0 {
        LexLeTransitive(a.0, b.0, c.0);
        if a.0 == c.0 {
          LexLeAntisymmetric(a.0, b.0);
        }
      }
    }
  }

  function Pairs(rows: seq<Voyage>): (r: seq<(string, string)>)
    ensures |r| == |rows| && forall i :: 0 <= i < |rows| ==> r[i] == (rows[i].dep, rows[i].arr)
  {
    seq(|rows|, i requires 0 <= i < |rows| => (rows[i].dep, rows[i].arr))
  }

  /** One row of `groupby(["Departure Port", "Arrival Port"]).size()`. */
  datatype RouteCount = RouteCount(dep: string, arr: string, count: nat)

  function CountKeys(rc: seq<RouteCount>): (r: seq<(string, string)>)
    ensures |r| == |rc| && forall k :: 0 <= k < |rc| ==> r[k] == (rc[k].dep, rc[k].arr)
  {
    seq(|rc|, k requires 0 <= k < |rc| => (rc[k].dep, rc[k].arr))
  }

  function SumCountColumn(rc: seq<RouteCount>): nat {
    if rc == [] then 0 else rc[0].count + SumCountColumn(rc[1..])
  }

  lemma {:induction false} SumCountColumnIsSumCounts(s: seq<(string, string)>, rc: seq<RouteCount>)
    requires forall k :: 0 <= k < |rc| ==> rc[k].count == multiset(s)[(rc[k].dep, rc[k].arr)]
    ensures SumCountColumn(rc) == SumCounts(s, CountKeys(rc))
  {
    if rc != [] {
      SumCountColumnIsSumCounts(s, rc[1..]);
      assert CountKeys(rc)[1..] == CountKeys(rc[1..]);
    }
  }

  /** The distinct (departure, arrival) keys in sorted order. */
  function SortedKeys(pairs: seq<(string, string)>): (keys: seq<(string, string)>)
    ensures Distinct(keys)
    ensures forall key :: key in keys <==> key in pairs
    ensures SortedBy(keys, PairLe)
  {
    var distinct := Dedup(pairs);
    var keys := SortBy(distinct, PairLe);
    PermutationDistinct(distinct, keys);
    PairLeTotalPreorder();
    SortBySorted(distinct, PairLe);
    assert forall x :: x in keys <==> x in pairs by {
      forall x ensures x in keys <==> x in pairs {
        assert x in keys <==> x in multiset(keys);
        assert x in distinct <==> x in multiset(distinct);
      }
    }
    keys
  }

  /** Each key paired with the number of its occurrences in `pairs`. */
  function CountEach(keys: seq<(string, string)>, pairs: seq<(string, string)>): (r: seq<RouteCount>)
    ensures CountKeys(r) == keys
    ensures forall k :: 0 <= k < |r| ==> r[k].count == multiset(pairs)[(r[k].dep, r[k].arr)]
  {
    if keys == [] then []
    else [RouteCount(keys[0].0, keys[0].1, multiset(pairs)[keys[0]])] + CountEach(keys[1..], pairs)
  }

  /** Counting over distinct keys drawn from, and covering, the pairs: each count is positive and they add up to the pairs. */
  lemma CountEachTotals(keys: seq<(string, string)>, pairs: seq<(string, string)>)
    requires Distinct(keys)
    requires forall key :: key in keys <==> key in pairs
    ensures forall k :: 0 <= k < |keys| ==> CountEach(keys, pairs)[k].count >= 1
    ensures SumCountColumn(CountEach(keys, pairs)) == |pairs|
  {
    var r := CountEach(keys, pairs);
    forall k | 0 <= k < |keys| ensures r[k].count >= 1 {
      assert CountKeys(r)[k] == keys[k];
      assert keys[k] in keys;
      assert keys[k] in multiset(pairs);
    }
    SumCountsCover(pairs, keys);
    SumCountColumnIsSumCounts(pairs, r);
  }

  /**
   * `route_counts` before the merges: one row per distinct ordered
   * (departure, arrival) pair, keys in sorted order, each count the number of
   * rows with that pair (so at least 1), the counts adding up to the rows.
   */
  function RouteCounts(rows: seq<Voyage>): (r: seq<RouteCount>)
    ensures Distinct(CountKeys(r))
    ensures forall key :: key in CountKeys(r) <==> key in Pairs(rows)
    ensures forall k :: 0 <= k < |r| ==> r[k].count == multiset(Pairs(rows))[(r[k].dep, r[k].arr)] && r[k].count >= 1
    ensures SumCountColumn(r) == |rows|
    ensures r == [] <==> rows == []
    ensures SortedBy(CountKeys(r), PairLe)
  {
    var pairs := Pairs(rows);
    var keys := SortedKeys(pairs);
    CountEachTotals(keys, pairs);
    assert rows != [] ==> pairs[0] in keys;
    CountEach(keys, pairs)
  }

  // ---- the two left merges ----

  /** A directed route with the coordinates of its two ends (None where the merge found nothing). */
  datatype Route = Route(
    dep: string,
    arr: string,
    count: nat,
    sourceLat: Option<real>,
    sourceLon: Option<real>,
    targetLat: Option<real>,
    targetLon: Option<real>)

  /** The entries of the right-hand table whose port equals `p`, in table order. */
  function Matches(ends: seq<Endpoint>, p: string): (m: seq<Endpoint>)
    ensures forall e :: e in m <==> e in ends && e.port == p
  {
    if ends == [] then []
    else
      assert ends == [ends[0]] + ends[1..];
      (if ends[0].port == p then [ends[0]] else []) + Matches(ends[1..], p)
  }

  /** A port has no match exactly when the right-hand table lacks it (the merge then leaves NaN). */
  lemma MatchesEmpty(ends: seq<Endpoint>, p: string)
    ensures Matches(ends, p) == [] <==> p !in Ports(ends)
  {
    if p in Ports(ends) {
      var e := MemberOfPort(ends, p);
      assert e in Matches(ends, p);
    } else {
      MatchesAbsent(ends, p);
    }
  }

  lemma MatchesAbsent(ends: seq<Endpoint>, p: string)
    requires p !in Ports(ends)
    ensures Matches(ends, p) == []
  {
    if Matches(ends, p) != [] {
      var e := Matches(ends, p)[0];
      PortOfMember(ends, e);
    }
  }

  lemma {:induction false} MatchesUnique(ends: seq<Endpoint>, p: string)
    requires Distinct(Ports(ends)) && p in Ports(ends)
    ensures Matches(ends, p) == [FirstWith(ends, p)]
  {
    assert Distinct(Ports(ends[1..])) by {
      forall a, b | 0 <= a < b < |ends| - 1 ensures Ports(ends[1..])[a] != Ports(ends[1..])[b] {
        assert Ports(ends)[a + 1] != Ports(ends)[b + 1];
      }
    }
    if ends[0].port == p {
      assert p !in Ports(ends[1..]) by {
        forall j | 0 <= j < |ends| - 1 ensures Ports(ends[1..])[j] != p {
          assert Ports(ends)[0] != Ports(ends)[j + 1];
        }
      }
      MatchesAbsent(ends[1..], p);
    } else {
      assert p in Ports(ends[1..]) by {
        var i :| 0 <= i < |ends| && Ports(ends)[i] == p;
        assert Ports(ends[1..])[i - 1] == p;
      }
      MatchesUnique(ends[1..], p);
    }
  }

  /** The `route_counts` columns of a merged row. */
  function CountOf(route: Route): RouteCount {
    RouteCount(route.dep, route.arr, route.count)
  }

  function CountsOf(routes: seq<Route>): (r: seq<RouteCount>)
    ensures |r| == |routes| && forall k :: 0 <= k < |routes| ==> r[k] == CountOf(routes[k])
  {
    seq(|routes|, k requires 0 <= k < |routes| => CountOf(routes[k]))
  }

  /** A merged row before the arrival merge: its target columns empty. */
  function SansTarget(route: Route): Route {
    route.(targetLat := None, targetLon := None)
  }

  function SansTargets(routes: seq<Route>): (r: seq<Route>)
    ensures |r| == |routes| && forall k :: 0 <= k < |routes| ==> r[k] == SansTarget(routes[k])
  {
    seq(|routes|, k requires 0 <= k < |routes| => SansTarget(routes[k]))
  }

  /** Source coordinates are both present or both missing, and present ones are an entry of `ends` for the departure port. */
  predicate SourceFrom(route: Route, ends: seq<Endpoint>) {
    && (route.sourceLat.Some? <==> route.sourceLon.Some?)
    && (route.sourceLat.Some? && route.sourceLon.Some? ==>
          Endpoint(route.dep, route.sourceLat.value, route.sourceLon.value) in ends)
  }

  /** The same for the target coordinates and the arrival port. */
  predicate TargetFrom(route: Route, ends: seq<Endpoint>) {
    && (route.targetLat.Some? <==> route.targetLon.Some?)
    && (route.targetLat.Some? && route.targetLon.Some? ==>
          Endpoint(route.arr, route.targetLat.value, route.targetLon.value) in ends)
  }

  /** One counted route left-joined with the entries `m` of its departure port: one row per entry, or one row without coordinates. */
  function WithSource(rc: RouteCount, m: seq<Endpoint>): (r: seq<Route>)
    ensures |r| >= 1
    ensures forall k :: 0 <= k < |r| ==>
      && CountOf(r[k]) == rc && r[k].targetLat.None? && r[k].targetLon.None?
      && (r[k].sourceLat.Some? <==> m != []) && (r[k].sourceLon.Some? <==> m != [])
    ensures m != [] ==> |r| == |m| && forall k :: 0 <= k < |r| ==>
      r[k].sourceLat == Some(m[k].lat) && r[k].sourceLon == Some(m[k].lon)
  {
    if m == [] then [Route(rc.dep, rc.arr, rc.count, None, None, None, None)]
    else seq(|m|, k requires 0 <= k < |m| => Route(rc.dep, rc.arr, rc.count, Some(m[k].lat), Some(m[k].lon), None, None))
  }

  /** `pd.merge(route_counts, departure_ports, how="left", on="Departure Port")`. */
  function MergeSource(counts: seq<RouteCount>, ends: seq<Endpoint>): (r: seq<Route>)
    ensures |r| >= |counts|
    ensures forall k :: 0 <= k < |r| ==> (r[k].sourceLat.Some? <==> r[k].dep in Ports(ends))
  {
    if counts == [] then []
    else
      MatchesEmpty(ends, counts[0].dep);
      WithSource(counts[0], Matches(ends, counts[0].dep)) + MergeSource(counts[1..], ends)
  }

  /** One route left-joined with the entries `m` of its arrival port; the other columns are kept. */
  function WithTarget(route: Route, m: seq<Endpoint>): (r: seq<Route>)
    ensures |r| >= 1
    ensures forall k :: 0 <= k < |r| ==>
      && SansTarget(r[k]) == SansTarget(route)
      && (r[k].targetLat.Some? <==> m != []) && (r[k].targetLon.Some? <==> m != [])
    ensures m != [] ==> |r| == |m| && forall k :: 0 <= k < |r| ==>
      r[k].targetLat == Some(m[k].lat) && r[k].targetLon == Some(m[k].lon)
  {
    if m == [] then [route.(targetLat := None, targetLon := None)]
    else seq(|m|, k requires 0 <= k < |m| => route.(targetLat := Some(m[k].lat), targetLon := Some(m[k].lon)))
  }

  /** `pd.merge(route_counts, arrival_ports, how="left", on="Arrival Port")`. */
  function MergeTarget(routes: seq<Route>, ends: seq<Endpoint>): (r: seq<Route>)
    ensures |r| >= |routes|
    ensures forall k :: 0 <= k < |r| ==> (r[k].targetLat.Some? <==> r[k].arr in Ports(ends))
  {
    if routes == [] then []
    else
      MatchesEmpty(ends, routes[0].arr);
      WithTarget(routes[0], Matches(ends, routes[0].arr)) + MergeTarget(routes[1..], ends)
  }

  lemma CountsOfConcat(a: seq<Route>, b: seq<Route>)
    ensures CountsOf(a + b) == CountsOf(a) + CountsOf(b)
  {
  }

  lemma SansTargetsConcat(a: seq<Route>, b: seq<Route>)
    ensures SansTargets(a + b) == SansTargets(a) + SansTargets(b)
  {
  }

  /** Rows that all carry the same counted route contribute exactly that route. */
  lemma CountsOfSame(routes: seq<Route>, rc: RouteCount)
    requires |routes| >= 1 && forall k :: 0 <= k < |routes| ==> CountOf(routes[k]) == rc
    ensures forall c :: c in CountsOf(routes) <==> c == rc
  {
    assert CountsOf(routes)[0] == rc;
  }

  lemma SansTargetsSame(routes: seq<Route>, x0: Route)
    requires |routes| >= 1 && forall k :: 0 <= k < |routes| ==> SansTarget(routes[k]) == x0
    ensures forall x :: x in SansTargets(routes) <==> x == x0
  {
    assert SansTargets(routes)[0] == x0;
  }

  lemma CountsOfMember(routes: seq<Route>, c: RouteCount)
    ensures c in CountsOf(routes) <==> exists route :: route in routes && CountOf(route) == c
  {
    if c in CountsOf(routes) {
      var k :| 0 <= k < |routes| && CountsOf(routes)[k] == c;
      assert routes[k] in routes;
    }
    if exists route :: route in routes && CountOf(route) == c {
      var route :| route in routes && CountOf(route) == c;
      var k :| 0 <= k < |routes| && routes[k] == route;
      assert CountsOf(routes)[k] == c;
    }
  }

  lemma SansTargetsMember(routes: seq<Route>, x: Route)
    ensures x in SansTargets(routes) <==> exists route :: route in routes && SansTarget(route) == x
  {
    if x in SansTargets(routes) {
      var k :| 0 <= k < |routes| && SansTargets(routes)[k] == x;
      assert routes[k] in routes;
    }
    if exists route :: route in routes && SansTarget(route) == x {
      var route :| route in routes && SansTarget(route) == x;
      var k :| 0 <= k < |routes| && routes[k] == route;
      assert SansTargets(routes)[k] == x;
    }
  }

  /** The rows one counted route yields take their source coordinates from the table. */
  lemma WithSourceFrom(rc: RouteCount, ends: seq<Endpoint>)
    ensures forall route :: route in WithSource(rc, Matches(ends, rc.dep)) ==> SourceFrom(route, ends)
  {
    var m := Matches(ends, rc.dep);
    var head := WithSource(rc, m);
    forall route | route in head ensures SourceFrom(route, ends) {
      var k :| 0 <= k < |head| && head[k] == route;
      if m != [] {
        assert m[k] in m;
        assert Endpoint(route.dep, route.sourceLat.value, route.sourceLon.value) == m[k];
      }
    }
  }

  /** The rows one route yields take their target coordinates from the table. */
  lemma WithTargetFrom(route: Route, ends: seq<Endpoint>)
    ensures forall x :: x in WithTarget(route, Matches(ends, route.arr)) ==> TargetFrom(x, ends)
  {
    var m := Matches(ends, route.arr);
    var head := WithTarget(route, m);
    forall x | x in head ensures TargetFrom(x, ends) {
      var k :| 0 <= k < |head| && head[k] == x;
      if m != [] {
        assert m[k] in m;
        assert Endpoint(x.arr, x.targetLat.value, x.targetLon.value) == m[k];
      }
    }
  }

  /** The departure merge neither drops nor invents a counted route, and present source coordinates are an entry of the table. */
  lemma {:induction false} MergeSourceFaithful(counts: seq<RouteCount>, ends: seq<Endpoint>)
    ensures forall c :: c in CountsOf(MergeSource(counts, ends)) <==> c in counts
    ensures forall route :: route in MergeSource(counts, ends) ==>
      SourceFrom(route, ends) && route.targetLat.None? && route.targetLon.None?
  {
    var r := MergeSource(counts, ends);
    if counts != [] {
      MergeSourceFaithful(counts[1..], ends);
      var m := Matches(ends, counts[0].dep);
      var head := WithSource(counts[0], m);
      var tail := MergeSource(counts[1..], ends);
      assert r == head + tail;
      WithSourceFrom(counts[0], ends);
      CountsOfConcat(head, tail);
      CountsOfSame(head, counts[0]);
      assert counts == [counts[0]] + counts[1..];
    }
  }

  /** The arrival merge keeps every row's other columns, adds no other row, and present target coordinates are an entry of the table. */
  lemma {:induction false} MergeTargetFaithful(routes: seq<Route>, ends: seq<Endpoint>)
    ensures forall x :: x in SansTargets(MergeTarget(routes, ends)) <==> x in SansTargets(routes)
    ensures forall route :: route in MergeTarget(routes, ends) ==> TargetFrom(route, ends)
  {
    var r := MergeTarget(routes, ends);
    if routes != [] {
      MergeTargetFaithful(routes[1..], ends);
      var m := Matches(ends, routes[0].arr);
      var head := WithTarget(routes[0], m);
      var tail := MergeTarget(routes[1..], ends);
      assert r == head + tail;
      WithTargetFrom(routes[0], ends);
      SansTargetsConcat(head, tail);
      SansTargetsSame(head, SansTarget(routes[0]));
      SansTargetsConcat([routes[0]], routes[1..]);
      assert routes == [routes[0]] + routes[1..];
    }
  }

  /** With one entry per port and every departure covered, the merge keeps one row per route. */
  lemma {:induction false} MergeSourceOneToOne(counts: seq<RouteCount>, ends: seq<Endpoint>)
    requires Distinct(Ports(ends))
    requires forall k :: 0 <= k < |counts| ==> counts[k].dep in Ports(ends)
    ensures |MergeSource(counts, ends)| == |counts|
    ensures forall k :: 0 <= k < |counts| ==>
      (MergeSource(counts, ends)[k] ==
       Route(counts[k].dep, counts[k].arr, counts[k].count,
             Some(FirstWith(ends, counts[k].dep).lat), Some(FirstWith(ends, counts[k].dep).lon), None, None))
  {
    if counts != [] {
      MergeSourceOneToOne(counts[1..], ends);
      MatchesUnique(ends, counts[0].dep);
      var head := WithSource(counts[0], Matches(ends, counts[0].dep));
      assert |head| == 1;
      var r := MergeSource(counts, ends);
      assert r == head + MergeSource(counts[1..], ends);
      forall k | 0 <= k < |counts| ensures r[k] ==
        Route(counts[k].dep, counts[k].arr, counts[k].count,
              Some(FirstWith(ends, counts[k].dep).lat), Some(FirstWith(ends, counts[k].dep).lon), None, None)
      {
        if k > 0 {
          assert r[k] == MergeSource(counts[1..], ends)[k - 1];
          assert counts[1..][k - 1] == counts[k];
        }
      }
    }
  }

  lemma {:induction false} MergeTargetOneToOne(routes: seq<Route>, ends: seq<Endpoint>)
    requires Distinct(Ports(ends))
    requires forall k :: 0 <= k < |routes| ==> routes[k].arr in Ports(ends)
    ensures |MergeTarget(routes, ends)| == |routes|
    ensures forall k :: 0 <= k < |routes| ==>
      (MergeTarget(routes, ends)[k] ==
       routes[k].(targetLat := Some(FirstWith(ends, routes[k].arr).lat), targetLon := Some(FirstWith(ends, routes[k].arr).lon)))
  {
    if routes != [] {
      MergeTargetOneToOne(routes[1..], ends);
      MatchesUnique(ends, routes[0].arr);
      var head := WithTarget(routes[0], Matches(ends, routes[0].arr));
      assert |head| == 1;
      var r := MergeTarget(routes, ends);
      assert r == head + MergeTarget(routes[1..], ends);
      forall k | 0 <= k < |routes| ensures r[k] ==
        routes[k].(targetLat := Some(FirstWith(ends, routes[k].arr).lat), targetLon := Some(FirstWith(ends, routes[k].arr).lon))
      {
        if k > 0 {
          assert r[k] == MergeTarget(routes[1..], ends)[k - 1];
          assert routes[1..][k - 1] == routes[k];
        }
      }
    }
  }

  /** `route_counts` after both merges. */
  function RouteTable(rows: seq<Voyage>): (r: seq<Route>)
    ensures |r| >= |RouteCounts(rows)|
  {
    MergeTarget(MergeSource(RouteCounts(rows), FirstPerPort(DepEnds(rows))), FirstPerPort(ArrEnds(rows)))
  }

  /** The route table holds exactly the counted routes, and every coordinate pair in it is one recorded for that port. */
  lemma {:induction false} RouteTableFaithful(rows: seq<Voyage>)
    ensures forall c :: c in CountsOf(RouteTable(rows)) <==> c in RouteCounts(rows)
    ensures forall route :: route in RouteTable(rows) ==>
      SourceFrom(route, DepEnds(rows)) && TargetFrom(route, ArrEnds(rows))
  {
    var depTable := FirstPerPort(DepEnds(rows));
    var arrTable := FirstPerPort(ArrEnds(rows));
    var sourced := MergeSource(RouteCounts(rows), depTable);
    var table := MergeTarget(sourced, arrTable);
    MergeSourceFaithful(RouteCounts(rows), depTable);
    MergeTargetFaithful(sourced, arrTable);
    FirstPerPortSubset(DepEnds(rows));
    FirstPerPortSubset(ArrEnds(rows));
    forall c ensures c in CountsOf(table) <==> c in CountsOf(sourced) {
      CountsOfMember(table, c);
      CountsOfMember(sourced, c);
      if c in CountsOf(table) {
        var route :| route in table && CountOf(route) == c;
        SansTargetsMember(table, SansTarget(route));
        SansTargetsMember(sourced, SansTarget(route));
        var y :| y in sourced && SansTarget(y) == SansTarget(route);
        assert CountOf(y) == c;
      }
      if c in CountsOf(sourced) {
        var y :| y in sourced && CountOf(y) == c;
        SansTargetsMember(sourced, SansTarget(y));
        SansTargetsMember(table, SansTarget(y));
        var route :| route in table && SansTarget(route) == SansTarget(y);
        assert CountOf(route) == c;
      }
    }
    forall route | route in table
      ensures SourceFrom(route, DepEnds(rows)) && TargetFrom(route, ArrEnds(rows))
    {
      SansTargetsMember(table, SansTarget(route));
      SansTargetsMember(sourced, SansTarget(route));
      var y :| y in sourced && SansTarget(y) == SansTarget(route);
      assert SourceFrom(y, depTable);
    }
  }

  lemma KeyInPairs(rows: seq<Voyage>, key: (string, string))
    requires key in Pairs(rows)
    ensures key.0 in Deps(rows) && key.1 in Arrs(rows)
  {
    var i :| 0 <= i < |rows| && Pairs(rows)[i] == key;
    assert Deps(rows)[i] == key.0 && Arrs(rows)[i] == key.1;
  }

  /**
   * The merges neither add nor remove routes: the route table has the rows
   * of `RouteCounts`, and each route's source (target) coordinates are those
   * of the first row, in table order, that departs from (arrives at) its
   * departure (arrival) port.
   */
  lemma RouteTableEndpoints(rows: seq<Voyage>)
    ensures |RouteTable(rows)| == |RouteCounts(rows)|
    ensures forall k :: 0 <= k < |RouteCounts(rows)| ==>
      var rc := RouteCounts(rows)[k];
      var route := RouteTable(rows)[k];
      && rc.dep in Deps(rows) && rc.arr in Arrs(rows)
      && route.dep == rc.dep && route.arr == rc.arr && route.count == rc.count
      && route.sourceLat == Some(FirstWith(DepEnds(rows), rc.dep).lat)
      && route.sourceLon == Some(FirstWith(DepEnds(rows), rc.dep).lon)
      && route.targetLat == Some(FirstWith(ArrEnds(rows), rc.arr).lat)
      && route.targetLon == Some(FirstWith(ArrEnds(rows), rc.arr).lon)
  {
    var rc := RouteCounts(rows);
    var arrTable := FirstPerPort(ArrEnds(rows));
    var sourced := MergeSource(rc, FirstPerPort(DepEnds(rows)));
    RouteKeysSeen(rows);
    RouteTableSourced(rows);
    assert FirstEntriesOf(ArrEnds(rows), arrTable);
    assert forall k :: 0 <= k < |sourced| ==> sourced[k].arr in Ports(arrTable) by {
      forall k | 0 <= k < |sourced| ensures sourced[k].arr in Ports(arrTable) {
        assert sourced[k].arr == rc[k].arr && rc[k].arr in Ports(ArrEnds(rows));
      }
    }
    MergeTargetOneToOne(sourced, arrTable);
    var table := MergeTarget(sourced, arrTable);
    forall k | 0 <= k < |rc|
      ensures table[k].dep == rc[k].dep && table[k].arr == rc[k].arr && table[k].count == rc[k].count
      ensures table[k].sourceLat == Some(FirstWith(DepEnds(rows), rc[k].dep).lat)
      ensures table[k].sourceLon == Some(FirstWith(DepEnds(rows), rc[k].dep).lon)
      ensures table[k].targetLat == Some(FirstWith(ArrEnds(rows), rc[k].arr).lat)
      ensures table[k].targetLon == Some(FirstWith(ArrEnds(rows), rc[k].arr).lon)
    {
      FirstPerPortKeepsFirst(ArrEnds(rows), rc[k].arr);
      assert table[k] == sourced[k].(targetLat := Some(FirstWith(arrTable, rc[k].arr).lat),
                                      targetLon := Some(FirstWith(arrTable, rc[k].arr).lon));
    }
    assert table == RouteTable(rows);
  }

  /** Every counted route departs from a port some row departs from, and arrives likewise. */
  lemma RouteKeysSeen(rows: seq<Voyage>)
    ensures forall k :: 0 <= k < |RouteCounts(rows)| ==>
      RouteCounts(rows)[k].dep in Deps(rows) && RouteCounts(rows)[k].arr in Arrs(rows)
  {
    var rc := RouteCounts(rows);
    forall k | 0 <= k < |rc| ensures rc[k].dep in Deps(rows) && rc[k].arr in Arrs(rows) {
      assert CountKeys(rc)[k] in CountKeys(rc);
      KeyInPairs(rows, (rc[k].dep, rc[k].arr));
    }
  }

  /** The first merge gives each counted route the coordinates of its departure port's first row. */
  lemma RouteTableSourced(rows: seq<Voyage>)
    ensures var rc := RouteCounts(rows);
      var sourced := MergeSource(rc, FirstPerPort(DepEnds(rows)));
      |sourced| == |rc| &&
      forall k :: 0 <= k < |rc| ==>
        sourced[k] == Route(rc[k].dep, rc[k].arr, rc[k].count,
                            Some(FirstWith(DepEnds(rows), rc[k].dep).lat),
                            Some(FirstWith(DepEnds(rows), rc[k].dep).lon), None, None)
  {
    var rc := RouteCounts(rows);
    var depTable := FirstPerPort(DepEnds(rows));
    RouteKeysSeen(rows);
    MergeSourceOneToOne(rc, depTable);
    forall k | 0 <= k < |rc|
      ensures FirstWith(depTable, rc[k].dep) == FirstWith(DepEnds(rows), rc[k].dep)
    {
      FirstPerPortKeepsFirst(DepEnds(rows), rc[k].dep);
    }
  }

  /** An empty table has no routes. */
  lemma RouteTableEmpty()
    ensures RouteTable([]) == []
  {
  }

  // ---- all_ports ----

  /** One row of `all_ports`. */
  datatype PortNode = PortNode(port: string, lat: real, lon: real, depCount: nat, arrCount: nat)

  /** `pd.concat([departure_ports, arrival_ports]).drop_duplicates(["Port", "Lat", "Lon"])`. */
  function AllPorts(rows: seq<Voyage>): (r: seq<Endpoint>)
    ensures Distinct(r)
    ensures forall e :: e in r ==> e in DepEnds(rows) + ArrEnds(rows)
  {
    var d := FirstPerPort(DepEnds(rows));
    var a := FirstPerPort(ArrEnds(rows));
    FirstPerPortSubset(DepEnds(rows));
    FirstPerPortSubset(ArrEnds(rows));
    assert forall e :: e in d + a ==> e in DepEnds(rows) + ArrEnds(rows) by {
      forall e | e in d + a ensures e in DepEnds(rows) + ArrEnds(rows) {
        assert e in d || e in a;
      }
    }
    Dedup(d + a)
  }

  /**
   * `all_ports` after the merges with dep_stats and arr_stats and `fillna(0)`:
   * a node's tallies are the number of rows departing from and arriving at
   * it, 0 when there are none.
   */
  function PortNodes(rows: seq<Voyage>): (r: seq<PortNode>)
    ensures |r| == |AllPorts(rows)|
    ensures forall k :: 0 <= k < |r| ==>
      var e := AllPorts(rows)[k];
      r[k].port == e.port && r[k].lat == e.lat && r[k].lon == e.lon
    ensures forall k :: 0 <= k < |r| ==>
      r[k].depCount == multiset(Deps(rows))[r[k].port] && r[k].arrCount == multiset(Arrs(rows))[r[k].port]
  {
    var ends := AllPorts(rows);
    seq(|ends|, i requires 0 <= i < |ends| => NodeOf(ends[i], rows))
  }

  /**
   * One `all_ports` entry merged with the departure and arrival group sizes,
   * `fillna(0)` where the port has no group.
   */
  function NodeOf(e: Endpoint, rows: seq<Voyage>): (node: PortNode)
    ensures node.port == e.port && node.lat == e.lat && node.lon == e.lon
    ensures node.depCount == multiset(Deps(rows))[e.port] && node.arrCount == multiset(Arrs(rows))[e.port]
  {
    SizeOfGroupSizes(Deps(rows), e.port);
    SizeOfGroupSizes(Arrs(rows), e.port);
    PortNode(e.port, e.lat, e.lon, SizeOf(GroupSizes(Deps(rows)), e.port), SizeOf(GroupSizes(Arrs(rows)), e.port))
  }

  function NodePorts(nodes: seq<PortNode>): (r: seq<string>)
    ensures |r| == |nodes| && forall k :: 0 <= k < |nodes| ==> r[k] == nodes[k].port
  {
    seq(|nodes|, k requires 0 <= k < |nodes| => nodes[k].port)
  }

  lemma PortsOfConcat(a: seq<Endpoint>, b: seq<Endpoint>, p: string)
    ensures p in Ports(a + b) <==> p in Ports(a) || p in Ports(b)
  {
    assert Ports(a + b) == Ports(a) + Ports(b);
  }

  lemma PortOfMember(es: seq<Endpoint>, e: Endpoint)
    requires e in es
    ensures e.port in Ports(es)
  {
    var i :| 0 <= i < |es| && es[i] == e;
    assert Ports(es)[i] == e.port;
  }

  lemma MemberOfPort(es: seq<Endpoint>, p: string) returns (e: Endpoint)
    requires p in Ports(es)
    ensures e in es && e.port == p
  {
    var i :| 0 <= i < |es| && Ports(es)[i] == p;
    e := es[i];
  }

  /** Every port seen as a departure or an arrival has a node, and no other name does. */
  lemma PortNodesCover(rows: seq<Voyage>, p: string)
    ensures p in NodePorts(PortNodes(rows)) <==> p in Deps(rows) || p in Arrs(rows)
  {
    var nodes := PortNodes(rows);
    var both := FirstPerPort(DepEnds(rows)) + FirstPerPort(ArrEnds(rows));
    var ends := AllPorts(rows);
    assert Ports(ends) == NodePorts(nodes);
    PortsOfConcat(FirstPerPort(DepEnds(rows)), FirstPerPort(ArrEnds(rows)), p);
    if p in Ports(ends) {
      var e := MemberOfPort(ends, p);
      PortOfMember(both, e);
    }
    if p in Ports(both) {
      var e := MemberOfPort(both, p);
      PortOfMember(ends, e);
    }
  }

  /** drop_duplicates only keeps entries it was given. */
  lemma FirstPerPortSubset(es: seq<Endpoint>)
    ensures forall e :: e in FirstPerPort(es) ==> e in es
  {
    var r := FirstPerPort(es);
    forall e | e in r ensures e in es {
      var k :| 0 <= k < |r| && r[k] == e;
      var j :| FirstAt(es, e.port, j) && FirstWith(es, e.port) == es[j];
    }
  }

  /** A node's coordinates are those some row gives its port. */
  lemma PortNodesCoordinates(rows: seq<Voyage>)
    ensures forall k :: 0 <= k < |PortNodes(rows)| ==>
      var n := PortNodes(rows)[k];
      Endpoint(n.port, n.lat, n.lon) in DepEnds(rows) + ArrEnds(rows)
  {
    var ends := AllPorts(rows);
    var nodes := PortNodes(rows);
    forall k | 0 <= k < |nodes| ensures Endpoint(nodes[k].port, nodes[k].lat, nodes[k].lon) in DepEnds(rows) + ArrEnds(rows) {
      assert Endpoint(nodes[k].port, nodes[k].lat, nodes[k].lon) == ends[k];
      assert ends[k] in ends;
    }
  }

  /** Every row's endpoints carry the table's coordinates for their port. */
  predicate EndsAgree(table: CoordTable, es: seq<Endpoint>) {
    forall e :: e in es ==> e.port in table && table[e.port] == Position(Some(e.lat), Some(e.lon))
  }

  lemma EndsAgreeFromRows(table: CoordTable, rows: seq<Voyage>)
    requires forall v :: v in rows ==> Agrees(table, v)
    ensures EndsAgree(table, DepEnds(rows) + ArrEnds(rows))
  {
    forall e | e in DepEnds(rows) + ArrEnds(rows)
      ensures e.port in table && table[e.port] == Position(Some(e.lat), Some(e.lon))
    {
      var i :| 0 <= i < 2 * |rows| && (DepEnds(rows) + ArrEnds(rows))[i] == e;
      if i < |rows| {
        assert rows[i] in rows;
      } else {
        assert rows[i - |rows|] in rows;
      }
    }
  }

  function SumDepCounts(nodes: seq<PortNode>): nat {
    if nodes == [] then 0 else nodes[0].depCount + SumDepCounts(nodes[1..])
  }

  function SumArrCounts(nodes: seq<PortNode>): nat {
    if nodes == [] then 0 else nodes[0].arrCount + SumArrCounts(nodes[1..])
  }

  lemma {:induction false} SumDepIsSumCounts(s: seq<string>, nodes: seq<PortNode>)
    requires forall k :: 0 <= k < |nodes| ==> nodes[k].depCount == multiset(s)[nodes[k].port]
    ensures SumDepCounts(nodes) == SumCounts(s, NodePorts(nodes))
  {
    if nodes != [] {
      SumDepIsSumCounts(s, nodes[1..]);
      assert NodePorts(nodes)[1..] == NodePorts(nodes[1..]);
    }
  }

  lemma {:induction false} SumArrIsSumCounts(s: seq<string>, nodes: seq<PortNode>)
    requires forall k :: 0 <= k < |nodes| ==> nodes[k].arrCount == multiset(s)[nodes[k].port]
    ensures SumArrCounts(nodes) == SumCounts(s, NodePorts(nodes))
  {
    if nodes != [] {
      SumArrIsSumCounts(s, nodes[1..]);
      assert NodePorts(nodes)[1..] == NodePorts(nodes[1..]);
    }
  }

  /**
   * When every row carries its ports' coordinates from one table (as the
   * join guarantees), drop_duplicates on (Port, Lat, Lon) leaves one node per
   * port, and the tallies over all nodes each add up to the number of rows.
   */
  lemma PortNodesTotals(table: CoordTable, rows: seq<Voyage>)
    requires forall v :: v in rows ==> Agrees(table, v)
    ensures Distinct(NodePorts(PortNodes(rows)))
    ensures SumDepCounts(PortNodes(rows)) == |rows|
    ensures SumArrCounts(PortNodes(rows)) == |rows|
  {
    var nodes := PortNodes(rows);
    var ends := AllPorts(rows);
    var all := DepEnds(rows) + ArrEnds(rows);
    EndsAgreeFromRows(table, rows);
    PortNodesCoordinates(rows);
    forall i, j | 0 <= i < j < |nodes| ensures NodePorts(nodes)[i] != NodePorts(nodes)[j] {
      assert Endpoint(nodes[i].port, nodes[i].lat, nodes[i].lon) == ends[i];
      assert Endpoint(nodes[j].port, nodes[j].lat, nodes[j].lon) == ends[j];
      assert ends[i] in all && ends[j] in all;
      assert ends[i] != ends[j];
    }
    forall p | p in Deps(rows) ensures p in NodePorts(nodes) { PortNodesCover(rows, p); }
    forall p | p in Arrs(rows) ensures p in NodePorts(nodes) { PortNodesCover(rows, p); }
    SumDepIsSumCounts(Deps(rows), nodes);
    SumArrIsSumCounts(Arrs(rows), nodes);
    SumCountsCover(Deps(rows), NodePorts(nodes));
    SumCountsCover(Arrs(rows), NodePorts(nodes));
  }

  /** An empty table has no port nodes. */
  lemma PortNodesEmpty()
    ensures PortNodes([]) == []
  {
  }
}
