/** The two ETA views: the buses approaching one stop, sorted by ETA, and
    for each bus on a route the cumulative distance and ETA to every stop
    still ahead of it. Both use the great-circle distance at the bus's
    speed (25 km/h when it reports none), without the directions service. */
module Etas {
  import opened Common
  import opened Sorting
  import opened Mapbox
  import opened RouteStops
  import opened Buses
  import opened Displays

  /** Minutes to cover `distance` metres at `speed` km/h. */
  function StraightEtaMinutes(distance: real, speed: real): real
    requires speed > 0.0
  {
    distance / 1000.0 / speed * 60.0
  }

  /** A longer distance at the same speed never takes less time. */
  lemma StraightEtaMonotone(d1: real, d2: real, speed: real)
    requires speed > 0.0 && 0.0 <= d1 <= d2
    ensures 0.0 <= StraightEtaMinutes(d1, speed) <= StraightEtaMinutes(d2, speed)
  {
    var k := 60.0 / 1000.0 / speed;
    assert k > 0.0;
    assert StraightEtaMinutes(d1, speed) == d1 * k;
    assert StraightEtaMinutes(d2, speed) == d2 * k;
  }

  // ---------------------------------------------------------------------
  // Buses approaching one stop.
  // ---------------------------------------------------------------------

  datatype StopBusEta = StopBusEta(busId: int, routeId: int, etaMinutes: real, distanceMeters: int,
                                   latitude: real, longitude: real)

  function StopEtaKey(e: StopBusEta): real { e.etaMinutes }

  /** The stop view lists an active bus on a route through the stop when it
      has a fix and its pointer is strictly before the stop: a bus at the
      stop is not listed. */
  predicate ListedAtStop(seqs: map<int, int>, bus: Bus, loc: Option<Location>) {
    && bus.status == Active
    && bus.routeId.Some? && bus.routeId.value in seqs
    && loc.Some? && HasFix(loc.value)
    && PointerOrZero(loc.value.pointer) < seqs[bus.routeId.value]
  }

  /** The two rider views differ only on a bus whose pointer is exactly the
      stop's sequence: the display lists it, the stop view does not. */
  lemma StopViewDropsBusAtStop(seqs: map<int, int>, bus: Bus, loc: Option<Location>)
    ensures ListedAtStop(seqs, bus, loc) <==>
      ListedAtDisplay(seqs, bus, loc) && PointerOrZero(loc.value.pointer) != seqs[bus.routeId.value]
  {
  }

  /** A bus just put on a trip (its row reset to 0/0) is not listed. */
  lemma TripStartNotListedAtStop(seqs: map<int, int>, bus: Bus)
    ensures !ListedAtStop(seqs, bus, Some(TripStartLocation))
  {
  }

  function StopEntry(hav: Haversine, stop: Coord, busId: int, routeId: int, loc: Location): StopBusEta {
    var distance := hav(BusCoord(loc), stop);
    StopBusEta(busId, routeId, RoundTenth(StraightEtaMinutes(distance, AssumedSpeed(loc.speed))),
               RoundHalfEven(distance), loc.latitude, loc.longitude)
  }

  /** An entry's distance is the rounded great-circle distance, and its ETA
      is never negative and grows with that distance. */
  lemma StopEntryBounds(hav: Haversine, stop: Coord, busId: int, routeId: int, loc: Location, other: Location)
    requires AssumedSpeed(loc.speed) == AssumedSpeed(other.speed)
    requires hav(BusCoord(loc), stop) <= hav(BusCoord(other), stop)
    ensures var e := StopEntry(hav, stop, busId, routeId, loc);
      && e.distanceMeters >= 0 && e.etaMinutes >= 0.0
      && e.etaMinutes <= StopEntry(hav, stop, busId, routeId, other).etaMinutes
      && e.distanceMeters <= StopEntry(hav, stop, busId, routeId, other).distanceMeters
  {
    var d1, d2 := hav(BusCoord(loc), stop), hav(BusCoord(other), stop);
    var speed := AssumedSpeed(loc.speed);
    StraightEtaMonotone(d1, d2, speed);
    RoundOfNonNegative(StraightEtaMinutes(d1, speed));
    RoundOfNonNegative(d1);
    RoundTenthMonotone(StraightEtaMinutes(d1, speed), StraightEtaMinutes(d2, speed));
    RoundHalfEvenMonotone(d1, d2);
  }

  predicate ListsStopBus(r: seq<StopBusEta>, busId: int) {
    exists i :: 0 <= i < |r| && r[i].busId == busId
  }

  /** The entries the stop loop appends, in the order the buses come. */
  function StopCandidates(hav: Haversine, stop: Coord, seqs: map<int, int>,
                          buses: map<int, Bus>, locations: map<int, Location>, ids: seq<int>): (r: seq<StopBusEta>)
    ensures forall id {:trigger ListsStopBus(r, id)} :: ListsStopBus(r, id) <==>
      id in ids && id in buses && ListedAtStop(seqs, buses[id], LocationOf(locations, id))
  {
    if ids == [] then []
    else
      var init := ids[..|ids| - 1];
      var id := ids[|ids| - 1];
      var rest := StopCandidates(hav, stop, seqs, buses, locations, init);
      assert forall x :: x in ids <==> x in init || x == id;
      if id in buses && ListedAtStop(seqs, buses[id], LocationOf(locations, id)) then
        var r := rest + [StopEntry(hav, stop, id, buses[id].routeId.value, locations[id])];
        assert forall x :: ListsStopBus(r, x) <==> ListsStopBus(rest, x) || x == id by {
          forall x ensures ListsStopBus(r, x) <==> ListsStopBus(rest, x) || x == id {
            if ListsStopBus(r, x) {
              var i :| 0 <= i < |r| && r[i].busId == x;
              if i < |rest| { assert rest[i] == r[i]; }
            }
            if ListsStopBus(rest, x) {
              var i :| 0 <= i < |rest| && rest[i].busId == x;
              assert r[i] == rest[i];
            }
            if x == id { assert r[|rest|].busId == id; }
          }
        }
        r
      else rest
  }

  lemma SortKeepsStopBuses(r: seq<StopBusEta>)
    ensures forall id :: ListsStopBus(SortBy(r, StopEtaKey), id) <==> ListsStopBus(r, id)
  {
    var s := SortBy(r, StopEtaKey);
    SortedMembership(r, StopEtaKey);
    forall id ensures ListsStopBus(s, id) <==> ListsStopBus(r, id) {
      if ListsStopBus(s, id) {
        var i :| 0 <= i < |s| && s[i].busId == id;
        assert s[i] in r;
      }
      if ListsStopBus(r, id) {
        var i :| 0 <= i < |r| && r[i].busId == id;
        assert r[i] in s;
      }
    }
  }

  /** A stop on no (filtered) route has no ETAs. */
  lemma {:induction false} NoRouteNoEtas(hav: Haversine, stop: Coord,
                                         buses: map<int, Bus>, locations: map<int, Location>, ids: seq<int>)
    ensures StopCandidates(hav, stop, map[], buses, locations, ids) == []
  {
    if ids != [] {
      NoRouteNoEtas(hav, stop, buses, locations, ids[..|ids| - 1]);
    }
  }

  /** The routes through the stop, narrowed to the requested route when the
      request names one. */
  function StopRoutes(rows: Rows, stopId: int, routeFilter: Option<int>): (m: map<int, int>)
    requires UniquePairs(rows)
    ensures routeFilter.None? ==> m == RouteSequencesAt(rows, stopId)
    ensures routeFilter.Some? ==> m.Keys <= {routeFilter.value}
    ensures forall r :: r in m ==> r in RouteSequencesAt(rows, stopId) && m[r] == RouteSequencesAt(rows, stopId)[r]
    ensures routeFilter.Some? && routeFilter.value in RouteSequencesAt(rows, stopId) ==> routeFilter.value in m
  {
    var all := RouteSequencesAt(rows, stopId);
    if routeFilter.None? then all
    else map r | r in all && r == routeFilter.value :: all[r]
  }

  /** The stop loop over the buses the query returns, then the sort. */
  method StopEtasFor(hav: Haversine, stop: Coord, seqs: map<int, int>,
                     buses: map<int, Bus>, locations: map<int, Location>, ids: seq<int>)
    returns (r: seq<StopBusEta>)
    ensures r == SortBy(StopCandidates(hav, stop, seqs, buses, locations, ids), StopEtaKey)
    ensures SortedBy(r, StopEtaKey)
    ensures forall id :: ListsStopBus(r, id) <==>
      id in ids && id in buses && ListedAtStop(seqs, buses[id], LocationOf(locations, id))
  {
    var etas: seq<StopBusEta> := [];
    for i := 0 to |ids|
      invariant etas == StopCandidates(hav, stop, seqs, buses, locations, ids[..i])
    {
      assert ids[..i + 1][..i] == ids[..i];
      var id := ids[i];
      if id in buses && ListedAtStop(seqs, buses[id], LocationOf(locations, id)) {
        var loc := locations[id];
        var distance := hav(BusCoord(loc), stop);
        var speed := if loc.speed > 0.0 then loc.speed else DefaultSpeedKmh;
        var eta := StraightEtaMinutes(distance, speed);
        etas := etas + [StopBusEta(id, buses[id].routeId.value, RoundTenth(eta), RoundHalfEven(distance),
                                   loc.latitude, loc.longitude)];
      }
    }
    assert ids[..|ids|] == ids;
    SortKeepsStopBuses(etas);
    r := SortBy(etas, StopEtaKey);
  }

  datatype StopEtaError = UnknownStop

  /** The ETAs at stop `stopId`: 404 for an unknown stop, an empty list when
      no (requested) route passes it, else every listed bus by ETA. */
  method StopEtas(stopId: int, routeFilter: Option<int>, table: RouteStopTable, fleet: Fleet, hav: Haversine)
    returns (res: Result<seq<StopBusEta>, StopEtaError>, ghost order: seq<int>)
    requires table.Valid()
    ensures NoDuplicates(order)
    ensures res.Err? <==> stopId !in table.stops
    ensures res.Ok? ==>
      var seqs := StopRoutes(table.rows, stopId, routeFilter);
      && res.value == SortBy(StopCandidates(hav, table.stops[stopId].location, seqs,
                                            fleet.buses, fleet.locations, order), StopEtaKey)
      && SortedBy(res.value, StopEtaKey)
      && (seqs == map[] ==> res.value == [])
      && forall id :: ListsStopBus(res.value, id) <==>
           id in fleet.buses && ListedAtStop(seqs, fleet.buses[id], LocationOf(fleet.locations, id))
  {
    if stopId !in table.stops {
      return Err(UnknownStop), [];
    }
    var location := table.stops[stopId].location;
    var seqs := StopRoutes(table.rows, stopId, routeFilter);
    var ids := Enumerate(fleet.buses.Keys);
    assert forall id :: id in ids <==> id in fleet.buses by {
      forall id ensures id in ids <==> id in fleet.buses {
        assert id in ids <==> id in (set j | j in ids);
      }
    }
    if seqs == map[] {
      NoRouteNoEtas(hav, location, fleet.buses, fleet.locations, ids);
      return Ok([]), ids;
    }
    var etas := StopEtasFor(hav, location, seqs, fleet.buses, fleet.locations, ids);
    return Ok(etas), ids;
  }

  // ---------------------------------------------------------------------
  // Every stop ahead of each bus on a route.
  // ---------------------------------------------------------------------

  /** The route's stops after `pointer`, in the order given. */
  function Ahead(stops: seq<StopPoint>, pointer: int): (a: seq<StopPoint>)
    ensures |a| <= |stops|
    ensures forall p :: p in a <==> p in stops && p.sequence > pointer
  {
    if stops == [] then []
    else
      var init := stops[..|stops| - 1];
      var last := stops[|stops| - 1];
      assert forall p :: p in stops <==> p in init || p == last;
      Ahead(init, pointer) + (if last.sequence > pointer then [last] else [])
  }

  /** Keeping the stops ahead keeps them in sequence order. */
  lemma {:induction false} AheadSorted(stops: seq<StopPoint>, pointer: int)
    requires SortedBy(stops, SequenceKey)
    ensures SortedBy(Ahead(stops, pointer), SequenceKey)
  {
    if stops != [] {
      var init := stops[..|stops| - 1];
      var last := stops[|stops| - 1];
      AheadSorted(init, pointer);
      var rest := Ahead(init, pointer);
      if last.sequence > pointer {
        var a := rest + [last];
        forall i, j | 0 <= i < j < |a| ensures SequenceKey(a[i]) <= SequenceKey(a[j]) {
          if j == |rest| {
            assert a[i] == rest[i] && rest[i] in init;
            var k :| 0 <= k < |init| && init[k] == rest[i];
            assert stops[k] == init[k];
          } else {
            assert a[i] == rest[i] && a[j] == rest[j];
          }
        }
      }
    }
  }

  /** Where the path from `from` through `a` ends. */
  function LastPoint(from: Coord, a: seq<StopPoint>): Coord {
    if a == [] then from else a[|a| - 1].location
  }

  /** The length of the path from `from` through the stops of `a` in turn. */
  function PathLength(hav: Haversine, from: Coord, a: seq<StopPoint>): (d: real)
    ensures d >= 0.0
  {
    if a == [] then 0.0
    else PathLength(hav, from, a[..|a| - 1]) + hav(LastPoint(from, a[..|a| - 1]), a[|a| - 1].location)
  }

  /** The path through a longer prefix is never shorter. */
  lemma {:induction false} PathLengthGrows(hav: Haversine, from: Coord, a: seq<StopPoint>, i: nat, j: nat)
    requires i <= j <= |a|
    ensures PathLength(hav, from, a[..i]) <= PathLength(hav, from, a[..j])
  {
    if i < j {
      PathLengthGrows(hav, from, a, i, j - 1);
      assert a[..j][..j - 1] == a[..j - 1];
    }
  }

  datatype StopAhead = StopAhead(stopId: int, sequence: int, etaMinutes: real, distanceMeters: int)

  /** The entry for the `i`-th stop ahead: the path length through it. */
  function AheadEntry(hav: Haversine, from: Coord, speed: real, a: seq<StopPoint>, i: nat): StopAhead
    requires speed > 0.0 && i < |a|
  {
    var d := PathLength(hav, from, a[..i + 1]);
    StopAhead(a[i].stopId, a[i].sequence, RoundTenth(StraightEtaMinutes(d, speed)), RoundHalfEven(d))
  }

  function AheadEtas(hav: Haversine, from: Coord, speed: real, a: seq<StopPoint>): (r: seq<StopAhead>)
    requires speed > 0.0
    ensures |r| == |a|
  {
    seq(|a|, i requires 0 <= i < |a| => AheadEntry(hav, from, speed, a, i))
  }

  /** Along the list of stops ahead, distance and ETA never decrease, every
      stop is after the pointer, and sorted stops stay in sequence order. */
  lemma AheadEtasNonDecreasing(hav: Haversine, from: Coord, speed: real, stops: seq<StopPoint>, pointer: int,
                               i: nat, j: nat)
    requires speed > 0.0
    requires i <= j < |Ahead(stops, pointer)|
    ensures var r := AheadEtas(hav, from, speed, Ahead(stops, pointer));
      && r[i].sequence > pointer
      && 0 <= r[i].distanceMeters <= r[j].distanceMeters
      && 0.0 <= r[i].etaMinutes <= r[j].etaMinutes
      && (SortedBy(stops, SequenceKey) ==> r[i].sequence <= r[j].sequence)
  {
    var a := Ahead(stops, pointer);
    assert a[i] in a;
    var di := PathLength(hav, from, a[..i + 1]);
    var dj := PathLength(hav, from, a[..j + 1]);
    PathLengthGrows(hav, from, a, i + 1, j + 1);
    StraightEtaMonotone(di, dj, speed);
    RoundHalfEvenMonotone(di, dj);
    RoundTenthMonotone(StraightEtaMinutes(di, speed), StraightEtaMinutes(dj, speed));
    RoundOfNonNegative(di);
    RoundOfNonNegative(StraightEtaMinutes(di, speed));
    if SortedBy(stops, SequenceKey) {
      AheadSorted(stops, pointer);
      assert SequenceKey(a[i]) <= SequenceKey(a[j]);
    }
  }

  lemma AheadEtasSnoc(hav: Haversine, from: Coord, speed: real, a: seq<StopPoint>, p: StopPoint)
    requires speed > 0.0
    ensures var d := PathLength(hav, from, a + [p]);
      AheadEtas(hav, from, speed, a + [p]) == AheadEtas(hav, from, speed, a) +
        [StopAhead(p.stopId, p.sequence, RoundTenth(StraightEtaMinutes(d, speed)), RoundHalfEven(d))]
  {
    var b := a + [p];
    assert b[..|a| + 1] == b;
    forall i | 0 <= i < |a| ensures AheadEntry(hav, from, speed, b, i) == AheadEntry(hav, from, speed, a, i) {
      assert b[..i + 1] == a[..i + 1];
    }
  }

  lemma AheadStep(stops: seq<StopPoint>, pointer: int, j: nat)
    requires j < |stops|
    ensures Ahead(stops[..j + 1], pointer) ==
      Ahead(stops[..j], pointer) + (if stops[j].sequence > pointer then [stops[j]] else [])
  {
    assert stops[..j + 1][..j] == stops[..j];
  }

  lemma PathStep(hav: Haversine, from: Coord, a: seq<StopPoint>, p: StopPoint)
    ensures PathLength(hav, from, a + [p]) == PathLength(hav, from, a) + hav(LastPoint(from, a), p.location)
    ensures LastPoint(from, a + [p]) == p.location
  {
    assert (a + [p])[..|a|] == a;
  }

  /** The inner loop: walks the route's stops in order, skipping those at
      or before the pointer, adding each leg to the running distance. */
  method NextStopEtas(hav: Haversine, bus: Coord, pointer: int, speed: real, stops: seq<StopPoint>)
    returns (next: seq<StopAhead>)
    requires speed > 0.0
    ensures next == AheadEtas(hav, bus, speed, Ahead(stops, pointer))
  {
    next := [];
    var cumulative := 0.0;
    var prev := bus;
    ghost var ahead: seq<StopPoint> := [];
    for j := 0 to |stops|
      invariant ahead == Ahead(stops[..j], pointer)
      invariant cumulative == PathLength(hav, bus, ahead)
      invariant prev == LastPoint(bus, ahead)
      invariant next == AheadEtas(hav, bus, speed, ahead)
    {
      AheadStep(stops, pointer, j);
      var stop := stops[j];
      if stop.sequence <= pointer {
        continue;
      }
      PathStep(hav, bus, ahead, stop);
      AheadEtasSnoc(hav, bus, speed, ahead, stop);
      var segment := hav(prev, stop.location);
      cumulative := cumulative + segment;
      var eta := StraightEtaMinutes(cumulative, speed);
      next := next + [StopAhead(stop.stopId, stop.sequence, RoundTenth(eta), RoundHalfEven(cumulative))];
      prev := stop.location;
      ahead := ahead + [stop];
    }
    assert stops[..|stops|] == stops;
  }

  datatype BusAhead = BusAhead(busId: int, currentStopSequence: int, nextStops: seq<StopAhead>)

  /** The route view lists every active bus of the route that has a fix. */
  predicate OnRouteWithFix(routeId: int, bus: Bus, loc: Option<Location>) {
    bus.status == Active && bus.routeId == Some(routeId) && loc.Some? && HasFix(loc.value)
  }

  function BusAheadOf(hav: Haversine, stops: seq<StopPoint>, busId: int, loc: Location): BusAhead {
    var pointer := PointerOrZero(loc.pointer);
    BusAhead(busId, pointer, AheadEtas(hav, BusCoord(loc), AssumedSpeed(loc.speed), Ahead(stops, pointer)))
  }

  predicate ListsBusAhead(r: seq<BusAhead>, busId: int) {
    exists i :: 0 <= i < |r| && r[i].busId == busId
  }

  /** The entries the route loop appends, in the order the buses come. */
  function RouteBusList(hav: Haversine, routeId: int, stops: seq<StopPoint>,
                        buses: map<int, Bus>, locations: map<int, Location>, ids: seq<int>): (r: seq<BusAhead>)
    ensures forall id {:trigger ListsBusAhead(r, id)} :: ListsBusAhead(r, id) <==>
      id in ids && id in buses && OnRouteWithFix(routeId, buses[id], LocationOf(locations, id))
    ensures forall b :: b in r ==> b.busId in locations && b == BusAheadOf(hav, stops, b.busId, locations[b.busId])
  {
    if ids == [] then []
    else
      var init := ids[..|ids| - 1];
      var id := ids[|ids| - 1];
      var rest := RouteBusList(hav, routeId, stops, buses, locations, init);
      assert forall x :: x in ids <==> x in init || x == id;
      if id in buses && OnRouteWithFix(routeId, buses[id], LocationOf(locations, id)) then
        var r := rest + [BusAheadOf(hav, stops, id, locations[id])];
        assert forall x :: ListsBusAhead(r, x) <==> ListsBusAhead(rest, x) || x == id by {
          forall x ensures ListsBusAhead(r, x) <==> ListsBusAhead(rest, x) || x == id {
            if ListsBusAhead(r, x) {
              var i :| 0 <= i < |r| && r[i].busId == x;
              if i < |rest| { assert rest[i] == r[i]; }
            }
            if ListsBusAhead(rest, x) {
              var i :| 0 <= i < |rest| && rest[i].busId == x;
              assert r[i] == rest[i];
            }
            if x == id { assert r[|rest|].busId == id; }
          }
        }
        r
      else rest
  }

  datatype RouteEtaError = UnknownRoute

  /** The ETAs along route `routeId`: 404 for an unknown route; otherwise,
      for each active bus of the route with a fix, the stops ahead of its
      pointer with cumulative distance and ETA. `order` is the order the bus
      query returns the buses in, `stops` the route's stops in sequence
      order. */
  method RouteEtas(routeId: int, table: RouteStopTable, fleet: Fleet, hav: Haversine)
    returns (res: Result<seq<BusAhead>, RouteEtaError>, ghost order: seq<int>, ghost stops: seq<StopPoint>)
    requires table.Valid()
    ensures NoDuplicates(order)
    ensures res.Err? <==> routeId !in table.routes
    ensures res.Ok? ==>
      && SortedBy(stops, SequenceKey)
      && |stops| == |RouteKeys(table.rows, routeId)|
      && (forall p :: p in stops <==> exists k :: k in RouteKeys(table.rows, routeId) && p == PointOf(table.rows, table.stops, k))
      && res.value == RouteBusList(hav, routeId, stops, fleet.buses, fleet.locations, order)
      && forall id :: ListsBusAhead(res.value, id) <==>
           id in fleet.buses && OnRouteWithFix(routeId, fleet.buses[id], LocationOf(fleet.locations, id))
  {
    if routeId !in table.routes {
      return Err(UnknownRoute), [], [];
    }
    var points := table.StopsOf(routeId);
    var ids := Enumerate(fleet.buses.Keys);
    assert forall id :: id in ids <==> id in fleet.buses by {
      forall id ensures id in ids <==> id in fleet.buses {
        assert id in ids <==> id in (set j | j in ids);
      }
    }
    var data: seq<BusAhead> := [];
    for i := 0 to |ids|
      invariant data == RouteBusList(hav, routeId, points, fleet.buses, fleet.locations, ids[..i])
    {
      assert ids[..i + 1][..i] == ids[..i];
      var id := ids[i];
      if id in fleet.buses && OnRouteWithFix(routeId, fleet.buses[id], LocationOf(fleet.locations, id)) {
        var loc := fleet.locations[id];
        var pointer := PointerOrZero(loc.pointer);
        var speed := if loc.speed > 0.0 then loc.speed else DefaultSpeedKmh;
        var next := NextStopEtas(hav, BusCoord(loc), pointer, speed, points);
        data := data + [BusAhead(id, pointer, next)];
      }
    }
    assert ids[..|ids|] == ids;
    return Ok(data), ids, points;
  }
}
