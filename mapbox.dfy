/** The distance provider (live directions service with a straight-line
    fallback) and the position resolver that places a bus on its route. */
module Mapbox {
  import opened Common
  import opened Sorting

  // ---------------------------------------------------------------------
  // The directions service, seen through what its HTTP layer hands back.
  // ---------------------------------------------------------------------

  /** One leg of a returned route; a missing field is `None`. */
  datatype RawLeg = RawLeg(distance: Option<real>, duration: Option<real>)

  /** One returned route: total distance (m), total duration (s) and legs. */
  datatype RawRoute = RawRoute(distance: Option<real>, duration: Option<real>, legs: seq<RawLeg>)

  /** `Failed` stands for every way the call can go wrong before a decoded
      body exists: no access token, a network error or timeout, a non-2xx
      status, a body that is not JSON. */
  datatype Reply =
    | Failed
    | Body(code: Option<string>, routes: seq<RawRoute>)

  /** The directions service: an ordered waypoint list in, a reply out. */
  type Directions = seq<Coord> -> Reply

  datatype RouteInfo = RouteInfo(distance: int, duration: int, durationMinutes: real)

  /** An arrival estimate: minutes and metres. */
  datatype Eta = Eta(etaMinutes: real, distanceMeters: real)

  const MaxWaypoints := 25
  const DetourFactor := 1.3
  const DefaultSpeedKmh := 25.0
  const AtStopThreshold := 150.0

  predicate UsableReply(reply: Reply) {
    reply.Body? && reply.code == Some("Ok") && |reply.routes| > 0
  }

  /** Single origin-destination query. Never fails: every failure is `None`. */
  function GetRouteInfo(net: Directions, origin: Coord, destination: Coord): (r: Option<RouteInfo>)
    ensures var reply := net([origin, destination]);
      r.Some? <==> UsableReply(reply) && reply.routes[0].distance.Some? && reply.routes[0].duration.Some?
    ensures r.Some? ==>
      var route := net([origin, destination]).routes[0];
      && r.value.distance == RoundHalfEven(route.distance.value)
      && r.value.duration == RoundHalfEven(route.duration.value)
      && r.value.durationMinutes == RoundTenth(route.duration.value / 60.0)
  {
    var reply := net([origin, destination]);
    if !UsableReply(reply) then None
    else
      var route := reply.routes[0];
      if route.distance.None? || route.duration.None? then None
      else
        Some(RouteInfo(RoundHalfEven(route.distance.value), RoundHalfEven(route.duration.value),
                       RoundTenth(route.duration.value / 60.0)))
  }

  /** Live ETA from the bus to a stop, or `None` when the service fails. */
  function GetEtaToStop(net: Directions, from: Coord, to: Coord): (r: Option<Eta>)
    ensures r.Some? <==> GetRouteInfo(net, from, to).Some?
    ensures r.Some? ==>
      && r.value.distanceMeters == GetRouteInfo(net, from, to).value.distance as real
      && r.value.etaMinutes == GetRouteInfo(net, from, to).value.durationMinutes
  {
    match GetRouteInfo(net, from, to)
    case None => None
    case Some(info) => Some(Eta(info.durationMinutes, info.distance as real))
  }

  /** Straight-line fallback: 1.3 times the great-circle distance, driven at
      `speedKmh`. */
  function FallbackEta(hav: Haversine, from: Coord, to: Coord, speedKmh: real): (r: Eta)
    requires speedKmh > 0.0
    ensures r.distanceMeters == RoundHalfEven(DetourFactor * hav(from, to)) as real
    ensures r.etaMinutes == RoundTenth(DetourFactor * hav(from, to) / 1000.0 / speedKmh * 60.0)
  {
    var adjusted := hav(from, to) * DetourFactor;
    Eta(RoundTenth(adjusted / 1000.0 / speedKmh * 60.0), RoundHalfEven(adjusted) as real)
  }

  /** The fallback never reports less than the great-circle distance by more
      than rounding, nor more than 1.3 times it beyond rounding; and its ETA
      is never negative. */
  lemma FallbackEtaBounds(hav: Haversine, from: Coord, to: Coord, speedKmh: real)
    requires speedKmh > 0.0
    ensures var r := FallbackEta(hav, from, to, speedKmh);
      && hav(from, to) - 0.5 <= r.distanceMeters
      && r.distanceMeters <= DetourFactor * hav(from, to) + 0.5
      && r.etaMinutes >= 0.0
  {
    var h := hav(from, to);
    assert h >= 0.0;
    RoundOfNonNegative(DetourFactor * h / 1000.0 / speedKmh * 60.0);
  }

  /** A faster assumed speed never gives a later fallback ETA. */
  lemma FallbackEtaFasterIsSooner(hav: Haversine, from: Coord, to: Coord, slow: real, fast: real)
    requires 0.0 < slow <= fast
    ensures FallbackEta(hav, from, to, fast).etaMinutes <= FallbackEta(hav, from, to, slow).etaMinutes
  {
    var d := DetourFactor * hav(from, to) / 1000.0;
    assert d >= 0.0;
    assert d / fast <= d / slow by {
      assert d / fast * fast == d;
      assert d / slow * slow == d;
    }
    RoundTenthMonotone(d / fast * 60.0, d / slow * 60.0);
  }

  // ---------------------------------------------------------------------
  // Multi-waypoint route with cumulative legs.
  // ---------------------------------------------------------------------

  datatype Leg = Leg(
    legIndex: int,
    distance: int, duration: int, durationMinutes: real,
    cumulativeDistance: int, cumulativeDuration: int, cumulativeDurationMinutes: real)

  datatype MultiRoute = MultiRoute(totalDistance: int, totalDuration: int, totalDurationMinutes: real, legs: seq<Leg>)

  /** The first `n` legs all carry a distance and a duration. */
  predicate CompleteUpTo(raw: seq<RawLeg>, n: nat)
    requires n <= |raw|
  {
    forall i :: 0 <= i < n ==> raw[i].distance.Some? && raw[i].duration.Some?
  }

  predicate LegsComplete(raw: seq<RawLeg>) {
    CompleteUpTo(raw, |raw|)
  }

  /** Sum of the distances of the first `n` legs. */
  function DistanceSum(raw: seq<RawLeg>, n: nat): real
    requires n <= |raw| && CompleteUpTo(raw, n)
  {
    if n == 0 then 0.0 else DistanceSum(raw, n - 1) + raw[n - 1].distance.value
  }

  /** Sum of the durations of the first `n` legs. */
  function DurationSum(raw: seq<RawLeg>, n: nat): real
    requires n <= |raw| && CompleteUpTo(raw, n)
  {
    if n == 0 then 0.0 else DurationSum(raw, n - 1) + raw[n - 1].duration.value
  }

  /** Leg `i` as the service's result reports it: its own values rounded and
      the running totals over legs `0..i`. */
  function LegAt(raw: seq<RawLeg>, i: nat): Leg
    requires i < |raw| && CompleteUpTo(raw, i + 1)
  {
    Leg(i,
        RoundHalfEven(raw[i].distance.value), RoundHalfEven(raw[i].duration.value),
        RoundTenth(raw[i].duration.value / 60.0),
        RoundHalfEven(DistanceSum(raw, i + 1)), RoundHalfEven(DurationSum(raw, i + 1)),
        RoundTenth(DurationSum(raw, i + 1) / 60.0))
  }

  /** The waypoints actually sent: at most the first 25. */
  function Truncated(waypoints: seq<Coord>): (r: seq<Coord>)
    ensures |r| <= MaxWaypoints && |r| <= |waypoints|
    ensures r == waypoints[..|r|]
    ensures |waypoints| <= MaxWaypoints ==> r == waypoints
  {
    if |waypoints| > MaxWaypoints then waypoints[..MaxWaypoints] else waypoints
  }

  /** The multi-waypoint result for a reply: `None` for an unusable reply or
      a missing field anywhere. */
  function MultiRouteOf(reply: Reply): Option<MultiRoute> {
    if !UsableReply(reply) then None
    else
      var route := reply.routes[0];
      if !LegsComplete(route.legs) || route.distance.None? || route.duration.None? then None
      else
        Some(MultiRoute(RoundHalfEven(route.distance.value), RoundHalfEven(route.duration.value),
                        RoundTenth(route.duration.value / 60.0), LegsOf(route.legs)))
  }

  function LegsOf(raw: seq<RawLeg>): (legs: seq<Leg>)
    requires LegsComplete(raw)
    ensures |legs| == |raw| && forall i :: 0 <= i < |raw| ==> legs[i] == LegAt(raw, i)
  {
    seq(|raw|, i requires 0 <= i < |raw| => LegAt(raw, i))
  }

  /** Multi-waypoint query: fewer than two waypoints gives `None` without a
      call; more than 25 are cut to the first 25. The legs are accumulated in
      a loop, as the service's result is walked leg by leg. */
  method GetMultiStopRoute(net: Directions, waypoints: seq<Coord>) returns (r: Option<MultiRoute>)
    ensures |waypoints| < 2 ==> r == None
    ensures |waypoints| >= 2 ==> r == MultiRouteOf(net(Truncated(waypoints)))
  {
    if |waypoints| < 2 {
      return None;
    }
    var reply := net(Truncated(waypoints));
    if !UsableReply(reply) {
      return None;
    }
    var route := reply.routes[0];
    var legs: seq<Leg> := [];
    var cumulativeDistance, cumulativeDuration := 0.0, 0.0;
    var i := 0;
    while i < |route.legs|
      invariant 0 <= i <= |route.legs|
      invariant CompleteUpTo(route.legs, i)
      invariant |legs| == i
      invariant forall k :: 0 <= k < i ==> legs[k] == LegAt(route.legs, k)
      invariant cumulativeDistance == DistanceSum(route.legs, i) && cumulativeDuration == DurationSum(route.legs, i)
    {
      var leg := route.legs[i];
      if leg.distance.None? || leg.duration.None? {
        assert !LegsComplete(route.legs);
        return None;
      }
      assert CompleteUpTo(route.legs, i + 1);
      cumulativeDistance := cumulativeDistance + leg.distance.value;
      cumulativeDuration := cumulativeDuration + leg.duration.value;
      assert cumulativeDistance == DistanceSum(route.legs, i + 1);
      assert cumulativeDuration == DurationSum(route.legs, i + 1);
      legs := legs + [Leg(i,
                          RoundHalfEven(leg.distance.value), RoundHalfEven(leg.duration.value),
                          RoundTenth(leg.duration.value / 60.0),
                          RoundHalfEven(cumulativeDistance), RoundHalfEven(cumulativeDuration),
                          RoundTenth(cumulativeDuration / 60.0))];
      i := i + 1;
    }
    assert legs == LegsOf(route.legs);
    if route.distance.None? || route.duration.None? {
      return None;
    }
    r := Some(MultiRoute(RoundHalfEven(route.distance.value), RoundHalfEven(route.duration.value),
                         RoundTenth(route.duration.value / 60.0), legs));
  }

  lemma {:induction false} DistanceSumMonotone(raw: seq<RawLeg>, m: nat, n: nat)
    requires m <= n <= |raw| && LegsComplete(raw)
    requires forall i :: 0 <= i < |raw| ==> raw[i].distance.value >= 0.0
    ensures DistanceSum(raw, m) <= DistanceSum(raw, n)
  {
    if m < n {
      DistanceSumMonotone(raw, m, n - 1);
    }
  }

  lemma {:induction false} DurationSumMonotone(raw: seq<RawLeg>, m: nat, n: nat)
    requires m <= n <= |raw| && LegsComplete(raw)
    requires forall i :: 0 <= i < |raw| ==> raw[i].duration.value >= 0.0
    ensures DurationSum(raw, m) <= DurationSum(raw, n)
  {
    if m < n {
      DurationSumMonotone(raw, m, n - 1);
    }
  }

  /** With legs of non-negative length and duration, the cumulative values
      never decrease from one leg to a later one. */
  lemma CumulativeLegsNonDecreasing(raw: seq<RawLeg>, i: nat, j: nat)
    requires i <= j < |raw| && LegsComplete(raw)
    requires forall k :: 0 <= k < |raw| ==> raw[k].distance.value >= 0.0 && raw[k].duration.value >= 0.0
    ensures LegAt(raw, i).legIndex == i
    ensures LegAt(raw, i).cumulativeDistance <= LegAt(raw, j).cumulativeDistance
    ensures LegAt(raw, i).cumulativeDuration <= LegAt(raw, j).cumulativeDuration
    ensures LegAt(raw, i).cumulativeDurationMinutes <= LegAt(raw, j).cumulativeDurationMinutes
  {
    DistanceSumMonotone(raw, i + 1, j + 1);
    DurationSumMonotone(raw, i + 1, j + 1);
    RoundHalfEvenMonotone(DistanceSum(raw, i + 1), DistanceSum(raw, j + 1));
    RoundHalfEvenMonotone(DurationSum(raw, i + 1), DurationSum(raw, j + 1));
    RoundTenthMonotone(DurationSum(raw, i + 1) / 60.0, DurationSum(raw, j + 1) / 60.0);
  }

  // ---------------------------------------------------------------------
  // Batch ETAs to the upcoming stops of a route.
  // ---------------------------------------------------------------------

  datatype StopTarget = StopTarget(location: Coord, stopId: int, name: string)

  datatype StopEta = StopEta(stopId: int, name: string, etaMinutes: real, distanceMeters: real)

  function Locations(stops: seq<StopTarget>): (r: seq<Coord>)
    ensures |r| == |stops| && forall i :: 0 <= i < |stops| ==> r[i] == stops[i].location
  {
    seq(|stops|, i requires 0 <= i < |stops| => stops[i].location)
  }

  function Min(a: int, b: int): int { if a <= b then a else b }

  /** One multi-waypoint call from the bus through every stop; entry `i`
      carries the running totals of leg `i`. No fallback: a failed call gives
      an empty list. */
  method GetEtasToMultipleStops(net: Directions, bus: Coord, stops: seq<StopTarget>) returns (results: seq<StopEta>)
    ensures |stops| == 0 ==> results == []
    ensures |stops| > 0 ==>
      var m := MultiRouteOf(net(Truncated([bus] + Locations(stops))));
      && (m.None? ==> results == [])
      && (m.Some? ==>
            && |results| == Min(|stops|, |m.value.legs|)
            && forall i :: 0 <= i < |results| ==>
                 results[i] == StopEta(stops[i].stopId, stops[i].name,
                                       m.value.legs[i].cumulativeDurationMinutes,
                                       m.value.legs[i].cumulativeDistance as real))
  {
    if |stops| == 0 {
      return [];
    }
    var info := GetMultiStopRoute(net, [bus] + Locations(stops));
    if info.None? || |info.value.legs| == 0 {
      return [];
    }
    var legs := info.value.legs;
    results := [];
    for i := 0 to |stops|
      invariant |results| == Min(i, |legs|)
      invariant forall k :: 0 <= k < |results| ==>
        results[k] == StopEta(stops[k].stopId, stops[k].name, legs[k].cumulativeDurationMinutes,
                              legs[k].cumulativeDistance as real)
    {
      if i < |legs| {
        results := results + [StopEta(stops[i].stopId, stops[i].name, legs[i].cumulativeDurationMinutes,
                                      legs[i].cumulativeDistance as real)];
      }
    }
  }

  // ---------------------------------------------------------------------
  // The position resolver.
  // ---------------------------------------------------------------------

  /** A stop of the bus's route: its sequence number, id and location. */
  datatype StopPoint = StopPoint(sequence: int, stopId: int, location: Coord)

  datatype StopDistance = StopDistance(sequence: int, stopId: int, distance: real, eta: real)

  datatype Position = Position(
    lastPassedStop: int,
    nextStop: int,
    isAtStop: bool,
    currentStopSequence: int,
    distanceToNext: Option<real>,
    etaToNext: Option<real>)

  function SequenceKey(s: StopPoint): real { s.sequence as real }

  /** Distance from the bus to one stop: live if the service answers, else
      1.3 times the great-circle distance at 25 km/h (left unrounded). */
  function DistanceTo(net: Directions, hav: Haversine, bus: Coord, stop: StopPoint): (d: StopDistance)
    ensures d.sequence == stop.sequence && d.stopId == stop.stopId
    ensures GetEtaToStop(net, bus, stop.location).Some? ==>
      d.distance == GetEtaToStop(net, bus, stop.location).value.distanceMeters
    ensures GetEtaToStop(net, bus, stop.location).None? ==>
      d.distance == DetourFactor * hav(bus, stop.location) && d.distance >= 0.0
  {
    match GetEtaToStop(net, bus, stop.location)
    case Some(e) => StopDistance(stop.sequence, stop.stopId, e.distanceMeters, e.etaMinutes)
    case None =>
      var dist := hav(bus, stop.location);
      StopDistance(stop.sequence, stop.stopId, dist * DetourFactor, (dist * DetourFactor / 1000.0) / DefaultSpeedKmh * 60.0)
  }

  function Distances(net: Directions, hav: Haversine, bus: Coord, stops: seq<StopPoint>): (ds: seq<StopDistance>)
    ensures |ds| == |stops|
    ensures forall i :: 0 <= i < |stops| ==> ds[i] == DistanceTo(net, hav, bus, stops[i])
  {
    seq(|stops|, i requires 0 <= i < |stops| => DistanceTo(net, hav, bus, stops[i]))
  }

  /** Python's `min(..., key=distance)`: the FIRST stop of least distance. */
  function FirstMin(ds: seq<StopDistance>): (k: nat)
    requires |ds| > 0
    ensures k < |ds|
    ensures forall i :: 0 <= i < |ds| ==> ds[k].distance <= ds[i].distance
    ensures forall i :: 0 <= i < k ==> ds[k].distance < ds[i].distance
  {
    if |ds| == 1 then 0
    else
      var k := FirstMin(ds[..|ds| - 1]);
      if ds[|ds| - 1].distance < ds[k].distance then |ds| - 1 else k
  }

  /** `next(i for i, s in enumerate(ds) if s['sequence'] == seq)`. */
  function FirstWithSequence(ds: seq<StopDistance>, sequence: int): (k: nat)
    requires exists i :: 0 <= i < |ds| && ds[i].sequence == sequence
    ensures k < |ds| && ds[k].sequence == sequence
    ensures forall i :: 0 <= i < k ==> ds[i].sequence != sequence
  {
    if ds[0].sequence == sequence then 0
    else
      var i :| 0 <= i < |ds| && ds[i].sequence == sequence;
      assert ds[1..][i - 1].sequence == sequence;
      1 + FirstWithSequence(ds[1..], sequence)
  }

  /** The stop the resolver calls nearest, over the sorted stop list. */
  function Nearest(ds: seq<StopDistance>): StopDistance
    requires |ds| > 0
  {
    ds[FirstMin(ds)]
  }

  const NoStops := Position(0, 1, false, 1, None, None)

  /** The branch selection of the resolver over the per-stop distances of the
      sorted stops. */
  function PositionFrom(ds: seq<StopDistance>): Position
    requires |ds| > 0
  {
    var nearest := Nearest(ds);
    if nearest.distance <= AtStopThreshold then
      Position(nearest.sequence,
               if nearest.sequence < |ds| then nearest.sequence + 1 else nearest.sequence,
               true, nearest.sequence, Some(0.0), Some(0.0))
    else
      BetweenStops(ds, nearest, FirstWithSequence(ds, nearest.sequence))
  }

  /** The resolver's branches when the bus is not at a stop: `idx` is the
      position of the nearest stop's sequence number in the sorted list. */
  function BetweenStops(ds: seq<StopDistance>, nearest: StopDistance, idx: nat): Position
    requires idx < |ds|
  {
    var toNearest := Position(0, nearest.sequence, false, nearest.sequence,
                              Some(RoundHalfEven(nearest.distance) as real), Some(RoundTenth(nearest.eta)));
    if idx == 0 then toNearest
    else if idx == |ds| - 1 then toNearest.(lastPassedStop := ds[idx - 1].sequence)
    else if ds[idx - 1].distance > nearest.distance then toNearest.(lastPassedStop := ds[idx - 1].sequence)
    else
      var after := ds[idx + 1];
      Position(nearest.sequence, after.sequence, false, after.sequence,
               Some(RoundHalfEven(after.distance) as real), Some(RoundTenth(after.eta)))
  }

  /** `get_bus_position_on_route` as a function of its inputs. */
  function Resolve(net: Directions, hav: Haversine, bus: Coord, stops: seq<StopPoint>): Position {
    if |stops| == 0 then NoStops
    else PositionFrom(Distances(net, hav, bus, SortBy(stops, SequenceKey)))
  }

  /** The resolver as the source runs it: sort, then one provider call per
      stop in a loop, then the branch selection. */
  method ResolvePosition(net: Directions, hav: Haversine, bus: Coord, routeStops: seq<StopPoint>) returns (p: Position)
    ensures p == Resolve(net, hav, bus, routeStops)
  {
    if |routeStops| == 0 {
      return NoStops;
    }
    var stops := SortBy(routeStops, SequenceKey);
    var stopDistances: seq<StopDistance> := [];
    for i := 0 to |stops|
      invariant |stopDistances| == i
      invariant forall k :: 0 <= k < i ==> stopDistances[k] == DistanceTo(net, hav, bus, stops[k])
    {
      stopDistances := stopDistances + [DistanceTo(net, hav, bus, stops[i])];
    }
    assert stopDistances == Distances(net, hav, bus, stops);
    p := PositionFrom(stopDistances);
  }

  /** The empty route: pointer 1, nothing passed, no distance or ETA. */
  lemma ResolveNoStops(net: Directions, hav: Haversine, bus: Coord)
    ensures var p := Resolve(net, hav, bus, []);
      p.lastPassedStop == 0 && p.nextStop == 1 && !p.isAtStop && p.currentStopSequence == 1
      && p.distanceToNext.None? && p.etaToNext.None?
  {
  }

  /** At a stop: within 150 m of the nearest stop the bus is at it, distance
      and ETA are zero, and the next stop is the following sequence number
      unless the nearest's number reaches the count of stops. */
  lemma PositionAtStop(ds: seq<StopDistance>)
    requires |ds| > 0
    ensures var nearest := Nearest(ds);
      var p := PositionFrom(ds);
      && (p.isAtStop <==> nearest.distance <= AtStopThreshold)
      && (p.isAtStop ==>
            && p.currentStopSequence == nearest.sequence
            && p.lastPassedStop == nearest.sequence
            && p.distanceToNext == Some(0.0) && p.etaToNext == Some(0.0)
            && p.nextStop == (if nearest.sequence < |ds| then nearest.sequence + 1 else nearest.sequence))
  {
  }

  lemma ResolveAtStop(net: Directions, hav: Haversine, bus: Coord, stops: seq<StopPoint>)
    requires |stops| > 0
    ensures var ds := Distances(net, hav, bus, SortBy(stops, SequenceKey));
      var nearest := Nearest(ds);
      var p := Resolve(net, hav, bus, stops);
      && (p.isAtStop <==> nearest.distance <= AtStopThreshold)
      && (p.isAtStop ==>
            && p.currentStopSequence == nearest.sequence
            && p.lastPassedStop == nearest.sequence
            && p.distanceToNext == Some(0.0) && p.etaToNext == Some(0.0)
            && p.nextStop == (if nearest.sequence < |stops| then nearest.sequence + 1 else nearest.sequence))
  {
    var sorted := SortBy(stops, SequenceKey);
    var ds := Distances(net, hav, bus, sorted);
    assert |ds| == |stops|;
    assert Resolve(net, hav, bus, stops) == PositionFrom(ds);
    PositionAtStop(ds);
  }

  predicate DistinctSequences(ds: seq<StopDistance>) {
    forall i, j :: 0 <= i < j < |ds| ==> ds[i].sequence != ds[j].sequence
  }

  lemma DistancesKeepSequences(net: Directions, hav: Haversine, bus: Coord, stops: seq<StopPoint>)
    ensures var ds := Distances(net, hav, bus, stops);
      && (forall i :: 0 <= i < |ds| ==> ds[i].sequence == stops[i].sequence)
      && (DistinctKeys(stops, SequenceKey) ==> DistinctSequences(ds))
  {
    var ds := Distances(net, hav, bus, stops);
    if DistinctKeys(stops, SequenceKey) {
      forall i, j | 0 <= i < j < |ds| ensures ds[i].sequence != ds[j].sequence {
        assert SequenceKey(stops[i]) != SequenceKey(stops[j]);
      }
    }
  }

  /** With distinct sequence numbers the "passed the nearest stop" branch is
      dead: the stop before the first minimum is strictly farther. So the
      pointer is always the nearest stop's number, and when not at a stop the
      bus is heading to it, with nothing passed before the first stop and
      the previous stop passed otherwise. */
  lemma PositionTargetsNearest(ds: seq<StopDistance>)
    requires |ds| > 0 && DistinctSequences(ds)
    ensures var k := FirstMin(ds);
      var p := PositionFrom(ds);
      && p.currentStopSequence == ds[k].sequence
      && (!p.isAtStop ==>
            && p.nextStop == ds[k].sequence
            && p.lastPassedStop == (if k == 0 then 0 else ds[k - 1].sequence)
            && p.distanceToNext == Some(RoundHalfEven(ds[k].distance) as real)
            && p.etaToNext == Some(RoundTenth(ds[k].eta)))
  {
    var k := FirstMin(ds);
    SequenceFindsIndex(ds, k);
    if 0 < k {
      assert ds[k - 1].distance > ds[k].distance;
    }
    if ds[k].distance > AtStopThreshold {
      assert PositionFrom(ds) == BetweenStops(ds, ds[k], k);
    }
  }

  /** With distinct sequence numbers, looking up an entry's number finds
      that entry. */
  lemma SequenceFindsIndex(ds: seq<StopDistance>, k: nat)
    requires k < |ds| && DistinctSequences(ds)
    ensures FirstWithSequence(ds, ds[k].sequence) == k
  {
    var idx := FirstWithSequence(ds, ds[k].sequence);
    assert ds[idx].sequence == ds[k].sequence;
  }

  /** Sorted, distinct numbers drawn from 1..N with N of them are exactly 1..N. */
  lemma {:induction false} SortedDenseIsIdentity(stops: seq<StopPoint>)
    requires SortedBy(stops, SequenceKey) && DistinctKeys(stops, SequenceKey)
    requires forall i :: 0 <= i < |stops| ==> 1 <= stops[i].sequence <= |stops|
    ensures forall i :: 0 <= i < |stops| ==> stops[i].sequence == i + 1
  {
    forall i | 0 <= i < |stops| ensures stops[i].sequence == i + 1 {
      AtLeastIndex(stops, i);
      AtMostIndex(stops, i);
    }
  }

  lemma {:induction false} AtLeastIndex(stops: seq<StopPoint>, i: nat)
    requires i < |stops|
    requires SortedBy(stops, SequenceKey) && DistinctKeys(stops, SequenceKey)
    requires forall j :: 0 <= j < |stops| ==> 1 <= stops[j].sequence
    ensures stops[i].sequence >= i + 1
  {
    if i > 0 {
      AtLeastIndex(stops, i - 1);
      assert SequenceKey(stops[i - 1]) <= SequenceKey(stops[i]);
      assert SequenceKey(stops[i - 1]) != SequenceKey(stops[i]);
    }
  }

  lemma {:induction false} AtMostIndex(stops: seq<StopPoint>, i: nat)
    requires i < |stops|
    requires SortedBy(stops, SequenceKey) && DistinctKeys(stops, SequenceKey)
    requires forall j :: 0 <= j < |stops| ==> stops[j].sequence <= |stops|
    ensures stops[i].sequence <= i + 1
    decreases |stops| - i
  {
    if i < |stops| - 1 {
      AtMostIndex(stops, i + 1);
      assert SequenceKey(stops[i]) <= SequenceKey(stops[i + 1]);
      assert SequenceKey(stops[i]) != SequenceKey(stops[i + 1]);
    }
  }

  /** On a route numbered exactly 1..N, the last passed stop is the one
      before the pointer when the bus is between stops, and at a stop the
      next stop is the following one, or the same at the end of the route. */
  lemma PositionOnDenseRoute(ds: seq<StopDistance>)
    requires |ds| > 0
    requires forall i :: 0 <= i < |ds| ==> ds[i].sequence == i + 1
    ensures var p := PositionFrom(ds);
      && 1 <= p.currentStopSequence <= |ds|
      && (!p.isAtStop ==> p.lastPassedStop == p.currentStopSequence - 1 && p.nextStop == p.currentStopSequence)
      && (p.isAtStop ==>
            && p.lastPassedStop == p.currentStopSequence
            && p.nextStop == (if p.currentStopSequence < |ds| then p.currentStopSequence + 1 else |ds|))
  {
    PositionTargetsNearest(ds);
    PositionAtStop(ds);
  }

  lemma ResolveOnDenseRoute(net: Directions, hav: Haversine, bus: Coord, stops: seq<StopPoint>)
    requires |stops| > 0
    requires DistinctKeys(stops, SequenceKey)
    requires forall i :: 0 <= i < |stops| ==> 1 <= stops[i].sequence <= |stops|
    ensures var p := Resolve(net, hav, bus, stops);
      && 1 <= p.currentStopSequence <= |stops|
      && (!p.isAtStop ==> p.lastPassedStop == p.currentStopSequence - 1 && p.nextStop == p.currentStopSequence)
      && (p.isAtStop ==>
            && p.lastPassedStop == p.currentStopSequence
            && p.nextStop == (if p.currentStopSequence < |stops| then p.currentStopSequence + 1 else |stops|))
  {
    var sorted := SortBy(stops, SequenceKey);
    SortByKeepsDistinctKeys(stops, SequenceKey);
    SortedMembership(stops, SequenceKey);
    forall i | 0 <= i < |sorted| ensures 1 <= sorted[i].sequence <= |sorted| {
      assert sorted[i] in stops;
    }
    SortedDenseIsIdentity(sorted);
    var ds := Distances(net, hav, bus, sorted);
    DistancesKeepSequences(net, hav, bus, sorted);
    PositionOnDenseRoute(ds);
    assert Resolve(net, hav, bus, stops) == PositionFrom(ds);
  }

  /** The resolver takes no pointer, so nothing keeps the stored pointer
      from moving backwards: with the service down, a bus reporting from
      stop 2 and then from stop 1 of a two-stop route gets pointer 2 and
      then pointer 1. */
  lemma PointerCanMoveBackwards(net: Directions, hav: Haversine, a: Coord, b: Coord)
    requires GetEtaToStop(net, a, a).None? && GetEtaToStop(net, a, b).None?
    requires GetEtaToStop(net, b, a).None? && GetEtaToStop(net, b, b).None?
    requires hav(a, a) == 0.0 && hav(b, b) == 0.0 && hav(a, b) > 0.0 && hav(b, a) > 0.0
    ensures var stops := [StopPoint(1, 10, a), StopPoint(2, 20, b)];
      && Resolve(net, hav, b, stops).currentStopSequence == 2
      && Resolve(net, hav, a, stops).currentStopSequence == 1
  {
    var stops := [StopPoint(1, 10, a), StopPoint(2, 20, b)];
    TwoStopResolve(net, hav, a, stops);
    TwoStopResolve(net, hav, b, stops);
  }

  /** On a route of two stops numbered 1 and 2 with the service down, the
      pointer is the stop strictly nearer in a straight line, the first one
      on a tie. */
  lemma TwoStopResolve(net: Directions, hav: Haversine, bus: Coord, stops: seq<StopPoint>)
    requires |stops| == 2 && stops[0].sequence == 1 && stops[1].sequence == 2
    requires GetEtaToStop(net, bus, stops[0].location).None? && GetEtaToStop(net, bus, stops[1].location).None?
    ensures Resolve(net, hav, bus, stops).currentStopSequence ==
      if hav(bus, stops[1].location) < hav(bus, stops[0].location) then 2 else 1
  {
    assert SortedBy(stops, SequenceKey);
    SortByOfSorted(stops, SequenceKey);
    var ds := Distances(net, hav, bus, stops);
    assert ds[0] == DistanceTo(net, hav, bus, stops[0]) && ds[1] == DistanceTo(net, hav, bus, stops[1]);
    assert DistinctSequences(ds);
    PositionTargetsNearest(ds);
    assert FirstMin(ds[..1]) == 0;
    assert FirstMin(ds) == if ds[1].distance < ds[0].distance then 1 else 0;
    assert Resolve(net, hav, bus, stops) == PositionFrom(ds);
  }


  // ---------------------------------------------------------------------
  // "Is the stop behind the bus?"
  // ---------------------------------------------------------------------

  /** The stop is behind when going bus -> stop -> next is more than 1.5
      times the direct bus -> next distance. If any of the three live calls
      fails, all three distances are great-circle ones. */
  function HasBusPassedStop(net: Directions, hav: Haversine, bus: Coord, stop: Coord, next: Coord): (r: bool)
    ensures var busToStop := GetEtaToStop(net, bus, stop);
      var busToNext := GetEtaToStop(net, bus, next);
      var stopToNext := GetEtaToStop(net, stop, next);
      && (busToStop.Some? && busToNext.Some? && stopToNext.Some? ==>
            (r <==> busToStop.value.distanceMeters + stopToNext.value.distanceMeters
                      > busToNext.value.distanceMeters * 1.5))
      && (busToStop.None? || busToNext.None? || stopToNext.None? ==>
            (r <==> hav(bus, stop) + hav(stop, next) > hav(bus, next) * 1.5))
  {
    var busToStop := GetEtaToStop(net, bus, stop);
    var busToNext := GetEtaToStop(net, bus, next);
    var stopToNext := GetEtaToStop(net, stop, next);
    if busToStop.None? || busToNext.None? || stopToNext.None? then
      hav(bus, stop) + hav(stop, next) > hav(bus, next) * 1.5
    else
      busToStop.value.distanceMeters + stopToNext.value.distanceMeters > busToNext.value.distanceMeters * 1.5
  }

  /** On the fallback path a stop lying on the straight way to the next stop
      is never reported as passed, and a bus that has already gone past the
      stop, by more than a quarter of its remaining way, is. */
  lemma PassedOnStraightLine(net: Directions, hav: Haversine, bus: Coord, stop: Coord, next: Coord)
    requires GetEtaToStop(net, bus, stop).None?
    ensures hav(bus, stop) + hav(stop, next) == hav(bus, next) ==> !HasBusPassedStop(net, hav, bus, stop, next)
    ensures (&& hav(stop, next) == hav(stop, bus) + hav(bus, next)
             && hav(stop, bus) == hav(bus, stop)
             && hav(bus, stop) > 0.25 * hav(bus, next))
            ==> HasBusPassedStop(net, hav, bus, stop, next)
  {
    assert hav(bus, next) >= 0.0;
  }
}
