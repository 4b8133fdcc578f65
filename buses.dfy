/** Buses and their trip state: the status of each bus, its route, and its
    single location row (coordinates, speed, heading and the stop pointer),
    updated by the location feed and by trip start and end. */
module Buses {
  import opened Common
  import opened Sorting
  import opened Mapbox
  import opened RouteStops

  datatype BusStatus = Active | Inactive | Maintenance

  function StatusName(s: BusStatus): string {
    match s
    case Active => "active"
    case Inactive => "inactive"
    case Maintenance => "maintenance"
  }

  /** The status names the API accepts. */
  function ParseStatus(name: string): (r: Option<BusStatus>)
    ensures r.Some? <==> name in {"active", "inactive", "maintenance"}
  {
    if name == "active" then Some(Active)
    else if name == "inactive" then Some(Inactive)
    else if name == "maintenance" then Some(Maintenance)
    else None
  }

  /** Names and statuses correspond one to one. */
  lemma StatusNameRoundTrip(s: BusStatus, name: string)
    ensures ParseStatus(StatusName(s)) == Some(s)
    ensures ParseStatus(name) == Some(s) ==> StatusName(s) == name
  {
  }

  datatype PatchStatusError = InvalidStatus

  /** The status field of a bus update: one of the three names, else 400. */
  function PatchStatus(name: string): (r: Result<BusStatus, PatchStatusError>)
    ensures r.Ok? <==> ParseStatus(name).Some?
    ensures r.Ok? ==> StatusName(r.value) == name
  {
    match ParseStatus(name)
    case Some(s) => Ok(s)
    case None => Err(InvalidStatus)
  }

  /** The status an ended trip leaves: the requested one if it is
      `inactive` or `maintenance`, otherwise (absent, null, anything else)
      `inactive`. Ending a trip never leaves a bus active. */
  function EndTripStatus(requested: Option<string>): (s: BusStatus)
    ensures s != Active
    ensures requested == Some("maintenance") <==> s == Maintenance
  {
    if requested == Some("maintenance") then Maintenance else Inactive
  }

  /** `min(max(x, lo), hi)`. */
  function Clamp(x: real, lo: real, hi: real): (r: real)
    requires lo <= hi
    ensures lo <= r <= hi
    ensures lo <= x <= hi ==> r == x
    ensures x < lo ==> r == lo
    ensures x > hi ==> r == hi
  {
    if x < lo then lo else if x > hi then hi else x
  }

  const MaxSpeed := 999.99
  const MaxHeading := 360.0
  const PassedEtaThreshold := 1.0

  /** `float(value or 0)` for an optional number: absent, null and zero are 0. */
  function OrZero(x: Option<real>): real {
    if x.Some? then x.value else 0.0
  }

  /** Python truthiness of an optional id: absent, null and 0 are false. */
  predicate Truthy(x: Option<int>) {
    x.Some? && x.value != 0
  }

  datatype Bus = Bus(status: BusStatus, routeId: Option<int>)

  datatype Location = Location(latitude: real, longitude: real, speed: real, heading: real, pointer: Option<int>)

  /** The row trip start writes: everything zero, pointer 0. */
  const TripStartLocation := Location(0.0, 0.0, 0.0, 0.0, Some(0))

  /** What the location feed may send for a route argument to trip start. */
  datatype RouteArg = Absent | Given(value: Option<int>)

  datatype LocationError = MissingCoordinates | BusNotFound | ServerError

  datatype TripError = TripBusNotFound | RouteRequired | InvalidRoute

  // ---------------------------------------------------------------------
  // The resolver call in the location feed.
  // ---------------------------------------------------------------------

  datatype CallError = UnexpectedKeyword(name: string)

  /** The parameters of `get_bus_position_on_route`. */
  const ResolverParameters := ["bus_location", "route_stops"]

  /** Binding keyword arguments to the resolver: each must name one of its
      parameters, else Python raises `TypeError`. */
  function BindResolverCall(keywords: seq<string>): (r: Result<(), CallError>)
    ensures r.Ok? <==> forall k :: k in keywords ==> k in ResolverParameters
    ensures r.Err? ==> r.error.name in keywords && r.error.name !in ResolverParameters
  {
    if keywords == [] then Ok(())
    else if keywords[0] !in ResolverParameters then Err(UnexpectedKeyword(keywords[0]))
    else BindResolverCall(keywords[1..])
  }

  /** The keywords the location feed passes. */
  const FeedKeywords := ["bus_location", "route_stops", "stop_seq"]

  /** The feed's call cannot bind: `stop_seq` is not a parameter. */
  lemma FeedCallRaises()
    ensures BindResolverCall(FeedKeywords) == Err(UnexpectedKeyword("stop_seq"))
  {
    assert FeedKeywords[1..] == ["route_stops", "stop_seq"];
    assert FeedKeywords[1..][1..] == ["stop_seq"];
  }

  // ---------------------------------------------------------------------
  // Bus detail: the next stop and its ETA.
  // ---------------------------------------------------------------------

  /** A stop of the bus's route as the detail view lists it. */
  datatype DetailStop = DetailStop(sequence: int, stopId: int, name: string, distanceFromPrev: Option<int>)

  datatype NextStop = NextStop(sequence: int, stopId: int, name: string, distanceMeters: Option<int>, etaMinutes: Option<real>)

  /** Index of the first stop numbered after `pointer`. */
  function FirstAfter(stops: seq<DetailStop>, pointer: int): (i: Option<nat>)
    ensures i.Some? ==> i.value < |stops| && stops[i.value].sequence > pointer
    ensures i.Some? ==> forall j :: 0 <= j < i.value ==> stops[j].sequence <= pointer
    ensures i.None? <==> forall j :: 0 <= j < |stops| ==> stops[j].sequence <= pointer
  {
    if stops == [] then None
    else if stops[0].sequence > pointer then Some(0)
    else match FirstAfter(stops[1..], pointer)
      case None => None
      case Some(k) => Some(k + 1)
  }

  /** The detail view's ETA to the next stop: its distance from the previous
      stop at the bus's speed, 30 km/h when the bus is stopped. A missing
      distance, a non-positive speed, and a computed 0 all give no ETA. */
  function DetailEta(distance: Option<int>, speed: real): (eta: Option<real>)
    ensures eta.Some? <==> distance.Some? && distance.value != 0 && speed >= 0.0
    ensures eta.Some? ==> eta.value == RoundTenth(distance.value as real / 1000.0 / (if speed == 0.0 then 30.0 else speed) * 60.0)
  {
    var averageSpeed := if speed == 0.0 then 30.0 else speed;
    if distance.None? || averageSpeed <= 0.0 then None
    else
      var eta := distance.value as real / 1000.0 / averageSpeed * 60.0;
      if eta == 0.0 then None else Some(RoundTenth(eta))
  }

  /** A stopped bus is given the same ETA as one at 30 km/h, and a faster
      bus never gets a later one. */
  lemma DetailEtaSpeed(distance: int, slow: real, fast: real)
    requires distance > 0 && 0.0 < slow <= fast
    ensures DetailEta(Some(distance), 0.0) == DetailEta(Some(distance), 30.0)
    ensures DetailEta(Some(distance), fast).value <= DetailEta(Some(distance), slow).value
  {
    var d := distance as real / 1000.0;
    assert d / fast <= d / slow by {
      assert d / fast * fast == d;
      assert d / slow * slow == d;
    }
    RoundTenthMonotone(d / fast * 60.0, d / slow * 60.0);
  }

  /** The search loop of the detail view: the first stop, in sequence
      order, numbered after the pointer; no pointer or no stops, no next
      stop. */
  method FindNextStop(pointer: Option<int>, speed: real, stops: seq<DetailStop>) returns (next: Option<NextStop>)
    ensures pointer.None? || FirstAfter(stops, pointer.value).None? ==> next.None?
    ensures pointer.Some? && FirstAfter(stops, pointer.value).Some? ==>
      var s := stops[FirstAfter(stops, pointer.value).value];
      next == Some(NextStop(s.sequence, s.stopId, s.name, s.distanceFromPrev, DetailEta(s.distanceFromPrev, speed)))
  {
    if pointer.None? || stops == [] {
      return None;
    }
    var found: Option<nat> := None;
    var i := 0;
    while i < |stops|
      invariant 0 <= i <= |stops|
      invariant found.None? ==> forall j :: 0 <= j < i ==> stops[j].sequence <= pointer.value
      invariant found.Some? ==> found == FirstAfter(stops, pointer.value)
      decreases |stops| - i
    {
      if stops[i].sequence > pointer.value {
        found := Some(i);
        FirstAfterIsFirst(stops, pointer.value, i);
        break;
      }
      i := i + 1;
    }
    if found.None? {
      return None;
    }
    var s := stops[found.value];
    next := Some(NextStop(s.sequence, s.stopId, s.name, s.distanceFromPrev, DetailEta(s.distanceFromPrev, speed)));
  }

  /** A stop numbered after the pointer with none before it is the one
      `FirstAfter` names. */
  lemma {:induction false} FirstAfterIsFirst(stops: seq<DetailStop>, pointer: int, i: nat)
    requires i < |stops| && stops[i].sequence > pointer
    requires forall j :: 0 <= j < i ==> stops[j].sequence <= pointer
    ensures FirstAfter(stops, pointer) == Some(i)
  {
    if i > 0 {
      FirstAfterIsFirst(stops[1..], pointer, i - 1);
    }
  }

  // ---------------------------------------------------------------------
  // The bus as the API formats it.
  // ---------------------------------------------------------------------

  /** A bus row joined with its route and latest location, as read. */
  datatype BusRow = BusRow(
    busId: int, status: BusStatus, routeId: Option<int>,
    routeName: Option<string>, routeCode: Option<string>, color: Option<string>,
    location: Option<Location>)

  datatype RouteSummary = RouteSummary(id: int, name: string, code: Option<string>, color: Option<string>)

  datatype BusView = BusView(
    id: int, status: string, routeId: Option<int>,
    route: Option<RouteSummary>, lastLocation: Option<Location>)

  /** The route summary appears only when the bus has a route id and the
      route a non-empty name; the location only when there is one, with a
      missing speed or heading shown as 0. */
  function FormatBus(row: BusRow): (v: BusView)
    ensures v.id == row.busId && v.status == StatusName(row.status) && v.routeId == row.routeId
    ensures v.route.Some? <==> Truthy(row.routeId) && row.routeName.Some? && row.routeName.value != ""
    ensures v.route.Some? ==> v.route.value == RouteSummary(row.routeId.value, row.routeName.value, row.routeCode, row.color)
    ensures v.lastLocation == row.location
  {
    var route :=
      if Truthy(row.routeId) && row.routeName.Some? && row.routeName.value != "" then
        Some(RouteSummary(row.routeId.value, row.routeName.value, row.routeCode, row.color))
      else None;
    BusView(row.busId, StatusName(row.status), row.routeId, route, row.location)
  }

  // ---------------------------------------------------------------------
  // The fleet: bus rows and their location rows.
  // ---------------------------------------------------------------------

  /** What tracking a fix along the bus's route leaves behind: without a
      route or stops the pointer is null and no flag changes; otherwise
      `points` are the route's stops in sequence order, the pointer is the
      resolver's current stop (within 1..N on a route numbered 1..N), and the
      stop it heads to is marked passed only when its ETA is under a
      minute. */
  ghost predicate TrackedOnRoute(net: Directions, hav: Haversine, route: Option<int>, bus: Coord,
                                 before: Rows, stops: map<int, Stop>, after: Rows,
                                 pointer: Option<int>, points: seq<StopPoint>)
    requires forall k :: k in before ==> before[k].stopId in stops
  {
    && (!Truthy(route) || RouteKeys(before, route.value) == {} ==>
          pointer.None? && after == before)
    && (Truthy(route) && RouteKeys(before, route.value) != {} ==>
          var p := Resolve(net, hav, bus, points);
          && SortedBy(points, SequenceKey)
          && |points| == |RouteKeys(before, route.value)|
          && (forall q :: q in points <==>
                exists k :: k in RouteKeys(before, route.value) && q == PointOf(before, stops, k))
          && pointer == Some(p.currentStopSequence)
          && (Dense(before, route.value) ==> 1 <= p.currentStopSequence <= |points|)
          && (p.etaToNext.Some? && p.etaToNext.value < PassedEtaThreshold ==>
                && (after == before || after == WithPassed(before, route.value, p.currentStopSequence))
                && ((forall k :: k in RouteKeys(before, route.value) && before[k].sequence == p.currentStopSequence
                       ==> !before[k].passed)
                    ==> after == WithPassed(before, route.value, p.currentStopSequence))
                && ((forall k :: k in RouteKeys(before, route.value) && before[k].sequence == p.currentStopSequence
                       ==> before[k].passed)
                    ==> after == before)
                && (Dense(before, route.value) ==> after == WithPassed(before, route.value, p.currentStopSequence)))
          && (!(p.etaToNext.Some? && p.etaToNext.value < PassedEtaThreshold) ==> after == before))
  }

  /** The resolver step of the location feed: read the route's stops in
      sequence order, resolve the pointer, and mark the target stop passed
      when it is under a minute away. */
  method TrackOnRoute(route: Option<int>, bus: Coord, net: Directions, hav: Haversine, table: RouteStopTable)
    returns (pointer: Option<int>, ghost points: seq<StopPoint>)
    requires table.Valid()
    modifies table
    ensures table.Valid()
    ensures table.routes == old(table.routes) && table.stops == old(table.stops) && table.nextId == old(table.nextId)
    ensures TrackedOnRoute(net, hav, route, bus, old(table.rows), table.stops, table.rows, pointer, points)
  {
    pointer, points := None, [];
    if Truthy(route) {
      var stops := table.StopsOf(route.value);
      points := stops;
      if stops != [] {
        var position := ResolvePosition(net, hav, bus, stops);
        pointer := Some(position.currentStopSequence);
        if Dense(table.rows, route.value) {
          ResolveOnDenseRoute(net, hav, bus, stops);
        }
        if position.etaToNext.Some? && position.etaToNext.value < PassedEtaThreshold {
          table.MarkPassed(route.value, position.currentStopSequence);
        }
      }
    }
  }

  class Fleet {
    var buses: map<int, Bus>
    /** One location row per bus. */
    var locations: map<int, Location>

    predicate Valid()
      reads this
    {
      locations.Keys <= buses.Keys
    }

    constructor(buses: map<int, Bus>)
      ensures Valid() && this.buses == buses && locations == map[]
    {
      this.buses := buses;
      locations := map[];
    }

    /** A location report, with the resolver called as intended (without
        the `stop_seq` keyword). Missing coordinates give 400, a bus without
        a location row 404, both with nothing changed. Otherwise speed and
        heading are clamped, the pointer is the resolver's current stop when
        the bus has a route with stops (else null), the stop it is heading
        to is marked passed when its ETA is under one minute, and the
        location row is replaced. */
    method UpdateLocation(busId: int, latitude: Option<real>, longitude: Option<real>,
                          speed: Option<real>, heading: Option<real>,
                          net: Directions, hav: Haversine, table: RouteStopTable)
      returns (res: Result<Location, LocationError>, ghost points: seq<StopPoint>)
      requires Valid() && table.Valid()
      modifies this, table
      ensures Valid() && table.Valid()
      ensures buses == old(buses)
      ensures table.routes == old(table.routes) && table.stops == old(table.stops) && table.nextId == old(table.nextId)
      ensures latitude.None? || longitude.None? ==>
        res == Err(MissingCoordinates) && locations == old(locations) && table.rows == old(table.rows)
      ensures latitude.Some? && longitude.Some? && busId !in old(locations) ==>
        res == Err(BusNotFound) && locations == old(locations) && table.rows == old(table.rows)
      ensures latitude.Some? && longitude.Some? && busId in old(locations) ==>
        var route := buses[busId].routeId;
        && res.Ok?
        && locations == old(locations)[busId := res.value]
        && res.value.latitude == latitude.value && res.value.longitude == longitude.value
        && res.value.speed == Clamp(OrZero(speed), 0.0, MaxSpeed)
        && res.value.heading == Clamp(OrZero(heading), 0.0, MaxHeading)
        && TrackedOnRoute(net, hav, route, Coord(latitude.value, longitude.value), old(table.rows), table.stops,
                          table.rows, res.value.pointer, points)
    {
      points := [];
      if latitude.None? || longitude.None? {
        return Err(MissingCoordinates), points;
      }
      if busId !in locations {
        return Err(BusNotFound), points;
      }
      var clampedSpeed := Clamp(OrZero(speed), 0.0, MaxSpeed);
      var clampedHeading := Clamp(OrZero(heading), 0.0, MaxHeading);
      var pointer;
      pointer, points := TrackOnRoute(buses[busId].routeId, Coord(latitude.value, longitude.value), net, hav, table);
      var location := Location(latitude.value, longitude.value, clampedSpeed, clampedHeading, pointer);
      locations := locations[busId := location];
      res := Ok(location);
    }

    /** The location report as written: the resolver is called with a
        `stop_seq` keyword it does not take, so for every bus whose route
        has stops the request fails before anything is written. */
    method UpdateLocationAsWritten(busId: int, latitude: Option<real>, longitude: Option<real>,
                                   speed: Option<real>, heading: Option<real>, table: RouteStopTable)
      returns (res: Result<Location, LocationError>)
      requires Valid() && table.Valid()
      modifies this
      ensures Valid() && buses == old(buses)
      ensures latitude.Some? && longitude.Some? && busId in old(locations)
              && Truthy(buses[busId].routeId) && RouteKeys(table.rows, buses[busId].routeId.value) != {} ==>
        res == Err(ServerError) && locations == old(locations)
      ensures res.Ok? ==> res.value.pointer.None? && locations == old(locations)[busId := res.value]
      ensures res.Err? ==> locations == old(locations)
    {
      if latitude.None? || longitude.None? {
        return Err(MissingCoordinates);
      }
      if busId !in locations {
        return Err(BusNotFound);
      }
      var clampedSpeed := Clamp(OrZero(speed), 0.0, MaxSpeed);
      var clampedHeading := Clamp(OrZero(heading), 0.0, MaxHeading);
      var route := buses[busId].routeId;
      if Truthy(route) {
        var stops := table.StopsOf(route.value);
        if stops != [] {
          var call := BindResolverCall(FeedKeywords);
          FeedCallRaises();
          if call.Err? {
            return Err(ServerError);
          }
        }
      }
      var location := Location(latitude.value, longitude.value, clampedSpeed, clampedHeading, None);
      locations := locations[busId := location];
      res := Ok(location);
    }

    /** Trip start: the route is the requested one, else the bus's own; a
        falsy or unknown route is refused with nothing changed. Otherwise
        the bus becomes active on that route, its location row is reset to
        zeros with pointer 0, and every passed flag of the route is cleared. */
    method StartTrip(busId: int, routeArg: RouteArg, table: RouteStopTable) returns (res: Result<int, TripError>)
      requires Valid() && table.Valid()
      modifies this, table
      ensures Valid() && table.Valid()
      ensures table.routes == old(table.routes) && table.stops == old(table.stops) && table.nextId == old(table.nextId)
      ensures busId !in old(buses) ==>
        res == Err(TripBusNotFound) && buses == old(buses) && locations == old(locations) && table.rows == old(table.rows)
      ensures busId in old(buses) ==>
        var route := if routeArg.Absent? then old(buses)[busId].routeId else routeArg.value;
        && (!Truthy(route) ==>
              res == Err(RouteRequired) && buses == old(buses) && locations == old(locations) && table.rows == old(table.rows))
        && (Truthy(route) && route.value !in table.routes ==>
              res == Err(InvalidRoute) && buses == old(buses) && locations == old(locations) && table.rows == old(table.rows))
        && (Truthy(route) && route.value in table.routes ==>
              && res == Ok(route.value)
              && buses == old(buses)[busId := Bus(Active, route)]
              && locations == old(locations)[busId := TripStartLocation]
              && table.rows == WithFlagsCleared(old(table.rows), route.value))
    {
      if busId !in buses {
        return Err(TripBusNotFound);
      }
      var route := if routeArg.Absent? then buses[busId].routeId else routeArg.value;
      if !Truthy(route) {
        return Err(RouteRequired);
      }
      if route.value !in table.routes {
        return Err(InvalidRoute);
      }
      buses := buses[busId := Bus(Active, route)];
      locations := locations[busId := TripStartLocation];
      table.ResetPassed(route.value);
      res := Ok(route.value);
    }

    /** Trip end: the bus takes the requested status when it is `inactive`
        or `maintenance`, else `inactive`; speed and heading of its location
        row become 0; coordinates, pointer and passed flags stay. */
    method EndTrip(busId: int, requested: Option<string>) returns (res: Result<BusStatus, TripError>)
      requires Valid()
      modifies this
      ensures Valid()
      ensures busId !in old(buses) ==> res == Err(TripBusNotFound) && buses == old(buses) && locations == old(locations)
      ensures busId in old(buses) ==>
        && res == Ok(EndTripStatus(requested))
        && buses == old(buses)[busId := old(buses)[busId].(status := EndTripStatus(requested))]
        && (busId in old(locations) ==>
              locations == old(locations)[busId := old(locations)[busId].(speed := 0.0, heading := 0.0)])
        && (busId !in old(locations) ==> locations == old(locations))
    {
      if busId !in buses {
        return Err(TripBusNotFound);
      }
      var status := EndTripStatus(requested);
      buses := buses[busId := buses[busId].(status := status)];
      if busId in locations {
        locations := locations[busId := locations[busId].(speed := 0.0, heading := 0.0)];
      }
      res := Ok(status);
    }
  }
}
