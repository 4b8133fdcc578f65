/** The display-unit views: status and name rules for a display, and the
    list of upcoming buses a display at a stop shows, with each bus's ETA
    (live first, straight-line fallback second), its arrival class and the
    list sorted by ETA. */
module Displays {
  import opened Common
  import opened Sorting
  import opened Mapbox
  import opened RouteStops
  import opened Buses

  // ---------------------------------------------------------------------
  // Display status and name.
  // ---------------------------------------------------------------------

  datatype DisplayStatus = Online | Offline | Error

  function DisplayStatusName(s: DisplayStatus): string {
    match s
    case Online => "online"
    case Offline => "offline"
    case Error => "error"
  }

  const DisplayStatusNames := {"online", "offline", "error"}

  function ParseDisplayStatus(name: string): (r: Option<DisplayStatus>)
    ensures r.Some? <==> name in DisplayStatusNames
    ensures r.Some? ==> DisplayStatusName(r.value) == name
  {
    if name == "online" then Some(Online)
    else if name == "offline" then Some(Offline)
    else if name == "error" then Some(Error)
    else None
  }

  /** Every status survives printing and reading back. */
  lemma DisplayStatusRoundTrip(s: DisplayStatus)
    ensures ParseDisplayStatus(DisplayStatusName(s)) == Some(s)
  {
  }

  /** On create a missing or unknown status becomes "offline". */
  function CreateStatus(requested: Option<string>): (s: DisplayStatus)
    ensures requested.Some? && requested.value in DisplayStatusNames ==> DisplayStatusName(s) == requested.value
    ensures requested.None? || requested.value !in DisplayStatusNames ==> s == Offline
  {
    if requested.Some? && ParseDisplayStatus(requested.value).Some? then ParseDisplayStatus(requested.value).value
    else Offline
  }

  /** A heartbeat's missing or unknown status becomes "online". */
  function HeartbeatStatus(requested: Option<string>): (s: DisplayStatus)
    ensures requested.Some? && requested.value in DisplayStatusNames ==> DisplayStatusName(s) == requested.value
    ensures requested.None? || requested.value !in DisplayStatusNames ==> s == Online
  {
    if requested.Some? && ParseDisplayStatus(requested.value).Some? then ParseDisplayStatus(requested.value).value
    else Online
  }

  datatype DisplayPatchError = InvalidDisplayStatus

  /** A patch that names a status must name a known one (400 otherwise). */
  function PatchDisplayStatus(name: string): (r: Result<DisplayStatus, DisplayPatchError>)
    ensures r.Ok? <==> name in DisplayStatusNames
    ensures r.Ok? ==> DisplayStatusName(r.value) == name
  {
    match ParseDisplayStatus(name)
    case Some(s) => Ok(s)
    case None => Err(InvalidDisplayStatus)
  }

  /** Python's `str.isspace` on ASCII: tab, line feed, vertical tab, form
      feed, carriage return, the four separators 0x1C-0x1F, and space. */
  predicate IsSpace(c: char) {
    c == ' ' || 9 <= c as int <= 13 || 28 <= c as int <= 31
  }

  function LStrip(s: string): (t: string)
    ensures |t| <= |s| && t == s[|s| - |t|..]
    ensures forall i :: 0 <= i < |s| - |t| ==> IsSpace(s[i])
    ensures t == [] || !IsSpace(t[0])
  {
    if s != [] && IsSpace(s[0]) then LStrip(s[1..]) else s
  }

  function RStrip(s: string): (t: string)
    ensures |t| <= |s| && t == s[..|t|]
    ensures forall i :: |t| <= i < |s| ==> IsSpace(s[i])
    ensures t == [] || !IsSpace(t[|t| - 1])
  {
    if s != [] && IsSpace(s[|s| - 1]) then RStrip(s[..|s| - 1]) else s
  }

  /** Python's `str.strip()`. */
  function Strip(s: string): string {
    RStrip(LStrip(s))
  }

  /** The name rule shared by create: present, non-empty, and at least two
      characters once surrounding white space is removed. */
  predicate NameAccepted(name: Option<string>) {
    name.Some? && name.value != [] && |Strip(name.value)| >= 2
  }

  /** `s` holds two non-space characters. */
  predicate TwoVisible(s: string) {
    exists i, j :: 0 <= i < j < |s| && !IsSpace(s[i]) && !IsSpace(s[j])
  }

  /** A name passes exactly when it holds two non-space characters. */
  lemma NameAcceptedIff(name: string)
    ensures NameAccepted(Some(name)) <==> TwoVisible(name)
  {
    if |Strip(name)| >= 2 {
      StrippedGivesTwoVisible(name);
    }
    if TwoVisible(name) {
      var i, j :| 0 <= i < j < |name| && !IsSpace(name[i]) && !IsSpace(name[j]);
      TwoVisibleSurviveStrip(name, i, j);
    }
  }

  lemma StrippedGivesTwoVisible(name: string)
    requires |Strip(name)| >= 2
    ensures TwoVisible(name)
  {
    var l := LStrip(name);
    var t := RStrip(l);
    var a := |name| - |l|;
    assert name[a] == l[0] == t[0];
    assert name[a + |t| - 1] == l[|t| - 1] == t[|t| - 1];
  }

  lemma TwoVisibleSurviveStrip(name: string, i: int, j: int)
    requires 0 <= i < j < |name| && !IsSpace(name[i]) && !IsSpace(name[j])
    ensures |Strip(name)| >= 2
  {
    var l := LStrip(name);
    var t := RStrip(l);
    var a := |name| - |l|;
    assert l == name[a..];
    assert name[j] == l[j - a];
    assert Strip(name) == t;
  }

  datatype DisplayStopError = DisplayStopRequired | DisplayStopMissing

  datatype DisplayFieldErrors = DisplayFieldErrors(nameInvalid: bool, stop: Option<DisplayStopError>)

  /** Validation on create: both fields are checked and every failure is
      reported together; the stop id must be truthy and name a stop. */
  function CreateDisplayErrors(name: Option<string>, stopId: Option<int>, stops: map<int, Stop>): (e: Option<DisplayFieldErrors>)
    ensures e.None? <==> NameAccepted(name) && Truthy(stopId) && stopId.value in stops
    ensures e.Some? ==>
      && (e.value.nameInvalid <==> !NameAccepted(name))
      && (e.value.stop == Some(DisplayStopRequired) <==> !Truthy(stopId))
      && (e.value.stop == Some(DisplayStopMissing) <==> Truthy(stopId) && stopId.value !in stops)
  {
    var stopError :=
      if !Truthy(stopId) then Some(DisplayStopRequired)
      else if stopId.value !in stops then Some(DisplayStopMissing)
      else None;
    if !NameAccepted(name) || stopError.Some? then Some(DisplayFieldErrors(!NameAccepted(name), stopError))
    else None
  }

  // ---------------------------------------------------------------------
  // Upcoming buses at a display's stop.
  // ---------------------------------------------------------------------

  datatype ArrivalStatus = Arrived | Arriving | Approaching | OnRoute

  /** How near a class is to the stop: 0 for arrived up to 3 for on-route. */
  function Rank(a: ArrivalStatus): nat {
    match a
    case Arrived => 0
    case Arriving => 1
    case Approaching => 2
    case OnRoute => 3
  }

  datatype Classified = Classified(status: ArrivalStatus, etaMinutes: real, distanceMeters: real)

  /** The four-way arrival class. Within 150 m the bus has arrived and its
      ETA and distance are reported as 0; otherwise the ETA decides. */
  function Classify(e: Eta): (c: Classified)
    ensures c.status == Arrived <==> e.distanceMeters <= AtStopThreshold
    ensures c.status == Arrived ==> c.etaMinutes == 0.0 && c.distanceMeters == 0.0
    ensures c.status != Arrived ==> c.etaMinutes == e.etaMinutes && c.distanceMeters == e.distanceMeters
    ensures c.status == Arriving ==> e.etaMinutes <= 1.0
    ensures c.status == Approaching ==> 1.0 < e.etaMinutes <= 3.0
    ensures c.status == OnRoute ==> 3.0 < e.etaMinutes
  {
    if e.distanceMeters <= AtStopThreshold then Classified(Arrived, 0.0, 0.0)
    else if e.etaMinutes <= 1.0 then Classified(Arriving, e.etaMinutes, e.distanceMeters)
    else if e.etaMinutes <= 3.0 then Classified(Approaching, e.etaMinutes, e.distanceMeters)
    else Classified(OnRoute, e.etaMinutes, e.distanceMeters)
  }

  /** Beyond the stop, a later ETA never gives a nearer class. */
  lemma ClassifyMonotone(e1: Eta, e2: Eta)
    requires e1.distanceMeters > AtStopThreshold && e2.distanceMeters > AtStopThreshold
    requires e1.etaMinutes <= e2.etaMinutes
    ensures 1 <= Rank(Classify(e1).status) <= Rank(Classify(e2).status)
  {
  }

  /** Python truthiness of a stored pointer: null counts as 0. */
  function PointerOrZero(p: Option<int>): int {
    if p.Some? then p.value else 0
  }

  /** Falsy coordinates (null or 0) mean the bus is skipped. */
  predicate HasFix(loc: Location) {
    loc.latitude != 0.0 && loc.longitude != 0.0
  }

  function BusCoord(loc: Location): Coord {
    Coord(loc.latitude, loc.longitude)
  }

  /** The speed the rider views assume: the bus's own when positive, else
      25 km/h. */
  function AssumedSpeed(speed: real): (s: real)
    ensures s > 0.0
    ensures speed > 0.0 ==> s == speed
    ensures speed <= 0.0 ==> s == DefaultSpeedKmh
  {
    if speed > 0.0 then speed else DefaultSpeedKmh
  }

  /** The ETA a display shows: the live one, or the fallback when the
      directions service fails. */
  function LiveOrFallbackEta(net: Directions, hav: Haversine, from: Coord, to: Coord, speed: real): (r: Eta)
    ensures GetEtaToStop(net, from, to).Some? ==> r == GetEtaToStop(net, from, to).value
    ensures GetEtaToStop(net, from, to).None? ==> r == FallbackEta(hav, from, to, AssumedSpeed(speed))
  {
    match GetEtaToStop(net, from, to)
    case Some(e) => e
    case None => FallbackEta(hav, from, to, AssumedSpeed(speed))
  }

  /** For each route through a stop, the stop's sequence on it. */
  function RouteSequencesAt(rows: Rows, stopId: int): (m: map<int, int>)
    requires UniquePairs(rows)
    ensures forall r :: r in m <==> exists k :: k in rows && rows[k].stopId == stopId && rows[k].routeId == r
    ensures forall k :: k in rows && rows[k].stopId == stopId ==> m[rows[k].routeId] == rows[k].sequence
  {
    map k | k in rows && rows[k].stopId == stopId :: rows[k].routeId := rows[k].sequence
  }

  /** The location row of a bus, if it has one (the query's left join). */
  function LocationOf(locations: map<int, Location>, busId: int): Option<Location> {
    if busId in locations then Some(locations[busId]) else None
  }

  /** The display lists an active bus on a route through its stop when the
      bus has a fix and its pointer is not beyond the stop: a bus whose
      pointer equals the stop's sequence is at the stop and still listed. */
  predicate ListedAtDisplay(seqs: map<int, int>, bus: Bus, loc: Option<Location>) {
    && bus.status == Active
    && bus.routeId.Some? && bus.routeId.value in seqs
    && loc.Some? && HasFix(loc.value)
    && PointerOrZero(loc.value.pointer) <= seqs[bus.routeId.value]
  }

  datatype UpcomingBus = UpcomingBus(busId: int, routeId: int, etaMinutes: real, distanceMeters: real, status: ArrivalStatus)

  function EtaKey(b: UpcomingBus): real { b.etaMinutes }

  function DisplayEntry(net: Directions, hav: Haversine, stop: Coord, busId: int, routeId: int, loc: Location): (b: UpcomingBus)
    ensures b.busId == busId && b.routeId == routeId
    ensures b.status == Arrived <==> LiveOrFallbackEta(net, hav, BusCoord(loc), stop, loc.speed).distanceMeters <= AtStopThreshold
  {
    var c := Classify(LiveOrFallbackEta(net, hav, BusCoord(loc), stop, loc.speed));
    UpcomingBus(busId, routeId, c.etaMinutes, c.distanceMeters, c.status)
  }

  /** The entries the display loop appends, in the order the buses come. */
  function DisplayCandidates(net: Directions, hav: Haversine, stop: Coord, seqs: map<int, int>,
                             buses: map<int, Bus>, locations: map<int, Location>, ids: seq<int>): (r: seq<UpcomingBus>)
    ensures forall b :: b in r ==> b.busId in ids
    ensures forall id {:trigger ListsBus(r, id)} :: ListsBus(r, id) <==>
      id in ids && id in buses && ListedAtDisplay(seqs, buses[id], LocationOf(locations, id))
  {
    if ids == [] then []
    else
      var init := ids[..|ids| - 1];
      var id := ids[|ids| - 1];
      var rest := DisplayCandidates(net, hav, stop, seqs, buses, locations, init);
      assert forall x :: x in ids <==> x in init || x == id;
      if id in buses && ListedAtDisplay(seqs, buses[id], LocationOf(locations, id)) then
        var r := rest + [DisplayEntry(net, hav, stop, id, buses[id].routeId.value, locations[id])];
        assert forall x :: ListsBus(r, x) <==> ListsBus(rest, x) || x == id by {
          forall x ensures ListsBus(r, x) <==> ListsBus(rest, x) || x == id {
            if ListsBus(r, x) {
              var i :| 0 <= i < |r| && r[i].busId == x;
              if i < |rest| { assert rest[i] == r[i]; }
            }
            if ListsBus(rest, x) {
              var i :| 0 <= i < |rest| && rest[i].busId == x;
              assert r[i] == rest[i];
            }
            if x == id { assert r[|rest|].busId == id; }
          }
        }
        r
      else rest
  }

  /** Some entry of `r` is about bus `busId`. */
  predicate ListsBus(r: seq<UpcomingBus>, busId: int) {
    exists i :: 0 <= i < |r| && r[i].busId == busId
  }

  /** The same buses are listed before and after sorting. */
  lemma SortKeepsListedBuses(r: seq<UpcomingBus>)
    ensures forall id :: ListsBus(SortBy(r, EtaKey), id) <==> ListsBus(r, id)
  {
    var s := SortBy(r, EtaKey);
    SortedMembership(r, EtaKey);
    forall id ensures ListsBus(s, id) <==> ListsBus(r, id) {
      if ListsBus(s, id) {
        var i :| 0 <= i < |s| && s[i].busId == id;
        assert s[i] in r;
      }
      if ListsBus(r, id) {
        var i :| 0 <= i < |r| && r[i].busId == id;
        assert r[i] in s;
      }
    }
  }

  /** The display loop over the buses the query returns, then the sort by
      ETA. */
  method UpcomingBuses(net: Directions, hav: Haversine, stop: Coord, seqs: map<int, int>,
                       buses: map<int, Bus>, locations: map<int, Location>, ids: seq<int>)
    returns (r: seq<UpcomingBus>)
    ensures r == SortBy(DisplayCandidates(net, hav, stop, seqs, buses, locations, ids), EtaKey)
    ensures SortedBy(r, EtaKey)
    ensures forall id :: ListsBus(r, id) <==>
      id in ids && id in buses && ListedAtDisplay(seqs, buses[id], LocationOf(locations, id))
  {
    var upcoming: seq<UpcomingBus> := [];
    for i := 0 to |ids|
      invariant upcoming == DisplayCandidates(net, hav, stop, seqs, buses, locations, ids[..i])
    {
      assert ids[..i + 1][..i] == ids[..i];
      var id := ids[i];
      if id in buses && ListedAtDisplay(seqs, buses[id], LocationOf(locations, id)) {
        var loc := locations[id];
        var c := Classify(LiveOrFallbackEta(net, hav, BusCoord(loc), stop, loc.speed));
        upcoming := upcoming + [UpcomingBus(id, buses[id].routeId.value, c.etaMinutes, c.distanceMeters, c.status)];
      }
    }
    assert ids[..|ids|] == ids;
    SortKeepsListedBuses(upcoming);
    r := SortBy(upcoming, EtaKey);
  }

  /** A stop on no route shows no buses. */
  lemma {:induction false} NoRouteNoBuses(net: Directions, hav: Haversine, stop: Coord,
                                          buses: map<int, Bus>, locations: map<int, Location>, ids: seq<int>)
    ensures DisplayCandidates(net, hav, stop, map[], buses, locations, ids) == []
  {
    if ids != [] {
      NoRouteNoBuses(net, hav, stop, buses, locations, ids[..|ids| - 1]);
    }
  }

  /** A bus just put on a trip (its row reset to 0/0) is not shown. */
  lemma TripStartNotListed(seqs: map<int, int>, bus: Bus)
    ensures !ListedAtDisplay(seqs, bus, Some(TripStartLocation))
  {
  }

  datatype ContentError = DisplayNotFound

  /** The content of display `displayId`: 404 unless the display and its
      stop exist; otherwise the upcoming buses of every route through the
      stop, sorted by ETA. `order` is the order the bus query returns the
      buses in. */
  method DisplayContent(displays: map<int, int>, displayId: int, table: RouteStopTable, fleet: Fleet,
                        net: Directions, hav: Haversine)
    returns (res: Result<seq<UpcomingBus>, ContentError>, ghost order: seq<int>)
    requires table.Valid()
    ensures NoDuplicates(order)
    ensures res.Err? <==> displayId !in displays || displays[displayId] !in table.stops
    ensures res.Ok? ==>
      var stopId := displays[displayId];
      var seqs := RouteSequencesAt(table.rows, stopId);
      && res.value == SortBy(DisplayCandidates(net, hav, table.stops[stopId].location, seqs,
                                               fleet.buses, fleet.locations, order), EtaKey)
      && SortedBy(res.value, EtaKey)
      && forall id :: ListsBus(res.value, id) <==>
           id in fleet.buses && ListedAtDisplay(seqs, fleet.buses[id], LocationOf(fleet.locations, id))
  {
    if displayId !in displays || displays[displayId] !in table.stops {
      return Err(DisplayNotFound), [];
    }
    var stopId := displays[displayId];
    var seqs := RouteSequencesAt(table.rows, stopId);
    var ids := Enumerate(fleet.buses.Keys);
    assert forall id :: id in ids <==> id in fleet.buses by {
      forall id ensures id in ids <==> id in fleet.buses {
        assert id in ids <==> id in (set j | j in ids);
      }
    }
    var upcoming := UpcomingBuses(net, hav, table.stops[stopId].location, seqs, fleet.buses, fleet.locations, ids);
    return Ok(upcoming), ids;
  }
}
