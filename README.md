# Smart Bus System: position, ETA and route-stop model in Dafny

This project models the core of the Smart Bus System backend, a Django service
that tracks city buses and tells riders when the next bus will come. It covers
five parts:

- **Distance provider** (`api/mapbox.py`): the directions-service calls. Each
  one gives a live distance and duration, or nothing when the service fails.
  The straight-line fallback is 1.3 times the great-circle distance at an
  assumed speed. The multi-stop call builds cumulative legs.
- **Position resolver** (`get_bus_position_on_route`): finds the stop on the
  bus's route that the bus is at or heading to.
- **Bus trip state** (`api/views_buses.py`): one location row per bus, holding
  coordinates, speed, heading and a stop pointer. The location feed updates
  it, marks stops passed when the ETA drops under a minute, and trip start and
  end reset it. The bus detail view computes the next stop and its ETA.
- **Rider views** (`api/views_displays.py`, `api/views_etas.py`):
  - a display at a stop lists upcoming buses, classified and sorted by ETA;
  - a stop lists approaching buses;
  - a route lists, for each bus, the cumulative ETA to every stop ahead;
  - a display's status and name follow fixed rules.
- **Route maintenance** (`api/views_routes.py`):
  - inserting, removing and reordering the stops of a route, which renumbers
    the `route_stops` table;
  - the field rules for creating and patching routes;
  - the refusal to delete a route that has buses.

Modelling choices:

- **External calls.** The directions service is a total function from
  waypoints to a reply (`Mapbox.Directions`). Every failure (network error,
  bad status, missing field, exception) is a reply without usable routes. The
  great-circle distance is any non-negative function (`Common.Haversine`).
- **Rounding.** Python's `round` is round-half-even on exact reals.
- **Tables.** Tables are maps keyed by their ids.
  - Objects the views update in place are classes:
    - `RouteStops.RouteStopTable` holds `routes`, `stops` and `route_stops`;
    - `Buses.Fleet` holds `buses` and `bus_locations`.
  - Their methods state the whole new state in terms of specification
    functions.
  - The route record checks of `api/views_routes.py` and the display status
    and name checks are functions.
- **Query order.** The order in which an SQL query returns rows is a ghost
  output (`order`) of the view methods.

Modules: `Common` (`common.dfy`), `Sorting` (`sorting.dfy`), `Mapbox`
(`mapbox.dfy`), `RouteStops` (`route_stops.dfy`), `Buses` (`buses.dfy`),
`Displays` (`displays.dfy`), `Etas` (`etas.dfy`), `Routes` (`routes.dfy`).

Facts of the code that shape the model:

- The at-stop radius is 150 m (`api/mapbox.py:338-339`).
- The resolver takes no stored pointer. Its parameters are only the bus
  location and the route's stops (`api/mapbox.py:275-278`).
- The multi-stop ETA call returns an empty list when there are no stops or
  the service fails, with no straight-line fallback (`api/mapbox.py:205-214`).
- The location feed looks the bus up without a status condition
  (`api/views_buses.py:447-457`).

## Model

| member | source | states |
|---|---|---|
| Common.RoundHalfEven | api/mapbox.py:67-68 | Python `round`: the result is within one half of the input, and an exact tie goes to the even integer |
| Common.RoundTenth | api/mapbox.py:69 | `round(x, 1)`: the result is a whole number of tenths within 0.05 of the input |
| Common.RoundHalfEvenMonotone | api/mapbox.py:67-68 | rounding never reverses the order of two values |
| Common.RoundTenthMonotone | api/mapbox.py:268-271 | rounding to one decimal never reverses the order of two values |
| Common.RoundOfNonNegative | api/mapbox.py:268-271 | a non-negative value rounds to a non-negative result, in both roundings |
| Sorting.SortBy | api/mapbox.py:307 | `sorted(..., key=...)`: the result is a permutation of the input (same multiset, same length) in ascending key order |
| Sorting.InsertBy | api/mapbox.py:307 | one insertion step adds exactly the new element and keeps a sorted list sorted |
| Sorting.SortedMembership | api/views_displays.py:420 | sorting keeps exactly the same elements |
| Sorting.SortByOfSorted | api/views_buses.py:483-497 | sorting a list already in key order returns it unchanged |
| Sorting.SortByKeepsDistinctKeys | api/mapbox.py:307 | sorting keeps distinct keys distinct |
| Sorting.InsertKeepsDistinctKeys | api/mapbox.py:307 | inserting an element with a fresh key keeps keys distinct |
| Mapbox.GetRouteInfo | api/mapbox.py:24-81 | the result is present exactly when the reply is usable (code 'Ok', a non-empty route list, distance and duration present); then distance and duration are rounded and minutes are `round(duration/60, 1)` |
| Mapbox.GetEtaToStop | api/mapbox.py:167-188 | present exactly when the route query is, carrying its rounded distance and its minutes |
| Mapbox.FallbackEta | api/mapbox.py:251-272 | distance is `round(1.3·h)` and ETA is `round((1.3·h/1000)/speed·60, 1)` for the great-circle distance h |
| Mapbox.FallbackEtaBounds | api/mapbox.py:264-271 | the fallback distance lies between h−0.5 and 1.3·h+0.5, and its ETA is never negative |
| Mapbox.FallbackEtaFasterIsSooner | api/mapbox.py:266 | a higher assumed speed never gives a later fallback ETA |
| Mapbox.Truncated | api/mapbox.py:103-104 | at most the first 25 waypoints are sent, as a prefix of the input, all of them when there are 25 or fewer |
| Mapbox.GetMultiStopRoute | api/mapbox.py:84-164 | fewer than 2 waypoints gives None; otherwise the result is the multi-route built from the service's reply to the truncated waypoints, with leg i carrying the sums of legs 0..i |
| Mapbox.DistanceSumMonotone | api/mapbox.py:139-140 | with non-negative legs, the running distance never decreases |
| Mapbox.DurationSumMonotone | api/mapbox.py:139-140 | with non-negative legs, the running duration never decreases |
| Mapbox.CumulativeLegsNonDecreasing | api/mapbox.py:131-147 | leg i has index i, and its cumulative distance, duration and minutes are at most those of any later leg |
| Mapbox.GetEtasToMultipleStops | api/mapbox.py:191-227 | no stops or a failed call gives []; otherwise one entry per stop up to the number of legs, entry i carrying stop i's id and name and leg i's cumulative minutes and distance |
| Mapbox.DistanceTo | api/mapbox.py:310-333 | the distance to a stop is the live distance when the service answers, else 1.3 times the great-circle distance (not negative) |
| Mapbox.FirstMin | api/mapbox.py:336 | `min` by distance: an index of least distance, and every earlier entry is strictly farther |
| Mapbox.FirstWithSequence | api/mapbox.py:361 | the first index whose stop has the given sequence number |
| Mapbox.ResolvePosition | api/mapbox.py:275-411 | the resolver loop computes exactly `Resolve` (sort, one distance per stop, branch selection) |
| Mapbox.ResolveNoStops | api/mapbox.py:296-304 | an empty route gives last passed 0, next 1, not at a stop, pointer 1, and no distance or ETA |
| Mapbox.PositionAtStop | api/mapbox.py:339-350 | the bus is at a stop exactly when the nearest stop is within 150 m; then pointer and last passed are its sequence, distance and ETA are 0, and next is the following sequence unless the nearest's sequence reaches the stop count |
| Mapbox.ResolveAtStop | api/mapbox.py:339-350 | the same at-stop facts for the resolver on any stop list |
| Mapbox.DistancesKeepSequences | api/mapbox.py:310-333 | the distance list keeps each stop's sequence, so distinct sequences stay distinct |
| Mapbox.PositionTargetsNearest | api/mapbox.py:361-411 | with distinct sequences the pointer is always the nearest stop's sequence; when not at a stop the bus heads to it, with last passed 0 for the first stop and the previous stop's sequence otherwise; the branch for a passed nearest stop is unreachable |
| Mapbox.SortedDenseIsIdentity | api/views_routes.py:381-397 | sorted distinct sequence numbers drawn from 1..N, N of them, are exactly 1..N in order |
| Mapbox.PositionOnDenseRoute | api/mapbox.py:339-411 | on a route numbered 1..N the pointer is in 1..N; between stops last passed is the pointer minus 1 and next is the pointer; at a stop next is the pointer plus 1, or N at the end |
| Mapbox.ResolveOnDenseRoute | api/mapbox.py:275-411 | the same for the resolver on any ordering of a 1..N route |
| Mapbox.TwoStopResolve | api/mapbox.py:307-361 | on a two-stop route with the service down, the pointer is the stop strictly nearer in a straight line, the first one on a tie |
| Mapbox.PointerCanMoveBackwards | api/views_buses.py:500-506 | the resolver takes no pointer: with the service down, a bus reporting from stop 2 and then from stop 1 gets pointer 2 and then 1 |
| Mapbox.HasBusPassedStop | api/mapbox.py:414-460 | passed exactly when bus→stop plus stop→next exceeds 1.5 times bus→next, with live distances when all three calls answer and great-circle distances otherwise |
| Mapbox.PassedOnStraightLine | api/mapbox.py:454-460 | on the fallback path a stop lying on the way to the next stop is never passed, and one left behind by more than a quarter of the way is |
| RouteStops.Inserted | api/views_routes.py:381-397 | insert at n: every stop of the route numbered n or more moves up by one, the new row takes n with no distance, every other row is unchanged |
| RouteStops.Removed | api/views_routes.py:448-461 | the row is gone and every later stop of its route moves down by one; nothing else changes |
| RouteStops.LastIndex | api/views_routes.py:515-519 | the last position of an id in the list |
| RouteStops.Reordered | api/views_routes.py:515-519 | every row keeps its route and stop; a listed row takes its last position in the list plus one and keeps its other fields; an unlisted row is unchanged |
| RouteStops.WithPassed | api/views_buses.py:535-541 | only rows of the route with that sequence get the flag; all others are unchanged |
| RouteStops.WithFlagsCleared | api/views_buses.py:656-663 | every flag of the route is cleared; other routes are unchanged |
| RouteStops.StopError | api/views_routes.py:348-365 | the stop field passes exactly when it is truthy, names an active stop, and that stop is not yet on the route |
| RouteStops.SequenceError | api/views_routes.py:367-375 | the sequence field passes exactly when it is an integer of at least 1 |
| RouteStops.RouteStopTable.AddStop | api/views_routes.py:323-414 | an unknown route gives 404, any field error gives 400, both leaving the table as it was; otherwise the table becomes `Inserted` with a fresh id, and the (route, stop) pairs stay unique |
| RouteStops.RouteStopTable.RemoveStop | api/views_routes.py:422-463 | a row that is not on the route gives 404 with no change; otherwise the table becomes `Removed` |
| RouteStops.RouteStopTable.Reorder | api/views_routes.py:471-527 | unknown route, no non-empty list, or an id list that is not the route's ids each once gives an error with no change; otherwise the table becomes `Reordered` by the list |
| RouteStops.RouteStopTable.MarkPassed | api/views_buses.py:518-541 | check-then-set: the table is unchanged or becomes `WithPassed`; unchanged when every matching row is already passed, `WithPassed` when none is, and always `WithPassed` on a route numbered 1..N |
| RouteStops.RouteStopTable.StopsOf | api/views_buses.py:483-497 | the route's stops as points, sorted by sequence, one per row of the route; on a 1..N route the sequences are distinct and within 1..N |
| RouteStops.RouteStopTable.ResetPassed | api/views_buses.py:656-663 | the table becomes `WithFlagsCleared` |
| RouteStops.Enumerate | api/views_displays.py:347-359 | the rows a query returns: each key once, all of them |
| RouteStops.InsertedKeepsPairs | api/management/commands/setup_database.py:58 | inserting a stop not yet on the route keeps (route, stop) pairs unique |
| RouteStops.ReorderedKeepsPairs | api/management/commands/setup_database.py:58 | renumbering by any prefix of the id list keeps (route, stop) pairs unique |
| RouteStops.WithPassedKeepsPairs | api/management/commands/setup_database.py:58 | setting passed flags keeps (route, stop) pairs unique |
| RouteStops.InsertKeepsOtherRoutes | api/views_routes.py:381-388 | inserting keeps every other route's rows and numbering exactly |
| RouteStops.InsertAddsOneKey | api/views_routes.py:391-397 | inserting adds exactly the new row to the route |
| RouteStops.InsertKeepsDense | api/views_routes.py:381-397 | on a route numbered 1..N and n ≥ 1, the result is numbered 1..N+1 exactly when n ≤ N+1, so a larger n leaves a gap |
| RouteStops.InsertInRangeKeepsDense | api/views_routes.py:381-397 | on a route numbered 1..N, inserting at 1..N+1 gives a route numbered 1..N+1 |
| RouteStops.RemoveKeepsDense | api/views_routes.py:448-461 | on a route numbered 1..N, removing one stop gives a route numbered 1..N−1 |
| RouteStops.RemoveKeepsOtherRoutes | api/views_routes.py:454-461 | removing keeps every other route's rows exactly |
| RouteStops.NoDuplicatesCard | api/views_routes.py:508-512 | a list without repeats has as many ids as distinct ids |
| RouteStops.ReorderGivesDense | api/views_routes.py:515-519 | an accepted list without repeats gives the i-th id sequence i+1, numbers the route 1..N, and leaves other routes alone |
| RouteStops.DuplicateIdsBreakDensity | api/views_routes.py:508-519 | the check as written accepts [1, 2, 1] for a route of rows 1 and 2; row 1 gets 3 and the route is no longer numbered 1..N |
| RouteStops.FlagsKeepNumbering | api/views_buses.py:535-541 | setting or clearing passed flags never changes whether a route is numbered 1..N |
| RouteStops.PassedRowOfDenseRoute | api/views_buses.py:518-541 | on a route numbered 1..N, marking a stop whose row is already passed changes nothing |
| RouteStops.WithPassedIdempotent | api/views_buses.py:518-541 | marking a stop passed twice is the same as marking it once |
| Buses.ParseStatus | api/views_buses.py:365-366 | a status parses exactly when it is one of active, inactive, maintenance |
| Buses.StatusNameRoundTrip | api/views_buses.py:365-366 | names and statuses correspond one to one |
| Buses.PatchStatus | api/views_buses.py:365-372 | the update accepts exactly the three names and stores the named status |
| Buses.EndTripStatus | api/views_buses.py:691-693 | ending a trip never leaves a bus active; it is maintenance exactly when maintenance was requested |
| Buses.Clamp | api/views_buses.py:466-467 | the result lies in [lo, hi], equals the input inside, and the nearer bound outside |
| Buses.BindResolverCall | api/mapbox.py:275-278 | keyword arguments bind exactly when each names a parameter; otherwise the error names an offending keyword |
| Buses.FeedCallRaises | api/views_buses.py:500-504 | the location feed's call fails on the `stop_seq` keyword |
| Buses.FirstAfter | api/views_buses.py:292-295 | the first stop numbered after the pointer, and none exists exactly when every stop is at or before it |
| Buses.DetailEta | api/views_buses.py:298-317 | present exactly when the distance is known and non-zero and the speed is not negative; then it is `round((d/1000)/speed·60, 1)` with speed 30 for a stopped bus |
| Buses.DetailEtaSpeed | api/views_buses.py:300 | a stopped bus gets the 30 km/h ETA, and a faster bus never gets a later one |
| Buses.FindNextStop | api/views_buses.py:288-319 | the search loop returns nothing without a pointer or a stop after it; otherwise the first stop after the pointer with its distance and `DetailEta` |
| Buses.FirstAfterIsFirst | api/views_buses.py:292-295 | a stop after the pointer with none before it is the one `FirstAfter` finds |
| Buses.FormatBus | api/views_buses.py:39-77 | keeps id, status name and route id; the route summary (id, name, code, colour) is present exactly when the route id is truthy and the route name is non-empty; the last location is the location row as stored, absent exactly when there is none |
| Buses.TrackOnRoute | api/views_buses.py:473-541 | without a truthy route or with no stops the pointer is null and no flag changes; otherwise the stops are read in sequence order and the pointer is the resolver's current stop (within 1..N on a 1..N route); with its ETA under 1.0 the target stop's unpassed rows become passed (already passed: no change; on a 1..N route always `WithPassed`), and otherwise no flag changes |
| Buses.Fleet.UpdateLocation | api/views_buses.py:435-587 | missing coordinates give 400 and a bus without a location row 404, both with no change; otherwise speed and heading are clamped, the pointer is the resolver's current stop (null without a route or stops, within 1..N on a 1..N route), the target stop is marked passed (false to true, as `TrackOnRoute` states) only when its ETA is under 1.0, and the location row is replaced |
| Buses.Fleet.UpdateLocationAsWritten | api/views_buses.py:500-504 | as written, a bus on a route with stops always fails with a server error and nothing is written; any row that is written has a null pointer |
| Buses.Fleet.StartTrip | api/views_buses.py:595-671 | the route is the requested one, else the bus's own; a missing or unknown route gives 400 with no change; otherwise the bus becomes active on it, its row becomes 0/0 with pointer 0, and every passed flag of that route, and only that route, is cleared |
| Buses.Fleet.EndTrip | api/views_buses.py:679-719 | the bus takes `EndTripStatus`; speed and heading become 0; coordinates, pointer and passed flags are untouched |
| Displays.ParseDisplayStatus | api/views_displays.py:111 | a display status parses exactly when it is online, offline or error, and names it |
| Displays.DisplayStatusRoundTrip | api/views_displays.py:111 | every status survives printing and parsing |
| Displays.CreateStatus | api/views_displays.py:109-112 | a known status is kept; a missing or unknown status becomes offline |
| Displays.HeartbeatStatus | api/views_displays.py:273-275 | a known status is kept; a missing or unknown status becomes online |
| Displays.PatchDisplayStatus | api/views_displays.py:210-216 | a patch accepts exactly the three names (400 otherwise) |
| Displays.LStrip | api/views_displays.py:89 | the result is a suffix of the input, only white space was removed, and it does not start with white space |
| Displays.RStrip | api/views_displays.py:89 | the result is a prefix of the input, only white space was removed, and it does not end with white space |
| Displays.NameAcceptedIff | api/views_displays.py:88-90 | a display name passes exactly when it holds two non-white-space characters |
| Displays.CreateDisplayErrors | api/views_displays.py:84-104 | create succeeds exactly when the name passes and the stop id is truthy and names a stop; otherwise each failing field is reported, with "required" exactly for a falsy stop id |
| Displays.Classify | api/views_displays.py:394-405 | arrived exactly within 150 m, with ETA and distance 0; otherwise the values are kept and arriving means ETA ≤ 1, approaching 1 < ETA ≤ 3, on-route ETA > 3 |
| Displays.ClassifyMonotone | api/views_displays.py:396-405 | beyond the stop, a later ETA never gives a nearer class |
| Displays.AssumedSpeed | api/views_displays.py:388 | the bus's speed when positive, else 25 km/h; always positive |
| Displays.LiveOrFallbackEta | api/views_displays.py:380-389 | the live ETA when the service answers, else the fallback at the assumed speed |
| Displays.RouteSequencesAt | api/views_displays.py:331-341 | maps exactly the routes through the stop, each to the stop's sequence on it |
| Displays.DisplayEntry | api/views_displays.py:391-416 | an entry carries the bus and route ids and is arrived exactly when its distance is within 150 m |
| Displays.DisplayCandidates | api/views_displays.py:361-416 | a bus has an entry exactly when it is in the query result, active on a route through the stop, has truthy coordinates, and its pointer (null as 0) is not beyond the stop's sequence |
| Displays.SortKeepsListedBuses | api/views_displays.py:420 | sorting lists the same buses |
| Displays.UpcomingBuses | api/views_displays.py:361-420 | the loop and sort give the candidates sorted by ETA, ascending, listing exactly the visible buses |
| Displays.NoRouteNoBuses | api/views_displays.py:343-345 | a stop on no route shows no buses |
| Displays.TripStartNotListed | api/views_displays.py:362-363 | a bus whose row trip start just reset to 0/0 is not shown |
| Displays.DisplayContent | api/views_displays.py:306-420 | 404 exactly when the display or its stop is missing; otherwise the upcoming buses sorted by ETA, listing exactly the visible buses of the fleet, from a query order that names each bus once |
| Etas.StraightEtaMonotone | api/views_etas.py:119 | a longer distance at the same speed never takes less time, and never negative time |
| Etas.StopViewDropsBusAtStop | api/views_etas.py:107-112 | the stop view lists a bus exactly when the display view would and its pointer is not the stop's sequence |
| Etas.TripStartNotListedAtStop | api/views_etas.py:100-101 | a bus reset to 0/0 by trip start is not listed |
| Etas.StopEntryBounds | api/views_etas.py:115-129 | an entry's distance and ETA are never negative, and a nearer bus at the same speed never gets a later ETA or a larger distance |
| Etas.StopCandidates | api/views_etas.py:99-132 | a bus has an entry exactly when it is in the query result, active on a route through the stop, has truthy coordinates, and its pointer (null as 0) is strictly before the stop |
| Etas.SortKeepsStopBuses | api/views_etas.py:135 | sorting lists the same buses |
| Etas.NoRouteNoEtas | api/views_etas.py:69-77 | a stop on no route, or not on the requested one, has no ETAs |
| Etas.StopRoutes | api/views_etas.py:53-80 | without a filter, every route through the stop; with one, at most that route, and exactly it when it passes the stop |
| Etas.StopEtasFor | api/views_etas.py:99-135 | the loop and sort give the candidates sorted by ETA, ascending, listing exactly the visible buses |
| Etas.StopEtas | api/views_etas.py:36-144 | 404 exactly for an unknown stop; an empty list when no (requested) route passes it; otherwise the sorted candidates, listing exactly the visible buses, from a query order that names each bus once |
| Etas.Ahead | api/views_etas.py:207-209 | exactly the route's stops numbered after the pointer |
| Etas.AheadSorted | api/views_etas.py:175-187 | the stops ahead stay in sequence order |
| Etas.PathLength | api/views_etas.py:203-216 | the path from the bus through the stops in turn is never negative |
| Etas.PathLengthGrows | api/views_etas.py:215-216 | the path through a longer prefix is never shorter |
| Etas.AheadEtasNonDecreasing | api/views_etas.py:203-229 | along a bus's list every stop is after the pointer, and distance and ETA never decrease; on sorted stops the sequences ascend |
| Etas.NextStopEtas | api/views_etas.py:203-229 | the inner loop gives, for the i-th stop ahead, the rounded path length through it and the rounded ETA at the bus's speed |
| Etas.RouteBusList | api/views_etas.py:193-236 | a bus has an entry exactly when it is in the query result, active on the route and has truthy coordinates; each entry is the stops-ahead list for its location |
| Etas.RouteEtas | api/views_etas.py:152-247 | 404 exactly for an unknown route; otherwise the route's stops are read in sequence order, one point per route row, and the list holds exactly the active buses of the route that have a fix; the query order names each bus once |
| Routes.CreateNameProblem | api/views_routes.py:131-156 | the name passes exactly when present with at least 2 characters and not in use; "required" exactly when it is absent or empty |
| Routes.CreateCodeProblem | api/views_routes.py:136-147 | the code passes exactly when present with 2 to 10 characters and not in use; it is checked for use only when its length is acceptable |
| Routes.CreateColor | api/views_routes.py:161-166 | the stored colour is null, empty, or `#` plus six characters; a missing colour becomes `#3B82F6`, a well-formed one is kept |
| Routes.CreateRoute | api/views_routes.py:117-177 | created exactly when name and code pass; then one new record is added with the name, code, description and normalised colour, and every other record is unchanged; otherwise both field problems are reported |
| Routes.CreateKeepsDistinct | api/management/commands/setup_database.py:25-26 | creating a route keeps route names and codes unique |
| Routes.PatchNameProblem | api/views_routes.py:222-236 | a patched name fails exactly when it is shorter than 2 characters or used by another route |
| Routes.PatchCodeProblem | api/views_routes.py:238-252 | a patched code fails exactly when not 2 to 10 characters or used by another route |
| Routes.PatchRoute | api/views_routes.py:198-280 | 404 exactly for an unknown route; 400 with errors exactly when a field fails; 400 "no valid fields" exactly when nothing would change; otherwise only that record changes, to the patched record (a malformed colour is not applied) |
| Routes.PatchKeepsDistinct | api/management/commands/setup_database.py:25-26 | patching a route keeps route names and codes unique |
| Routes.MalformedColorAloneIsRefused | api/views_routes.py:258-271 | a patch carrying only a malformed colour is refused as having no valid field |
| Routes.WithoutRoute | api/views_routes.py:312-313 | the cascade removes exactly the route's stop rows |
| Routes.DeleteRoute | api/views_routes.py:282-316 | 404 exactly for an unknown route; 400 exactly when a bus is assigned to it; otherwise the route and its stop rows are gone |
| Routes.DeleteKeepsOtherRoutes | api/views_routes.py:312-313 | deleting a route keeps every other route's stop rows, numbering and pair uniqueness |

## Left out

- HTTP, authentication, the admin checks, request parsing, response formats
  and timestamps: the models take the parsed fields as parameters and return
  the data or the error kind.
- The directions service's URL building, timeouts and JSON decoding: the
  service is an arbitrary function that may fail.
- Haversine trigonometry: any non-negative function of two points; also the
  `(lon, lat)` order of the service's coordinates.
- Floating point: all arithmetic is on exact reals, and `round` is
  round-half-even on exact reals.
- Sort stability: `Sorting.SortBy` is stable by construction, but stability
  is not proved; the order of entries with equal ETAs follows the query order,
  which is a ghost output.
- SQL: `Displays.RouteSequencesAt` and `Etas.StopRoutes` need unique (route,
  stop) pairs, which the schema enforces (setup_database.py:58). String
  comparison is exact, whereas the database collation may ignore case. The
  `JOIN routes` of the rider queries is taken to always find the bus's route.
- `Buses.Fleet.UpdateLocation` and `Buses.Fleet.StartTrip`: the
  `bus_locations` upserts (views_buses.py:546-560, 637-650) are modelled as
  one row per bus, as their `ON DUPLICATE KEY` clauses intend. The schema
  (setup_database.py:89-102) declares no unique key on `bus_id`, so the
  database may keep several rows per bus; the rider queries'
  `LEFT JOIN bus_locations` (views_displays.py:355, views_etas.py:92, 186)
  would then return one output row per stored location row, which the model
  (one `LocationOf` per bus) does not capture.
- `Routes.PatchNameProblem`, `Routes.PatchCodeProblem`, `Routes.CreateNameProblem`,
  `Routes.CreateCodeProblem`: a null or non-string patched name or code
  raises `TypeError` at `len(...)` (views_routes.py:224, 240), and so does a
  truthy non-string value on create (views_routes.py:133, 138); the model
  takes these fields as strings, so that server error is not modelled.
- Non-numeric speed, heading or coordinates: `float(...)` raising is not
  modelled; inputs are numbers or absent.
- Concurrency: the check-then-set of the passed flag runs sequentially.
- The announcements and advertisements on a display's content, the display
  list and detail views, and `format_display_response`: SQL listings with no
  logic beyond field copying.
- The display patch's name and stop checks (views_displays.py:186-205) repeat
  the create rules modelled by `Displays.CreateDisplayErrors`.
- Non-ASCII white space in `str.strip()`.
- `Displays.LiveOrFallbackEta`: the directions call of the display view
  passes coordinates as `(lon, lat)`; the model passes points and leaves the
  order to the service function.

## Findings

| source | as written | input that shows it | evidently intended | confidence | as-written member | corrected member |
|---|---|---|---|---|---|---|
| api/views_buses.py:500-504 | the location feed calls the resolver with a `stop_seq` keyword that its signature (api/mapbox.py:275-278) does not have, so the call raises `TypeError` and the request fails with 500 before anything is written | any location report for a bus whose route has at least one stop | call the resolver with the bus location and route stops only, and store its pointer | not executed | Buses.Fleet.UpdateLocationAsWritten, Buses.FeedCallRaises | Buses.Fleet.UpdateLocation |
| api/views_routes.py:500-519 | reorder checks only that the SET of listed ids equals the route's ids, so a repeated id passes and takes its last position | route 7 with rows 1 (sequence 1) and 2 (sequence 2), body `[1, 2, 1]`: row 1 gets 3, row 2 keeps 2, and the route is no longer 1..N | also refuse a list with a repeated id, so the route is renumbered 1..N | not executed | RouteStops.ReorderAcceptedAsWritten, RouteStops.DuplicateIdsBreakDensity | RouteStops.RouteStopTable.Reorder, RouteStops.ReorderGivesDense |
