/** Route records: the field rules on create and patch (name, code, colour),
    and the refusal to delete a route while buses are assigned to it. Each
    operation is a function from the `routes` table to the new table or to
    the error the request gets. */
module Routes {
  import opened Common
  import opened RouteStops
  import opened Buses

  datatype RouteRecord = RouteRecord(name: string, code: string, description: Option<string>, color: Option<string>)

  type RouteTable = map<int, RouteRecord>

  /** A request field that may be absent altogether. */
  datatype Field<+T> = Missing | Present(value: T)

  const DefaultColor := "#3B82F6"

  /** A colour is taken only in the form `#` followed by six characters. */
  predicate WellFormedColor(c: string) {
    |c| == 7 && c[0] == '#'
  }

  /** No two routes share a name, and no two share a code. */
  predicate DistinctNamesAndCodes(routes: RouteTable) {
    forall a, b :: a in routes && b in routes && a != b ==>
      routes[a].name != routes[b].name && routes[a].code != routes[b].code
  }

  /** Some route other than `except` already has this name. */
  predicate NameTaken(routes: RouteTable, name: string, except: Option<int>) {
    exists id :: id in routes && routes[id].name == name && except != Some(id)
  }

  predicate CodeTaken(routes: RouteTable, code: string, except: Option<int>) {
    exists id :: id in routes && routes[id].code == code && except != Some(id)
  }

  datatype NameProblem = NameRequired | NameTooShort | NameInUse

  datatype CodeProblem = CodeRequired | CodeBadLength | CodeInUse

  datatype RouteFieldErrors = RouteFieldErrors(name: Option<NameProblem>, code: Option<CodeProblem>)

  // ---------------------------------------------------------------------
  // Create.
  // ---------------------------------------------------------------------

  /** The name check on create. The duplicate lookup runs for every
      non-empty name and its message replaces the length message. */
  function CreateNameProblem(routes: RouteTable, name: Option<string>): (p: Option<NameProblem>)
    ensures p.None? <==> name.Some? && |name.value| >= 2 && !NameTaken(routes, name.value, None)
    ensures p == Some(NameRequired) <==> name.None? || name.value == ""
  {
    if name.None? || name.value == "" then Some(NameRequired)
    else if NameTaken(routes, name.value, None) then Some(NameInUse)
    else if |name.value| < 2 then Some(NameTooShort)
    else None
  }

  /** The code check on create: the duplicate lookup runs only for a code
      of acceptable length. */
  function CreateCodeProblem(routes: RouteTable, code: Option<string>): (p: Option<CodeProblem>)
    ensures p.None? <==> code.Some? && 2 <= |code.value| <= 10 && !CodeTaken(routes, code.value, None)
    ensures p == Some(CodeInUse) ==> code.Some? && 2 <= |code.value| <= 10
  {
    if code.None? || code.value == "" then Some(CodeRequired)
    else if |code.value| < 2 || |code.value| > 10 then Some(CodeBadLength)
    else if CodeTaken(routes, code.value, None) then Some(CodeInUse)
    else None
  }

  /** The colour stored on create: the default when the request has none,
      the default in place of a malformed one; a null or empty colour is
      stored as given. */
  function CreateColor(color: Field<Option<string>>): (c: Option<string>)
    ensures c.None? || c.value == "" || WellFormedColor(c.value)
    ensures color.Missing? ==> c == Some(DefaultColor)
    ensures color.Present? && color.value.Some? && WellFormedColor(color.value.value) ==> c == color.value
  {
    match color
    case Missing => Some(DefaultColor)
    case Present(None) => None
    case Present(Some(s)) => if s != "" && !WellFormedColor(s) then Some(DefaultColor) else Some(s)
  }

  /** Creates route `freshId`; every field error is reported at once and
      leaves the table as it was. */
  function CreateRoute(routes: RouteTable, freshId: int, name: Option<string>, code: Option<string>,
                       description: Option<string>, color: Field<Option<string>>): (r: Result<RouteTable, RouteFieldErrors>)
    requires freshId !in routes
    ensures r.Ok? <==>
      && name.Some? && |name.value| >= 2 && !NameTaken(routes, name.value, None)
      && code.Some? && 2 <= |code.value| <= 10 && !CodeTaken(routes, code.value, None)
    ensures r.Ok? ==>
      && r.value.Keys == routes.Keys + {freshId}
      && (forall id :: id in routes ==> r.value[id] == routes[id])
      && r.value[freshId] == RouteRecord(name.value, code.value, description, CreateColor(color))
    ensures r.Err? ==> r.error.name == CreateNameProblem(routes, name) && r.error.code == CreateCodeProblem(routes, code)
  {
    var nameProblem := CreateNameProblem(routes, name);
    var codeProblem := CreateCodeProblem(routes, code);
    if nameProblem.Some? || codeProblem.Some? then Err(RouteFieldErrors(nameProblem, codeProblem))
    else Ok(routes[freshId := RouteRecord(name.value, code.value, description, CreateColor(color))])
  }

  /** Creating a route never makes two routes share a name or a code. */
  lemma CreateKeepsDistinct(routes: RouteTable, freshId: int, name: Option<string>, code: Option<string>,
                            description: Option<string>, color: Field<Option<string>>)
    requires freshId !in routes && DistinctNamesAndCodes(routes)
    ensures var r := CreateRoute(routes, freshId, name, code, description, color);
      r.Ok? ==> DistinctNamesAndCodes(r.value)
  {
    var r := CreateRoute(routes, freshId, name, code, description, color);
    if r.Ok? {
      forall a, b | a in r.value && b in r.value && a != b
        ensures r.value[a].name != r.value[b].name && r.value[a].code != r.value[b].code
      {
        if a == freshId {
          assert !NameTaken(routes, name.value, None) && !CodeTaken(routes, code.value, None);
          assert b in routes && r.value[b] == routes[b];
        } else if b == freshId {
          assert !NameTaken(routes, name.value, None) && !CodeTaken(routes, code.value, None);
          assert a in routes && r.value[a] == routes[a];
        }
      }
    }
  }

  // ---------------------------------------------------------------------
  // Patch.
  // ---------------------------------------------------------------------

  datatype RoutePatch = RoutePatch(name: Field<string>, code: Field<string>,
                                   description: Field<Option<string>>, color: Field<Option<string>>)

  datatype PatchRouteError = PatchRouteNotFound | PatchInvalid(errors: RouteFieldErrors) | NoValidFields

  function PatchNameProblem(routes: RouteTable, id: int, name: Field<string>): (p: Option<NameProblem>)
    ensures p.Some? <==> name.Present? && (|name.value| < 2 || NameTaken(routes, name.value, Some(id)))
  {
    if name.Missing? then None
    else if |name.value| < 2 then Some(NameTooShort)
    else if NameTaken(routes, name.value, Some(id)) then Some(NameInUse)
    else None
  }

  function PatchCodeProblem(routes: RouteTable, id: int, code: Field<string>): (p: Option<CodeProblem>)
    ensures p.Some? <==> code.Present? && (|code.value| < 2 || |code.value| > 10 || CodeTaken(routes, code.value, Some(id)))
  {
    if code.Missing? then None
    else if |code.value| < 2 || |code.value| > 10 then Some(CodeBadLength)
    else if CodeTaken(routes, code.value, Some(id)) then Some(CodeInUse)
    else None
  }

  /** A patch's colour is applied only when well formed; any other colour
      is dropped without an error. */
  predicate ColorApplies(color: Field<Option<string>>) {
    color.Present? && color.value.Some? && WellFormedColor(color.value.value)
  }

  /** The patch changes something. */
  predicate HasUpdate(p: RoutePatch) {
    p.name.Present? || p.code.Present? || p.description.Present? || ColorApplies(p.color)
  }

  function Patched(before: RouteRecord, p: RoutePatch): RouteRecord {
    RouteRecord(
      if p.name.Present? then p.name.value else before.name,
      if p.code.Present? then p.code.value else before.code,
      if p.description.Present? then p.description.value else before.description,
      if ColorApplies(p.color) then p.color.value else before.color)
  }

  /** Patches route `id`: 404 for an unknown route, 400 with the field
      errors, 400 when nothing would change, else only that route's record
      is replaced. */
  function PatchRoute(routes: RouteTable, id: int, p: RoutePatch): (r: Result<RouteTable, PatchRouteError>)
    ensures r == Err(PatchRouteNotFound) <==> id !in routes
    ensures r.Err? && r.error.PatchInvalid? <==>
      id in routes && (PatchNameProblem(routes, id, p.name).Some? || PatchCodeProblem(routes, id, p.code).Some?)
    ensures r == Err(NoValidFields) <==>
      id in routes && PatchNameProblem(routes, id, p.name).None? && PatchCodeProblem(routes, id, p.code).None?
      && !HasUpdate(p)
    ensures r.Ok? ==>
      && r.value.Keys == routes.Keys && r.value[id] == Patched(routes[id], p)
      && forall other :: other in routes && other != id ==> r.value[other] == routes[other]
  {
    if id !in routes then Err(PatchRouteNotFound)
    else
      var nameProblem := PatchNameProblem(routes, id, p.name);
      var codeProblem := PatchCodeProblem(routes, id, p.code);
      if nameProblem.Some? || codeProblem.Some? then Err(PatchInvalid(RouteFieldErrors(nameProblem, codeProblem)))
      else if !HasUpdate(p) then Err(NoValidFields)
      else Ok(routes[id := Patched(routes[id], p)])
  }

  /** Patching a route never makes two routes share a name or a code. */
  lemma PatchKeepsDistinct(routes: RouteTable, id: int, p: RoutePatch)
    requires DistinctNamesAndCodes(routes)
    ensures var r := PatchRoute(routes, id, p);
      r.Ok? ==> DistinctNamesAndCodes(r.value)
  {
    var r := PatchRoute(routes, id, p);
    if r.Ok? {
      forall a, b | a in r.value && b in r.value && a != b
        ensures r.value[a].name != r.value[b].name && r.value[a].code != r.value[b].code
      {
        if a == id || b == id {
          var other := if a == id then b else a;
          assert r.value[other] == routes[other];
          assert p.name.Present? ==> !NameTaken(routes, p.name.value, Some(id));
          assert p.code.Present? ==> !CodeTaken(routes, p.code.value, Some(id));
        }
      }
    }
  }

  /** A patch that carries only a malformed colour is refused as having no
      valid field. */
  lemma MalformedColorAloneIsRefused(routes: RouteTable, id: int, color: string)
    requires id in routes && !WellFormedColor(color)
    ensures PatchRoute(routes, id, RoutePatch(Missing, Missing, Missing, Present(Some(color)))) == Err(NoValidFields)
  {
  }

  // ---------------------------------------------------------------------
  // Delete.
  // ---------------------------------------------------------------------

  datatype DeleteRouteError = DeleteRouteNotFound | RouteHasBuses

  /** Some bus is assigned to route `id`. */
  predicate HasAssignedBus(buses: map<int, Bus>, id: int) {
    exists b :: b in buses && buses[b].routeId == Some(id)
  }

  /** The `route_stops` rows left once route `id` is gone (the cascade). */
  function WithoutRoute(rows: Rows, id: int): (m: Rows)
    ensures forall k :: k in m <==> k in rows && rows[k].routeId != id
    ensures forall k :: k in m ==> m[k] == rows[k]
  {
    map k | k in rows && rows[k].routeId != id :: rows[k]
  }

  /** Deletes route `id` with its stop rows, unless it is unknown (404) or
      a bus is still assigned to it (400). */
  function DeleteRoute(routes: RouteTable, buses: map<int, Bus>, rows: Rows, id: int): (r: Result<(RouteTable, Rows), DeleteRouteError>)
    ensures r == Err(DeleteRouteNotFound) <==> id !in routes
    ensures r == Err(RouteHasBuses) <==> id in routes && HasAssignedBus(buses, id)
    ensures r.Ok? ==> r.value.0 == routes - {id} && RouteKeys(r.value.1, id) == {}
  {
    if id !in routes then Err(DeleteRouteNotFound)
    else if HasAssignedBus(buses, id) then Err(RouteHasBuses)
    else Ok((routes - {id}, WithoutRoute(rows, id)))
  }

  /** Deleting a route leaves every other route's stops, numbering included,
      as they were. */
  lemma DeleteKeepsOtherRoutes(routes: RouteTable, buses: map<int, Bus>, rows: Rows, id: int, other: int)
    requires other != id
    requires DeleteRoute(routes, buses, rows, id).Ok?
    ensures var m := DeleteRoute(routes, buses, rows, id).value.1;
      && RouteKeys(m, other) == RouteKeys(rows, other)
      && (forall k :: k in RouteKeys(m, other) ==> m[k] == rows[k])
      && (Dense(rows, other) <==> Dense(m, other))
      && (UniquePairs(rows) ==> UniquePairs(m))
  {
    var m := WithoutRoute(rows, id);
    assert RouteKeys(m, other) == RouteKeys(rows, other);
  }
}
