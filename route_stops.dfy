/** The `route_stops` table: which stops a route serves and in what order,
    kept as a map from `route_stop_id` to a row, and the three operations
    that renumber it (insert with shift, remove with decrement, reorder by
    position), plus the per-stop `passed` flags the location feed sets. */
module RouteStops {
  import opened Common
  import opened Sorting
  import opened Mapbox

  datatype RouteStop = RouteStop(routeId: int, stopId: int, sequence: int, distanceFromPrev: Option<int>, passed: bool)

  /** A row of the `stops` table, as far as route maintenance reads it. */
  datatype Stop = Stop(location: Coord, isActive: bool)

  type Rows = map<int, RouteStop>

  /** The `route_stop_id`s of route `r`. */
  function RouteKeys(rows: Rows, r: int): set<int> {
    set id | id in rows && rows[id].routeId == r
  }

  /** Route `r` is numbered 1..N without gaps or repeats, N its stop count. */
  predicate Dense(rows: Rows, r: int) {
    && (forall id :: id in RouteKeys(rows, r) ==> 1 <= rows[id].sequence <= |RouteKeys(rows, r)|)
    && (forall a, b :: a in RouteKeys(rows, r) && b in RouteKeys(rows, r) && a != b ==> rows[a].sequence != rows[b].sequence)
  }

  /** The schema's only uniqueness rule: one row per (route, stop). */
  predicate UniquePairs(rows: Rows) {
    forall a, b :: a in rows && b in rows && a != b && rows[a].routeId == rows[b].routeId ==> rows[a].stopId != rows[b].stopId
  }

  // ---------------------------------------------------------------------
  // The three renumbering operations as functions of the table.
  // ---------------------------------------------------------------------

  /** Insert at `n`: every stop of route `r` numbered `n` or more moves up
      by one, then the new row takes `n`, with no distance and not passed. */
  function Inserted(rows: Rows, id: int, r: int, stopId: int, n: int): (m: Rows)
    requires id !in rows
    ensures m.Keys == rows.Keys + {id}
    ensures m[id] == RouteStop(r, stopId, n, None, false)
    ensures forall k :: k in rows ==>
      m[k] == if rows[k].routeId == r && rows[k].sequence >= n then rows[k].(sequence := rows[k].sequence + 1) else rows[k]
  {
    var shifted := map k | k in rows ::
      if rows[k].routeId == r && rows[k].sequence >= n then rows[k].(sequence := rows[k].sequence + 1) else rows[k];
    shifted[id := RouteStop(r, stopId, n, None, false)]
  }

  /** Remove row `id`: every later stop of its route moves down by one. */
  function Removed(rows: Rows, id: int): (m: Rows)
    requires id in rows
    ensures m.Keys == rows.Keys - {id}
    ensures forall k :: k in m ==>
      m[k] == if rows[k].routeId == rows[id].routeId && rows[k].sequence > rows[id].sequence
              then rows[k].(sequence := rows[k].sequence - 1) else rows[k]
  {
    var r, d := rows[id].routeId, rows[id].sequence;
    map k | k in rows && k != id :: if rows[k].routeId == r && rows[k].sequence > d then rows[k].(sequence := rows[k].sequence - 1) else rows[k]
  }

  /** Index of the last occurrence of `x` in `s`. */
  function LastIndex(s: seq<int>, x: int): (i: nat)
    requires x in s
    ensures i < |s| && s[i] == x
    ensures forall j :: i < j < |s| ==> s[j] != x
  {
    if s[|s| - 1] == x then |s| - 1 else LastIndex(s[..|s| - 1], x)
  }

  /** Each listed row gets its 1-based position in `ids`; a row listed more
      than once keeps the position of its last occurrence. */
  function Reordered(rows: Rows, ids: seq<int>): (m: Rows)
    ensures m.Keys == rows.Keys
    ensures forall k :: k in rows ==> m[k].routeId == rows[k].routeId && m[k].stopId == rows[k].stopId
    ensures forall k :: k in rows && k in ids ==> m[k] == rows[k].(sequence := LastIndex(ids, k) + 1)
    ensures forall k :: k in rows && k !in ids ==> m[k] == rows[k]
  {
    map k | k in rows :: if k in ids then rows[k].(sequence := LastIndex(ids, k) + 1) else rows[k]
  }

  /** Sets the flag on every row of route `r` numbered `s`. */
  function WithPassed(rows: Rows, r: int, s: int): (m: Rows)
    ensures m.Keys == rows.Keys
    ensures forall k :: k in rows ==>
      && (rows[k].routeId == r && rows[k].sequence == s ==> m[k] == rows[k].(passed := true))
      && (rows[k].routeId != r || rows[k].sequence != s ==> m[k] == rows[k])
  {
    map k | k in rows :: if rows[k].routeId == r && rows[k].sequence == s then rows[k].(passed := true) else rows[k]
  }

  /** Clears every flag of route `r`. */
  function WithFlagsCleared(rows: Rows, r: int): (m: Rows)
    ensures m.Keys == rows.Keys
    ensures forall k :: k in rows ==>
      && (rows[k].routeId == r ==> m[k] == rows[k].(passed := false))
      && (rows[k].routeId != r ==> m[k] == rows[k])
  {
    map k | k in rows :: if rows[k].routeId == r then rows[k].(passed := false) else rows[k]
  }

  /** Row `k` as a point for the position resolver. */
  function PointOf(rows: Rows, stops: map<int, Stop>, k: int): StopPoint
    requires k in rows && rows[k].stopId in stops
  {
    StopPoint(rows[k].sequence, rows[k].stopId, stops[rows[k].stopId].location)
  }

  // ---------------------------------------------------------------------
  // Request validation.
  // ---------------------------------------------------------------------

  datatype StopFieldError = StopRequired | StopNotFound | StopAlreadyOnRoute

  datatype SequenceFieldError = SequenceRequired | NotAnInteger | BelowOne

  /** The `sequence_number` field: absent or null, an integer (after
      `int(...)`), or something `int(...)` rejects. */
  datatype SequenceInput = NoSequence | SequenceValue(n: int) | NotANumber

  datatype AddStopError =
    | RouteNotFound
    | Invalid(stop: Option<StopFieldError>, sequence: Option<SequenceFieldError>)

  datatype RemoveStopError = RouteStopNotFound

  /** The `route_stop_ids` field: a list, or anything else. An absent field
      is the empty list. */
  datatype ReorderInput = IdList(ids: seq<int>) | NotAList

  datatype ReorderError = ReorderRouteNotFound | NotANonEmptyList | IdsMismatch

  /** The `stop_id` check: falsy (absent, null or 0), not an active stop, or
      already on the route. */
  function StopError(rows: Rows, stops: map<int, Stop>, r: int, stopInput: Option<int>): (e: Option<StopFieldError>)
    ensures e.None? <==>
      && stopInput.Some? && stopInput.value != 0
      && stopInput.value in stops && stops[stopInput.value].isActive
      && forall k :: k in rows && rows[k].routeId == r ==> rows[k].stopId != stopInput.value
  {
    if stopInput.None? || stopInput.value == 0 then Some(StopRequired)
    else if !(stopInput.value in stops && stops[stopInput.value].isActive) then Some(StopNotFound)
    else if exists k | k in rows :: rows[k].routeId == r && rows[k].stopId == stopInput.value then Some(StopAlreadyOnRoute)
    else None
  }

  function SequenceError(input: SequenceInput): (e: Option<SequenceFieldError>)
    ensures e.None? <==> input.SequenceValue? && input.n >= 1
  {
    match input
    case NoSequence => Some(SequenceRequired)
    case NotANumber => Some(NotAnInteger)
    case SequenceValue(n) => if n < 1 then Some(BelowOne) else None
  }

  /** The reorder check as the code writes it: a non-empty list whose SET of
      ids equals the route's ids. */
  predicate ReorderAcceptedAsWritten(rows: Rows, r: int, ids: seq<int>) {
    |ids| > 0 && (set k | k in ids) == RouteKeys(rows, r)
  }

  predicate NoDuplicates(ids: seq<int>) {
    forall i, j :: 0 <= i < j < |ids| ==> ids[i] != ids[j]
  }

  /** The reorder check as intended: additionally, no id is listed twice. */
  predicate ReorderAccepted(rows: Rows, r: int, ids: seq<int>) {
    ReorderAcceptedAsWritten(rows, r, ids) && NoDuplicates(ids)
  }

  // ---------------------------------------------------------------------
  // The table.
  // ---------------------------------------------------------------------

  class RouteStopTable {
    /** Ids of the rows of `routes`. */
    var routes: set<int>
    /** The `stops` table. */
    var stops: map<int, Stop>
    /** The `route_stops` table, by `route_stop_id`. */
    var rows: Rows
    /** The next auto-increment `route_stop_id`. */
    var nextId: int

    predicate Valid()
      reads this
    {
      && (forall k :: k in rows ==> k < nextId)
      && (forall k :: k in rows ==> rows[k].stopId in stops)
      && UniquePairs(rows)
    }

    constructor(routes: set<int>, stops: map<int, Stop>)
      ensures Valid()
      ensures this.routes == routes && this.stops == stops && rows == map[]
    {
      this.routes := routes;
      this.stops := stops;
      rows := map[];
      nextId := 1;
    }

    /** Adds a stop to a route at position `n`, shifting the stops at `n`
        and after. Every validation error leaves the table as it was. */
    method AddStop(r: int, stopInput: Option<int>, sequenceInput: SequenceInput) returns (res: Result<int, AddStopError>)
      requires Valid()
      modifies this
      ensures Valid()
      ensures routes == old(routes) && stops == old(stops)
      ensures r !in routes ==> res == Err(RouteNotFound) && rows == old(rows) && nextId == old(nextId)
      ensures r in routes ==>
        var stopError := StopError(old(rows), stops, r, stopInput);
        var sequenceError := SequenceError(sequenceInput);
        && (stopError.Some? || sequenceError.Some? ==>
              res == Err(Invalid(stopError, sequenceError)) && rows == old(rows) && nextId == old(nextId))
        && (stopError.None? && sequenceError.None? ==>
              && res == Ok(old(nextId))
              && rows == Inserted(old(rows), old(nextId), r, stopInput.value, sequenceInput.n)
              && nextId == old(nextId) + 1)
    {
      if r !in routes {
        return Err(RouteNotFound);
      }
      var stopError := StopError(rows, stops, r, stopInput);
      var sequenceError := SequenceError(sequenceInput);
      if stopError.Some? || sequenceError.Some? {
        return Err(Invalid(stopError, sequenceError));
      }
      var id := nextId;
      assert id !in rows;
      InsertedKeepsPairs(rows, id, r, stopInput.value, sequenceInput.n);
      rows := Inserted(rows, id, r, stopInput.value, sequenceInput.n);
      nextId := nextId + 1;
      res := Ok(id);
    }

    /** Removes row `id` from route `r` and closes the gap it leaves. */
    method RemoveStop(r: int, id: int) returns (res: Result<(), RemoveStopError>)
      requires Valid()
      modifies this
      ensures Valid()
      ensures routes == old(routes) && stops == old(stops) && nextId == old(nextId)
      ensures !(id in old(rows) && old(rows)[id].routeId == r) ==> res == Err(RouteStopNotFound) && rows == old(rows)
      ensures id in old(rows) && old(rows)[id].routeId == r ==> res == Ok(()) && rows == Removed(old(rows), id)
    {
      if !(id in rows && rows[id].routeId == r) {
        return Err(RouteStopNotFound);
      }
      rows := Removed(rows, id);
      res := Ok(());
    }

    /** Renumbers route `r` by the positions in the given list, one update
        per listed id. Uses the intended check that also refuses repeats. */
    method Reorder(r: int, input: ReorderInput) returns (res: Result<(), ReorderError>)
      requires Valid()
      modifies this
      ensures Valid()
      ensures routes == old(routes) && stops == old(stops) && nextId == old(nextId)
      ensures r !in routes ==> res == Err(ReorderRouteNotFound) && rows == old(rows)
      ensures r in routes && (input.NotAList? || input.ids == []) ==> res == Err(NotANonEmptyList) && rows == old(rows)
      ensures r in routes && input.IdList? && input.ids != [] && !ReorderAccepted(old(rows), r, input.ids) ==>
        res == Err(IdsMismatch) && rows == old(rows)
      ensures r in routes && input.IdList? && ReorderAccepted(old(rows), r, input.ids) ==>
        res == Ok(()) && rows == Reordered(old(rows), input.ids)
    {
      if r !in routes {
        return Err(ReorderRouteNotFound);
      }
      if input.NotAList? || input.ids == [] {
        return Err(NotANonEmptyList);
      }
      var ids := input.ids;
      if !ReorderAccepted(rows, r, ids) {
        return Err(IdsMismatch);
      }
      ReorderedKeepsPairs(rows, ids);
      for i := 0 to |ids|
        invariant routes == old(routes) && stops == old(stops) && nextId == old(nextId)
        invariant rows == Reordered(old(rows), ids[..i])
      {
        ReorderedStep(old(rows), ids, i);
        if ids[i] in rows {
          rows := rows[ids[i] := rows[ids[i]].(sequence := i + 1)];
        }
      }
      assert ids[..|ids|] == ids;
      res := Ok(());
    }

    /** The passed-flag check-then-set: read one row of route `r` numbered
        `s`; if there is one and it is not yet passed, set the flag on every
        row so numbered. */
    method MarkPassed(r: int, s: int)
      requires Valid()
      modifies this
      ensures Valid()
      ensures routes == old(routes) && stops == old(stops) && nextId == old(nextId)
      ensures rows == old(rows) || rows == WithPassed(old(rows), r, s)
      ensures (forall k :: k in old(rows) && old(rows)[k].routeId == r && old(rows)[k].sequence == s ==> old(rows)[k].passed)
              ==> rows == old(rows)
      ensures (forall k :: k in old(rows) && old(rows)[k].routeId == r && old(rows)[k].sequence == s ==> !old(rows)[k].passed)
              ==> rows == WithPassed(old(rows), r, s)
      ensures Dense(old(rows), r) ==> rows == WithPassed(old(rows), r, s)
    {
      if k :| k in rows && rows[k].routeId == r && rows[k].sequence == s {
        if !rows[k].passed {
          WithPassedKeepsPairs(rows, r, s);
          rows := WithPassed(rows, r, s);
        } else if Dense(rows, r) {
          PassedRowOfDenseRoute(rows, r, s, k);
        }
      } else {
        forall k | k in rows ensures WithPassed(rows, r, s)[k] == rows[k] {
        }
        assert WithPassed(rows, r, s) == rows;
      }
    }

    /** The stops of route `r` with their locations, in sequence order: the
        location feed's `SELECT ... ORDER BY sequence_number`. */
    method StopsOf(r: int) returns (points: seq<StopPoint>)
      requires Valid()
      ensures SortedBy(points, SequenceKey)
      ensures |points| == |RouteKeys(rows, r)|
      ensures forall p :: p in points <==> exists k :: k in RouteKeys(rows, r) && p == PointOf(rows, stops, k)
      ensures Dense(rows, r) ==>
        && DistinctKeys(points, SequenceKey)
        && forall i :: 0 <= i < |points| ==> 1 <= points[i].sequence <= |points|
    {
      var ids := Enumerate(RouteKeys(rows, r));
      RouteQueryFacts(rows, stops, r, ids);
      points := SortBy(PointsOf(rows, stops, ids), SequenceKey);
    }

    /** Clears every passed flag of route `r`. */
    method ResetPassed(r: int)
      requires Valid()
      modifies this
      ensures Valid()
      ensures routes == old(routes) && stops == old(stops) && nextId == old(nextId)
      ensures rows == WithFlagsCleared(old(rows), r)
    {
      rows := WithFlagsCleared(rows, r);
    }
  }

  // ---------------------------------------------------------------------
  // Facts the methods need.
  // ---------------------------------------------------------------------

  lemma SomeElement(s: set<int>)
    requires s != {}
    ensures exists k :: k in s
  {
    if forall k :: k !in s {
      assert false;
    }
  }

  /** The elements of a finite set, each once, in some order. */
  method Enumerate(keys: set<int>) returns (ids: seq<int>)
    ensures NoDuplicates(ids) && (set j | j in ids) == keys
  {
    var remaining := keys;
    ids := [];
    while remaining != {}
      invariant remaining !! (set j | j in ids) && remaining + (set j | j in ids) == keys
      invariant NoDuplicates(ids)
      decreases |remaining|
    {
      SomeElement(remaining);
      var k :| k in remaining;
      ids := ids + [k];
      remaining := remaining - {k};
    }
  }

  function PointsOf(rows: Rows, stops: map<int, Stop>, ids: seq<int>): (points: seq<StopPoint>)
    requires forall k :: k in ids ==> k in rows && rows[k].stopId in stops
    ensures |points| == |ids| && forall i :: 0 <= i < |ids| ==> points[i] == PointOf(rows, stops, ids[i])
  {
    seq(|ids|, i requires 0 <= i < |ids| => PointOf(rows, stops, ids[i]))
  }

  /** The sorted points of a route's rows, listed once each. */
  lemma RouteQueryFacts(rows: Rows, stops: map<int, Stop>, r: int, ids: seq<int>)
    requires forall k :: k in rows ==> rows[k].stopId in stops
    requires NoDuplicates(ids) && (set j | j in ids) == RouteKeys(rows, r)
    ensures forall k :: k in ids ==> k in rows && rows[k].stopId in stops
    ensures var points := SortBy(PointsOf(rows, stops, ids), SequenceKey);
      && |points| == |RouteKeys(rows, r)|
      && (forall p :: p in points <==> exists k :: k in RouteKeys(rows, r) && p == PointOf(rows, stops, k))
      && (Dense(rows, r) ==>
            && DistinctKeys(points, SequenceKey)
            && forall i :: 0 <= i < |points| ==> 1 <= points[i].sequence <= |points|)
  {
    forall k | k in ids ensures k in rows && rows[k].stopId in stops {
      assert k in (set j | j in ids);
      assert k in RouteKeys(rows, r);
    }
    NoDuplicatesCard(ids);
    PointsOfMembership(rows, stops, r, ids);
    if Dense(rows, r) {
      PointsOfDense(rows, stops, r, ids);
    }
  }

  lemma PointsOfMembership(rows: Rows, stops: map<int, Stop>, r: int, ids: seq<int>)
    requires forall k :: k in ids ==> k in rows && rows[k].stopId in stops
    requires (set j | j in ids) == RouteKeys(rows, r)
    ensures forall p :: p in SortBy(PointsOf(rows, stops, ids), SequenceKey) <==>
      exists k :: k in RouteKeys(rows, r) && p == PointOf(rows, stops, k)
  {
    var unsorted := PointsOf(rows, stops, ids);
    SortedMembership(unsorted, SequenceKey);
    forall p ensures p in unsorted <==> exists k :: k in RouteKeys(rows, r) && p == PointOf(rows, stops, k) {
      if p in unsorted {
        var i :| 0 <= i < |unsorted| && unsorted[i] == p;
        assert ids[i] in (set j | j in ids);
      }
      if exists k :: k in RouteKeys(rows, r) && p == PointOf(rows, stops, k) {
        var k :| k in RouteKeys(rows, r) && p == PointOf(rows, stops, k);
        assert k in (set j | j in ids);
        var i :| 0 <= i < |ids| && ids[i] == k;
        assert unsorted[i] == p;
      }
    }
  }

  lemma PointsOfDense(rows: Rows, stops: map<int, Stop>, r: int, ids: seq<int>)
    requires forall k :: k in ids ==> k in rows && rows[k].stopId in stops
    requires NoDuplicates(ids) && (set j | j in ids) == RouteKeys(rows, r) && |ids| == |RouteKeys(rows, r)|
    requires Dense(rows, r)
    ensures var points := SortBy(PointsOf(rows, stops, ids), SequenceKey);
      && DistinctKeys(points, SequenceKey)
      && forall i :: 0 <= i < |points| ==> 1 <= points[i].sequence <= |points|
  {
    var unsorted := PointsOf(rows, stops, ids);
    var points := SortBy(unsorted, SequenceKey);
    forall i, j | 0 <= i < j < |unsorted| ensures SequenceKey(unsorted[i]) != SequenceKey(unsorted[j]) {
      assert ids[i] in (set x | x in ids) && ids[j] in (set x | x in ids);
    }
    SortByKeepsDistinctKeys(unsorted, SequenceKey);
    SortedMembership(unsorted, SequenceKey);
    forall i | 0 <= i < |points| ensures 1 <= points[i].sequence <= |points| {
      assert points[i] in unsorted;
      var j :| 0 <= j < |unsorted| && unsorted[j] == points[i];
      assert ids[j] in (set x | x in ids);
    }
  }

  lemma InsertedKeepsPairs(rows: Rows, id: int, r: int, stopId: int, n: int)
    requires id !in rows && UniquePairs(rows)
    requires forall k :: k in rows && rows[k].routeId == r ==> rows[k].stopId != stopId
    ensures UniquePairs(Inserted(rows, id, r, stopId, n))
  {
  }

  lemma ReorderedKeepsPairs(rows: Rows, ids: seq<int>)
    requires UniquePairs(rows)
    ensures forall i :: 0 <= i <= |ids| ==> UniquePairs(Reordered(rows, ids[..i]))
  {
  }

  lemma WithPassedKeepsPairs(rows: Rows, r: int, s: int)
    requires UniquePairs(rows)
    ensures UniquePairs(WithPassed(rows, r, s))
  {
  }

  /** One more update of the reorder loop. */
  lemma ReorderedStep(rows: Rows, ids: seq<int>, i: nat)
    requires i < |ids|
    ensures var before := Reordered(rows, ids[..i]);
      Reordered(rows, ids[..i + 1]) ==
        if ids[i] in before then before[ids[i] := before[ids[i]].(sequence := i + 1)] else before
  {
    var p, q := ids[..i], ids[..i + 1];
    assert q[..|q| - 1] == p;
    var before, after := Reordered(rows, p), Reordered(rows, q);
    var expected := if ids[i] in before then before[ids[i] := before[ids[i]].(sequence := i + 1)] else before;
    assert after.Keys == rows.Keys == expected.Keys;
    forall k | k in rows ensures after[k] == expected[k] {
      if k == ids[i] {
        assert LastIndex(q, k) == i;
        assert after[k] == rows[k].(sequence := i + 1);
      } else if k in p {
        assert k in q && LastIndex(q, k) == LastIndex(p, k);
        assert after[k] == before[k];
      } else {
        assert k !in q;
        assert after[k] == rows[k] == before[k];
      }
    }
    assert after == expected;
  }

  // ---------------------------------------------------------------------
  // What the renumbering operations promise.
  // ---------------------------------------------------------------------

  /** Inserting keeps the other routes exactly as they were. */
  lemma InsertKeepsOtherRoutes(rows: Rows, id: int, r: int, stopId: int, n: int, q: int)
    requires id !in rows && q != r
    ensures RouteKeys(Inserted(rows, id, r, stopId, n), q) == RouteKeys(rows, q)
    ensures forall k :: k in RouteKeys(rows, q) ==> Inserted(rows, id, r, stopId, n)[k] == rows[k]
    ensures Dense(Inserted(rows, id, r, stopId, n), q) <==> Dense(rows, q)
  {
    var m := Inserted(rows, id, r, stopId, n);
    assert RouteKeys(m, q) == RouteKeys(rows, q);
  }

  lemma InsertAddsOneKey(rows: Rows, id: int, r: int, stopId: int, n: int)
    requires id !in rows
    ensures RouteKeys(Inserted(rows, id, r, stopId, n), r) == RouteKeys(rows, r) + {id}
    ensures |RouteKeys(Inserted(rows, id, r, stopId, n), r)| == |RouteKeys(rows, r)| + 1
  {
    assert RouteKeys(Inserted(rows, id, r, stopId, n), r) == RouteKeys(rows, r) + {id};
  }

  /** On a route numbered 1..N, inserting at `n` (at least 1) gives a route
      numbered 1..N+1 exactly when `n <= N + 1`; a larger `n`, which the
      code does not refuse, leaves a gap. */
  lemma InsertKeepsDense(rows: Rows, id: int, r: int, stopId: int, n: int)
    requires id !in rows && Dense(rows, r) && n >= 1
    ensures |RouteKeys(Inserted(rows, id, r, stopId, n), r)| == |RouteKeys(rows, r)| + 1
    ensures Dense(Inserted(rows, id, r, stopId, n), r) <==> n <= |RouteKeys(rows, r)| + 1
  {
    InsertAddsOneKey(rows, id, r, stopId, n);
    if n <= |RouteKeys(rows, r)| + 1 {
      InsertInRangeKeepsDense(rows, id, r, stopId, n);
    } else {
      var m := Inserted(rows, id, r, stopId, n);
      assert id in RouteKeys(m, r) && m[id].sequence > |RouteKeys(m, r)|;
    }
  }

  lemma InsertInRangeKeepsDense(rows: Rows, id: int, r: int, stopId: int, n: int)
    requires id !in rows && Dense(rows, r) && 1 <= n <= |RouteKeys(rows, r)| + 1
    ensures Dense(Inserted(rows, id, r, stopId, n), r)
  {
    var m := Inserted(rows, id, r, stopId, n);
    var keys := RouteKeys(rows, r);
    InsertAddsOneKey(rows, id, r, stopId, n);
    forall k | k in RouteKeys(m, r) ensures 1 <= m[k].sequence <= |keys| + 1 {
      if k != id {
        assert k in keys;
      }
    }
    forall a, b | a in RouteKeys(m, r) && b in RouteKeys(m, r) && a != b ensures m[a].sequence != m[b].sequence {
      if a != id && b != id {
        assert a in keys && b in keys;
        assert rows[a].sequence != rows[b].sequence;
      } else if a == id {
        assert b in keys;
      } else {
        assert a in keys;
      }
    }
  }

  /** On a route numbered 1..N, removing one of its stops gives a route
      numbered 1..N-1. */
  lemma RemoveKeepsDense(rows: Rows, id: int)
    requires id in rows && Dense(rows, rows[id].routeId)
    ensures |RouteKeys(Removed(rows, id), rows[id].routeId)| == |RouteKeys(rows, rows[id].routeId)| - 1
    ensures Dense(Removed(rows, id), rows[id].routeId)
  {
    var r, d := rows[id].routeId, rows[id].sequence;
    var m := Removed(rows, id);
    var keys := RouteKeys(rows, r);
    assert RouteKeys(m, r) == keys - {id};
    forall k | k in RouteKeys(m, r) ensures 1 <= m[k].sequence <= |keys| - 1 {
      assert rows[k].sequence != d;
      if rows[k].sequence < d {
        assert d <= |keys|;
      }
    }
    forall a, b | a in RouteKeys(m, r) && b in RouteKeys(m, r) && a != b ensures m[a].sequence != m[b].sequence {
      assert rows[a].sequence != rows[b].sequence;
      assert rows[a].sequence != d && rows[b].sequence != d;
    }
  }

  /** Removing keeps the other routes exactly as they were. */
  lemma RemoveKeepsOtherRoutes(rows: Rows, id: int, q: int)
    requires id in rows && q != rows[id].routeId
    ensures RouteKeys(Removed(rows, id), q) == RouteKeys(rows, q)
    ensures forall k :: k in RouteKeys(rows, q) ==> Removed(rows, id)[k] == rows[k]
  {
    assert RouteKeys(Removed(rows, id), q) == RouteKeys(rows, q);
  }

  lemma {:induction false} NoDuplicatesCard(ids: seq<int>)
    requires NoDuplicates(ids)
    ensures |set k | k in ids| == |ids|
  {
    if ids != [] {
      var p := ids[..|ids| - 1];
      NoDuplicatesCard(p);
      assert (set k | k in ids) == (set k | k in p) + {ids[|ids| - 1]};
      assert ids[|ids| - 1] !in p;
    }
  }

  /** An accepted reorder (no id listed twice) numbers the route 1..N in
      list order, and touches no other route. */
  lemma ReorderGivesDense(rows: Rows, r: int, ids: seq<int>)
    requires ReorderAccepted(rows, r, ids)
    ensures forall i :: 0 <= i < |ids| ==> ids[i] in rows && Reordered(rows, ids)[ids[i]].sequence == i + 1
    ensures Dense(Reordered(rows, ids), r)
    ensures forall k :: k in rows && rows[k].routeId != r ==> Reordered(rows, ids)[k] == rows[k]
  {
    var m := Reordered(rows, ids);
    NoDuplicatesCard(ids);
    assert RouteKeys(m, r) == RouteKeys(rows, r);
    forall i | 0 <= i < |ids| ensures ids[i] in rows && m[ids[i]].sequence == i + 1 {
      assert ids[i] in (set k | k in ids);
      assert ids[i] in RouteKeys(rows, r);
      var j := LastIndex(ids, ids[i]);
      assert j == i;
      assert m[ids[i]] == rows[ids[i]].(sequence := j + 1);
    }
    forall k | k in rows && rows[k].routeId != r ensures m[k] == rows[k] {
      assert k !in RouteKeys(rows, r);
      assert k !in (set x | x in ids);
    }
  }

  /** The reorder check as written lets a repeated id through: on a route of
      two stops numbered 1 and 2, the list [1, 2, 1] passes it, and the
      first stop is renumbered 3, which leaves the route without a stop 1. */
  lemma DuplicateIdsBreakDensity()
    ensures var rows := map[1 := RouteStop(7, 100, 1, None, false), 2 := RouteStop(7, 200, 2, None, false)];
      var ids := [1, 2, 1];
      && Dense(rows, 7)
      && ReorderAcceptedAsWritten(rows, 7, ids)
      && !ReorderAccepted(rows, 7, ids)
      && Reordered(rows, ids)[1].sequence == 3
      && !Dense(Reordered(rows, ids), 7)
  {
    var rows := map[1 := RouteStop(7, 100, 1, None, false), 2 := RouteStop(7, 200, 2, None, false)];
    var ids := [1, 2, 1];
    assert RouteKeys(rows, 7) == {1, 2};
    assert Dense(rows, 7);
    assert (set k | k in ids) == {1, 2};
    assert ReorderAcceptedAsWritten(rows, 7, ids);
    assert !NoDuplicates(ids) by { assert ids[0] == ids[2]; }
    assert LastIndex(ids, 1) == 2;
    var m := Reordered(rows, ids);
    assert m[1].sequence == 3;
    assert 1 in RouteKeys(m, 7) && RouteKeys(m, 7) == {1, 2};
    assert |RouteKeys(m, 7)| == 2;
  }

  /** Setting or clearing passed flags never renumbers a route. */
  lemma FlagsKeepNumbering(rows: Rows, r: int, s: int, q: int)
    ensures Dense(WithPassed(rows, r, s), q) <==> Dense(rows, q)
    ensures Dense(WithFlagsCleared(rows, r), q) <==> Dense(rows, q)
  {
    assert RouteKeys(WithPassed(rows, r, s), q) == RouteKeys(rows, q);
    assert RouteKeys(WithFlagsCleared(rows, r), q) == RouteKeys(rows, q);
  }

  /** On a route numbered 1..N a sequence number names one row, so when
      that row is already passed, marking it changes nothing. */
  lemma PassedRowOfDenseRoute(rows: Rows, r: int, s: int, k: int)
    requires Dense(rows, r)
    requires k in rows && rows[k].routeId == r && rows[k].sequence == s && rows[k].passed
    ensures WithPassed(rows, r, s) == rows
  {
    forall j | j in rows ensures WithPassed(rows, r, s)[j] == rows[j] {
      if rows[j].routeId == r && rows[j].sequence == s {
        assert j in RouteKeys(rows, r) && k in RouteKeys(rows, r);
        assert j == k;
      }
    }
  }

  /** Marking a stop passed twice is the same as marking it once. */
  lemma WithPassedIdempotent(rows: Rows, r: int, s: int)
    ensures WithPassed(WithPassed(rows, r, s), r, s) == WithPassed(rows, r, s)
  {
    var once := WithPassed(rows, r, s);
    forall k | k in once ensures WithPassed(once, r, s)[k] == once[k] {
    }
  }
}
