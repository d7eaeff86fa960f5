/** server/src/route_manager.cpp: the in-memory route table, its sorted listing and its event log. */
module RouteManager {
  import opened Bytes

  const UNSPECIFIED := 0

  datatype Route = Route(id: string, family: nat, destination: string, gateway: string,
                         interfaceName: string, metric: nat, protocol: nat, active: bool,
                         createdUs: int, updatedUs: int, tags: map<string, string>)

  datatype AddRequest = AddRequest(family: nat, destination: string, gateway: string,
                                   interfaceName: string, metric: nat, protocol: nat, tags: map<string, string>)

  datatype ListRequest = ListRequest(family: nat, protocol: nat, activeOnly: bool)

  datatype Event = Added(route: Route) | Removed(route: Route)

  datatype RouteError = EmptyDestination | NotFound

  type Table = map<string, Route>

  predicate Mentioned(evs: seq<Event>, id: string) {
    exists i :: 0 <= i < |evs| && evs[i].route.id == id
  }

  function At(t: Table, id: string): Option<Route> {
    if id in t then Some(t[id]) else None
  }

  lemma SameTable(a: Table, b: Table)
    ensures a == b <==> forall id :: At(a, id) == At(b, id)
  {
    if forall id :: At(a, id) == At(b, id) {
      assert forall id :: id in a <==> At(a, id).Some?;
      assert forall id :: id in b <==> At(b, id).Some?;
      assert forall id :: id in a ==> At(a, id) == Some(a[id]) && At(b, id) == Some(b[id]);
    }
  }

  // ----- the table as a function of the calls

  function NewRoute(req: AddRequest, id: string, now: int): Route {
    Route(id, req.family, req.destination, req.gateway, req.interfaceName, req.metric, req.protocol, true, now, now,
          req.tags)
  }

  /** Inserting never replaces an entry that is already there. */
  function Emplaced(t: Table, r: Route): Table {
    if r.id in t then t else t[r.id := r]
  }

  /** The calls of the table's users, with the identifier and time the server generates. */
  datatype Op = Add(req: AddRequest, id: string, now: int) | Remove(id: string)

  function TableAfter(t: Table, op: Op): Table {
    match op
    case Add(req, id, now) => if req.destination == "" then t else Emplaced(t, NewRoute(req, id, now))
    case Remove(id) => t - {id}
  }

  function EventsOf(t: Table, op: Op): seq<Event> {
    match op
    case Add(req, id, now) => if req.destination == "" then [] else [Added(NewRoute(req, id, now))]
    case Remove(id) => if id in t then [Removed(t[id])] else []
  }

  function TableAfterAll(t: Table, ops: seq<Op>): Table
    decreases |ops|
  {
    if ops == [] then t else TableAfterAll(TableAfter(t, ops[0]), ops[1..])
  }

  function AllEvents(t: Table, ops: seq<Op>): seq<Event>
    decreases |ops|
  {
    if ops == [] then [] else EventsOf(t, ops[0]) + AllEvents(TableAfter(t, ops[0]), ops[1..])
  }

  // ----- replaying events

  function Replayed(t: Table, ev: Event): Table {
    match ev
    case Added(r) => t[r.id := r]
    case Removed(r) => t - {r.id}
  }

  function Replay(t: Table, evs: seq<Event>): Table
    decreases |evs|
  {
    if evs == [] then t else Replay(Replayed(t, evs[0]), evs[1..])
  }

  lemma {:induction false} ReplayConcat(t: Table, a: seq<Event>, b: seq<Event>)
    ensures Replay(t, a + b) == Replay(Replay(t, a), b)
    decreases |a|
  {
    if a == [] {
      assert a + b == b;
    } else {
      assert (a + b)[1..] == a[1..] + b;
      ReplayConcat(Replayed(t, a[0]), a[1..], b);
    }
  }

  /** Every entry is stored under its own identifier. */
  predicate Keyed(t: Table) {
    forall id :: id in t ==> t[id].id == id
  }

  /** The identifier generated for an addition is new, or names the very same route. */
  predicate FreshOp(t: Table, op: Op) {
    op.Add? && op.req.destination != "" ==> op.id !in t || t[op.id] == NewRoute(op.req, op.id, op.now)
  }

  predicate FreshOps(t: Table, ops: seq<Op>)
    decreases |ops|
  {
    ops != [] ==> FreshOp(t, ops[0]) && FreshOps(TableAfter(t, ops[0]), ops[1..])
  }

  /** One call's events turn the old table into the new one exactly when the identifier was fresh. */
  lemma ReplayStep(t: Table, op: Op)
    requires Keyed(t)
    ensures Keyed(TableAfter(t, op))
    ensures Replay(t, EventsOf(t, op)) == TableAfter(t, op) <==> FreshOp(t, op)
  {
    var evs := EventsOf(t, op);
    if evs != [] {
      assert evs[1..] == [];
      assert Replay(t, evs) == Replayed(t, evs[0]);
      if op.Add? && op.id in t {
        assert Replayed(t, evs[0])[op.id] == NewRoute(op.req, op.id, op.now);
      }
      if op.Add? && FreshOp(t, op) {
        assert Replayed(t, evs[0]) == TableAfter(t, op);
      }
    } else if op.Remove? {
      assert t - {op.id} == t;
    }
  }

  /** Over any run with fresh identifiers, the events since a point turn the table of then into the table of now. */
  lemma {:induction false} ReplayRun(t: Table, ops: seq<Op>)
    requires Keyed(t) && FreshOps(t, ops)
    ensures Replay(t, AllEvents(t, ops)) == TableAfterAll(t, ops)
    decreases |ops|
  {
    if ops != [] {
      ReplayStep(t, ops[0]);
      ReplayRun(TableAfter(t, ops[0]), ops[1..]);
      ReplayConcat(t, EventsOf(t, ops[0]), AllEvents(TableAfter(t, ops[0]), ops[1..]));
    }
  }

  // ----- one address family

  predicate FamilyMatches(family: nat, r: Route) {
    family == UNSPECIFIED || r.family == family
  }

  function OfFamily(t: Table, family: nat): Table {
    map id | id in t && FamilyMatches(family, t[id]) :: t[id]
  }

  function EventsOfFamily(evs: seq<Event>, family: nat): seq<Event> {
    if evs == [] then []
    else (if FamilyMatches(family, evs[0].route) then [evs[0]] else []) + EventsOfFamily(evs[1..], family)
  }

  lemma {:induction false} EventsOfFamilyConcat(a: seq<Event>, b: seq<Event>, family: nat)
    ensures EventsOfFamily(a + b, family) == EventsOfFamily(a, family) + EventsOfFamily(b, family)
  {
    if a == [] {
      assert a + b == b;
    } else {
      assert (a + b)[1..] == a[1..] + b;
      EventsOfFamilyConcat(a[1..], b, family);
      var head := if FamilyMatches(family, a[0].route) then [a[0]] else [];
      ConcatAssoc(head, EventsOfFamily(a[1..], family), EventsOfFamily(b, family));
    }
  }

  lemma FamilyStep(t: Table, op: Op, family: nat)
    requires Keyed(t) && FreshOp(t, op)
    ensures Replay(OfFamily(t, family), EventsOfFamily(EventsOf(t, op), family)) == OfFamily(TableAfter(t, op), family)
  {
    var evs := EventsOf(t, op);
    ReplayStep(t, op);
    if evs == [] {
      assert TableAfter(t, op) == t;
    } else {
      assert evs[1..] == [];
      var u, v := OfFamily(t, family), OfFamily(TableAfter(t, op), family);
      assert TableAfter(t, op) == Replayed(t, evs[0]);
      if FamilyMatches(family, evs[0].route) {
        assert EventsOfFamily(evs, family) == [evs[0]] && [evs[0]][1..] == [];
        assert Replayed(u, evs[0]) == v;
      } else {
        assert EventsOfFamily(evs, family) == [];
        assert u == v;
      }
    }
  }

  /** A watcher that sees one address family only reconstructs exactly that part of the table. */
  lemma {:induction false} FamilyReplayRun(t: Table, ops: seq<Op>, family: nat)
    requires Keyed(t) && FreshOps(t, ops)
    ensures Replay(OfFamily(t, family), EventsOfFamily(AllEvents(t, ops), family))
         == OfFamily(TableAfterAll(t, ops), family)
    decreases |ops|
  {
    if ops != [] {
      var u := TableAfter(t, ops[0]);
      ReplayStep(t, ops[0]);
      FamilyStep(t, ops[0], family);
      FamilyReplayRun(u, ops[1..], family);
      var now, later := EventsOf(t, ops[0]), AllEvents(u, ops[1..]);
      EventsOfFamilyConcat(now, later, family);
      ReplayConcat(OfFamily(t, family), EventsOfFamily(now, family), EventsOfFamily(later, family));
    }
  }

  // ----- listing

  /** Lexicographic order of identifiers. */
  predicate LexLess(a: string, b: string) {
    b != [] && (a == [] || a[0] < b[0] || (a[0] == b[0] && LexLess(a[1..], b[1..])))
  }

  /** Two identifiers agree before position k. */
  predicate FirstDifference(a: string, b: string, k: nat) {
    k <= |a| && k <= |b| && a[..k] == b[..k]
  }

  lemma {:induction false} LexTotal(a: string, b: string)
    ensures a == b || LexLess(a, b) || LexLess(b, a)
    ensures !(LexLess(a, b) && LexLess(b, a)) && !LexLess(a, a)
  {
    if a != [] {
      LexTotal(a[1..], if b == [] then [] else b[1..]);
      assert a == [a[0]] + a[1..];
      assert b != [] ==> b == [b[0]] + b[1..];
    }
  }

  /** The smaller identifier runs out first, or has the smaller character where the two first differ. */
  lemma {:induction false} LexLessMeans(a: string, b: string)
    ensures LexLess(a, b) <==> exists k: nat :: FirstDifference(a, b, k) && k < |b| && (k == |a| || a[k] < b[k])
  {
    if a == [] || b == [] || a[0] != b[0] {
      assert FirstDifference(a, b, 0);
      forall k: nat | k > 0 && k <= |a| && k <= |b|
        ensures !FirstDifference(a, b, k)
      {
        assert a[0] == a[..k][0] && b[0] == b[..k][0];
      }
    } else {
      LexLessMeans(a[1..], b[1..]);
      forall k: nat
        ensures FirstDifference(a, b, k + 1) <==> FirstDifference(a[1..], b[1..], k)
      {
        if k < |a| && k < |b| {
          assert a[..k + 1] == [a[0]] + a[1..][..k] && b[..k + 1] == [b[0]] + b[1..][..k];
          assert a[1..][..k] == a[..k + 1][1..] && b[1..][..k] == b[..k + 1][1..];
        }
      }
      if LexLess(a, b) {
        var k: nat :| FirstDifference(a[1..], b[1..], k) && k < |b[1..]| && (k == |a[1..]| || a[1..][k] < b[1..][k]);
        assert FirstDifference(a, b, k + 1);
      }
      if m: nat :| FirstDifference(a, b, m) && m < |b| && (m == |a| || a[m] < b[m]) {
        assert m > 0;
        assert FirstDifference(a[1..], b[1..], m - 1);
      }
    }
  }

  lemma {:induction false} LexTransitive(a: string, b: string, c: string)
    requires LexLess(a, b) && LexLess(b, c)
    ensures LexLess(a, c)
  {
    if a != [] && a[0] == b[0] && b[0] == c[0] {
      LexTransitive(a[1..], b[1..], c[1..]);
    }
  }

  predicate Before(a: Route, b: Route) {
    a.metric < b.metric || (a.metric == b.metric && LexLess(a.id, b.id))
  }

  lemma BeforeTotal(a: Route, b: Route)
    ensures a.id == b.id || Before(a, b) || Before(b, a)
    ensures !(Before(a, b) && Before(b, a)) && !Before(a, a)
  {
    LexTotal(a.id, b.id);
    LexTotal(a.id, a.id);
  }

  lemma BeforeTransitive(a: Route, b: Route, c: Route)
    requires Before(a, b) && Before(b, c)
    ensures Before(a, c)
  {
    if a.metric == b.metric == c.metric {
      LexTransitive(a.id, b.id, c.id);
    }
  }

  predicate Sorted(s: seq<Route>) {
    forall i, j :: 0 <= i < j < |s| ==> Before(s[i], s[j])
  }

  ghost predicate SameMembers(s: seq<Route>, t: seq<Route>) {
    forall r :: r in s <==> r in t
  }

  lemma HeadIsMember(s: seq<Route>)
    ensures s == [] || s[0] in s
  {
  }

  lemma HeadOnce(s: seq<Route>)
    requires Sorted(s) && s != []
    ensures forall r :: r in s[1..] <==> r in s && r != s[0]
  {
    BeforeTotal(s[0], s[0]);
    assert s == [s[0]] + s[1..];
  }

  /** There is only one sorted listing of a collection of routes. */
  lemma {:induction false} SortedUnique(s: seq<Route>, t: seq<Route>)
    requires Sorted(s) && Sorted(t) && SameMembers(s, t)
    ensures s == t
  {
    HeadIsMember(t);
    if s == [] {
    } else {
      assert s[0] in s && s[0] in t;
      var i :| 0 <= i < |t| && t[i] == s[0];
      assert t[0] in t && t[0] in s;
      var j :| 0 <= j < |s| && s[j] == t[0];
      BeforeTotal(s[0], t[0]);
      assert s[0] == t[0];
      HeadOnce(s);
      HeadOnce(t);
      SortedUnique(s[1..], t[1..]);
    }
  }

  method Insert(s: seq<Route>, r: Route) returns (t: seq<Route>)
    requires Sorted(s) && forall x :: x in s ==> x.id != r.id
    ensures Sorted(t) && forall x :: x in t <==> x == r || x in s
  {
    var i := 0;
    while i < |s| && Before(s[i], r)
      invariant i <= |s|
      invariant forall k :: 0 <= k < i ==> Before(s[k], r)
    {
      i := i + 1;
    }
    forall k | i <= k < |s|
      ensures Before(r, s[k])
    {
      BeforeTotal(r, s[i]);
      if i < k {
        BeforeTransitive(r, s[i], s[k]);
      }
    }
    t := s[..i] + [r] + s[i..];
  }

  predicate DistinctIds(s: seq<Route>) {
    forall i, j :: 0 <= i < j < |s| ==> s[i].id != s[j].id
  }

  /** Stands for the library sort: any method meeting this contract will do. */
  method Sort(s: seq<Route>) returns (t: seq<Route>)
    requires DistinctIds(s)
    ensures Sorted(t) && SameMembers(s, t)
  {
    t := [];
    for i := 0 to |s|
      invariant Sorted(t) && SameMembers(s[..i], t)
    {
      forall x | x in t
        ensures x.id != s[i].id
      {
        assert x in s[..i];
      }
      t := Insert(t, s[i]);
      assert s[..i + 1] == s[..i] + [s[i]];
    }
    assert s[..|s|] == s;
  }

  predicate Matches(req: ListRequest, r: Route) {
    && FamilyMatches(req.family, r)
    && (req.protocol == UNSPECIFIED || r.protocol == req.protocol)
    && (req.activeOnly ==> r.active)
  }

  /** What a listing must be: the matching routes, each once, in order. SortedUnique makes it unique. */
  ghost predicate IsListing(t: Table, req: ListRequest, s: seq<Route>) {
    Sorted(s) && forall r :: r in s <==> r.id in t && t[r.id] == r && Matches(req, r)
  }

  /** The listing is a function of the table and the request. */
  lemma ListingUnique(t: Table, req: ListRequest, a: seq<Route>, b: seq<Route>)
    requires IsListing(t, req, a) && IsListing(t, req, b)
    ensures a == b
  {
    SortedUnique(a, b);
  }

  // ----- the object

  class Manager {
    var routes: Table
    /** Each registered observer as the log of the events it has been given. */
    var observers: map<nat, seq<Event>>
    var nextHandle: nat
    /** The table at the time each observer registered. */
    ghost var bases: map<nat, Table>

    ghost predicate Valid()
      reads this
    {
      && Keyed(routes)
      && bases.Keys == observers.Keys
      && forall h :: h in observers ==> h < nextHandle
    }

    /** Every observer can reconstruct the current table from what it has been given. */
    ghost predicate InStep()
      reads this
      requires Valid()
    {
      forall h :: h in observers ==> Replay(bases[h], observers[h]) == routes
    }

    constructor ()
      ensures Valid() && InStep() && routes == map[] && observers == map[]
    {
      routes, observers, bases, nextHandle := map[], map[], map[], 0;
    }

    method AddRoute(req: AddRequest, id: string, now: int) returns (r: Result<Route, RouteError>)
      requires Valid()
      modifies this
      ensures Valid() && bases == old(bases) && nextHandle == old(nextHandle)
      ensures req.destination == "" ==> r == Err(EmptyDestination) && routes == old(routes)
      ensures req.destination == "" ==> observers == old(observers)
      ensures req.destination != "" ==> r.Ok? && r.value.id == id && r.value.family == req.family
      ensures req.destination != "" ==> r.value.destination == req.destination && r.value.gateway == req.gateway
      ensures req.destination != "" ==> r.value.interfaceName == req.interfaceName && r.value.metric == req.metric
      ensures req.destination != "" ==> r.value.protocol == req.protocol && r.value.active && r.value.tags == req.tags
      ensures req.destination != "" ==> r.value.createdUs == now && r.value.updatedUs == now
      ensures req.destination != "" ==> routes == if id in old(routes) then old(routes) else old(routes)[id := r.value]
      ensures req.destination != "" ==>
        observers == map h | h in old(observers) :: old(observers)[h] + [Added(r.value)]
      ensures routes == TableAfter(old(routes), Add(req, id, now))
      ensures observers == map h | h in old(observers) :: old(observers)[h] + EventsOf(old(routes), Add(req, id, now))
      ensures old(InStep()) && FreshOp(old(routes), Add(req, id, now)) ==> InStep()
    {
      if req.destination == "" {
        assert forall h :: h in observers ==> observers[h] + [] == observers[h];
        return Err(EmptyDestination);
      }
      ReplayStep(routes, Add(req, id, now));
      var route := Route(id, req.family, req.destination, req.gateway, req.interfaceName, req.metric, req.protocol,
                         true, now, now, req.tags);
      if id !in routes {
        routes := routes[id := route];
      }
      Notify(Added(route));
      LogsReplay(bases, old(observers), old(routes), Add(req, id, now));
      return Ok(route);
    }

    method RemoveRoute(id: string) returns (r: Result<(), RouteError>)
      requires Valid()
      modifies this
      ensures Valid() && bases == old(bases) && nextHandle == old(nextHandle)
      ensures r == if id in old(routes) then Ok(()) else Err(NotFound)
      ensures routes.Keys == old(routes).Keys - {id} && forall k :: k in routes ==> routes[k] == old(routes)[k]
      ensures id !in old(routes) ==> observers == old(observers)
      ensures id in old(routes) ==>
        observers == map h | h in old(observers) :: old(observers)[h] + [Removed(old(routes)[id])]
      ensures routes == TableAfter(old(routes), Remove(id))
      ensures observers == map h | h in old(observers) :: old(observers)[h] + EventsOf(old(routes), Remove(id))
      ensures old(InStep()) ==> InStep()
    {
      if id !in routes {
        assert forall h :: h in observers ==> observers[h] + [] == observers[h];
        assert routes - {id} == routes;
        return Err(NotFound);
      }
      ReplayStep(routes, Remove(id));
      var removed := routes[id];
      routes := routes - {id};
      Notify(Removed(removed));
      LogsReplay(bases, old(observers), old(routes), Remove(id));
      return Ok(());
    }

    /** Every observer registered when the snapshot is taken is called once. */
    method Notify(ev: Event)
      modifies this`observers
      ensures observers == map h | h in old(observers) :: old(observers)[h] + [ev]
    {
      var snapshot := observers.Keys;
      while snapshot != {}
        invariant snapshot <= observers.Keys == old(observers).Keys
        invariant forall h :: h in observers ==>
          observers[h] == if h in snapshot then old(observers)[h] else old(observers)[h] + [ev]
        decreases |snapshot|
      {
        var h :| h in snapshot;
        observers := observers[h := observers[h] + [ev]];
        snapshot := snapshot - {h};
      }
    }

    method RegisterObserver() returns (h: nat)
      requires Valid()
      modifies this
      ensures Valid() && h !in old(observers) && routes == old(routes) && nextHandle == h + 1
      ensures observers == old(observers)[h := []] && bases == old(bases)[h := routes]
      ensures old(InStep()) ==> InStep()
    {
      h := nextHandle;
      nextHandle := nextHandle + 1;
      observers := observers[h := []];
      bases := bases[h := routes];
    }

    method UnregisterObserver(h: nat)
      requires Valid()
      modifies this
      ensures Valid() && routes == old(routes) && nextHandle == old(nextHandle)
      ensures observers == old(observers) - {h} && bases == old(bases) - {h}
      ensures old(InStep()) ==> InStep()
    {
      observers := observers - {h};
      bases := bases - {h};
    }

    method GetRoute(id: string) returns (r: Result<Route, RouteError>)
      ensures r == if id in routes then Ok(routes[id]) else Err(NotFound)
    {
      if id !in routes {
        return Err(NotFound);
      }
      return Ok(routes[id]);
    }

    /** The table is visited in no particular order; the sort makes the answer a function of the table. */
    method ListRoutes(req: ListRequest) returns (result: seq<Route>)
      requires Valid()
      ensures IsListing(routes, req, result)
      ensures forall r :: r in result ==> r.id in routes && routes[r.id] == r
      ensures forall id :: id in routes ==> (routes[id] in result <==>
        && (req.family == 0 || routes[id].family == req.family)
        && (req.protocol == 0 || routes[id].protocol == req.protocol)
        && (!req.activeOnly || routes[id].active))
      ensures forall i, j :: 0 <= i < j < |result| ==>
        || result[i].metric < result[j].metric
        || (result[i].metric == result[j].metric && LexLess(result[i].id, result[j].id))
    {
      result := [];
      var ids := routes.Keys;
      while ids != {}
        invariant ids <= routes.Keys
        invariant DistinctIds(result)
        invariant forall r :: r in result <==> r.id in routes && r.id !in ids && routes[r.id] == r && Matches(req, r)
        decreases |ids|
      {
        var id :| id in ids;
        ids := ids - {id};
        var route := routes[id];
        if req.family != UNSPECIFIED && route.family != req.family {
          continue;
        }
        if req.protocol != UNSPECIFIED && route.protocol != req.protocol {
          continue;
        }
        if req.activeOnly && !route.active {
          continue;
        }
        assert forall k :: 0 <= k < |result| ==> result[k] in result && result[k].id != id;
        result := result + [route];
      }
      result := Sort(result);
    }
  }

  /** Appending one call's events to logs that reproduce the table keeps them reproducing it. */
  lemma LogsReplay(bases: map<nat, Table>, logs: map<nat, seq<Event>>, t: Table, op: Op)
    requires Keyed(t) && bases.Keys == logs.Keys
    ensures FreshOp(t, op) ==> forall h :: h in logs && Replay(bases[h], logs[h]) == t ==>
      Replay(bases[h], logs[h] + EventsOf(t, op)) == TableAfter(t, op)
  {
    ReplayStep(t, op);
    forall h | h in logs
      ensures Replay(bases[h], logs[h] + EventsOf(t, op)) == Replay(Replay(bases[h], logs[h]), EventsOf(t, op))
    {
      ReplayConcat(bases[h], logs[h], EventsOf(t, op));
    }
  }
}
