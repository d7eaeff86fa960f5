/**
 * client/src/main.cpp, nlWatchCb: the client's table of tracked kernel routes against the server's route
 * table, as one system. Each remote call either is delivered, or is lost on the way out without effect, or
 * takes effect with its reply lost.
 */
module Mirror {
  import opened Bytes
  import opened RouteManager

  datatype Kind = ADDED | CHANGED | REMOVED

  /** What becomes of an addition; an identifier is generated by the server when the request arrives. */
  datatype AddRpc = AddDelivered(id: string) | RequestLost | ReplyLost(id: string)

  /** A kernel event and the fate of the remote calls it causes: one addition, and removals of which some are lost. */
  datatype RouteChange = RouteChange(kind: Kind, ospf: bool, dest: string, gw: string, iface: string, metric: nat,
                                     table: nat, rpc: AddRpc, lostRemovals: set<string>, now: int)

  datatype Entry = Entry(dest: string, gateway: string, iface: string, metric: nat, table: nat, srmdId: string)

  type Tracked = map<string, Entry>

  datatype Sys = Sys(tracked: Tracked, live: Table)

  const IPV4 := 1
  const OSPF := 3

  function Key(dest: string, gw: string, iface: string): string {
    dest + "|" + gw + "|" + iface
  }

  /** Destinations are printed as a.b.c.d/n and gateways as a.b.c.d or nothing; interface names may be anything. */
  predicate Printed(dest: string, gw: string) {
    '|' !in dest && '|' !in gw
  }

  lemma SplitAtBar(a: string, b: string, s: string, t: string)
    requires '|' !in a && '|' !in b && a + "|" + s == b + "|" + t
    ensures a == b && s == t
  {
    var u := a + "|" + s;
    assert u[|a|] == '|' && forall i :: 0 <= i < |a| ==> u[i] == a[i] && a[i] in a;
    assert (b + "|" + t)[|b|] == '|' && forall i :: 0 <= i < |b| ==> (b + "|" + t)[i] == b[i] && b[i] in b;
    assert |a| == |b|;
    assert a == u[..|a|] && b == (b + "|" + t)[..|b|];
    assert s == u[|a| + 1..] && t == (b + "|" + t)[|b| + 1..];
  }

  /** Different routes have different keys. */
  lemma KeyInjective(d: string, g: string, i: string, d': string, g': string, i': string)
    requires Printed(d, g) && Printed(d', g') && Key(d, g, i) == Key(d', g', i')
    ensures d == d' && g == g' && i == i'
  {
    ConcatAssoc(d + "|", g + "|", i);
    ConcatAssoc(d + "|", g, "|");
    ConcatAssoc(d' + "|", g' + "|", i');
    ConcatAssoc(d' + "|", g', "|");
    SplitAtBar(d, d', g + "|" + i, g' + "|" + i');
    SplitAtBar(g, g', i, i');
  }

  // ----- the system as a function of the events

  function Request(c: RouteChange): AddRequest {
    AddRequest(IPV4, c.dest, c.gw, c.iface, c.metric, OSPF, map[])
  }

  function LiveAfterAdd(live: Table, c: RouteChange): Table {
    match c.rpc
    case RequestLost => live
    case AddDelivered(id) => TableAfter(live, Add(Request(c), id, c.now))
    case ReplyLost(id) => TableAfter(live, Add(Request(c), id, c.now))
  }

  /** The identifier the client stores: empty after any failure, a rejected request included. */
  function StoredId(c: RouteChange): string {
    if c.rpc.AddDelivered? && c.dest != "" then c.rpc.id else ""
  }

  function ChangeKey(c: RouteChange): string {
    Key(c.dest, c.gw, c.iface)
  }

  function AddedTo(s: Sys, c: RouteChange): Sys {
    Sys(s.tracked[ChangeKey(c) := Entry(c.dest, c.gw, c.iface, c.metric, c.table, StoredId(c))],
        LiveAfterAdd(s.live, c))
  }

  function StaleKeys(t: Tracked, dest: string): set<string> {
    set k | k in t && t[k].dest == dest
  }

  /** The server identifiers held by some of the tracked entries. */
  function IdsOf(t: Tracked, keys: set<string>): set<string> {
    set k | k in keys && k in t && t[k].srmdId != "" :: t[k].srmdId
  }

  function Withdrawn(s: Sys, keys: set<string>, lost: set<string>): Sys {
    Sys(s.tracked - keys, s.live - (IdsOf(s.tracked, keys) - lost))
  }

  function Step(s: Sys, c: RouteChange): Sys {
    if !c.ospf then s else
    match c.kind
    case ADDED => AddedTo(s, c)
    case CHANGED => AddedTo(Withdrawn(s, StaleKeys(s.tracked, c.dest), c.lostRemovals), c)
    case REMOVED => Withdrawn(s, {ChangeKey(c)}, c.lostRemovals)
  }

  function Run(s: Sys, cs: seq<RouteChange>): Sys
    decreases |cs|
  {
    if cs == [] then s else Run(Step(s, cs[0]), cs[1..])
  }

  // ----- what an event does, written out

  /** An entry for the event with this server identifier. */
  predicate EntryFor(e: Entry, c: RouteChange, id: string) {
    && e.dest == c.dest && e.gateway == c.gw && e.iface == c.iface && e.metric == c.metric && e.table == c.table
    && e.srmdId == id
  }

  /** The identifier of a route is stored only if a reply arrives, and an empty destination is rejected. */
  predicate IdHeard(c: RouteChange, id: string) {
    id == match c.rpc
      case AddDelivered(given) => if c.dest == "" then "" else given
      case RequestLost => ""
      case ReplyLost(_) => ""
  }

  /** The route that an addition leaves on the server if it arrives, with its generated identifier. */
  predicate RouteFor(r: Route, c: RouteChange, id: string) {
    && r.id == id && r.family == 1 && r.destination == c.dest && r.gateway == c.gw && r.interfaceName == c.iface
    && r.metric == c.metric && r.protocol == 3 && r.active && r.createdUs == c.now && r.updatedUs == c.now
    && r.tags == map[]
  }

  /** The client's table before and after an event, whatever becomes of the remote calls. */
  predicate TracksEvent(t: Tracked, u: Tracked, c: RouteChange) {
    var key := c.dest + "|" + c.gw + "|" + c.iface;
    if !c.ospf then u == t
    else match c.kind
      case ADDED =>
        && key in u && IdHeard(c, u[key].srmdId) && EntryFor(u[key], c, u[key].srmdId)
        && u - {key} == t - {key}
      case CHANGED =>
        && key in u && IdHeard(c, u[key].srmdId) && EntryFor(u[key], c, u[key].srmdId)
        && u - {key} == (map k | k in t && t[k].dest != c.dest :: t[k]) - {key}
      case REMOVED => u == t - {key}
  }

  lemma {:induction false} StepTracks(s: Sys, c: RouteChange)
    ensures TracksEvent(s.tracked, Step(s, c).tracked, c)
  {
    var key := c.dest + "|" + c.gw + "|" + c.iface;
    assert ChangeKey(c) == key;
    if c.ospf && c.kind != REMOVED {
      var kept := if c.kind == ADDED then s.tracked else s.tracked - StaleKeys(s.tracked, c.dest);
      var u := Step(s, c).tracked;
      assert u - {key} == kept - {key};
      assert c.kind == CHANGED ==> kept == map k | k in s.tracked && s.tracked[k].dest != c.dest :: s.tracked[k];
    }
  }

  /** The server identifiers an event asks to remove. */
  predicate Withdraws(t: Tracked, c: RouteChange, id: string) {
    && c.ospf && id != ""
    && match c.kind
       case ADDED => false
       case CHANGED => exists k :: k in t && t[k].dest == c.dest && t[k].srmdId == id
       case REMOVED =>
         var key := c.dest + "|" + c.gw + "|" + c.iface;
         key in t && t[key].srmdId == id
  }

  /** An addition that reaches the server and is not rejected. */
  predicate Arrives(c: RouteChange) {
    c.ospf && c.kind != REMOVED && c.dest != "" && !c.rpc.RequestLost?
  }

  /** The server's table before and after an event: each removal that is not lost, then the addition if it arrives. */
  ghost predicate ServesEvent(t: Tracked, live: Table, after: Table, c: RouteChange) {
    && (forall id :: id in after <==>
         || (id in live && (!Withdraws(t, c, id) || id in c.lostRemovals))
         || (Arrives(c) && id == c.rpc.id))
    && (forall id :: id in after && id in live && (!Withdraws(t, c, id) || id in c.lostRemovals) ==>
         after[id] == live[id])
    && (Arrives(c) && c.rpc.id !in live ==> RouteFor(after[c.rpc.id], c, c.rpc.id))
  }

  lemma StepServed(s: Sys, c: RouteChange)
    ensures ServesEvent(s.tracked, s.live, Step(s, c).live, c)
  {
    assert ChangeKey(c) == c.dest + "|" + c.gw + "|" + c.iface;
    if c.ospf && c.kind != ADDED {
      var keys := if c.kind == CHANGED then StaleKeys(s.tracked, c.dest) else {ChangeKey(c)};
      forall id
        ensures id in IdsOf(s.tracked, keys) <==> Withdraws(s.tracked, c, id)
      {
      }
    }
  }

  /** Two tables with the same keys and the same fields, but for the server identifiers. */
  predicate SameRoutes(t: Tracked, u: Tracked) {
    t.Keys == u.Keys && forall k :: k in t ==> t[k].(srmdId := "") == u[k].(srmdId := "")
  }

  /** Two events that differ only in what becomes of the remote calls. */
  predicate SameEvent(c: RouteChange, d: RouteChange) {
    && c.kind == d.kind && c.ospf == d.ospf && c.dest == d.dest && c.gw == d.gw && c.iface == d.iface
    && c.metric == d.metric && c.table == d.table
  }

  lemma SameStep(s: Sys, t: Sys, c: RouteChange, d: RouteChange)
    requires SameRoutes(s.tracked, t.tracked) && SameEvent(c, d)
    ensures SameRoutes(Step(s, c).tracked, Step(t, d).tracked)
  {
    assert StaleKeys(s.tracked, c.dest) == StaleKeys(t.tracked, d.dest);
  }

  /** What the client tracks does not depend on what becomes of its remote calls. */
  lemma {:induction false} TrackingIndependent(s: Sys, t: Sys, cs: seq<RouteChange>, ds: seq<RouteChange>)
    requires SameRoutes(s.tracked, t.tracked)
    requires |cs| == |ds| && forall i :: 0 <= i < |cs| ==> SameEvent(cs[i], ds[i])
    ensures SameRoutes(Run(s, cs).tracked, Run(t, ds).tracked)
    decreases |cs|
  {
    if cs != [] {
      SameStep(s, t, cs[0], ds[0]);
      TrackingIndependent(Step(s, cs[0]), Step(t, ds[0]), cs[1..], ds[1..]);
    }
  }

  // ----- safety

  predicate Corresponds(e: Entry, r: Route) {
    r.destination == e.dest && r.gateway == e.gateway && r.interfaceName == e.iface && r.metric == e.metric
  }

  /** An entry stands under its own key and its identifier, if it has one, is that of its live route. */
  predicate Named(k: string, e: Entry, live: Table) {
    && k == Key(e.dest, e.gateway, e.iface) && Printed(e.dest, e.gateway)
    && (e.srmdId != "" ==> e.srmdId in live && Corresponds(e, live[e.srmdId]))
  }

  /** Tracked identifiers are pairwise distinct, live, and name the tracked route. */
  predicate Mirrors(s: Sys) {
    && Keyed(s.live)
    && (forall k :: k in s.tracked ==> Named(k, s.tracked[k], s.live))
    && (forall j, k :: j in s.tracked && k in s.tracked && j != k && s.tracked[j].srmdId != "" ==>
         s.tracked[j].srmdId != s.tracked[k].srmdId)
  }

  /** What the environment guarantees: printable addresses, and new non-empty identifiers. */
  predicate Acceptable(s: Sys, c: RouteChange) {
    && Printed(c.dest, c.gw)
    && (!c.rpc.RequestLost? ==> c.rpc.id != "" && c.rpc.id !in s.live)
  }

  predicate AcceptableRun(s: Sys, cs: seq<RouteChange>)
    decreases |cs|
  {
    cs != [] ==> Acceptable(s, cs[0]) && AcceptableRun(Step(s, cs[0]), cs[1..])
  }

  lemma WithdrawnMirrors(s: Sys, keys: set<string>, lost: set<string>)
    requires Mirrors(s)
    ensures Mirrors(Withdrawn(s, keys, lost))
  {
    forall k, id | k in s.tracked && k !in keys && id in IdsOf(s.tracked, keys)
      ensures s.tracked[k].srmdId != id
    {
      var j :| j in keys && j in s.tracked && s.tracked[j].srmdId == id && id != "";
    }
  }

  /** An addition keeps what is live, and an identifier that is stored names the new route. */
  lemma LiveAfter(live: Table, c: RouteChange)
    requires Keyed(live) && (!c.rpc.RequestLost? ==> c.rpc.id !in live)
    ensures Keyed(LiveAfterAdd(live, c))
    ensures forall id :: id in live ==> id in LiveAfterAdd(live, c) && LiveAfterAdd(live, c)[id] == live[id]
    ensures StoredId(c) != "" ==> StoredId(c) !in live && StoredId(c) in LiveAfterAdd(live, c)
    ensures StoredId(c) != "" ==>
      Corresponds(Entry(c.dest, c.gw, c.iface, c.metric, c.table, StoredId(c)), LiveAfterAdd(live, c)[StoredId(c)])
  {
  }

  lemma AddedMirrors(s: Sys, c: RouteChange)
    requires Mirrors(s) && Acceptable(s, c)
    ensures Mirrors(AddedTo(s, c))
  {
    var t := AddedTo(s, c);
    LiveAfter(s.live, c);
    forall k | k in t.tracked
      ensures Named(k, t.tracked[k], t.live)
    {
      if k != ChangeKey(c) {
        assert Named(k, s.tracked[k], s.live);
      }
    }
  }

  lemma StepMirrors(s: Sys, c: RouteChange)
    requires Mirrors(s) && Acceptable(s, c)
    ensures Mirrors(Step(s, c))
  {
    if c.ospf {
      match c.kind
      case ADDED =>
        AddedMirrors(s, c);
      case CHANGED =>
        WithdrawnMirrors(s, StaleKeys(s.tracked, c.dest), c.lostRemovals);
        AddedMirrors(Withdrawn(s, StaleKeys(s.tracked, c.dest), c.lostRemovals), c);
      case REMOVED =>
        WithdrawnMirrors(s, {ChangeKey(c)}, c.lostRemovals);
    }
  }

  /** The client's table mirrors live server routes after every run, whatever calls fail and however. */
  lemma {:induction false} RunMirrors(s: Sys, cs: seq<RouteChange>)
    requires Mirrors(s) && AcceptableRun(s, cs)
    ensures Mirrors(Run(s, cs))
    decreases |cs|
  {
    if cs != [] {
      StepMirrors(s, cs[0]);
      RunMirrors(Step(s, cs[0]), cs[1..]);
    }
  }

  /** After a CHANGED event exactly one entry has its destination, the one just reported; all others are as before. */
  lemma ChangedReplaces(s: Sys, c: RouteChange)
    requires Mirrors(s) && Acceptable(s, c) && c.ospf && c.kind == CHANGED
    ensures var t := Step(s, c).tracked;
      && StaleKeys(t, c.dest) == {ChangeKey(c)}
      && t[ChangeKey(c)] == Entry(c.dest, c.gw, c.iface, c.metric, c.table, StoredId(c))
      && (forall k :: k in t && t[k].dest != c.dest <==> k in s.tracked && s.tracked[k].dest != c.dest)
      && (forall k :: k in t && t[k].dest != c.dest ==> t[k] == s.tracked[k])
  {
    var t := Step(s, c).tracked;
    forall k | k in s.tracked && k == ChangeKey(c)
      ensures s.tracked[k].dest == c.dest
    {
      var e := s.tracked[k];
      KeyInjective(e.dest, e.gateway, e.iface, c.dest, c.gw, c.iface);
    }
  }

  // ----- conservation

  /** Live server routes that no tracked entry names. */
  function Orphans(s: Sys): set<string> {
    s.live.Keys - IdsOf(s.tracked, s.tracked.Keys)
  }

  function LeakedByAdd(c: RouteChange): set<string> {
    if c.rpc.ReplyLost? && c.dest != "" then {c.rpc.id} else {}
  }

  /**
   * The routes one event abandons on the server: one whose addition was answered but not heard, those whose
   * removal was lost, and the old route of a key that is reported ADDED a second time.
   */
  function Leaked(s: Sys, c: RouteChange): set<string> {
    if !c.ospf then {} else
    match c.kind
    case ADDED => IdsOf(s.tracked, {ChangeKey(c)}) + LeakedByAdd(c)
    case CHANGED => IdsOf(s.tracked, StaleKeys(s.tracked, c.dest)) * c.lostRemovals + LeakedByAdd(c)
    case REMOVED => IdsOf(s.tracked, {ChangeKey(c)}) * c.lostRemovals
  }

  function AllLeaked(s: Sys, cs: seq<RouteChange>): set<string>
    decreases |cs|
  {
    if cs == [] then {} else Leaked(s, cs[0]) + AllLeaked(Step(s, cs[0]), cs[1..])
  }

  lemma IdsDisjoint(s: Sys, keys: set<string>)
    requires Mirrors(s)
    ensures IdsOf(s.tracked, s.tracked.Keys - keys) == IdsOf(s.tracked, s.tracked.Keys) - IdsOf(s.tracked, keys)
    ensures IdsOf(s.tracked - keys, (s.tracked - keys).Keys) == IdsOf(s.tracked, s.tracked.Keys - keys)
    ensures IdsOf(s.tracked, s.tracked.Keys) <= s.live.Keys && IdsOf(s.tracked, keys) <= s.live.Keys
  {
    var rest := s.tracked.Keys - keys;
    forall id | id in IdsOf(s.tracked, rest)
      ensures id !in IdsOf(s.tracked, keys)
    {
      var k :| k in rest && s.tracked[k].srmdId == id && id != "";
    }
    forall id | id in IdsOf(s.tracked - keys, (s.tracked - keys).Keys)
      ensures id in IdsOf(s.tracked, rest)
    {
      var k :| k in s.tracked - keys && (s.tracked - keys)[k].srmdId == id && id != "";
      assert k in rest;
    }
    forall id | id in IdsOf(s.tracked, rest)
      ensures id in IdsOf(s.tracked - keys, (s.tracked - keys).Keys)
    {
      var k :| k in rest && s.tracked[k].srmdId == id && id != "";
      assert k in s.tracked - keys;
    }
  }

  lemma WithdrawnOrphans(s: Sys, keys: set<string>, lost: set<string>)
    requires Mirrors(s)
    ensures Orphans(Withdrawn(s, keys, lost)) == Orphans(s) + IdsOf(s.tracked, keys) * lost
  {
    IdsDisjoint(s, keys);
  }

  lemma AddedIds(t: Tracked, key: string, e: Entry)
    ensures IdsOf(t[key := e], t[key := e].Keys) ==
      IdsOf(t, t.Keys - {key}) + (if e.srmdId != "" then {e.srmdId} else {})
  {
    var u := t[key := e];
    forall id | id in IdsOf(t, t.Keys - {key})
      ensures id in IdsOf(u, u.Keys)
    {
      var k :| k in t.Keys - {key} && t[k].srmdId == id && id != "";
      assert k in u && u[k] == t[k];
    }
    assert key in u.Keys && u[key] == e;
  }

  lemma AddedOrphans(s: Sys, c: RouteChange)
    requires Mirrors(s) && Acceptable(s, c)
    ensures Orphans(AddedTo(s, c)) == Orphans(s) + IdsOf(s.tracked, {ChangeKey(c)}) + LeakedByAdd(c)
  {
    IdsDisjoint(s, {ChangeKey(c)});
    AddedIds(s.tracked, ChangeKey(c), Entry(c.dest, c.gw, c.iface, c.metric, c.table, StoredId(c)));
  }

  lemma StepOrphans(s: Sys, c: RouteChange)
    requires Mirrors(s) && Acceptable(s, c)
    ensures Orphans(Step(s, c)) == Orphans(s) + Leaked(s, c)
  {
    if c.ospf {
      match c.kind
      case ADDED =>
        AddedOrphans(s, c);
      case CHANGED =>
        var stale := StaleKeys(s.tracked, c.dest);
        var u := Withdrawn(s, stale, c.lostRemovals);
        WithdrawnMirrors(s, stale, c.lostRemovals);
        WithdrawnOrphans(s, stale, c.lostRemovals);
        AddedOrphans(u, c);
        assert IdsOf(u.tracked, {ChangeKey(c)}) == {} by {
          if ChangeKey(c) in u.tracked {
            var e := s.tracked[ChangeKey(c)];
            KeyInjective(e.dest, e.gateway, e.iface, c.dest, c.gw, c.iface);
          }
        }
      case REMOVED =>
        WithdrawnOrphans(s, {ChangeKey(c)}, c.lostRemovals);
    }
  }

  /** Over every run the orphaned routes are those at the start plus exactly what the events abandoned. */
  lemma {:induction false} RunOrphans(s: Sys, cs: seq<RouteChange>)
    requires Mirrors(s) && AcceptableRun(s, cs)
    ensures Orphans(Run(s, cs)) == Orphans(s) + AllLeaked(s, cs)
    decreases |cs|
  {
    if cs != [] {
      StepMirrors(s, cs[0]);
      StepOrphans(s, cs[0]);
      RunOrphans(Step(s, cs[0]), cs[1..]);
    }
  }

  /**
   * Starting with nothing, the server holds exactly the tracked routes at the end of a run if and only if no
   * event of the run abandoned one.
   */
  lemma ExactMirror(cs: seq<RouteChange>)
    requires AcceptableRun(Sys(map[], map[]), cs)
    ensures var s := Run(Sys(map[], map[]), cs);
      s.live.Keys == IdsOf(s.tracked, s.tracked.Keys) <==> AllLeaked(Sys(map[], map[]), cs) == {}
  {
    var s0 := Sys(map[], map[]);
    RunMirrors(s0, cs);
    RunOrphans(s0, cs);
    var s := Run(s0, cs);
    IdsDisjoint(s, {});
    assert Orphans(s0) == {};
    var held := IdsOf(s.tracked, s.tracked.Keys);
    assert s.live.Keys == held + Orphans(s);
    assert Orphans(s) == AllLeaked(s0, cs) && held !! Orphans(s);
    assert Orphans(s) == {} ==> held + Orphans(s) == held;
  }

  /** The failing side is there: a key reported ADDED twice loses its first server route. */
  lemma OrphanExample(c: RouteChange, now: int) returns (cs: seq<RouteChange>)
    requires c.kind == ADDED && c.ospf && c.dest != "" && Printed(c.dest, c.gw)
    ensures AcceptableRun(Sys(map[], map[]), cs) && AllLeaked(Sys(map[], map[]), cs) == {"a"}
    ensures Orphans(Run(Sys(map[], map[]), cs)) == {"a"}
  {
    var s0 := Sys(map[], map[]);
    var first, second := c.(rpc := AddDelivered("a")), c.(rpc := AddDelivered("b"), now := now);
    cs := [first, second];
    var s1 := Step(s0, first);
    assert cs[1..] == [second] && [second][1..] == [];
    assert s1.tracked == map[ChangeKey(c) := Entry(c.dest, c.gw, c.iface, c.metric, c.table, "a")];
    assert s1.live.Keys == {"a"};
    assert Leaked(s0, first) == {} && Leaked(s1, second) == {"a"};
    assert AllLeaked(s1, cs[1..]) == Leaked(s1, second) + AllLeaked(Step(s1, second), []);
    RunOrphans(s0, cs);
    assert Orphans(s0) == {};
  }

  // ----- the callback

  class WatchCtx {
    var routes: Tracked
    const server: Manager

    constructor (server: Manager)
      ensures this.server == server && routes == map[]
    {
      this.server := server;
      routes := map[];
    }

    function Snapshot(): Sys
      reads this, server
    {
      Sys(routes, server.routes)
    }

    /** The remote addition: the identifier if a reply with one arrives, otherwise nothing. */
    method CallAdd(c: RouteChange) returns (id: string)
      requires server.Valid()
      modifies server
      ensures server.Valid() && server.routes == LiveAfterAdd(old(server.routes), c)
      ensures id == StoredId(c) && IdHeard(c, id)
    {
      id := "";
      if c.rpc.RequestLost? {
        return;
      }
      var r := server.AddRoute(Request(c), c.rpc.id, c.now);
      if r.Ok? && c.rpc.AddDelivered? {
        id := r.value.id;
      }
    }

    /** The remote removal, unless it is lost; the callback only logs how it went. */
    method CallRemove(id: string, c: RouteChange)
      requires server.Valid()
      modifies server
      ensures server.Valid() && server.routes == old(server.routes) - ({id} - c.lostRemovals)
    {
      if id in c.lostRemovals {
        assert server.routes - ({id} - c.lostRemovals) == server.routes;
        return;
      }
      var r := server.RemoveRoute(id);
      assert {id} - c.lostRemovals == {id};
    }

    /** One stale entry: its server route is removed first, if it has one. */
    method DropEntry(k: string, c: RouteChange)
      requires server.Valid() && k in routes
      modifies this`routes, server
      ensures server.Valid()
      ensures Snapshot() == Withdrawn(old(Snapshot()), {k}, c.lostRemovals)
    {
      var id := routes[k].srmdId;
      assert IdsOf(routes, {k}) == if id == "" then {} else {id};
      if id != "" {
        CallRemove(id, c);
      } else {
        assert server.routes - ({} - c.lostRemovals) == server.routes;
      }
      routes := routes - {k};
    }

    /** The loop that walks the table and drops every entry of the destination. */
    method DropStale(c: RouteChange)
      requires server.Valid()
      modifies this`routes, server
      ensures server.Valid()
      ensures Snapshot() == Withdrawn(old(Snapshot()), StaleKeys(old(routes), c.dest), c.lostRemovals)
    {
      ghost var before := Snapshot();
      ghost var dropped: set<string> := {};
      var ahead := routes.Keys;
      NothingWithdrawn(before, c.lostRemovals);
      while ahead != {}
        invariant server.Valid()
        invariant ahead <= before.tracked.Keys && dropped !! ahead
        invariant dropped <= StaleKeys(before.tracked, c.dest) <= dropped + ahead
        invariant Snapshot() == Withdrawn(before, dropped, c.lostRemovals)
        decreases |ahead|
      {
        var k :| k in ahead;
        ahead := ahead - {k};
        if routes[k].dest == c.dest {
          WithdrawnAgain(before, dropped, k, c.lostRemovals);
          DropEntry(k, c);
          dropped := dropped + {k};
        }
      }
      assert dropped == StaleKeys(before.tracked, c.dest);
    }

    method NlWatchCb(c: RouteChange)
      requires server.Valid()
      modifies this`routes, server
      ensures server.Valid()
      ensures Snapshot() == Step(old(Snapshot()), c)
      ensures TracksEvent(old(routes), routes, c)
      ensures ServesEvent(old(routes), old(server.routes), server.routes, c)
    {
      StepTracks(Snapshot(), c);
      StepServed(Snapshot(), c);
      if !c.ospf {
        return;
      }
      var key := Key(c.dest, c.gw, c.iface);
      if c.kind == ADDED {
        var id := CallAdd(c);
        routes := routes[key := Entry(c.dest, c.gw, c.iface, c.metric, c.table, id)];
      } else if c.kind == CHANGED {
        DropStale(c);
        var id := CallAdd(c);
        routes := routes[key := Entry(c.dest, c.gw, c.iface, c.metric, c.table, id)];
      } else {
        if key !in routes {
          assert IdsOf(routes, {key}) == {} && routes - {key} == routes;
          assert server.routes - ({} - c.lostRemovals) == server.routes;
          return;
        }
        DropEntry(key, c);
      }
    }
  }

  lemma NothingWithdrawn(s: Sys, lost: set<string>)
    ensures Withdrawn(s, {}, lost) == s
  {
    assert IdsOf(s.tracked, {}) == {};
    assert s.tracked - {} == s.tracked && s.live - ({} - lost) == s.live;
  }

  lemma WithdrawnAgain(s: Sys, keys: set<string>, k: string, lost: set<string>)
    requires k in s.tracked && k !in keys
    ensures Withdrawn(Withdrawn(s, keys, lost), {k}, lost) == Withdrawn(s, keys + {k}, lost)
  {
    var u := Withdrawn(s, keys, lost);
    assert IdsOf(u.tracked, {k}) == IdsOf(s.tracked, {k});
    assert IdsOf(s.tracked, keys + {k}) == IdsOf(s.tracked, keys) + IdsOf(s.tracked, {k});
  }
}
