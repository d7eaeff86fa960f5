/**
 * client/src/main.cpp, nlWatchCb, against the kernel's own routes. The key of the client's table omits metric
 * and routing table, so kernel routes that differ in nothing else share one entry.
 */
module MirrorKernel {
  import opened RouteManager
  import opened Mirror

  datatype KernelRoute = KernelRoute(dest: string, gw: string, iface: string, metric: nat, table: nat)

  function RouteOf(c: RouteChange): KernelRoute {
    KernelRoute(c.dest, c.gw, c.iface, c.metric, c.table)
  }

  function EntryRoute(e: Entry): KernelRoute {
    KernelRoute(e.dest, e.gateway, e.iface, e.metric, e.table)
  }

  function KeyOf(r: KernelRoute): string {
    Key(r.dest, r.gw, r.iface)
  }

  /** What an event says of the kernel: CHANGED replaces all routes to the destination. */
  function KernelAfter(kernel: set<KernelRoute>, c: RouteChange): set<KernelRoute> {
    match c.kind
    case ADDED => kernel + {RouteOf(c)}
    case CHANGED => (set r | r in kernel && r.dest != c.dest) + {RouteOf(c)}
    case REMOVED => kernel - {RouteOf(c)}
  }

  /** An event that tells the truth about an OSPF route, none of whose remote calls fails. */
  predicate Truthful(kernel: set<KernelRoute>, s: Sys, c: RouteChange) {
    && c.ospf && c.dest != "" && c.rpc.AddDelivered? && c.lostRemovals == {} && Acceptable(s, c)
    && (c.kind == ADDED ==> RouteOf(c) !in kernel)
    && (c.kind == REMOVED ==> RouteOf(c) in kernel)
  }

  predicate TruthfulRun(kernel: set<KernelRoute>, s: Sys, cs: seq<RouteChange>)
    decreases |cs|
  {
    cs != [] ==> Truthful(kernel, s, cs[0]) && TruthfulRun(KernelAfter(kernel, cs[0]), Step(s, cs[0]), cs[1..])
  }

  /** Server and kernel agree: one tracked entry and one live server route for each kernel route, and no more. */
  ghost predicate InSync(kernel: set<KernelRoute>, s: Sys) {
    && Mirrors(s) && Orphans(s) == {}
    && (forall k :: k in s.tracked ==> s.tracked[k].srmdId != "")
    && (forall k :: k in s.tracked ==> EntryRoute(s.tracked[k]) in kernel)
    && (forall r :: r in kernel ==> KeyOf(r) in s.tracked && EntryRoute(s.tracked[KeyOf(r)]) == r)
  }

  /** No two kernel routes share destination, gateway and interface. */
  predicate Unshared(kernel: set<KernelRoute>) {
    forall r, q :: r in kernel && q in kernel && r.dest == q.dest && r.gw == q.gw && r.iface == q.iface ==> r == q
  }

  lemma InSyncUnshared(kernel: set<KernelRoute>, s: Sys)
    requires InSync(kernel, s)
    ensures Unshared(kernel)
  {
    forall r, q | r in kernel && q in kernel && r.dest == q.dest && r.gw == q.gw && r.iface == q.iface
      ensures r == q
    {
      assert KeyOf(r) == KeyOf(q);
    }
  }

  /** Entries of one destination are exactly those of the kernel routes to it. */
  lemma SameKeyRoute(s: Sys, k: string, c: RouteChange)
    requires Mirrors(s) && k in s.tracked && k == ChangeKey(c) && Printed(c.dest, c.gw)
    ensures s.tracked[k].dest == c.dest && s.tracked[k].gateway == c.gw && s.tracked[k].iface == c.iface
  {
    var e := s.tracked[k];
    assert Named(k, e, s.live);
    KeyInjective(e.dest, e.gateway, e.iface, c.dest, c.gw, c.iface);
  }

  lemma StepInSync(kernel: set<KernelRoute>, s: Sys, c: RouteChange)
    requires InSync(kernel, s) && Truthful(kernel, s, c) && Unshared(KernelAfter(kernel, c))
    ensures InSync(KernelAfter(kernel, c), Step(s, c))
  {
    var key, t, after := ChangeKey(c), Step(s, c), KernelAfter(kernel, c);
    StepMirrors(s, c);
    StepOrphans(s, c);
    if key in s.tracked {
      SameKeyRoute(s, key, c);
      var q := EntryRoute(s.tracked[key]);
      assert q in kernel;
      assert c.kind == ADDED ==> q in after && RouteOf(c) in after;
    }
    assert Leaked(s, c) == {};
    forall r | r in after
      ensures KeyOf(r) in t.tracked && EntryRoute(t.tracked[KeyOf(r)]) == r
    {
      KeptRoute(kernel, s, c, r);
    }
    forall k | k in t.tracked
      ensures t.tracked[k].srmdId != "" && EntryRoute(t.tracked[k]) in after
    {
      KeptEntry(kernel, s, c, k);
    }
  }

  lemma KeptRoute(kernel: set<KernelRoute>, s: Sys, c: RouteChange, r: KernelRoute)
    requires InSync(kernel, s) && Truthful(kernel, s, c) && Unshared(KernelAfter(kernel, c))
    requires r in KernelAfter(kernel, c)
    ensures KeyOf(r) in Step(s, c).tracked && EntryRoute(Step(s, c).tracked[KeyOf(r)]) == r
  {
    if r != RouteOf(c) || c.kind == REMOVED {
      assert r in kernel;
      if KeyOf(r) == ChangeKey(c) {
        SameKeyRoute(s, KeyOf(r), c);
      }
    }
  }

  lemma KeptEntry(kernel: set<KernelRoute>, s: Sys, c: RouteChange, k: string)
    requires InSync(kernel, s) && Truthful(kernel, s, c) && k in Step(s, c).tracked
    ensures Step(s, c).tracked[k].srmdId != "" && EntryRoute(Step(s, c).tracked[k]) in KernelAfter(kernel, c)
  {
    if k != ChangeKey(c) {
      var e := s.tracked[k];
      assert Named(k, e, s.live);
      assert EntryRoute(e) in kernel;
    }
  }

  ghost predicate AlwaysInSync(kernel: set<KernelRoute>, s: Sys, cs: seq<RouteChange>)
    decreases |cs|
  {
    InSync(kernel, s) && (cs != [] ==> AlwaysInSync(KernelAfter(kernel, cs[0]), Step(s, cs[0]), cs[1..]))
  }

  predicate AlwaysUnshared(kernel: set<KernelRoute>, cs: seq<RouteChange>)
    decreases |cs|
  {
    Unshared(kernel) && (cs != [] ==> AlwaysUnshared(KernelAfter(kernel, cs[0]), cs[1..]))
  }

  /** Throughout a run server and kernel agree if and only if no two kernel routes ever share a key. */
  lemma {:induction false} RunInSync(kernel: set<KernelRoute>, s: Sys, cs: seq<RouteChange>)
    requires InSync(kernel, s) && TruthfulRun(kernel, s, cs)
    ensures AlwaysInSync(kernel, s, cs) <==> AlwaysUnshared(kernel, cs)
    decreases |cs|
  {
    InSyncUnshared(kernel, s);
    if cs != [] {
      var after, t := KernelAfter(kernel, cs[0]), Step(s, cs[0]);
      if Unshared(after) {
        StepInSync(kernel, s, cs[0]);
        RunInSync(after, t, cs[1..]);
      } else if InSync(after, t) {
        InSyncUnshared(after, t);
      }
    }
  }

  // ----- what the server serves

  /** The fields of a route that the server is told. */
  datatype Fields = Fields(dest: string, gw: string, iface: string, metric: nat)

  function FieldsOf(r: KernelRoute): Fields {
    Fields(r.dest, r.gw, r.iface, r.metric)
  }

  function LiveFields(r: Route): Fields {
    Fields(r.destination, r.gateway, r.interfaceName, r.metric)
  }

  function Announced(kernel: set<KernelRoute>): set<Fields> {
    set r | r in kernel :: FieldsOf(r)
  }

  function ServedFields(s: Sys): set<Fields> {
    set id | id in s.live :: LiveFields(s.live[id])
  }

  function TrackedFields(t: Tracked): set<Fields> {
    set k | k in t :: FieldsOf(EntryRoute(t[k]))
  }

  /** What server routes serve that no tracked entry names. */
  function ForgottenFields(s: Sys): set<Fields> {
    set id | id in Orphans(s) :: LiveFields(s.live[id])
  }

  /** The server serves exactly the routes the kernel has. */
  predicate Serves(kernel: set<KernelRoute>, s: Sys) {
    Announced(kernel) == ServedFields(s)
  }

  /** Every tracked entry has a server route. */
  predicate AllNamed(t: Tracked) {
    forall k :: k in t ==> t[k].srmdId != ""
  }

  lemma ServedSplit(s: Sys)
    requires Mirrors(s) && AllNamed(s.tracked)
    ensures ServedFields(s) == TrackedFields(s.tracked) + ForgottenFields(s)
  {
    forall id | id in s.live
      ensures LiveFields(s.live[id]) in TrackedFields(s.tracked) + ForgottenFields(s)
    {
      if id !in Orphans(s) {
        var k :| k in s.tracked && s.tracked[k].srmdId == id;
        assert Named(k, s.tracked[k], s.live);
      }
    }
    forall k | k in s.tracked
      ensures FieldsOf(EntryRoute(s.tracked[k])) in ServedFields(s)
    {
      assert Named(k, s.tracked[k], s.live);
      assert s.tracked[k].srmdId in s.live;
    }
  }

  lemma ServedAfterAdd(s: Sys, c: RouteChange)
    requires Acceptable(s, c) && c.rpc.AddDelivered? && c.dest != ""
    ensures ServedFields(AddedTo(s, c)) == ServedFields(s) + {FieldsOf(RouteOf(c))}
  {
    var id, live, after := c.rpc.id, s.live, AddedTo(s, c).live;
    assert after == live[id := NewRoute(Request(c), id, c.now)];
    forall x | x in live
      ensures LiveFields(live[x]) in ServedFields(AddedTo(s, c))
    {
      assert x in after && after[x] == live[x];
    }
    assert id in after && LiveFields(after[id]) == FieldsOf(RouteOf(c));
  }

  lemma ServedAfterWithdrawal(s: Sys, keys: set<string>)
    requires Mirrors(s) && AllNamed(s.tracked)
    ensures ServedFields(Withdrawn(s, keys, {})) == TrackedFields(s.tracked - keys) + ForgottenFields(s)
  {
    var w := Withdrawn(s, keys, {});
    WithdrawnMirrors(s, keys, {});
    WithdrawnOrphans(s, keys, {});
    assert Orphans(w) == Orphans(s);
    ServedSplit(w);
    assert forall id :: id in Orphans(s) ==> id in w.live && w.live[id] == s.live[id];
  }

  lemma TrackedWithout(s: Sys, key: string)
    requires Mirrors(s) && key in s.tracked
    ensures TrackedFields(s.tracked - {key}) == TrackedFields(s.tracked) - {FieldsOf(EntryRoute(s.tracked[key]))}
  {
    var t, f := s.tracked, FieldsOf(EntryRoute(s.tracked[key]));
    assert Named(key, t[key], s.live);
    forall k | k in t && k != key
      ensures FieldsOf(EntryRoute(t[k])) != f && k in t - {key}
    {
      assert Named(k, t[k], s.live);
    }
    forall x | x in TrackedFields(t) && x != f
      ensures x in TrackedFields(t - {key})
    {
      var k :| k in t && FieldsOf(EntryRoute(t[k])) == x;
      assert k in t - {key};
    }
  }

  lemma TrackedElsewhere(t: Tracked, dest: string)
    ensures TrackedFields(t - StaleKeys(t, dest)) == set f | f in TrackedFields(t) && f.dest != dest
  {
    var u := t - StaleKeys(t, dest);
    forall f | f in TrackedFields(t) && f.dest != dest
      ensures f in TrackedFields(u)
    {
      var k :| k in t && FieldsOf(EntryRoute(t[k])) == f;
      assert k in u && u[k] == t[k];
    }
  }

  /**
   * No forgotten copy serves a route that the event takes back, and no entry is withdrawn whose route the
   * kernel still has, unless a forgotten copy serves it.
   */
  predicate Undisturbed(kernel: set<KernelRoute>, s: Sys, c: RouteChange) {
    var f, key, after := FieldsOf(RouteOf(c)), ChangeKey(c), Announced(KernelAfter(kernel, c));
    match c.kind
    case ADDED => true
    case CHANGED => forall g :: g in ForgottenFields(s) && g.dest == c.dest ==> g == f
    case REMOVED =>
      && (f in ForgottenFields(s) ==> f in after)
      && (key in s.tracked ==>
           var e := FieldsOf(EntryRoute(s.tracked[key])); e in after ==> e in ForgottenFields(s))
  }

  lemma AnnouncedChange(kernel: set<KernelRoute>, c: RouteChange)
    ensures c.kind == ADDED ==> Announced(KernelAfter(kernel, c)) == Announced(kernel) + {FieldsOf(RouteOf(c))}
    ensures c.kind == CHANGED ==>
      Announced(KernelAfter(kernel, c)) == (set f | f in Announced(kernel) && f.dest != c.dest) + {FieldsOf(RouteOf(c))}
    ensures c.kind == REMOVED ==> Announced(KernelAfter(kernel, c)) <= Announced(kernel)
    ensures c.kind == REMOVED ==> Announced(kernel) <= Announced(KernelAfter(kernel, c)) + {FieldsOf(RouteOf(c))}
  {
    var after := KernelAfter(kernel, c);
    forall r | r in kernel
      ensures FieldsOf(r) in Announced(kernel) && (r in after ==> FieldsOf(r) in Announced(after))
    {
    }
    assert c.kind != REMOVED ==> RouteOf(c) in after;
    forall f | c.kind == CHANGED && f in Announced(kernel) && f.dest != c.dest
      ensures f in Announced(after)
    {
      var r :| r in kernel && FieldsOf(r) == f;
      assert r in after;
    }
  }

  lemma RemovedServes(kernel: set<KernelRoute>, s: Sys, c: RouteChange)
    requires Mirrors(s) && AllNamed(s.tracked) && Serves(kernel, s) && Truthful(kernel, s, c) && c.kind == REMOVED
    ensures Serves(KernelAfter(kernel, c), Step(s, c)) <==> Undisturbed(kernel, s, c)
  {
    var f, key := FieldsOf(RouteOf(c)), ChangeKey(c);
    var before, after := Announced(kernel), Announced(KernelAfter(kernel, c));
    var t, o, t' := TrackedFields(s.tracked), ForgottenFields(s), TrackedFields(s.tracked - {key});
    ServedSplit(s);
    ServedAfterWithdrawal(s, {key});
    AnnouncedChange(kernel, c);
    assert before == t + o && ServedFields(Step(s, c)) == t' + o;
    if key in s.tracked {
      TrackedWithout(s, key);
      SameKeyRoute(s, key, c);
    } else {
      assert s.tracked - {key} == s.tracked;
      NotTracked(s, c);
    }
    assert f !in t';
    RemovedSets(t, t', o, after, f, if key in s.tracked then {FieldsOf(EntryRoute(s.tracked[key]))} else {});
  }

  /** The bookkeeping of a removal: x leaves the tracked fields, f may leave the announced ones. */
  lemma RemovedSets(t: set<Fields>, t': set<Fields>, o: set<Fields>, after: set<Fields>, f: Fields, x: set<Fields>)
    requires t' == t - x && x <= t && f !in t' && after <= t + o <= after + {f}
    ensures after == t' + o <==> (f in o ==> f in after) && (forall e :: e in x && e in after ==> e in o)
  {
  }

  lemma NotTracked(s: Sys, c: RouteChange)
    requires Mirrors(s) && ChangeKey(c) !in s.tracked
    ensures FieldsOf(RouteOf(c)) !in TrackedFields(s.tracked)
  {
    forall k | k in s.tracked
      ensures FieldsOf(EntryRoute(s.tracked[k])) != FieldsOf(RouteOf(c))
    {
      assert Named(k, s.tracked[k], s.live);
    }
  }

  lemma ChangedServes(kernel: set<KernelRoute>, s: Sys, c: RouteChange)
    requires Mirrors(s) && AllNamed(s.tracked) && Serves(kernel, s) && Truthful(kernel, s, c) && c.kind == CHANGED
    ensures Serves(KernelAfter(kernel, c), Step(s, c)) <==> Undisturbed(kernel, s, c)
  {
    var f, keys := FieldsOf(RouteOf(c)), StaleKeys(s.tracked, c.dest);
    var before, after := Announced(kernel), Announced(KernelAfter(kernel, c));
    var t, o := TrackedFields(s.tracked), ForgottenFields(s);
    var w := Withdrawn(s, keys, {});
    ServedSplit(s);
    ServedAfterWithdrawal(s, keys);
    TrackedElsewhere(s.tracked, c.dest);
    AnnouncedChange(kernel, c);
    assert w.live.Keys <= s.live.Keys;
    ServedAfterAdd(w, c);
    var t' := set g | g in t && g.dest != c.dest;
    assert ServedFields(Step(s, c)) == t' + o + {f};
    ChangedSets(t, t', o, after, f, c.dest);
  }

  lemma ChangedSets(t: set<Fields>, t': set<Fields>, o: set<Fields>, after: set<Fields>, f: Fields, dest: string)
    requires t' == set g | g in t && g.dest != dest
    requires after == (set g | g in t + o && g.dest != dest) + {f}
    ensures after == t' + o + {f} <==> forall g :: g in o && g.dest == dest ==> g == f
  {
    if after == t' + o + {f} {
      assert forall g :: g in o ==> g in after;
    }
  }

  /** A truthful event that meets a server which serves exactly the kernel's routes: exactly when it still does. */
  lemma StepServes(kernel: set<KernelRoute>, s: Sys, c: RouteChange)
    requires Mirrors(s) && AllNamed(s.tracked) && Serves(kernel, s) && Truthful(kernel, s, c)
    ensures Serves(KernelAfter(kernel, c), Step(s, c)) <==> Undisturbed(kernel, s, c)
  {
    match c.kind
    case ADDED =>
      ServedAfterAdd(s, c);
      AnnouncedChange(kernel, c);
    case CHANGED =>
      ChangedServes(kernel, s, c);
    case REMOVED =>
      RemovedServes(kernel, s, c);
  }

  lemma StepAllNamed(kernel: set<KernelRoute>, s: Sys, c: RouteChange)
    requires AllNamed(s.tracked) && Truthful(kernel, s, c)
    ensures AllNamed(Step(s, c).tracked)
  {
  }

  predicate AlwaysServes(kernel: set<KernelRoute>, s: Sys, cs: seq<RouteChange>)
    decreases |cs|
  {
    Serves(kernel, s) && (cs != [] ==> AlwaysServes(KernelAfter(kernel, cs[0]), Step(s, cs[0]), cs[1..]))
  }

  predicate AlwaysUndisturbed(kernel: set<KernelRoute>, s: Sys, cs: seq<RouteChange>)
    decreases |cs|
  {
    cs != [] ==>
      Undisturbed(kernel, s, cs[0]) && AlwaysUndisturbed(KernelAfter(kernel, cs[0]), Step(s, cs[0]), cs[1..])
  }

  /** Throughout a run the server serves exactly the kernel's routes if and only if no event is disturbed. */
  lemma {:induction false} RunServes(kernel: set<KernelRoute>, s: Sys, cs: seq<RouteChange>)
    requires Mirrors(s) && AllNamed(s.tracked) && Serves(kernel, s) && TruthfulRun(kernel, s, cs)
    ensures AlwaysServes(kernel, s, cs) <==> AlwaysUndisturbed(kernel, s, cs)
    decreases |cs|
  {
    if cs != [] {
      var after, t := KernelAfter(kernel, cs[0]), Step(s, cs[0]);
      StepServes(kernel, s, cs[0]);
      StepMirrors(s, cs[0]);
      StepAllNamed(kernel, s, cs[0]);
      if Serves(after, t) {
        RunServes(after, t, cs[1..]);
      }
    }
  }

  /** One entry for each kernel route is enough for that. */
  lemma InSyncServes(kernel: set<KernelRoute>, s: Sys)
    requires InSync(kernel, s)
    ensures Serves(kernel, s)
  {
    ServedSplit(s);
    assert ForgottenFields(s) == {};
    forall k | k in s.tracked
      ensures FieldsOf(EntryRoute(s.tracked[k])) in Announced(kernel)
    {
      assert EntryRoute(s.tracked[k]) in kernel;
    }
    forall r | r in kernel
      ensures FieldsOf(r) in TrackedFields(s.tracked)
    {
      assert KeyOf(r) in s.tracked;
    }
  }

  lemma {:induction false} AlwaysInSyncServes(kernel: set<KernelRoute>, s: Sys, cs: seq<RouteChange>)
    requires AlwaysInSync(kernel, s, cs)
    ensures AlwaysServes(kernel, s, cs)
    decreases |cs|
  {
    InSyncServes(kernel, s);
    if cs != [] {
      AlwaysInSyncServes(KernelAfter(kernel, cs[0]), Step(s, cs[0]), cs[1..]);
    }
  }

  /** Both results for a client, a server and a kernel that start with nothing, and how they are related. */
  lemma FromNothing(cs: seq<RouteChange>)
    requires TruthfulRun({}, Sys(map[], map[]), cs)
    ensures AlwaysInSync({}, Sys(map[], map[]), cs) <==> AlwaysUnshared({}, cs)
    ensures AlwaysServes({}, Sys(map[], map[]), cs) <==> AlwaysUndisturbed({}, Sys(map[], map[]), cs)
    ensures AlwaysUnshared({}, cs) ==> AlwaysServes({}, Sys(map[], map[]), cs)
  {
    var s0 := Sys(map[], map[]);
    assert InSync({}, s0);
    RunInSync({}, s0, cs);
    InSyncServes({}, s0);
    RunServes({}, s0, cs);
    if AlwaysUnshared({}, cs) {
      AlwaysInSyncServes({}, s0, cs);
    }
  }

  // ----- inputs

  /** Sharing a key is not wrong by itself: two routes that differ in the metric are added, and both are served. */
  lemma SharedButServed(c: RouteChange, metric: nat) returns (cs: seq<RouteChange>)
    requires c.kind == ADDED && c.ospf && c.dest != "" && Printed(c.dest, c.gw) && metric != c.metric
    requires c.rpc == AddDelivered("a") && c.lostRemovals == {}
    ensures TruthfulRun({}, Sys(map[], map[]), cs) && |cs| == 2
    ensures !AlwaysUnshared({}, cs) && AlwaysServes({}, Sys(map[], map[]), cs)
  {
    var second := c.(metric := metric, rpc := AddDelivered("b"));
    cs := [c, second];
    var s0 := Sys(map[], map[]);
    var s1, k1 := Step(s0, c), KernelAfter({}, c);
    assert cs[1..] == [second] && [second][1..] == [];
    assert s1.live.Keys == {"a"};
    assert TruthfulRun(k1, s1, [second]);
    var k2 := KernelAfter(k1, second);
    assert RouteOf(c) in k2 && RouteOf(second) in k2;
    assert !Unshared(k2);
    assert !AlwaysUnshared(k1, [second]);
    assert AlwaysUndisturbed(k1, s1, [second]);
    FromNothing(cs);
  }

  /**
   * What goes wrong: the first of the two is then removed. The second is left in the kernel, and the server has
   * only the first.
   */
  lemma SharedKeyExample(c: RouteChange, metric: nat) returns (cs: seq<RouteChange>)
    requires c.kind == ADDED && c.ospf && c.dest != "" && Printed(c.dest, c.gw) && metric != c.metric
    requires c.rpc == AddDelivered("a") && c.lostRemovals == {}
    ensures TruthfulRun({}, Sys(map[], map[]), cs) && |cs| == 3
    ensures KernelAfter(KernelAfter(KernelAfter({}, cs[0]), cs[1]), cs[2]) == {RouteOf(c.(metric := metric))}
    ensures ServedFields(Run(Sys(map[], map[]), cs)) == {FieldsOf(RouteOf(c))}
  {
    var second, third := c.(metric := metric, rpc := AddDelivered("b")), c.(kind := REMOVED, rpc := AddDelivered("d"));
    cs := [c, second, third];
    var s0 := Sys(map[], map[]);
    var s1 := Step(s0, c);
    var s2 := Step(s1, second);
    var s3 := Step(s2, third);
    var key := ChangeKey(c);
    assert s1.live.Keys == {"a"} && s1.tracked == map[key := Entry(c.dest, c.gw, c.iface, c.metric, c.table, "a")];
    assert s2.live.Keys == {"a", "b"} && s2.tracked == map[key := Entry(c.dest, c.gw, c.iface, metric, c.table, "b")];
    assert IdsOf(s2.tracked, {key}) == {"b"};
    assert s3.live.Keys == {"a"} && s3.live["a"].metric == c.metric;
    assert cs[1..] == [second, third] && [second, third][1..] == [third] && [third][1..] == [];
    assert Run(s0, cs) == Run(s1, [second, third]) == Run(s2, [third]) == Run(s3, []) == s3;
    assert TruthfulRun(KernelAfter(KernelAfter({}, c), second), s2, [third]);
    assert TruthfulRun(KernelAfter({}, c), s1, [second, third]);
  }
}
