/**
 * server/src/service_impl.cpp, WatchRoutes: an observer appends events to a pending list under a lock while
 * the stream loop swaps that list out and writes it. Every atomic step is a method; the order in which steps
 * of the two sides follow each other is arbitrary.
 */
module WatchRoutes {
  import opened Bytes
  import opened RouteManager

  /** Notify: the observer is called. Swap: the loop takes the pending list. Write: its next event is handled. */
  datatype Step = Notify(ev: Event) | Swap | Write

  datatype State = State(pending: seq<Event>, batch: seq<Event>, written: seq<Event>)

  /** The effect of a step; Swap waits for an empty batch and Write for a non-empty one. */
  function Next(s: State, step: Step, family: nat): State {
    match step
    case Notify(ev) => s.(pending := s.pending + [ev])
    case Swap => if s.batch == [] then s.(pending := [], batch := s.pending) else s
    case Write =>
      if s.batch == [] then s
      else s.(batch := s.batch[1..], written := s.written + EventsOfFamily([s.batch[0]], family))
  }

  function Run(s: State, steps: seq<Step>, family: nat): State
    decreases |steps|
  {
    if steps == [] then s else Run(Next(s, steps[0], family), steps[1..], family)
  }

  /** The events the observer was called with during a run. */
  function Notified(steps: seq<Step>): seq<Event> {
    if steps == [] then []
    else (if steps[0].Notify? then [steps[0].ev] else []) + Notified(steps[1..])
  }

  lemma NotifiedSplit(steps: seq<Step>)
    requires steps != []
    ensures Notified(steps) == Notified([steps[0]]) + Notified(steps[1..])
  {
    assert [steps[0]][1..] == [];
  }

  lemma OneEvent(ev: Event, family: nat)
    ensures EventsOfFamily([ev], family) == if FamilyMatches(family, ev.route) then [ev] else []
  {
    assert [ev][1..] == [];
  }

  /** What has been or still will be written: the stream so far, then the wanted part of batch and pending. */
  function Accounted(s: State, family: nat): seq<Event> {
    s.written + EventsOfFamily(s.batch, family) + EventsOfFamily(s.pending, family)
  }

  lemma StepAccounts(s: State, step: Step, family: nat)
    ensures Accounted(Next(s, step, family), family) == Accounted(s, family) + EventsOfFamily(Notified([step]), family)
  {
    assert [step][1..] == [];
    var seen := EventsOfFamily(Notified([step]), family);
    match step
    case Notify(ev) =>
      assert Notified([step]) == [ev];
      EventsOfFamilyConcat(s.pending, [ev], family);
      ConcatAssoc(s.written + EventsOfFamily(s.batch, family), EventsOfFamily(s.pending, family), seen);
    case Swap =>
      assert Notified([step]) == [] && seen == [];
    case Write =>
      assert Notified([step]) == [] && seen == [];
      if s.batch != [] {
        assert s.batch == [s.batch[0]] + s.batch[1..];
        EventsOfFamilyConcat([s.batch[0]], s.batch[1..], family);
        ConcatAssoc(s.written, EventsOfFamily([s.batch[0]], family), EventsOfFamily(s.batch[1..], family));
      }
  }

  /** In every interleaving nothing is lost, duplicated or reordered between notification and stream. */
  lemma {:induction false} RunAccounts(s: State, steps: seq<Step>, family: nat)
    ensures Accounted(Run(s, steps, family), family) == Accounted(s, family) + EventsOfFamily(Notified(steps), family)
    decreases |steps|
  {
    if steps == [] {
      assert Accounted(s, family) + [] == Accounted(s, family);
    } else {
      StepAccounts(s, steps[0], family);
      RunAccounts(Next(s, steps[0], family), steps[1..], family);
      NotifiedSplit(steps);
      var now, later := Notified([steps[0]]), Notified(steps[1..]);
      EventsOfFamilyConcat(now, later, family);
      ConcatAssoc(Accounted(s, family), EventsOfFamily(now, family), EventsOfFamily(later, family));
    }
  }

  // ----- progress

  /** n writes in a row. */
  function Writes(n: nat): (steps: seq<Step>)
    ensures |steps| == n && forall i :: 0 <= i < n ==> steps[i] == Write
  {
    seq(n, _ => Write)
  }

  /** The wanted events among evs, in order: those of the family, or all if no family is given. */
  function Wanted(evs: seq<Event>, family: nat): seq<Event> {
    if evs == [] then []
    else (if family == 0 || evs[0].route.family == family then [evs[0]] else []) + Wanted(evs[1..], family)
  }

  lemma {:induction false} WantedIsFilter(evs: seq<Event>, family: nat)
    ensures Wanted(evs, family) == EventsOfFamily(evs, family)
  {
    if evs != [] {
      WantedIsFilter(evs[1..], family);
    }
  }

  lemma {:induction false} RunConcat(s: State, a: seq<Step>, b: seq<Step>, family: nat)
    ensures Run(s, a + b, family) == Run(Run(s, a, family), b, family)
    decreases |a|
  {
    if a == [] {
      assert a + b == b;
    } else {
      assert (a + b)[1..] == a[1..] + b;
      RunConcat(Next(s, a[0], family), a[1..], b, family);
    }
  }

  /** As many writes as there are events write the wanted ones among them. */
  lemma {:induction false} WritesDrain(s: State, family: nat)
    ensures Run(s, Writes(|s.batch|), family) == State(s.pending, [], s.written + Wanted(s.batch, family))
    decreases |s.batch|
  {
    if s.batch == [] {
      assert s.written + [] == s.written;
    } else {
      var steps, t := Writes(|s.batch|), Next(s, Write, family);
      assert steps[1..] == Writes(|t.batch|);
      OneEvent(s.batch[0], family);
      WritesDrain(t, family);
      var first := if family == 0 || s.batch[0].route.family == family then [s.batch[0]] else [];
      ConcatAssoc(s.written, first, Wanted(s.batch[1..], family));
    }
  }

  /** What the loop does from any state if no event comes: finish the batch, swap, write what was pending. */
  function Drain(s: State): seq<Step> {
    Writes(|s.batch|) + ([Swap] + Writes(|s.pending|))
  }

  /** It empties both lists and writes exactly the wanted events of both, in order, whatever the state. */
  lemma DrainEmpties(s: State, family: nat)
    ensures Run(s, Drain(s), family)
         == State([], [], s.written + Wanted(s.batch, family) + Wanted(s.pending, family))
    ensures Notified(Drain(s)) == []
  {
    var t := State(s.pending, [], s.written + Wanted(s.batch, family));
    var u := State([], s.pending, t.written);
    RunConcat(s, Writes(|s.batch|), [Swap] + Writes(|s.pending|), family);
    WritesDrain(s, family);
    assert ([Swap] + Writes(|s.pending|))[1..] == Writes(|s.pending|);
    assert Next(t, Swap, family) == u;
    WritesDrain(u, family);
    NothingNotified(Drain(s));
  }

  lemma {:induction false} NothingNotified(steps: seq<Step>)
    requires forall i :: 0 <= i < |steps| ==> !steps[i].Notify?
    ensures Notified(steps) == []
  {
    if steps != [] {
      NothingNotified(steps[1..]);
    }
  }

  lemma {:induction false} NotifiedConcat(a: seq<Step>, b: seq<Step>)
    ensures Notified(a + b) == Notified(a) + Notified(b)
  {
    if a == [] {
      assert a + b == b;
    } else {
      assert (a + b)[1..] == a[1..] + b && (a + b)[0] == a[0];
      NotifiedConcat(a[1..], b);
      ConcatAssoc(if a[0].Notify? then [a[0].ev] else [], Notified(a[1..]), Notified(b));
    }
  }

  /**
   * So every run can be continued to a drained one with the same notifications, and then the stream is exactly
   * what was written before, followed by the wanted events, in the order in which they were notified.
   */
  lemma EveryRunDrains(s: State, steps: seq<Step>, family: nat) returns (more: seq<Step>)
    requires s.batch == [] && s.pending == []
    ensures Notified(steps + more) == Notified(steps)
    ensures Run(s, steps + more, family) == State([], [], s.written + Wanted(Notified(steps), family))
  {
    var t := Run(s, steps, family);
    more := Drain(t);
    RunConcat(s, steps, more, family);
    DrainEmpties(t, family);
    NotifiedConcat(steps, more);
    assert Notified(steps) + [] == Notified(steps);
    RunAccounts(s, steps, family);
    WantedIsFilter(Notified(steps), family);
    WantedIsFilter(t.batch, family);
    WantedIsFilter(t.pending, family);
    assert Accounted(s, family) == s.written;
  }

  /**
   * A watcher whose stream has drained can rebuild the watched part of the table from the table at
   * registration and what was written, whatever the interleaving, provided identifiers are fresh.
   */
  lemma DrainedWatcherReconstructs(t: Table, ops: seq<Op>, steps: seq<Step>, family: nat)
    requires Keyed(t) && FreshOps(t, ops)
    requires Notified(steps) == AllEvents(t, ops)
    requires var s := Run(State([], [], []), steps, family); s.batch == [] && s.pending == []
    ensures Replay(OfFamily(t, family), Run(State([], [], []), steps, family).written)
         == OfFamily(TableAfterAll(t, ops), family)
  {
    var s0 := State([], [], []);
    var s := Run(s0, steps, family);
    RunAccounts(s0, steps, family);
    var seen := EventsOfFamily(Notified(steps), family);
    assert Accounted(s0, family) + seen == seen;
    assert Accounted(s, family) == s.written;
    FamilyReplayRun(t, ops, family);
  }

  // ----- the initial listing

  function Additions(rs: seq<Route>): (evs: seq<Event>)
    ensures |evs| == |rs| && forall i :: 0 <= i < |rs| ==> evs[i] == Added(rs[i])
  {
    seq(|rs|, i requires 0 <= i < |rs| => Added(rs[i]))
  }

  /** The request for the initial listing. */
  function InitialRequest(family: nat): ListRequest {
    ListRequest(family, UNSPECIFIED, false)
  }

  lemma MentionedHead(evs: seq<Event>, id: string)
    requires evs != []
    ensures Mentioned(evs, id) <==> evs[0].route.id == id || Mentioned(evs[1..], id)
  {
    if i :| 0 <= i < |evs| && evs[i].route.id == id {
      assert i > 0 ==> evs[1..][i - 1] == evs[i];
    }
  }

  /** An event settles what a replay has at its identifier, whatever was there before. */
  lemma {:induction false} ReplayAt(a: Table, b: Table, evs: seq<Event>, id: string)
    ensures At(Replay(a, evs), id) == At(Replay(b, evs), id) <==> At(a, id) == At(b, id) || Mentioned(evs, id)
    decreases |evs|
  {
    if evs != [] {
      MentionedHead(evs, id);
      ReplayAt(Replayed(a, evs[0]), Replayed(b, evs[0]), evs[1..], id);
    }
  }

  /** Two tables become the same under a replay exactly when every identifier on which they differ occurs in it. */
  lemma ReplayForgets(a: Table, b: Table, evs: seq<Event>)
    ensures Replay(a, evs) == Replay(b, evs) <==> forall id :: At(a, id) != At(b, id) ==> Mentioned(evs, id)
  {
    SameTable(Replay(a, evs), Replay(b, evs));
    forall id
      ensures At(Replay(a, evs), id) == At(Replay(b, evs), id) <==> At(a, id) == At(b, id) || Mentioned(evs, id)
    {
      ReplayAt(a, b, evs, id);
    }
  }

  /** Replaying additions onto nothing has exactly the added routes, the last one of each identifier. */
  lemma {:induction false} AdditionsAt(m: Table, rs: seq<Route>, id: string)
    requires DistinctIds(rs)
    ensures forall i :: 0 <= i < |rs| && rs[i].id == id ==> At(Replay(m, Additions(rs)), id) == Some(rs[i])
    ensures (forall i :: 0 <= i < |rs| ==> rs[i].id != id) ==> At(Replay(m, Additions(rs)), id) == At(m, id)
    decreases |rs|
  {
    if rs != [] {
      assert Additions(rs)[1..] == Additions(rs[1..]);
      AdditionsAt(Replayed(m, Added(rs[0])), rs[1..], id);
    }
  }

  lemma {:induction false} SortedDistinct(rs: seq<Route>)
    requires Sorted(rs) && forall r, q :: r in rs && q in rs && r.id == q.id ==> r == q
    ensures DistinctIds(rs)
  {
    forall i, j | 0 <= i < j < |rs|
      ensures rs[i].id != rs[j].id
    {
      assert rs[i] in rs && rs[j] in rs;
      BeforeTotal(rs[i], rs[j]);
    }
  }

  /** The initial listing, read as additions, is the wanted part of the table. */
  lemma ListingReplays(t: Table, family: nat, rs: seq<Route>)
    requires Keyed(t) && IsListing(t, InitialRequest(family), rs)
    ensures Replay(map[], Additions(rs)) == OfFamily(t, family)
  {
    SortedDistinct(rs);
    forall id
      ensures At(Replay(map[], Additions(rs)), id) == At(OfFamily(t, family), id)
    {
      AdditionsAt(map[], rs, id);
      if id in OfFamily(t, family) {
        assert t[id] in rs;
      } else {
        assert forall i :: 0 <= i < |rs| ==> rs[i] in rs;
      }
    }
    SameTable(Replay(map[], Additions(rs)), OfFamily(t, family));
  }

  lemma {:induction false} KeyedRun(t: Table, ops: seq<Op>)
    requires Keyed(t)
    ensures Keyed(TableAfterAll(t, ops))
    decreases |ops|
  {
    if ops != [] {
      ReplayStep(t, ops[0]);
      KeyedRun(TableAfter(t, ops[0]), ops[1..]);
    }
  }

  /** Every watched route that changed in the gap between listing and registration is named by a later event. */
  ghost predicate GapHealed(t0: Table, t1: Table, evs: seq<Event>, family: nat) {
    forall id :: At(OfFamily(t0, family), id) != At(OfFamily(t1, family), id) ==>
      Mentioned(EventsOfFamily(evs, family), id)
  }

  /**
   * A watcher that asked for the initial listing: the table is listed, calls may come in the gap before the
   * observer is registered, then the stream runs in any interleaving until drained. What was written, replayed
   * onto nothing, is the watched part of the final table if and only if later events heal the gap.
   */
  lemma ListingWatcherReconstructs(t0: Table, listing: seq<Route>, gap: seq<Op>, ops: seq<Op>, steps: seq<Step>,
                                   family: nat)
    requires Keyed(t0) && IsListing(t0, InitialRequest(family), listing)
    requires FreshOps(TableAfterAll(t0, gap), ops) && Notified(steps) == AllEvents(TableAfterAll(t0, gap), ops)
    requires var s := Run(State([], [], Additions(listing)), steps, family); s.batch == [] && s.pending == []
    ensures var t1 := TableAfterAll(t0, gap);
      (Replay(map[], Run(State([], [], Additions(listing)), steps, family).written)
        == OfFamily(TableAfterAll(t1, ops), family))
      <==> GapHealed(t0, t1, AllEvents(t1, ops), family)
  {
    var t1, s0 := TableAfterAll(t0, gap), State([], [], Additions(listing));
    var s, seen := Run(s0, steps, family), EventsOfFamily(Notified(steps), family);
    RunAccounts(s0, steps, family);
    assert Accounted(s0, family) == Additions(listing) && Accounted(s, family) == s.written;
    ReplayConcat(map[], Additions(listing), seen);
    ListingReplays(t0, family, listing);
    KeyedRun(t0, gap);
    FamilyReplayRun(t1, ops, family);
    ReplayForgets(OfFamily(t0, family), OfFamily(t1, family), seen);
  }

  /** With nothing in the gap it always is. */
  lemma NoGapReconstructs(t0: Table, listing: seq<Route>, ops: seq<Op>, steps: seq<Step>, family: nat)
    requires Keyed(t0) && IsListing(t0, InitialRequest(family), listing)
    requires FreshOps(t0, ops) && Notified(steps) == AllEvents(t0, ops)
    requires var s := Run(State([], [], Additions(listing)), steps, family); s.batch == [] && s.pending == []
    ensures Replay(map[], Run(State([], [], Additions(listing)), steps, family).written)
         == OfFamily(TableAfterAll(t0, ops), family)
  {
    ListingWatcherReconstructs(t0, listing, [], ops, steps, family);
  }

  /** A route added in the gap and not mentioned later is never seen: here onto an empty table. */
  lemma AdditionInGapMissed(req: AddRequest, id: string, now: int, family: nat)
    requires req.destination != "" && FamilyMatches(family, NewRoute(req, id, now))
    ensures IsListing(map[], InitialRequest(family), [])
    ensures var t1 := TableAfterAll(map[], [Add(req, id, now)]);
      && Run(State([], [], Additions([])), [], family) == State([], [], [])
      && OfFamily(t1, family) == map[id := NewRoute(req, id, now)]
      && Replay(map[], []) != OfFamily(t1, family)
  {
    var t0: Table, gap := map[], [Add(req, id, now)];
    assert gap[1..] == [];
    var t1 := TableAfterAll(t0, gap);
    assert t1 == TableAfterAll(TableAfter(t0, gap[0]), gap[1..]) == TableAfter(t0, gap[0]);
    assert t1 == map[id := NewRoute(req, id, now)];
    assert id in OfFamily(t1, family);
  }

  /** The variables shared by the observer and the loop. */
  class Stream {
    const family: nat
    var pending: seq<Event>
    var batch: seq<Event>
    var written: seq<Event>

    function Snapshot(): State
      reads this
    {
      State(pending, batch, written)
    }

    /** The initial listing, if asked for, is written first, as additions. */
    constructor (family: nat, sendInitial: bool, manager: Manager)
      requires manager.Valid()
      ensures this.family == family && pending == [] && batch == []
      ensures !sendInitial ==> written == []
      ensures sendInitial ==>
        exists rs :: IsListing(manager.routes, InitialRequest(family), rs) && written == Additions(rs)
      ensures sendInitial ==> Replay(map[], written) == OfFamily(manager.routes, family)
    {
      this.family := family;
      pending, batch := [], [];
      written := [];
      new;
      if sendInitial {
        var snapshot := manager.ListRoutes(InitialRequest(family));
        for i := 0 to |snapshot|
          invariant this.family == family && pending == [] && batch == []
          invariant written == Additions(snapshot[..i])
        {
          assert Additions(snapshot[..i + 1]) == Additions(snapshot[..i]) + [Added(snapshot[i])];
          written := written + [Added(snapshot[i])];
        }
        assert snapshot[..|snapshot|] == snapshot;
        ListingReplays(manager.routes, family, snapshot);
      }
    }

    /** The observer. */
    method OnEvent(ev: Event)
      modifies this`pending
      ensures Snapshot() == Next(old(Snapshot()), Notify(ev), family)
      ensures pending == old(pending) + [ev] && batch == old(batch) && written == old(written)
    {
      pending := pending + [ev];
    }

    /** The critical section of the loop, entered with the previous batch used up. */
    method SwapBatch()
      requires batch == []
      modifies this`pending, this`batch
      ensures Snapshot() == Next(old(Snapshot()), Swap, family)
      ensures batch == old(pending) && pending == [] && written == old(written)
    {
      batch, pending := pending, [];
    }

    /** One turn of the writing loop. */
    method WriteNext()
      requires batch != []
      modifies this`batch, this`written
      ensures Snapshot() == Next(old(Snapshot()), Write, family)
      ensures batch == old(batch)[1..] && pending == old(pending)
      ensures written == old(written) +
        if family == 0 || old(batch)[0].route.family == family then [old(batch)[0]] else []
    {
      var ev := batch[0];
      batch := batch[1..];
      OneEvent(ev, family);
      if family != UNSPECIFIED && ev.route.family != family {
        assert written + [] == written;
        return;
      }
      written := written + [ev];
    }
  }
}
