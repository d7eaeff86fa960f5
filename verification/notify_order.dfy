/**
 * server/src/route_manager.cpp under concurrent calls: addRoute and removeRoute change the table inside its
 * lock and notify outside of it, so notifications may arrive in another order than the changes were made.
 */
module NotifyOrder {
  import opened Bytes
  import opened RouteManager

  /**
   * The table when the observer registered, the table now, the events of all changes since in the order of the
   * changes, and which of them have been notified, in that order.
   */
  datatype State = State(base: Table, table: Table, changes: seq<Event>, notified: seq<nat>)

  /** The part of a call inside the lock, and the call of the observer for the n-th change. */
  datatype Step = Change(op: Op) | Notify(n: nat)

  /** Generated identifiers are never used twice; a notification follows its change and is made once. */
  predicate Enabled(s: State, step: Step) {
    match step
    case Change(op) => op.Add? && op.req.destination != "" ==> op.id !in s.base && !Mentioned(s.changes, op.id)
    case Notify(n) => n < |s.changes| && n !in s.notified
  }

  function Next(s: State, step: Step): State
    requires Enabled(s, step)
  {
    match step
    case Change(op) => s.(table := TableAfter(s.table, op), changes := s.changes + EventsOf(s.table, op))
    case Notify(n) => s.(notified := s.notified + [n])
  }

  predicate Runnable(s: State, steps: seq<Step>)
    decreases |steps|
  {
    steps != [] ==> Enabled(s, steps[0]) && Runnable(Next(s, steps[0]), steps[1..])
  }

  function Run(s: State, steps: seq<Step>): State
    requires Runnable(s, steps)
    decreases |steps|
  {
    if steps == [] then s else Run(Next(s, steps[0]), steps[1..])
  }

  function Start(t: Table): State {
    State(t, t, [], [])
  }

  /** Every change has been notified. */
  predicate Drained(s: State) {
    forall n :: 0 <= n < |s.changes| ==> n in s.notified
  }

  predicate Tickets(s: State) {
    forall i :: 0 <= i < |s.notified| ==> s.notified[i] < |s.changes|
  }

  /** The events as the observer saw them. */
  function Log(s: State): (evs: seq<Event>)
    requires Tickets(s)
    ensures |evs| == |s.notified|
  {
    seq(|s.notified|, i requires 0 <= i < |s.notified| => s.changes[s.notified[i]])
  }

  /** Two changes under one identifier are its addition and then its removal. */
  predicate AddedOnce(evs: seq<Event>) {
    forall i, j :: 0 <= i < j < |evs| && evs[i].route.id == evs[j].route.id ==> evs[i].Added? && evs[j].Removed?
  }

  ghost predicate Inv(s: State) {
    && Keyed(s.base) && Keyed(s.table) && Replay(s.base, s.changes) == s.table
    && AddedOnce(s.changes) && Tickets(s)
    && (forall i, j :: 0 <= i < j < |s.notified| ==> s.notified[i] != s.notified[j])
  }

  // ----- what a replay has at an identifier

  /** The k-th event is the last one of its identifier. */
  predicate LastOf(evs: seq<Event>, k: nat) {
    k < |evs| && forall j :: k < j < |evs| ==> evs[j].route.id != evs[k].route.id
  }

  lemma {:induction false} ReplayUnmentioned(t: Table, evs: seq<Event>, id: string)
    requires !Mentioned(evs, id)
    ensures At(Replay(t, evs), id) == At(t, id)
    decreases |evs|
  {
    if evs != [] {
      assert evs[0].route.id != id;
      assert forall i :: 0 <= i < |evs[1..]| ==> evs[1..][i] == evs[i + 1];
      ReplayUnmentioned(Replayed(t, evs[0]), evs[1..], id);
    }
  }

  /** The last event of an identifier settles it. */
  lemma ReplayLast(t: Table, evs: seq<Event>, k: nat)
    requires LastOf(evs, k)
    ensures At(Replay(t, evs), evs[k].route.id) == if evs[k].Added? then Some(evs[k].route) else None
  {
    var front, ev, rest := evs[..k], evs[k], evs[k + 1..];
    assert evs == front + [ev] + rest;
    ReplayConcat(t, front + [ev], rest);
    ReplaySnoc(t, front, ev);
    NotMentionedAfter(evs, k);
    ReplayUnmentioned(Replay(t, front + [ev]), rest, ev.route.id);
  }

  lemma NotMentionedAfter(evs: seq<Event>, k: nat)
    requires LastOf(evs, k)
    ensures !Mentioned(evs[k + 1..], evs[k].route.id)
  {
    var rest := evs[k + 1..];
    assert forall i :: 0 <= i < |rest| ==> rest[i] == evs[k + 1 + i];
  }

  lemma ReplaySnoc(t: Table, evs: seq<Event>, ev: Event)
    ensures Replay(t, evs + [ev]) == Replayed(Replay(t, evs), ev)
  {
    ReplayConcat(t, evs, [ev]);
    assert [ev][1..] == [];
  }

  // ----- the invariant

  lemma RemovedForGood(s: State, k: nat)
    requires Inv(s) && k < |s.changes| && s.changes[k].Removed?
    ensures s.changes[k].route.id !in s.table
  {
    ReplayLast(s.base, s.changes, k);
  }

  lemma ChangeKeepsInv(s: State, op: Op)
    requires Inv(s) && Enabled(s, Change(op))
    ensures Inv(Next(s, Change(op)))
  {
    var t, evs := Next(s, Change(op)), EventsOf(s.table, op);
    if op.Add? && op.req.destination != "" {
      ReplayUnmentioned(s.base, s.changes, op.id);
      assert op.id !in s.table;
    }
    ReplayStep(s.table, op);
    ReplayConcat(s.base, s.changes, evs);
    if evs != [] {
      forall i | 0 <= i < |s.changes| && s.changes[i].route.id == evs[0].route.id
        ensures s.changes[i].Added? && evs[0].Removed?
      {
        if s.changes[i].Removed? {
          RemovedForGood(s, i);
        }
      }
    }
  }

  lemma StepKeepsInv(s: State, step: Step)
    requires Inv(s) && Enabled(s, step)
    ensures Inv(Next(s, step))
  {
    match step
    case Change(op) =>
      ChangeKeepsInv(s, op);
    case Notify(n) =>
      assert forall i :: 0 <= i < |s.notified| ==> s.notified[i] in s.notified;
  }

  lemma {:induction false} RunKeepsInv(s: State, steps: seq<Step>)
    requires Inv(s) && Runnable(s, steps)
    ensures Inv(Run(s, steps))
    decreases |steps|
  {
    if steps != [] {
      StepKeepsInv(s, steps[0]);
      RunKeepsInv(Next(s, steps[0]), steps[1..]);
    }
  }

  // ----- the verdict

  /** Some removal is notified before the addition of its identifier. */
  predicate Overtaken(evs: seq<Event>) {
    exists i, j :: 0 <= i < j < |evs| && OvertakenAt(evs, i, j)
  }

  predicate OvertakenAt(evs: seq<Event>, i: nat, j: nat)
    requires i < |evs| && j < |evs|
  {
    evs[i].Removed? && evs[j].Added? && evs[i].route.id == evs[j].route.id
  }

  /** No identifier is notified three times. */
  lemma NoThird(s: State, i: nat, j: nat, k: nat)
    requires Inv(s) && i < j < k < |s.notified| && Log(s)[i].route.id == Log(s)[j].route.id
    ensures Log(s)[k].route.id != Log(s)[j].route.id
  {
    var a, b, c := s.notified[i], s.notified[j], s.notified[k];
    assert a != b && b != c && a != c;
  }

  /** An addition notified too late leaves its route in the observer's table. */
  lemma OvertakenStays(s: State, i: nat, j: nat)
    requires Inv(s) && i < j < |s.notified| && OvertakenAt(Log(s), i, j)
    ensures At(Replay(s.base, Log(s)), Log(s)[j].route.id) == Some(Log(s)[j].route)
    ensures At(s.table, Log(s)[j].route.id) == None
  {
    var log := Log(s);
    forall k | j < k < |log|
      ensures log[k].route.id != log[j].route.id
    {
      NoThird(s, i, j, k);
    }
    ReplayLast(s.base, log, j);
    RemovedForGood(s, s.notified[i]);
  }

  /** A notified identifier that is not overtaken is settled as in the table. */
  lemma Settled(s: State, k: nat)
    requires Inv(s) && Drained(s) && LastOf(Log(s), k) && !Overtaken(Log(s))
    ensures At(Replay(s.base, Log(s)), Log(s)[k].route.id) == At(s.table, Log(s)[k].route.id)
  {
    var log, n := Log(s), s.notified[k];
    ReplayLast(s.base, log, k);
    forall m | n < m < |s.changes|
      ensures s.changes[m].route.id != s.changes[n].route.id
    {
      NoneLater(s, k, m);
    }
    ReplayLast(s.base, s.changes, n);
  }

  lemma NoneLater(s: State, k: nat, m: nat)
    requires Inv(s) && Drained(s) && LastOf(Log(s), k) && !Overtaken(Log(s)) && s.notified[k] < m < |s.changes|
    ensures s.changes[m].route.id != s.changes[s.notified[k]].route.id
  {
    var log := Log(s);
    assert m in s.notified;
    var i :| 0 <= i < |s.notified| && s.notified[i] == m;
    assert log[i] == s.changes[m] && log[k] == s.changes[s.notified[k]];
    assert i < k ==> !OvertakenAt(log, i, k);
  }

  lemma {:induction false} LastExists(evs: seq<Event>, id: string) returns (k: nat)
    requires Mentioned(evs, id)
    ensures LastOf(evs, k) && evs[k].route.id == id
  {
    var n := |evs| - 1;
    if evs[n].route.id == id {
      k := n;
    } else {
      assert Mentioned(evs[..n], id) by {
        var i :| 0 <= i < |evs| && evs[i].route.id == id;
        assert evs[..n][i] == evs[i];
      }
      k := LastExists(evs[..n], id);
    }
  }

  lemma SettledAt(s: State, id: string)
    requires Inv(s) && Drained(s) && !Overtaken(Log(s))
    ensures At(Replay(s.base, Log(s)), id) == At(s.table, id)
  {
    var log := Log(s);
    if Mentioned(log, id) {
      var k := LastExists(log, id);
      Settled(s, k);
    } else {
      ReplayUnmentioned(s.base, log, id);
      assert !Mentioned(s.changes, id) by {
        if n :| 0 <= n < |s.changes| && s.changes[n].route.id == id {
          assert n in s.notified;
          var i :| 0 <= i < |s.notified| && s.notified[i] == n;
          assert log[i].route.id == id;
        }
      }
      ReplayUnmentioned(s.base, s.changes, id);
    }
  }

  /**
   * Calls in any interleaving, notifications in any order: once all are in, what an observer has seen, replayed
   * onto the table it started from, is the table if and only if no removal was notified before the addition of
   * its identifier.
   */
  lemma OrderMatters(t: Table, steps: seq<Step>)
    requires Keyed(t) && Runnable(Start(t), steps) && Drained(Run(Start(t), steps))
    ensures var s := Run(Start(t), steps);
      Tickets(s) && (Replay(t, Log(s)) == s.table <==> !Overtaken(Log(s)))
  {
    RunKeepsInv(Start(t), steps);
    BaseKept(Start(t), steps);
    var s := Run(Start(t), steps);
    if Overtaken(Log(s)) {
      var i, j :| 0 <= i < j < |Log(s)| && OvertakenAt(Log(s), i, j);
      OvertakenStays(s, i, j);
    } else {
      forall id
        ensures At(Replay(t, Log(s)), id) == At(s.table, id)
      {
        SettledAt(s, id);
      }
      SameTable(Replay(t, Log(s)), s.table);
    }
  }

  lemma {:induction false} BaseKept(s: State, steps: seq<Step>)
    requires Runnable(s, steps)
    ensures Run(s, steps).base == s.base
    decreases |steps|
  {
    if steps != [] {
      BaseKept(Next(s, steps[0]), steps[1..]);
    }
  }

  lemma RunOn(s: State, step: Step, t: State, steps: seq<Step>)
    requires Enabled(s, step) && t == Next(s, step) && Runnable(t, steps)
    ensures Runnable(s, [step] + steps) && Run(s, [step] + steps) == Run(t, steps)
  {
    assert ([step] + steps)[1..] == steps;
  }

  lemma TwoCalls(add: Op, r: Route)
    requires add.Add? && add.req.destination != "" && r == NewRoute(add.req, add.id, add.now)
    ensures Enabled(Start(map[]), Change(add))
    ensures Next(Start(map[]), Change(add)) == State(map[], map[add.id := r], [Added(r)], [])
    ensures Next(State(map[], map[add.id := r], [Added(r)], []), Change(Remove(add.id)))
         == State(map[], map[], [Added(r), Removed(r)], [])
  {
    var t: Table := map[add.id := r];
    assert t - {add.id} == map[];
    assert [Added(r)] + [Removed(r)] == [Added(r), Removed(r)];
  }

  lemma LateAddition(r: Route)
    ensures Replay(map[], [Removed(r), Added(r)]) == map[r.id := r]
  {
    var t: Table := map[];
    var first: seq<Event> := [Removed(r)];
    assert first + [Added(r)] == [Removed(r), Added(r)] && [] + [Removed(r)] == first;
    ReplaySnoc(t, [], Removed(r));
    ReplaySnoc(t, first, Added(r));
    assert Replay(t, []) == t && t - {r.id} == t;
  }

  /** It happens: a route is added, another caller removes it, and the remover notifies first. */
  lemma OvertakenExample(req: AddRequest, id: string, now: int) returns (steps: seq<Step>)
    requires req.destination != ""
    ensures Runnable(Start(map[]), steps) && Drained(Run(Start(map[]), steps))
    ensures var s := Run(Start(map[]), steps);
      s.table == map[] && Tickets(s) && Replay(map[], Log(s)) == map[id := NewRoute(req, id, now)]
  {
    var r := NewRoute(req, id, now);
    var a := State(map[], map[id := r], [Added(r)], []);
    var b := State(map[], map[], [Added(r), Removed(r)], []);
    var c := b.(notified := [1]);
    var d := b.(notified := [1, 0]);
    TwoCalls(Add(req, id, now), r);
    RunOn(c, Notify(0), d, []);
    RunOn(b, Notify(1), c, [Notify(0)] + []);
    RunOn(a, Change(Remove(id)), b, [Notify(1)] + ([Notify(0)] + []));
    steps := [Change(Remove(id))] + ([Notify(1)] + ([Notify(0)] + []));
    RunOn(Start(map[]), Change(Add(req, id, now)), a, steps);
    steps := [Change(Add(req, id, now))] + steps;
    assert d.notified[0] == 1 && d.notified[1] == 0;
    assert Log(d) == [Removed(r), Added(r)];
    LateAddition(r);
  }
}
