/**
 * client/src/grpc_proc.cpp: requests submitted by any thread, executed one at a time by the worker, answered
 * through a store from which any thread takes. Each step below is what happens under one lock or in one
 * atomic operation; an execution is any sequence of enabled steps.
 */
module GrpcProc {

  datatype Rpc = Success(reply: string) | Failure(error: string)

  datatype RequestPayload = Echo(message: string) | Heartbeat(sequence: nat) | AddRoute(destination: string)
    | RemoveRoute(removeId: string) | GetRoute(getId: string) | ListRoutes(activeOnly: bool)
    | SetLoopback(address: string) | GetLoopback | GetLoopbacks(loopback: string) | RequestLoopback | GetAllRoutes
  {
    /** The position of the alternative in the request variant. */
    function Index(): nat {
      match this
      case Echo(_) => 0
      case Heartbeat(_) => 1
      case AddRoute(_) => 2
      case RemoveRoute(_) => 3
      case GetRoute(_) => 4
      case ListRoutes(_) => 5
      case SetLoopback(_) => 6
      case GetLoopback => 7
      case GetLoopbacks(_) => 8
      case RequestLoopback => 9
      case GetAllRoutes => 10
    }
  }

  datatype ResponsePayload = EchoResult(r: Rpc) | HeartbeatResult(r: Rpc) | AddRouteResult(r: Rpc)
    | RemoveRouteResult(r: Rpc) | GetRouteResult(r: Rpc) | ListRoutesResult(r: Rpc) | SetLoopbackResult(r: Rpc)
    | GetLoopbackResult(r: Rpc) | GetLoopbacksResult(r: Rpc) | RequestLoopbackResult(r: Rpc)
    | GetAllRoutesResult(r: Rpc)
  {
    /** The position of the alternative in the response variant. */
    function Index(): nat {
      match this
      case EchoResult(_) => 0
      case HeartbeatResult(_) => 1
      case AddRouteResult(_) => 2
      case RemoveRouteResult(_) => 3
      case GetRouteResult(_) => 4
      case ListRoutesResult(_) => 5
      case SetLoopbackResult(_) => 6
      case GetLoopbackResult(_) => 7
      case GetLoopbacksResult(_) => 8
      case RequestLoopbackResult(_) => 9
      case GetAllRoutesResult(_) => 10
    }
  }

  /** The result of the remote call, wrapped in the alternative for the request's own kind. */
  function Dispatch(p: RequestPayload, r: Rpc): (resp: ResponsePayload)
    ensures resp.Index() == p.Index() && resp.r == r
    ensures (p.Echo? <==> resp.EchoResult?) && (p.Heartbeat? <==> resp.HeartbeatResult?)
    ensures (p.AddRoute? <==> resp.AddRouteResult?) && (p.RemoveRoute? <==> resp.RemoveRouteResult?)
    ensures (p.GetRoute? <==> resp.GetRouteResult?) && (p.ListRoutes? <==> resp.ListRoutesResult?)
    ensures (p.SetLoopback? <==> resp.SetLoopbackResult?) && (p.GetLoopback? <==> resp.GetLoopbackResult?)
    ensures (p.GetLoopbacks? <==> resp.GetLoopbacksResult?) && (p.RequestLoopback? <==> resp.RequestLoopbackResult?)
    ensures p.GetAllRoutes? <==> resp.GetAllRoutesResult?
  {
    match p
    case Echo(_) => EchoResult(r)
    case Heartbeat(_) => HeartbeatResult(r)
    case RemoveRoute(_) => RemoveRouteResult(r)
    case ListRoutes(_) => ListRoutesResult(r)
    case GetLoopbacks(_) => GetLoopbacksResult(r)
    case AddRoute(_) => AddRouteResult(r)
    case GetRoute(_) => GetRouteResult(r)
    case SetLoopback(_) => SetLoopbackResult(r)
    case GetLoopback => GetLoopbackResult(r)
    case RequestLoopback => RequestLoopbackResult(r)
    case GetAllRoutes => GetAllRoutesResult(r)
  }

  datatype Request = Request(id: nat, payload: RequestPayload)

  datatype Response = Response(id: nat, payload: ResponsePayload)

  /**
   * Where the worker is. Waiting: about to enter its first lock. Tested: inside it, having found nothing to do.
   * Asleep: on the condition variable, the lock given up.
   */
  datatype Worker = NoThread | Waiting | Tested | Asleep | Busy(req: Request) | Exited

  /**
   * The shared variables; how many submitters have pushed and not yet notified, and whether a stopper has
   * cleared the flag and not yet notified; and records of the past: every request ever made, the order in
   * which requests were pushed, the order in which responses were stored, and whether the stopper notified a
   * worker that had tested but was not asleep yet and has not been woken since.
   */
  datatype State = State(
    nextId: nat, running: bool, queue: seq<Request>, responses: map<nat, Response>, worker: Worker,
    pushNotices: nat, stopNotice: bool, missed: bool,
    issued: set<nat>, taken: map<nat, Response>,
    requests: map<nat, RequestPayload>, pushOrder: seq<nat>, storeOrder: seq<nat>)

  datatype Step =
    | Allocate(payload: RequestPayload)
    | Push(pushId: nat)
    | NotifyPush
    | Pop
    | FindNothing
    | Sleep
    | Store(result: Rpc)
    | Exit
    | Take(takeId: nat)
    | Start
    | SignalStop
    | NotifyStop
    | Join

  const INITIAL := State(1, false, [], map[], NoThread, 0, false, false, {}, map[], map[], [], [])

  predicate Enabled(s: State, step: Step) {
    match step
    case Allocate(_) => true
    case Push(id) => id in s.issued && id in s.requests && !s.worker.Tested?
    case NotifyPush => s.pushNotices > 0
    case FindNothing => s.worker.Waiting? && s.running && s.queue == []
    case Sleep => s.worker.Tested?
    case Pop => s.worker.Waiting? && s.queue != []
    case Store(_) => s.worker.Busy?
    case Exit => s.worker.Waiting? && !s.running && s.queue == []
    case Take(_) => true
    case Start => s.running || s.worker.NoThread?
    case SignalStop => true
    case NotifyStop => s.stopNotice
    case Join => s.worker.Exited? && !s.stopNotice
  }

  function Woken(w: Worker): Worker {
    if w.Asleep? then Waiting else w
  }

  function Next(s: State, step: Step): State
    requires Enabled(s, step)
  {
    match step
    case Allocate(p) =>
      s.(nextId := s.nextId + 1, issued := s.issued + {s.nextId}, requests := s.requests[s.nextId := p])
    case Push(id) =>
      s.(issued := s.issued - {id}, queue := s.queue + [Request(id, s.requests[id])], pushOrder := s.pushOrder + [id],
         pushNotices := s.pushNotices + 1)
    case NotifyPush =>
      s.(pushNotices := s.pushNotices - 1, worker := Woken(s.worker), missed := s.missed && !s.worker.Asleep?)
    case FindNothing => s.(worker := Tested)
    case Sleep => s.(worker := Asleep)
    case Pop =>
      s.(worker := Busy(s.queue[0]), queue := s.queue[1..])
    case Store(r) =>
      var req := s.worker.req;
      // an emplace keeps an entry that is already there
      s.(worker := Waiting,
         responses := if req.id in s.responses then s.responses
                      else s.responses[req.id := Response(req.id, Dispatch(req.payload, r))],
         storeOrder := s.storeOrder + [req.id])
    case Exit => s.(worker := Exited)
    case Take(id) =>
      if id in s.responses then s.(responses := s.responses - {id}, taken := s.taken[id := s.responses[id]]) else s
    case Start => if s.running then s else s.(running := true, worker := Waiting)
    case SignalStop => s.(running := false, stopNotice := s.stopNotice || s.running)
    case NotifyStop => s.(stopNotice := false, worker := Woken(s.worker), missed := s.worker.Tested?)
    case Join => s.(worker := NoThread)
  }

  predicate Runnable(s: State, steps: seq<Step>)
    decreases |steps|
  {
    steps != [] ==> Enabled(s, steps[0]) && Runnable(Next(s, steps[0]), steps[1..])
  }

  function Run(s: State, steps: seq<Step>): State
    requires Runnable(s, steps)
    decreases |steps|
  {
    if steps == [] then s else Run(Next(s, steps[0]), steps[1..])
  }

  // ----- the invariant

  predicate Distinct(s: seq<nat>) {
    forall i, j :: 0 <= i < j < |s| ==> s[i] != s[j]
  }

  function InFlight(w: Worker): seq<nat> {
    if w.Busy? then [w.req.id] else []
  }

  function QueueIds(q: seq<Request>): (r: seq<nat>)
    ensures |r| == |q|
    ensures forall i :: 0 <= i < |q| ==> r[i] == q[i].id
  {
    if q == [] then [] else [q[0].id] + QueueIds(q[1..])
  }

  /** Identifiers run from 1 without gaps, and each is allocated or pushed, never both, never pushed twice. */
  ghost predicate IdsAccounted(s: State) {
    && s.nextId >= 1
    && (forall id :: id in s.requests <==> 1 <= id < s.nextId)
    && (forall id :: id in s.requests <==> id in s.issued || id in s.pushOrder)
    && (forall id :: id in s.issued ==> id !in s.pushOrder)
    && Distinct(s.pushOrder)
  }

  /** The pushed requests, in order: first those stored, then the one in flight, then the queue. */
  ghost predicate OrderAccounted(s: State) {
    && s.pushOrder == s.storeOrder + InFlight(s.worker) + QueueIds(s.queue)
    && (forall i :: 0 <= i < |s.queue| ==>
         s.queue[i].id in s.requests && s.queue[i].payload == s.requests[s.queue[i].id])
    && (s.worker.Busy? ==> s.worker.req.id in s.requests && s.worker.req.payload == s.requests[s.worker.req.id])
  }

  ghost predicate Answers(requests: map<nat, RequestPayload>, id: nat, r: Response) {
    r.id == id && id in requests && r.payload.Index() == requests[id].Index()
  }

  /** Every stored response is in the store or taken, not both, and answers the request of its identifier. */
  ghost predicate ResponsesAccounted(s: State) {
    && (forall id :: id in s.storeOrder <==> id in s.responses || id in s.taken)
    && (forall id :: id in s.responses ==> id !in s.taken && Answers(s.requests, id, s.responses[id]))
    && (forall id :: id in s.taken ==> Answers(s.requests, id, s.taken[id]))
  }

  predicate Idle(w: Worker) {
    w.Tested? || w.Asleep?
  }

  /** Who still has to be notified, and by whom. */
  predicate WakeAccounted(s: State) {
    && (s.running ==> s.worker.Waiting? || Idle(s.worker) || s.worker.Busy?)
    && (s.worker.Tested? ==> s.queue == [])
    && (s.worker.Asleep? && s.queue != [] ==> s.pushNotices > 0)
    && (s.stopNotice ==> !s.running && !s.worker.NoThread? && !s.missed)
    && (Idle(s.worker) && !s.running ==> s.stopNotice || s.missed)
    && (s.missed ==> Idle(s.worker) && !s.running)
  }

  ghost predicate Accounted(s: State) {
    IdsAccounted(s) && OrderAccounted(s) && ResponsesAccounted(s)
  }

  ghost predicate Inv(s: State) {
    Accounted(s) && WakeAccounted(s)
  }

  // ----- each step keeps it

  lemma StoreFresh(s: State)
    requires Inv(s) && s.worker.Busy?
    ensures s.worker.req.id !in s.storeOrder && s.worker.req.id !in s.responses && s.worker.req.id !in s.taken
  {
    var k := |s.storeOrder|;
    assert s.pushOrder[k] == s.worker.req.id;
    assert forall i :: 0 <= i < k ==> s.pushOrder[i] == s.storeOrder[i];
  }

  lemma {:induction false} QueueIdsSnoc(q: seq<Request>, r: Request)
    ensures QueueIds(q + [r]) == QueueIds(q) + [r.id]
  {
    if q != [] {
      assert (q + [r])[1..] == q[1..] + [r];
      QueueIdsSnoc(q[1..], r);
    }
  }

  lemma DistinctSnoc(s: seq<nat>, id: nat)
    requires Distinct(s) && id !in s
    ensures Distinct(s + [id])
  {
    assert forall i :: 0 <= i < |s| ==> s[i] in s;
  }

  lemma PushKeepsIds(s: State, id: nat)
    requires Inv(s) && Enabled(s, Push(id))
    ensures IdsAccounted(Next(s, Push(id)))
  {
    DistinctSnoc(s.pushOrder, id);
    assert forall x :: x in s.pushOrder + [id] <==> x in s.pushOrder || x == id;
  }

  lemma PushKeepsOrder(s: State, id: nat)
    requires Inv(s) && Enabled(s, Push(id))
    ensures OrderAccounted(Next(s, Push(id)))
  {
    QueueIdsSnoc(s.queue, Request(id, s.requests[id]));
    var t := Next(s, Push(id));
    assert t.pushOrder == t.storeOrder + InFlight(t.worker) + QueueIds(t.queue);
  }

  lemma PopKeepsOrder(s: State)
    requires Inv(s) && Enabled(s, Pop)
    ensures OrderAccounted(Next(s, Pop))
  {
    var t := Next(s, Pop);
    assert s.storeOrder + [] == s.storeOrder;
    assert t.pushOrder == t.storeOrder + InFlight(t.worker) + QueueIds(t.queue);
  }

  lemma StoreKeepsOrder(s: State, r: Rpc)
    requires Inv(s) && Enabled(s, Store(r))
    ensures OrderAccounted(Next(s, Store(r)))
  {
    var t := Next(s, Store(r));
    assert t.storeOrder + [] == t.storeOrder;
  }

  lemma StoreKeepsResponses(s: State, r: Rpc)
    requires Inv(s) && Enabled(s, Store(r))
    ensures ResponsesAccounted(Next(s, Store(r)))
  {
    var t := Next(s, Store(r));
    StoreFresh(s);
    assert forall id :: id in t.storeOrder <==> id in s.storeOrder || id == s.worker.req.id;
  }

  lemma AllocateKeepsIds(s: State, p: RequestPayload)
    requires IdsAccounted(s)
    ensures IdsAccounted(Next(s, Allocate(p)))
  {
    assert s.nextId !in s.requests;
  }

  lemma AllocateKeepsOrder(s: State, p: RequestPayload)
    requires Inv(s)
    ensures OrderAccounted(Next(s, Allocate(p)))
  {
    assert s.nextId !in s.requests;
  }

  lemma AllocateKeepsResponses(s: State, p: RequestPayload)
    requires Inv(s)
    ensures ResponsesAccounted(Next(s, Allocate(p)))
  {
    assert s.nextId !in s.requests;
  }

  lemma TakeKeepsResponses(s: State, id: nat)
    requires ResponsesAccounted(s)
    ensures ResponsesAccounted(Next(s, Take(id)))
  {
    var t := Next(s, Take(id));
    assert forall x :: x in s.responses || x in s.taken <==> x in t.responses || x in t.taken;
  }

  lemma PushKeepsResponses(s: State, id: nat)
    requires ResponsesAccounted(s) && Enabled(s, Push(id))
    ensures ResponsesAccounted(Next(s, Push(id)))
  {
  }

  lemma StoreKeepsIds(s: State, r: Rpc)
    requires IdsAccounted(s) && Enabled(s, Store(r))
    ensures IdsAccounted(Next(s, Store(r)))
  {
  }

  /** Steps that touch neither identifiers, nor the queue, nor responses. */
  lemma QuietStep(s: State, step: Step)
    requires Accounted(s) && Enabled(s, step)
    requires !step.Allocate? && !step.Push? && !step.Pop? && !step.Store? && !step.Take?
    ensures Accounted(Next(s, step))
  {
    var t := Next(s, step);
    assert InFlight(t.worker) == InFlight(s.worker);
  }

  lemma StepKeepsWake(s: State, step: Step)
    requires WakeAccounted(s) && Enabled(s, step)
    ensures WakeAccounted(Next(s, step))
  {
  }

  lemma StepKeepsInv(s: State, step: Step)
    requires Inv(s) && Enabled(s, step)
    ensures Inv(Next(s, step))
  {
    StepKeepsWake(s, step);
    if step.Allocate? {
      AllocateKeepsInv(s, step.payload);
    } else if step.Push? {
      PushKeepsInv(s, step.pushId);
    } else if step.Pop? {
      PopKeepsInv(s);
    } else if step.Store? {
      StoreKeepsInv(s, step.result);
    } else if step.Take? {
      TakeKeepsInv(s, step.takeId);
    } else {
      QuietStep(s, step);
    }
  }

  lemma AllocateKeepsInv(s: State, p: RequestPayload)
    requires Inv(s)
    ensures Accounted(Next(s, Allocate(p)))
  {
    AllocateKeepsIds(s, p);
    AllocateKeepsOrder(s, p);
    AllocateKeepsResponses(s, p);
  }

  lemma PushKeepsInv(s: State, id: nat)
    requires Inv(s) && Enabled(s, Push(id))
    ensures Accounted(Next(s, Push(id)))
  {
    PushKeepsIds(s, id);
    PushKeepsOrder(s, id);
    PushKeepsResponses(s, id);
  }

  lemma PopKeepsInv(s: State)
    requires Inv(s) && Enabled(s, Pop)
    ensures Accounted(Next(s, Pop))
  {
    PopKeepsOrder(s);
  }

  lemma StoreKeepsInv(s: State, r: Rpc)
    requires Inv(s) && Enabled(s, Store(r))
    ensures Accounted(Next(s, Store(r)))
  {
    StoreKeepsIds(s, r);
    StoreKeepsOrder(s, r);
    StoreKeepsResponses(s, r);
  }

  lemma TakeKeepsInv(s: State, id: nat)
    requires Inv(s)
    ensures Accounted(Next(s, Take(id)))
  {
    TakeKeepsResponses(s, id);
  }

  /** The accounting holds in every state of every interleaving. */
  lemma {:induction false} RunKeepsInv(s: State, steps: seq<Step>)
    requires Inv(s) && Runnable(s, steps)
    ensures Inv(Run(s, steps))
    decreases |steps|
  {
    if steps != [] {
      StepKeepsInv(s, steps[0]);
      RunKeepsInv(Next(s, steps[0]), steps[1..]);
    }
  }

  // ----- consequences

  function One(b: bool): nat { if b then 1 else 0 }

  /** In how many places an identifier is. */
  function Places(s: State, id: nat): nat {
    One(id in s.issued) + One(id in QueueIds(s.queue)) + One(id in InFlight(s.worker))
    + One(id in s.responses) + One(id in s.taken)
  }

  lemma SplitMember(a: seq<nat>, b: seq<nat>, id: nat)
    ensures id in a + b <==> id in a || id in b
    ensures Distinct(a + b) ==> !(id in a && id in b) && Distinct(a) && Distinct(b)
  {
    var c := a + b;
    assert forall i :: 0 <= i < |a| ==> c[i] == a[i];
    assert forall j :: 0 <= j < |b| ==> b[j] == c[|a| + j];
    if id in a && id in b {
      var i :| 0 <= i < |a| && a[i] == id;
      var j :| 0 <= j < |b| && b[j] == id;
      assert c[i] == c[|a| + j];
    }
  }

  /**
   * In every reachable state each identifier ever handed out is in exactly one place: with its submitter,
   * queued, in flight, in the store, or taken. No other number is anywhere.
   */
  lemma Conservation(steps: seq<Step>, id: nat)
    requires Runnable(INITIAL, steps)
    ensures var s := Run(INITIAL, steps); Places(s, id) == One(1 <= id < s.nextId)
  {
    RunKeepsInv(INITIAL, steps);
    OnePlace(Run(INITIAL, steps), id);
  }

  lemma OnePlace(s: State, id: nat)
    requires Inv(s)
    ensures Places(s, id) == One(1 <= id < s.nextId)
  {
    SplitMember(s.storeOrder + InFlight(s.worker), QueueIds(s.queue), id);
    SplitMember(s.storeOrder, InFlight(s.worker), id);
    assert id in s.requests <==> 1 <= id < s.nextId;
  }

  /** A response can be taken only once, and it answers the request whose identifier was given. */
  lemma TakenOnce(steps: seq<Step>, id: nat)
    requires Runnable(INITIAL, steps)
    ensures var s := Run(INITIAL, steps); id in s.responses ==>
      && id !in s.taken && Answers(s.requests, id, s.responses[id])
      && Next(s, Take(id)).taken == s.taken[id := s.responses[id]]
      && Next(Next(s, Take(id)), Take(id)) == Next(s, Take(id))
  {
    RunKeepsInv(INITIAL, steps);
    var s := Run(INITIAL, steps);
    if id in s.responses {
      TakeMoves(s, id);
    }
  }

  lemma TakeMoves(s: State, id: nat)
    requires ResponsesAccounted(s) && id in s.responses
    ensures id !in s.taken && Answers(s.requests, id, s.responses[id])
    ensures Next(s, Take(id)).taken == s.taken[id := s.responses[id]]
    ensures Next(Next(s, Take(id)), Take(id)) == Next(s, Take(id))
  {
  }

  /** Storing a response never meets an older entry, so no result is dropped. */
  lemma NoCollision(steps: seq<Step>, r: Rpc)
    requires Runnable(INITIAL, steps) && Enabled(Run(INITIAL, steps), Store(r))
    ensures var s := Run(INITIAL, steps); var req := s.worker.req;
      && req.id !in s.responses && req.id !in s.taken
      && req.id in s.requests
      && Next(s, Store(r)).responses == s.responses[req.id := Response(req.id, Dispatch(s.requests[req.id], r))]
  {
    RunKeepsInv(INITIAL, steps);
    StoreFresh(Run(INITIAL, steps));
  }

  /** Responses are stored in the order in which requests were pushed. */
  lemma StoredInPushOrder(steps: seq<Step>)
    requires Runnable(INITIAL, steps)
    ensures var s := Run(INITIAL, steps); s.storeOrder <= s.pushOrder
  {
    RunKeepsInv(INITIAL, steps);
  }

  /** The worker leaves only when it has been told to and every pushed request has been answered. */
  lemma ExitAfterDraining(steps: seq<Step>)
    requires Runnable(INITIAL, steps) && Enabled(Run(INITIAL, steps), Exit)
    ensures var s := Run(INITIAL, steps); !s.running && s.storeOrder == s.pushOrder
  {
    var s := Run(INITIAL, steps);
    assert s.worker.Waiting? && !s.running && s.queue == [];
    assert s.storeOrder == s.pushOrder by {
      RunKeepsInv(INITIAL, steps);
      AllStored(s);
    }
  }

  lemma AllStored(s: State)
    requires OrderAccounted(s) && s.queue == [] && !s.worker.Busy?
    ensures s.storeOrder == s.pushOrder
  {
    assert s.storeOrder + [] + [] == s.storeOrder;
  }

  /** While it has not been told to stop, the worker is alive; and a queued request always has a waker. */
  lemma WorkerServes(steps: seq<Step>)
    requires Runnable(INITIAL, steps)
    ensures var s := Run(INITIAL, steps);
      && (s.running ==> s.worker.Waiting? || Idle(s.worker) || s.worker.Busy?)
      && (Idle(s.worker) && s.queue != [] ==> s.worker.Asleep? && s.pushNotices > 0)
  {
    RunKeepsInv(INITIAL, steps);
  }

  // ----- the lost wake-up

  /** The worker sleeps and nobody is about to notify it. */
  predicate Unattended(s: State) {
    s.worker.Asleep? && s.pushNotices == 0 && !s.stopNotice
  }

  /** stop has been called, has notified, and waits for a worker that sleeps on. */
  predicate StopHangs(s: State) {
    Unattended(s) && !s.running
  }

  /**
   * The flag is cleared and the notification sent without the lock, so it can come between the worker's test
   * and its sleep. In every reachable state an unattended sleeper has been told to stop if and only if that
   * is what happened; and then nothing is queued.
   */
  lemma HangsWhenMissed(steps: seq<Step>)
    requires Runnable(INITIAL, steps)
    ensures var s := Run(INITIAL, steps); Unattended(s) ==> s.queue == [] && (!s.running <==> s.missed)
  {
    RunKeepsInv(INITIAL, steps);
  }

  /** It does happen. */
  lemma HangExample() returns (steps: seq<Step>)
    ensures Runnable(INITIAL, steps) && StopHangs(Run(INITIAL, steps))
  {
    steps := [Start, FindNothing, SignalStop, NotifyStop, Sleep];
    var a := Next(INITIAL, Start);
    var b := Next(a, FindNothing);
    var c := Next(b, SignalStop);
    var d := Next(c, NotifyStop);
    var e := Next(d, Sleep);
    assert steps[1..] == [FindNothing, SignalStop, NotifyStop, Sleep];
    assert steps[1..][1..] == [SignalStop, NotifyStop, Sleep];
    assert steps[1..][1..][1..] == [NotifyStop, Sleep];
    assert steps[1..][1..][1..][1..] == [Sleep] && [Sleep][1..] == [];
    assert Runnable(e, []) && Run(e, []) == e;
    assert Runnable(d, [Sleep]) && Run(d, [Sleep]) == e;
    assert Runnable(c, [NotifyStop, Sleep]) && Run(c, [NotifyStop, Sleep]) == e;
    assert Runnable(b, [SignalStop, NotifyStop, Sleep]) && Run(b, [SignalStop, NotifyStop, Sleep]) == e;
  }

  /** Nothing but a later submission ends it: until then the worker sleeps on and join does not return. */
  lemma {:induction false} HangsForever(s: State, steps: seq<Step>)
    requires StopHangs(s) && Runnable(s, steps)
    requires forall i :: 0 <= i < |steps| ==> !steps[i].Push?
    ensures StopHangs(Run(s, steps)) && !Enabled(Run(s, steps), Join)
    decreases |steps|
  {
    if steps != [] {
      assert StopHangs(Next(s, steps[0]));
      HangsForever(Next(s, steps[0]), steps[1..]);
    }
  }

  /** A notification wakes a sleeping worker. */
  lemma NotificationWakes(s: State)
    requires s.worker.Asleep?
    ensures s.stopNotice ==> Next(s, NotifyStop).worker == Waiting
    ensures s.pushNotices > 0 ==> Next(s, NotifyPush).worker == Waiting
  {
  }

  /** No stopper notifies a worker that has tested and is not asleep yet. */
  predicate WellTimed(s: State, steps: seq<Step>)
    requires Runnable(s, steps)
    decreases |steps|
  {
    steps != [] ==>
      && (steps[0].NotifyStop? ==> !s.worker.Tested?)
      && WellTimed(Next(s, steps[0]), steps[1..])
  }

  lemma {:induction false} NothingMissed(s: State, steps: seq<Step>)
    requires Runnable(s, steps) && WellTimed(s, steps) && !s.missed
    ensures !Run(s, steps).missed
    decreases |steps|
  {
    if steps != [] {
      NothingMissed(Next(s, steps[0]), steps[1..]);
    }
  }

  /** That is the only way for stop to hang. */
  lemma NoHangWhenWellTimed(steps: seq<Step>)
    requires Runnable(INITIAL, steps) && WellTimed(INITIAL, steps)
    ensures !StopHangs(Run(INITIAL, steps))
  {
    NothingMissed(INITIAL, steps);
    HangsWhenMissed(steps);
  }

  // ----- progress

  predicate Alive(w: Worker) {
    w.Waiting? || Idle(w) || w.Busy?
  }

  lemma RunOn(s: State, step: Step, steps: seq<Step>)
    requires Enabled(s, step) && Runnable(Next(s, step), steps)
    ensures Runnable(s, [step] + steps) && Run(s, [step] + steps) == Run(Next(s, step), steps)
  {
    assert ([step] + steps)[1..] == steps;
  }

  /** What serving requests leaves alone. */
  predicate Kept(s: State, t: State) {
    t.running == s.running && t.stopNotice == s.stopNotice && (t.missed ==> s.missed) && t.pushOrder == s.pushOrder
  }

  /** A live worker can always go on until everything pushed has been answered. */
  lemma {:induction false} CanServeAll(s: State, r: Rpc) returns (steps: seq<Step>)
    requires Inv(s) && Alive(s.worker)
    ensures Runnable(s, steps) && Run(s, steps).storeOrder == s.pushOrder && Run(s, steps).queue == []
    ensures Alive(Run(s, steps).worker) && !Run(s, steps).worker.Busy? && Kept(s, Run(s, steps))
    decreases |s.queue|, if s.worker.Busy? then 2 else if s.worker.Asleep? then 1 else 0
  {
    if s.worker.Busy? {
      steps := ServeAfter(s, Store(r), r);
    } else if s.queue == [] {
      AllStored(s);
      steps := [];
    } else if s.worker.Asleep? {
      steps := ServeAfter(s, NotifyPush, r);
    } else {
      StepKeepsInv(s, Pop);
      steps := ServeAfter(s, Pop, r);
    }
  }

  lemma {:induction false} ServeAfter(s: State, step: Step, r: Rpc) returns (steps: seq<Step>)
    requires Inv(s) && Alive(s.worker) && Enabled(s, step)
    requires step == Pop || (step == Store(r) && s.worker.Busy?)
      || (step == NotifyPush && s.worker.Asleep? && s.queue != [])
    ensures Runnable(s, steps) && Run(s, steps).storeOrder == s.pushOrder && Run(s, steps).queue == []
    ensures Alive(Run(s, steps).worker) && !Run(s, steps).worker.Busy? && Kept(s, Run(s, steps))
    decreases |s.queue|, if s.worker.Busy? then 2 else if s.worker.Asleep? then 1 else 0, 0
  {
    StepKeepsInv(s, step);
    var t := Next(s, step);
    steps := CanServeAll(t, r);
    RunOn(s, step, steps);
    steps := [step] + steps;
  }

  lemma {:induction false} ThenRun(s: State, first: seq<Step>, later: seq<Step>)
    requires Runnable(s, first) && Runnable(Run(s, first), later)
    ensures Runnable(s, first + later) && Run(s, first + later) == Run(Run(s, first), later)
    decreases |first|
  {
    if first == [] {
      assert first + later == later;
    } else {
      var t, rest := Next(s, first[0]), first[1..] + later;
      ThenRun(t, first[1..], later);
      assert Runnable(s, [first[0]] + rest) && Run(s, [first[0]] + rest) == Run(t, rest) by {
        RunOn(s, first[0], rest);
      }
      assert first + later == [first[0]] + rest;
    }
  }

  /** From a drained state, the steps in which a worker told to stop leaves. */
  lemma CanLeave(s: State) returns (steps: seq<Step>)
    requires Inv(s) && Alive(s.worker) && !s.worker.Busy? && s.queue == [] && !s.running && !s.missed
    ensures Runnable(s, steps) && Run(s, steps).worker.Exited? && Run(s, steps).storeOrder == s.storeOrder
  {
    var woken := s.(stopNotice := false, missed := false, worker := Waiting);
    RunOn(woken, Exit, []);
    if s.worker.Waiting? {
      RunOn(s, Exit, []);
      steps := [Exit] + [];
    } else {
      var asleep := s.(worker := Asleep);
      assert Next(asleep, NotifyStop) == woken;
      RunOn(asleep, NotifyStop, [Exit] + []);
      steps := [NotifyStop] + ([Exit] + []);
      if s.worker.Tested? {
        RunOn(s, Sleep, steps);
        steps := [Sleep] + steps;
      }
    }
  }

  /** A processor told to stop can always answer what was pushed and leave, unless the notification was missed. */
  lemma CanStop(s: State, r: Rpc) returns (steps: seq<Step>)
    requires Inv(s) && Alive(s.worker) && !s.running && !s.missed
    ensures Runnable(s, steps) && Run(s, steps).worker.Exited? && Run(s, steps).storeOrder == s.pushOrder
  {
    var first := CanServeAll(s, r);
    RunKeepsInv(s, first);
    var last := CanLeave(Run(s, first));
    ThenRun(s, first, last);
    steps := first + last;
  }

  // ----- the object

  datatype StartResult = Started | AlreadyRunning | ProgramEnds

  class Processor {
    var nextId: nat
    var running: bool
    var queue: seq<Request>
    var responses: map<nat, Response>
    var worker: Worker
    ghost var pushNotices: nat
    ghost var stopNotice: bool
    ghost var missed: bool
    ghost var issued: set<nat>
    ghost var taken: map<nat, Response>
    ghost var requests: map<nat, RequestPayload>
    ghost var pushOrder: seq<nat>
    ghost var storeOrder: seq<nat>

    ghost function Now(): State
      reads this
    {
      State(nextId, running, queue, responses, worker, pushNotices, stopNotice, missed,
            issued, taken, requests, pushOrder, storeOrder)
    }

    constructor ()
      ensures Now() == INITIAL && Inv(Now())
    {
      nextId, running, queue, responses, worker := 1, false, [], map[], NoThread;
      pushNotices, stopNotice, missed := 0, false, false;
      issued, taken, requests, pushOrder, storeOrder := {}, map[], map[], [], [];
    }

    /** submit, up to the lock. */
    method AllocateId(payload: RequestPayload) returns (id: nat)
      requires Inv(Now())
      modifies this
      ensures Now() == Next(old(Now()), Allocate(payload)) && Inv(Now())
      ensures id == old(nextId) && nextId == id + 1
      ensures running == old(running) && queue == old(queue) && responses == old(responses) && worker == old(worker)
    {
      StepKeepsInv(Now(), Allocate(payload));
      id := nextId;
      nextId := nextId + 1;
      issued, requests := issued + {id}, requests[id := payload];
    }

    /** submit, inside the lock; `payload` is the one the identifier was allocated for. */
    method PushRequest(id: nat, payload: RequestPayload)
      requires Inv(Now()) && id in issued && id in requests && requests[id] == payload && !worker.Tested?
      modifies this
      ensures Now() == Next(old(Now()), Push(id)) && Inv(Now())
      ensures queue == old(queue) + [Request(id, payload)] && nextId == old(nextId)
      ensures running == old(running) && responses == old(responses) && worker == old(worker)
    {
      StepKeepsInv(Now(), Push(id));
      Enqueue(id, payload);
    }

    method Enqueue(id: nat, payload: RequestPayload)
      requires id in issued && id in requests && requests[id] == payload && !worker.Tested?
      modifies this
      ensures Now() == Next(old(Now()), Push(id))
      ensures queue == old(queue) + [Request(id, payload)] && nextId == old(nextId)
      ensures running == old(running) && responses == old(responses) && worker == old(worker)
    {
      queue := queue + [Request(id, payload)];
      issued, pushOrder, pushNotices := issued - {id}, pushOrder + [id], pushNotices + 1;
    }

    /** submit, after the lock. */
    method NotifySubmitted()
      requires Inv(Now()) && pushNotices > 0
      modifies this
      ensures Now() == Next(old(Now()), NotifyPush) && Inv(Now())
      ensures worker == if old(worker) == Asleep then Waiting else old(worker)
      ensures nextId == old(nextId) && running == old(running) && queue == old(queue) && responses == old(responses)
    {
      StepKeepsInv(Now(), NotifyPush);
      pushNotices := pushNotices - 1;
      missed := missed && !worker.Asleep?;
      worker := Woken(worker);
    }

    /** The worker inside its first lock: it leaves, or takes the front request, or finds nothing to do. */
    method WorkerLooks() returns (ready: bool)
      requires Inv(Now()) && worker.Waiting?
      modifies this
      ensures Inv(Now()) && (ready <==> old(queue) != [] || !old(running))
      ensures Now() == Next(old(Now()),
        if !ready then FindNothing else if !old(running) && old(queue) == [] then Exit else Pop)
      ensures worker == if old(queue) != [] then Busy(old(queue)[0]) else if old(running) then Tested else Exited
      ensures queue == if old(queue) != [] then old(queue)[1..] else []
      ensures nextId == old(nextId) && running == old(running) && responses == old(responses)
    {
      ready := queue != [] || !running;
      if !ready {
        StepKeepsInv(Now(), FindNothing);
        worker := Tested;
        return;
      }
      if !running && queue == [] {
        StepKeepsInv(Now(), Exit);
        worker := Exited;
        return;
      }
      StepKeepsInv(Now(), Pop);
      var req := queue[0];
      queue := queue[1..];
      worker := Busy(req);
    }

    /** The wait of the condition variable, which gives up the lock. */
    method FallAsleep()
      requires Inv(Now()) && worker.Tested?
      modifies this
      ensures Now() == Next(old(Now()), Sleep) && Inv(Now())
      ensures worker == Asleep && nextId == old(nextId)
      ensures running == old(running) && queue == old(queue) && responses == old(responses)
    {
      StepKeepsInv(Now(), Sleep);
      worker := Asleep;
    }

    /** The remote call has returned r; the worker is inside its second lock. */
    method StoreResponse(r: Rpc)
      requires Inv(Now()) && worker.Busy?
      modifies this
      ensures Now() == Next(old(Now()), Store(r)) && Inv(Now())
      ensures var req := old(worker).req;
        responses == old(responses)[req.id := Response(req.id, Dispatch(req.payload, r))]
      ensures worker == Waiting && nextId == old(nextId) && running == old(running) && queue == old(queue)
    {
      StepKeepsInv(Now(), Store(r));
      StoreFresh(Now());
      var req := worker.req;
      if req.id !in responses {
        responses := responses[req.id := Response(req.id, Dispatch(req.payload, r))];
      }
      worker := Waiting;
      storeOrder := storeOrder + [req.id];
    }

    /** tryGetResponse, and the end of waitForResponse whether or not the response arrived in time. */
    method TryGetResponse(id: nat) returns (found: bool, resp: Response)
      requires Inv(Now())
      modifies this
      ensures Now() == Next(old(Now()), Take(id)) && Inv(Now())
      ensures found <==> id in old(responses)
      ensures found ==> resp == old(responses)[id] && id !in old(taken) && Answers(requests, id, resp)
      ensures responses == old(responses) - {id} && nextId == old(nextId)
      ensures running == old(running) && queue == old(queue) && worker == old(worker)
    {
      StepKeepsInv(Now(), Take(id));
      if id !in responses {
        assert responses - {id} == responses;
        return false, Response(id, EchoResult(Failure("")));
      }
      resp := responses[id];
      responses := responses - {id};
      taken := taken[id := resp];
      found := true;
    }

    /**
     * Starting a running processor is reported as an error and changes nothing; starting one whose stopped
     * worker has not been joined ends the program.
     */
    method StartThread() returns (r: StartResult)
      requires Inv(Now())
      modifies this
      ensures r == if old(running) then AlreadyRunning else if old(worker).NoThread? then Started else ProgramEnds
      ensures r == Started ==> running && worker == Waiting
      ensures r == AlreadyRunning ==> running && worker == old(worker)
      ensures nextId == old(nextId) && queue == old(queue) && responses == old(responses)
      ensures !r.ProgramEnds? ==> Enabled(old(Now()), Start) && Now() == Next(old(Now()), Start) && Inv(Now())
    {
      if running {
        return AlreadyRunning;
      }
      if !worker.NoThread? {
        return ProgramEnds;
      }
      StepKeepsInv(Now(), Start);
      running := true;
      worker := Waiting;
      return Started;
    }

    /** stop, up to the exchange of the flag; only the call that finds it set goes on to notify and join. */
    method RequestStop() returns (first: bool)
      requires Inv(Now())
      modifies this
      ensures Now() == Next(old(Now()), SignalStop) && Inv(Now())
      ensures (first <==> old(running)) && !running && (first ==> stopNotice)
      ensures nextId == old(nextId) && queue == old(queue) && responses == old(responses) && worker == old(worker)
    {
      StepKeepsInv(Now(), SignalStop);
      first := running;
      stopNotice := stopNotice || running;
      running := false;
    }

    method NotifyStopped()
      requires Inv(Now()) && stopNotice
      modifies this
      ensures Now() == Next(old(Now()), NotifyStop) && Inv(Now())
      ensures worker == (if old(worker) == Asleep then Waiting else old(worker)) && !stopNotice
      ensures nextId == old(nextId) && running == old(running) && queue == old(queue) && responses == old(responses)
    {
      StepKeepsInv(Now(), NotifyStop);
      stopNotice := false;
      missed := worker.Tested?;
      worker := Woken(worker);
    }

    method JoinThread()
      requires Inv(Now()) && worker.Exited? && !stopNotice
      modifies this
      ensures Now() == Next(old(Now()), Join) && Inv(Now())
      ensures worker == NoThread && nextId == old(nextId)
      ensures running == old(running) && queue == old(queue) && responses == old(responses)
    {
      StepKeepsInv(Now(), Join);
      worker := NoThread;
    }
  }
}
