// The life of a producer in KafkaProducer.cpp: one application thread that calls
// initKafka, send, pollEvent and closeKafka, the polling thread that initKafka
// starts, and librdkafka behind both, as interleaved steps.
//
// Each step is one access to shared state.  Of librdkafka the model uses what its
// headers document: every accepted message gets one delivery report, poll() serves
// the reports that wait, and outq_len() counts the messages not yet acknowledged
// and the reports and other events that wait.
module Producer {
  import opened Options

  type Msg = nat

  datatype Status = NotPersisted | PossiblyPersisted | Persisted | OtherStatus

  datatype Report = Report(msg: Msg, status: Status)

  // ProducerCallback::dr_cb: true for success(), false for fail().
  function Succeeds(status: Status): bool {
    match status
    case NotPersisted => false
    case PossiblyPersisted => true
    case Persisted => true
    case OtherStatus => false
  }

  // Where the application thread stands.
  datatype AppPc =
    | Idle
    | PollEvent        // inside producer->poll() of pollEvent
    | CloseTest        // about to test for "nothing to close"
    | DrainTest        // about to test producer != NULL && outq_len() > 0
    | DrainPoll        // inside producer->poll(500)
    | StopTest         // about to test and clear bRun
    | Join
    | DeleteProducer
    | DeleteConf

  // Where the polling thread stands.
  datatype ThreadPc = NotStarted | LoopTest | InPoll | Exited

  datatype State = State(
    app: AppPc,
    thread: ThreadPc,
    appCb: Option<Report>,       // the report whose callback runs in the application thread
    threadCb: Option<Report>,    // the report whose callback runs in the polling thread
    producer: Option<nat>,       // KafkaProducer::producer; None is NULL
    threadProducer: Option<nat>, // EventPoll::producer
    conf: bool,                  // _globalConf != NULL
    bRun: bool,                  // EventPoll::bRun
    live: set<nat>,              // the producer objects that exist
    created: nat,                // how many were ever created
    pool: Pool)                  // what librdkafka and the callback object hold

  datatype Pool = Pool(
    unacked: set<Msg>,           // accepted, not acknowledged
    ready: map<Msg, Status>,     // reports that wait
    events: nat,                 // other callbacks that wait
    accepted: set<Msg>,          // accepted by produce(), ever
    resolved: map<Msg, Status>,  // the status of every acknowledged message
    succeeded: multiset<Msg>,    // calls of success()
    failed: multiset<Msg>)       // calls of fail()

  const Start :=
    State(Idle, NotStarted, None, None, None, None, false, false, {}, 0,
          Pool({}, map[], 0, {}, map[], multiset{}, multiset{}))

  // A report whose callback is running is no longer counted.
  function OutqLen(s: State): nat {
    |s.pool.unacked| + |s.pool.ready| + s.pool.events
  }

  datatype Step =
    // the application thread
    | InitFails
    | InitSucceeds
    | Send(m: Msg)
    | SendRejected
    | EnterPollEvent
    | EnterClose
    | CloseStep
    // either thread inside poll()
    | Take(byApp: bool, m: Msg)
    | FinishCallback(byApp: bool)
    | ServeEvent(byApp: bool)
    | PollReturns(byApp: bool)
    // the polling thread between polls
    | ThreadTest
    // brokers and timers
    | Resolve(m: Msg, status: Status)
    | RaiseEvent

  predicate InsidePoll(s: State, byApp: bool) {
    if byApp then s.app.PollEvent? || s.app.DrainPoll? else s.thread.InPoll?
  }

  function Slot(s: State, byApp: bool): Option<Report> {
    if byApp then s.appCb else s.threadCb
  }

  function WithSlot(s: State, byApp: bool, cb: Option<Report>): State {
    if byApp then s.(appCb := cb) else s.(threadCb := cb)
  }

  // What the code lets happen.  initKafka is called with no producer open, send with
  // one open, since it uses the pointer without a test.
  predicate Enabled(s: State, step: Step) {
    match step
    case InitFails => s.app.Idle? && s.producer.None?
    case InitSucceeds => s.app.Idle? && s.producer.None?
    case Send(m) => s.app.Idle? && s.producer.Some? && m !in s.pool.accepted
    case SendRejected => s.app.Idle? && s.producer.Some?
    case EnterPollEvent => s.app.Idle? && s.producer.Some?
    case EnterClose => s.app.Idle?
    case CloseStep =>
      s.app in {CloseTest, DrainTest, StopTest, DeleteProducer, DeleteConf}
      || (s.app.Join? && (s.thread.Exited? || s.thread.NotStarted?))
    case Take(byApp, m) => InsidePoll(s, byApp) && Slot(s, byApp).None? && m in s.pool.ready
    case FinishCallback(byApp) => InsidePoll(s, byApp) && Slot(s, byApp).Some?
    case ServeEvent(byApp) => InsidePoll(s, byApp) && Slot(s, byApp).None? && s.pool.events > 0
    case PollReturns(byApp) => InsidePoll(s, byApp) && Slot(s, byApp).None?
    case ThreadTest => s.thread.LoopTest?
    case Resolve(m, _) => m in s.pool.unacked
    case RaiseEvent => s.producer.Some?
  }

  // The end of a callback: dr_cb has called success() or fail().
  function Reported(p: Pool, r: Report): Pool {
    if Succeeds(r.status) then p.(succeeded := p.succeeded + multiset{r.msg})
    else p.(failed := p.failed + multiset{r.msg})
  }

  function Close(s: State): State {
    match s.app
    case CloseTest => s.(app := if s.producer.None? && !s.conf then Idle else DrainTest)
    case DrainTest => s.(app := if s.producer.Some? && OutqLen(s) > 0 then DrainPoll else StopTest)
    case StopTest => if s.bRun then s.(bRun := false, app := Join) else s.(app := DeleteProducer)
    case Join => s.(app := DeleteProducer)
    case DeleteProducer =>
      if s.producer.Some?
      then s.(live := s.live - {s.producer.value}, producer := None, pool := s.pool.(events := 0), app := DeleteConf)
      else s.(app := DeleteConf)
    case DeleteConf => s.(conf := false, app := Idle)
    case _ => s
  }

  function Apply(s: State, step: Step): State
    requires Enabled(s, step)
  {
    match step
    case InitFails => s.(conf := true)
    // One step, since nothing else runs before pthread_create.
    case InitSucceeds =>
      s.(conf := true, producer := Some(s.created), live := s.live + {s.created}, created := s.created + 1,
         bRun := true, threadProducer := Some(s.created), thread := LoopTest)
    case Send(m) => s.(pool := s.pool.(unacked := s.pool.unacked + {m}, accepted := s.pool.accepted + {m}))
    case SendRejected => s
    case EnterPollEvent => s.(app := PollEvent)
    case EnterClose => s.(app := CloseTest)
    case CloseStep => Close(s)
    case Take(byApp, m) =>
      WithSlot(s.(pool := s.pool.(ready := s.pool.ready - {m})), byApp, Some(Report(m, s.pool.ready[m])))
    case FinishCallback(byApp) =>
      WithSlot(s.(pool := Reported(s.pool, Slot(s, byApp).value)), byApp, None)
    case ServeEvent(_) => s.(pool := s.pool.(events := s.pool.events - 1))
    case PollReturns(byApp) =>
      if !byApp then s.(thread := LoopTest)
      else if s.app.PollEvent? then s.(app := Idle)
      else s.(app := DrainTest)
    case ThreadTest => s.(thread := if s.bRun then InPoll else Exited)
    case Resolve(m, status) =>
      s.(pool := s.pool.(unacked := s.pool.unacked - {m}, ready := s.pool.ready[m := status],
                         resolved := s.pool.resolved[m := status]))
    case RaiseEvent => s.(pool := s.pool.(events := s.pool.events + 1))
  }

  ghost predicate Run(s: State, steps: seq<Step>, t: State)
    decreases steps
  {
    if steps == [] then s == t
    else Enabled(s, steps[0]) && Run(Apply(s, steps[0]), steps[1..], t)
  }

  ghost predicate Reachable(s: State) {
    exists steps :: Run(Start, steps, s)
  }

  // ----- the invariant -----

  // Pointers are null or lead to the one producer that exists.
  ghost predicate Pointers(s: State) {
    && (s.producer.Some? ==> s.live == {s.producer.value} && s.producer.value < s.created && s.conf)
    && (s.producer.None? ==> s.live == {})
    && (s.thread.LoopTest? || s.thread.InPoll? ==> s.producer.Some? && s.threadProducer == s.producer)
  }

  // The polling thread runs only while bRun is set, or while closeKafka waits for it.
  ghost predicate Control(s: State) {
    && (s.bRun ==> s.producer.Some?)
    && (s.producer.Some? ==> !s.thread.NotStarted?)
    && (s.producer.Some? && s.app !in {Join, DeleteProducer} ==> s.bRun)
    && (s.app.Join? ==> !s.bRun)
    && (s.app.DeleteProducer? ==> !s.bRun && (s.thread.Exited? || s.thread.NotStarted?))
    && (s.app.DeleteConf? ==> s.producer.None?)
    && (s.app.PollEvent? || s.app.DrainPoll? ==> s.producer.Some?)
    && (s.appCb.Some? ==> InsidePoll(s, true))
    && (s.threadCb.Some? ==> InsidePoll(s, false))
  }

  // Past the drain loop, and after the deletion, no message waits.
  ghost predicate Drained(s: State) {
    s.producer.None? || s.app in {StopTest, Join, DeleteProducer} ==> s.pool.unacked == {} && s.pool.ready == map[]
  }

  function Count(b: bool): nat {
    if b then 1 else 0
  }

  // How often a message is to be found: with the brokers, waiting as a report, in a
  // callback of either thread, or reported.
  function Places(s: State, m: Msg): nat {
    Count(m in s.pool.unacked) + Count(m in s.pool.ready) + Count(Running(s, true, m)) + Count(Running(s, false, m))
    + s.pool.succeeded[m] + s.pool.failed[m]
  }

  predicate Running(s: State, byApp: bool, m: Msg) {
    Slot(s, byApp).Some? && Slot(s, byApp).value.msg == m
  }

  // Every accepted message is in exactly one place, and no other is anywhere.
  ghost predicate Conserved(s: State) {
    forall m :: Places(s, m) == Count(m in s.pool.accepted)
  }

  // Reports carry the status of their message, and callbacks heed it.
  ghost predicate Faithful(s: State) {
    && (forall m :: m in s.pool.ready ==> Resolved(s, m, s.pool.ready[m]))
    && InCallbackFaithful(s, s.appCb) && InCallbackFaithful(s, s.threadCb)
    && (forall m :: m in s.pool.succeeded ==> m in s.pool.resolved && Succeeds(s.pool.resolved[m]))
    && (forall m :: m in s.pool.failed ==> m in s.pool.resolved && !Succeeds(s.pool.resolved[m]))
  }

  ghost predicate InCallbackFaithful(s: State, cb: Option<Report>) {
    cb.Some? ==> Resolved(s, cb.value.msg, cb.value.status)
  }

  ghost predicate Resolved(s: State, m: Msg, status: Status) {
    m in s.pool.resolved && s.pool.resolved[m] == status
  }

  ghost predicate Inv(s: State) {
    Pointers(s) && Control(s) && Drained(s) && Conserved(s) && Faithful(s)
  }

  lemma PointersStep(s: State, step: Step)
    requires Pointers(s) && Control(s) && Enabled(s, step)
    ensures Pointers(Apply(s, step))
  {
  }

  lemma ControlStep(s: State, step: Step)
    requires Pointers(s) && Control(s) && Enabled(s, step)
    ensures Control(Apply(s, step))
  {
  }

  lemma DrainedStep(s: State, step: Step)
    requires Control(s) && Drained(s) && Enabled(s, step)
    ensures Drained(Apply(s, step))
  {
    if s.app.DrainTest? && OutqLen(s) == 0 {
      assert s.pool.unacked == {} && s.pool.ready == map[];
    }
  }

  // A step moves a message from one place to another, or adds it by sending it.
  lemma PlacesStep(s: State, step: Step, m: Msg)
    requires Pointers(s) && Enabled(s, step)
    requires step.Send? ==> step.m !in s.pool.unacked
    requires step.Resolve? ==> step.m !in s.pool.ready
    ensures Places(Apply(s, step), m) == Places(s, m) + Count(step == Send(m))
  {
    match step {
      case Take(byApp, x) => TakePlaces(s, byApp, x, m);
      case FinishCallback(byApp) => FinishPlaces(s, byApp, m);
      case _ => OtherPlaces(s, step, m);
    }
  }

  lemma TakePlaces(s: State, byApp: bool, x: Msg, m: Msg)
    requires Enabled(s, Take(byApp, x))
    ensures Places(Apply(s, Take(byApp, x)), m) == Places(s, m)
  {
  }

  lemma FinishPlaces(s: State, byApp: bool, m: Msg)
    requires Enabled(s, FinishCallback(byApp))
    ensures Places(Apply(s, FinishCallback(byApp)), m) == Places(s, m)
  {
    var r, t := Slot(s, byApp).value, Apply(s, FinishCallback(byApp));
    assert t.pool.succeeded[m] + t.pool.failed[m] == s.pool.succeeded[m] + s.pool.failed[m] + Count(r.msg == m);
  }

  lemma OtherPlaces(s: State, step: Step, m: Msg)
    requires Pointers(s) && Enabled(s, step) && !step.Take? && !step.FinishCallback?
    requires step.Send? ==> step.m !in s.pool.unacked
    requires step.Resolve? ==> step.m !in s.pool.ready
    ensures Places(Apply(s, step), m) == Places(s, m) + Count(step == Send(m))
  {
  }

  lemma ConservedAt(s: State, step: Step, m: Msg)
    requires Pointers(s) && Enabled(s, step) && Places(s, m) == Count(m in s.pool.accepted)
    requires step.Send? || step.Resolve? ==> Places(s, step.m) == Count(step.m in s.pool.accepted)
    ensures Places(Apply(s, step), m) == Count(m in Apply(s, step).pool.accepted)
  {
    PlacesStep(s, step, m);
    AcceptedStep(s, step);
    hide Pointers, Places, Apply;
  }

  lemma AcceptedStep(s: State, step: Step)
    requires Enabled(s, step)
    ensures Apply(s, step).pool.accepted == s.pool.accepted + if step.Send? then {step.m} else {}
  {
  }

  lemma ConservedStep(s: State, step: Step)
    requires Pointers(s) && Conserved(s) && Enabled(s, step)
    ensures Conserved(Apply(s, step))
  {
    hide Pointers, Places, Enabled, Apply;
    forall m
      ensures Places(Apply(s, step), m) == Count(m in Apply(s, step).pool.accepted)
    {
      ConservedAt(s, step, m);
    }
  }

  lemma FaithfulStep(s: State, step: Step)
    requires Conserved(s) && Faithful(s) && Enabled(s, step)
    ensures Faithful(Apply(s, step))
  {
    match step {
      case Resolve(m, status) =>
        assert Places(s, m) == Count(m in s.pool.accepted);
        ResolveFaithful(s, m, status);
      case FinishCallback(byApp) => FinishFaithful(s, byApp);
      case Take(byApp, m) => TakeFaithful(s, byApp, m);
      case _ => OtherFaithful(s, step);
    }
  }

  lemma ResolveFaithful(s: State, m: Msg, status: Status)
    requires Faithful(s) && Enabled(s, Resolve(m, status)) && Places(s, m) <= 1
    ensures Faithful(Apply(s, Resolve(m, status)))
  {
    assert !Running(s, true, m) && !Running(s, false, m) && m !in s.pool.succeeded && m !in s.pool.failed;
  }

  lemma FinishFaithful(s: State, byApp: bool)
    requires Faithful(s) && Enabled(s, FinishCallback(byApp))
    ensures Faithful(Apply(s, FinishCallback(byApp)))
  {
    assert InCallbackFaithful(s, Slot(s, byApp));
  }

  lemma TakeFaithful(s: State, byApp: bool, m: Msg)
    requires Faithful(s) && Enabled(s, Take(byApp, m))
    ensures Faithful(Apply(s, Take(byApp, m)))
  {
    assert Resolved(s, m, s.pool.ready[m]);
  }

  lemma OtherFaithful(s: State, step: Step)
    requires Faithful(s) && Enabled(s, step) && !step.Resolve? && !step.FinishCallback? && !step.Take?
    ensures Faithful(Apply(s, step))
  {
    hide Apply, Enabled;
    ReportsUntouched(s, step);
    CallbacksUntouched(s, step);
  }

  lemma ReportsUntouched(s: State, step: Step)
    requires Enabled(s, step) && !step.Resolve? && !step.FinishCallback? && !step.Take?
    ensures var p, q := s.pool, Apply(s, step).pool;
            && q.ready == p.ready && q.resolved == p.resolved && q.succeeded == p.succeeded && q.failed == p.failed
  {
  }

  lemma CallbacksUntouched(s: State, step: Step)
    requires Enabled(s, step) && !step.FinishCallback? && !step.Take?
    ensures Apply(s, step).appCb == s.appCb && Apply(s, step).threadCb == s.threadCb
  {
  }

  lemma InvStep(s: State, step: Step)
    requires Inv(s) && Enabled(s, step)
    ensures Inv(Apply(s, step))
  {
    hide Pointers, Control, Drained, Conserved, Faithful, Apply, Enabled;
    PointersStep(s, step);
    ControlStep(s, step);
    DrainedStep(s, step);
    ConservedStep(s, step);
    FaithfulStep(s, step);
  }

  lemma {:induction false} InvRun(s: State, steps: seq<Step>, t: State)
    requires Inv(s) && Run(s, steps, t)
    ensures Inv(t)
    decreases steps
  {
    hide Inv, Apply, Enabled;
    if steps != [] {
      InvStep(s, steps[0]);
      InvRun(Apply(s, steps[0]), steps[1..], t);
    }
  }

  lemma ReachableInv(s: State)
    requires Reachable(s)
    ensures Inv(s)
  {
    var steps :| Run(Start, steps, s);
    InvRun(Start, steps, s);
  }

  // ----- safety -----

  predicate InsidePollStep(step: Step, byApp: bool) {
    (step.Take? || step.FinishCallback? || step.ServeEvent? || step.PollReturns?) && step.byApp == byApp
  }

  // No step of any interleaving uses a null pointer or a deleted producer: in the
  // application thread not produce(), the call of poll(), outq_len(), the deletion, nor
  // what runs inside poll(); in the polling thread not the call of poll() nor what runs
  // inside it.  Steps inside poll() use the object that poll() was called on.
  lemma NoUseAfterDelete(s: State, step: Step)
    requires Reachable(s) && Enabled(s, step)
    ensures step.Send? || step.SendRejected? || step.EnterPollEvent? || InsidePollStep(step, true)
            ==> s.producer.Some? && s.producer.value in s.live
    ensures step.CloseStep? && (s.app.DrainTest? || s.app.DeleteProducer?) && s.producer.Some?
            ==> s.producer.value in s.live
    ensures (step.ThreadTest? && s.bRun) || InsidePollStep(step, false)
            ==> s.threadProducer.Some? && s.threadProducer.value in s.live
  {
    ReachableInv(s);
  }

  // The producer is deleted only after the polling thread has exited.
  lemma DeletedAfterExit(s: State, step: Step)
    requires Reachable(s) && Enabled(s, step) && s.live != {} && Apply(s, step).live == {}
    ensures s.thread.Exited? && s.threadCb.None? && s.appCb.None?
  {
    ReachableInv(s);
  }

  // At any time a message has been reported at most once, to the side that its status
  // calls for, and only if it was accepted.
  lemma ReportedAtMostOnce(s: State, m: Msg)
    requires Reachable(s)
    ensures s.pool.succeeded[m] + s.pool.failed[m] <= Count(m in s.pool.accepted)
    ensures s.pool.succeeded[m] > 0 ==> m in s.pool.resolved && Succeeds(s.pool.resolved[m])
    ensures s.pool.failed[m] > 0 ==> m in s.pool.resolved && !Succeeds(s.pool.resolved[m])
  {
    ReachableInv(s);
    assert Places(s, m) == Count(m in s.pool.accepted);
  }

  // When closeKafka is about to delete the producer, and from then on until the next
  // initKafka, every message that send ever accepted has been reported exactly once.
  lemma AllReportedAtClose(s: State, m: Msg)
    requires Reachable(s) && (s.app.DeleteProducer? || s.producer.None?)
    ensures s.pool.succeeded[m] + s.pool.failed[m] == Count(m in s.pool.accepted)
  {
    ReachableInv(s);
    assert Places(s, m) == Count(m in s.pool.accepted);
  }

  // And then success() was called for exactly the messages that the brokers persisted, or
  // may have, and fail() for exactly the others.
  lemma OutcomeAtClose(s: State, m: Msg)
    requires Reachable(s) && (s.app.DeleteProducer? || s.producer.None?)
    requires m in s.pool.accepted
    ensures m in s.pool.resolved
    ensures s.pool.succeeded[m] == 1 <==> s.pool.resolved[m] in {PossiblyPersisted, Persisted}
    ensures s.pool.failed[m] == 1 <==> s.pool.resolved[m] in {NotPersisted, OtherStatus}
    ensures s.pool.succeeded[m] == 0 || s.pool.failed[m] == 0
  {
    ReachableInv(s);
    AllReportedAtClose(s, m);
    assert m in s.pool.succeeded || m in s.pool.failed;
  }

  // ----- the drain loop -----

  function Work(s: State): nat {
    2 * |s.pool.unacked| + |s.pool.ready|
  }

  // How many messages were acknowledged, and how many reports were served.
  function Progress(steps: seq<Step>): nat {
    if steps == [] then 0 else Count(steps[0].Resolve? || steps[0].Take?) + Progress(steps[1..])
  }

  lemma {:induction false} WorkFrom(s: State, steps: seq<Step>, t: State)
    requires Inv(s) && Run(s, steps, t) && forall m :: Send(m) !in steps
    ensures Work(s) == Work(t) + Progress(steps)
    decreases steps
  {
    hide Pointers, Control, Drained, Faithful, Apply, Enabled;
    if steps != [] {
      InvStep(s, steps[0]);
      WorkStep(s, steps[0]);
      WorkFrom(Apply(s, steps[0]), steps[1..], t);
    }
  }

  lemma WorkStep(s: State, step: Step)
    requires Conserved(s) && Enabled(s, step) && !step.Send?
    ensures var p, q := s.pool, Apply(s, step).pool;
            2 * |p.unacked| + |p.ready| == 2 * |q.unacked| + |q.ready| + if step.Resolve? || step.Take? then 1 else 0
  {
    hide Conserved;
    match step {
      case Resolve(m, status) => ResolveSizes(s, m, status);
      case Take(byApp, m) => TakeSizes(s, byApp, m);
      case _ =>
    }
  }

  // Without new sends the work shrinks by one with every acknowledgement and every
  // report served, and does not change otherwise.
  lemma WorkIsDone(s: State, steps: seq<Step>, t: State)
    requires Reachable(s) && Run(s, steps, t) && forall m :: Send(m) !in steps
    ensures Work(s) == Work(t) + Progress(steps)
  {
    ReachableInv(s);
    WorkFrom(s, steps, t);
  }

  lemma ResolveSizes(s: State, m: Msg, status: Status)
    requires Conserved(s) && m in s.pool.unacked
    ensures var p := Apply(s, Resolve(m, status)).pool;
            |p.unacked| == |s.pool.unacked| - 1 && |p.ready| == |s.pool.ready| + 1 && p.events == s.pool.events
  {
    var p := Apply(s, Resolve(m, status)).pool;
    assert Places(s, m) == Count(m in s.pool.accepted);
    assert p.ready.Keys == s.pool.ready.Keys + {m};
  }

  lemma TakeSizes(s: State, byApp: bool, m: Msg)
    requires Enabled(s, Take(byApp, m))
    ensures var p := Apply(s, Take(byApp, m)).pool;
            p.unacked == s.pool.unacked && |p.ready| == |s.pool.ready| - 1 && p.events == s.pool.events
  {
    var p := Apply(s, Take(byApp, m)).pool;
    assert p.ready.Keys == s.pool.ready.Keys - {m};
  }

  // The loop ends at the first test that finds nothing unacknowledged and no report or event
  // waiting, or no producer.
  lemma DrainEndsIff(s: State)
    requires s.app.DrainTest?
    ensures Enabled(s, CloseStep)
    ensures Apply(s, CloseStep).app
            == if s.producer.None? || (s.pool.unacked == {} && s.pool.ready == map[] && s.pool.events == 0)
               then StopTest else DrainPoll
  {
    assert |s.pool.unacked| == 0 <==> s.pool.unacked == {};
    assert |s.pool.ready| == 0 <==> s.pool.ready == map[];
  }

  // ----- closing can always be completed -----

  predicate Closing(s: State) {
    !s.app.Idle? && !s.app.PollEvent?
  }

  function Phase(app: AppPc): nat {
    match app
    case CloseTest => 5
    case DrainTest => 4
    case DrainPoll => 4
    case StopTest => 3
    case Join => 2
    case DeleteProducer => 1
    case _ => 0
  }

  // What is left to do for whoever serves the queues.
  function Load(s: State): nat {
    3 * |s.pool.unacked| + 2 * |s.pool.ready| + s.pool.events + Count(s.appCb.Some?)
  }

  function ThreadRank(s: State): nat {
    match s.thread
    case InPoll => if s.threadCb.Some? then 3 else 2
    case LoopTest => 1
    case _ => 0
  }

  // With work left it is better to be inside poll(), otherwise outside.
  function Turn(s: State): nat {
    Count(if Load(s) > 0 then s.app.DrainTest? else s.app.DrainPoll?)
  }

  ghost predicate Closer(s: State, t: State) {
    (Phase(s.app), Load(s), Turn(s), ThreadRank(s) decreases to Phase(t.app), Load(t), Turn(t), ThreadRank(t))
  }

  // A next step towards the end of closeKafka: the brokers acknowledge, poll() serves
  // what waits, the polling thread leaves its poll.
  ghost function NextStep(s: State): (step: Step)
  {
    if s.app.DrainPoll? then
      if s.appCb.Some? then FinishCallback(true)
      else if s.pool.unacked != {} then var m :| m in s.pool.unacked; Resolve(m, Persisted)
      else if s.pool.ready != map[] then var m :| m in s.pool.ready; Take(true, m)
      else if s.pool.events > 0 then ServeEvent(true)
      else PollReturns(true)
    else if s.app.Join? then
      if s.thread.LoopTest? then ThreadTest
      else if s.thread.InPoll? then if s.threadCb.Some? then FinishCallback(false) else PollReturns(false)
      else CloseStep
    else CloseStep
  }

  // Both have the same messages, acknowledged with the same statuses.
  ghost predicate SameFates(s: State, t: State) {
    t.pool.unacked == s.pool.unacked && t.pool.resolved == s.pool.resolved && t.pool.accepted == s.pool.accepted
  }

  lemma FatesStay(s: State)
    requires Enabled(s, NextStep(s)) && s.pool.unacked == {}
    ensures SameFates(s, Apply(s, NextStep(s)))
  {
  }

  lemma NextStepCloser(s: State)
    requires Pointers(s) && Control(s) && Conserved(s) && Closing(s)
    ensures var step := NextStep(s);
            && Enabled(s, step) && !step.Send?
            && var t := Apply(s, step);
               || (t.app.Idle? && t.producer.None? && !t.conf)
               || (Closing(t) && Closer(s, t))
  {
    if s.app.DrainPoll? {
      DrainCloser(s);
    }
  }

  lemma DrainCloser(s: State)
    requires Control(s) && Conserved(s) && s.app.DrainPoll?
    ensures Enabled(s, NextStep(s)) && !NextStep(s).Send?
    ensures Apply(s, NextStep(s)).app in {DrainPoll, DrainTest} && Closer(s, Apply(s, NextStep(s)))
  {
    var step := NextStep(s);
    if !step.PollReturns? {
      LoadFalls(s, step);
    }
    hide Control, Conserved;
  }

  lemma LoadFalls(s: State, step: Step)
    requires Conserved(s) && Enabled(s, step)
    requires step.Resolve? || ((step.Take? || step.FinishCallback? || step.ServeEvent?) && step.byApp)
    ensures Load(Apply(s, step)) == Load(s) - 1
  {
    hide Conserved;
    match step {
      case Resolve(m, status) => ResolveSizes(s, m, status);
      case Take(_, m) => TakeSizes(s, true, m);
      case _ =>
    }
  }

  lemma {:induction false} CompleteFrom(s: State) returns (steps: seq<Step>, t: State)
    requires Inv(s) && Closing(s)
    ensures Run(s, steps, t) && t.app.Idle? && t.producer.None? && !t.conf && (forall m :: Send(m) !in steps)
    ensures s.pool.unacked == {} ==> SameFates(s, t)
    decreases Phase(s.app), Load(s), Turn(s), ThreadRank(s)
  {
    hide Pointers, Control, Drained, Conserved, Faithful, Apply, Enabled, NextStep, Phase, Load, Turn, ThreadRank;
    var step := NextStep(s);
    NextStepCloser(s);
    if s.pool.unacked == {} {
      FatesStay(s);
    }
    var u := Apply(s, step);
    InvStep(s, step);
    if u.app.Idle? && u.producer.None? && !u.conf {
      steps, t := [], u;
    } else {
      steps, t := CompleteFrom(u);
    }
    assert ([step] + steps)[1..] == steps;
    steps := [step] + steps;
  }

  // From every reachable state inside closeKafka there is a way to its end, with the
  // producer deleted: the two threads cannot block each other.
  lemma CloseCanComplete(s: State) returns (steps: seq<Step>, t: State)
    requires Reachable(s) && Closing(s)
    ensures Run(s, steps, t) && t.app.Idle? && t.producer.None? && !t.conf && (forall m :: Send(m) !in steps)
  {
    ReachableInv(s);
    steps, t := CompleteFrom(s);
  }

  // ----- only the brokers can keep closeKafka open -----

  // All that is left to serve, in the callbacks of both threads as well.
  function Outstanding(s: State): nat {
    Load(s) + Count(s.threadCb.Some?)
  }

  predicate Serves(step: Step) {
    step.Resolve? || step.Take? || step.FinishCallback? || step.ServeEvent?
  }

  function Served(steps: seq<Step>): nat {
    if steps == [] then 0 else Count(Serves(steps[0])) + Served(steps[1..])
  }

  lemma OutstandingStep(s: State, step: Step)
    requires Conserved(s) && Enabled(s, step) && !step.Send? && !step.RaiseEvent?
    ensures Outstanding(Apply(s, step)) + Count(Serves(step)) <= Outstanding(s)
  {
    hide Conserved;
    match step {
      case Resolve(m, status) => ResolveSizes(s, m, status);
      case Take(byApp, m) => TakeSizes(s, byApp, m);
      case FinishCallback(byApp) =>
      case ServeEvent(byApp) =>
      case _ =>
        NothingServed(s, step);
        CallbacksUntouched(s, step);
    }
  }

  lemma NothingServed(s: State, step: Step)
    requires Enabled(s, step) && !Serves(step) && !step.Send? && !step.RaiseEvent?
    ensures var p, q := s.pool, Apply(s, step).pool;
            q.unacked == p.unacked && q.ready == p.ready && q.events <= p.events
  {
  }

  lemma {:induction false} ServedFrom(s: State, steps: seq<Step>, t: State)
    requires Inv(s) && Run(s, steps, t) && forall step :: step in steps ==> !step.Send? && !step.RaiseEvent?
    ensures Served(steps) + Outstanding(t) <= Outstanding(s)
    decreases steps
  {
    hide Pointers, Control, Drained, Faithful, Conserved, Apply, Enabled, Outstanding, Serves;
    if steps != [] {
      InvStep(s, steps[0]);
      OutstandingStep(s, steps[0]);
      ServedFrom(Apply(s, steps[0]), steps[1..], t);
    }
  }

  // Without new messages and events, acknowledgements, served reports and events, and
  // ended callbacks number at most what is outstanding, in any run of both threads.
  lemma ServedAtMost(s: State, steps: seq<Step>, t: State)
    requires Reachable(s) && Run(s, steps, t)
    requires forall step :: step in steps ==> !step.Send? && !step.RaiseEvent?
    ensures Served(steps) + Outstanding(t) <= Outstanding(s)
  {
    ReachableInv(s);
    ServedFrom(s, steps, t);
  }

  predicate ByApp(step: Step) {
    step.CloseStep? || InsidePollStep(step, true)
  }

  predicate ByThread(step: Step) {
    step.ThreadTest? || InsidePollStep(step, false)
  }

  // What can happen while the application thread is in closeKafka, but for new events.
  predicate DuringClose(step: Step) {
    ByApp(step) || ByThread(step) || step.Resolve?
  }

  function AppMoves(steps: seq<Step>): nat {
    if steps == [] then 0 else Count(ByApp(steps[0])) + AppMoves(steps[1..])
  }

  function ThreadMoves(steps: seq<Step>): nat {
    if steps == [] then 0 else Count(ByThread(steps[0])) + ThreadMoves(steps[1..])
  }

  predicate Closed(s: State) {
    s.app.Idle? && s.producer.None?
  }

  // The steps of closeKafka that are left when nothing is outstanding.
  function StepsLeft(app: AppPc): nat {
    match app
    case CloseTest => 6
    case DrainPoll => 6
    case DrainTest => 5
    case StopTest => 4
    case Join => 3
    case DeleteProducer => 2
    case DeleteConf => 1
    case _ => 0
  }

  lemma AppMovesOn(s: State, step: Step)
    requires Pointers(s) && Control(s) && Enabled(s, step) && DuringClose(step)
    requires (Closing(s) || Closed(s)) && Outstanding(s) == 0
    ensures var t := Apply(s, step);
            && (Closing(t) || Closed(t))
            && Count(ByApp(step)) + StepsLeft(t.app) <= StepsLeft(s.app)
  {
  }

  lemma {:induction false} AppMovesFrom(s: State, steps: seq<Step>, t: State)
    requires Inv(s) && (Closing(s) || Closed(s)) && Outstanding(s) == 0
    requires Run(s, steps, t) && forall step :: step in steps ==> DuringClose(step)
    ensures Inv(t) && (Closing(t) || Closed(t)) && Outstanding(t) == 0
    ensures AppMoves(steps) + StepsLeft(t.app) <= StepsLeft(s.app)
    decreases steps
  {
    hide Pointers, Control, Drained, Faithful, Conserved, Apply, Enabled, Outstanding, Closing, Closed, StepsLeft,
         ByApp;
    if steps != [] {
      InvStep(s, steps[0]);
      AppMovesOn(s, steps[0]);
      NoNewWork(steps[0]);
      OutstandingStep(s, steps[0]);
      AppMovesFrom(Apply(s, steps[0]), steps[1..], t);
    }
  }

  lemma NoNewWork(step: Step)
    requires DuringClose(step)
    ensures !step.Send? && !step.RaiseEvent?
  {
  }

  // Some thread can go on: the application thread, or, while that waits in pthread_join,
  // the polling thread.
  lemma CanGoOn(s: State) returns (step: Step)
    requires Control(s) && Closing(s) && Outstanding(s) == 0
    ensures Enabled(s, step) && (ByApp(step) || (s.app.Join? && !s.bRun && ByThread(step)))
  {
    step := if s.app.DrainPoll? then PollReturns(true)
            else if s.app.Join? && s.thread.InPoll? then PollReturns(false)
            else if s.app.Join? && s.thread.LoopTest? then ThreadTest
            else CloseStep;
  }

  // Once nothing is outstanding, the application thread takes at most six more steps in any
  // run of both threads, and until closeKafka is at its end some thread can go on.
  lemma CloseCannotLinger(s: State, steps: seq<Step>, t: State) returns (next: Option<Step>)
    requires Reachable(s) && Closing(s) && Outstanding(s) == 0
    requires Run(s, steps, t) && forall step :: step in steps ==> DuringClose(step)
    ensures AppMoves(steps) <= 6
    ensures next.None? ==> Closed(t)
    ensures next.Some? ==> Enabled(t, next.value)
                           && (ByApp(next.value) || (t.app.Join? && !t.bRun && ByThread(next.value)))
  {
    ReachableInv(s);
    AppMovesFrom(s, steps, t);
    if Closing(t) {
      var step := CanGoOn(t);
      next := Some(step);
    } else {
      next := None;
    }
  }

  function LoopRank(thread: ThreadPc): nat {
    match thread
    case InPoll => 2
    case LoopTest => 1
    case _ => 0
  }

  lemma ThreadMovesOn(s: State, step: Step)
    requires Conserved(s) && Enabled(s, step) && DuringClose(step) && !s.bRun
    ensures var t := Apply(s, step);
            && !t.bRun
            && Count(ByThread(step)) + Outstanding(t) + LoopRank(t.thread) <= Outstanding(s) + LoopRank(s.thread)
  {
    OutstandingStep(s, step);
    StaysStopped(s, step);
    hide Conserved, Outstanding, Apply;
  }

  lemma StaysStopped(s: State, step: Step)
    requires Enabled(s, step) && DuringClose(step) && !s.bRun
    ensures !Apply(s, step).bRun
    ensures Count(ByThread(step) && !Serves(step)) + LoopRank(Apply(s, step).thread) <= LoopRank(s.thread)
  {
  }

  lemma {:induction false} ThreadMovesFrom(s: State, steps: seq<Step>, t: State)
    requires Inv(s) && !s.bRun && Run(s, steps, t) && forall step :: step in steps ==> DuringClose(step)
    ensures ThreadMoves(steps) + Outstanding(t) + LoopRank(t.thread) <= Outstanding(s) + LoopRank(s.thread)
    decreases steps
  {
    hide Pointers, Control, Drained, Faithful, Conserved, Apply, Enabled, Outstanding, ByThread, LoopRank;
    if steps != [] {
      InvStep(s, steps[0]);
      ThreadMovesOn(s, steps[0]);
      ThreadMovesFrom(Apply(s, steps[0]), steps[1..], t);
    }
  }

  // Once bRun is cleared, the polling thread takes at most two steps more than there is
  // left to serve, so that pthread_join returns.
  lemma ThreadStops(s: State, steps: seq<Step>, t: State)
    requires Reachable(s) && !s.bRun
    requires Run(s, steps, t) && forall step :: step in steps ==> DuringClose(step)
    ensures ThreadMoves(steps) <= Outstanding(s) + 2
  {
    ReachableInv(s);
    ThreadMovesFrom(s, steps, t);
  }

  // ----- every outcome is possible -----

  lemma {:induction false} RunAppend(s: State, a: seq<Step>, u: State, b: seq<Step>, t: State)
    requires Run(s, a, u) && Run(u, b, t)
    ensures Run(s, a + b, t)
    decreases a
  {
    if a == [] {
      assert a + b == b;
    } else {
      assert (a + b)[1..] == a[1..] + b;
      RunAppend(Apply(s, a[0]), a[1..], u, b, t);
    }
  }

  // Open, with the polling thread in poll() and all messages acknowledged.
  ghost predicate Serving(s: State) {
    && Inv(s) && s.app.Idle? && s.producer.Some? && s.thread.InPoll? && s.threadCb.None?
    && s.pool.unacked == {}
  }

  function Life(m: Msg, status: Status, byThread: bool): (steps: seq<Step>)
  {
    [Send(m), Resolve(m, status)] + if byThread then [Take(false, m), FinishCallback(false)] else []
  }

  lemma OneLife(s: State, m: Msg, status: Status, byThread: bool) returns (t: State)
    requires Serving(s) && m !in s.pool.accepted
    ensures Run(s, Life(m, status, byThread), t) && Serving(t)
    ensures t.pool.accepted == s.pool.accepted + {m} && t.pool.resolved == s.pool.resolved[m := status]
  {
    hide Pointers, Control, Drained, Conserved, Faithful, Enabled, Apply;
    var u := SendAndResolve(s, m, status);
    t := u;
    assert Life(m, status, false) == [Send(m), Resolve(m, status)];
    if byThread {
      t := TakeAndFinish(u, m);
      RunAppend(s, [Send(m), Resolve(m, status)], u, [Take(false, m), FinishCallback(false)], t);
    }
  }

  lemma TwoSteps(s: State, a: Step, b: Step)
    requires Enabled(s, a) && Enabled(Apply(s, a), b)
    ensures Run(s, [a, b], Apply(Apply(s, a), b))
  {
    hide Enabled, Apply;
    var u := Apply(s, a);
    assert [a, b][1..] == [b] && [b][1..] == [];
    assert Run(u, [b], Apply(u, b));
  }

  lemma SendAndResolve(s: State, m: Msg, status: Status) returns (t: State)
    requires Serving(s) && m !in s.pool.accepted
    ensures Run(s, [Send(m), Resolve(m, status)], t) && Serving(t) && m in t.pool.ready
    ensures t.pool.accepted == s.pool.accepted + {m} && t.pool.resolved == s.pool.resolved[m := status]
  {
    hide Pointers, Control, Drained, Conserved, Faithful;
    InvStep(s, Send(m));
    var u := Apply(s, Send(m));
    InvStep(u, Resolve(m, status));
    TwoSteps(s, Send(m), Resolve(m, status));
    t := Apply(u, Resolve(m, status));
  }

  lemma TakeAndFinish(s: State, m: Msg) returns (t: State)
    requires Serving(s) && m in s.pool.ready
    ensures Run(s, [Take(false, m), FinishCallback(false)], t) && Serving(t) && SameFates(s, t)
  {
    hide Pointers, Control, Drained, Conserved, Faithful;
    InvStep(s, Take(false, m));
    var u := Apply(s, Take(false, m));
    InvStep(u, FinishCallback(false));
    TwoSteps(s, Take(false, m), FinishCallback(false));
    t := Apply(u, FinishCallback(false));
  }

  lemma {:induction false} ManyLives(s: State, fates: map<Msg, Status>, byThread: set<Msg>)
    returns (steps: seq<Step>, t: State)
    requires Serving(s) && s.pool.accepted !! fates.Keys
    ensures Run(s, steps, t) && Serving(t)
    ensures t.pool.accepted == s.pool.accepted + fates.Keys && t.pool.resolved == s.pool.resolved + fates
    ensures forall m :: m in fates && m in byThread ==> Take(false, m) in steps
    decreases |fates|
  {
    hide *;
    steps, t := [], s;
    if fates == map[] {
      NoSteps(s);
    } else {
      var m, rest := PickFate(s.pool.resolved, s.pool.accepted, fates);
      var u := OneLife(s, m, fates[m], m in byThread);
      steps, t := ManyLives(u, rest, byThread);
      RunAppend(s, Life(m, fates[m], m in byThread), u, steps, t);
      TakesInTurn(fates, m, rest, byThread, steps);
      steps := Life(m, fates[m], m in byThread) + steps;
    }
  }

  lemma PickFate(resolved: map<Msg, Status>, accepted: set<Msg>, fates: map<Msg, Status>)
    returns (m: Msg, rest: map<Msg, Status>)
    requires fates != map[] && accepted !! fates.Keys
    ensures m in fates && m !in accepted && rest == fates - {m} && |rest| < |fates|
    ensures accepted + {m} !! rest.Keys && accepted + {m} + rest.Keys == accepted + fates.Keys
    ensures resolved[m := fates[m]] + rest == resolved + fates
  {
    m :| m in fates;
    rest := fates - {m};
    assert rest.Keys == fates.Keys - {m};
    assert |rest.Keys| == |fates.Keys| - 1;
    FatesInTurn(resolved, fates, m);
  }

  lemma FatesInTurn(resolved: map<Msg, Status>, fates: map<Msg, Status>, m: Msg)
    requires m in fates
    ensures resolved[m := fates[m]] + (fates - {m}) == resolved + fates
  {
    var a, b := resolved[m := fates[m]] + (fates - {m}), resolved + fates;
    assert forall x :: x in a <==> x in b;
    assert forall x :: x in a ==> a[x] == b[x];
  }

  lemma TakesInTurn(fates: map<Msg, Status>, m: Msg, rest: map<Msg, Status>, byThread: set<Msg>, steps: seq<Step>)
    requires m in fates && rest == fates - {m}
    requires forall x :: x in rest && x in byThread ==> Take(false, x) in steps
    ensures forall x :: x in fates && x in byThread
                        ==> Take(false, x) in Life(m, fates[m], m in byThread) + steps
  {
    hide Life;
    LifeTakes(m, fates[m]);
  }

  lemma LifeTakes(m: Msg, status: Status)
    ensures Take(false, m) in Life(m, status, true)
  {
    assert Life(m, status, true)[2] == Take(false, m);
  }

  lemma NoSteps(s: State)
    ensures Run(s, [], s)
  {
  }

  lemma Opened() returns (t: State)
    ensures Run(Start, [InitSucceeds, ThreadTest], t) && Serving(t)
    ensures t.pool.accepted == {} && t.pool.resolved == map[]
  {
    InvStep(Start, InitSucceeds);
    var u := Apply(Start, InitSucceeds);
    InvStep(u, ThreadTest);
    TwoSteps(Start, InitSucceeds, ThreadTest);
    t := Apply(u, ThreadTest);
  }

  lemma EnteredClose(s: State) returns (t: State)
    requires Serving(s)
    ensures Run(s, [EnterClose], t) && Inv(t) && Closing(t) && t.pool == s.pool && t.pool.unacked == {}
  {
    hide Pointers, Control, Drained, Conserved, Faithful;
    InvStep(s, EnterClose);
    t := Apply(s, EnterClose);
    assert [EnterClose][1..] == [];
  }

  // Whatever messages are sent, whatever statuses the brokers give them, and whichever of
  // them the polling thread is to report: some run from the start sends them all, has the
  // polling thread report these, and ends with closeKafka done, every message reported,
  // to success() or fail() as its status calls for.
  lemma EveryOutcomeIsPossible(fates: map<Msg, Status>, byThread: set<Msg>) returns (steps: seq<Step>, t: State)
    ensures Run(Start, steps, t) && t.app.Idle? && t.producer.None? && t.live == {} && !t.conf
    ensures t.pool.accepted == fates.Keys && t.pool.resolved == fates
    ensures forall m :: m in fates && m in byThread ==> Take(false, m) in steps
    ensures forall m :: m in fates ==>
              && t.pool.succeeded[m] == (if fates[m] in {PossiblyPersisted, Persisted} then 1 else 0)
              && t.pool.failed[m] == (if fates[m] in {NotPersisted, OtherStatus} then 1 else 0)
  {
    hide Run, Serving, Pointers, Control, Drained, Conserved, Faithful;
    var first := Opened();
    var lives, s := ManyLives(first, fates, byThread);
    assert map[] + fates == fates;
    var closing := EnteredClose(s);
    var rest;
    rest, t := CompleteFrom(closing);
    RunAppend(Start, [InitSucceeds, ThreadTest], first, lives, s);
    RunAppend(Start, [InitSucceeds, ThreadTest] + lives, s, [EnterClose], closing);
    RunAppend(Start, [InitSucceeds, ThreadTest] + lives + [EnterClose], closing, rest, t);
    steps := [InitSucceeds, ThreadTest] + lives + [EnterClose] + rest;
    Outcomes(steps, t);
  }

  lemma Outcomes(steps: seq<Step>, t: State)
    requires Run(Start, steps, t) && t.app.Idle? && t.producer.None? && t.pool.accepted == t.pool.resolved.Keys
    ensures t.live == {}
    ensures forall m :: m in t.pool.resolved ==>
              && t.pool.succeeded[m] == (if t.pool.resolved[m] in {PossiblyPersisted, Persisted} then 1 else 0)
              && t.pool.failed[m] == (if t.pool.resolved[m] in {NotPersisted, OtherStatus} then 1 else 0)
  {
    ReachableInv(t);
    forall m | m in t.pool.resolved
      ensures t.pool.succeeded[m] == if t.pool.resolved[m] in {PossiblyPersisted, Persisted} then 1 else 0
      ensures t.pool.failed[m] == if t.pool.resolved[m] in {NotPersisted, OtherStatus} then 1 else 0
    {
      OutcomeAtClose(t, m);
      AllReportedAtClose(t, m);
    }
  }

  // ----- what a call leaves as it was -----

  // A poll that finds nothing changes nothing, in pollEvent, in the drain loop and in the
  // polling thread.
  lemma EmptyPolls(s: State)
    ensures s.app.Idle? && s.producer.Some? && s.appCb.None? ==> Run(s, [EnterPollEvent, PollReturns(true)], s)
    ensures s.app.DrainTest? && s.producer.Some? && OutqLen(s) > 0 && s.appCb.None?
            ==> Run(s, [CloseStep, PollReturns(true)], s)
    ensures s.thread.LoopTest? && s.bRun && s.threadCb.None? ==> Run(s, [ThreadTest, PollReturns(false)], s)
  {
    if s.app.Idle? && s.producer.Some? && s.appCb.None? {
      TwoSteps(s, EnterPollEvent, PollReturns(true));
    }
    if s.app.DrainTest? && s.producer.Some? && OutqLen(s) > 0 && s.appCb.None? {
      TwoSteps(s, CloseStep, PollReturns(true));
    }
    if s.thread.LoopTest? && s.bRun && s.threadCb.None? {
      TwoSteps(s, ThreadTest, PollReturns(false));
    }
  }

  // closeKafka undoes a failed initKafka, and does nothing if nothing is open.
  lemma CloseWithoutProducer()
    ensures Run(Start, [EnterClose, CloseStep], Start)
    ensures Run(Start, [InitFails, EnterClose, CloseStep, CloseStep, CloseStep, CloseStep, CloseStep], Start)
  {
    var failed := Apply(Start, InitFails);
    var test := Apply(failed, EnterClose);
    var drain := Apply(test, CloseStep);
    var stop := Apply(drain, CloseStep);
    var delete := Apply(stop, CloseStep);
    var deleteConf := Apply(delete, CloseStep);
    assert Enabled(deleteConf, CloseStep) && Apply(deleteConf, CloseStep) == Start;
    assert Enabled(Start, EnterClose) && Enabled(Apply(Start, EnterClose), CloseStep);
    assert Apply(Apply(Start, EnterClose), CloseStep) == Start;
    hide Run, Apply, Enabled;
    TwoSteps(Start, EnterClose, CloseStep);
    TwoSteps(Start, InitFails, EnterClose);
    TwoSteps(test, CloseStep, CloseStep);
    TwoSteps(stop, CloseStep, CloseStep);
    LastStep(deleteConf, CloseStep);
    RunAppend(stop, [CloseStep, CloseStep], deleteConf, [CloseStep], Start);
    RunAppend(test, [CloseStep, CloseStep], stop, [CloseStep, CloseStep] + [CloseStep], Start);
    RunAppend(Start, [InitFails, EnterClose], test,
              [CloseStep, CloseStep] + ([CloseStep, CloseStep] + [CloseStep]), Start);
    assert [InitFails, EnterClose] + ([CloseStep, CloseStep] + ([CloseStep, CloseStep] + [CloseStep]))
        == [InitFails, EnterClose, CloseStep, CloseStep, CloseStep, CloseStep, CloseStep];
  }

  lemma LastStep(s: State, step: Step)
    requires Enabled(s, step)
    ensures Run(s, [step], Apply(s, step))
  {
    assert [step][1..] == [];
  }
}
