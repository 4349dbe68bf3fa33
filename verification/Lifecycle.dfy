/**
 * A run of microkubed: starting six services in order, waiting for the node, watching,
 * and stopping; beside it the other threads that can call Fatal and run the exit handler.
 */
module Lifecycle {
  import opened Prelude
  import opened Services

  datatype Main =
    | Creating(i: nat)     // the process of ORDER[i] has not been started yet
    | Awaiting(i: nat)     // it has, and startService has not returned yet
    | Registered(i: nat)   // ORDER[i] is in serviceHandlers, not yet in serviceList
    | DeferredStop         // startKubeProxy is about to return
    | WaitingForNode
    | Armed                // the drain goroutine gets the signals, and the mode has not changed yet
    | EnablingChecks(j: nat)
    | Deploying
    | WaitingForExit
    | Stopping(k: nat)
    | Done

  /** A thread in Fatal: before it reads the mode, before it reads the list of handlers, and stopping them. */
  datatype Fatal = Called | Passed | StopEach(todo: seq<Service>, stopped: nat)

  /** `stops` records every call of Stop; `checked` the services with a running checkService. */
  datatype State = State(main: Main, graceful: bool,
                         handlers: seq<Service>, listed: seq<Service>, checked: seq<Service>,
                         fatals: map<Thread, Fatal>, stops: multiset<Service>, dead: bool)

  const INITIAL := State(Creating(0), false, [], [], [], map[], multiset{}, false)

  datatype MainStep =
    | StartProcess
    | ServiceHealthy
    | ListService
    | RunDeferredStop
    | NodeReady
    | SetGraceful
    | EnableCheck
    | Deploy
    | ExitSignal
    | StopNext

  datatype FatalStep = Call | ReadMode | ReadHandlers | StopOne | Exit

  datatype Step = ByMain(m: MainStep) | InFatal(t: Thread, f: FatalStep)

  /** How many processes the main thread has started. */
  function StartedCount(main: Main): nat {
    match main
    case Creating(i) => i
    case Awaiting(i) => i + 1
    case Registered(i) => i + 1
    case _ => |ORDER|
  }

  /** How many services the main thread has registered. */
  function RegisteredCount(main: Main): nat {
    match main
    case Creating(i) => i
    case Awaiting(i) => i
    case Registered(i) => i + 1
    case _ => |ORDER|
  }

  /**
   * Where the program calls Fatal: the main thread while it starts a service, writes the
   * kubeconfig, or asks the cluster; the exit handler of a process outside graceful mode; a
   * checkService; and the drain goroutine until it lets the main thread go on. Nobody does
   * so twice, since Fatal does not return.
   */
  predicate CanFatal(s: State, t: Thread) {
    t !in s.fatals &&
    match t
    case MainThread =>
      s.main.Creating? || s.main.Awaiting? || s.main == Registered(Rank(ApiServer)) || s.main.WaitingForNode?
      || s.main.Deploying?
    case Waiter(svc) => !s.graceful && Rank(svc) < StartedCount(s.main)
    case Checker(svc) => svc in s.checked
    case Drainer => s.main.Armed? || s.main.EnablingChecks? || s.main.Deploying? || s.main.WaitingForExit?
  }

  predicate InLoop(s: State, t: Thread) {
    t in s.fatals && s.fatals[t].StopEach?
  }

  predicate Enabled(s: State, step: Step) {
    !s.dead &&
    match step
    case ByMain(m) => MainThread !in s.fatals && MainEnabled(s, m)
    case InFatal(t, f) => FatalEnabled(s, t, f)
  }

  predicate MainEnabled(s: State, m: MainStep) {
    match m
    case StartProcess => s.main.Creating? && s.main.i < |ORDER|
    case ServiceHealthy => s.main.Awaiting? && s.main.i < |ORDER|
    case ListService => s.main.Registered? && s.main.i < |ORDER|
    case RunDeferredStop => s.main.DeferredStop?
    case NodeReady => s.main.WaitingForNode?
    case SetGraceful => s.main.Armed?
    case EnableCheck => s.main.EnablingChecks?
    case Deploy => s.main.Deploying?
    case ExitSignal => s.main.WaitingForExit? && Drainer !in s.fatals
    case StopNext => s.main.Stopping?
  }

  predicate FatalEnabled(s: State, t: Thread, f: FatalStep) {
    match f
    case Call => CanFatal(s, t)
    case ReadMode => t in s.fatals && s.fatals[t].Called?
    case ReadHandlers => t in s.fatals && s.fatals[t].Passed?
    case StopOne => InLoop(s, t) && s.fatals[t].stopped < |s.fatals[t].todo|
    case Exit => InLoop(s, t) && s.fatals[t].stopped >= |s.fatals[t].todo|
  }

  function Apply(s: State, step: Step): State
    requires Enabled(s, step)
  {
    match step
    case ByMain(m) => MainApply(s, m)
    case InFatal(t, f) => FatalApply(s, t, f)
  }

  function MainApply(s: State, m: MainStep): State
    requires MainEnabled(s, m)
  {
    match m
    case StartProcess => s.(main := Awaiting(s.main.i))
    case ServiceHealthy => s.(main := Registered(s.main.i), handlers := s.handlers + [ORDER[s.main.i]])
    case ListService =>
      s.(main := if s.main.i + 1 < |ORDER| then Creating(s.main.i + 1) else DeferredStop,
         listed := s.listed + [ORDER[s.main.i]])
    case RunDeferredStop => s.(main := WaitingForNode, stops := s.stops + multiset{KubeProxy})
    case NodeReady => s.(main := Armed)
    case SetGraceful => s.(main := EnablingChecks(0), graceful := true)
    case EnableCheck =>
      if s.main.j < |s.listed| then
        s.(main := EnablingChecks(s.main.j + 1), checked := s.checked + [s.listed[s.main.j]])
      else s.(main := Deploying)
    case Deploy => s.(main := WaitingForExit)
    case ExitSignal => s.(main := Stopping(0))
    case StopNext =>
      if s.main.k < |s.handlers| then
        s.(main := Stopping(s.main.k + 1), stops := s.stops + multiset{s.handlers[s.main.k]})
      else s.(main := Done, dead := true)
  }

  function FatalApply(s: State, t: Thread, f: FatalStep): State
    requires FatalEnabled(s, t, f)
  {
    match f
    case Call => s.(fatals := s.fatals[t := Called])
    case ReadMode => s.(fatals := s.fatals[t := if s.graceful then StopEach([], 0) else Passed])
    case ReadHandlers => s.(fatals := s.fatals[t := StopEach(s.handlers, 0)])
    case StopOne =>
      var todo, stopped := s.fatals[t].todo, s.fatals[t].stopped;
      s.(fatals := s.fatals[t := StopEach(todo, stopped + 1)], stops := s.stops + multiset{todo[stopped]})
    case Exit => s.(dead := true)
  }

  function ExecuteFrom(start: State, schedule: seq<Step>): Option<State>
    decreases |schedule|
  {
    if schedule == [] then Some(start)
    else
      var step := schedule[|schedule| - 1];
      match ExecuteFrom(start, schedule[..|schedule| - 1])
      case None => None
      case Some(s) => if Enabled(s, step) then Some(Apply(s, step)) else None
  }

  function Execute(schedule: seq<Step>): Option<State> {
    ExecuteFrom(INITIAL, schedule)
  }

  // ---- What every step keeps

  predicate Up(main: Main) {
    main.EnablingChecks? || main.Deploying? || main.WaitingForExit? || main.Stopping? || main.Done?
  }

  function Min(a: nat, b: nat): nat {
    if a < b then a else b
  }

  function CheckedCount(main: Main): nat {
    match main
    case EnablingChecks(j) => Min(j, |ORDER|)
    case _ => if Up(main) then |ORDER| else 0
  }

  /** The counters of the main thread stay in range. */
  ghost predicate InRange(main: Main) {
    match main
    case Creating(i) => i < |ORDER|
    case Awaiting(i) => i < |ORDER|
    case Registered(i) => i < |ORDER|
    case EnablingChecks(j) => j <= |ORDER|
    case Stopping(k) => k <= |ORDER|
    case _ => true
  }

  ghost predicate MainInvariant(s: State) {
    && InRange(s.main)
    && s.handlers == ORDER[..RegisteredCount(s.main)]
    && s.listed == ORDER[..RegisteredCount(s.main) - (if s.main.Registered? then 1 else 0)]
    && (s.graceful <==> Up(s.main))
    && s.checked == ORDER[..CheckedCount(s.main)]
    && (s.main.Done? ==> s.dead)
  }

  /** Is the thread about to stop handlers, or doing so? */
  predicate Effective(f: Fatal) {
    f.Passed? || (f.StopEach? && f.todo != [])
  }

  /** Where the main thread has halted if it is in Fatal. */
  predicate MainHalted(main: Main) {
    main.Creating? || main.Awaiting? || main.Registered? || main.WaitingForNode? || main.Deploying?
  }

  /** Where the main thread can be while the drain goroutine is in Fatal. */
  predicate DrainerHalted(main: Main) {
    main.Armed? || main.EnablingChecks? || main.Deploying? || main.WaitingForExit?
  }

  ghost predicate FatalInvariant(s: State, t: Thread, f: Fatal) {
    && (f.StopEach? ==> f.todo <= s.handlers && f.stopped <= |f.todo|)
    && (t.MainThread? ==> MainHalted(s.main) && (Effective(f) ==> !s.graceful))
    && (t.Drainer? ==> DrainerHalted(s.main))
    && (t.Checker? ==> s.graceful && !Effective(f))
  }

  ghost predicate Invariant(s: State) {
    MainInvariant(s) && forall t :: t in s.fatals ==> FatalInvariant(s, t, s.fatals[t])
  }

  lemma MainStepKeepsLists(s: State, m: MainStep)
    requires MainInvariant(s) && MainEnabled(s, m)
    ensures MainInvariant(MainApply(s, m)) && s.handlers <= MainApply(s, m).handlers
    ensures s.graceful ==> MainApply(s, m).graceful
  {
    match m
    case ServiceHealthy => RegistrationKeepsLists(s, m);
    case ListService => RegistrationKeepsLists(s, m);
    case EnableCheck => MainStepKeepsChecked(s);
    case _ =>
  }

  lemma RegistrationKeepsLists(s: State, m: MainStep)
    requires MainInvariant(s) && MainEnabled(s, m) && (m.ServiceHealthy? || m.ListService?)
    ensures MainInvariant(MainApply(s, m)) && s.handlers <= MainApply(s, m).handlers
  {
    assert ORDER[..s.main.i + 1] == ORDER[..s.main.i] + [ORDER[s.main.i]];
  }

  lemma MainStepKeepsChecked(s: State)
    requires MainInvariant(s) && MainEnabled(s, EnableCheck)
    ensures MainInvariant(MainApply(s, EnableCheck))
  {
    if s.main.j < |ORDER| {
      assert ORDER[..s.main.j + 1] == ORDER[..s.main.j] + [ORDER[s.main.j]];
    }
  }

  /** The main thread does not leave the place where it, or the drain goroutine, has called Fatal. */
  lemma MainStepKeepsFatal(s: State, m: MainStep, t: Thread)
    requires MainInvariant(s) && Enabled(s, ByMain(m)) && t in s.fatals && FatalInvariant(s, t, s.fatals[t])
    ensures FatalInvariant(MainApply(s, m), t, s.fatals[t])
  {
    MainStepKeepsLists(s, m);
  }

  /** A step in Fatal leaves the other threads alone. */
  lemma FatalFrame(s: State, t: Thread, f: FatalStep)
    requires FatalEnabled(s, t, f)
    ensures var s' := FatalApply(s, t, f);
            && s'.main == s.main && s'.graceful == s.graceful && s'.handlers == s.handlers && s'.listed == s.listed
            && s'.checked == s.checked && (s.dead ==> s'.dead)
            && s'.fatals == s.fatals[t := s'.fatals[t]]
  {
  }

  lemma FatalStepKeepsFatal(s: State, t: Thread, f: FatalStep)
    requires MainInvariant(s) && FatalEnabled(s, t, f)
    requires t in s.fatals ==> FatalInvariant(s, t, s.fatals[t])
    ensures t in FatalApply(s, t, f).fatals && FatalInvariant(FatalApply(s, t, f), t, FatalApply(s, t, f).fatals[t])
  {
  }

  lemma FatalStepKeepsInvariant(s: State, t: Thread, f: FatalStep)
    requires Invariant(s) && FatalEnabled(s, t, f)
    ensures Invariant(FatalApply(s, t, f))
  {
    FatalFrame(s, t, f);
    FatalStepKeepsFatal(s, t, f);
    var s' := FatalApply(s, t, f);
    forall u | u in s'.fatals && u != t ensures FatalInvariant(s', u, s'.fatals[u]) {
      assert FatalInvariant(s, u, s.fatals[u]);
    }
  }

  lemma StepKeepsInvariant(s: State, step: Step)
    requires Invariant(s) && Enabled(s, step)
    ensures Invariant(Apply(s, step))
  {
    match step
    case ByMain(m) =>
      MainStepKeepsLists(s, m);
      forall t | t in s.fatals ensures FatalInvariant(MainApply(s, m), t, s.fatals[t]) {
        MainStepKeepsFatal(s, m, t);
      }
      MainFrame(s, m);
    case InFatal(t, f) =>
      FatalStepKeepsInvariant(s, t, f);
  }

  lemma MainFrame(s: State, m: MainStep)
    requires MainEnabled(s, m)
    ensures MainApply(s, m).fatals == s.fatals
  {
    match m
    case ListService =>
    case EnableCheck =>
    case StopNext =>
    case ServiceHealthy =>
    case _ =>
  }

  // ---- Counting stops

  /** The threads in Fatal that have stopped `svc`. */
  function PastThreads(fatals: map<Thread, Fatal>, svc: Service): set<Thread> {
    set t | t in fatals && fatals[t].StopEach? && Rank(svc) < fatals[t].stopped
  }

  /** The threads in Fatal that found `svc` registered, and stop it sooner or later. */
  function Reach(fatals: map<Thread, Fatal>, svc: Service): set<Thread> {
    set t | t in fatals && fatals[t].StopEach? && svc in fatals[t].todo
  }

  /** Stops of `svc` by the main thread: the deferred one, and one by the shutdown once it is past its position. */
  function MainStops(main: Main, svc: Service): nat {
    (if svc.KubeProxy? && (Up(main) || main.WaitingForNode? || main.Armed?) then 1 else 0)
    + (match main
       case Stopping(k) => if Rank(svc) < k then 1 else 0
       case Done => 1
       case _ => 0)
  }

  /** The stops of `svc` in a run without any Fatal. */
  function Base(svc: Service): nat {
    if svc.KubeProxy? then 2 else 1
  }

  ghost predicate CountedFor(s: State, svc: Service) {
    s.stops[svc] == MainStops(s.main, svc) + |PastThreads(s.fatals, svc)|
  }

  ghost predicate Counted(s: State) {
    forall svc :: CountedFor(s, svc)
  }

  /** The service that a step stops. */
  function Stopped(s: State, step: Step): Option<Service>
    requires Enabled(s, step)
  {
    match step
    case ByMain(RunDeferredStop) => Some(KubeProxy)
    case ByMain(StopNext) => if s.main.k < |s.handlers| then Some(s.handlers[s.main.k]) else None
    case InFatal(t, StopOne) => Some(s.fatals[t].todo[s.fatals[t].stopped])
    case _ => None
  }

  lemma StopsOfStep(s: State, step: Step, svc: Service)
    requires Enabled(s, step)
    ensures Apply(s, step).stops[svc] == s.stops[svc] + if Stopped(s, step) == Some(svc) then 1 else 0
  {
    match step
    case ByMain(m) => StopsOfMainStep(s, m, svc);
    case InFatal(_, _) =>
  }

  lemma StopsOfMainStep(s: State, m: MainStep, svc: Service)
    requires Enabled(s, ByMain(m))
    ensures MainApply(s, m).stops[svc] == s.stops[svc] + if Stopped(s, ByMain(m)) == Some(svc) then 1 else 0
  {
    match m
    case StopNext =>
    case EnableCheck =>
    case _ =>
  }

  /** A Fatal stops the service whose turn it is. */
  lemma FatalInTurn(s: State, t: Thread)
    requires Invariant(s) && Enabled(s, InFatal(t, StopOne))
    ensures var k := s.fatals[t].stopped;
            k < |s.handlers| <= |ORDER| && Stopped(s, InFatal(t, StopOne)) == Some(ORDER[k])
  {
    assert FatalInvariant(s, t, s.fatals[t]);
  }

  lemma PastNext(fatals: map<Thread, Fatal>, t: Thread, svc: Service)
    requires t in fatals && fatals[t].StopEach?
    ensures var next := fatals[t := fatals[t].(stopped := fatals[t].stopped + 1)];
            PastThreads(next, svc) == PastThreads(fatals, svc) + if fatals[t].stopped == Rank(svc) then {t} else {}
  {
  }

  lemma FatalStopCounts(s: State, t: Thread, svc: Service)
    requires Invariant(s) && Enabled(s, InFatal(t, StopOne)) && CountedFor(s, svc)
    ensures CountedFor(Apply(s, InFatal(t, StopOne)), svc)
  {
    PastNext(s.fatals, t, svc);
    FatalInTurn(s, t);
    RankOf(s.fatals[t].stopped);
    StopsOfStep(s, InFatal(t, StopOne), svc);
  }

  /** Other steps in Fatal stop nothing. */
  lemma FatalStepCounts(s: State, t: Thread, f: FatalStep, svc: Service)
    requires Enabled(s, InFatal(t, f)) && CountedFor(s, svc) && !f.StopOne?
    ensures CountedFor(Apply(s, InFatal(t, f)), svc)
  {
    assert PastThreads(Apply(s, InFatal(t, f)).fatals, svc) == PastThreads(s.fatals, svc);
  }

  lemma MainStepCounts(s: State, m: MainStep, svc: Service)
    requires MainInvariant(s) && Enabled(s, ByMain(m))
    ensures var s' := Apply(s, ByMain(m));
            s'.fatals == s.fatals && s'.stops[svc] - MainStops(s'.main, svc) == s.stops[svc] - MainStops(s.main, svc)
  {
    if m.StopNext? {
      ShutdownCounts(s, svc);
    } else {
      StopsOfStep(s, ByMain(m), svc);
    }
  }

  lemma ShutdownCounts(s: State, svc: Service)
    requires MainInvariant(s) && MainEnabled(s, StopNext)
    ensures var s' := MainApply(s, StopNext);
            s'.stops[svc] - MainStops(s'.main, svc) == s.stops[svc] - MainStops(s.main, svc)
  {
    if s.main.k < |ORDER| {
      RankOf(s.main.k);
    }
  }

  lemma StepKeepsCounted(s: State, step: Step)
    requires Invariant(s) && Counted(s) && Enabled(s, step)
    ensures Counted(Apply(s, step))
  {
    forall svc ensures CountedFor(Apply(s, step), svc) {
      assert CountedFor(s, svc);
      match step
      case ByMain(m) => MainStepCounts(s, m, svc);
      case InFatal(t, f) =>
        if f.StopOne? {
          FatalStopCounts(s, t, svc);
        } else {
          FatalStepCounts(s, t, f, svc);
        }
    }
  }

  lemma {:induction false} ReachableInvariant(schedule: seq<Step>)
    requires Execute(schedule).Some?
    ensures Invariant(Execute(schedule).value) && Counted(Execute(schedule).value)
    decreases |schedule|
  {
    if schedule != [] {
      var last := |schedule| - 1;
      ReachableInvariant(schedule[..last]);
      StepKeepsInvariant(Execute(schedule[..last]).value, schedule[last]);
      StepKeepsCounted(Execute(schedule[..last]).value, schedule[last]);
    } else {
      assert forall svc :: PastThreads(map[], svc) == {};
      assert forall svc :: CountedFor(INITIAL, svc);
    }
  }

  // ---- Registration and modes

  /** Services are registered in the fixed order, and checkService runs only in graceful mode. */
  lemma RegisteredIsPrefix(schedule: seq<Step>)
    requires Execute(schedule).Some?
    ensures var s := Execute(schedule).value;
            && s.listed <= s.handlers <= [Etcd, ApiServer, ControllerManager, Scheduler, Kubelet, KubeProxy]
            && s.checked <= ORDER
            && (s.checked != [] ==> s.graceful)
            && (s.graceful ==> s.handlers == s.listed == ORDER)
  {
    ReachableInvariant(schedule);
  }

  /** Graceful mode is entered when the node is ready, before any check runs, and never left. */
  lemma GracefulIsMonotone(s: State, step: Step)
    requires Invariant(s) && Enabled(s, step)
    ensures s.graceful ==> Apply(s, step).graceful
    ensures !s.graceful && Apply(s, step).graceful ==>
              step == ByMain(SetGraceful) && s.checked == [] && Apply(s, step).checked == [] && s.handlers == ORDER
  {
  }

  lemma StepKeepsList(s: State, t: Thread, step: Step)
    requires InLoop(s, t) && Enabled(s, step)
    ensures InLoop(Apply(s, step), t) && Apply(s, step).fatals[t].todo == s.fatals[t].todo
  {
  }

  lemma {:induction false} ListIsFixed(s: State, t: Thread, later: seq<Step>)
    requires InLoop(s, t) && ExecuteFrom(s, later).Some?
    ensures var s' := ExecuteFrom(s, later).value; InLoop(s', t) && s'.fatals[t].todo == s.fatals[t].todo
    decreases |later|
  {
    if later != [] {
      var last := |later| - 1;
      ListIsFixed(s, t, later[..last]);
      StepKeepsList(ExecuteFrom(s, later[..last]).value, t, later[last]);
    }
  }

  /** The step of the thread that settles which handlers it will stop. */
  predicate Settles(s: State, t: Thread, f: FatalStep) {
    Enabled(s, InFatal(t, f)) && (f.ReadHandlers? || (f.ReadMode? && s.graceful))
  }

  /**
   * A Fatal that reads the mode before it changes stops exactly the handlers that are
   * registered when it reads the list, one that reads it later stops none; whatever the
   * other threads do meanwhile, it ends the program only after it has gone through that list.
   */
  lemma FatalStopsRegistered(s: State, t: Thread, f: FatalStep, later: seq<Step>)
    requires Settles(s, t, f) && ExecuteFrom(Apply(s, InFatal(t, f)), later).Some?
    ensures var s' := ExecuteFrom(Apply(s, InFatal(t, f)), later).value;
            && InLoop(s', t) && s'.fatals[t].todo == (if f.ReadMode? then [] else s.handlers)
            && (Enabled(s', InFatal(t, Exit)) ==> s'.fatals[t].stopped >= |s'.fatals[t].todo|)
  {
    ListIsFixed(Apply(s, InFatal(t, f)), t, later);
  }

  // ---- How often a handler is stopped

  /** The exact number of stops of every handler, at every moment of every run. */
  lemma StopsCounted(schedule: seq<Step>, svc: Service)
    requires Execute(schedule).Some?
    ensures var s := Execute(schedule).value; s.stops[svc] == MainStops(s.main, svc) + |PastThreads(s.fatals, svc)|
  {
    ReachableInvariant(schedule);
    assert CountedFor(Execute(schedule).value, svc);
  }

  lemma {:induction false} SubsetCount<T>(a: set<T>, b: set<T>)
    requires a <= b
    ensures |a| <= |b|
  {
    if a != {} {
      var x :| x in a;
      SubsetCount(a - {x}, b - {x});
    }
  }

  /** A Fatal joins Reach exactly when it finds the handler in the list that it reads, and stays. */
  lemma ReachIs(s: State, step: Step, svc: Service)
    requires Enabled(s, step)
    ensures Reach(Apply(s, step).fatals, svc)
         == Reach(s.fatals, svc) + if step.InFatal? && step.f.ReadHandlers? && svc in s.handlers then {step.t} else {}
  {
  }

  lemma PastReached(s: State, svc: Service)
    requires Invariant(s)
    ensures PastThreads(s.fatals, svc) <= Reach(s.fatals, svc)
  {
    forall t | t in PastThreads(s.fatals, svc) ensures t in Reach(s.fatals, svc) {
      assert FatalInvariant(s, t, s.fatals[t]);
      assert s.fatals[t].todo[Rank(svc)] == svc;
    }
  }

  /** Each Fatal that found the handler registered can add one stop to those of the main thread. */
  lemma StopsByReach(s: State, svc: Service)
    requires Invariant(s) && CountedFor(s, svc)
    ensures s.stops[svc] <= Base(svc) + |Reach(s.fatals, svc)|
    ensures Reach(s.fatals, svc) == {} ==> s.stops[svc] == MainStops(s.main, svc)
  {
    PastReached(s, svc);
    SubsetCount(PastThreads(s.fatals, svc), Reach(s.fatals, svc));
  }

  /**
   * If no Fatal found the handler registered, for instance because all came in graceful mode,
   * it is stopped at most once, and the kube-proxy handler at most twice; exactly so on return.
   */
  lemma StopsWithoutFatal(schedule: seq<Step>, svc: Service)
    requires Execute(schedule).Some? && Reach(Execute(schedule).value.fatals, svc) == {}
    ensures var s := Execute(schedule).value;
            s.stops[svc] <= Base(svc) <= 2 && (s.main.Done? ==> s.stops[svc] == Base(svc))
  {
    ReachableInvariant(schedule);
    assert CountedFor(Execute(schedule).value, svc);
    StopsByReach(Execute(schedule).value, svc);
  }

  /** The goroutines that wait for the first `m` processes. */
  function FirstWaiters(m: nat): (r: set<Thread>)
    requires m <= |ORDER|
  {
    if m == 0 then {} else FirstWaiters(m - 1) + {Waiter(ORDER[m - 1])}
  }

  lemma {:induction false} FirstWaitersAre(m: nat)
    requires m <= |ORDER|
    ensures |FirstWaiters(m)| == m
    ensures forall t :: t in FirstWaiters(m) <==> t.Waiter? && Rank(t.svc) < m
  {
    if m > 0 {
      FirstWaitersAre(m - 1);
      RankOf(m - 1);
      forall t ensures t in FirstWaiters(m) <==> t.Waiter? && Rank(t.svc) < m {
        assert t == Waiter(ORDER[m - 1]) <==> t.Waiter? && Rank(t.svc) == m - 1;
      }
    }
  }

  /** Of the main thread and the drain goroutine at most one stops handlers in Fatal, and then there is no shutdown. */
  lemma OneOfMainAndDrainer(s: State, svc: Service)
    requires Invariant(s)
    ensures var past := PastThreads(s.fatals, svc);
            && (forall t :: t in past ==> !t.Checker?)
            && !(MainThread in past && Drainer in past)
            && (MainThread in past || Drainer in past ==> !s.main.Stopping? && !s.main.Done?)
  {
    var past := PastThreads(s.fatals, svc);
    assert forall t :: t in past ==> FatalInvariant(s, t, s.fatals[t]);
  }

  lemma ThreadCount(past: set<Thread>)
    requires forall t :: t in past ==> !t.Checker?
    requires !(MainThread in past && Drainer in past)
    ensures |past| <= |ORDER| + if MainThread in past || Drainer in past then 1 else 0
  {
    var waiters := past - {MainThread} - {Drainer};
    FirstWaitersAre(|ORDER|);
    SubsetCount(waiters, FirstWaiters(|ORDER|));
  }

  /** The bound for all runs: each handler is stopped at most seven times, the kube-proxy handler eight. */
  lemma StopsBound(schedule: seq<Step>, svc: Service)
    requires Execute(schedule).Some?
    ensures var s := Execute(schedule).value;
            s.stops[svc] <= Base(svc) + |Reach(s.fatals, svc)| && s.stops[svc] <= Base(svc) + |ORDER|
  {
    var s := Execute(schedule).value;
    ReachableInvariant(schedule);
    assert CountedFor(s, svc);
    StopsByReach(s, svc);
    OneOfMainAndDrainer(s, svc);
    ThreadCount(PastThreads(s.fatals, svc));
  }
}
