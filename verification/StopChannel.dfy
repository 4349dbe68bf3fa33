/**
 * The stop channel of one service in a whole run: the lifecycle and the health machine of
 * that service side by side. A thread that stops the service loads the flag with that very
 * step, and takes no other step before it has written its token.
 */
module StopChannel {
  import opened Prelude
  import opened Services
  import L = Lifecycle
  import R = LifecycleRuns
  import Traces
  import H = HealthMachine

  datatype State = State(life: L.State, check: H.State)

  const INITIAL := State(L.INITIAL, H.INITIAL)

  datatype Step = Life(life: L.Step) | Check(check: H.Step)

  function Actor(step: L.Step): Thread {
    match step
    case ByMain(_) => MainThread
    case InFatal(t, _) => t
  }

  /** Is the thread inside a call of the handler? */
  predicate Busy(h: H.State, t: Thread) {
    if t.MainThread? then !h.controller.Idle? || t in h.others else t in h.others
  }

  /** The main thread enables the forever check of the service. */
  predicate EnablesCheck(s: L.State, step: L.Step, svc: Service)
    requires L.Enabled(s, step)
  {
    step == L.ByMain(L.EnableCheck) && s.main.j < |s.listed| && s.listed[s.main.j] == svc
  }

  /** The step by which a thread enters the handler. A Fatal of the main thread stops it like any other. */
  function Enters(s: L.State, step: L.Step, svc: Service): Option<H.Step>
    requires L.Enabled(s, step)
  {
    if L.Stopped(s, step) == Some(svc) then
      Some(if step.ByMain? then H.LoadForStop else H.OtherLoad(Actor(step)))
    else if EnablesCheck(s, step, svc) then Some(H.LoadForEnable(true))
    else None
  }

  predicate LifePossible(c: State, step: L.Step, svc: Service) {
    && L.Enabled(c.life, step)
    && !Busy(c.check, Actor(step))
    && (step == L.ByMain(L.ServiceHealthy) && ORDER[c.life.main.i] == svc ==>
          c.check.taken != [] && c.check.taken[|c.check.taken| - 1].healthy)
  }

  /**
   * One-shot checks are enabled while startService waits for the service; the other entries
   * come with steps of the lifecycle.
   */
  predicate CheckPossible(c: State, step: H.Step, svc: Service) {
    && !c.life.dead && H.Enabled(c.check, step)
    && match step
       case LoadForEnable(forever) => !forever && c.life.main == L.Awaiting(Rank(svc)) && MainThread !in c.life.fatals
       case LoadForStop => false
       case OtherLoad(_) => false
       case _ => true
  }

  predicate Possible(c: State, step: Step, svc: Service) {
    match step
    case Life(l) => LifePossible(c, l, svc)
    case Check(h) => CheckPossible(c, h, svc)
  }

  function Do(c: State, step: Step, svc: Service): State
    requires Possible(c, step, svc)
  {
    match step
    case Life(l) =>
      State(L.Apply(c.life, l), match Enters(c.life, l, svc)
                                case None => c.check
                                case Some(h) => H.Apply(c.check, h))
    case Check(h) => State(c.life, H.Apply(c.check, h))
  }

  function Execute(schedule: seq<Step>, svc: Service): Option<State>
    decreases |schedule|
  {
    if schedule == [] then Some(INITIAL)
    else
      var step := schedule[|schedule| - 1];
      match Execute(schedule[..|schedule| - 1], svc)
      case None => None
      case Some(c) => if Possible(c, step, svc) then Some(Do(c, step, svc)) else None
  }

  // ---- What every step keeps

  ghost predicate Invariant(c: State, svc: Service) {
    L.Invariant(c.life) && L.Counted(c.life) && H.Invariant(c.check) && c.check.stops == c.life.stops[svc]
  }

  lemma CheckStepStops(s: H.State, step: H.Step)
    requires H.Enabled(s, step)
    ensures H.Apply(s, step).stops == s.stops + if step.LoadForStop? || step.OtherLoad? then 1 else 0
  {
  }

  lemma LifeStepKeepsInvariant(c: State, step: L.Step, svc: Service)
    requires Invariant(c, svc) && LifePossible(c, step, svc)
    ensures Invariant(Do(c, Life(step), svc), svc)
  {
    L.StepKeepsInvariant(c.life, step);
    L.StepKeepsCounted(c.life, step);
    L.StopsOfStep(c.life, step, svc);
    match Enters(c.life, step, svc)
    case None =>
    case Some(h) =>
      H.StepKeepsInvariant(c.check, h);
      CheckStepStops(c.check, h);
  }

  lemma {:induction false} ReachableInvariant(schedule: seq<Step>, svc: Service)
    requires Execute(schedule, svc).Some?
    ensures Invariant(Execute(schedule, svc).value, svc)
    decreases |schedule|
  {
    if schedule == [] {
      L.ReachableInvariant([]);
    } else {
      var last := |schedule| - 1;
      var c := Execute(schedule[..last], svc).value;
      ReachableInvariant(schedule[..last], svc);
      match schedule[last]
      case Life(l) => LifeStepKeepsInvariant(c, l, svc);
      case Check(h) =>
        H.StepKeepsInvariant(c.check, h);
        CheckStepStops(c.check, h);
    }
  }

  /**
   * The calls of Stop that the health machine has seen are those of the lifecycle, so few
   * Fatals mean that none blocks.
   */
  lemma FewFatalsNeverBlock(schedule: seq<Step>, svc: Service)
    requires Execute(schedule, svc).Some?
    requires |L.Reach(Execute(schedule, svc).value.life.fatals, svc)| + L.Base(svc) <= 2
    ensures !H.Blocked(Execute(schedule, svc).value.check)
  {
    var c := Execute(schedule, svc).value;
    ReachableInvariant(schedule, svc);
    assert L.CountedFor(c.life, svc);
    L.StopsByReach(c.life, svc);
    H.TwoStopsNeverBlock(c.check);
  }

  // ---- A run that blocks

  function Next(svc: Service): (State, Step) -> Option<State> {
    (c, step) => if Possible(c, step, svc) then Some(Do(c, step, svc)) else None
  }

  ghost predicate Leads(schedule: seq<Step>, svc: Service, c: State) {
    Traces.Leads(INITIAL, Next(svc), schedule, c)
  }

  lemma Extend(schedule: seq<Step>, svc: Service, c: State, step: Step, c': State) returns (longer: seq<Step>)
    requires Leads(schedule, svc, c) && Possible(c, step, svc) && c' == Do(c, step, svc)
    ensures Leads(longer, svc, c')
  {
    longer := schedule + [step];
    Traces.Extend(INITIAL, Next(svc), schedule, c, step, c');
  }

  lemma LeadsMeans(schedule: seq<Step>, svc: Service, c: State)
    requires Leads(schedule, svc, c)
    ensures Execute(schedule, svc) == Some(c)
  {
    var execute := (steps: seq<Step>) => Execute(steps, svc);
    forall before: seq<Step>, step
      ensures execute(before + [step]) == match execute(before) case None => None case Some(c) => Next(svc)(c, step)
    {
      assert (before + [step])[..|before|] == before;
    }
    Traces.LeadsMeans(execute, INITIAL, Next(svc), schedule, c);
  }

  const CLEARING := H.Goroutine(false, H.Clearing, 1, 0)

  /**
   * The one-shot goroutine of a healthy service has sent its message and never gets to clear
   * the flag; `n` Stops have written tokens.
   */
  function Lingering(n: nat): H.State {
    H.State(true, n, [], [CLEARING], H.Idle, n, n, [H.Message(0, true)], {})
  }

  /** The health machine of a service that lingers from its registration on. */
  function Frozen(s: L.State, svc: Service): H.State {
    if Rank(svc) < L.RegisteredCount(s.main) then Lingering(s.stops[svc]) else H.INITIAL
  }

  /** The one-shot check, up to the launch. */
  lemma Launched(before: seq<Step>, svc: Service, s: L.State) returns (schedule: seq<Step>)
    requires Leads(before, svc, State(s, H.INITIAL))
    requires s.main == L.Awaiting(Rank(svc)) && !s.dead && MainThread !in s.fatals
    ensures Leads(schedule, svc, State(s, H.INITIAL.(flag := true, gs := [H.Goroutine(false, H.Probing, 0, 0)])))
  {
    var h := H.INITIAL.(controller := H.EnableStore(false));
    schedule := Extend(before, svc, State(s, H.INITIAL), Check(H.LoadForEnable(false)), State(s, h));
    var h' := H.INITIAL.(flag := true, controller := H.EnableLaunch(false));
    schedule := Extend(schedule, svc, State(s, h), Check(H.StoreFlag), State(s, h'));
    h := H.INITIAL.(flag := true, gs := [H.Goroutine(false, H.Probing, 0, 0)]);
    schedule := Extend(schedule, svc, State(s, h'), Check(H.Launch), State(s, h));
  }

  /** Its message is healthy and is received. */
  lemma Probed(before: seq<Step>, svc: Service, s: L.State) returns (schedule: seq<Step>)
    requires Leads(before, svc, State(s, H.INITIAL))
    requires s.main == L.Awaiting(Rank(svc)) && !s.dead && MainThread !in s.fatals
    ensures Leads(schedule, svc, State(s, Lingering(0)))
  {
    schedule := Launched(before, svc, s);
    var h := H.INITIAL.(flag := true, gs := [H.Goroutine(false, H.Probing, 0, 0)]);
    var h' := h.(gs := [H.Goroutine(false, H.Sending(true), 0, 0)]);
    schedule := Extend(schedule, svc, State(s, h), Check(H.Probe(0, true)), State(s, h'));
    h := h.(gs := [CLEARING], inbox := [H.Message(0, true)]);
    schedule := Extend(schedule, svc, State(s, h'), Check(H.Send(0)), State(s, h));
    schedule := Extend(schedule, svc, State(s, h), Check(H.Receive), State(s, Lingering(0)));
  }

  /** A lingering service after a thread has found the flag set. */
  function InStop(n: nat, step: L.Step): H.State {
    match step
    case ByMain(_) => Lingering(n).(controller := H.StopSend, stops := n + 1)
    case InFatal(t, _) => Lingering(n).(others := {t}, stops := n + 1)
  }

  lemma EnterStop(before: seq<Step>, svc: Service, s: L.State, n: nat, step: L.Step) returns (schedule: seq<Step>)
    requires Leads(before, svc, State(s, Lingering(n)))
    requires L.Enabled(s, step) && L.Stopped(s, step) == Some(svc)
    ensures Leads(schedule, svc, State(L.Apply(s, step), InStop(n, step)))
  {
    assert L.Stopped(s, step).Some?;
    assert H.Apply(Lingering(n), if step.ByMain? then H.LoadForStop else H.OtherLoad(Actor(step))) == InStop(n, step);
    schedule := Extend(before, svc, State(s, Lingering(n)), Life(step), State(L.Apply(s, step), InStop(n, step)));
  }

  /** It writes its token while there is room. */
  lemma WriteToken(before: seq<Step>, svc: Service, s: L.State, n: nat, step: L.Step) returns (schedule: seq<Step>)
    requires n < 2 && !s.dead && Leads(before, svc, State(s, InStop(n, step)))
    ensures Leads(schedule, svc, State(s, Lingering(n + 1)))
  {
    var send := if step.ByMain? then H.SendToken else H.OtherSend(step.t);
    schedule := Extend(before, svc, State(s, InStop(n, step)), Check(send), State(s, Lingering(n + 1)));
  }

  /** A step that stops the service finds it registered. */
  lemma StoppedIsRegistered(s: L.State, step: L.Step, svc: Service)
    requires L.Invariant(s) && L.Enabled(s, step) && L.Stopped(s, step) == Some(svc)
    ensures Frozen(s, svc) == Lingering(s.stops[svc]) && Frozen(L.Apply(s, step), svc) == Lingering(s.stops[svc] + 1)
    ensures !L.Apply(s, step).dead
  {
    L.StopsOfStep(s, step, svc);
    match step
    case ByMain(_) =>
    case InFatal(t, _) =>
      L.FatalInTurn(s, t);
      RankOf(s.fatals[t].stopped);
  }

  lemma OtherSteps(s: L.State, step: L.Step, svc: Service)
    requires L.Invariant(s) && L.Enabled(s, step) && L.Stopped(s, step) != Some(svc)
    requires !(step == L.ByMain(L.ServiceHealthy) && ORDER[s.main.i] == svc)
    ensures Frozen(L.Apply(s, step), svc) == Frozen(s, svc)
    ensures EnablesCheck(s, step, svc) ==> Frozen(s, svc) == Lingering(s.stops[svc])
  {
    L.StopsOfStep(s, step, svc);
    if step == L.ByMain(L.ServiceHealthy) {
      RankOf(s.main.i);
    }
  }

  lemma UnregisteredUnstopped(s: L.State, svc: Service)
    requires L.Invariant(s) && L.Counted(s) && Rank(svc) >= L.RegisteredCount(s.main)
    ensures s.stops[svc] == 0
  {
    assert L.CountedFor(s, svc);
    assert forall t :: t in s.fatals ==> L.FatalInvariant(s, t, s.fatals[t]);
    assert L.PastThreads(s.fatals, svc) == {};
  }

  lemma LiftStop(before: seq<Step>, svc: Service, s: L.State, step: L.Step) returns (schedule: seq<Step>)
    requires L.Invariant(s) && L.Enabled(s, step) && L.Stopped(s, step) == Some(svc) && s.stops[svc] < 2
    requires Leads(before, svc, State(s, Frozen(s, svc)))
    ensures Leads(schedule, svc, State(L.Apply(s, step), Frozen(L.Apply(s, step), svc)))
  {
    StoppedIsRegistered(s, step, svc);
    var n, s' := s.stops[svc], L.Apply(s, step);
    schedule := EnterStop(before, svc, s, n, step);
    schedule := WriteToken(schedule, svc, s', n, step);
  }

  lemma LiftRegistration(before: seq<Step>, svc: Service, s: L.State) returns (schedule: seq<Step>)
    requires L.Invariant(s) && L.Counted(s) && L.Enabled(s, L.ByMain(L.ServiceHealthy)) && ORDER[s.main.i] == svc
    requires Leads(before, svc, State(s, Frozen(s, svc)))
    ensures var s' := L.Apply(s, L.ByMain(L.ServiceHealthy)); Leads(schedule, svc, State(s', Frozen(s', svc)))
  {
    RankOf(s.main.i);
    UnregisteredUnstopped(s, svc);
    schedule := Probed(before, svc, s);
    var s' := L.Apply(s, L.ByMain(L.ServiceHealthy));
    var step := Life(L.ByMain(L.ServiceHealthy));
    schedule := Extend(schedule, svc, State(s, Lingering(0)), step, State(s', Lingering(0)));
  }

  lemma LiftOther(before: seq<Step>, svc: Service, s: L.State, step: L.Step) returns (schedule: seq<Step>)
    requires L.Invariant(s) && L.Enabled(s, step) && L.Stopped(s, step) != Some(svc)
    requires !(step == L.ByMain(L.ServiceHealthy) && ORDER[s.main.i] == svc)
    requires Leads(before, svc, State(s, Frozen(s, svc)))
    ensures Leads(schedule, svc, State(L.Apply(s, step), Frozen(L.Apply(s, step), svc)))
  {
    OtherSteps(s, step, svc);
    schedule := Extend(before, svc, State(s, Frozen(s, svc)), Life(step), State(L.Apply(s, step), Frozen(s, svc)));
  }

  /** One step of the lifecycle, with what the health machine of a lingering service does then. */
  lemma LiftStep(before: seq<Step>, svc: Service, s: L.State, step: L.Step) returns (schedule: seq<Step>)
    requires L.Invariant(s) && L.Counted(s) && L.Enabled(s, step) && L.Apply(s, step).stops[svc] <= 2
    requires Leads(before, svc, State(s, Frozen(s, svc)))
    ensures Leads(schedule, svc, State(L.Apply(s, step), Frozen(L.Apply(s, step), svc)))
  {
    L.StopsOfStep(s, step, svc);
    if L.Stopped(s, step) == Some(svc) {
      schedule := LiftStop(before, svc, s, step);
    } else if step == L.ByMain(L.ServiceHealthy) && ORDER[s.main.i] == svc {
      schedule := LiftRegistration(before, svc, s);
    } else {
      schedule := LiftOther(before, svc, s, step);
    }
  }

  lemma {:induction false} StopsGrow(schedule: seq<L.Step>, n: nat, svc: Service)
    requires n <= |schedule| && L.Execute(schedule).Some?
    ensures L.Execute(schedule[..n]).Some?
    ensures L.Execute(schedule[..n]).value.stops[svc] <= L.Execute(schedule).value.stops[svc]
    decreases |schedule|
  {
    var last := |schedule| - 1;
    if n <= last {
      StopsGrow(schedule[..last], n, svc);
      assert schedule[..last][..n] == schedule[..n];
      L.StopsOfStep(L.Execute(schedule[..last]).value, schedule[last], svc);
    } else {
      assert schedule[..n] == schedule;
    }
  }

  /** Every run of the lifecycle with at most two stops of the service can be taken while its check lingers. */
  lemma {:induction false} Lift(life: seq<L.Step>, svc: Service) returns (schedule: seq<Step>)
    requires L.Execute(life).Some? && L.Execute(life).value.stops[svc] <= 2
    ensures Leads(schedule, svc, State(L.Execute(life).value, Frozen(L.Execute(life).value, svc)))
    decreases |life|
  {
    if life == [] {
      schedule := [];
      Traces.Nothing(INITIAL, Next(svc));
    } else {
      var last := |life| - 1;
      StopsGrow(life, last, svc);
      schedule := Lift(life[..last], svc);
      L.ReachableInvariant(life[..last]);
      schedule := LiftStep(schedule, svc, L.Execute(life[..last]).value, life[last]);
    }
  }

  /** In such a run the third Stop blocks, and for good. */
  lemma ThirdStopBlocks(svc: Service) returns (schedule: seq<Step>)
    ensures Execute(schedule, svc).Some? && H.Stuck(Execute(schedule, svc).value.check)
    ensures |L.Reach(Execute(schedule, svc).value.life.fatals, svc)| + L.Base(svc) <= 3
  {
    var life, s := R.StopsReached(3 - L.Base(svc), svc);
    var step := L.ByMain(L.StopNext);
    R.LeadsMeans(life, s);
    L.ReachableInvariant(life);
    StoppedIsRegistered(s, step, svc);
    schedule := Lift(life, svc);
    schedule := EnterStop(schedule, svc, s, 2, step);
    LeadsMeans(schedule, svc, State(L.Apply(s, step), InStop(2, step)));
  }

  ghost predicate NeverBlocks(n: nat, svc: Service) {
    forall schedule :: Execute(schedule, svc).Some? && |L.Reach(Execute(schedule, svc).value.life.fatals, svc)| <= n ==>
      !H.Blocked(Execute(schedule, svc).value.check)
  }

  /**
   * In all runs in which at most `n` Fatals find a handler registered no Stop of it blocks,
   * if and only if `n` is at most one, and for kube-proxy zero.
   */
  lemma NeverBlocksIff(n: nat, svc: Service)
    ensures NeverBlocks(n, svc) <==> n + L.Base(svc) <= 2
  {
    if n + L.Base(svc) <= 2 {
      forall schedule | Execute(schedule, svc).Some? && |L.Reach(Execute(schedule, svc).value.life.fatals, svc)| <= n
        ensures !H.Blocked(Execute(schedule, svc).value.check)
      {
        FewFatalsNeverBlock(schedule, svc);
      }
    } else {
      var schedule := ThirdStopBlocks(svc);
      assert H.Blocked(Execute(schedule, svc).value.check);
    }
  }
}
