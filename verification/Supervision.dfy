/**
 * A supervised service over its whole life: every process it spawns, the goroutines that
 * wait for the process and for signals, and the restart budget.
 */
module Supervision {
  import opened Prelude

  const CHANNEL_CAPACITY := 2

  /** The goroutine that waits for the process, reports its state, and calls the exit handler. */
  datatype Waiter = Waiting | Sending | Calling | Done

  /** The goroutine that kills the process on a signal, or leaves once the process has ended. */
  datatype Listener = Listening | Killed | Left

  datatype Process = Process(running: bool, waiter: Waiter, listener: Listener, stateChan: nat)

  const FRESH := Process(true, Waiting, Listening, 0)

  /** `reports` counts calls of HandleExit, `exits` calls of the final exit handler. */
  datatype State = State(procs: seq<Process>, retriesLeft: int, reports: nat, exits: nat, restartFailed: bool)

  datatype Step =
    | End(i: nat)                  // the process ends by itself
    | Wait(i: nat)                 // Wait returns
    | Send(i: nat)                 // the waiter writes to the state channel
    | Report(i: nat, starts: bool) // HandleExit; `starts`: would a restart succeed?
    | Signal(i: nat)               // the listener receives a signal and kills
    | Leave(i: nat)                // the listener receives the state

  predicate Enabled(s: State, step: Step) {
    && step.i < |s.procs|
    && var p := s.procs[step.i];
       match step
       case End(_) => p.running
       case Wait(_) => p.waiter.Waiting? && !p.running
       case Send(_) => p.waiter.Sending? && p.stateChan < CHANNEL_CAPACITY
       case Report(_, _) => p.waiter.Calling?
       case Signal(_) => p.listener.Listening?
       case Leave(_) => p.listener.Listening? && p.stateChan > 0
  }

  /** HandleExit: restart while the budget lasts, and ignore a failure to do so. */
  function HandleExit(s: State, starts: bool): State {
    var s' := s.(retriesLeft := s.retriesLeft - 1, reports := s.reports + 1);
    if s'.retriesLeft > 0 then
      if starts then s'.(procs := s'.procs + [FRESH]) else s'.(restartFailed := true)
    else
      s'.(exits := s'.exits + 1)
  }

  function Apply(s: State, step: Step): State
    requires Enabled(s, step)
  {
    var p := s.procs[step.i];
    var p' := match step
      case End(_) => p.(running := false)
      case Wait(_) => p.(waiter := Sending)
      case Send(_) => p.(waiter := Calling, stateChan := p.stateChan + 1)
      case Report(_, _) => p.(waiter := Done)
      case Signal(_) => p.(listener := Killed, running := false)
      case Leave(_) => p.(listener := Left, stateChan := p.stateChan - 1);
    var s' := s.(procs := s.procs[step.i := p']);
    if step.Report? then HandleExit(s', step.starts) else s'
  }

  /** One successful outer Start, with a budget of `n`. */
  function Initial(n: nat): State {
    State([FRESH], n, 0, 0, false)
  }

  function Execute(n: nat, schedule: seq<Step>): Option<State>
    decreases |schedule|
  {
    if schedule == [] then Some(Initial(n))
    else
      var step := schedule[|schedule| - 1];
      match Execute(n, schedule[..|schedule| - 1])
      case None => None
      case Some(s) => if Enabled(s, step) then Some(Apply(s, step)) else None
  }

  ghost predicate ProcessInvariant(p: Process) {
    && p.stateChan == (if p.waiter.Calling? || p.waiter.Done? then 1 else 0) - (if p.listener.Left? then 1 else 0)
    && (!p.waiter.Waiting? || p.listener.Killed? ==> !p.running)
  }

  ghost predicate Invariant(n: nat, s: State) {
    && 1 <= |s.procs| <= n
    && (forall i :: 0 <= i < |s.procs| ==> ProcessInvariant(s.procs[i]))
    && (forall i :: 0 <= i < |s.procs| - 1 ==> s.procs[i].waiter.Done?)
    && var done := s.procs[|s.procs| - 1].waiter.Done?;
    && s.reports == |s.procs| - (if done then 0 else 1)
    && s.retriesLeft == n - s.reports
    && s.exits == (if s.reports == n then 1 else 0)
    && (done <==> s.restartFailed || s.reports == n)
    && (s.restartFailed ==> s.reports < n)
  }

  lemma StepKeepsInvariant(n: nat, s: State, step: Step)
    requires Invariant(n, s) && Enabled(s, step)
    ensures Invariant(n, Apply(s, step))
  {
    if step.Report? {
      assert step.i == |s.procs| - 1;
    }
  }

  lemma {:induction false} ReachableInvariant(n: nat, schedule: seq<Step>)
    requires n >= 1 && Execute(n, schedule).Some?
    ensures Invariant(n, Execute(n, schedule).value)
    decreases |schedule|
  {
    if schedule != [] {
      var last := |schedule| - 1;
      ReachableInvariant(n, schedule[..last]);
      StepKeepsInvariant(n, Execute(n, schedule[..last]).value, schedule[last]);
    }
  }

  function Finished(procs: seq<Process>): nat {
    if procs == [] then 0 else (if procs[0].waiter.Done? then 1 else 0) + Finished(procs[1..])
  }

  lemma {:induction false} FinishedCount(procs: seq<Process>)
    requires procs != [] && forall i :: 0 <= i < |procs| - 1 ==> procs[i].waiter.Done?
    ensures Finished(procs) == |procs| - if procs[|procs| - 1].waiter.Done? then 0 else 1
  {
    if |procs| > 1 {
      FinishedCount(procs[1..]);
    }
  }

  /**
   * Over every run with budget n: at most n processes are spawned, never two at a time; each
   * has reported at most once; and the final exit handler has been called exactly when n
   * reports are in, and then once.
   */
  lemma RestartBudget(n: nat, schedule: seq<Step>)
    requires n >= 1 && Execute(n, schedule).Some?
    ensures var s := Execute(n, schedule).value;
            && |s.procs| <= n
            && s.reports == Finished(s.procs) <= n
            && s.retriesLeft == n - s.reports
            && (s.exits == 1 <==> s.reports == n) && s.exits <= 1
            && forall i :: 0 <= i < |s.procs| - 1 ==> !s.procs[i].running
  {
    ReachableInvariant(n, schedule);
    FinishedCount(Execute(n, schedule).value.procs);
  }

  /** Writing to the state channel never blocks. */
  lemma StateSendNeverBlocks(n: nat, schedule: seq<Step>, i: nat)
    requires n >= 1 && Execute(n, schedule).Some?
    requires i < |Execute(n, schedule).value.procs| && Execute(n, schedule).value.procs[i].waiter.Sending?
    ensures Enabled(Execute(n, schedule).value, Send(i))
  {
    ReachableInvariant(n, schedule);
  }

  /**
   * When nothing is left to do, the final exit handler has been called if and only if no
   * restart failed: an error of the start handler goes unnoticed.
   */
  lemma ExitHandlerRunsUnlessRestartFails(n: nat, schedule: seq<Step>)
    requires n >= 1 && Execute(n, schedule).Some?
    requires forall step :: !Enabled(Execute(n, schedule).value, step)
    ensures var s := Execute(n, schedule).value; s.exits == 1 <==> !s.restartFailed
  {
    ReachableInvariant(n, schedule);
    var s := Execute(n, schedule).value;
    var last := |s.procs| - 1;
    assert !Enabled(s, End(last)) && !Enabled(s, Wait(last));
    assert !Enabled(s, Send(last)) && !Enabled(s, Report(last, true));
  }

  lemma Extend(n: nat, schedule: seq<Step>, s: State, step: Step, s': State) returns (longer: seq<Step>)
    requires Execute(n, schedule) == Some(s) && Enabled(s, step) && s' == Apply(s, step)
    ensures Execute(n, longer) == Some(s')
  {
    longer := schedule + [step];
    assert longer[..|schedule|] == schedule;
  }

  /** With a budget of two, which the constructor does not set, a process can end and not be started again. */
  lemma RestartCanFail() returns (schedule: seq<Step>)
    ensures Execute(2, schedule).Some?
    ensures var s := Execute(2, schedule).value; s.restartFailed && s.reports == 1 && s.exits == 0
  {
    var s := Initial(2);
    var s' := s.(procs := [FRESH.(running := false)]);
    schedule := Extend(2, [], s, End(0), s');
    s := s.(procs := [Process(false, Sending, Listening, 0)]);
    schedule := Extend(2, schedule, s', Wait(0), s);
    s' := s.(procs := [Process(false, Calling, Listening, 1)]);
    schedule := Extend(2, schedule, s, Send(0), s');
    schedule := Extend(2, schedule, s', Report(0, false), Apply(s', Report(0, false)));
  }

  /** Steps a process and its goroutines can still take, with all processes the budget still allows. */
  function ProcessWork(p: Process): nat {
    (if p.running then 1 else 0)
    + (match p.waiter case Waiting => 3 case Sending => 2 case Calling => 1 case Done => 0)
    + (if p.listener.Listening? then 1 else 0)
  }

  function Work(s: State): int {
    TotalWork(s.procs) + 5 * s.retriesLeft
  }

  function TotalWork(procs: seq<Process>): nat {
    if procs == [] then 0 else ProcessWork(procs[0]) + TotalWork(procs[1..])
  }

  lemma {:induction false} TotalWorkUpdate(procs: seq<Process>, i: nat, p: Process)
    requires i < |procs|
    ensures TotalWork(procs[i := p]) == TotalWork(procs) - ProcessWork(procs[i]) + ProcessWork(p)
  {
    if i > 0 {
      TotalWorkUpdate(procs[1..], i - 1, p);
      assert procs[i := p][1..] == procs[1..][i - 1 := p];
    } else {
      assert procs[i := p][1..] == procs[1..];
    }
  }

  lemma {:induction false} TotalWorkAppend(procs: seq<Process>, p: Process)
    ensures TotalWork(procs + [p]) == TotalWork(procs) + ProcessWork(p)
  {
    if procs != [] {
      TotalWorkAppend(procs[1..], p);
      assert (procs + [p])[1..] == procs[1..] + [p];
    }
  }

  /** No run is infinite: every step leaves less to do. */
  lemma StepMakesProgress(n: nat, s: State, step: Step)
    requires Invariant(n, s) && Enabled(s, step)
    ensures 0 <= Work(Apply(s, step)) < Work(s)
  {
    StepKeepsInvariant(n, s, step);
    var p' := Apply(s, step).procs[step.i];
    TotalWorkUpdate(s.procs, step.i, p');
    TotalWorkAppend(s.procs[step.i := p'], FRESH);
  }
}
