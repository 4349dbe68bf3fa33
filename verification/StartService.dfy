/**
 * Waiting for a freshly started service: up to eight rounds of enabling a one-shot health
 * check and receiving its message, interleaved with the health goroutines.
 */
module StartService {
  import opened Prelude
  import opened HealthMachine
  import opened Sequences

  const ROUNDS := 8

  /** The loop without interleaving: `answers(r)` is the outcome of the probe of round r. */
  method AwaitHealthy(answers: nat -> bool) returns (healthy: bool, probes: nat)
    ensures healthy <==> exists r :: 0 <= r < 8 && answers(r)
    ensures 1 <= probes <= 8 && (healthy ==> answers(probes - 1)) && (!healthy ==> probes == 8)
    ensures forall r :: 0 <= r < probes - 1 ==> !answers(r)
  {
    healthy := false;
    var retries := 0;
    while retries < ROUNDS && !healthy
      invariant 0 <= retries <= ROUNDS && (healthy ==> retries >= 1 && answers(retries - 1))
      invariant forall r :: 0 <= r < (if healthy then retries - 1 else retries) ==> !answers(r)
    {
      healthy := answers(retries);
      retries := retries + 1;
    }
    probes := retries;
  }

  datatype Place =
    | Sleeping(round: nat)    // about to enable the check of the round
    | Enabling(round: nat)    // between loading the flag and the launch
    | Receiving(round: nat)   // reading the message channel
    | Returned                // the service is healthy
    | GaveUp                  // Fatal: not healthy in time

  /** `skipped`: some EnableHealthChecks found the flag still set, and did nothing. */
  datatype Start = Start(h: State, at: Place, skipped: bool)

  datatype Action =
    | Enable | Store | Begin | Take   // the main thread
    | Background(step: Step)          // a health goroutine

  const START := Start(INITIAL, Sleeping(0), false)

  predicate Possible(s: Start, a: Action) {
    match a
    case Enable => s.at.Sleeping?
    case Store => s.at.Enabling? && Enabled(s.h, StoreFlag)
    case Begin => s.at.Enabling? && Enabled(s.h, Launch)
    case Take => s.at.Receiving? && Enabled(s.h, Receive)
    case Background(step) => (step.Probe? || step.Send? || step.Clear?) && Enabled(s.h, step)
  }

  function AfterMessage(round: nat, healthy: bool): Place {
    if healthy then Returned else if round + 1 < ROUNDS then Sleeping(round + 1) else GaveUp
  }

  /** The step of the health machine an action takes. */
  function StepOf(a: Action): Step {
    match a
    case Enable => LoadForEnable(false)
    case Store => StoreFlag
    case Begin => Launch
    case Take => Receive
    case Background(step) => step
  }

  function Do(s: Start, a: Action): Start
    requires Possible(s, a) && Enabled(s.h, StepOf(a))
  {
    var h := Apply(s.h, StepOf(a));
    match a
    case Enable => if s.h.flag then Start(h, Receiving(s.at.round), true) else Start(h, Enabling(s.at.round), s.skipped)
    case Store => s.(h := h)
    case Begin => s.(h := h, at := Receiving(s.at.round))
    case Take => s.(h := h, at := AfterMessage(s.at.round, s.h.inbox[0].healthy))
    case Background(_) => s.(h := h)
  }

  function Perform(actions: seq<Action>): Option<Start>
    decreases |actions|
  {
    if actions == [] then Some(START)
    else
      var a := actions[|actions| - 1];
      match Perform(actions[..|actions| - 1])
      case None => None
      case Some(s) => if Possible(s, a) && Enabled(s.h, StepOf(a)) then Some(Do(s, a)) else None
  }

  function Steps(actions: seq<Action>): seq<Step> {
    if actions == [] then [] else Steps(actions[..|actions| - 1]) + [StepOf(actions[|actions| - 1])]
  }

  /** Whatever startService does is a run of the health machine. */
  lemma {:induction false} RefinesHealthMachine(actions: seq<Action>)
    requires Perform(actions).Some?
    ensures Execute(Steps(actions)) == Some(Perform(actions).value.h)
    decreases |actions|
  {
    if actions != [] {
      var n := |actions| - 1;
      RefinesHealthMachine(actions[..n]);
      var before, after := Perform(actions[..n]).value, Perform(actions).value;
      var _ := Extend(INITIAL, Steps(actions[..n]), before.h, StepOf(actions[n]), after.h);
    }
  }

  /** The round that the main thread is in, or how many rounds there were. */
  function Round(s: Start): nat {
    match s.at
    case Sleeping(r) => r
    case Enabling(r) => r
    case Receiving(r) => r
    case _ => |s.h.taken|
  }

  ghost predicate MessagesInOrder(s: Start) {
    forall k :: 0 <= k < |s.h.taken| ==>
      s.h.taken[k].from == k && (k < |s.h.taken| - 1 || !s.at.Returned? ==> !s.h.taken[k].healthy)
  }

  /** A round that has launched its check: message, goroutine and controller belong to that round. */
  ghost predicate InStep(s: Start) {
    && s.h.stops == 0 && s.h.tokens == 0 && s.h.others == {}
    && (forall i :: 0 <= i < |s.h.gs| ==> !s.h.gs[i].forever)
    && |s.h.taken| == Round(s)
    && MessagesInOrder(s)
    && (if s.at.Enabling? then s.h.controller == EnableStore(false) || s.h.controller == EnableLaunch(false)
        else s.h.controller.Idle?)
    && |s.h.gs| == Round(s) + (if s.at.Receiving? && !s.skipped then 1 else 0)
    && (s.at.Receiving? && !s.skipped ==>
          var g := s.h.gs[|s.h.gs| - 1];
          if g.at.Clearing? || g.at.Ended? then |s.h.inbox| == 1 && s.h.inbox[0].from == s.at.round
          else s.h.inbox == [])
    && (!s.at.Receiving? || s.skipped ==>
          s.h.inbox == [] && (s.h.gs != [] ==> s.h.gs[|s.h.gs| - 1].at.Clearing? || s.h.gs[|s.h.gs| - 1].at.Ended?))
    && (s.skipped ==> s.at.Receiving?)
    && (s.at.Returned? ==> s.h.taken != [] && s.h.taken[|s.h.taken| - 1].healthy)
    && (s.at.GaveUp? ==> |s.h.taken| == ROUNDS)
    && (if s.at.Returned? || s.at.GaveUp? then |s.h.taken| <= ROUNDS else Round(s) < ROUNDS)
  }

  lemma ActionKeepsInStep(s: Start, a: Action)
    requires Invariant(s.h) && InStep(s) && Possible(s, a) && Enabled(s.h, StepOf(a))
    ensures InStep(Do(s, a))
  {
    if a.Background? {
      GoroutineKeepsInStep(s, a.step);
    }
  }

  lemma GoroutineKeepsInStep(s: Start, step: Step)
    requires Invariant(s.h) && InStep(s) && Possible(s, Background(step))
    ensures InStep(Do(s, Background(step)))
  {
    OnlyLastLive(s.h, step.i);
  }

  lemma {:induction false} PerformInvariant(actions: seq<Action>)
    requires Perform(actions).Some?
    ensures var s := Perform(actions).value; Invariant(s.h) && InStep(s)
    decreases |actions|
  {
    RefinesHealthMachine(actions);
    ReachableInvariant(Steps(actions));
    if actions != [] {
      var n := |actions| - 1;
      PerformInvariant(actions[..n]);
      ActionKeepsInStep(Perform(actions[..n]).value, actions[n]);
    }
  }

  /**
   * Whenever startService returns: it launched one probe per round and at most eight, the
   * k-th message it received was that of round k, only the last was healthy, and nothing
   * is left in the message channel.
   */
  lemma ReturnsOnFirstHealthy(actions: seq<Action>)
    requires Perform(actions).Some? && Perform(actions).value.at.Returned?
    ensures var h := Perform(actions).value.h;
            && 1 <= |h.taken| <= 8 && |h.gs| == |h.taken| && h.inbox == []
            && forall k :: 0 <= k < |h.taken| ==> h.taken[k].from == k && (h.taken[k].healthy <==> k == |h.taken| - 1)
  {
    PerformInvariant(actions);
  }

  /** The outcomes of the probes performed so far. */
  function ProbeOutcomes(actions: seq<Action>): seq<Message> {
    Outcomes(Steps(actions))
  }

  /**
   * startService returns if and only if a probe was healthy. Then it was the last one, at
   * most the eighth, all before it were unhealthy, and it was performed in its own round.
   */
  lemma ReturnsIffHealthy(actions: seq<Action>)
    requires Perform(actions).Some? && (Perform(actions).value.at.Returned? || Perform(actions).value.at.GaveUp?)
    ensures var s, o := Perform(actions).value, ProbeOutcomes(actions);
            && 1 <= |o| <= 8 && (forall k :: 0 <= k < |o| ==> o[k].from == k)
            && (s.at.Returned? <==> o[|o| - 1].healthy)
            && (forall k :: 0 <= k < |o| - 1 ==> !o[k].healthy)
            && (s.at.GaveUp? ==> |o| == 8)
  {
    var s := Perform(actions).value;
    PerformInvariant(actions);
    RefinesHealthMachine(actions);
    MessagesAreOutcomes(Steps(actions));
    AppendNothing(s.h.taken);
  }

  /** While it has not come to an end, no probe was healthy whose message has been received. */
  lemma GoesOnWhileUnhealthy(actions: seq<Action>)
    requires Perform(actions).Some? && !Perform(actions).value.at.Returned? && !Perform(actions).value.at.GaveUp?
    ensures var s, o := Perform(actions).value, ProbeOutcomes(actions);
            && |s.h.taken| < 8 && |s.h.taken| <= |o| <= |s.h.taken| + 1
            && forall k :: 0 <= k < |s.h.taken| ==> s.h.taken[k] == o[k] == Message(k, false)
  {
    var s, o := Perform(actions).value, ProbeOutcomes(actions);
    PerformInvariant(actions);
    RefinesHealthMachine(actions);
    MessagesAreOutcomes(Steps(actions));
    assert o == s.h.taken + (s.h.inbox + Unsent(s.h.gs));
  }

  /** It gives up only after eight probes that were all unhealthy. */
  lemma GivesUpAfterEight(actions: seq<Action>)
    requires Perform(actions).Some? && Perform(actions).value.at.GaveUp?
    ensures var h := Perform(actions).value.h;
            && |h.taken| == |h.gs| == 8 && h.inbox == []
            && forall k :: 0 <= k < |h.taken| ==> h.taken[k] == Message(k, false)
  {
    PerformInvariant(actions);
  }

  /**
   * A round hangs if and only if the goroutine of the round before has not cleared the flag
   * when EnableHealthChecks loads it: the check is not launched, no message will ever come,
   * and every later state is still the same receive.
   */
  lemma SkippedRoundHangs(actions: seq<Action>, a: Action)
    requires Perform(actions).Some?
    requires var s := Perform(actions).value; Possible(s, a) && Enabled(s.h, StepOf(a))
    ensures var s := Perform(actions).value;
            && (s.skipped ==> Do(s, a).skipped && Do(s, a).at == s.at && Do(s, a).h.inbox == [])
            && (!s.skipped ==> (Do(s, a).skipped <==>
                  a.Enable? && s.h.gs != [] && s.h.gs[|s.h.gs| - 1].at.Clearing?))
  {
    PerformInvariant(actions);
    ActionKeepsInStep(Perform(actions).value, a);
  }

  lemma ExtendRun(actions: seq<Action>, s: Start, a: Action, s': Start) returns (longer: seq<Action>)
    requires Perform(actions) == Some(s) && Possible(s, a) && Enabled(s.h, StepOf(a)) && s' == Do(s, a)
    ensures Perform(longer) == Some(s')
  {
    longer := actions + [a];
    assert longer[..|actions|] == actions;
  }

  /** A run in which the first check has been launched. */
  lemma FirstLaunch() returns (actions: seq<Action>)
    ensures Perform(actions)
         == Some(Start(INITIAL.(flag := true, gs := [Goroutine(false, Probing, 0, 0)]), Receiving(0), false))
  {
    var h := INITIAL.(controller := EnableStore(false));
    actions := ExtendRun([], START, Enable, Start(h, Enabling(0), false));
    var h' := INITIAL.(flag := true, controller := EnableLaunch(false));
    actions := ExtendRun(actions, Start(h, Enabling(0), false), Store, Start(h', Enabling(0), false));
    h := INITIAL.(flag := true, gs := [Goroutine(false, Probing, 0, 0)]);
    actions := ExtendRun(actions, Start(h', Enabling(0), false), Begin, Start(h, Receiving(0), false));
  }

  const SENT := State(true, 0, [Message(0, false)], [Goroutine(false, Clearing, 1, 0)], Idle, 0, 0, [], {})

  /** Its probe is unhealthy, and the goroutine has yet to clear the flag. */
  lemma FirstMessage() returns (actions: seq<Action>)
    ensures Perform(actions) == Some(Start(SENT, Receiving(0), false))
  {
    actions := FirstLaunch();
    var h := INITIAL.(flag := true, gs := [Goroutine(false, Probing, 0, 0)]);
    var h' := h.(gs := [Goroutine(false, Sending(false), 0, 0)]);
    var s, s' := Start(h, Receiving(0), false), Start(h', Receiving(0), false);
    actions := ExtendRun(actions, s, Background(Probe(0, false)), s');
    actions := ExtendRun(actions, s', Background(Send(0)), Start(SENT, Receiving(0), false));
  }

  /** This happens: the second round begins before the flag is cleared. */
  lemma SkippedRoundReached() returns (actions: seq<Action>)
    ensures Perform(actions).Some? && Perform(actions).value.skipped && Perform(actions).value.at == Receiving(1)
  {
    actions := FirstMessage();
    var h := SENT.(inbox := [], taken := [Message(0, false)]);
    actions := ExtendRun(actions, Start(SENT, Receiving(0), false), Take, Start(h, Sleeping(1), false));
    actions := ExtendRun(actions, Start(h, Sleeping(1), false), Enable, Start(h, Receiving(1), true));
  }

  /** A round that launched its check does not hang: some goroutine or the main thread can act until it is over. */
  lemma LaunchedRoundGoesOn(actions: seq<Action>)
    requires Perform(actions).Some? && !Perform(actions).value.skipped
    requires var at := Perform(actions).value.at; !at.Returned? && !at.GaveUp?
    ensures exists a :: Possible(Perform(actions).value, a) && Enabled(Perform(actions).value.h, StepOf(a))
  {
    PerformInvariant(actions);
    var s := Perform(actions).value;
    var last := |s.h.gs| - 1;
    var a :=
      if s.at.Sleeping? then Enable
      else if s.at.Enabling? then (if s.h.controller.EnableStore? then Store else Begin)
      else if s.h.inbox != [] then Take
      else if s.h.gs[last].at.Probing? then Background(Probe(last, true))
      else Background(Send(last));
    assert Possible(s, a) && Enabled(s.h, StepOf(a));
  }
}
