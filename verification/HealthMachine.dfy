/**
 * Health checks of one service, step by step: the running flag, the stop channel, the
 * message channel, the health goroutines, the one thread that enables and stops them, and
 * any other threads that stop them. Loading and storing the flag, sending, and receiving
 * are separate steps, so every interleaving of the threads is a schedule.
 */
module HealthMachine {
  import opened Prelude
  import opened Sequences
  import opened Services

  const CHANNEL_CAPACITY := 2

  datatype Message = Message(from: nat, healthy: bool)

  datatype Position =
    | Probing                  // performing the request
    | Sending(healthy: bool)   // writing the result to the message channel
    | Clearing                 // one-shot: resetting the flag
    | Selecting                // forever: waiting for a stop token or the timer
    | Ended

  /** `late` counts messages sent while a stop token was waiting. */
  datatype Goroutine = Goroutine(forever: bool, at: Position, sent: nat, late: nat)

  datatype Controller =
    | Idle
    | EnableStore(forever: bool)   // found the flag clear
    | EnableLaunch(forever: bool)  // has set the flag
    | StopSend                     // found the flag set

  /**
   * `stops` counts calls of Stop, `seen` those that wrote a token; `taken` are the messages
   * received; `others` are the other threads in Stop that found the flag set.
   */
  datatype State = State(flag: bool, tokens: nat, inbox: seq<Message>, gs: seq<Goroutine>, controller: Controller,
                         stops: nat, seen: nat, taken: seq<Message>, others: set<Thread>)

  const INITIAL := State(false, 0, [], [], Idle, 0, 0, [], {})

  datatype Step =
    | LoadForEnable(forever: bool)
    | StoreFlag
    | Launch
    | LoadForStop
    | SendToken
    | OtherLoad(t: Thread)
    | OtherSend(t: Thread)
    | Receive
    | Probe(i: nat, healthy: bool)
    | Send(i: nat)
    | Clear(i: nat)
    | TakeToken(i: nat)
    | Tick(i: nat)

  predicate IsAt(s: State, i: nat, at: Position) {
    i < |s.gs| && s.gs[i].at == at
  }

  /** The timer of a fresh select is not ready, so a waiting token is taken first. */
  predicate Enabled(s: State, step: Step) {
    match step
    case LoadForEnable(_) => s.controller.Idle?
    case StoreFlag => s.controller.EnableStore?
    case Launch => s.controller.EnableLaunch?
    case LoadForStop => s.controller.Idle?
    case SendToken => s.controller.StopSend? && s.tokens < CHANNEL_CAPACITY
    case OtherLoad(t) => t !in s.others
    case OtherSend(t) => t in s.others && s.tokens < CHANNEL_CAPACITY
    case Receive => s.inbox != []
    case Probe(i, _) => IsAt(s, i, Probing)
    case Send(i) => i < |s.gs| && s.gs[i].at.Sending? && |s.inbox| < CHANNEL_CAPACITY
    case Clear(i) => IsAt(s, i, Clearing)
    case TakeToken(i) => IsAt(s, i, Selecting) && s.tokens > 0
    case Tick(i) => IsAt(s, i, Selecting) && s.tokens == 0
  }

  function Move(s: State, i: nat, at: Position): State
    requires i < |s.gs|
  {
    s.(gs := s.gs[i := s.gs[i].(at := at)])
  }

  function Apply(s: State, step: Step): State
    requires Enabled(s, step)
  {
    match step
    case LoadForEnable(forever) => if s.flag then s else s.(controller := EnableStore(forever))
    case StoreFlag => s.(flag := true, controller := EnableLaunch(s.controller.forever))
    case Launch => s.(gs := s.gs + [Goroutine(s.controller.forever, Probing, 0, 0)], controller := Idle)
    case LoadForStop => s.(stops := s.stops + 1, controller := if s.flag then StopSend else Idle)
    case SendToken => s.(tokens := s.tokens + 1, seen := s.seen + 1, controller := Idle)
    case OtherLoad(t) => s.(stops := s.stops + 1, others := if s.flag then s.others + {t} else s.others)
    case OtherSend(t) => s.(tokens := s.tokens + 1, seen := s.seen + 1, others := s.others - {t})
    case Receive => s.(inbox := s.inbox[1..], taken := s.taken + [s.inbox[0]])
    case Probe(i, healthy) => Move(s, i, Sending(healthy))
    case Send(i) =>
      var g := s.gs[i];
      var g' := Goroutine(g.forever, if g.forever then Selecting else Clearing, g.sent + 1,
                          g.late + if s.tokens > 0 then 1 else 0);
      s.(gs := s.gs[i := g'], inbox := s.inbox + [Message(i, g.at.healthy)])
    case Clear(i) => Move(s, i, Ended).(flag := false)
    case TakeToken(i) => Move(s, i, Ended).(tokens := s.tokens - 1)
    case Tick(i) => Move(s, i, Probing)
  }

  function ExecuteFrom(start: State, schedule: seq<Step>): Option<State>
    decreases |schedule|
  {
    if schedule == [] then Some(start)
    else
      var step := schedule[|schedule| - 1];
      match ExecuteFrom(start, schedule[..|schedule| - 1])
      case None => None
      case Some(s) => if Enabled(s, step) then Some(Apply(s, step)) else None
  }

  function Execute(schedule: seq<Step>): Option<State> {
    ExecuteFrom(INITIAL, schedule)
  }

  // ---- What every step keeps

  predicate Live(g: Goroutine) {
    !g.at.Ended?
  }

  /** All goroutines before the last are finished one-shot checks. */
  ghost predicate Sequential(s: State) {
    forall i :: 0 <= i < |s.gs| - 1 ==> s.gs[i] == Goroutine(false, Ended, 1, s.gs[i].late)
  }

  ghost predicate GoroutineInvariant(g: Goroutine, tokens: nat) {
    && (if g.forever then !g.at.Clearing?
        else !g.at.Selecting? && g.sent == if g.at.Clearing? || g.at.Ended? then 1 else 0)
    && (g.forever ==>
          && g.late <= 1
          && (g.at.Probing? || g.at.Sending? ==> g.late == 0)
          && (g.at.Selecting? && tokens == 0 ==> g.late == 0))
  }

  ghost predicate Invariant(s: State) {
    && Sequential(s)
    && (s.gs == [] ==> (s.flag <==> s.controller.EnableLaunch?) && s.tokens == s.seen)
    && (s.gs != [] ==>
          var g := s.gs[|s.gs| - 1];
          && GoroutineInvariant(g, s.tokens)
          && (s.flag <==> s.controller.EnableLaunch? || Live(g) || g.forever)
          && (s.controller.EnableStore? || s.controller.EnableLaunch? ==> !Live(g) && !g.forever)
          && s.tokens + (if g.forever && g.at.Ended? then 1 else 0) == s.seen)
    && (s.controller.EnableStore? ==> !s.flag)
    && s.tokens <= CHANNEL_CAPACITY && |s.inbox| <= CHANNEL_CAPACITY
    && s.seen + (if s.controller.StopSend? then 1 else 0) + |s.others| <= s.stops
  }

  lemma StepKeepsInvariant(s: State, step: Step)
    requires Invariant(s) && Enabled(s, step)
    ensures Invariant(Apply(s, step))
  {
    match step
    case Probe(i, _) => OnlyLastLive(s, i);
    case Send(i) => OnlyLastLive(s, i);
    case Clear(i) => OnlyLastLive(s, i);
    case TakeToken(i) => OnlyLastLive(s, i);
    case Tick(i) => OnlyLastLive(s, i);
    case _ =>
  }

  lemma OnlyLastLive(s: State, i: nat)
    requires Sequential(s) && i < |s.gs| && Live(s.gs[i])
    ensures i == |s.gs| - 1
  {
  }

  lemma {:induction false} ReachableInvariant(schedule: seq<Step>)
    requires Execute(schedule).Some?
    ensures Invariant(Execute(schedule).value)
    decreases |schedule|
  {
    if schedule != [] {
      var last := |schedule| - 1;
      ReachableInvariant(schedule[..last]);
      StepKeepsInvariant(Execute(schedule[..last]).value, schedule[last]);
    }
  }

  /**
   * In every reachable state at most one health goroutine is live, a live one implies that
   * the flag is set, and a clear flag that every goroutine has sent its one message and ended.
   */
  lemma FlagGuardsGoroutines(schedule: seq<Step>)
    requires Execute(schedule).Some?
    ensures var s := Execute(schedule).value;
            && (forall i, j :: 0 <= i < |s.gs| && 0 <= j < |s.gs| && Live(s.gs[i]) && Live(s.gs[j]) ==> i == j)
            && (forall i :: 0 <= i < |s.gs| && Live(s.gs[i]) ==> s.flag)
            && (!s.flag ==> forall i :: 0 <= i < |s.gs| ==> s.gs[i].at.Ended? && !s.gs[i].forever && s.gs[i].sent == 1)
  {
    ReachableInvariant(schedule);
  }

  // ---- Messages

  function Sent(gs: seq<Goroutine>): nat {
    if gs == [] then 0 else Sent(gs[..|gs| - 1]) + gs[|gs| - 1].sent
  }

  /** A message comes from a goroutine that exists, and none comes after a message of a later one. */
  ghost predicate InOrder(messages: seq<Message>, n: nat) {
    && (forall k :: 0 <= k < |messages| ==> messages[k].from < n)
    && (forall k :: 0 < k < |messages| ==> messages[k - 1].from <= messages[k].from)
  }

  ghost predicate MessagesKept(s: State) {
    Sent(s.gs) == |s.taken| + |s.inbox| && InOrder(s.taken + s.inbox, |s.gs|)
  }

  lemma SentUpdate(gs: seq<Goroutine>, g: Goroutine)
    requires gs != []
    ensures Sent(gs[|gs| - 1 := g]) == Sent(gs) - gs[|gs| - 1].sent + g.sent
  {
    assert gs[|gs| - 1 := g][..|gs| - 1] == gs[..|gs| - 1];
  }

  lemma SentAppend(gs: seq<Goroutine>, g: Goroutine)
    ensures Sent(gs + [g]) == Sent(gs) + g.sent
  {
    assert (gs + [g])[..|gs|] == gs;
  }

  /** A step that moves one goroutine, or none, and leaves its message count and the channel alone. */
  lemma SameMessages(s: State, s': State)
    requires MessagesKept(s) && s'.taken + s'.inbox == s.taken + s.inbox
    requires s'.gs == s.gs
          || (s.gs != [] &&
              exists g: Goroutine :: g.sent == s.gs[|s.gs| - 1].sent && s'.gs == s.gs[|s.gs| - 1 := g])
    ensures MessagesKept(s')
  {
    if s'.gs != s.gs {
      SentUpdate(s.gs, s'.gs[|s.gs| - 1]);
    }
  }

  lemma SendKeepsMessages(s: State, i: nat)
    requires Invariant(s) && MessagesKept(s) && Enabled(s, Send(i))
    ensures MessagesKept(Apply(s, Send(i)))
  {
    OnlyLastLive(s, i);
    var s' := Apply(s, Send(i));
    SentUpdate(s.gs, s'.gs[i]);
    Assoc(s.taken, s.inbox, [Message(i, s.gs[i].at.healthy)]);
  }

  lemma StepKeepsMessages(s: State, step: Step)
    requires Invariant(s) && MessagesKept(s) && Enabled(s, step)
    ensures MessagesKept(Apply(s, step))
  {
    if step.Send? {
      SendKeepsMessages(s, step.i);
    } else if step.Launch? {
      SentAppend(s.gs, Apply(s, step).gs[|s.gs|]);
    } else {
      if step.Receive? {
        assert Apply(s, step).taken + Apply(s, step).inbox == s.taken + s.inbox;
      } else if step.Probe? || step.Clear? || step.TakeToken? || step.Tick? {
        OnlyLastLive(s, step.i);
      }
      SameMessages(s, Apply(s, step));
    }
  }

  /** No message is lost or doubled, and messages are received in the order of the launches. */
  lemma {:induction false} MessagesConserved(schedule: seq<Step>)
    requires Execute(schedule).Some?
    ensures MessagesKept(Execute(schedule).value)
    decreases |schedule|
  {
    if schedule != [] {
      var last := |schedule| - 1;
      MessagesConserved(schedule[..last]);
      ReachableInvariant(schedule[..last]);
      StepKeepsMessages(Execute(schedule[..last]).value, schedule[last]);
    }
  }

  /** The outcomes of the probes in a schedule, each with the goroutine that performed it. */
  function Outcomes(schedule: seq<Step>): seq<Message> {
    if schedule == [] then []
    else
      var step := schedule[|schedule| - 1];
      Outcomes(schedule[..|schedule| - 1]) + if step.Probe? then [Message(step.i, step.healthy)] else []
  }

  /** What the last goroutine has still to send: the outcome of its probe. */
  function Unsent(gs: seq<Goroutine>): seq<Message> {
    if gs != [] && gs[|gs| - 1].at.Sending? then [Message(|gs| - 1, gs[|gs| - 1].at.healthy)] else []
  }

  ghost predicate OutcomesKept(s: State, outcomes: seq<Message>) {
    s.taken + s.inbox + Unsent(s.gs) == outcomes
  }

  lemma SendKeepsOutcomes(s: State, i: nat, outcomes: seq<Message>)
    requires Invariant(s) && Enabled(s, Send(i)) && OutcomesKept(s, outcomes)
    ensures OutcomesKept(Apply(s, Send(i)), outcomes)
  {
    OnlyLastLive(s, i);
    Assoc(s.taken, s.inbox, Unsent(s.gs));
    AppendNothing(outcomes);
  }

  lemma ProbeKeepsOutcomes(s: State, i: nat, healthy: bool, outcomes: seq<Message>)
    requires Invariant(s) && Enabled(s, Probe(i, healthy)) && OutcomesKept(s, outcomes)
    ensures OutcomesKept(Apply(s, Probe(i, healthy)), outcomes + [Message(i, healthy)])
  {
    OnlyLastLive(s, i);
    AppendNothing(s.taken + s.inbox);
  }

  lemma StepKeepsOutcomes(s: State, step: Step, outcomes: seq<Message>)
    requires Invariant(s) && Enabled(s, step) && OutcomesKept(s, outcomes) && !step.Probe?
    ensures OutcomesKept(Apply(s, step), outcomes)
  {
    var s' := Apply(s, step);
    match step
    case Send(i) => SendKeepsOutcomes(s, i, outcomes);
    case Receive => assert s'.taken + s'.inbox == s.taken + s.inbox;
    case Clear(i) => OnlyLastLive(s, i);
    case TakeToken(i) => OnlyLastLive(s, i);
    case Tick(i) => OnlyLastLive(s, i);
    case _ =>
  }

  /**
   * In every reachable state the messages received and those in the channel are the outcomes
   * of all probes in order, with their true health, but for one that has yet to be sent.
   */
  lemma {:induction false} MessagesAreOutcomes(schedule: seq<Step>)
    requires Execute(schedule).Some?
    ensures var s := Execute(schedule).value; s.taken + s.inbox + Unsent(s.gs) == Outcomes(schedule)
    decreases |schedule|
  {
    if schedule != [] {
      var last := |schedule| - 1;
      var before := Execute(schedule[..last]).value;
      MessagesAreOutcomes(schedule[..last]);
      ReachableInvariant(schedule[..last]);
      if schedule[last].Probe? {
        ProbeKeepsOutcomes(before, schedule[last].i, schedule[last].healthy, Outcomes(schedule[..last]));
      } else {
        AppendNothing(Outcomes(schedule[..last]));
        StepKeepsOutcomes(before, schedule[last], Outcomes(schedule[..last]));
      }
    }
  }

  lemma {:induction false} SentByAll(gs: seq<Goroutine>)
    requires forall i :: 0 <= i < |gs| ==> gs[i].sent == 1
    ensures Sent(gs) == |gs|
  {
    if gs != [] {
      SentByAll(gs[..|gs| - 1]);
    }
  }

  /**
   * While the flag is clear every check has sent its message, so nothing is left in the
   * channel if and only if as many messages have been received as checks were launched.
   */
  lemma ClearFlagCountsMessages(schedule: seq<Step>)
    requires Execute(schedule).Some? && !Execute(schedule).value.flag
    ensures var s := Execute(schedule).value;
            |s.taken| + |s.inbox| == |s.gs| && (s.inbox == [] <==> |s.taken| == |s.gs|)
  {
    FlagGuardsGoroutines(schedule);
    MessagesConserved(schedule);
    SentByAll(Execute(schedule).value.gs);
  }

  // ---- Stop tokens

  function ForeverEnded(gs: seq<Goroutine>): nat {
    if gs == [] then 0 else (if gs[0].forever && gs[0].at.Ended? then 1 else 0) + ForeverEnded(gs[1..])
  }

  lemma {:induction false} ForeverEndedIsLast(gs: seq<Goroutine>)
    requires gs != [] && forall i :: 0 <= i < |gs| - 1 ==> !gs[i].forever
    ensures ForeverEnded(gs) == if gs[|gs| - 1].forever && gs[|gs| - 1].at.Ended? then 1 else 0
  {
    if |gs| > 1 {
      ForeverEndedIsLast(gs[1..]);
    }
  }

  /**
   * The tokens in the channel are those written minus one for each forever goroutine that
   * ended; at most one ever does.
   */
  lemma TokensConserved(schedule: seq<Step>)
    requires Execute(schedule).Some?
    ensures var s := Execute(schedule).value;
            s.tokens == s.seen - ForeverEnded(s.gs) && ForeverEnded(s.gs) <= 1 && s.seen <= s.stops
  {
    ReachableInvariant(schedule);
    if Execute(schedule).value.gs != [] {
      ForeverEndedIsLast(Execute(schedule).value.gs);
    }
  }

  /** Some thread in Stop finds the channel full. */
  predicate Blocked(s: State) {
    (s.controller.StopSend? || s.others != {}) && s.tokens >= CHANNEL_CAPACITY
  }

  /**
   * A thread that is about to write its token blocks if and only if two tokens more were
   * written than goroutines ended.
   */
  lemma BlockedIff(schedule: seq<Step>)
    requires Execute(schedule).Some?
    ensures var s := Execute(schedule).value;
            Blocked(s) <==> (s.controller.StopSend? || s.others != {}) && s.seen - ForeverEnded(s.gs) >= 2
  {
    TokensConserved(schedule);
  }

  /** With at most two calls of Stop, by any threads, writing a token never blocks. */
  lemma TwoStopsNeverBlock(s: State)
    requires Invariant(s) && s.stops <= 2
    ensures !Blocked(s)
  {
    if s.others != {} {
      var t :| t in s.others;
      assert |s.others| == |s.others - {t}| + 1;
    }
  }

  ghost predicate ForeverEndedLast(s: State) {
    s.gs != [] && s.gs[|s.gs| - 1].forever && s.gs[|s.gs| - 1].at.Ended?
  }

  /**
   * Nobody will ever take a token again: the forever goroutine is gone, or there is none and
   * the thread that could launch one is itself in Stop.
   */
  ghost predicate NoTaker(s: State) {
    ForeverEndedLast(s) || (s.controller.StopSend? && (s.gs == [] || !s.gs[|s.gs| - 1].forever))
  }

  /** A Stop that blocks for good. */
  ghost predicate Stuck(s: State) {
    Blocked(s) && NoTaker(s)
  }

  lemma StepKeepsStuck(s: State, step: Step)
    requires Invariant(s) && Stuck(s) && Enabled(s, step)
    ensures var s' := Apply(s, step);
            Stuck(s') && s.others <= s'.others && (s.controller.StopSend? ==> s'.controller.StopSend?)
  {
    match step
    case Probe(i, _) => OnlyLastLive(s, i);
    case Send(i) => OnlyLastLive(s, i);
    case Clear(i) => OnlyLastLive(s, i);
    case TakeToken(i) => OnlyLastLive(s, i);
    case Tick(i) => OnlyLastLive(s, i);
    case _ =>
  }

  /** Whatever happens from then on, no thread that is blocked gets on. */
  lemma {:induction false} StuckForever(s: State, later: seq<Step>)
    requires Invariant(s) && Stuck(s) && ExecuteFrom(s, later).Some?
    ensures var s' := ExecuteFrom(s, later).value;
            Invariant(s') && Stuck(s') && s.others <= s'.others && (s.controller.StopSend? ==> s'.controller.StopSend?)
    decreases |later|
  {
    if later != [] {
      var last := |later| - 1;
      StuckForever(s, later[..last]);
      StepKeepsStuck(ExecuteFrom(s, later[..last]).value, later[last]);
      StepKeepsInvariant(ExecuteFrom(s, later[..last]).value, later[last]);
    }
  }

  /**
   * Stop is not without effect on a stopped service: after the goroutine has ended, the third
   * such Stop blocks for good.
   */
  lemma RepeatedStopBlocks(s: State)
    requires Invariant(s) && s.controller.Idle? && ForeverEndedLast(s)
    ensures Enabled(s, LoadForStop) && Apply(s, LoadForStop).controller.StopSend?
    ensures Stuck(Apply(s, LoadForStop)) <==> s.tokens >= CHANNEL_CAPACITY
    ensures s.tokens >= CHANNEL_CAPACITY <==> s.seen >= 3
  {
  }

  /** How many messages goroutine `i` sends in a schedule, and how many of them while a token is waiting. */
  function Sends(schedule: seq<Step>, i: nat): nat {
    if schedule == [] then 0
    else Sends(schedule[..|schedule| - 1], i) + if schedule[|schedule| - 1] == Send(i) then 1 else 0
  }

  function LateSends(schedule: seq<Step>, i: nat): nat
    requires Execute(schedule).Some?
    decreases |schedule|
  {
    if schedule == [] then 0
    else
      var last := |schedule| - 1;
      LateSends(schedule[..last], i)
      + if schedule[last] == Send(i) && Execute(schedule[..last]).value.tokens > 0 then 1 else 0
  }

  /** The counters of a goroutine count them. */
  lemma {:induction false} CountersCount(schedule: seq<Step>, i: nat)
    requires Execute(schedule).Some?
    ensures var gs := Execute(schedule).value.gs;
            if i < |gs| then gs[i].sent == Sends(schedule, i) && gs[i].late == LateSends(schedule, i)
            else Sends(schedule, i) == 0 && LateSends(schedule, i) == 0
    decreases |schedule|
  {
    if schedule != [] {
      CountersCount(schedule[..|schedule| - 1], i);
      StepCounts(Execute(schedule[..|schedule| - 1]).value, schedule[|schedule| - 1], i);
    }
  }

  lemma StepCounts(s: State, step: Step, i: nat)
    requires Enabled(s, step)
    ensures var gs, gs' := s.gs, Apply(s, step).gs;
            && |gs| <= |gs'|
            && (step == Send(i) ==> i < |gs|)
            && (i < |gs| ==>
                  && gs'[i].sent == gs[i].sent + (if step == Send(i) then 1 else 0)
                  && gs'[i].late == gs[i].late + (if step == Send(i) && s.tokens > 0 then 1 else 0))
            && (|gs| <= i < |gs'| ==> gs'[i].sent == gs'[i].late == 0)
  {
  }

  /** While a token is in the channel a forever goroutine sends at most one message, in all its life. */
  lemma AtMostOneLateMessage(schedule: seq<Step>, i: nat)
    requires Execute(schedule).Some? && i < |Execute(schedule).value.gs|
    requires Execute(schedule).value.gs[i].forever
    ensures LateSends(schedule, i) <= 1
  {
    ReachableInvariant(schedule);
    CountersCount(schedule, i);
    assert i == |Execute(schedule).value.gs| - 1;
  }

  /** Once a forever goroutine has ended, the flag stays set and no check is ever launched again. */
  lemma EndedForeverIsFinal(s: State, step: Step)
    requires Invariant(s) && Enabled(s, step) && ForeverEndedLast(s)
    ensures Apply(s, step).gs == s.gs && Apply(s, step).flag
  {
    match step
    case Probe(i, _) => OnlyLastLive(s, i);
    case Send(i) => OnlyLastLive(s, i);
    case Clear(i) => OnlyLastLive(s, i);
    case TakeToken(i) => OnlyLastLive(s, i);
    case Tick(i) => OnlyLastLive(s, i);
    case _ =>
  }

  lemma Extend(start: State, schedule: seq<Step>, s: State, step: Step, s': State) returns (longer: seq<Step>)
    requires ExecuteFrom(start, schedule) == Some(s) && Enabled(s, step) && s' == Apply(s, step)
    ensures longer == schedule + [step] && ExecuteFrom(start, longer) == Some(s')
  {
    longer := schedule + [step];
    assert longer[..|schedule|] == schedule;
  }
}
