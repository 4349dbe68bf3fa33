/** When a forever check ends, and runs in which a stop token arrives too early or too often. */
module StopTokens {
  import opened Prelude
  import opened HealthMachine

  /** No thread calls Stop. */
  ghost predicate NoStop(schedule: seq<Step>) {
    forall k :: 0 <= k < |schedule| ==> !schedule[k].LoadForStop? && !schedule[k].OtherLoad?
  }

  /** A state in which a forever check can be enabled and will be launched. */
  ghost predicate Launchable(s: State) {
    Invariant(s) && s.controller.Idle? && !s.flag
  }

  /** No token waits for the check that is enabled in `s`, and none is on its way. */
  predicate NoToken(s: State) {
    s.tokens == 0 && s.others == {}
  }

  /** What a check enabled in `s` leads to. */
  function After(s: State, later: seq<Step>): Option<State>
    requires s.controller.Idle?
  {
    ExecuteFrom(Apply(s, LoadForEnable(true)), later)
  }

  /** The check enabled in `s` has been launched and has ended. */
  ghost predicate CheckEnded(s: State, s': State) {
    |s'.gs| == |s.gs| + 1 && s'.gs[|s.gs|].forever && s'.gs[|s.gs|].at.Ended?
  }

  /** The check enabled when there were `n` goroutines is about to be launched, or runs. */
  ghost predicate OnItsWay(n: nat, s: State) {
    if |s.gs| == n then
      s.controller == EnableStore(true) || s.controller == EnableLaunch(true)
    else
      |s.gs| == n + 1 && s.gs[n].forever && s.flag
  }

  lemma StepKeepsOnItsWay(n: nat, s: State, step: Step)
    requires Invariant(s) && Enabled(s, step) && OnItsWay(n, s)
    ensures OnItsWay(n, Apply(s, step))
  {
    if |s.gs| == n + 1 && step.Clear? {
      OnlyLastLive(s, step.i);
    }
  }

  /** The check enabled when there were `n` goroutines has not ended, and no token is there or on its way. */
  ghost predicate Undisturbed(n: nat, s: State) {
    OnItsWay(n, s) && NoToken(s) && !s.controller.StopSend? && (|s.gs| > n ==> !s.gs[n].at.Ended?)
  }

  lemma StepKeepsUndisturbed(n: nat, s: State, step: Step)
    requires Invariant(s) && Enabled(s, step) && Undisturbed(n, s) && !step.LoadForStop? && !step.OtherLoad?
    ensures Undisturbed(n, Apply(s, step))
  {
    StepKeepsOnItsWay(n, s, step);
  }

  /** Without a Stop since it was enabled, and without a token from before, a forever check never ends. */
  lemma {:induction false} NoTokenNoEnd(s: State, later: seq<Step>)
    requires Launchable(s) && NoToken(s) && NoStop(later) && After(s, later).Some?
    ensures var s' := After(s, later).value;
            Invariant(s') && Undisturbed(|s.gs|, s') && !CheckEnded(s, s')
    decreases |later|
  {
    if later == [] {
      StepKeepsInvariant(s, LoadForEnable(true));
    } else {
      var last := |later| - 1;
      var before := After(s, later[..last]).value;
      NoTokenNoEnd(s, later[..last]);
      StepKeepsInvariant(before, later[last]);
      StepKeepsUndisturbed(|s.gs|, before, later[last]);
    }
  }

  /** A message is received if the channel is full. */
  lemma MakeRoom(start: State, later: seq<Step>, s: State) returns (longer: seq<Step>, s': State)
    requires ExecuteFrom(start, later) == Some(s) && NoStop(later) && |s.inbox| <= CHANNEL_CAPACITY
    ensures NoStop(longer) && ExecuteFrom(start, longer) == Some(s')
    ensures |s'.inbox| < CHANNEL_CAPACITY && s'.gs == s.gs && s'.tokens == s.tokens
  {
    longer, s' := later, s;
    if |s.inbox| == CHANNEL_CAPACITY {
      s' := Apply(s, Receive);
      longer := Extend(start, later, s, Receive, s');
    }
  }

  /** A probe of a new forever check ends, its message is sent, and the waiting token is taken. */
  lemma ProbeAndEnd(start: State, later: seq<Step>, s: State, healthy: bool) returns (longer: seq<Step>, s': State)
    requires ExecuteFrom(start, later) == Some(s) && NoStop(later) && |s.inbox| < CHANNEL_CAPACITY
    requires s.tokens > 0 && s.gs != [] && s.gs[|s.gs| - 1] == Goroutine(true, Probing, 0, 0)
    ensures NoStop(longer) && ExecuteFrom(start, longer) == Some(s')
    ensures |s'.gs| == |s.gs| && s'.gs[|s.gs| - 1] == Goroutine(true, Ended, 1, 1)
  {
    var g := |s.gs| - 1;
    var s1 := s.(gs := s.gs[g := Goroutine(true, Sending(healthy), 0, 0)]);
    longer := Extend(start, later, s, Probe(g, healthy), s1);
    var s2 := Apply(s1, Send(g));
    assert s2.gs[g] == Goroutine(true, Selecting, 1, 1) && s2.tokens == s.tokens;
    longer := Extend(start, longer, s1, Send(g), s2);
    s' := Apply(s2, TakeToken(g));
    longer := Extend(start, longer, s2, TakeToken(g), s');
  }

  /** Enabling a check and launching it; a thread that has found the flag set may write its token then. */
  lemma LaunchCheck(s: State) returns (later: seq<Step>, s': State)
    requires Launchable(s) && !NoToken(s)
    ensures NoStop(later) && After(s, later) == Some(s') && |s'.inbox| <= CHANNEL_CAPACITY
    ensures s'.tokens > 0 && s'.gs == s.gs + [Goroutine(true, Probing, 0, 0)]
  {
    var s1 := s.(controller := EnableStore(true));
    var s2 := s.(flag := true, controller := EnableLaunch(true));
    later := Extend(s1, [], s1, StoreFlag, s2);
    s' := s.(flag := true, gs := s.gs + [Goroutine(true, Probing, 0, 0)]);
    later := Extend(s1, later, s2, Launch, s');
    if s.tokens == 0 {
      var t :| t in s.others;
      var s3 := s'.(tokens := s.tokens + 1, seen := s.seen + 1, others := s.others - {t});
      later := Extend(s1, later, s', OtherSend(t), s3);
      s' := s3;
    }
  }

  /** With a token waiting or on its way, the check can end although nobody calls Stop. */
  lemma TokenCanEnd(s: State, healthy: bool) returns (later: seq<Step>)
    requires Launchable(s) && !NoToken(s)
    ensures NoStop(later) && After(s, later).Some? && CheckEnded(s, After(s, later).value)
  {
    var s1 := Apply(s, LoadForEnable(true));
    var s': State;
    later, s' := LaunchCheck(s);
    later, s' := MakeRoom(s1, later, s');
    later, s' := ProbeAndEnd(s1, later, s', healthy);
  }

  /**
   * A forever check ends only after a Stop that was called since it was enabled, if and
   * only if no token was waiting then and no thread was about to write one.
   */
  lemma ForeverCheckLastsIff(before: seq<Step>)
    requires Execute(before).Some?
    requires var s := Execute(before).value; s.controller.Idle? && !s.flag
    ensures var s := Execute(before).value;
            (forall later :: NoStop(later) && After(s, later).Some? ==> !CheckEnded(s, After(s, later).value)) <==>
            NoToken(s)
  {
    ReachableInvariant(before);
    var s := Execute(before).value;
    if NoToken(s) {
      forall later | NoStop(later) && After(s, later).Some? ensures !CheckEnded(s, After(s, later).value) {
        NoTokenNoEnd(s, later);
      }
    } else {
      var _ := TokenCanEnd(s, true);
    }
  }

  /**
   * The check enabled when there were `n` goroutines has not been launched, or has a token
   * waiting, or has taken it.
   */
  ghost predicate Doomed(n: nat, s: State) {
    && OnItsWay(n, s)
    && (if |s.gs| == n || !s.gs[n].at.Ended? then s.tokens > 0 else true)
    && (|s.gs| == n + 1 ==> s.gs[n].sent == if s.gs[n].at.Probing? || s.gs[n].at.Sending? then 0 else 1)
  }

  lemma StepKeepsDoomed(n: nat, s: State, step: Step)
    requires Invariant(s) && Enabled(s, step) && Doomed(n, s)
    ensures step != Tick(n) && Doomed(n, Apply(s, step))
  {
    StepKeepsOnItsWay(n, s, step);
    match step
    case Probe(i, _) => OnlyLastLive(s, i);
    case Send(i) => OnlyLastLive(s, i);
    case Clear(i) => OnlyLastLive(s, i);
    case TakeToken(i) => OnlyLastLive(s, i);
    case Tick(i) => OnlyLastLive(s, i);
    case _ =>
  }

  /**
   * A check enabled with a token waiting never goes into a second round, whoever calls Stop:
   * it sends at most one message.
   */
  lemma {:induction false} WaitingTokenMeansOneMessage(s: State, later: seq<Step>)
    requires Launchable(s) && s.tokens > 0 && After(s, later).Some?
    ensures Tick(|s.gs|) !in later
    ensures var s' := After(s, later).value;
            Invariant(s') && Doomed(|s.gs|, s') && (|s'.gs| > |s.gs| ==> s'.gs[|s.gs|].sent <= 1)
    decreases |later|
  {
    if later == [] {
      StepKeepsInvariant(s, LoadForEnable(true));
    } else {
      var last := |later| - 1;
      var before := After(s, later[..last]).value;
      WaitingTokenMeansOneMessage(s, later[..last]);
      StepKeepsInvariant(before, later[last]);
      StepKeepsDoomed(|s.gs|, before, later[last]);
      assert later == later[..last] + [later[last]];
    }
  }

  // ---- When a Stop blocks for good

  /** The forever goroutine is alive. */
  ghost predicate Taker(s: State) {
    s.gs != [] && s.gs[|s.gs| - 1].forever && Live(s.gs[|s.gs| - 1])
  }

  lemma Advance(start: State, later: seq<Step>, s: State, step: Step) returns (longer: seq<Step>, s': State)
    requires ExecuteFrom(start, later) == Some(s) && Invariant(s) && Enabled(s, step)
    ensures ExecuteFrom(start, longer) == Some(s') && Invariant(s') && s' == Apply(s, step)
  {
    s' := Apply(s, step);
    longer := Extend(start, later, s, step, s');
    StepKeepsInvariant(s, step);
  }

  /** The last goroutine, if it is probing or sending, gets its message into the channel. */
  lemma Deliver(start: State, later: seq<Step>, s: State) returns (longer: seq<Step>, s': State)
    requires ExecuteFrom(start, later) == Some(s) && Invariant(s)
    requires s.gs != [] && (s.gs[|s.gs| - 1].at.Probing? || s.gs[|s.gs| - 1].at.Sending?)
    ensures ExecuteFrom(start, longer) == Some(s') && Invariant(s')
    ensures s'.tokens == s.tokens && s'.controller == s.controller && |s'.gs| == |s.gs|
    ensures var g, g' := s.gs[|s.gs| - 1], s'.gs[|s.gs| - 1];
            g'.forever == g.forever && g'.at == if g.forever then Selecting else Clearing
  {
    longer, s' := later, s;
    if s.gs[|s.gs| - 1].at.Probing? {
      longer, s' := Advance(start, longer, s', Probe(|s.gs| - 1, true));
    }
    if |s'.inbox| == CHANNEL_CAPACITY {
      longer, s' := Advance(start, longer, s', Receive);
    }
    longer, s' := Advance(start, longer, s', Send(|s.gs| - 1));
  }

  /** A live forever goroutine takes a waiting token. */
  lemma TakerTakes(start: State, later: seq<Step>, s: State) returns (longer: seq<Step>, s': State)
    requires ExecuteFrom(start, later) == Some(s) && Invariant(s) && Taker(s) && s.tokens > 0
    ensures ExecuteFrom(start, longer) == Some(s') && s'.tokens == s.tokens - 1
  {
    longer, s' := later, s;
    if !s.gs[|s.gs| - 1].at.Selecting? {
      longer, s' := Deliver(start, longer, s');
    }
    longer, s' := Advance(start, longer, s', TakeToken(|s.gs| - 1));
  }

  /** The main thread finishes what it has begun. */
  lemma FinishEnabling(start: State, later: seq<Step>, s: State) returns (longer: seq<Step>, s': State)
    requires ExecuteFrom(start, later) == Some(s) && Invariant(s) && !s.controller.StopSend?
    ensures ExecuteFrom(start, longer) == Some(s') && Invariant(s')
    ensures s'.tokens == s.tokens && s'.controller.Idle?
    ensures s.controller.Idle? ==> s' == s
    ensures !s.controller.Idle? ==> |s'.gs| > 0 && Live(s'.gs[|s'.gs| - 1])
  {
    longer, s' := later, s;
    if s'.controller.EnableStore? {
      longer, s' := Advance(start, longer, s', StoreFlag);
    }
    if s'.controller.EnableLaunch? {
      longer, s' := Advance(start, longer, s', Launch);
    }
  }

  /** A one-shot check comes to its end. */
  lemma FinishOneShot(start: State, later: seq<Step>, s: State) returns (longer: seq<Step>, s': State)
    requires ExecuteFrom(start, later) == Some(s) && Invariant(s) && s.controller.Idle?
    requires s.gs == [] || !s.gs[|s.gs| - 1].forever
    ensures ExecuteFrom(start, longer) == Some(s') && Invariant(s')
    ensures s'.tokens == s.tokens && s'.controller.Idle? && !s'.flag
  {
    longer, s' := later, s;
    if s.gs != [] && Live(s.gs[|s.gs| - 1]) {
      if !s.gs[|s.gs| - 1].at.Clearing? {
        longer, s' := Deliver(start, longer, s');
      }
      longer, s' := Advance(start, longer, s', Clear(|s.gs| - 1));
    }
  }

  /** Then a forever check can be launched. */
  lemma LaunchTaker(start: State, later: seq<Step>, s: State) returns (longer: seq<Step>, s': State)
    requires ExecuteFrom(start, later) == Some(s) && Invariant(s) && s.controller.Idle? && !s.flag
    ensures ExecuteFrom(start, longer) == Some(s') && Invariant(s') && Taker(s') && s'.tokens == s.tokens
  {
    longer, s' := Advance(start, later, s, LoadForEnable(true));
    longer, s' := Advance(start, longer, s', StoreFlag);
    longer, s' := Advance(start, longer, s', Launch);
  }

  /** Unless there is no taker, some continuation takes a token. */
  lemma SomeoneTakes(s: State) returns (later: seq<Step>)
    requires Invariant(s) && s.tokens > 0 && !NoTaker(s)
    ensures ExecuteFrom(s, later).Some? && ExecuteFrom(s, later).value.tokens == s.tokens - 1
  {
    later := [];
    var s' := s;
    if !Taker(s) {
      later, s' := FinishEnabling(s, later, s');
      if !Taker(s') {
        later, s' := FinishOneShot(s, later, s');
        later, s' := LaunchTaker(s, later, s');
      }
    }
    later, s' := TakerTakes(s, later, s');
  }

  /** A Stop that blocks does so for good, whatever happens later, if and only if there is no taker. */
  lemma StuckIff(s: State)
    requires Invariant(s) && Blocked(s)
    ensures (forall later :: ExecuteFrom(s, later).Some? ==> Blocked(ExecuteFrom(s, later).value)) <==> NoTaker(s)
  {
    if NoTaker(s) {
      forall later | ExecuteFrom(s, later).Some? ensures Blocked(ExecuteFrom(s, later).value) {
        StuckForever(s, later);
      }
    } else {
      var later := SomeoneTakes(s);
      assert !Blocked(ExecuteFrom(s, later).value);
    }
  }

  // ---- Runs

  const CLEARING := Goroutine(false, Clearing, 1, 0)

  /** A one-shot check that has sent its message. */
  lemma OneShotSent() returns (schedule: seq<Step>)
    ensures Execute(schedule) == Some(State(true, 0, [Message(0, true)], [CLEARING], Idle, 0, 0, [], {}))
  {
    var s := INITIAL.(controller := EnableStore(false));
    schedule := Extend(INITIAL, [], INITIAL, LoadForEnable(false), s);
    schedule := Extend(INITIAL, schedule, s, StoreFlag, s.(flag := true, controller := EnableLaunch(false)));
    var g := Goroutine(false, Probing, 0, 0);
    s := INITIAL.(flag := true, gs := [g]);
    schedule := Extend(INITIAL, schedule, INITIAL.(flag := true, controller := EnableLaunch(false)), Launch, s);
    var s' := s.(gs := [g.(at := Sending(true))]);
    schedule := Extend(INITIAL, schedule, s, Probe(0, true), s');
    schedule := Extend(INITIAL, schedule, s', Send(0), s.(gs := [CLEARING], inbox := [Message(0, true)]));
  }

  /** A clear flag alone does not mean that the message channel is empty. */
  lemma MessageOutlivesFlag() returns (schedule: seq<Step>)
    ensures Execute(schedule).Some?
    ensures !Execute(schedule).value.flag && Execute(schedule).value.inbox == [Message(0, true)]
  {
    schedule := OneShotSent();
    var s := State(true, 0, [Message(0, true)], [CLEARING], Idle, 0, 0, [], {});
    schedule := Extend(INITIAL, schedule, s, Clear(0), s.(flag := false, gs := [CLEARING.(at := Ended)]));
  }

  /** A one-shot check whose message has been received but whose goroutine has not cleared the flag yet. */
  lemma OneShotChecked() returns (schedule: seq<Step>)
    ensures Execute(schedule) == Some(State(true, 0, [], [CLEARING], Idle, 0, 0, [Message(0, true)], {}))
  {
    schedule := OneShotSent();
    var s := State(true, 0, [Message(0, true)], [CLEARING], Idle, 0, 0, [], {});
    schedule := Extend(INITIAL, schedule, s, Receive, s.(inbox := [], taken := [Message(0, true)]));
  }

  /** One more Stop of the main thread. */
  lemma StopOnce(schedule: seq<Step>, s: State) returns (longer: seq<Step>)
    requires Execute(schedule) == Some(s) && s.controller.Idle? && s.flag && s.tokens < CHANNEL_CAPACITY
    ensures Execute(longer) == Some(s.(tokens := s.tokens + 1, stops := s.stops + 1, seen := s.seen + 1))
  {
    var s' := s.(controller := StopSend, stops := s.stops + 1);
    longer := Extend(INITIAL, schedule, s, LoadForStop, s');
    var s'' := s.(tokens := s.tokens + 1, stops := s.stops + 1, seen := s.seen + 1);
    longer := Extend(INITIAL, longer, s', SendToken, s'');
  }

  /** A Stop that runs while a one-shot goroutine has yet to clear the flag leaves its token behind. */
  lemma StoppedEarly() returns (schedule: seq<Step>)
    ensures Execute(schedule) == Some(State(false, 1, [], [CLEARING.(at := Ended)], Idle, 1, 1, [Message(0, true)], {}))
  {
    schedule := OneShotChecked();
    var s := State(true, 0, [], [CLEARING], Idle, 0, 0, [Message(0, true)], {});
    schedule := StopOnce(schedule, s);
    var s' := s.(tokens := 1, stops := 1, seen := 1);
    schedule := Extend(INITIAL, schedule, s', Clear(0), s'.(flag := false, gs := [CLEARING.(at := Ended)]));
  }

  /** Such a run ends the forever check that is enabled next, although nobody calls Stop since. */
  lemma EarlyTokenEndsLaterCheck() returns (before: seq<Step>, later: seq<Step>)
    ensures Execute(before).Some? && Launchable(Execute(before).value) && Execute(before).value.seen == 1
    ensures var s := Execute(before).value;
            NoStop(later) && After(s, later).Some? && CheckEnded(s, After(s, later).value)
  {
    before := StoppedEarly();
    ReachableInvariant(before);
    later := TokenCanEnd(Execute(before).value, true);
  }

  /** Two Stops and a third, all before a one-shot goroutine clears the flag: when it has, the third is stuck. */
  lemma RunIntoStuck() returns (schedule: seq<Step>)
    ensures Execute(schedule).Some? && Stuck(Execute(schedule).value) && Execute(schedule).value.stops == 3
  {
    schedule := OneShotChecked();
    var s := State(true, 0, [], [CLEARING], Idle, 0, 0, [Message(0, true)], {});
    schedule := StopOnce(schedule, s);
    schedule := StopOnce(schedule, s.(tokens := 1, stops := 1, seen := 1));
    s := s.(tokens := 2, stops := 2, seen := 2);
    var s' := s.(controller := StopSend, stops := 3);
    schedule := Extend(INITIAL, schedule, s, LoadForStop, s');
    schedule := Extend(INITIAL, schedule, s', Clear(0), s'.(flag := false, gs := [CLEARING.(at := Ended)]));
  }

  /** A service with a forever check that is stopped four times: one token ends the check, two fill the channel. */
  lemma StoppedServiceGetsStuck() returns (schedule: seq<Step>)
    ensures Execute(schedule).Some?
    ensures var s := Execute(schedule).value; Stuck(s) && ForeverEndedLast(s) && s.stops == 4
  {
    var g := Goroutine(true, Probing, 0, 0);
    var s := INITIAL.(controller := EnableStore(true));
    schedule := Extend(INITIAL, [], INITIAL, LoadForEnable(true), s);
    var s1 := INITIAL.(flag := true, controller := EnableLaunch(true));
    schedule := Extend(INITIAL, schedule, s, StoreFlag, s1);
    s := INITIAL.(flag := true, gs := [g]);
    schedule := Extend(INITIAL, schedule, s1, Launch, s);
    schedule := StopOnce(schedule, s);
    schedule := CheckTakesToken(schedule);
    s := State(true, 0, [Message(0, true)], [Goroutine(true, Ended, 1, 1)], Idle, 1, 1, [], {});
    schedule := StopOnce(schedule, s);
    schedule := StopOnce(schedule, s.(tokens := 1, stops := 2, seen := 2));
    s := s.(tokens := 2, stops := 3, seen := 3);
    schedule := Extend(INITIAL, schedule, s, LoadForStop, s.(controller := StopSend, stops := 4));
  }

  lemma CheckTakesToken(schedule: seq<Step>) returns (longer: seq<Step>)
    requires Execute(schedule) == Some(State(true, 1, [], [Goroutine(true, Probing, 0, 0)], Idle, 1, 1, [], {}))
    ensures Execute(longer)
         == Some(State(true, 0, [Message(0, true)], [Goroutine(true, Ended, 1, 1)], Idle, 1, 1, [], {}))
  {
    var s := State(true, 1, [], [Goroutine(true, Probing, 0, 0)], Idle, 1, 1, [], {});
    var s1 := s.(gs := [Goroutine(true, Sending(true), 0, 0)]);
    longer := Extend(INITIAL, schedule, s, Probe(0, true), s1);
    var s2 := s.(gs := [Goroutine(true, Selecting, 1, 1)], inbox := [Message(0, true)]);
    longer := Extend(INITIAL, longer, s1, Send(0), s2);
    longer := Extend(INITIAL, longer, s2, TakeToken(0), s2.(tokens := 0, gs := [Goroutine(true, Ended, 1, 1)]));
  }
}
