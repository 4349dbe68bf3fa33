/**
 * Any number of HandleData calls on one parser. The lock makes each critical section
 * atomic and is free between two of them, so a run is a sequence of sections, each by
 * whichever call the scheduler picks.
 */
module LogConcurrency {
  import opened LineSplit
  import opened LogParser
  import opened Prelude
  import opened Sequences

  datatype CallState =
    | Waiting(data: seq<Byte>)   // called, has not entered its first section
    | Resumed                    // handed out a line and will enter again, without data
    | Returned(ok: bool)

  /** `written` is all data in the order in which the lock let it into the buffer. */
  datatype State = State(mem: Memory, written: seq<Byte>, calls: seq<CallState>)

  datatype Step = Arrive(data: seq<Byte>) | Enter(i: nat)

  predicate Enabled(s: State, step: Step) {
    step.Enter? ==> step.i < |s.calls| && !s.calls[step.i].Returned?
  }

  function Apply(s: State, step: Step, verdict: Verdict): State
    requires Enabled(s, step)
  {
    match step
    case Arrive(data) => s.(calls := s.calls + [Waiting(data)])
    case Enter(i) =>
      var data := if s.calls[i].Waiting? then s.calls[i].data else [];
      var (mem, outcome) := Section(s.mem, data, verdict);
      var call := match outcome
        case Finished => Returned(true)
        case Failed => Returned(false)
        case Continue => Resumed;
      State(mem, s.written + data, s.calls[i := call])
  }

  const INITIAL := State(Memory([], []), [], [])

  /** The state a schedule leads to, if each of its steps can be taken. */
  function Execute(schedule: seq<Step>, verdict: Verdict): Option<State>
    decreases |schedule|
  {
    if schedule == [] then Some(INITIAL)
    else
      var step := schedule[|schedule| - 1];
      match Execute(schedule[..|schedule| - 1], verdict)
      case None => None
      case Some(s) => if Enabled(s, step) then Some(Apply(s, step, verdict)) else None
  }

  ghost predicate Conserved(s: State) {
    && Flatten(s.mem.handed) + s.mem.buf == s.written
    && forall i :: 0 <= i < |s.mem.handed| ==> IsLine(s.mem.handed[i])
  }

  /** Only a call that still has to return may leave a newline behind, unless one failed. */
  ghost predicate Attended(s: State) {
    Returned(false) !in s.calls && HasNewline(s.mem.buf) ==> Resumed in s.calls
  }

  lemma StepKeepsConserved(s: State, step: Step, verdict: Verdict)
    requires Enabled(s, step) && Conserved(s)
    ensures Conserved(Apply(s, step, verdict))
  {
    if step.Enter? {
      var data := if s.calls[step.i].Waiting? then s.calls[step.i].data else [];
      SectionConserves(s.mem, data, verdict);
      Assoc(Flatten(s.mem.handed), s.mem.buf, data);
    }
  }

  lemma SectionConserves(m: Memory, data: seq<Byte>, verdict: Verdict)
    ensures var m' := Section(m, data, verdict).0;
            Flatten(m'.handed) + m'.buf == Flatten(m.handed) + (m.buf + data)
    ensures var m' := Section(m, data, verdict).0;
            m'.handed == m.handed
            || (|m'.handed| > 0 && m'.handed[..|m'.handed| - 1] == m.handed && IsLine(m'.handed[|m'.handed| - 1]))
  {
    var buf := m.buf + data;
    if HasNewline(buf) {
      var line, tail := buf[..FirstNewline(buf) + 1], buf[FirstNewline(buf) + 1..];
      CutLine(buf);
      FlattenAppend(m.handed, [line]);
      FlattenCons(line, []);
      AppendNothing(line);
      Assoc(Flatten(m.handed), line, tail);
      TakeAppend(m.handed, [line]);
    }
  }

  lemma StepKeepsAttended(s: State, step: Step, verdict: Verdict)
    requires Enabled(s, step) && Attended(s)
    ensures Attended(Apply(s, step, verdict))
  {
    var s' := Apply(s, step, verdict);
    match step
    case Arrive(data) =>
      assert forall c :: c in s.calls ==> c in s'.calls;
    case Enter(i) =>
      var data := if s.calls[i].Waiting? then s.calls[i].data else [];
      SectionWork(s.mem, data, verdict);
      assert s'.calls[i] in s'.calls;
  }

  lemma {:induction false} ReachableInvariant(schedule: seq<Step>, verdict: Verdict)
    requires Execute(schedule, verdict).Some?
    ensures var s := Execute(schedule, verdict).value; Conserved(s) && Attended(s)
    decreases |schedule|
  {
    if schedule != [] {
      var n := |schedule| - 1;
      var before := Execute(schedule[..n], verdict).value;
      ReachableInvariant(schedule[..n], verdict);
      StepKeepsConserved(before, schedule[n], verdict);
      StepKeepsAttended(before, schedule[n], verdict);
    }
  }

  /**
   * In every reachable state, handler errors or not, no byte is lost, doubled or moved, and
   * the handed lines are the first lines of the split of everything written.
   */
  lemma HandedIsPrefixOfSplit(schedule: seq<Step>, s: State, verdict: Verdict)
    requires Execute(schedule, verdict) == Some(s)
    ensures Flatten(s.mem.handed) + s.mem.buf == s.written
    ensures Lines(s.written) == s.mem.handed + Lines(s.mem.buf)
    ensures s.mem.handed <= Lines(s.written)
    ensures Rest(s.written) == Rest(s.mem.buf)
  {
    ReachableInvariant(schedule, verdict);
    LinesFirst(s.mem.handed, s.mem.buf);
  }

  /** When every call has returned without error, exactly the complete lines were handed out. */
  lemma QuiescentMeansComplete(schedule: seq<Step>, s: State, verdict: Verdict)
    requires Execute(schedule, verdict) == Some(s)
    requires forall i :: 0 <= i < |s.calls| ==> s.calls[i] == Returned(true)
    ensures s.mem.handed == Lines(s.written) && s.mem.buf == Rest(s.written)
  {
    ReachableInvariant(schedule, verdict);
    HandedIsPrefixOfSplit(schedule, s, verdict);
    assert !HasNewline(s.mem.buf);
    assert s.mem.handed + [] == s.mem.handed;
  }

  // ---- Every schedule comes to rest

  function Unreturned(calls: seq<CallState>): nat {
    if calls == [] then 0
    else (match calls[0]
          case Waiting(data) => 1 + Newlines(data)
          case Resumed => 1
          case Returned(_) => 0) + Unreturned(calls[1..])
  }

  /** Newlines still to be handed out plus calls still to return. */
  function Work(s: State): nat {
    Newlines(s.mem.buf) + Unreturned(s.calls)
  }

  lemma {:induction false} UnreturnedUpdate(calls: seq<CallState>, i: nat, c: CallState)
    requires i < |calls|
    ensures Unreturned(calls[i := c]) == Unreturned(calls) - Unreturned([calls[i]]) + Unreturned([c])
  {
    if i > 0 {
      UnreturnedUpdate(calls[1..], i - 1, c);
      assert calls[i := c][1..] == calls[1..][i - 1 := c];
    } else {
      assert calls[i := c][1..] == calls[1..];
    }
  }

  lemma {:induction false} SomeUnreturned(calls: seq<CallState>) returns (i: nat)
    requires Unreturned(calls) > 0
    ensures i < |calls| && !calls[i].Returned?
  {
    if !calls[0].Returned? {
      i := 0;
    } else {
      var j := SomeUnreturned(calls[1..]);
      i := j + 1;
    }
  }

  /** Whichever call is scheduled, and whatever the handler answers, less work is left. */
  lemma EnterMakesProgress(s: State, i: nat, verdict: Verdict)
    requires Enabled(s, Enter(i))
    ensures Work(Apply(s, Enter(i), verdict)) < Work(s)
  {
    var data := if s.calls[i].Waiting? then s.calls[i].data else [];
    SectionWork(s.mem, data, verdict);
    UnreturnedUpdate(s.calls, i, Apply(s, Enter(i), verdict).calls[i]);
  }

  /** The chunks that calls have brought, in the order of the calls. */
  function Arrived(schedule: seq<Step>): seq<seq<Byte>> {
    if schedule == [] then []
    else
      var step := schedule[|schedule| - 1];
      Arrived(schedule[..|schedule| - 1]) + if step.Arrive? then [step.data] else []
  }

  /** One for each chunk, and one for each newline in it. */
  function WorkBrought(chunks: seq<seq<Byte>>): nat {
    if chunks == [] then 0 else WorkBrought(chunks[..|chunks| - 1]) + 1 + Newlines(chunks[|chunks| - 1])
  }

  /** How many critical sections there were. */
  function Sections(schedule: seq<Step>): nat {
    if schedule == [] then 0
    else Sections(schedule[..|schedule| - 1]) + if schedule[|schedule| - 1].Enter? then 1 else 0
  }

  lemma {:induction false} UnreturnedAppend(calls: seq<CallState>, c: CallState)
    ensures Unreturned(calls + [c]) == Unreturned(calls) + Unreturned([c])
  {
    if calls == [] {
      assert [] + [c] == [c];
    } else {
      UnreturnedAppend(calls[1..], c);
      assert (calls + [c])[1..] == calls[1..] + [c];
    }
  }

  lemma ArriveBringsWork(s: State, data: seq<Byte>, verdict: Verdict)
    ensures Work(Apply(s, Arrive(data), verdict)) == Work(s) + 1 + Newlines(data)
  {
    UnreturnedAppend(s.calls, Waiting(data));
    assert [Waiting(data)][1..] == [];
  }

  /** In no schedule are there more sections than chunks and newlines have come, whatever the handler answers. */
  lemma {:induction false} SectionsBounded(schedule: seq<Step>, verdict: Verdict)
    requires Execute(schedule, verdict).Some?
    ensures Sections(schedule) + Work(Execute(schedule, verdict).value) <= WorkBrought(Arrived(schedule))
    decreases |schedule|
  {
    if schedule != [] {
      var last := |schedule| - 1;
      var before := Execute(schedule[..last], verdict).value;
      SectionsBounded(schedule[..last], verdict);
      match schedule[last]
      case Arrive(data) =>
        ArriveBringsWork(before, data, verdict);
        WorkBroughtAppend(Arrived(schedule[..last]), data);
      case Enter(i) =>
        EnterMakesProgress(before, i, verdict);
        AppendNothing(Arrived(schedule[..last]));
    }
  }

  /** That bound is the number of chunks plus the number of newlines in all of them. */
  lemma {:induction false} WorkBroughtIs(chunks: seq<seq<Byte>>)
    ensures WorkBrought(chunks) == |chunks| + Newlines(Flatten(chunks))
  {
    if chunks != [] {
      var last := |chunks| - 1;
      WorkBroughtIs(chunks[..last]);
      TakeDrop(chunks, last);
      FlattenAppend(chunks[..last], chunks[last..]);
      assert chunks[last..][1..] == [];
      AppendNothing(chunks[last]);
      NewlinesAppend(Flatten(chunks[..last]), chunks[last]);
    }
  }

  /** The sections of a schedule are its Enter steps. */
  lemma {:induction false} SectionsAre(schedule: seq<Step>)
    ensures Sections(schedule) == |set k | 0 <= k < |schedule| && schedule[k].Enter?|
  {
    var all := set k | 0 <= k < |schedule| && schedule[k].Enter?;
    if schedule == [] {
      assert all == {};
    } else {
      var last := |schedule| - 1;
      var before := schedule[..last];
      SectionsAre(before);
      assert all == (set k | 0 <= k < |before| && before[k].Enter?) + if schedule[last].Enter? then {last} else {};
    }
  }

  /** Put together: no schedule has more critical sections than chunks and newlines have come. */
  lemma SectionsAtMost(schedule: seq<Step>, verdict: Verdict)
    requires Execute(schedule, verdict).Some?
    ensures |set k | 0 <= k < |schedule| && schedule[k].Enter?|
            <= |Arrived(schedule)| + Newlines(Flatten(Arrived(schedule)))
  {
    SectionsBounded(schedule, verdict);
    SectionsAre(schedule);
    WorkBroughtIs(Arrived(schedule));
  }

  lemma WorkBroughtAppend(chunks: seq<seq<Byte>>, data: seq<Byte>)
    ensures WorkBrought(chunks + [data]) == WorkBrought(chunks) + 1 + Newlines(data)
  {
    assert (chunks + [data])[..|chunks|] == chunks;
  }

  ghost predicate AtRest(s: State) {
    forall i :: 0 <= i < |s.calls| ==> s.calls[i].Returned?
  }

  lemma {:induction false} NothingUnreturned(calls: seq<CallState>)
    requires Unreturned(calls) == 0
    ensures forall i :: 0 <= i < |calls| ==> calls[i].Returned?
  {
    if calls != [] {
      NothingUnreturned(calls[1..]);
      assert forall i :: 1 <= i < |calls| ==> calls[i] == calls[1..][i - 1];
    }
  }

  /**
   * Letting calls that have not returned enter, in any order, leads to rest: here is one that
   * can, until none is left.
   */
  lemma {:induction false} RunsToRest(schedule: seq<Step>, verdict: Verdict) returns (longer: seq<Step>)
    requires Execute(schedule, verdict).Some?
    ensures schedule <= longer && Arrived(longer) == Arrived(schedule)
    ensures Execute(longer, verdict).Some? && AtRest(Execute(longer, verdict).value)
    decreases Work(Execute(schedule, verdict).value)
  {
    var s := Execute(schedule, verdict).value;
    longer := schedule;
    if Unreturned(s.calls) == 0 {
      NothingUnreturned(s.calls);
    } else {
      var i := SomeUnreturned(s.calls);
      var next := schedule + [Enter(i)];
      assert next[..|schedule|] == schedule;
      EnterMakesProgress(s, i, verdict);
      AppendNothing(Arrived(schedule));
      longer := RunsToRest(next, verdict);
    }
  }

  // ---- Every chunk is written once

  /** The chunks in the order in which their calls first entered. */
  function Entered(schedule: seq<Step>, verdict: Verdict): seq<seq<Byte>>
    requires Execute(schedule, verdict).Some?
    decreases |schedule|
  {
    if schedule == [] then []
    else
      var last := |schedule| - 1;
      var s := Execute(schedule[..last], verdict).value;
      Entered(schedule[..last], verdict)
      + match schedule[last]
        case Arrive(_) => []
        case Enter(i) => Brought(s, i)
  }

  /** The chunks of the calls that have not entered yet. */
  function StillWaiting(calls: seq<CallState>): multiset<seq<Byte>> {
    if calls == [] then multiset{}
    else StillWaiting(calls[..|calls| - 1]) + DataOf(calls[|calls| - 1])
  }

  function DataOf(c: CallState): multiset<seq<Byte>> {
    if c.Waiting? then multiset{c.data} else multiset{}
  }

  lemma {:induction false} StillWaitingUpdate(calls: seq<CallState>, i: nat, c: CallState)
    requires i < |calls| && !c.Waiting?
    ensures StillWaiting(calls) == StillWaiting(calls[i := c]) + DataOf(calls[i])
    decreases |calls|
  {
    var last := |calls| - 1;
    if i < last {
      StillWaitingUpdate(calls[..last], i, c);
      assert calls[i := c][..last] == calls[..last][i := c];
    } else {
      assert calls[i := c][..last] == calls[..last];
    }
  }

  ghost predicate Accounted(schedule: seq<Step>, verdict: Verdict)
    requires Execute(schedule, verdict).Some?
  {
    var s := Execute(schedule, verdict).value;
    && s.written == Flatten(Entered(schedule, verdict))
    && multiset(Entered(schedule, verdict)) + StillWaiting(s.calls) == multiset(Arrived(schedule))
  }

  lemma ArriveKeepsAccounted(schedule: seq<Step>, verdict: Verdict)
    requires schedule != [] && schedule[|schedule| - 1].Arrive? && Execute(schedule, verdict).Some?
    requires Accounted(schedule[..|schedule| - 1], verdict)
    ensures Accounted(schedule, verdict)
  {
    var last := |schedule| - 1;
    var before := Execute(schedule[..last], verdict).value;
    AppendNothing(Entered(schedule[..last], verdict));
    assert (before.calls + [Waiting(schedule[last].data)])[..|before.calls|] == before.calls;
  }

  /** The chunk that an Enter brings into the buffer. */
  function Brought(s: State, i: nat): seq<seq<Byte>>
    requires i < |s.calls|
  {
    if s.calls[i].Waiting? then [s.calls[i].data] else []
  }

  lemma EnterWrites(s: State, i: nat, verdict: Verdict, entered: seq<seq<Byte>>)
    requires Enabled(s, Enter(i)) && s.written == Flatten(entered)
    ensures Apply(s, Enter(i), verdict).written == Flatten(entered + Brought(s, i))
  {
    if s.calls[i].Waiting? {
      FlattenAppend(entered, [s.calls[i].data]);
      FlattenCons(s.calls[i].data, []);
      AppendNothing(s.calls[i].data);
    } else {
      AppendNothing(entered);
      AppendNothing(s.written);
    }
  }

  lemma EnterTakesOver(s: State, i: nat, verdict: Verdict)
    requires Enabled(s, Enter(i))
    ensures StillWaiting(s.calls) == StillWaiting(Apply(s, Enter(i), verdict).calls) + multiset(Brought(s, i))
  {
    StillWaitingUpdate(s.calls, i, Apply(s, Enter(i), verdict).calls[i]);
  }

  lemma EnterKeepsAccounted(schedule: seq<Step>, verdict: Verdict)
    requires schedule != [] && schedule[|schedule| - 1].Enter? && Execute(schedule, verdict).Some?
    requires Accounted(schedule[..|schedule| - 1], verdict)
    ensures Accounted(schedule, verdict)
  {
    var last := |schedule| - 1;
    var before := Execute(schedule[..last], verdict).value;
    var entered, i := Entered(schedule[..last], verdict), schedule[last].i;
    EnterWrites(before, i, verdict, entered);
    EnterTakesOver(before, i, verdict);
    assert Entered(schedule, verdict) == entered + Brought(before, i);
    AppendNothing(Arrived(schedule[..last]));
  }

  lemma {:induction false} AlwaysAccounted(schedule: seq<Step>, verdict: Verdict)
    requires Execute(schedule, verdict).Some?
    ensures Accounted(schedule, verdict)
    decreases |schedule|
  {
    if schedule != [] {
      AlwaysAccounted(schedule[..|schedule| - 1], verdict);
      if schedule[|schedule| - 1].Arrive? {
        ArriveKeepsAccounted(schedule, verdict);
      } else {
        EnterKeepsAccounted(schedule, verdict);
      }
    }
  }

  lemma {:induction false} NobodyWaits(calls: seq<CallState>)
    requires forall i :: 0 <= i < |calls| ==> !calls[i].Waiting?
    ensures StillWaiting(calls) == multiset{}
  {
    if calls != [] {
      NobodyWaits(calls[..|calls| - 1]);
    }
  }

  /** At rest the data written is a concatenation of all chunks that arrived, each exactly once. */
  lemma RestMeansAllWritten(schedule: seq<Step>, verdict: Verdict)
    requires Execute(schedule, verdict).Some? && AtRest(Execute(schedule, verdict).value)
    ensures exists chunks :: multiset(chunks) == multiset(Arrived(schedule))
                             && Execute(schedule, verdict).value.written == Flatten(chunks)
  {
    AlwaysAccounted(schedule, verdict);
    NobodyWaits(Execute(schedule, verdict).value.calls);
    assert multiset(Entered(schedule, verdict)) == multiset(Arrived(schedule));
  }

  // ---- When all complete lines are delivered

  ghost predicate AllLines(ls: seq<Line>) {
    forall i :: 0 <= i < |ls| ==> IsLine(ls[i])
  }

  /** The handler returns without an error whatever lines have come, the current one last. */
  ghost predicate AcceptsAllLines(verdict: Verdict) {
    forall ls :: ls != [] && AllLines(ls) ==> verdict(ls)
  }

  /** In every run, when all calls have returned all complete lines have been handed out. */
  ghost predicate DeliversAll(verdict: Verdict) {
    forall schedule :: Execute(schedule, verdict).Some? && AtRest(Execute(schedule, verdict).value) ==>
      Execute(schedule, verdict).value.mem.handed == Lines(Execute(schedule, verdict).value.written)
  }

  /** A handler that accepts all lines never makes a call fail. */
  lemma {:induction false} NoCallFails(schedule: seq<Step>, verdict: Verdict)
    requires AcceptsAllLines(verdict) && Execute(schedule, verdict).Some?
    ensures Returned(false) !in Execute(schedule, verdict).value.calls
    decreases |schedule|
  {
    if schedule != [] {
      NoCallFails(schedule[..|schedule| - 1], verdict);
      ReachableInvariant(schedule, verdict);
      assert AllLines(Execute(schedule, verdict).value.mem.handed);
    }
  }

  lemma AcceptingDelivers(verdict: Verdict)
    requires AcceptsAllLines(verdict)
    ensures DeliversAll(verdict)
  {
    forall schedule | Execute(schedule, verdict).Some? && AtRest(Execute(schedule, verdict).value)
      ensures Execute(schedule, verdict).value.mem.handed == Lines(Execute(schedule, verdict).value.written)
    {
      var s := Execute(schedule, verdict).value;
      NoCallFails(schedule, verdict);
      forall i | 0 <= i < |s.calls| ensures s.calls[i] == Returned(true) {
        assert s.calls[i] in s.calls;
      }
      QuiescentMeansComplete(schedule, s, verdict);
    }
  }

  /** A section with a line at the front of the buffer hands it out. */
  lemma SectionHandsOut(m: Memory, data: seq<Byte>, verdict: Verdict, l: Line, s: seq<Byte>)
    requires IsLine(l) && m.buf + data == l + s
    ensures Section(m, data, verdict)
         == (Memory(s, m.handed + [l]), if verdict(m.handed + [l]) then Continue else Failed)
  {
    FirstNewlineOfLine(l, s);
    TakeAppend(l, s);
  }

  /** What one call brings: the lines, and an empty one behind them. */
  function Bait(ls: seq<Line>): seq<Byte> {
    Flatten(ls) + [NEWLINE]
  }

  /** That call has handed out the first `k` lines; it has failed if the handler rejects the last of them. */
  function After(ls: seq<Line>, k: nat, verdict: Verdict): State
    requires k <= |ls|
  {
    State(Memory(Bait(ls[k..]), ls[..k]), Bait(ls), [if verdict(ls[..k]) then Resumed else Returned(false)])
  }

  lemma NextLine(ls: seq<Line>, k: nat)
    requires k < |ls|
    ensures Bait(ls[k..]) == ls[k] + Bait(ls[k + 1..]) && ls[..k + 1] == ls[..k] + [ls[k]]
  {
    assert ls[k..][1..] == ls[k + 1..];
    Assoc(ls[k], Flatten(ls[k + 1..]), [NEWLINE]);
  }

  lemma FirstSection(ls: seq<Line>, verdict: Verdict)
    requires ls != [] && AllLines(ls)
    ensures Execute([Arrive(Bait(ls)), Enter(0)], verdict) == Some(After(ls, 1, verdict))
  {
    var schedule := [Arrive(Bait(ls)), Enter(0)];
    assert schedule[..1] == [Arrive(Bait(ls))] && schedule[..1][..0] == [];
    NextLine(ls, 0);
    assert ls[0..] == ls && ls[..0] == [];
    var s := State(Memory([], []), [], [Waiting(Bait(ls))]);
    AppendNothing([Waiting(Bait(ls))]);
    assert Execute(schedule[..1], verdict) == Some(s);
    AppendNothing(Bait(ls));
    SectionHandsOut(s.mem, Bait(ls), verdict, ls[0], Bait(ls[1..]));
    assert Apply(s, Enter(0), verdict) == After(ls, 1, verdict);
  }

  lemma {:induction false} HandsOutUpTo(ls: seq<Line>, k: nat, verdict: Verdict) returns (schedule: seq<Step>)
    requires 1 <= k <= |ls| && AllLines(ls) && forall j :: 1 <= j < k ==> verdict(ls[..j])
    ensures Execute(schedule, verdict) == Some(After(ls, k, verdict))
    decreases k
  {
    if k == 1 {
      schedule := [Arrive(Bait(ls)), Enter(0)];
      FirstSection(ls, verdict);
    } else {
      var before := HandsOutUpTo(ls, k - 1, verdict);
      schedule := before + [Enter(0)];
      assert schedule[..|before|] == before;
      NextSection(ls, k - 1, verdict);
    }
  }

  lemma NextSection(ls: seq<Line>, k: nat, verdict: Verdict)
    requires k < |ls| && AllLines(ls) && verdict(ls[..k])
    ensures Enabled(After(ls, k, verdict), Enter(0))
    ensures Apply(After(ls, k, verdict), Enter(0), verdict) == After(ls, k + 1, verdict)
  {
    NextLine(ls, k);
    AppendNothing(Bait(ls[k..]));
    AppendNothing(Bait(ls));
    SectionHandsOut(After(ls, k, verdict).mem, [], verdict, ls[k], Bait(ls[k + 1..]));
  }

  /** The first prefix that the handler rejects. */
  lemma {:induction false} FirstRejected(ls: seq<Line>, k: nat, verdict: Verdict) returns (n: nat)
    requires 1 <= k <= |ls| && !verdict(ls) && forall j :: 1 <= j < k ==> verdict(ls[..j])
    ensures k <= n <= |ls| && !verdict(ls[..n]) && forall j :: 1 <= j < n ==> verdict(ls[..j])
    decreases |ls| - k
  {
    assert ls[..|ls|] == ls;
    if verdict(ls[..k]) {
      n := FirstRejected(ls, k + 1, verdict);
    } else {
      n := k;
    }
  }

  /** Lines that the handler rejects, and one more line behind them: that one stays in the buffer. */
  lemma FailureStrandsLines(ls: seq<Line>, verdict: Verdict) returns (schedule: seq<Step>)
    requires ls != [] && AllLines(ls) && !verdict(ls)
    ensures Execute(schedule, verdict).Some?
    ensures var s := Execute(schedule, verdict).value;
            AtRest(s) && s.mem.handed < Lines(s.written) && HasNewline(s.mem.buf)
  {
    var n := FirstRejected(ls, 1, verdict);
    var rejected := ls[..n];
    assert forall j :: 1 <= j <= n ==> rejected[..j] == ls[..j];
    schedule := HandsOutUpTo(rejected, n, verdict);
    assert rejected[..n] == rejected && rejected[n..] == [];
    LinesFirst(rejected, [NEWLINE]);
    assert Lines([NEWLINE]) == [[NEWLINE]] by {
      LineFirst([NEWLINE], []);
      AppendNothing([NEWLINE]);
    }
  }

  /**
   * When all calls have returned all complete lines have been handed out, in every run, if
   * and only if the handler accepts all lines.
   */
  lemma DeliversAllIff(verdict: Verdict)
    ensures DeliversAll(verdict) <==> AcceptsAllLines(verdict)
  {
    if AcceptsAllLines(verdict) {
      AcceptingDelivers(verdict);
    } else {
      var ls :| ls != [] && AllLines(ls) && !verdict(ls);
      var schedule := FailureStrandsLines(ls, verdict);
      assert AtRest(Execute(schedule, verdict).value);
    }
  }
}
