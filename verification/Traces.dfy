/**
 * Runs of a step relation as sequences of states. A run is easier to build from its states
 * than from the function that executes a schedule from the end.
 */
module Traces {
  import opened Prelude

  /** The states that a schedule goes through; `next` is None where a step cannot be taken. */
  ghost predicate IsTrace<S(!new), T(!new)>(trace: seq<S>, start: S, next: (S, T) -> Option<S>, schedule: seq<T>) {
    && |trace| == |schedule| + 1 && trace[0] == start
    && forall k :: 0 <= k < |schedule| ==> next(trace[k], schedule[k]) == Some(trace[k + 1])
  }

  ghost predicate Leads<S(!new), T(!new)>(start: S, next: (S, T) -> Option<S>, schedule: seq<T>, s: S) {
    exists trace :: IsTrace(trace, start, next, schedule) && trace[|schedule|] == s
  }

  lemma Nothing<S(!new), T(!new)>(start: S, next: (S, T) -> Option<S>)
    ensures Leads(start, next, [], start)
  {
    assert IsTrace([start], start, next, []);
  }

  lemma Extend<S(!new), T(!new)>(start: S, next: (S, T) -> Option<S>, schedule: seq<T>, s: S, step: T, s': S)
    requires Leads(start, next, schedule, s) && next(s, step) == Some(s')
    ensures Leads(start, next, schedule + [step], s')
  {
    var trace :| IsTrace(trace, start, next, schedule) && trace[|schedule|] == s;
    assert IsTrace(trace + [s'], start, next, schedule + [step]);
  }

  /** The function `execute` takes the steps of a schedule one after the other. */
  ghost predicate Executes<S(!new), T(!new)>(execute: seq<T> -> Option<S>, start: S, next: (S, T) -> Option<S>) {
    && execute([]) == Some(start)
    && forall schedule, step ::
         execute(schedule + [step]) == match execute(schedule) case None => None case Some(s) => next(s, step)
  }

  lemma {:induction false} LeadsMeans<S(!new), T(!new)>(execute: seq<T> -> Option<S>, start: S,
                                                        next: (S, T) -> Option<S>, schedule: seq<T>, s: S)
    requires Executes(execute, start, next) && Leads(start, next, schedule, s)
    ensures execute(schedule) == Some(s)
    decreases |schedule|
  {
    if schedule != [] {
      var last := |schedule| - 1;
      var trace :| IsTrace(trace, start, next, schedule) && trace[|schedule|] == s;
      assert IsTrace(trace[..|schedule|], start, next, schedule[..last]);
      LeadsMeans(execute, start, next, schedule[..last], trace[last]);
      assert schedule == schedule[..last] + [schedule[last]];
    }
  }
}
