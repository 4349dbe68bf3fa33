/** The loop that watches one running service: process exits and health messages. */
module CheckService {

  const MAX_UNHEALTHY := 10

  datatype Event = Exit | Health(healthy: bool)

  datatype Verdict = Watching | ServiceExited | TooManyFailures

  /** From some event on there is no healthy message, and there are at least `n` unhealthy ones. */
  ghost predicate LastUnhealthy(events: seq<Event>, n: nat) {
    exists k :: 0 <= k <= |events| && Health(true) !in events[k..] && multiset(events[k..])[Health(false)] >= n
  }

  /** Unhealthy messages since the last healthy one. */
  function Trailing(events: seq<Event>): nat {
    if events == [] then 0
    else
      var before := Trailing(events[..|events| - 1]);
      match events[|events| - 1]
      case Exit => before
      case Health(healthy) => if healthy then 0 else before + 1
  }

  /** Where the trailing run of unhealthy messages begins: after the last healthy one. */
  function RunStart(events: seq<Event>): (k: nat)
    ensures k <= |events|
  {
    if events == [] then 0
    else if events[|events| - 1] == Health(true) then |events|
    else RunStart(events[..|events| - 1])
  }

  lemma {:induction false} RunFromStart(events: seq<Event>)
    ensures var k := RunStart(events);
            && Health(true) !in events[k..] && multiset(events[k..])[Health(false)] == Trailing(events)
            && (k > 0 ==> events[k - 1] == Health(true))
    decreases |events|
  {
    if events != [] {
      var last := |events| - 1;
      var k := RunStart(events[..last]);
      RunFromStart(events[..last]);
      if events[last] != Health(true) {
        assert events[k..] == events[..last][k..] + [events[last]];
      }
    }
  }

  /** A suffix of a suffix has no more unhealthy messages. */
  lemma SuffixCount(events: seq<Event>, k: nat, j: nat)
    requires k <= j <= |events|
    ensures multiset(events[j..])[Health(false)] <= multiset(events[k..])[Health(false)]
  {
    assert events[k..] == events[k..j] + events[j..];
  }

  /** The counter is at least `n` if and only if the last `n` health messages were unhealthy. */
  lemma TrailingIsRun(events: seq<Event>, n: nat)
    ensures LastUnhealthy(events, n) <==> n <= Trailing(events)
  {
    var k := RunStart(events);
    RunFromStart(events);
    forall i | 0 <= i < k ensures Health(true) in events[i..] {
      assert events[i..][k - 1 - i] == Health(true);
    }
    if LastUnhealthy(events, n) {
      var j :| 0 <= j <= |events| && Health(true) !in events[j..] && multiset(events[j..])[Health(false)] >= n;
      SuffixCount(events, k, j);
    }
  }

  /** Does the watch end with the last of these events? */
  ghost predicate Aborts(events: seq<Event>, graceful: bool) {
    events != [] && (if events[|events| - 1].Exit? then !graceful else LastUnhealthy(events, 10))
  }

  /**
   * The watch aborts at the first moment at which the last ten health messages were
   * unhealthy, or a process exited before graceful termination was enabled; exits in
   * graceful mode make no difference. `handled` events have been consumed by then.
   */
  method Watch(events: seq<Event>, graceful: bool) returns (verdict: Verdict, handled: nat, unhealthyCount: nat)
    ensures handled <= |events| && unhealthyCount == Trailing(events[..handled])
    ensures forall i :: 0 <= i < handled ==> !Aborts(events[..i], graceful)
    ensures verdict == Watching ==> handled == |events| && !Aborts(events, graceful)
    ensures verdict != Watching ==> Aborts(events[..handled], graceful)
    ensures verdict == ServiceExited ==> !graceful && events[handled - 1] == Exit
    ensures verdict == TooManyFailures ==> events[handled - 1].Health? && LastUnhealthy(events[..handled], 10)
  {
    handled, unhealthyCount := 0, 0;
    while handled < |events|
      invariant handled <= |events| && unhealthyCount == Trailing(events[..handled]) < MAX_UNHEALTHY
      invariant forall i :: 0 <= i <= handled ==> !Aborts(events[..i], graceful)
    {
      var event := events[handled];
      handled := handled + 1;
      assert events[..handled][..handled - 1] == events[..handled - 1];
      TrailingIsRun(events[..handled], MAX_UNHEALTHY);
      match event
      case Exit =>
        if !graceful {
          return ServiceExited, handled, unhealthyCount;
        }
      case Health(healthy) =>
        if !healthy {
          unhealthyCount := unhealthyCount + 1;
          if unhealthyCount == MAX_UNHEALTHY {
            return TooManyFailures, handled, unhealthyCount;
          }
        } else {
          unhealthyCount := 0;
        }
    }
    assert events[..|events|] == events;
    verdict := Watching;
  }

  /** Exits in graceful mode leave the counter unchanged wherever they fall. */
  lemma {:induction false} ExitsDoNotCount(before: seq<Event>, after: seq<Event>)
    ensures Trailing(before + [Exit] + after) == Trailing(before + after)
    decreases |after|
  {
    if after == [] {
      assert (before + [Exit] + after)[..|before|] == before && before + after == before;
    } else {
      var last := |after| - 1;
      ExitsDoNotCount(before, after[..last]);
      assert (before + [Exit] + after)[..|before| + 1 + last] == before + [Exit] + after[..last];
      assert (before + after)[..|before| + last] == before + after[..last];
    }
  }
}
