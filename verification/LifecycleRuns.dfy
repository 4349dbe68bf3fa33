/** Runs of the lifecycle that reach the bounds on the number of stops. */
module LifecycleRuns {
  import opened Prelude
  import opened Services
  import opened Lifecycle
  import Traces

  function Next(s: State, step: Step): Option<State> {
    if Enabled(s, step) then Some(Apply(s, step)) else None
  }

  ghost predicate Leads(schedule: seq<Step>, s: State) {
    Traces.Leads(INITIAL, Next, schedule, s)
  }

  lemma Extend(schedule: seq<Step>, s: State, step: Step) returns (longer: seq<Step>)
    requires Leads(schedule, s) && Enabled(s, step)
    ensures longer == schedule + [step] && Leads(longer, Apply(s, step))
  {
    longer := schedule + [step];
    Traces.Extend(INITIAL, Next, schedule, s, step, Apply(s, step));
  }

  lemma LeadsMeans(schedule: seq<Step>, s: State)
    requires Leads(schedule, s)
    ensures Execute(schedule) == Some(s)
  {
    forall before: seq<Step>, step
      ensures Execute(before + [step]) == match Execute(before) case None => None case Some(s) => Next(s, step)
    {
      assert (before + [step])[..|before|] == before;
    }
    Traces.LeadsMeans(Execute, INITIAL, Next, schedule, s);
  }

  const NODE_AWAITED := State(WaitingForNode, false, ORDER, ORDER, [], map[], multiset{KubeProxy}, false)

  /** The first `n` services have become healthy, and no thread has called Fatal. */
  function StartedUpTo(n: nat): State
    requires n <= |ORDER|
  {
    State(if n < |ORDER| then Creating(n) else DeferredStop, false, ORDER[..n], ORDER[..n], [], map[], multiset{},
          false)
  }

  lemma NothingStarted() returns (schedule: seq<Step>)
    ensures Leads(schedule, StartedUpTo(0)) && StartedUpTo(0) == INITIAL
  {
    schedule := [];
    Traces.Nothing(INITIAL, Next);
  }

  lemma StartNext(before: seq<Step>, n: nat) returns (schedule: seq<Step>)
    requires n < |ORDER| && Leads(before, StartedUpTo(n))
    ensures Leads(schedule, StartedUpTo(n + 1))
  {
    var s := StartedUpTo(n);
    schedule := Extend(before, s, ByMain(StartProcess));
    s := s.(main := Awaiting(n));
    schedule := Extend(schedule, s, ByMain(ServiceHealthy));
    assert ORDER[..n + 1] == ORDER[..n] + [ORDER[n]];
    s := s.(main := Registered(n), handlers := ORDER[..n + 1]);
    schedule := Extend(schedule, s, ByMain(ListService));
  }

  lemma {:induction false} StartupUpTo(n: nat) returns (schedule: seq<Step>)
    requires n <= |ORDER|
    ensures Leads(schedule, StartedUpTo(n))
  {
    if n == 0 {
      schedule := NothingStarted();
    } else {
      schedule := StartupUpTo(n - 1);
      schedule := StartNext(schedule, n - 1);
    }
  }

  /** All services get healthy. */
  lemma Startup() returns (schedule: seq<Step>)
    ensures Leads(schedule, NODE_AWAITED)
  {
    schedule := StartupUpTo(|ORDER|);
    assert ORDER[..|ORDER|] == ORDER;
    schedule := Extend(schedule, StartedUpTo(|ORDER|), ByMain(RunDeferredStop));
    assert multiset{} + multiset{KubeProxy} == multiset{KubeProxy};
  }

  /** A thread calls Fatal outside graceful mode. */
  lemma EnterFatal(before: seq<Step>, s: State, t: Thread) returns (schedule: seq<Step>, s': State)
    requires Leads(before, s) && !s.dead && !s.graceful && CanFatal(s, t)
    ensures Leads(schedule, s') && s' == s.(fatals := s.fatals[t := StopEach(s.handlers, 0)])
  {
    schedule := Extend(before, s, InFatal(t, Call));
    s' := s.(fatals := s.fatals[t := Called]);
    schedule := Extend(schedule, s', InFatal(t, ReadMode));
    var s'' := s.(fatals := s.fatals[t := Passed]);
    assert s'.fatals[t := Passed] == s''.fatals;
    schedule := Extend(schedule, s'', InFatal(t, ReadHandlers));
    s' := s.(fatals := s.fatals[t := StopEach(s.handlers, 0)]);
    assert s''.fatals[t := StopEach(s.handlers, 0)] == s'.fatals;
  }

  /** The first `m` waiters are in Fatal; the first `i` of them have stopped `k` services. */
  function Fatals(m: nat, i: nat, k: nat): map<Thread, Fatal>
    requires m <= |ORDER|
  {
    map t | t in FirstWaiters(m) :: StopEach(ORDER, if t.Waiter? && Rank(t.svc) < i then k else 0)
  }

  lemma OneMoreFatal(m: nat)
    requires m < |ORDER|
    ensures Waiter(ORDER[m]) !in Fatals(m, 0, 0)
    ensures Fatals(m, 0, 0)[Waiter(ORDER[m]) := StopEach(ORDER, 0)] == Fatals(m + 1, 0, 0)
  {
    FirstWaitersAre(m);
    RankOf(m);
  }

  /** The first `m` processes end while the node is not ready, and their exit handlers call Fatal. */
  lemma {:induction false} ProcessesEnd(m: nat) returns (schedule: seq<Step>)
    requires m <= |ORDER|
    ensures Leads(schedule, NODE_AWAITED.(fatals := Fatals(m, 0, 0)))
  {
    if m == 0 {
      schedule := Startup();
      assert Fatals(0, 0, 0) == map[];
    } else {
      schedule := ProcessesEnd(m - 1);
      OneMoreFatal(m - 1);
      RankOf(m - 1);
      var s: State;
      schedule, s := EnterFatal(schedule, NODE_AWAITED.(fatals := Fatals(m - 1, 0, 0)), Waiter(ORDER[m - 1]));
    }
  }

  /** It stops one more service. */
  lemma StopOneMore(before: seq<Step>, s: State, t: Thread, k: nat, svc: Service)
    returns (schedule: seq<Step>, s': State)
    requires Leads(before, s) && !s.dead && t in s.fatals && k < |ORDER| && s.fatals[t] == StopEach(ORDER, k)
    ensures Leads(schedule, s')
    ensures s' == s.(fatals := s.fatals[t := StopEach(ORDER, k + 1)], stops := s'.stops)
    ensures s'.stops[svc] == s.stops[svc] + if Rank(svc) == k then 1 else 0
  {
    RankOf(k);
    schedule := Extend(before, s, InFatal(t, StopOne));
    s' := s.(fatals := s.fatals[t := StopEach(ORDER, k + 1)], stops := s.stops + multiset{ORDER[k]});
  }

  /** It stops the services up to `svc`. */
  lemma WorkThrough(before: seq<Step>, start: State, t: Thread, svc: Service) returns (schedule: seq<Step>, s: State)
    requires Leads(before, start) && !start.dead && t in start.fatals && start.fatals[t] == StopEach(ORDER, 0)
    ensures Leads(schedule, s)
    ensures s == start.(fatals := s.fatals, stops := s.stops)
    ensures s.fatals == start.fatals[t := StopEach(ORDER, Rank(svc) + 1)]
    ensures s.stops[svc] == start.stops[svc] + 1
  {
    schedule, s := before, start;
    for k := 0 to Rank(svc) + 1
      invariant Leads(schedule, s)
      invariant s == start.(fatals := s.fatals, stops := s.stops) && s.fatals == start.fatals[t := StopEach(ORDER, k)]
      invariant s.stops[svc] == start.stops[svc] + if k > Rank(svc) then 1 else 0
    {
      ghost var f := s.fatals;
      schedule, s := StopOneMore(schedule, s, t, k, svc);
      assert f[t := StopEach(ORDER, k + 1)] == start.fatals[t := StopEach(ORDER, k + 1)];
    }
  }

  lemma OneMoreWorked(m: nat, i: nat, k: nat)
    requires i < m <= |ORDER|
    ensures Waiter(ORDER[i]) in Fatals(m, i, k) && Fatals(m, i, k)[Waiter(ORDER[i])] == StopEach(ORDER, 0)
    ensures Fatals(m, i, k)[Waiter(ORDER[i]) := StopEach(ORDER, k)] == Fatals(m, i + 1, k)
  {
    FirstWaitersAre(m);
    RankOf(i);
    var before, after := Fatals(m, i, k), Fatals(m, i + 1, k);
    forall t | t in after ensures after[t] == before[Waiter(ORDER[i]) := StopEach(ORDER, k)][t] {
      assert t == Waiter(ORDER[i]) <==> Rank(t.svc) == i;
    }
  }

  lemma NoneWorked(m: nat, k: nat)
    requires m <= |ORDER|
    ensures Fatals(m, 0, k) == Fatals(m, 0, 0)
  {
  }

  /** The first `i` of them do, so `svc` is stopped once by each. */
  lemma {:induction false} FatalsStop(m: nat, i: nat, svc: Service) returns (schedule: seq<Step>, s: State)
    requires i <= m <= |ORDER|
    ensures Leads(schedule, s) && s == NODE_AWAITED.(fatals := Fatals(m, i, Rank(svc) + 1), stops := s.stops)
    ensures s.stops[svc] == i + Base(svc) - 1
  {
    if i == 0 {
      schedule := ProcessesEnd(m);
      NoneWorked(m, Rank(svc) + 1);
      s := NODE_AWAITED.(fatals := Fatals(m, 0, 0));
    } else {
      schedule, s := FatalsStop(m, i - 1, svc);
      OneMoreWorked(m, i - 1, Rank(svc) + 1);
      schedule, s := WorkThrough(schedule, s, Waiter(ORDER[i - 1]), svc);
    }
  }

  /** Meanwhile the node gets ready, and the checks are enabled. */
  lemma ChecksEnabled(before: seq<Step>, start: State) returns (schedule: seq<Step>, s: State)
    requires Leads(before, start) && start == NODE_AWAITED.(fatals := start.fatals, stops := start.stops)
    requires MainThread !in start.fatals
    ensures Leads(schedule, s) && s == start.(main := EnablingChecks(|ORDER|), graceful := true, checked := ORDER)
  {
    schedule := Extend(before, start, ByMain(NodeReady));
    s := start.(main := Armed);
    schedule := Extend(schedule, s, ByMain(SetGraceful));
    s := start.(main := EnablingChecks(0), graceful := true);
    for j := 0 to |ORDER|
      invariant Leads(schedule, s)
      invariant s == start.(main := EnablingChecks(j), graceful := true, checked := ORDER[..j])
    {
      schedule := Extend(schedule, s, ByMain(EnableCheck));
      s := s.(main := EnablingChecks(j + 1), checked := ORDER[..j] + [ORDER[j]]);
      assert ORDER[..j + 1] == ORDER[..j] + [ORDER[j]];
    }
    assert ORDER[..|ORDER|] == ORDER;
  }

  /** Then the main thread goes on to the shutdown. */
  lemma MainGoesOn(before: seq<Step>, start: State) returns (schedule: seq<Step>, s: State)
    requires Leads(before, start) && start == NODE_AWAITED.(fatals := start.fatals, stops := start.stops)
    requires MainThread !in start.fatals && Drainer !in start.fatals
    ensures Leads(schedule, s)
    ensures s == start.(main := Stopping(0), graceful := true, checked := ORDER)
  {
    schedule, s := ChecksEnabled(before, start);
    schedule := Extend(schedule, s, ByMain(EnableCheck));
    s := s.(main := Deploying);
    schedule := Extend(schedule, s, ByMain(Deploy));
    s := s.(main := WaitingForExit);
    schedule := Extend(schedule, s, ByMain(ExitSignal));
    s := s.(main := Stopping(0));
  }

  /** One stop of each of the first `n` services. */
  function FirstStops(n: nat): multiset<Service>
    requires n <= |ORDER|
  {
    if n == 0 then multiset{} else FirstStops(n - 1) + multiset{ORDER[n - 1]}
  }

  lemma {:induction false} FirstStopsOf(n: nat, svc: Service)
    requires n <= |ORDER|
    ensures FirstStops(n)[svc] == if Rank(svc) < n then 1 else 0
  {
    if n > 0 {
      FirstStopsOf(n - 1, svc);
      RankOf(n - 1);
    }
  }

  /** The shutdown has stopped the first `n` services. */
  function ShutdownAt(start: State, n: nat): State
    requires n <= |ORDER|
  {
    start.(main := Stopping(n), stops := start.stops + FirstStops(n))
  }

  lemma ShutdownStarts(start: State)
    requires start.main == Stopping(0)
    ensures ShutdownAt(start, 0) == start
  {
    assert start.stops + FirstStops(0) == start.stops;
  }

  lemma ShutdownNext(before: seq<Step>, start: State, n: nat) returns (schedule: seq<Step>)
    requires n < |ORDER| && Leads(before, ShutdownAt(start, n))
    requires !start.dead && MainThread !in start.fatals && start.handlers == ORDER
    ensures Leads(schedule, ShutdownAt(start, n + 1))
  {
    schedule := Extend(before, ShutdownAt(start, n), ByMain(StopNext));
    assert start.stops + FirstStops(n) + multiset{ORDER[n]} == start.stops + FirstStops(n + 1);
  }

  lemma {:induction false} ShutdownUpTo(before: seq<Step>, start: State, n: nat) returns (schedule: seq<Step>)
    requires n <= |ORDER| && Leads(before, ShutdownAt(start, 0))
    requires !start.dead && MainThread !in start.fatals && start.handlers == ORDER
    ensures Leads(schedule, ShutdownAt(start, n))
    decreases n
  {
    if n == 0 {
      schedule := before;
    } else {
      schedule := ShutdownUpTo(before, start, n - 1);
      schedule := ShutdownNext(schedule, start, n - 1);
    }
  }

  const FINISHED :=
    State(Done, true, ORDER, ORDER, ORDER, map[], multiset{KubeProxy} + multiset(ORDER), true)

  lemma AllStops()
    ensures FirstStops(|ORDER|) == multiset(ORDER)
  {
    forall svc ensures FirstStops(|ORDER|)[svc] == multiset(ORDER)[svc] {
      FirstStopsOf(|ORDER|, svc);
      assert svc in ORDER;
    }
  }

  /** The run without any Fatal. */
  lemma WholeRun() returns (schedule: seq<Step>)
    ensures Leads(schedule, FINISHED)
  {
    schedule := Startup();
    var s: State;
    schedule, s := MainGoesOn(schedule, NODE_AWAITED);
    ShutdownStarts(s);
    schedule := ShutdownUpTo(schedule, s, |ORDER|);
    AllStops();
    schedule := Extend(schedule, ShutdownAt(s, |ORDER|), ByMain(StopNext));
  }

  /** The service after the first `n` did not get healthy; the main thread has stopped `k` of those before it. */
  function FailedAt(n: nat, k: nat): State
    requires k <= n < |ORDER|
  {
    State(Awaiting(n), false, ORDER[..n], ORDER[..n], [], map[MainThread := StopEach(ORDER[..n], k)], FirstStops(k),
          false)
  }

  lemma FailureStarts(n: nat) returns (schedule: seq<Step>)
    requires n < |ORDER|
    ensures Leads(schedule, FailedAt(n, 0))
  {
    schedule := StartupUpTo(n);
    var s := StartedUpTo(n);
    schedule := Extend(schedule, s, ByMain(StartProcess));
    s := s.(main := Awaiting(n));
    schedule, s := EnterFatal(schedule, s, MainThread);
    assert s.fatals == map[MainThread := StopEach(ORDER[..n], 0)];
  }

  lemma FailureStopsNext(before: seq<Step>, n: nat, k: nat) returns (schedule: seq<Step>)
    requires k < n < |ORDER| && Leads(before, FailedAt(n, k))
    ensures Leads(schedule, FailedAt(n, k + 1))
  {
    var s := FailedAt(n, k);
    schedule := Extend(before, s, InFatal(MainThread, StopOne));
    assert s.fatals[MainThread := StopEach(ORDER[..n], k + 1)] == FailedAt(n, k + 1).fatals;
  }

  lemma {:induction false} FailureUpTo(n: nat, k: nat) returns (schedule: seq<Step>)
    requires k <= n < |ORDER|
    ensures Leads(schedule, FailedAt(n, k))
  {
    if k == 0 {
      schedule := FailureStarts(n);
    } else {
      schedule := FailureUpTo(n, k - 1);
      schedule := FailureStopsNext(schedule, n, k - 1);
    }
  }

  /** How a run ends whose startup fails at the service after the first `n`. */
  function Failed(n: nat): State
    requires n < |ORDER|
  {
    FailedAt(n, n).(dead := true)
  }

  lemma FailedRun(n: nat) returns (schedule: seq<Step>)
    requires n < |ORDER|
    ensures Leads(schedule, Failed(n))
  {
    schedule := FailureUpTo(n, n);
    schedule := Extend(schedule, FailedAt(n, n), InFatal(MainThread, Exit));
  }

  /** That run, and the stops in it. */
  lemma FailedStops(n: nat) returns (schedule: seq<Step>)
    requires n < |ORDER|
    ensures Execute(schedule) == Some(Failed(n)) && Failed(n).stops == multiset(ORDER[..n])
  {
    schedule := FailedRun(n);
    LeadsMeans(schedule, Failed(n));
    StopsOfFirst(n);
  }

  lemma {:induction false} StopsOfFirst(n: nat)
    requires n <= |ORDER|
    ensures multiset(ORDER[..n]) == FirstStops(n)
  {
    if n > 0 {
      StopsOfFirst(n - 1);
      assert ORDER[..n] == ORDER[..n - 1] + [ORDER[n - 1]];
    }
  }

  /**
   * A run in which `m` Fatals, raised by the ends of `m` processes before the node is ready,
   * and the shutdown all stop `svc`; the last of these stops is the next step.
   */
  lemma StopsReached(m: nat, svc: Service) returns (schedule: seq<Step>, s: State)
    requires m <= |ORDER|
    ensures Leads(schedule, s) && s.stops[svc] == m + Base(svc) - 1
    ensures Enabled(s, ByMain(StopNext)) && Stopped(s, ByMain(StopNext)) == Some(svc)
    ensures |Reach(s.fatals, svc)| <= m && Apply(s, ByMain(StopNext)).fatals == s.fatals
  {
    schedule, s := FatalsStop(m, m, svc);
    FirstWaitersAre(m);
    schedule, s := MainGoesOn(schedule, s);
    ShutdownStarts(s);
    schedule := ShutdownUpTo(schedule, s, Rank(svc));
    FirstStopsOf(Rank(svc), svc);
    s := ShutdownAt(s, Rank(svc));
    SubsetCount(Reach(s.fatals, svc), FirstWaiters(m));
  }

  /** The bound for all runs is reached, for every service. */
  lemma BoundIsReached(svc: Service) returns (schedule: seq<Step>)
    ensures Execute(schedule).Some? && Execute(schedule).value.stops[svc] == Base(svc) + |ORDER|
  {
    var s: State;
    schedule, s := StopsReached(|ORDER|, svc);
    StopsOfStep(s, ByMain(StopNext), svc);
    schedule := Extend(schedule, s, ByMain(StopNext));
    LeadsMeans(schedule, Apply(s, ByMain(StopNext)));
  }

  ghost predicate AtMostTwoStops(n: nat, svc: Service) {
    forall schedule :: Execute(schedule).Some? && |Reach(Execute(schedule).value.fatals, svc)| <= n ==>
      Execute(schedule).value.stops[svc] <= 2
  }

  /**
   * In all runs in which at most `n` Fatals find a handler registered it is stopped at most
   * twice, if and only if `n` is at most one, and for kube-proxy zero.
   */
  lemma AtMostTwoStopsIff(n: nat, svc: Service)
    ensures AtMostTwoStops(n, svc) <==> n + Base(svc) <= 2
  {
    if n + Base(svc) <= 2 {
      forall schedule | Execute(schedule).Some? && |Reach(Execute(schedule).value.fatals, svc)| <= n
        ensures Execute(schedule).value.stops[svc] <= 2
      {
        StopsBound(schedule, svc);
      }
    } else {
      var schedule, s := StopsReached(3 - Base(svc), svc);
      StopsOfStep(s, ByMain(StopNext), svc);
      schedule := Extend(schedule, s, ByMain(StopNext));
      LeadsMeans(schedule, Apply(s, ByMain(StopNext)));
      assert |Reach(Execute(schedule).value.fatals, svc)| <= n;
    }
  }
}
