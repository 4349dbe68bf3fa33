/** The main thread of microkubed on its own, as a sequential program over its lists of services. */
module Microkubed {
  import opened Lifecycle
  import opened LifecycleRuns
  import opened Prelude
  import opened Services

  class Microkubed {
    var gracefulTerminationMode: bool
    var serviceHandlers: seq<Service>
    var serviceList: seq<Service>
    var checked: seq<Service>   // services with a running checkService
    var stopped: seq<Service>   // calls of Stop, in order

    constructor ()
      ensures !gracefulTerminationMode && serviceHandlers == [] && serviceList == [] && checked == [] && stopped == []
    {
      gracefulTerminationMode, serviceHandlers, serviceList, checked, stopped := false, [], [], [], [];
    }

    ghost predicate Represents(s: State)
      reads this
    {
      && gracefulTerminationMode == s.graceful && serviceHandlers == s.handlers && serviceList == s.listed
      && checked == s.checked && multiset(stopped) == s.stops && s.fatals == map[] && !s.dead
    }

    /** The program has ended, with the fields as in `s`. */
    ghost predicate Ended(s: State)
      reads this
    {
      && gracefulTerminationMode == s.graceful && serviceHandlers == s.handlers && serviceList == s.listed
      && checked == s.checked && multiset(stopped) == s.stops && s.dead
    }

    /** What startEtcd and its siblings do once their service is healthy. */
    method StartOne(i: nat)
      requires i < |ORDER| && Represents(StartedUpTo(i))
      modifies this`serviceHandlers, this`serviceList
      ensures serviceHandlers == old(serviceHandlers) + [ORDER[i]] && serviceList == old(serviceList) + [ORDER[i]]
      ensures Represents(StartedUpTo(i + 1))
    {
      serviceHandlers := serviceHandlers + [ORDER[i]];
      serviceList := serviceList + [ORDER[i]];
      assert ORDER[..i + 1] == ORDER[..i] + [ORDER[i]];
    }

    /** Starts the services in order, up to the first that does not become healthy in time. */
    method StartServices(healthy: nat -> bool) returns (n: nat)
      requires Represents(StartedUpTo(0))
      modifies this`serviceHandlers, this`serviceList
      ensures n <= |ORDER| && (n < |ORDER| ==> !healthy(n)) && forall i :: 0 <= i < n ==> healthy(i)
      ensures Represents(StartedUpTo(n))
    {
      n := 0;
      while n < |ORDER| && healthy(n)
        invariant n <= |ORDER| && Represents(StartedUpTo(n))
        invariant forall i :: 0 <= i < n ==> healthy(i)
      {
        StartOne(n);
        n := n + 1;
      }
    }

    /**
     * `healthy(i)`: does ORDER[i] become healthy in time? If not, startService calls Fatal.
     * The kube-proxy handler is stopped on the way out. The state is one that a run of the
     * lifecycle leads to.
     */
    method Start(healthy: nat -> bool) returns (ok: bool, ghost schedule: seq<Step>)
      requires Represents(INITIAL)
      modifies this
      ensures Execute(schedule).Some? && Represents(Execute(schedule).value)
      ensures ok <==> forall i :: 0 <= i < |ORDER| ==> healthy(i)
      ensures ok ==> Execute(schedule).value == NODE_AWAITED && stopped == [KubeProxy]
      ensures !ok ==> stopped == [] && |serviceHandlers| < |ORDER|
                      && Execute(schedule).value == StartedUpTo(|serviceHandlers|)
                      && !healthy(|serviceHandlers|) && forall i :: 0 <= i < |serviceHandlers| ==> healthy(i)
    {
      var n := StartServices(healthy);
      ok := n == |ORDER|;
      if ok {
        StopProxy();
        schedule := Startup();
        LeadsMeans(schedule, NODE_AWAITED);
      } else {
        schedule := StartupUpTo(n);
        LeadsMeans(schedule, StartedUpTo(n));
      }
    }

    method StopProxy()
      requires Represents(StartedUpTo(|ORDER|))
      modifies this`stopped
      ensures stopped == old(stopped) + [KubeProxy] && Represents(NODE_AWAITED)
    {
      assert ORDER[..|ORDER|] == ORDER;
      stopped := stopped + [KubeProxy];
    }

    /** What Fatal runs before the process ends: nothing in graceful mode, else stop what is registered. */
    method ExitHandler()
      modifies this`stopped
      ensures stopped == old(stopped) + if gracefulTerminationMode then [] else serviceHandlers
    {
      if !gracefulTerminationMode {
        StopAll();
      }
    }

    method StopAll()
      modifies this`stopped
      ensures stopped == old(stopped) + serviceHandlers
    {
      for i := 0 to |serviceHandlers|
        invariant stopped == old(stopped) + serviceHandlers[..i]
      {
        stopped := stopped + [serviceHandlers[i]];
      }
    }

    /** A forever check for every listed service, in order. */
    method EnableHealthChecks()
      modifies this`checked
      ensures checked == old(checked) + serviceList
    {
      for j := 0 to |serviceList|
        invariant checked == old(checked) + serviceList[..j]
      {
        checked := checked + [serviceList[j]];
      }
    }

    /**
     * A run in which only the main thread acts. Every service that was registered is stopped,
     * in order; the kube-proxy handler is also stopped before the node is ready. The
     * lifecycle has a run that ends in the same state, after a failed startup as well.
     */
    method Run(healthy: nat -> bool) returns (ok: bool, ghost schedule: seq<Step>)
      requires Represents(INITIAL)
      modifies this
      ensures ok <==> forall i :: 0 <= i < |ORDER| ==> healthy(i)
      ensures ok ==> gracefulTerminationMode && checked == ORDER && stopped == [KubeProxy] + ORDER
      ensures !ok ==> !gracefulTerminationMode && checked == [] && stopped == serviceHandlers
      ensures serviceHandlers <= ORDER
      ensures ok ==> Execute(schedule) == Some(FINISHED) && Ended(FINISHED)
      ensures !ok ==> |serviceHandlers| < |ORDER| && Execute(schedule) == Some(Failed(|serviceHandlers|))
                      && Ended(Failed(|serviceHandlers|))
    {
      ok, schedule := Start(healthy);
      if !ok {
        schedule := GiveUp(|serviceHandlers|);
        return;
      }
      Serve();
      schedule := WholeRun();
      LeadsMeans(schedule, FINISHED);
      assert multiset([KubeProxy] + ORDER) == multiset{KubeProxy} + multiset(ORDER);
    }

    /** Fatal after a failed startup. */
    method GiveUp(n: nat) returns (ghost schedule: seq<Step>)
      requires n < |ORDER| && Represents(StartedUpTo(n)) && stopped == []
      modifies this`stopped
      ensures stopped == serviceHandlers && Execute(schedule) == Some(Failed(n)) && Ended(Failed(n))
    {
      ExitHandler();
      schedule := FailedStops(n);
    }

    /** What follows once the node is ready: watch the services until the exit signal, then stop them. */
    method Serve()
      modifies this`gracefulTerminationMode, this`checked, this`stopped
      ensures gracefulTerminationMode
      ensures checked == old(checked) + serviceList && stopped == old(stopped) + serviceHandlers
    {
      gracefulTerminationMode := true;
      EnableHealthChecks();
      StopAll();
    }
  }
}
