/**
 * The Kubernetes client: waiting for the node and draining it, against a cluster that may
 * change between any two requests.
 */
module KubeClient {
  import opened Prelude

  datatype Condition = Condition(isReadyType: bool, isTrue: bool)

  datatype Node = Node(name: string, unschedulable: bool, conditions: seq<Condition>)

  datatype Pod = Pod(namespace: string, name: string)

  datatype GetResult = Found | NotFound | Failed

  /**
   * The cluster's answers. Time is the number of requests and sleeps so far; None is an
   * error, and `expired` says whether the deadline has passed.
   */
  datatype Cluster = Cluster(
    nodes: nat -> Option<seq<Node>>,
    pods: nat -> Option<seq<Pod>>,
    evicts: (nat, Pod) -> bool,
    get: (nat, Pod) -> GetResult,
    expired: nat -> bool)

  datatype Action =
    | ListNodes
    | Patch(node: string, unschedulable: bool)
    | ListPods
    | Evict(pod: Pod, ok: bool)
    | Get(pod: Pod, result: GetResult)
    | Sleep

  datatype Result = Ok | DeadlineExceeded | NoNode | Fatal | Unfinished

  /** The last condition of type Ready decides. */
  ghost predicate IsReady(conditions: seq<Condition>) {
    exists i :: 0 <= i < |conditions| && conditions[i] == Condition(true, true)
                && forall j :: i < j < |conditions| ==> !conditions[j].isReadyType
  }

  /** The evictions that are attempted for `pods` from time `t` on. */
  function Evictions(c: Cluster, t: nat, pods: seq<Pod>): seq<Action> {
    seq(|pods|, i requires 0 <= i < |pods| => Evict(pods[i], c.evicts(t + i, pods[i])))
  }

  /** The pods whose eviction succeeded. */
  function Evicted(actions: seq<Action>): seq<Pod> {
    if actions == [] then []
    else
      var last := actions[|actions| - 1];
      Evicted(actions[..|actions| - 1]) + if last.Evict? && last.ok then [last.pod] else []
  }

  /**
   * `pending` are the pods whose eviction succeeds, in the order of the list: those at the
   * positions `chosen`.
   */
  ghost predicate Chosen(c: Cluster, t: nat, pods: seq<Pod>, chosen: seq<nat>, pending: seq<Pod>) {
    && |chosen| == |pending|
    && (forall j, k :: 0 <= j < k < |chosen| ==> chosen[j] < chosen[k])
    && (forall j :: 0 <= j < |chosen| ==> chosen[j] < |pods| && pending[j] == pods[chosen[j]])
    && (forall i :: 0 <= i < |pods| ==> (i in chosen <==> c.evicts(t + i, pods[i])))
  }

  lemma ChosenNext(c: Cluster, t: nat, pods: seq<Pod>, i: nat, chosen: seq<nat>, pending: seq<Pod>)
    requires i < |pods| && Chosen(c, t, pods[..i], chosen, pending)
    ensures if c.evicts(t + i, pods[i]) then Chosen(c, t, pods[..i + 1], chosen + [i], pending + [pods[i]])
            else Chosen(c, t, pods[..i + 1], chosen, pending)
  {
    var before, after := pods[..i], pods[..i + 1];
    assert forall k :: 0 <= k < i ==> after[k] == before[k];
    forall k | 0 <= k < i ensures k in chosen <==> c.evicts(t + k, after[k]) {
      assert k in chosen <==> c.evicts(t + k, before[k]);
    }
    assert i !in chosen;
  }

  /** Evicted selects exactly these. */
  lemma {:induction false} EvictedAreChosen(c: Cluster, t: nat, pods: seq<Pod>) returns (chosen: seq<nat>)
    ensures Chosen(c, t, pods, chosen, Evicted(Evictions(c, t, pods)))
    ensures forall p :: p in Evicted(Evictions(c, t, pods)) <==>
                        exists i :: 0 <= i < |pods| && pods[i] == p && c.evicts(t + i, p)
    decreases |pods|
  {
    var pending := Evicted(Evictions(c, t, pods));
    if pods == [] {
      chosen := [];
    } else {
      var n := |pods| - 1;
      chosen := EvictedAreChosen(c, t, pods[..n]);
      EvictionsNext(c, t, pods, n);
      assert pods[..n + 1] == pods;
      ChosenNext(c, t, pods, n, chosen, Evicted(Evictions(c, t, pods[..n])));
      if c.evicts(t + n, pods[n]) {
        chosen := chosen + [n];
      }
    }
    ChosenMembers(c, t, pods, chosen, pending);
  }

  lemma ChosenMembers(c: Cluster, t: nat, pods: seq<Pod>, chosen: seq<nat>, pending: seq<Pod>)
    requires Chosen(c, t, pods, chosen, pending)
    ensures forall p :: p in pending <==> exists i :: 0 <= i < |pods| && pods[i] == p && c.evicts(t + i, p)
  {
    forall p | p in pending ensures exists i :: 0 <= i < |pods| && pods[i] == p && c.evicts(t + i, p) {
      var j :| 0 <= j < |pending| && pending[j] == p;
      assert chosen[j] in chosen;
      assert pods[chosen[j]] == p && c.evicts(t + chosen[j], p);
    }
    forall p | exists i :: 0 <= i < |pods| && pods[i] == p && c.evicts(t + i, p) ensures p in pending {
      var i :| 0 <= i < |pods| && pods[i] == p && c.evicts(t + i, p);
      var j :| 0 <= j < |chosen| && chosen[j] == i;
      assert pending[j] == p;
    }
  }

  /** The deadline does not pass while `n` evictions are requested from time `t` on. */
  ghost predicate InTime(c: Cluster, t: nat, n: nat) {
    forall u :: t <= u <= t + n ==> !c.expired(u)
  }

  ghost predicate AllRefused(c: Cluster, t: nat, pods: seq<Pod>) {
    forall i :: 0 <= i < |pods| ==> !c.evicts(t + i, pods[i])
  }

  lemma {:induction false} RefusedAreNotPending(c: Cluster, t: nat, pods: seq<Pod>)
    requires AllRefused(c, t, pods)
    ensures Evicted(Evictions(c, t, pods)) == []
    decreases |pods|
  {
    if pods != [] {
      var n := |pods| - 1;
      RefusedAreNotPending(c, t, pods[..n]);
      EvictionsNext(c, t, pods, n);
      assert pods[..n + 1] == pods;
    }
  }

  /** One round of asking for every pending pod, starting at time `t`. */
  function Sweep(c: Cluster, t: nat, pods: seq<Pod>): seq<Action> {
    seq(|pods|, i requires 0 <= i < |pods| => Get(pods[i], c.get(t + i, pods[i])))
  }

  /** No pod of the sweep was found. */
  ghost predicate Clean(c: Cluster, t: nat, pods: seq<Pod>) {
    forall i :: 0 <= i < |pods| ==> c.get(t + i, pods[i]) != Found
  }

  /** From time `g` on, none of the pods is found. */
  ghost predicate GoneFrom(c: Cluster, g: nat, pods: seq<Pod>) {
    forall t, p :: t >= g && p in pods ==> c.get(t, p) != Found
  }

  ghost predicate ExpiredFrom(c: Cluster, d: nat) {
    forall t :: t >= d ==> c.expired(t)
  }

  /** The node list that ends the program: an error, or more than one node. */
  predicate BadList(c: Cluster, t: nat) {
    c.nodes(t).None? || |c.nodes(t).value| > 1
  }

  /** From time `g` on there is one node, and it is ready. */
  ghost predicate ReadyFrom(c: Cluster, g: nat) {
    forall t :: t >= g ==> c.nodes(t).Some? && |c.nodes(t).value| == 1 && IsReady(c.nodes(t).value[0].conditions)
  }

  /** The node list is empty, and the reference from an earlier call is to a node that was ready. */
  ghost predicate StaleReady(c: Cluster, t: nat, nodeRef: Option<Node>) {
    !c.expired(t) && c.nodes(t) == Some([]) && nodeRef.Some? && IsReady(nodeRef.value.conditions)
  }

  /** From time `t` on the log has the node list, the unschedulable patch and the pod list. */
  ghost predicate Cordoned(c: Cluster, t: nat, nodeRef: Option<Node>, log: seq<Action>) {
    && nodeRef.Some? && c.pods(t + 2).Some? && |log| >= t + 3
    && log[t] == ListNodes && log[t + 1] == Patch(nodeRef.value.name, true) && log[t + 2] == ListPods
  }

  /** From time `t` on the log evicts the pods, and it ends with a sweep that found none of those evicted. */
  ghost predicate EvictedAndGone(c: Cluster, t: nat, pods: seq<Pod>, log: seq<Action>, last: nat) {
    var pending := Evicted(Evictions(c, t, pods));
    && t + |pods| <= last <= |log|
    && log[t..t + |pods|] == Evictions(c, t, pods)
    && log[last..] == Sweep(c, last, pending) && Clean(c, last, pending)
  }

  class KubeClient {
    var node: string
    var nodeRef: Option<Node>
    var log: seq<Action>

    constructor ()
      ensures node == "" && nodeRef == None && log == []
    {
      node, nodeRef, log := "", None, [];
    }

    /** An empty list leaves the reference of an earlier call in place. */
    method FindNode(c: Cluster) returns (fatal: bool)
      modifies this
      ensures old(node) != "" ==> !fatal && node == old(node) && nodeRef == old(nodeRef) && log == old(log)
      ensures old(node) == "" ==>
                var list := c.nodes(|old(log)|);
                && log == old(log) + [ListNodes]
                && fatal == BadList(c, |old(log)|)
                && nodeRef == (if list.Some? && |list.value| == 1 then Some(list.value[0]) else old(nodeRef))
                && node == (if list.Some? && |list.value| == 1 then list.value[0].name else "")
    {
      if node != "" {
        return false;
      }
      var list := c.nodes(|log|);
      log := log + [ListNodes];
      if list.None? {
        return true;
      }
      if |list.value| < 1 {
        return false;
      }
      if |list.value| > 1 {
        return true;
      }
      nodeRef := Some(list.value[0]);
      node := list.value[0].name;
      fatal := false;
    }

    /** Asks to evict every pod, unless the deadline passes. */
    method EvictAll(c: Cluster, pods: seq<Pod>) returns (expired: bool, pending: seq<Pod>, ghost chosen: seq<nat>)
      modifies this`log
      ensures |old(log)| <= |log| <= |old(log)| + |pods|
      ensures log == old(log) + Evictions(c, |old(log)|, pods[..|log| - |old(log)|])
      ensures expired <==> |log| < |old(log)| + |pods|
      ensures expired ==> c.expired(|log|)
      ensures Chosen(c, |old(log)|, pods[..|log| - |old(log)|], chosen, pending)
      ensures pending == Evicted(log[|old(log)|..])
    {
      pending, chosen := [], [];
      for i := 0 to |pods|
        invariant log == old(log) + Evictions(c, |old(log)|, pods[..i])
        invariant pending == Evicted(Evictions(c, |old(log)|, pods[..i]))
      {
        assert log[|old(log)|..] == Evictions(c, |old(log)|, pods[..i]);
        if c.expired(|log|) {
          chosen := EvictedAreChosen(c, |old(log)|, pods[..i]);
          return true, pending, chosen;
        }
        var ok := c.evicts(|log|, pods[i]);
        log := log + [Evict(pods[i], ok)];
        EvictionsNext(c, |old(log)|, pods, i);
        if ok {
          pending := pending + [pods[i]];
        }
      }
      assert log[|old(log)|..] == Evictions(c, |old(log)|, pods[..|pods|]);
      chosen := EvictedAreChosen(c, |old(log)|, pods[..|pods|]);
      expired := false;
    }

    /** One round of asking; `running` pods were found. */
    method SweepOnce(c: Cluster, pending: seq<Pod>) returns (running: nat)
      modifies this`log
      ensures log == old(log) + Sweep(c, |old(log)|, pending)
      ensures running == 0 <==> Clean(c, |old(log)|, pending)
    {
      running := 0;
      for i := 0 to |pending|
        invariant log == old(log) + Sweep(c, |old(log)|, pending[..i])
        invariant running == 0 <==> Clean(c, |old(log)|, pending[..i])
      {
        var result := c.get(|log|, pending[i]);
        SweepNext(c, |old(log)|, pending, i);
        log := log + [Get(pending[i], result)];
        if result == Found {
          running := running + 1;
        }
      }
      assert pending[..|pending|] == pending;
    }

    /** Sweeps until no pending pod is found, at most `sweeps` times. */
    method WaitUntilGone(c: Cluster, pending: seq<Pod>, sweeps: nat) returns (r: Result, ghost last: nat)
      modifies this`log
      ensures r == Ok || r == DeadlineExceeded || r == Unfinished
      ensures old(log) <= log && forall i :: |old(log)| <= i < |log| ==> log[i].Get? || log[i].Sleep?
      ensures r == Ok ==> |old(log)| <= last <= |log|
                          && log[last..] == Sweep(c, last, pending) && Clean(c, last, pending)
      ensures r == DeadlineExceeded ==> c.expired(|log|)
      ensures r == Unfinished ==> forall g: nat :: GoneFrom(c, g, pending) || ExpiredFrom(c, g) ==> sweeps <= g
      ensures pending == [] && !c.expired(|old(log)|) && sweeps > 0 ==> r == Ok
    {
      last := 0;
      ghost var found := 0;
      for k := 0 to sweeps
        invariant old(log) <= log && |log| >= k
        invariant forall i :: |old(log)| <= i < |log| ==> log[i].Get? || log[i].Sleep?
        invariant forall g: nat :: GoneFrom(c, g, pending) || ExpiredFrom(c, g) ==> k <= g
        invariant pending == [] ==> k == 0 && log == old(log)
      {
        if c.expired(|log|) {
          return DeadlineExceeded, last;
        }
        last := |log|;
        ghost var before := log;
        var running := SweepOnce(c, pending);
        assert log[..last] == before;
        if running == 0 {
          return Ok, last;
        }
        forall g: nat | GoneFrom(c, g, pending) || ExpiredFrom(c, g) ensures k + 1 <= g {
          if GoneFrom(c, g, pending) {
            FoundMeansNotGone(c, last, pending, g);
          }
        }
        log := log + [Sleep];
      }
      r := Unfinished;
    }

    /** The part of DrainNode that follows the pod list. */
    method EvictAndWait(c: Cluster, pods: seq<Pod>, sweeps: nat) returns (r: Result, ghost last: nat)
      modifies this`log
      ensures (r == Ok || r == DeadlineExceeded || r == Unfinished) && old(log) <= log
      ensures r == Ok ==> EvictedAndGone(c, |old(log)|, pods, log, last)
      ensures r == DeadlineExceeded ==> c.expired(|log|)
      ensures r == Unfinished ==>
                var pending := Evicted(Evictions(c, |old(log)|, pods));
                forall g: nat :: GoneFrom(c, g, pending) || ExpiredFrom(c, g) ==> sweeps <= g
      ensures AllRefused(c, |old(log)|, pods) && InTime(c, |old(log)|, |pods|) && sweeps > 0 ==> r == Ok
    {
      last := 0;
      var expired: bool;
      var pending: seq<Pod>;
      ghost var chosen: seq<nat>;
      expired, pending, chosen := EvictAll(c, pods);
      assert pods[..|pods|] == pods;
      if expired {
        return DeadlineExceeded, last;
      }
      ghost var t, evicted := |old(log)|, log;
      assert evicted[t..] == Evictions(c, t, pods);
      r, last := WaitUntilGone(c, pending, sweeps);
      assert log[t..t + |pods|] == evicted[t..];
      if AllRefused(c, t, pods) {
        RefusedAreNotPending(c, t, pods);
      }
    }

    /**
     * Drains the node. On success the log is: the node list, the unschedulable patch, the
     * pod list, one eviction for each pod listed, and requests for pods up to a last sweep
     * over all evicted pods that found none of them.
     */
    method DrainNode(c: Cluster, sweeps: nat) returns (r: Result, ghost last: nat)
      modifies this
      ensures old(log) <= log
      ensures r == NoNode <==> old(nodeRef) == None && c.nodes(|old(log)|) == Some([])
      ensures r == Fatal <==> BadList(c, |old(log)|) || (r != NoNode && c.pods(|old(log)| + 2).None?)
      ensures r == NoNode || r == Fatal || Cordoned(c, |old(log)|, nodeRef, log)
      ensures r == Fatal || r == NoNode ==> |log| <= |old(log)| + 3
      ensures r == Ok ==> EvictedAndGone(c, |old(log)| + 3, c.pods(|old(log)| + 2).value, log, last)
      ensures r == DeadlineExceeded ==> c.expired(|log|)
      ensures r == Unfinished ==>
                var pending := Evicted(Evictions(c, |old(log)| + 3, c.pods(|old(log)| + 2).value));
                forall g: nat :: GoneFrom(c, g, pending) || ExpiredFrom(c, g) ==> sweeps <= g
      ensures r != Fatal && r != NoNode && sweeps > 0 ==>
                var pods := c.pods(|old(log)| + 2).value;
                AllRefused(c, |old(log)| + 3, pods) && InTime(c, |old(log)| + 3, |pods|) ==> r == Ok
    {
      last := 0;
      var pods: seq<Pod>;
      r, pods := Cordon(c);
      if r == Ok {
        r, last := EvictAndWait(c, pods, sweeps);
      }
    }

    /** The part of DrainNode up to the pod list. */
    method Cordon(c: Cluster) returns (r: Result, pods: seq<Pod>)
      modifies this
      ensures r == Ok || r == NoNode || r == Fatal
      ensures r == NoNode <==> old(nodeRef) == None && c.nodes(|old(log)|) == Some([])
      ensures r == Fatal <==> BadList(c, |old(log)|) || (r != NoNode && c.pods(|old(log)| + 2).None?)
      ensures old(log) <= log && |log| <= |old(log)| + 3
      ensures r == Ok ==> |log| == |old(log)| + 3 && Cordoned(c, |old(log)|, nodeRef, log)
                          && c.pods(|old(log)| + 2) == Some(pods)
    {
      pods := [];
      node := "";
      var fatal := FindNode(c);
      if fatal {
        return Fatal, pods;
      }
      if nodeRef.None? {
        assert c.nodes(|old(log)|).value == [];
        return NoNode, pods;
      }
      log := log + [Patch(nodeRef.value.name, true)];
      var list := c.pods(|log|);
      log := log + [ListPods];
      if list.None? {
        return Fatal, pods;
      }
      r, pods := Ok, list.value;
    }

    /** Waits for a node that is ready, at most `rounds` times. */
    method WaitForNode(c: Cluster, rounds: nat) returns (r: Result, ghost listed: nat)
      modifies this
      ensures old(log) <= log && r != NoNode
      ensures r == Ok ==>
                && nodeRef.Some?
                && (var conditions := nodeRef.value.conditions;
                    exists i :: 0 <= i < |conditions| && conditions[i].isReadyType && conditions[i].isTrue
                                && forall j :: i < j < |conditions| ==> !conditions[j].isReadyType)
                && |old(log)| <= listed < |log| && log[listed] == ListNodes
                && log[listed + 1..] == (if nodeRef.value.unschedulable then [Patch(nodeRef.value.name, false)] else [])
                && (c.nodes(listed) == Some([nodeRef.value])
                    || (listed == |old(log)| && c.nodes(listed) == Some([]) && nodeRef == old(nodeRef)))
      ensures StaleReady(c, |old(log)|, old(nodeRef)) && rounds > 0 ==> r == Ok
      ensures r == DeadlineExceeded ==> c.expired(|log|)
      ensures r == Fatal ==> |log| > |old(log)| && log[|log| - 1] == ListNodes && BadList(c, |log| - 1)
      ensures r == Unfinished ==> forall g: nat :: ReadyFrom(c, g) || ExpiredFrom(c, g) ==> rounds <= g
    {
      listed := 0;
      for k := 0 to rounds
        invariant old(log) <= log
        invariant nodeRef == old(nodeRef) || (nodeRef.Some? && !IsReady(nodeRef.value.conditions))
        invariant k > 0 ==> !StaleReady(c, |old(log)|, old(nodeRef))
        invariant k == 0 ==> nodeRef == old(nodeRef) && log == old(log)
        invariant k > 0 && nodeRef.Some? ==> !IsReady(nodeRef.value.conditions)
        invariant |log| >= k && forall g: nat :: ReadyFrom(c, g) || ExpiredFrom(c, g) ==> k <= g
      {
        if c.expired(|log|) {
          return DeadlineExceeded, listed;
        }
        node := "";
        listed := |log|;
        var fatal := FindNode(c);
        if fatal {
          return Fatal, listed;
        }
        if |c.nodes(listed).value| == 1 {
          assert c.nodes(listed).value == [nodeRef.value];
        } else {
          assert c.nodes(listed).value == [];
        }
        if nodeRef.Some? {
          var nodeReady := CheckConditions(nodeRef.value.conditions);
          if nodeReady {
            if nodeRef.value.unschedulable {
              log := log + [Patch(nodeRef.value.name, false)];
            }
            return Ok, listed;
          }
        }
        log := log + [Sleep];
      }
      r := Unfinished;
    }

    method CheckConditions(conditions: seq<Condition>) returns (nodeReady: bool)
      ensures nodeReady <==>
              exists i :: 0 <= i < |conditions| && conditions[i].isReadyType && conditions[i].isTrue
                          && forall j :: i < j < |conditions| ==> !conditions[j].isReadyType
    {
      nodeReady := false;
      for i := 0 to |conditions|
        invariant nodeReady == IsReady(conditions[..i])
      {
        ReadyNext(conditions, i);
        if conditions[i].isReadyType {
          nodeReady := conditions[i].isTrue;
        }
      }
      assert conditions[..|conditions|] == conditions;
    }
  }

  lemma ReadyNext(conditions: seq<Condition>, i: nat)
    requires i < |conditions|
    ensures IsReady(conditions[..i + 1]) <==>
            if conditions[i].isReadyType then conditions[i].isTrue else IsReady(conditions[..i])
  {
    var before, after := conditions[..i], conditions[..i + 1];
    assert forall k :: 0 <= k < i ==> after[k] == before[k];
    assert after[i] == conditions[i];
    if !conditions[i].isReadyType && IsReady(before) {
      var k :| 0 <= k < i && before[k] == Condition(true, true) && forall j :: k < j < i ==> !before[j].isReadyType;
      assert after[k] == Condition(true, true);
    }
    if !conditions[i].isReadyType && IsReady(after) {
      var k :| 0 <= k <= i && after[k] == Condition(true, true) && forall j :: k < j <= i ==> !after[j].isReadyType;
      assert before[k] == Condition(true, true);
    }
    if conditions[i] == Condition(true, true) {
      assert after[i] == Condition(true, true);
    }
  }

  lemma FoundMeansNotGone(c: Cluster, t: nat, pods: seq<Pod>, g: nat)
    requires !Clean(c, t, pods) && GoneFrom(c, g, pods)
    ensures g > t
  {
    var i :| 0 <= i < |pods| && c.get(t + i, pods[i]) == Found;
    assert pods[i] in pods;
  }

  lemma EvictionsNext(c: Cluster, t: nat, pods: seq<Pod>, i: nat)
    requires i < |pods|
    ensures Evictions(c, t, pods[..i + 1]) == Evictions(c, t, pods[..i]) + [Evict(pods[i], c.evicts(t + i, pods[i]))]
    ensures Evictions(c, t, pods[..i + 1])[..i] == Evictions(c, t, pods[..i])
  {
  }

  lemma SweepNext(c: Cluster, t: nat, pods: seq<Pod>, i: nat)
    requires i < |pods|
    ensures Sweep(c, t, pods[..i + 1]) == Sweep(c, t, pods[..i]) + [Get(pods[i], c.get(t + i, pods[i]))]
    ensures Clean(c, t, pods[..i + 1]) <==> Clean(c, t, pods[..i]) && c.get(t + i, pods[i]) != Found
  {
    var a, b := pods[..i], pods[..i + 1];
    assert b == a + [pods[i]];
    if Clean(c, t, b) {
      assert b[i] == pods[i];
      forall k | 0 <= k < |a| ensures c.get(t + k, a[k]) != Found {
        assert b[k] == a[k];
      }
    }
  }

  // ---- What a successful drain says about the cluster

  /**
   * A possible history of the cluster, as the set of pods at every time: from the time
   * `from` on a pod that is gone does not come back, and the answers Found and NotFound are
   * true. Other errors say nothing.
   */
  ghost predicate Explains(present: nat -> set<Pod>, log: seq<Action>, from: nat) {
    && (forall t: nat, u: nat, p :: from <= t <= u && p !in present(t) ==> p !in present(u))
    && (forall k: nat, p :: from <= k < |log| && log[k] == Get(p, NotFound) ==> p !in present(k))
    && (forall k: nat, p :: from <= k < |log| && log[k] == Get(p, Found) ==> p in present(k))
  }

  /** No pod is found after it was not. */
  ghost predicate Coherent(log: seq<Action>, from: nat) {
    forall j, k, p :: from <= j <= k < |log| && log[j] == Get(p, NotFound) ==> log[k] != Get(p, Found)
  }

  /** Some request for the pod was answered by NotFound. */
  predicate SeenGone(log: seq<Action>, from: nat, p: Pod) {
    exists k :: from <= k < |log| && log[k] == Get(p, NotFound)
  }

  /** What the log says up to and including time `t`. */
  function Until(log: seq<Action>, t: nat): (r: seq<Action>)
    ensures r <= log
  {
    if t < |log| then log[..t + 1] else log
  }

  lemma SeenLater(log: seq<Action>, from: nat, p: Pod, t: nat, u: nat)
    requires t <= u && SeenGone(Until(log, t), from, p)
    ensures SeenGone(Until(log, u), from, p)
  {
    var k :| from <= k < |Until(log, t)| && Until(log, t)[k] == Get(p, NotFound);
    assert Until(log, u)[k] == Get(p, NotFound);
  }

  /** The pods that were asked for. */
  function Asked(log: seq<Action>): (r: set<Pod>)
    ensures forall p :: p in r <==> exists k :: 0 <= k < |log| && log[k].Get? && log[k].pod == p
  {
    set k | 0 <= k < |log| && log[k].Get? :: log[k].pod
  }

  /** The history in which every pod that was asked for stays until it is seen to be gone. */
  function Lasting(log: seq<Action>, from: nat): nat -> set<Pod> {
    (t: nat) => set p | p in Asked(log) && !SeenGone(Until(log, t), from, p)
  }

  lemma FoundIsPresent(log: seq<Action>, from: nat, k: nat, p: Pod)
    requires Coherent(log, from) && from <= k < |log| && log[k] == Get(p, Found)
    ensures p in Lasting(log, from)(k)
  {
    forall j | from <= j < |Until(log, k)| ensures Until(log, k)[j] != Get(p, NotFound) {
      assert Until(log, k)[j] == log[j];
    }
  }

  lemma LastingExplains(log: seq<Action>, from: nat)
    requires Coherent(log, from)
    ensures Explains(Lasting(log, from), log, from)
  {
    var present := Lasting(log, from);
    forall t: nat, u: nat, p | from <= t <= u && p !in present(t) ensures p !in present(u) {
      if p in Asked(log) {
        SeenLater(log, from, p, t, u);
      }
    }
    forall k: nat, p | from <= k < |log| && log[k] == Get(p, NotFound) ensures p !in present(k) {
      assert Until(log, k)[k] == Get(p, NotFound);
    }
    forall k: nat, p | from <= k < |log| && log[k] == Get(p, Found) ensures p in present(k) {
      FoundIsPresent(log, from, k, p);
    }
  }

  /** A log has a history if and only if no pod is found after it was not. */
  lemma HistoryExistsIff(log: seq<Action>, from: nat)
    ensures (exists present: nat -> set<Pod> :: Explains(present, log, from)) <==> Coherent(log, from)
  {
    if Coherent(log, from) {
      LastingExplains(log, from);
    }
    if exists present: nat -> set<Pod> :: Explains(present, log, from) {
      var present: nat -> set<Pod> :| Explains(present, log, from);
      forall j: nat, k: nat, p | from <= j <= k < |log| && log[j] == Get(p, NotFound) ensures log[k] != Get(p, Found) {
        assert p !in present(j);
        assert p !in present(k);
      }
    }
  }

  lemma SeenMeansGone(present: nat -> set<Pod>, log: seq<Action>, from: nat, p: Pod)
    requires Explains(present, log, from) && SeenGone(log, from, p)
    ensures p !in present(|log|)
  {
    var k: nat :| from <= k < |log| && log[k] == Get(p, NotFound);
    assert p !in present(k);
  }

  /** In the last sweep a request that did not fail saw the pod gone. */
  lemma SweepSees(c: Cluster, t: nat, pods: seq<Pod>, log: seq<Action>, last: nat, i: nat)
    requires EvictedAndGone(c, t, pods, log, last)
    requires var pending := Evicted(Evictions(c, t, pods)); i < |pending| && c.get(last + i, pending[i]) != Failed
    ensures SeenGone(log, t, Evicted(Evictions(c, t, pods))[i])
  {
    var p := Evicted(Evictions(c, t, pods))[i];
    assert |log[last..]| == |Evicted(Evictions(c, t, pods))|;
    assert c.get(last + i, p) != Found;
    assert log[last..][i] == Get(p, NotFound);
    assert log[last + i] == Get(p, NotFound);
  }

  /** Every evicted pod is asked for in the last sweep. */
  lemma EvictedAreAsked(c: Cluster, t: nat, pods: seq<Pod>, log: seq<Action>, last: nat, p: Pod)
    requires EvictedAndGone(c, t, pods, log, last) && p in Evicted(Evictions(c, t, pods))
    ensures p in Asked(log)
  {
    var pending := Evicted(Evictions(c, t, pods));
    var i :| 0 <= i < |pending| && pending[i] == p;
    assert |log[last..]| == |pending|;
    assert log[last..][i] == Get(p, c.get(last + i, p));
    assert log[last + i].Get? && log[last + i].pod == p;
  }

  /** All evicted pods are absent together when the drain returns, in every history that explains the log. */
  ghost predicate GoneInEveryHistory(log: seq<Action>, from: nat, pending: seq<Pod>) {
    forall present: nat -> set<Pod> :: Explains(present, log, from) ==>
      forall p :: p in pending ==> p !in present(|log|)
  }

  /**
   * A successful drain guarantees that all evicted pods are absent together on return,
   * whatever the history of the cluster, if and only if each was seen to be gone, unless the
   * log has no history at all. This is so if no request of the last sweep failed for another reason.
   */
  lemma DrainedMeansGone(c: Cluster, t: nat, pods: seq<Pod>, log: seq<Action>, last: nat)
    requires EvictedAndGone(c, t, pods, log, last)
    ensures var pending := Evicted(Evictions(c, t, pods));
            && (GoneInEveryHistory(log, t, pending) <==>
                !Coherent(log, t) || forall p :: p in pending ==> SeenGone(log, t, p))
            && ((forall i :: 0 <= i < |pending| ==> c.get(last + i, pending[i]) != Failed) ==>
                (forall p :: p in pending ==> SeenGone(log, t, p)))
  {
    var pending := Evicted(Evictions(c, t, pods));
    forall present: nat -> set<Pod>, p | Explains(present, log, t) && SeenGone(log, t, p) ensures p !in present(|log|) {
      SeenMeansGone(present, log, t, p);
    }
    HistoryExistsIff(log, t);
    if Coherent(log, t) {
      LastingExplains(log, t);
    }
    forall p | p in pending && !SeenGone(log, t, p) ensures p in Lasting(log, t)(|log|) {
      EvictedAreAsked(c, t, pods, log, last, p);
    }
    forall i | 0 <= i < |pending| && c.get(last + i, pending[i]) != Failed ensures SeenGone(log, t, pending[i]) {
      SweepSees(c, t, pods, log, last, i);
    }
  }

  /** A drain can succeed without seeing its pod gone: one failing request is enough. */
  lemma FailedRequestHidesPod(c: Cluster, t: nat, p: Pod, log: seq<Action>)
    requires |log| == t && c.evicts(t, p) && c.get(t + 1, p) == Failed
    ensures var log' := log + [Evict(p, true), Get(p, Failed)];
            EvictedAndGone(c, t, [p], log', t + 1) && !SeenGone(log', t, p)
  {
    var evictions := Evictions(c, t, [p]);
    assert evictions == [Evict(p, true)];
    assert evictions[..0] == [];
    assert Evicted(evictions) == [p];
    assert Sweep(c, t + 1, [p]) == [Get(p, Failed)];
  }
}
