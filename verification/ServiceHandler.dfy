/** The base of all service handlers: health probes with backoff, Stop, EnableHealthChecks, HandleExit. */
module ServiceHandler {
  import opened Arithmetic
  import HealthMachine
  import Supervision

  datatype Response = Answered(valid: bool) | DialError | OtherError

  datatype ProbeResult = Valid | Invalid | TimedOut | Failed | NoCredentials

  /** The k-th request of a probe, counted from 0, gets the response `responses(k)`. */
  type Responses = nat -> Response

  const FIRST_WAIT := 100    // milliseconds
  const WAIT_LIMIT := 7000

  /** The least number of doublings that takes `wait` beyond `limit`. */
  function Doublings(wait: nat, limit: nat): (k: nat)
    requires wait > 0
    decreases if wait > limit then 0 else limit - wait + 1
  {
    if wait > limit then 0 else 1 + Doublings(2 * wait, limit)
  }

  /** Requests that fail to dial before the first that does not, counting at most `bound`. */
  function LeadingDialErrors(responses: Responses, bound: nat): (n: nat)
    ensures n <= bound
    ensures forall i :: 0 <= i < n ==> responses(i).DialError?
    ensures n < bound ==> !responses(n).DialError?
  {
    if bound == 0 then 0
    else
      var n := LeadingDialErrors(responses, bound - 1);
      if n == bound - 1 && responses(n).DialError? then bound else n
  }

  /** The wait after `n` doublings. */
  function Wait(wait: nat, n: nat): nat {
    if n == 0 then wait else 2 * Wait(wait, n - 1)
  }

  /** The first `n` waits. */
  function Waits(wait: nat, n: nat): seq<nat> {
    if n == 0 then [] else Waits(wait, n - 1) + [Wait(wait, n - 1)]
  }

  function Sum(s: seq<nat>): nat {
    if s == [] then 0 else Sum(s[..|s| - 1]) + s[|s| - 1]
  }

  lemma {:induction false} WaitShift(wait: nat, n: nat)
    ensures Wait(2 * wait, n) == Wait(wait, n + 1)
  {
    if n > 0 {
      WaitShift(wait, n - 1);
    }
  }

  lemma {:induction false} DoublingsIsLeast(wait: nat, limit: nat)
    requires wait > 0
    ensures Wait(wait, Doublings(wait, limit)) > limit
    ensures forall i :: 0 <= i < Doublings(wait, limit) ==> Wait(wait, i) <= limit
    decreases if wait > limit then 0 else limit - wait + 1
  {
    if wait <= limit {
      var k := Doublings(2 * wait, limit);
      DoublingsIsLeast(2 * wait, limit);
      WaitShift(wait, k);
      forall i | 0 <= i < k + 1 ensures Wait(wait, i) <= limit {
        if i > 0 {
          WaitShift(wait, i - 1);
        }
      }
    }
  }

  /** The waits add up to the next one less the first. */
  lemma {:induction false} TotalWait(wait: nat, n: nat)
    ensures Sum(Waits(wait, n)) + wait == Wait(wait, n)
  {
    if n > 0 {
      TotalWait(wait, n - 1);
      assert Waits(wait, n)[..|Waits(wait, n)| - 1] == Waits(wait, n - 1);
    }
  }

  /** The waits come in order: the first is `wait`, and each is twice the one before. */
  lemma {:induction false} WaitsDouble(wait: nat, n: nat)
    ensures |Waits(wait, n)| == n
    ensures n > 0 ==> Waits(wait, n)[0] == wait
    ensures forall i :: 0 < i < n ==> Waits(wait, n)[i] == 2 * Waits(wait, n)[i - 1]
    ensures n > 0 ==> Waits(wait, n)[n - 1] == Wait(wait, n - 1)
  {
    if n > 0 {
      WaitsDouble(wait, n - 1);
    }
  }

  lemma {:induction false} WaitIsPower(wait: nat, n: nat)
    ensures Wait(wait, n) == wait * Pow2(n)
  {
    if n > 0 {
      WaitIsPower(wait, n - 1);
      Double(wait, Pow2(n - 1));
    }
  }

  lemma Double(a: nat, b: nat)
    ensures a * (2 * b) == 2 * (a * b)
  {
  }

  /** Persistent dial errors cost w * (2^k - 1) in sleep, which is less than twice the limit. */
  lemma TotalWaitBound(wait: nat, limit: nat)
    requires 0 < wait <= limit
    ensures var k := Doublings(wait, limit);
            Sum(Waits(wait, k)) == wait * Pow2(k) - wait <= 2 * limit - wait
  {
    var k := Doublings(wait, limit);
    DoublingsIsLeast(wait, limit);
    TotalWait(wait, k);
    WaitIsPower(wait, k);
    assert k > 0 && Wait(wait, k - 1) <= limit;
  }

  /** The constants of the handler: 7 sleeps, 12.7 seconds in all. */
  lemma BackoffConstants()
    ensures Doublings(FIRST_WAIT, WAIT_LIMIT) == 7
    ensures Sum(Waits(FIRST_WAIT, 7)) == 12700
  {
    assert Doublings(6400, WAIT_LIMIT) == 1;
    assert Doublings(1600, WAIT_LIMIT) == 3;
    assert Doublings(400, WAIT_LIMIT) == 5;
    assert Wait(FIRST_WAIT, 3) == 800;
    assert Wait(FIRST_WAIT, 5) == 3200;
    TotalWait(FIRST_WAIT, 7);
  }

  /** One of the first eight requests gets a valid answer, and nobody listened at those before it. */
  ghost predicate Healthy(credentials: bool, responses: Responses) {
    credentials &&
    exists n :: 0 <= n < 8 && responses(n) == Answered(true) && forall i :: 0 <= i < n ==> responses(i).DialError?
  }

  /** That request is the first that does not fail to dial. */
  lemma HealthyIs(responses: Responses)
    ensures var n := LeadingDialErrors(responses, 8);
            Healthy(true, responses) <==> n < 8 && responses(n) == Answered(true)
  {
    var n := LeadingDialErrors(responses, 8);
    if Healthy(true, responses) {
      var m :| 0 <= m < 8 && responses(m) == Answered(true) && forall i :: 0 <= i < m ==> responses(i).DialError?;
      assert !responses(m).DialError?;
      assert n == m;
    }
  }

  class BaseServiceHandler {
    var healthCheckRunning: int
    var healthCheck: seq<bool>   // the stop channel
    var retriesLeft: int
    var launched: seq<bool>      // the goroutines started so far: forever or not

    constructor ()
      ensures healthCheckRunning == 0 && healthCheck == [] && retriesLeft == 1 && launched == []
      ensures Represents(HealthMachine.INITIAL)
    {
      healthCheckRunning, healthCheck, retriesLeft, launched := 0, [], 1, [];
    }

    /** The fields hold the state `s` of the step-by-step machine. */
    ghost predicate Represents(s: HealthMachine.State)
      reads this
    {
      && healthCheckRunning == (if s.flag then 1 else 0)
      && |healthCheck| == s.tokens
      && |launched| == |s.gs| && forall i :: 0 <= i < |launched| ==> launched[i] == s.gs[i].forever
    }

    /**
     * One probe: a request, repeated with doubled waits as long as the port is closed. Its
     * result is that of the first request that reaches the service, unless the waits
     * exceed the limit first; it sleeps before every request but the first.
     */
    method Probe(credentials: bool, responses: Responses, firstWait: nat, limit: nat)
      returns (result: ProbeResult, sleeps: seq<nat>, requests: nat)
      requires firstWait > 0
      ensures !credentials ==> result == NoCredentials && requests == 0 && sleeps == []
      ensures credentials ==>
                var k := Doublings(firstWait, limit);
                var n := LeadingDialErrors(responses, k + 1);
                && sleeps == Waits(firstWait, if n <= k then n else k)
                && requests == |sleeps| + 1
                && result == (if n > k then TimedOut
                              else if responses(n).OtherError? then Failed
                              else if responses(n).valid then Valid else Invalid)
    {
      sleeps, requests := [], 0;
      if !credentials {
        return NoCredentials, sleeps, requests;
      }
      ghost var k := Doublings(firstWait, limit);
      DoublingsIsLeast(firstWait, limit);
      var response := responses(0);
      requests := 1;
      var waitTime := firstWait;
      while !response.Answered?
        invariant requests >= 1 && response == responses(requests - 1)
        invariant forall i :: 0 <= i < requests - 1 ==> responses(i).DialError?
        invariant requests - 1 <= k && waitTime == Wait(firstWait, requests - 1)
        invariant sleeps == Waits(firstWait, requests - 1) && |sleeps| == requests - 1
        decreases k + 1 - requests
      {
        if response.OtherError? {
          return Failed, sleeps, requests;
        }
        if waitTime > limit {
          assert requests - 1 == k;
          assert forall i :: 0 <= i < k + 1 ==> responses(i).DialError?;
          return TimedOut, sleeps, requests;
        }
        sleeps := sleeps + [waitTime];
        response := responses(requests);
        waitTime := 2 * waitTime;
        requests := requests + 1;
      }
      result := if response.valid then Valid else Invalid;
    }

    /**
     * One round of the health goroutine: probe, and send a message that says whether the
     * probe found the service healthy. These are two steps of the machine.
     */
    method CheckOnce(i: nat, credentials: bool, responses: Responses, ghost s: HealthMachine.State)
      returns (message: HealthMachine.Message, ghost s': HealthMachine.State)
      requires HealthMachine.IsAt(s, i, HealthMachine.Probing) && |s.inbox| < HealthMachine.CHANNEL_CAPACITY
      ensures message.from == i && (message.healthy <==> Healthy(credentials, responses))
      ensures var probed := HealthMachine.Apply(s, HealthMachine.Probe(i, message.healthy));
              && HealthMachine.Enabled(probed, HealthMachine.Send(i))
              && s' == HealthMachine.Apply(probed, HealthMachine.Send(i))
              && s'.inbox == s.inbox + [message]
    {
      var result, sleeps, requests := Probe(credentials, responses, FIRST_WAIT, WAIT_LIMIT);
      BackoffConstants();
      HealthyIs(responses);
      message := HealthMachine.Message(i, result.Valid?);
      s' := HealthMachine.Apply(HealthMachine.Apply(s, HealthMachine.Probe(i, message.healthy)), HealthMachine.Send(i));
    }

    /** An undisturbed EnableHealthChecks takes the machine's steps one after the other. */
    method EnableHealthChecks(forever: bool, ghost s: HealthMachine.State) returns (started: bool)
      requires Represents(s) && s.controller.Idle?
      modifies this`healthCheckRunning, this`launched
      ensures started == (old(healthCheckRunning) == 0)
      ensures var s1 := HealthMachine.Apply(s, HealthMachine.LoadForEnable(forever));
              if started then
                Represents(HealthMachine.Apply(HealthMachine.Apply(s1, HealthMachine.StoreFlag), HealthMachine.Launch))
              else Represents(s1) && s1 == s
    {
      started := healthCheckRunning == 0;
      if started {
        healthCheckRunning := 1;
        launched := launched + [forever];
      }
    }

    /** Stop writes a token exactly when the flag is set; it blocks when the channel is full. */
    method Stop(ghost s: HealthMachine.State) returns (blocked: bool)
      requires Represents(s) && s.controller.Idle?
      modifies this`healthCheck
      ensures var s1 := HealthMachine.Apply(s, HealthMachine.LoadForStop);
              && blocked == (s1.controller.StopSend? && !HealthMachine.Enabled(s1, HealthMachine.SendToken))
              && Represents(if s1.controller.StopSend? && !blocked then HealthMachine.Apply(s1, HealthMachine.SendToken)
                            else s1)
    {
      blocked := false;
      if healthCheckRunning == 1 {
        if |healthCheck| < HealthMachine.CHANNEL_CAPACITY {
          healthCheck := healthCheck + [true];
        } else {
          blocked := true;
        }
      }
    }

    /** `starts`: would the start handler succeed? Its error is not looked at. */
    method HandleExit(starts: bool, ghost s: Supervision.State) returns (started: bool, exited: bool)
      requires retriesLeft == s.retriesLeft
      modifies this`retriesLeft
      ensures var s' := Supervision.HandleExit(s, starts);
              && retriesLeft == s'.retriesLeft
              && |s'.procs| == |s.procs| + (if started then 1 else 0)
              && s'.exits == s.exits + (if exited then 1 else 0)
    {
      retriesLeft := retriesLeft - 1;
      started, exited := false, false;
      if retriesLeft > 0 {
        started := starts;
      } else {
        exited := true;
      }
    }
  }
}
