/**
 The circuit breaker of shared/circuit_breaker.py.

 `call` holds the lock while it admits a call and again while it records how the call
 ended, but not in between.  So a breaker sees an arbitrary interleaving of arrivals and
 completions, and a late completion lands in whatever mode the breaker is then in.
 A `trace` is such an interleaving; `After` is the breaker it leads to, and the class at
 the end is the mutable object, each of whose methods is one lock-protected block.  What
 follows for the single calls is in CircuitCalls.
 */
module CircuitBreaker {
  import opened Prelude

  datatype Mode = Closed | Open | HalfOpen

  datatype Config = Config(failureThreshold: int, successThreshold: int, timeoutSeconds: real)
  {
    // A threshold below 1 behaves like 1: it is only looked at after a count went up.
    function SuccessesToClose(): int { Max(1, successThreshold) }
  }

  datatype Fields = Fields(
    mode: Mode,
    failureCount: int,
    successCount: int,
    lastFailureTime: Option<real>)

  // Which call an event belongs to; the code itself never looks at it.
  type Call = nat

  datatype Event =
    | Arrived(call: Call, now: real)
    | OkDone(call: Call)
    | FailDone(call: Call, now: real)
    | OtherDone(call: Call)  // an exception outside `expected_exception`: no block runs

  type Trace = seq<Event>

  const INITIAL := Fields(Closed, 0, 0, None)

  // ----- One step

  // More than the timeout since the stored failure time; a stored 0.0 counts as none, as it is falsy in
  // Python.
  predicate TimeoutPassed(cfg: Config, f: Fields, now: real) {
    && f.lastFailureTime.Some?
    && f.lastFailureTime.value != 0.0
    && now - f.lastFailureTime.value > cfg.timeoutSeconds
  }

  predicate Admits(cfg: Config, f: Fields, now: real) {
    f.mode != Open || TimeoutPassed(cfg, f, now)
  }

  function Step(cfg: Config, f: Fields, e: Event): Fields {
    match e
    case Arrived(_, now) =>
      if f.mode == Open && TimeoutPassed(cfg, f, now) then f.(mode := HalfOpen, successCount := 0) else f
    case OkDone(_) =>
      (match f.mode
       case HalfOpen =>
         if f.successCount + 1 >= cfg.successThreshold
         then f.(mode := Closed, failureCount := 0, successCount := f.successCount + 1)
         else f.(successCount := f.successCount + 1)
       case Closed => f.(failureCount := 0)
       case Open => f)
    case FailDone(_, now) =>
      var g := f.(failureCount := f.failureCount + 1, lastFailureTime := Some(now));
      if f.mode == HalfOpen then g.(mode := Open, successCount := 0)
      else if f.mode == Closed && g.failureCount >= cfg.failureThreshold then g.(mode := Open)
      else g
    case OtherDone(_) => f
  }

  // ----- Whole traces

  function After(cfg: Config, tr: Trace): Fields {
    if tr == [] then INITIAL else Step(cfg, After(cfg, tr[..|tr| - 1]), tr[|tr| - 1])
  }

  predicate Timed(e: Event) { e.Arrived? || e.FailDone? }

  // The clock is positive and never goes back.
  ghost predicate ClockOk(tr: Trace) {
    && (forall i :: 0 <= i < |tr| && Timed(tr[i]) ==> tr[i].now > 0.0)
    && (forall i, j :: 0 <= i < j < |tr| && Timed(tr[i]) && Timed(tr[j]) ==> tr[i].now <= tr[j].now)
  }

  lemma AfterOneMore(cfg: Config, tr: Trace, e: Event)
    ensures After(cfg, tr + [e]) == Step(cfg, After(cfg, tr), e)
  {
    assert (tr + [e])[..|tr|] == tr;
  }

  // ----- What the counters mean, in terms of the trace alone

  // Length of the trailing run of counted failures: those after the last success.
  function TrailingFailures(tr: Trace): nat {
    if tr == [] then 0
    else
      match tr[|tr| - 1]
      case OkDone(_) => 0
      case FailDone(_, _) => TrailingFailures(tr[..|tr| - 1]) + 1
      case _ => TrailingFailures(tr[..|tr| - 1])
  }

  function LatestFailure(tr: Trace): Option<real> {
    if tr == [] then None
    else if tr[|tr| - 1].FailDone? then Some(tr[|tr| - 1].now)
    else LatestFailure(tr[..|tr| - 1])
  }

  function Successes(tr: Trace): nat {
    if tr == [] then 0 else Successes(tr[..|tr| - 1]) + if tr[|tr| - 1].OkDone? then 1 else 0
  }

  lemma {:induction false} CountersMatchTrace(cfg: Config, tr: Trace)
    ensures var f := After(cfg, tr);
            && f.lastFailureTime == LatestFailure(tr)
            && (f.mode == Closed ==> f.failureCount == TrailingFailures(tr) < Max(1, cfg.failureThreshold))
            && (f.mode != Closed ==> f.failureCount >= Max(1, cfg.failureThreshold))
            && (f.mode != Closed ==> LatestFailure(tr).Some?)
  {
    if tr != [] {
      CountersMatchTrace(cfg, tr[..|tr| - 1]);
    }
  }

  // The breaker leaves Closed exactly when the trailing run reaches the threshold, and then
  // it goes to Open.
  lemma OpensExactlyAtThreshold(cfg: Config, tr: Trace, e: Event)
    requires After(cfg, tr).mode == Closed
    ensures After(cfg, tr + [e]).mode != Closed <==>
            e.FailDone? && TrailingFailures(tr + [e]) == Max(1, cfg.failureThreshold)
    ensures After(cfg, tr + [e]).mode in {Closed, Open}
  {
    CountersMatchTrace(cfg, tr);
    assert (tr + [e])[..|tr|] == tr;
  }

  lemma {:induction false} LatestFailureIsLatest(tr: Trace)
    requires ClockOk(tr)
    ensures LatestFailure(tr).Some? ==>
              && (exists i :: 0 <= i < |tr| && tr[i].FailDone? && tr[i].now == LatestFailure(tr).value)
              && (forall i :: 0 <= i < |tr| && tr[i].FailDone? ==> tr[i].now <= LatestFailure(tr).value)
    ensures LatestFailure(tr).None? ==> forall i :: 0 <= i < |tr| ==> !tr[i].FailDone?
  {
    if tr != [] {
      var before := tr[..|tr| - 1];
      LatestFailureIsLatest(before);
      assert forall i :: 0 <= i < |before| ==> before[i] == tr[i];
      assert tr[|tr| - 1].FailDone? ==> LatestFailure(tr) == Some(tr[|tr| - 1].now);
      if !tr[|tr| - 1].FailDone? && LatestFailure(tr).Some? {
        var i :| 0 <= i < |before| && before[i].FailDone? && before[i].now == LatestFailure(before).value;
        assert tr[i].FailDone?;
      }
    }
  }

  // An open breaker admits a call exactly when more than the timeout has passed since
  // every failure counted so far, late ones included; the call that does so is a probe.
  lemma AdmittedFromOpenIffQuiet(cfg: Config, tr: Trace, call: Call, now: real)
    requires ClockOk(tr + [Arrived(call, now)]) && After(cfg, tr).mode == Open
    ensures Admits(cfg, After(cfg, tr), now) <==>
            forall i :: 0 <= i < |tr| && tr[i].FailDone? ==> now - tr[i].now > cfg.timeoutSeconds
    ensures After(cfg, tr + [Arrived(call, now)]).mode ==
            if Admits(cfg, After(cfg, tr), now) then HalfOpen else Open
  {
    var all := tr + [Arrived(call, now)];
    assert all[..|tr|] == tr && forall i :: 0 <= i < |tr| ==> all[i] == tr[i];
    assert ClockOk(tr);
    CountersMatchTrace(cfg, tr);
    LatestFailureIsLatest(tr);
  }

  // Some failure counted so far lies at most the timeout back.
  ghost predicate RecentFailure(cfg: Config, tr: Trace, now: real) {
    exists i :: 0 <= i < |tr| && tr[i].FailDone? && now - tr[i].now <= cfg.timeoutSeconds
  }

  // In every mode: an arrival is rejected if and only if the breaker is open and such a failure exists.
  lemma RejectedIffOpenAndFailing(cfg: Config, tr: Trace, call: Call, now: real)
    requires ClockOk(tr + [Arrived(call, now)])
    ensures !Admits(cfg, After(cfg, tr), now) <==> After(cfg, tr).mode == Open && RecentFailure(cfg, tr, now)
  {
    if After(cfg, tr).mode == Open {
      AdmittedFromOpenIffQuiet(cfg, tr, call, now);
    }
  }

  // The mode after one more event: apart from opening at the threshold (OpensExactlyAtThreshold) and
  // closing after the required successes (ClosesExactlyAfterSuccesses), a half-open breaker reopens at
  // a counted failure and at nothing else, and an open one stays so but for an admitted arrival.
  lemma ModeFollows(cfg: Config, tr: Trace, e: Event)
    requires ClockOk(tr + [e])
    ensures After(cfg, tr).mode == HalfOpen ==> (After(cfg, tr + [e]).mode == Open <==> e.FailDone?)
    ensures After(cfg, tr).mode == Open ==>
              After(cfg, tr + [e]).mode == if e.Arrived? && !RecentFailure(cfg, tr, e.now) then HalfOpen else Open
  {
    AfterOneMore(cfg, tr, e);
    if e.Arrived? {
      RejectedIffOpenAndFailing(cfg, tr, e.call, e.now);
    }
  }

  // Entry k of the trace is the probe that opened the current half-open spell.
  ghost predicate ProbingSince(cfg: Config, tr: Trace, k: nat) {
    && k < |tr|
    && tr[k].Arrived? && After(cfg, tr[..k]).mode == Open
    && (forall n :: k < n <= |tr| ==> After(cfg, tr[..n]).mode == HalfOpen)
    && (forall i :: k < i < |tr| ==> !tr[i].FailDone?)
  }

  // While half-open, the success counter is the number of successes since that probe,
  // whichever calls they belong to.
  lemma {:induction false} HalfOpenHistory(cfg: Config, tr: Trace) returns (k: nat)
    requires After(cfg, tr).mode == HalfOpen
    ensures ProbingSince(cfg, tr, k)
    ensures Successes(tr[k + 1..]) == After(cfg, tr).successCount < cfg.SuccessesToClose()
  {
    var n := |tr| - 1;
    var before := tr[..n];
    if After(cfg, before).mode == Open {
      k := n;
      assert tr[n + 1..] == [];
      assert tr[..n + 1] == tr;
    } else {
      assert After(cfg, before).mode == HalfOpen;
      k := HalfOpenHistory(cfg, before);
      assert tr[k + 1..][..|tr[k + 1..]| - 1] == before[k + 1..];
      forall m | k < m <= |tr| ensures After(cfg, tr[..m]).mode == HalfOpen {
        assert if m == |tr| then tr[..m] == tr else tr[..m] == before[..m];
      }
      forall i | k < i < |tr| ensures !tr[i].FailDone? {
        assert i < n ==> tr[i] == before[i];
      }
      assert before[..k] == tr[..k];
    }
  }

  // Every return to Closed is a success that completes exactly the required number of them
  // since the last entry to HalfOpen, with no counted failure in between; and such a
  // success always closes the breaker.
  lemma ClosesExactlyAfterSuccesses(cfg: Config, tr: Trace, e: Event)
    requires After(cfg, tr).mode != Closed
    ensures After(cfg, tr + [e]).mode == Closed <==>
            && e.OkDone?
            && exists k :: ProbingSince(cfg, tr, k) && Successes((tr + [e])[k + 1..]) == Max(1, cfg.successThreshold)
  {
    var all := tr + [e];
    assert all[..|tr|] == tr;
    if After(cfg, tr).mode == HalfOpen {
      var k0 := HalfOpenHistory(cfg, tr);
      forall k | ProbingSince(cfg, tr, k) ensures k == k0 {
        OneProbe(cfg, tr, k, k0);
      }
      assert all[k0 + 1..] == tr[k0 + 1..] + [e];
      OneMoreSuccess(tr[k0 + 1..], e);
    } else {
      NoProbe(cfg, tr);
    }
  }

  // Two probes of the same spell would put an Open breaker inside it.
  lemma OneProbe(cfg: Config, tr: Trace, j: nat, k: nat)
    requires ProbingSince(cfg, tr, j) && ProbingSince(cfg, tr, k)
    ensures j == k
  {
    assert After(cfg, tr[..j]).mode == Open && After(cfg, tr[..k]).mode == Open;
  }

  lemma NoProbe(cfg: Config, tr: Trace)
    requires After(cfg, tr).mode != HalfOpen
    ensures !exists k :: ProbingSince(cfg, tr, k)
  {
    assert tr[..|tr|] == tr;
  }

  lemma OneMoreSuccess(tr: Trace, e: Event)
    ensures Successes(tr + [e]) == Successes(tr) + if e.OkDone? then 1 else 0
  {
    assert (tr + [e])[..|tr|] == tr;
  }

  // ----- The object

  class CircuitBreaker {
    const config: Config
    var mode: Mode
    var failureCount: int
    var successCount: int
    var lastFailureTime: Option<real>
    ghost var trace: Trace

    ghost predicate Valid()
      reads this
    {
      Fields(mode, failureCount, successCount, lastFailureTime) == After(config, trace)
    }

    constructor (failureThreshold: int := 5, successThreshold: int := 2, timeoutSeconds: real := 60.0)
      ensures Valid() && trace == []
      ensures config == Config(failureThreshold, successThreshold, timeoutSeconds)
    {
      config := Config(failureThreshold, successThreshold, timeoutSeconds);
      mode, failureCount, successCount, lastFailureTime := Closed, 0, 0, None;
      trace := [];
    }

    // The block before the call; `false` stands for CircuitBreakerOpenError.
    method Admit(ghost call: Call, now: real) returns (admitted: bool)
      requires Valid()
      modifies this
      ensures Valid() && trace == old(trace) + [Arrived(call, now)]
      ensures ClockOk(trace) ==>
                (!admitted <==> old(mode) == Open && RecentFailure(config, old(trace), now))
      ensures admitted <==>
              || old(mode) != Open
              || (old(lastFailureTime).Some? && old(lastFailureTime).value != 0.0
                  && now - old(lastFailureTime).value > config.timeoutSeconds)
    {
      if ClockOk(trace + [Arrived(call, now)]) {
        RejectedIffOpenAndFailing(config, trace, call, now);
      }
      admitted := true;
      if mode == Open {
        if lastFailureTime.Some? && lastFailureTime.value != 0.0
            && now - lastFailureTime.value > config.timeoutSeconds {
          mode := HalfOpen;
          successCount := 0;
        } else {
          admitted := false;
        }
      }
      AfterOneMore(config, trace, Arrived(call, now));
      trace := trace + [Arrived(call, now)];
    }

    method RecordSuccess(ghost call: Call)
      requires Valid()
      modifies this
      ensures Valid() && trace == old(trace) + [OkDone(call)]
    {
      if mode == HalfOpen {
        successCount := successCount + 1;
        if successCount >= config.successThreshold {
          mode := Closed;
          failureCount := 0;
        }
      } else if mode == Closed {
        failureCount := 0;
      }
      AfterOneMore(config, trace, OkDone(call));
      trace := trace + [OkDone(call)];
    }

    // Another exception: no block runs.
    ghost method LeaveUncounted(call: Call)
      requires Valid()
      modifies this`trace
      ensures Valid() && trace == old(trace) + [OtherDone(call)]
    {
      AfterOneMore(config, trace, OtherDone(call));
      trace := trace + [OtherDone(call)];
    }

    method RecordFailure(ghost call: Call, now: real)
      requires Valid()
      modifies this
      ensures Valid() && trace == old(trace) + [FailDone(call, now)]
    {
      failureCount := failureCount + 1;
      lastFailureTime := Some(now);
      if mode == HalfOpen {
        mode := Open;
        successCount := 0;
      } else if mode == Closed && failureCount >= config.failureThreshold {
        mode := Open;
      }
      AfterOneMore(config, trace, FailDone(call, now));
      trace := trace + [FailDone(call, now)];
    }
  }
}
