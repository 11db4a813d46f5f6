/**
 The calls behind a trace of CircuitBreaker: which are in flight, and what those that were admitted
 before the circuit opened can still do to it.
 */
module CircuitCalls {
  import opened Prelude
  import opened CircuitBreaker

  predicate AdmittedBy(cfg: Config, before: Trace, e: Event) {
    e.Arrived? && Admits(cfg, After(cfg, before), e.now)
  }

  // Number of calls admitted and not yet completed.
  function InFlight(cfg: Config, tr: Trace): int {
    if tr == [] then 0
    else
      var before, e := tr[..|tr| - 1], tr[|tr| - 1];
      InFlight(cfg, before) + if !e.Arrived? then -1 else if AdmittedBy(cfg, before, e) then 1 else 0
  }

  // Which calls they are.
  function Flying(cfg: Config, tr: Trace): set<Call> {
    if tr == [] then {}
    else
      var before, e := tr[..|tr| - 1], tr[|tr| - 1];
      if !e.Arrived? then Flying(cfg, before) - {e.call}
      else if AdmittedBy(cfg, before, e) then Flying(cfg, before) + {e.call} else Flying(cfg, before)
  }

  // What can come next: a call that was not there before, or the end of one that is in flight.
  ghost predicate CanFollow(cfg: Config, tr: Trace, e: Event) {
    if e.Arrived? then forall i :: 0 <= i < |tr| ==> tr[i].call != e.call else e.call in Flying(cfg, tr)
  }

  ghost predicate CallsOk(cfg: Config, tr: Trace) {
    tr == [] || (CallsOk(cfg, tr[..|tr| - 1]) && CanFollow(cfg, tr[..|tr| - 1], tr[|tr| - 1]))
  }

  ghost predicate Feasible(cfg: Config, tr: Trace) {
    ClockOk(tr) && CallsOk(cfg, tr)
  }

  lemma OneMore(cfg: Config, tr: Trace, e: Event)
    ensures After(cfg, tr + [e]) == Step(cfg, After(cfg, tr), e)
    ensures Flying(cfg, tr + [e]) ==
            if !e.Arrived? then Flying(cfg, tr) - {e.call}
            else if AdmittedBy(cfg, tr, e) then Flying(cfg, tr) + {e.call} else Flying(cfg, tr)
    ensures CallsOk(cfg, tr + [e]) <==> CallsOk(cfg, tr) && CanFollow(cfg, tr, e)
  {
    assert (tr + [e])[..|tr|] == tr;
  }

  // ----- Conservation

  function Admitted(cfg: Config, tr: Trace): nat {
    if tr == [] then 0
    else Admitted(cfg, tr[..|tr| - 1]) + if AdmittedBy(cfg, tr[..|tr| - 1], tr[|tr| - 1]) then 1 else 0
  }

  function Completed(tr: Trace): nat {
    if tr == [] then 0 else Completed(tr[..|tr| - 1]) + if tr[|tr| - 1].Arrived? then 0 else 1
  }

  lemma {:induction false} FlyingHaveArrived(cfg: Config, tr: Trace, call: Call)
    requires forall i :: 0 <= i < |tr| ==> tr[i].call != call
    ensures call !in Flying(cfg, tr)
  {
    if tr != [] {
      FlyingHaveArrived(cfg, tr[..|tr| - 1], call);
    }
  }

  // No call is lost: the calls in flight are the admitted ones that did not complete, however the
  // breaker's mode changed while they ran.
  lemma {:induction false} CallsAreConserved(cfg: Config, tr: Trace)
    ensures Admitted(cfg, tr) == InFlight(cfg, tr) + Completed(tr)
    ensures CallsOk(cfg, tr) ==> InFlight(cfg, tr) == |Flying(cfg, tr)|
  {
    if tr != [] {
      var before, e := tr[..|tr| - 1], tr[|tr| - 1];
      CallsAreConserved(cfg, before);
      if CallsOk(cfg, tr) && e.Arrived? {
        FlyingHaveArrived(cfg, before, e.call);
      }
    }
  }

  // ----- Late successes

  function Successive(calls: seq<Call>): Trace {
    seq(|calls|, i requires 0 <= i < |calls| => OkDone(calls[i]))
  }

  lemma SuccessiveSplits(start: Trace, calls: seq<Call>)
    requires calls != []
    ensures start + Successive(calls) == start + Successive(calls[..|calls| - 1]) + [OkDone(calls[|calls| - 1])]
  {
  }

  lemma OkKeepsClock(tr: Trace, call: Call)
    ensures ClockOk(tr) <==> ClockOk(tr + [OkDone(call)])
  {
    var all := tr + [OkDone(call)];
    assert forall i :: 0 <= i < |tr| ==> all[i] == tr[i];
  }

  // A half-open breaker counts successes, and closes at the required one.
  lemma {:induction false} CountsSuccesses(cfg: Config, start: Trace, calls: seq<Call>)
    requires After(cfg, start).mode == HalfOpen && After(cfg, start).successCount == 0
    requires |calls| <= cfg.SuccessesToClose()
    ensures var f := After(cfg, start + Successive(calls));
            if |calls| < cfg.SuccessesToClose() then f.mode == HalfOpen && f.successCount == |calls|
            else f.mode == Closed
  {
    if calls == [] {
      assert start + Successive(calls) == start;
    } else {
      var init := calls[..|calls| - 1];
      CountsSuccesses(cfg, start, init);
      SuccessiveSplits(start, calls);
      OneMore(cfg, start + Successive(init), OkDone(calls[|calls| - 1]));
    }
  }

  // Each success of a feasible continuation takes its own call out of flight.
  lemma {:induction false} SuccessesLand(cfg: Config, start: Trace, calls: seq<Call>)
    requires CallsOk(cfg, start + Successive(calls))
    ensures |Flying(cfg, start + Successive(calls))| == |Flying(cfg, start)| - |calls|
  {
    if calls == [] {
      assert start + Successive(calls) == start;
    } else {
      var init := calls[..|calls| - 1];
      SuccessiveSplits(start, calls);
      OneMore(cfg, start + Successive(init), OkDone(calls[|calls| - 1]));
      SuccessesLand(cfg, start, init);
    }
  }

  predicate Distinct(calls: seq<Call>) {
    forall i, j :: 0 <= i < j < |calls| ==> calls[i] != calls[j]
  }

  // Different calls in flight can succeed one after the other.
  lemma {:induction false} SuccessesCanFollow(cfg: Config, start: Trace, calls: seq<Call>)
    requires Feasible(cfg, start) && Distinct(calls) && forall c :: c in calls ==> c in Flying(cfg, start)
    ensures Feasible(cfg, start + Successive(calls))
    ensures Flying(cfg, start + Successive(calls)) == Flying(cfg, start) - set c | c in calls
  {
    if calls == [] {
      assert start + Successive(calls) == start;
    } else {
      var init, last := calls[..|calls| - 1], calls[|calls| - 1];
      assert calls == init + [last];
      SuccessesCanFollow(cfg, start, init);
      SuccessiveSplits(start, calls);
      OneMore(cfg, start + Successive(init), OkDone(last));
      OkKeepsClock(start + Successive(init), last);
      assert (set c | c in calls) == (set c | c in init) + {last};
    }
  }

  lemma {:induction false} Pick(calls: set<Call>, n: nat) returns (picked: seq<Call>)
    requires n <= |calls|
    ensures |picked| == n && Distinct(picked) && forall c :: c in picked ==> c in calls
  {
    picked := [];
    if n > 0 {
      var c :| c in calls;
      picked := Pick(calls - {c}, n - 1);
      picked := picked + [c];
    }
  }

  // Calls admitted before the probe that succeed while it runs, and so close the circuit.
  ghost predicate LateClosing(cfg: Config, tr: Trace, probe: Event, late: seq<Call>) {
    var all := tr + [probe] + Successive(late);
    && (forall c :: c in late ==> c in Flying(cfg, tr))
    && Feasible(cfg, all) && After(cfg, all).mode == Closed && probe.call in Flying(cfg, all)
  }

  lemma {:induction false} LateAreFew(cfg: Config, tr: Trace, probe: Event, late: seq<Call>)
    requires Feasible(cfg, tr + [probe]) && After(cfg, tr).mode == Open && AdmittedBy(cfg, tr, probe)
    requires LateClosing(cfg, tr, probe, late)
    ensures |Flying(cfg, tr)| >= cfg.SuccessesToClose()
  {
    var start := tr + [probe];
    OneMore(cfg, tr, probe);
    SuccessesLand(cfg, start, late);
    assert |Flying(cfg, start + Successive(late))| >= |{probe.call}|;
    if |late| < cfg.SuccessesToClose() {
      CountsSuccesses(cfg, start, late);
    }
  }

  // Whether calls admitted before the circuit opened can close it, with the probe still running, can
  // be read off when the probe is admitted: there must be as many calls in flight then as successes
  // are required.
  lemma LateSuccessesCanCloseIff(cfg: Config, tr: Trace, probe: Event)
    requires Feasible(cfg, tr + [probe])
    requires After(cfg, tr).mode == Open && AdmittedBy(cfg, tr, probe)
    ensures (exists late :: LateClosing(cfg, tr, probe, late)) <==> InFlight(cfg, tr) >= cfg.SuccessesToClose()
  {
    OneMore(cfg, tr, probe);
    CallsAreConserved(cfg, tr);
    FlyingHaveArrived(cfg, tr, probe.call);
    if InFlight(cfg, tr) >= cfg.SuccessesToClose() {
      var late := Pick(Flying(cfg, tr), cfg.SuccessesToClose());
      CountsSuccesses(cfg, tr + [probe], late);
      SuccessesCanFollow(cfg, tr + [probe], late);
      assert LateClosing(cfg, tr, probe, late);
    }
    if late :| LateClosing(cfg, tr, probe, late) {
      LateAreFew(cfg, tr, probe, late);
    }
  }

  // Here call 2, admitted at time 1 while Closed, closes the circuit although the probe, call 3,
  // admitted at 70, is still running.
  lemma LateSuccessCloses()
    ensures var cfg := Config(1, 1, 60.0);
            var tripped := [Arrived(1, 1.0)] + [Arrived(2, 1.0)] + [FailDone(1, 2.0)];
            var all := tripped + [Arrived(3, 70.0)] + Successive([2]);
            && LateClosing(cfg, tripped, Arrived(3, 70.0), [2])
            && After(cfg, tripped).mode == Open && Flying(cfg, all) == {3}
  {
    var cfg := Config(1, 1, 60.0);
    var tripped := [Arrived(1, 1.0)] + [Arrived(2, 1.0)] + [FailDone(1, 2.0)];
    Trips(cfg);
    OneMore(cfg, tripped, Arrived(3, 70.0));
    Follows(cfg, tripped, Arrived(3, 70.0));
    CountsSuccesses(cfg, tripped + [Arrived(3, 70.0)], [2]);
    SuccessesCanFollow(cfg, tripped + [Arrived(3, 70.0)], [2]);
  }

  lemma Trips(cfg: Config)
    requires cfg == Config(1, 1, 60.0)
    ensures var tripped := [Arrived(1, 1.0)] + [Arrived(2, 1.0)] + [FailDone(1, 2.0)];
            && After(cfg, tripped) == Fields(Open, 1, 0, Some(2.0))
            && Flying(cfg, tripped) == {2} && Feasible(cfg, tripped)
  {
    var t1 := [Arrived(1, 1.0)];
    var t2 := t1 + [Arrived(2, 1.0)];
    assert t1 == [] + t1;
    OneMore(cfg, [], Arrived(1, 1.0));
    OneMore(cfg, t1, Arrived(2, 1.0));
    Follows(cfg, t1, Arrived(2, 1.0));
    OneMore(cfg, t2, FailDone(1, 2.0));
    Follows(cfg, t2, FailDone(1, 2.0));
  }

  lemma Follows(cfg: Config, tr: Trace, e: Event)
    requires Feasible(cfg, tr) && CanFollow(cfg, tr, e)
    requires Timed(e) ==> e.now > 0.0 && forall i :: 0 <= i < |tr| && Timed(tr[i]) ==> tr[i].now <= e.now
    ensures Feasible(cfg, tr + [e])
  {
    OneMore(cfg, tr, e);
    var all := tr + [e];
    assert forall i :: 0 <= i < |tr| ==> all[i] == tr[i];
  }
}
