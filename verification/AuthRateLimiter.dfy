/**
 The per-client and per-key limiter of shared/api_auth_middleware.py: one deque of at most
 1000 stamps per bucket, popped from the left and appended to on the right, and a
 background cleanup that pops old stamps and drops empty deques.
 */
module AuthRateLimiter {
  import opened Prelude
  import opened SlidingWindow

  const DEQUE_BOUND: nat := 1000

  datatype Op = Check(limit: int, now: real) | Cleanup(now: real)

  // ----- What the code does to one deque

  function PopOld(d: seq<real>, cutoff: real): seq<real> {
    if d != [] && d[0] < cutoff then PopOld(d[1..], cutoff) else d
  }

  // Appending to a bounded deque drops from its other end.
  function Append(d: seq<real>, t: real): seq<real> {
    Tail(d + [t], DEQUE_BOUND)
  }

  function Limited(window: real, d: seq<real>, op: Op): bool
    requires op.Check?
  {
    |PopOld(d, op.now - window)| >= op.limit
  }

  function DequeStep(window: real, d: seq<real>, op: Op): seq<real> {
    var kept := PopOld(d, op.now - window);
    if op.Check? && !Limited(window, d, op) then Append(kept, op.now) else kept
  }

  function DequeAfter(window: real, run: seq<Op>): seq<real> {
    if run == [] then [] else DequeStep(window, DequeAfter(window, run[..|run| - 1]), run[|run| - 1])
  }

  function AcceptedStep(window: real, d: seq<real>, accepted: seq<real>, op: Op): seq<real> {
    if op.Check? && !Limited(window, d, op) then accepted + [op.now] else accepted
  }

  // Stamps of the requests let through in a run.
  function AcceptedIn(window: real, run: seq<Op>): seq<real> {
    if run == [] then []
    else
      var before := run[..|run| - 1];
      AcceptedStep(window, DequeAfter(window, before), AcceptedIn(window, before), run[|run| - 1])
  }

  lemma AfterOneMore(window: real, run: seq<Op>, op: Op)
    ensures DequeAfter(window, run + [op]) == DequeStep(window, DequeAfter(window, run), op)
    ensures AcceptedIn(window, run + [op]) ==
            AcceptedStep(window, DequeAfter(window, run), AcceptedIn(window, run), op)
  {
    assert (run + [op])[..|run|] == run;
  }

  // ----- Against a limiter that remembers everything

  ghost predicate ClockOk(run: seq<Op>) {
    forall i, j :: 0 <= i < j < |run| ==> run[i].now <= run[j].now
  }

  function InView(window: real, accepted: seq<real>, now: real): seq<real> {
    Recent(accepted, Closed(now - window))
  }

  lemma {:induction false} AcceptedStamps(window: real, run: seq<Op>)
    requires ClockOk(run)
    ensures Sorted(AcceptedIn(window, run))
    ensures run != [] ==> UpTo(AcceptedIn(window, run), run[|run| - 1].now)
  {
    if run != [] {
      var before := run[..|run| - 1];
      AcceptedStamps(window, before);
      if before != [] {
        assert before[|before| - 1].now <= run[|run| - 1].now;
      }
    }
  }

  lemma {:induction false} PopOldIsRecent(d: seq<real>, cutoff: real)
    requires Sorted(d)
    ensures PopOld(d, cutoff) == Recent(d, Closed(cutoff))
  {
    if d != [] {
      assert d == [d[0]] + d[1..];
      RecentConcat([d[0]], d[1..], Closed(cutoff));
      assert [d[0]][..0] == [];
      if d[0] < cutoff {
        PopOldIsRecent(d[1..], cutoff);
      } else {
        RecentAll(d, Closed(cutoff));
      }
    }
  }

  // The deque, as far as a prune at `now` would keep it, is what the deque bound leaves of
  // the accepted history in view at `now`.
  ghost predicate Represents(window: real, d: seq<real>, accepted: seq<real>, now: real) {
    && Sorted(d) && UpTo(d, now) && |d| <= DEQUE_BOUND
    && InView(window, d, now) == Tail(InView(window, accepted, now), DEQUE_BOUND)
  }

  lemma PopAgain(d: seq<real>, early: Bound, later: Bound)
    requires Sorted(d) && early.Closed? && early.NoTighterThan(later)
    ensures PopOld(d, later.cutoff) == Recent(Recent(d, early), later)
  {
    PopOldIsRecent(d, later.cutoff);
    RecentOfRecent(d, early, later);
  }

  lemma PruneTail(accepted: seq<real>, n: nat, early: Bound, later: Bound)
    requires Sorted(accepted) && early.NoTighterThan(later)
    ensures Recent(Tail(Recent(accepted, early), n), later) == Tail(Recent(accepted, later), n)
  {
    RecentOfRecent(accepted, early, later);
    RecentSorted(accepted, early);
    RecentOfTail(Recent(accepted, early), n, later);
  }

  lemma PopIsStable(d: seq<real>, cutoff: real, now: real)
    requires Sorted(d) && UpTo(d, now)
    ensures Sorted(PopOld(d, cutoff)) && UpTo(PopOld(d, cutoff), now)
    ensures |PopOld(d, cutoff)| <= |d|
    ensures Recent(PopOld(d, cutoff), Closed(cutoff)) == PopOld(d, cutoff)
  {
    PopOldIsRecent(d, cutoff);
    RecentSorted(d, Closed(cutoff));
    RecentAll(PopOld(d, cutoff), Closed(cutoff));
  }

  lemma {:induction false} PopIsTail(d: seq<real>, accepted: seq<real>, n: nat, early: Bound, later: Bound)
    requires Sorted(d) && Sorted(accepted) && early.Closed? && early.NoTighterThan(later)
    requires Recent(d, early) == Tail(Recent(accepted, early), n)
    ensures PopOld(d, later.cutoff) == Tail(Recent(accepted, later), n)
  {
    PopAgain(d, early, later);
    PruneTail(accepted, n, early, later);
  }

  lemma UpToLater(s: seq<real>, earlier: real, now: real)
    requires UpTo(s, earlier) && earlier <= now
    ensures UpTo(s, now)
  {
  }

  lemma PopKeepsRepresentation(window: real, d: seq<real>, accepted: seq<real>, earlier: real, now: real)
    requires Sorted(accepted) && Represents(window, d, accepted, earlier) && earlier <= now
    ensures PopOld(d, now - window) == Tail(InView(window, accepted, now), DEQUE_BOUND)
    ensures Represents(window, PopOld(d, now - window), accepted, now)
  {
    PopIsTail(d, accepted, DEQUE_BOUND, Closed(earlier - window), Closed(now - window));
    UpToLater(d, earlier, now);
    PopIsStable(d, now - window, now);
  }

  lemma TailAppend(s: seq<real>, t: real, n: nat)
    ensures Tail(Tail(s, n) + [t], n) == Tail(s + [t], n)
    ensures Tail(Tail(s, n), n) == Tail(s, n)
  {
  }

  lemma AppendedView(d: seq<real>, accepted: seq<real>, now: real, b: Bound)
    requires Sorted(d + [now]) && Recent(d, b) == Tail(Recent(accepted, b), DEQUE_BOUND)
    ensures Recent(Append(d, now), b) == Tail(Recent(accepted + [now], b), DEQUE_BOUND)
  {
    var kept := if b.Keeps(now) then [now] else [];
    assert Recent(Append(d, now), b) == Tail(Recent(d, b) + kept, DEQUE_BOUND) by {
      RecentOfTail(d + [now], DEQUE_BOUND, b);
      RecentAppend(d, now, b);
    }
    assert Recent(accepted + [now], b) == Recent(accepted, b) + kept by {
      RecentAppend(accepted, now, b);
    }
    TailAppend(Recent(accepted, b), now, DEQUE_BOUND);
  }

  lemma AppendKeepsRepresentation(window: real, d: seq<real>, accepted: seq<real>, now: real)
    requires UpTo(accepted, now) && Represents(window, d, accepted, now)
    ensures Represents(window, Append(d, now), accepted + [now], now)
  {
    AppendedView(d, accepted, now, Closed(now - window));
  }

  lemma NothingRepresentsNothing(window: real, now: real)
    ensures Represents(window, [], [], now)
  {
  }

  lemma StepKeepsRepresentation(window: real, d: seq<real>, accepted: seq<real>, earlier: real, op: Op)
    requires Sorted(accepted) && UpTo(accepted, op.now)
    requires Represents(window, d, accepted, earlier) && earlier <= op.now
    ensures Represents(window, DequeStep(window, d, op), AcceptedStep(window, d, accepted, op), op.now)
  {
    PopKeepsRepresentation(window, d, accepted, earlier, op.now);
    if op.Check? && !Limited(window, d, op) {
      AppendKeepsRepresentation(window, PopOld(d, op.now - window), accepted, op.now);
    }
  }

  lemma {:induction false} DequeRepresentsHistory(window: real, run: seq<Op>)
    requires ClockOk(run) && run != []
    ensures Represents(window, DequeAfter(window, run), AcceptedIn(window, run), run[|run| - 1].now)
  {
    var before, op := run[..|run| - 1], run[|run| - 1];
    var earlier := if before == [] then op.now else before[|before| - 1].now;
    StampsSoFar(window, before, op);
    if before == [] {
      NothingRepresentsNothing(window, op.now);
    } else {
      DequeRepresentsHistory(window, before);
    }
    StepKeepsRepresentation(window, DequeAfter(window, before), AcceptedIn(window, before), earlier, op);
  }

  // At its next step a run in clock order has only past stamps.
  lemma StampsSoFar(window: real, run: seq<Op>, op: Op)
    requires ClockOk(run) && (run != [] ==> run[|run| - 1].now <= op.now)
    ensures Sorted(AcceptedIn(window, run)) && UpTo(AcceptedIn(window, run), op.now)
  {
    AcceptedStamps(window, run);
  }

  lemma ClockSoFar(run: seq<Op>, op: Op)
    requires ClockOk(run + [op])
    ensures ClockOk(run) && (run != [] ==> run[|run| - 1].now <= op.now)
  {
    var all := run + [op];
    assert forall i :: 0 <= i < |run| ==> run[i] == all[i];
    assert run != [] ==> all[|run| - 1].now <= all[|run|].now;
  }

  lemma RepresentationDecides(window: real, d: seq<real>, accepted: seq<real>, earlier: real, op: Op)
    requires op.Check? && Sorted(accepted)
    requires Represents(window, d, accepted, earlier) && earlier <= op.now
    ensures Limited(window, d, op) <==> Min(DEQUE_BOUND, |InView(window, accepted, op.now)|) >= op.limit
  {
    PopKeepsRepresentation(window, d, accepted, earlier, op.now);
  }

  lemma DecidesOnView(window: real, run: seq<Op>, op: Op)
    requires op.Check? && ClockOk(run + [op])
    ensures Limited(window, DequeAfter(window, run), op) <==>
            Min(DEQUE_BOUND, |InView(window, AcceptedIn(window, run), op.now)|) >= op.limit
  {
    ClockSoFar(run, op);
    StampsSoFar(window, run, op);
    var earlier := if run == [] then op.now else run[|run| - 1].now;
    if run == [] {
      NothingRepresentsNothing(window, op.now);
    } else {
      DequeRepresentsHistory(window, run);
    }
    RepresentationDecides(window, DequeAfter(window, run), AcceptedIn(window, run), earlier, op);
  }

  // Every decision of every run is a decision on the accepted history in the closed window
  // ending now, except that the deque bound caps what can be counted.
  lemma DecidesOnHistory(window: real, run: seq<Op>, op: Op)
    requires op.Check? && ClockOk(run + [op])
    ensures Limited(window, DequeAfter(window, run), op) <==>
            Min(1000, |Recent(AcceptedIn(window, run), Closed(op.now - window))|) >= op.limit
  {
    DecidesOnView(window, run, op);
  }

  // Up to the deque bound the limiter is exact; above it, it never denies.
  lemma ExactUpToDequeBound(window: real, run: seq<Op>, op: Op)
    requires op.Check? && ClockOk(run + [op])
    ensures op.limit <= 1000 ==>
              (Limited(window, DequeAfter(window, run), op) <==>
               |Recent(AcceptedIn(window, run), Closed(op.now - window))| >= op.limit)
    ensures op.limit > 1000 ==> !Limited(window, DequeAfter(window, run), op)
  {
    DecidesOnHistory(window, run, op);
  }

  // ----- Whole-run bounds for limits up to the deque bound

  ghost predicate LimitsUpTo(run: seq<Op>, limit: nat) {
    forall i :: 0 <= i < |run| && run[i].Check? ==> run[i].limit <= limit
  }

  lemma {:induction false} EachAcceptanceBounded(window: real, run: seq<Op>, limit: nat)
    requires ClockOk(run) && LimitsUpTo(run, limit) && limit <= DEQUE_BOUND
    ensures EachBounded(AcceptedIn(window, run), Closed(0.0), window, limit)
  {
    if run != [] {
      var before, op := run[..|run| - 1], run[|run| - 1];
      assert run == before + [op];
      EachAcceptanceBounded(window, before, limit);
      if op.Check? && !Limited(window, DequeAfter(window, before), op) {
        DecidesOnView(window, before, op);
        AcceptedStaysBounded(window, AcceptedIn(window, before), op.now, limit);
      }
    }
  }

  lemma AcceptedStaysBounded(window: real, accepted: seq<real>, now: real, limit: nat)
    requires EachBounded(accepted, Closed(0.0), window, limit)
    requires |InView(window, accepted, now)| < limit
    ensures EachBounded(accepted + [now], Closed(0.0), window, limit)
  {
    RecentAppend(accepted, now, Closed(now - window));
    assert (accepted + [now])[..|accepted| + 1] == accepted + [now];
    BoundedExtends(accepted, now, Closed(0.0), window, limit);
  }

  // Every closed window of the configured width, wherever it starts, holds at most `limit`
  // accepted requests, wherever in the run the cleanup happened.
  lemma EveryWindowObeysLimit(window: real, run: seq<Op>, limit: nat, start: real)
    requires ClockOk(run) && LimitsUpTo(run, limit) && limit <= DEQUE_BOUND
    ensures InWindow(AcceptedIn(window, run), Closed(start), start + window) <= limit
  {
    AcceptedStamps(window, run);
    EachAcceptanceBounded(window, run, limit);
    WindowsAnywhere(AcceptedIn(window, run), Closed(0.0), start, window, limit);
  }

  // The deque is then exactly the accepted history still in the window.
  lemma {:induction false} DequeIsWindow(window: real, run: seq<Op>)
    requires ClockOk(run) && LimitsUpTo(run, DEQUE_BOUND) && run != [] && window >= 0.0
    ensures DequeAfter(window, run) == Recent(AcceptedIn(window, run), Closed(run[|run| - 1].now - window))
    ensures |InView(window, AcceptedIn(window, run), run[|run| - 1].now)| <= DEQUE_BOUND
  {
    var before, op := run[..|run| - 1], run[|run| - 1];
    if before != [] {
      DequeIsWindow(window, before);
      AcceptedStamps(window, before);
      assert before[|before| - 1].now <= op.now;
      WindowStep(window, DequeAfter(window, before), AcceptedIn(window, before), before[|before| - 1].now, op);
    } else {
      RecentAppend([], op.now, Closed(op.now - window));
    }
  }

  lemma PopIsView(accepted: seq<real>, early: Bound, later: Bound)
    requires Sorted(accepted) && early.Closed? && early.NoTighterThan(later)
    ensures PopOld(Recent(accepted, early), later.cutoff) == Recent(accepted, later)
  {
    RecentStaysSorted(accepted, early);
    PopOldIsRecent(Recent(accepted, early), later.cutoff);
    RecentOfRecent(accepted, early, later);
  }

  lemma WindowStep(window: real, d: seq<real>, accepted: seq<real>, earlier: real, op: Op)
    requires Sorted(accepted) && earlier <= op.now && window >= 0.0
    requires op.Check? ==> op.limit <= DEQUE_BOUND
    requires d == InView(window, accepted, earlier) && |d| <= DEQUE_BOUND
    ensures DequeStep(window, d, op) == InView(window, AcceptedStep(window, d, accepted, op), op.now)
    ensures |DequeStep(window, d, op)| <= DEQUE_BOUND
  {
    PopIsView(accepted, Closed(earlier - window), Closed(op.now - window));
    PopShortens(d, op.now - window);
    RecentAppend(accepted, op.now, Closed(op.now - window));
  }

  lemma {:induction false} PopShortens(d: seq<real>, cutoff: real)
    ensures |PopOld(d, cutoff)| <= |d|
  {
    if d != [] && d[0] < cutoff {
      PopShortens(d[1..], cutoff);
    }
  }

  // ----- The cleanup changes no decision

  function WithoutCleanups(run: seq<Op>): seq<Op> {
    if run == [] then []
    else
      var before, op := run[..|run| - 1], run[|run| - 1];
      if op.Cleanup? then WithoutCleanups(before) else WithoutCleanups(before) + [op]
  }

  lemma {:induction false} WithoutCleanupsInOrder(run: seq<Op>)
    requires ClockOk(run)
    ensures ClockOk(WithoutCleanups(run))
    ensures run != [] ==>
              forall i :: 0 <= i < |WithoutCleanups(run)| ==> WithoutCleanups(run)[i].now <= run[|run| - 1].now
  {
    if run != [] {
      var before := run[..|run| - 1];
      WithoutCleanupsInOrder(before);
      if before != [] {
        assert before[|before| - 1].now <= run[|run| - 1].now;
      }
    }
  }

  lemma {:induction false} CleanupsKeepHistory(window: real, run: seq<Op>)
    requires ClockOk(run)
    ensures AcceptedIn(window, run) == AcceptedIn(window, WithoutCleanups(run))
  {
    if run != [] {
      var before, op := run[..|run| - 1], run[|run| - 1];
      assert run == before + [op];
      CleanupsKeepHistory(window, before);
      WithoutCleanupsInOrder(run);
      if op.Check? {
        var checks := WithoutCleanups(before);
        assert WithoutCleanups(run) == checks + [op];
        DecidesOnView(window, before, op);
        DecidesOnView(window, checks, op);
        AfterOneMore(window, checks, op);
      }
    }
  }

  // Running the background cleanup at any points of a run changes no later decision.
  lemma CleanupsChangeNoDecision(window: real, run: seq<Op>, op: Op)
    requires op.Check? && ClockOk(run + [op])
    ensures Limited(window, DequeAfter(window, run), op) ==
            Limited(window, DequeAfter(window, WithoutCleanups(run)), op)
  {
    assert (run + [op])[..|run|] == run;
    assert forall i :: 0 <= i < |run| ==> run[i] == (run + [op])[i];
    assert ClockOk(run);
    CleanupsKeepHistory(window, run);
    WithoutCleanupsInOrder(run + [op]);
    assert WithoutCleanups(run + [op]) == WithoutCleanups(run) + [op];
    DecidesOnView(window, run, op);
    DecidesOnView(window, WithoutCleanups(run), op);
  }

  // ----- The object

  type Deques = map<string, seq<real>>
  type Runs = map<string, seq<Op>>

  ghost predicate MatchAt(window: real, deques: Deques, runs: Runs, bucket: string) {
    Lookup(deques, bucket, []) == DequeAfter(window, Lookup(runs, bucket, []))
  }

  ghost predicate Match(window: real, deques: Deques, runs: Runs) {
    forall bucket :: MatchAt(window, deques, runs, bucket)
  }

  lemma StillMatch(window: real, deques: Deques, runs: Runs, bucket: string, op: Op, deques': Deques)
    requires Match(window, deques, runs)
    requires Lookup(deques', bucket, []) == DequeStep(window, DequeAfter(window, Lookup(runs, bucket, [])), op)
    requires forall x :: x != bucket ==> Lookup(deques', x, []) == Lookup(deques, x, [])
    ensures Match(window, deques', runs[bucket := Lookup(runs, bucket, []) + [op]])
  {
    var run := Lookup(runs, bucket, []);
    var runs' := runs[bucket := run + [op]];
    AfterOneMore(window, run, op);
    forall x ensures MatchAt(window, deques', runs', x) {
      assert MatchAt(window, deques, runs, x);
    }
  }

  // Stamps held in all deques together.
  ghost function Stored(deques: Deques): nat {
    if deques == map[] then 0 else var k :| k in deques; |deques[k]| + Stored(deques - {k})
  }

  lemma {:induction false} StoredSplit(deques: Deques, k: string)
    requires k in deques
    ensures Stored(deques) == |deques[k]| + Stored(deques - {k})
    decreases |deques|
  {
    var first :| first in deques && Stored(deques) == |deques[first]| + Stored(deques - {first});
    if first != k {
      assert k in deques - {first};
      StoredSplit(deques - {first}, k);
      StoredSplit(deques - {k}, first);
      assert deques - {first} - {k} == deques - {k} - {first};
    }
  }

  lemma StoredAfterPop(deques: Deques, k: string, d: seq<real>)
    requires k in deques && |d| <= |deques[k]|
    ensures Stored(deques[k := d]) == Stored(deques) - |deques[k]| + |d|
    ensures d == [] ==> Stored(deques - {k}) == Stored(deques[k := d])
  {
    assert deques[k := d] - {k} == deques - {k};
    StoredSplit(deques, k);
    StoredSplit(deques[k := d], k);
  }

  class AuthRateLimiter {
    const window: real
    const limitPerUser: int
    var apiKeyLimits: map<string, int>
    var userRateLimits: Deques
    ghost var runs: Runs

    ghost function RunOf(bucket: string): seq<Op>
      reads this
    {
      Lookup(runs, bucket, [])
    }

    ghost predicate Valid()
      reads this
    {
      Match(window, userRateLimits, runs)
    }

    constructor (rateLimitPerUser: int := 1000, rateLimitWindowMinutes: int := 60)
      ensures Valid() && runs == map[] && apiKeyLimits == map[]
      ensures window == (rateLimitWindowMinutes * 60) as real && limitPerUser == rateLimitPerUser
    {
      window, limitPerUser := (rateLimitWindowMinutes * 60) as real, rateLimitPerUser;
      apiKeyLimits, userRateLimits, runs := map[], map[], map[];
    }

    method PopOldEntries(bucket: string, cutoff: real) returns (popped: nat)
      requires bucket in userRateLimits
      modifies this`userRateLimits
      ensures userRateLimits == old(userRateLimits)[bucket := PopOld(old(userRateLimits[bucket]), cutoff)]
      ensures popped + |userRateLimits[bucket]| == |old(userRateLimits[bucket])|
    {
      popped := 0;
      while userRateLimits[bucket] != [] && userRateLimits[bucket][0] < cutoff
        invariant bucket in userRateLimits
        invariant PopOld(userRateLimits[bucket], cutoff) == PopOld(old(userRateLimits[bucket]), cutoff)
        invariant userRateLimits == old(userRateLimits)[bucket := userRateLimits[bucket]]
        invariant popped + |userRateLimits[bucket]| == |old(userRateLimits[bucket])|
        decreases |userRateLimits[bucket]|
      {
        userRateLimits := userRateLimits[bucket := userRateLimits[bucket][1..]];
        popped := popped + 1;
      }
    }

    // What both limiters do once they know the limit.
    method CheckBucket(bucket: string, limit: int, now: real) returns (limited: bool)
      requires Valid()
      modifies this`userRateLimits, this`runs
      ensures Valid()
      ensures runs == old(runs)[bucket := old(RunOf(bucket)) + [Check(limit, now)]]
      ensures limited == Limited(window, DequeAfter(window, old(RunOf(bucket))), Check(limit, now))
    {
      ghost var op := Check(limit, now);
      assert MatchAt(window, userRateLimits, runs, bucket);
      if bucket in userRateLimits {
        var _ := PopOldEntries(bucket, now - window);
      } else {
        userRateLimits := userRateLimits[bucket := []];
      }
      limited := |userRateLimits[bucket]| >= limit;
      if !limited {
        userRateLimits := userRateLimits[bucket := Append(userRateLimits[bucket], now)];
      }
      StillMatch(window, old(userRateLimits), runs, bucket, op, userRateLimits);
      runs := runs[bucket := RunOf(bucket) + [op]];
    }

    method IsRateLimited(clientIp: string, now: real) returns (limited: bool)
      requires Valid()
      modifies this`userRateLimits, this`runs
      ensures Valid()
      ensures runs == old(runs)[clientIp := old(RunOf(clientIp)) + [Check(limitPerUser, now)]]
      ensures limited == Limited(window, DequeAfter(window, old(RunOf(clientIp))), Check(limitPerUser, now))
    {
      limited := CheckBucket(clientIp, limitPerUser, now);
    }

    method IsKeyRateLimited(apiKey: string, now: real) returns (limited: bool)
      requires Valid()
      modifies this`userRateLimits, this`runs
      ensures Valid()
      ensures var bucket, op := "api_key:" + apiKey, Check(Lookup(apiKeyLimits, apiKey, limitPerUser), now);
              && runs == old(runs)[bucket := old(RunOf(bucket)) + [op]]
              && limited == Limited(window, DequeAfter(window, old(RunOf(bucket))), op)
    {
      var limit := Lookup(apiKeyLimits, apiKey, limitPerUser);
      limited := CheckBucket("api_key:" + apiKey, limit, now);
    }

    method CleanupBucket(key: string, now: real) returns (popped: nat)
      requires Valid() && key in userRateLimits
      modifies this`userRateLimits, this`runs
      ensures Valid()
      ensures runs == old(runs)[key := old(RunOf(key)) + [Cleanup(now)]]
      ensures userRateLimits - {key} == old(userRateLimits) - {key}
      ensures key in userRateLimits ==> userRateLimits[key] != []
      ensures popped + Stored(userRateLimits) == Stored(old(userRateLimits))
    {
      assert MatchAt(window, userRateLimits, runs, key);
      popped := PopOldEntries(key, now - window);
      StoredAfterPop(old(userRateLimits), key, userRateLimits[key]);
      if userRateLimits[key] == [] {
        userRateLimits := userRateLimits - {key};
        assert userRateLimits == old(userRateLimits) - {key};
      }
      StillMatch(window, old(userRateLimits), runs, key, Cleanup(now), userRateLimits);
      runs := runs[key := RunOf(key) + [Cleanup(now)]];
    }

    // Prunes every deque, drops the empty ones and returns how many stamps went.
    method CleanupRateLimits(now: real) returns (cleaned: nat)
      requires Valid()
      modifies this`userRateLimits, this`runs
      ensures Valid()
      ensures forall k :: RunOf(k) == old(RunOf(k)) + if k in old(userRateLimits) then [Cleanup(now)] else []
      ensures forall k :: k in userRateLimits ==> userRateLimits[k] != []
      ensures cleaned + Stored(userRateLimits) == Stored(old(userRateLimits))
    {
      cleaned := 0;
      var todo := userRateLimits.Keys;
      while todo != {}
        invariant Valid()
        invariant PrunedBut(todo, userRateLimits, old(userRateLimits))
        invariant LoggedBut(todo, now, old(userRateLimits), runs, old(runs))
        invariant cleaned + Stored(userRateLimits) == Stored(old(userRateLimits))
      {
        var key :| key in todo;
        ghost var before, logged := userRateLimits, runs;
        var popped := CleanupBucket(key, now);
        PrunedOneMore(todo, key, userRateLimits, before, old(userRateLimits));
        LoggedOneMore(todo, key, now, old(userRateLimits), logged, old(runs));
        cleaned := cleaned + popped;
        todo := todo - {key};
      }
    }
  }

  // Only deques in `todo` may still hold old stamps or be empty.
  ghost predicate PrunedBut(todo: set<string>, deques: Deques, first: Deques) {
    && todo <= deques.Keys <= first.Keys
    && forall k :: k in deques && k !in todo ==> deques[k] != []
  }

  ghost predicate LoggedBut(todo: set<string>, now: real, first: Deques, runs: Runs, firstRuns: Runs) {
    forall k :: Lookup(runs, k, []) ==
                Lookup(firstRuns, k, []) + if k in first && k !in todo then [Cleanup(now)] else []
  }

  lemma PrunedOneMore(todo: set<string>, key: string, deques: Deques, before: Deques, first: Deques)
    requires key in todo && PrunedBut(todo, before, first)
    requires deques - {key} == before - {key}
    requires key in deques ==> deques[key] != []
    ensures PrunedBut(todo - {key}, deques, first)
  {
    forall k | k != key ensures (k in deques <==> k in before) && (k in before ==> deques[k] == before[k]) {
      assert k in deques - {key} <==> k in before - {key};
      assert k in before ==> (deques - {key})[k] == (before - {key})[k];
    }
  }

  lemma LoggedOneMore(todo: set<string>, key: string, now: real, first: Deques, runs: Runs, firstRuns: Runs)
    requires key in todo && key in first && LoggedBut(todo, now, first, runs, firstRuns)
    ensures LoggedBut(todo - {key}, now, first, runs[key := Lookup(runs, key, []) + [Cleanup(now)]], firstRuns)
  {
  }
}
