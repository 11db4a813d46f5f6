/**
 `AIRateLimiter` of shared/ai_validation.py: per-bucket lists of request stamps, pruned and
 appended to in place, and a counter of concurrent requests per user.

 The limiter forgets: it keeps only what its last prune kept.  `Ideal` is a limiter that
 remembers every accepted request.  The two give the same verdict exactly when nothing was
 overlooked because of requests that overtook each other, and the window bounds follow.
 */
module AiRateLimiter {
  import opened Prelude
  import opened SlidingWindow
  import opened Overtaking

  datatype Limits = Limits(perMinute: int, perHour: int, concurrent: int)

  datatype Verdict =
    | Accepted(minuteRemaining: int, hourRemaining: int)
    | MinuteLimit(limit: int, current: int)
    | HourLimit(limit: int, current: int)

  datatype Request = Request(limits: Limits, now: real)

  function MinuteAt(now: real): Bound { Open(now - 60.0) }
  function HourAt(now: real): Bound { Open(now - 3600.0) }

  function Judge(limits: Limits, minuteCount: int, hourCount: int): Verdict {
    if minuteCount >= limits.perMinute then MinuteLimit(limits.perMinute, minuteCount)
    else if hourCount >= limits.perHour then HourLimit(limits.perHour, hourCount)
    else Accepted(limits.perMinute - minuteCount - 1, limits.perHour - hourCount - 1)
  }

  // ----- What the code keeps: two pruned lists

  datatype Lists = Lists(minute: seq<real>, hour: seq<real>)

  function Pruned(l: Lists, now: real): Lists {
    Lists(Recent(l.minute, MinuteAt(now)), Recent(l.hour, HourAt(now)))
  }

  function Decide(l: Lists, r: Request): Verdict {
    var p := Pruned(l, r.now);
    Judge(r.limits, |p.minute|, |p.hour|)
  }

  function ListsStep(l: Lists, r: Request): Lists {
    var p := Pruned(l, r.now);
    if Decide(l, r).Accepted? then Lists(p.minute + [r.now], p.hour + [r.now]) else p
  }

  function ListsAfter(run: seq<Request>): Lists {
    if run == [] then Lists([], []) else ListsStep(ListsAfter(run[..|run| - 1]), run[|run| - 1])
  }

  // Stamps of the requests accepted in a run.
  function AcceptedIn(run: seq<Request>): seq<real> {
    if run == [] then []
    else
      var before, r := run[..|run| - 1], run[|run| - 1];
      if Decide(ListsAfter(before), r).Accepted? then AcceptedIn(before) + [r.now] else AcceptedIn(before)
  }

  // ----- What it should decide: a verdict on the whole history

  function Ideal(accepted: seq<real>, r: Request): Verdict {
    Judge(r.limits, |Recent(accepted, MinuteAt(r.now))|, |Recent(accepted, HourAt(r.now))|)
  }

  lemma AfterOneMore(run: seq<Request>, r: Request)
    ensures ListsAfter(run + [r]) == ListsStep(ListsAfter(run), r)
    ensures AcceptedIn(run + [r]) ==
            if Decide(ListsAfter(run), r).Accepted? then AcceptedIn(run) + [r.now] else AcceptedIn(run)
  {
    assert (run + [r])[..|run|] == run;
  }

  // ----- The lists, whatever the order of the stamps

  function AsEntry(before: seq<Request>, r: Request): Entry {
    Entry(r.now, Decide(ListsAfter(before), r).Accepted?)
  }

  // The stamps of a run in the order in which they reached the lists.
  function History(run: seq<Request>): (h: seq<Entry>)
    ensures |h| == |run|
  {
    if run == [] then [] else History(run[..|run| - 1]) + [AsEntry(run[..|run| - 1], run[|run| - 1])]
  }

  lemma {:induction false} HistoryStamps(run: seq<Request>, i: nat)
    requires i < |run|
    ensures History(run)[i].now == run[i].now
  {
    if i < |run| - 1 {
      HistoryStamps(run[..|run| - 1], i);
    }
  }

  // The lists hold exactly the accepted stamps that no later request overtook.
  lemma {:induction false} ListsHoldListed(run: seq<Request>)
    ensures AcceptedIn(run) == Overtaking.Accepted(History(run), |run|)
    ensures ListsAfter(run) == Lists(Listed(History(run), 60.0, |run|), Listed(History(run), 3600.0, |run|))
  {
    if run != [] {
      var n := |run| - 1;
      var h, e := History(run[..n]), AsEntry(run[..n], run[n]);
      ListsHoldListed(run[..n]);
      AcceptedOneMore(h, e, n);
      StepKeepsListed(ListsAfter(run[..n]), h, run[n]);
    }
  }

  lemma StepKeepsListed(l: Lists, h: seq<Entry>, r: Request)
    requires l == Lists(Listed(h, 60.0, |h|), Listed(h, 3600.0, |h|))
    ensures var longer := h + [Entry(r.now, Decide(l, r).Accepted?)];
            ListsStep(l, r) == Lists(Listed(longer, 60.0, |h| + 1), Listed(longer, 3600.0, |h| + 1))
  {
    var e := Entry(r.now, Decide(l, r).Accepted?);
    StepOf(l, r, e);
    ListedStep(h, e, 60.0);
    ListedStep(h, e, 3600.0);
  }

  lemma StepOf(l: Lists, r: Request, e: Entry)
    requires e == Entry(r.now, Decide(l, r).Accepted?)
    ensures ListsStep(l, r).minute ==
            var kept := Recent(l.minute, Open(e.now - 60.0)); if e.accepted then kept + [e.now] else kept
    ensures ListsStep(l, r).hour ==
            var kept := Recent(l.hour, Open(e.now - 3600.0)); if e.accepted then kept + [e.now] else kept
  {
  }

  // Stamps that a request r should count but that were overtaken.
  function MinuteOverlooked(run: seq<Request>, r: Request): nat {
    Overlooked(History(run), 60.0, MinuteAt(r.now), |run|)
  }

  function HourOverlooked(run: seq<Request>, r: Request): nat {
    Overlooked(History(run), 3600.0, HourAt(r.now), |run|)
  }

  // What a request counts, plus what was overlooked, is what it should count.
  lemma {:induction false} CountsAreConserved(run: seq<Request>, r: Request)
    ensures var p, acc := Pruned(ListsAfter(run), r.now), AcceptedIn(run);
            && |p.minute| + MinuteOverlooked(run, r) == |Recent(acc, MinuteAt(r.now))|
            && |p.hour| + HourOverlooked(run, r) == |Recent(acc, HourAt(r.now))|
  {
    ListsHoldListed(run);
    ListedAndOverlooked(History(run), 60.0, MinuteAt(r.now), |run|);
    ListedAndOverlooked(History(run), 3600.0, HourAt(r.now), |run|);
  }

  // A request counts too little if and only if an accepted stamp that is still in its window was
  // reached back beyond by a request that came after it.
  lemma {:induction false} UndercountsIff(run: seq<Request>, r: Request)
    ensures |Pruned(ListsAfter(run), r.now).minute| < |Recent(AcceptedIn(run), MinuteAt(r.now))| <==>
            SomeReaches(History(run), 60.0, r.now)
    ensures |Pruned(ListsAfter(run), r.now).hour| < |Recent(AcceptedIn(run), HourAt(r.now))| <==>
            SomeReaches(History(run), 3600.0, r.now)
  {
    ListsHoldListed(run);
    ListsUndercountIff(ListsAfter(run), AcceptedIn(run), History(run), r.now);
  }

  lemma ListsUndercountIff(l: Lists, accepted: seq<real>, h: seq<Entry>, now: real)
    requires l == Lists(Listed(h, 60.0, |h|), Listed(h, 3600.0, |h|)) && accepted == Overtaking.Accepted(h, |h|)
    ensures |Pruned(l, now).minute| < |Recent(accepted, MinuteAt(now))| <==> SomeReaches(h, 60.0, now)
    ensures |Pruned(l, now).hour| < |Recent(accepted, HourAt(now))| <==> SomeReaches(h, 3600.0, now)
  {
    CountsLessIffReached(h, 60.0, now);
    CountsLessIffReached(h, 3600.0, now);
  }

  lemma JudgedAlikeIff(limits: Limits, m: int, h: int, m': int, h': int)
    ensures Judge(limits, m, h) == Judge(limits, m', h') <==>
            || (m == m' && (h == h' || m >= limits.perMinute))
            || (h == h' && h >= limits.perHour && m < limits.perMinute && m' < limits.perMinute)
  {
  }

  // The forgetful limiter decides a request as the one that remembers everything, down to the counts
  // it reports, if and only if it overlooks no minute stamp, and no hour stamp either unless the
  // minute limit denies anyway; or the hour limit denies on a full count and the minute limit would
  // not.
  lemma {:induction false} RefinesIdealIff(run: seq<Request>, r: Request)
    ensures var p, m, h := Pruned(ListsAfter(run), r.now), MinuteOverlooked(run, r), HourOverlooked(run, r);
            Decide(ListsAfter(run), r) == Ideal(AcceptedIn(run), r) <==>
            || (m == 0 && (h == 0 || |p.minute| >= r.limits.perMinute))
            || (h == 0 && |p.hour| >= r.limits.perHour && |p.minute| + m < r.limits.perMinute)
  {
    var p, acc := Pruned(ListsAfter(run), r.now), AcceptedIn(run);
    CountsAreConserved(run, r);
    JudgedAlikeIff(r.limits, |p.minute|, |p.hour|,
                   |Recent(acc, MinuteAt(r.now))|, |Recent(acc, HourAt(r.now))|);
  }

  // The minute list is a suffix of the hour list if and only if no stamp is missing from it after one
  // that is not.
  lemma {:induction false} MinuteListIsSuffixIff(run: seq<Request>)
    ensures IsSuffix(ListsAfter(run).minute, ListsAfter(run).hour) <==> NoGap(History(run), 60.0, 3600.0, |run|)
  {
    ListsHoldListed(run);
    SuffixIffNoGap(History(run), 60.0, 3600.0, |run|);
  }

  // ----- Verdicts, in terms of what was accepted before

  // What these counts mean under these limits.
  predicate IsVerdict(verdict: Verdict, limits: Limits, m: int, h: int) {
    && (verdict.Accepted? <==> m < limits.perMinute && h < limits.perHour)
    && (verdict.MinuteLimit? <==> m >= limits.perMinute)
    && (verdict.MinuteLimit? ==> verdict == MinuteLimit(limits.perMinute, m))
    && (verdict.HourLimit? ==> verdict == HourLimit(limits.perHour, h))
  }

  lemma ListsGiveVerdict(l: Lists, r: Request, m: int, h: int)
    requires m == |Pruned(l, r.now).minute| && h == |Pruned(l, r.now).hour|
    ensures IsVerdict(Decide(l, r), r.limits, m, h)
  {
  }

  // Of the stamps accepted in the last minute let m be those that are not overlooked, and likewise h
  // for the hour.  The request is accepted if and only if both are below its limits; otherwise the
  // minute limit is reported if it is reached, and else the hour limit, with the count.
  lemma {:induction false} VerdictOnHistory(run: seq<Request>, r: Request, m: int, h: int)
    requires m + MinuteOverlooked(run, r) == |Recent(AcceptedIn(run), Open(r.now - 60.0))|
    requires h + HourOverlooked(run, r) == |Recent(AcceptedIn(run), Open(r.now - 3600.0))|
    ensures m >= 0 && h >= 0 && IsVerdict(Decide(ListsAfter(run), r), r.limits, m, h)
  {
    var l := ListsAfter(run);
    assert m == |Pruned(l, r.now).minute| && h == |Pruned(l, r.now).hour| by {
      CountsAreConserved(run, r);
    }
    ListsGiveVerdict(l, r, m, h);
  }

  function Repeated(r: Request, n: nat): seq<Request> {
    seq(n, i => r)
  }

  // Lists pruned for this moment, with `left` places before one of the limits is reached.
  ghost predicate HasLeft(l: Lists, r: Request, left: int) {
    Pruned(l, r.now) == l && left == Min(r.limits.perMinute - |l.minute|, r.limits.perHour - |l.hour|)
  }

  lemma StepLeaves(l: Lists, r: Request, left: int)
    requires HasLeft(l, r, left)
    ensures Decide(l, r).Accepted? <==> left > 0
    ensures HasLeft(ListsStep(l, r), r, if left > 0 then left - 1 else left)
  {
    RecentAppend(l.minute, r.now, MinuteAt(r.now));
    RecentAppend(l.hour, r.now, HourAt(r.now));
  }

  lemma AppendedStaysPruned(s: seq<real>, t: real, b: Bound)
    requires b.Keeps(t)
    ensures Recent(Recent(s, b) + [t], b) == Recent(s, b) + [t]
  {
    RecentOfRecent(s, b, b);
    RecentAppend(Recent(s, b), t, b);
  }

  lemma {:induction false} AcceptanceLeaves(l: Lists, r: Request)
    requires Decide(l, r).Accepted?
    ensures var verdict := Decide(l, r);
            && 0 <= verdict.minuteRemaining && 0 <= verdict.hourRemaining
            && HasLeft(ListsStep(l, r), r, Min(verdict.minuteRemaining, verdict.hourRemaining))
  {
    AppendedStaysPruned(l.minute, r.now, MinuteAt(r.now));
    AppendedStaysPruned(l.hour, r.now, HourAt(r.now));
  }

  // The run has accepted this many requests, and leaves this many places.
  ghost predicate Stands(run: seq<Request>, r: Request, accepted: int, left: int) {
    |AcceptedIn(run)| == accepted && HasLeft(ListsAfter(run), r, left)
  }

  lemma OneRepetition(run: seq<Request>, r: Request, accepted: int, left: nat)
    requires Stands(run, r, accepted, left)
    ensures Stands(run + [r], r, accepted + Min(1, left), left - Min(1, left))
  {
    AfterOneMore(run, r);
    StepLeaves(ListsAfter(run), r, left);
  }

  lemma RepeatedOneMore(run: seq<Request>, r: Request, n: nat)
    ensures run + Repeated(r, 0) == run
    ensures run + Repeated(r, n + 1) == run + Repeated(r, n) + [r]
  {
  }

  lemma {:induction false} RepeatedAccepts(run: seq<Request>, r: Request, accepted: int, left: nat, n: nat)
    requires Stands(run, r, accepted, left)
    ensures Stands(run + Repeated(r, n), r, accepted + Min(n, left), left - Min(n, left))
  {
    if n == 0 {
      RepeatedOneMore(run, r, 0);
    } else {
      var m := n - 1;
      RepeatedAccepts(run, r, accepted, left, m);
      OneRepetition(run + Repeated(r, m), r, accepted + Min(m, left), left - Min(m, left));
      RepeatedOneMore(run, r, m);
    }
  }

  // What an accepted request is told to remain is what is accepted after it at the same moment: of any
  // number of repetitions exactly the smaller of the two remaining counts.
  lemma RemainingIsWhatFollows(run: seq<Request>, r: Request, n: nat)
    requires Decide(ListsAfter(run), r).Accepted?
    ensures var verdict := Decide(ListsAfter(run), r);
            && verdict.minuteRemaining >= 0 && verdict.hourRemaining >= 0
            && |AcceptedIn(run + [r] + Repeated(r, n))|
               == |AcceptedIn(run)| + 1 + Min(n, Min(verdict.minuteRemaining, verdict.hourRemaining))
  {
    var verdict := Decide(ListsAfter(run), r);
    AfterOneMore(run, r);
    AcceptanceLeaves(ListsAfter(run), r);
    var left := Min(verdict.minuteRemaining, verdict.hourRemaining);
    RepeatedAccepts(run + [r], r, |AcceptedIn(run)| + 1, left, n);
  }

  // ----- Bounds

  lemma IdealAcceptance(acc: seq<real>, r: Request)
    requires Ideal(acc, r).Accepted?
    ensures r.limits.perMinute > 0 && BoundedAt(acc + [r.now], |acc|, Open(0.0), 60.0, r.limits.perMinute)
    ensures r.limits.perHour > 0 && BoundedAt(acc + [r.now], |acc|, Open(0.0), 3600.0, r.limits.perHour)
  {
    assert (acc + [r.now])[..|acc| + 1] == acc + [r.now];
    RecentAppend(acc, r.now, MinuteAt(r.now));
    RecentAppend(acc, r.now, HourAt(r.now));
  }

  // Of the overlooked stamps, those that are not later than the request's own.
  function MinuteMissed(run: seq<Request>, r: Request): nat {
    OverlookedUpTo(History(run), 60.0, MinuteAt(r.now), r.now, |run|)
  }

  function HourMissed(run: seq<Request>, r: Request): nat {
    OverlookedUpTo(History(run), 3600.0, HourAt(r.now), r.now, |run|)
  }

  lemma {:induction false} WindowsAreConserved(run: seq<Request>, r: Request)
    ensures var l, acc := ListsAfter(run), AcceptedIn(run);
            && InWindow(l.minute, MinuteAt(r.now), r.now) + MinuteMissed(run, r)
               == InWindow(acc, MinuteAt(r.now), r.now)
            && InWindow(l.hour, HourAt(r.now), r.now) + HourMissed(run, r) == InWindow(acc, HourAt(r.now), r.now)
  {
    ListsHoldListed(run);
    WindowAndOverlooked(History(run), 60.0, MinuteAt(r.now), r.now, |run|);
    WindowAndOverlooked(History(run), 3600.0, HourAt(r.now), r.now, |run|);
  }

  // A request accepted at t under limits (m, h) is at most the m-th in (t - 60, t] if and only if
  // what the list has in that window and what was overlooked of it leave room for it ...
  lemma MinuteIsBoundedIff(run: seq<Request>, r: Request)
    requires Decide(ListsAfter(run), r).Accepted?
    ensures InWindow(AcceptedIn(run + [r]), MinuteAt(r.now), r.now) <= r.limits.perMinute <==>
            InWindow(ListsAfter(run).minute, MinuteAt(r.now), r.now) + MinuteMissed(run, r) < r.limits.perMinute
  {
    AfterOneMore(run, r);
    WindowsAreConserved(run, r);
    InWindowAppend(AcceptedIn(run), r.now, MinuteAt(r.now), r.now);
  }

  // ... and likewise the h-th in (t - 3600, t].
  lemma HourIsBoundedIff(run: seq<Request>, r: Request)
    requires Decide(ListsAfter(run), r).Accepted?
    ensures InWindow(AcceptedIn(run + [r]), HourAt(r.now), r.now) <= r.limits.perHour <==>
            InWindow(ListsAfter(run).hour, HourAt(r.now), r.now) + HourMissed(run, r) < r.limits.perHour
  {
    AfterOneMore(run, r);
    WindowsAreConserved(run, r);
    InWindowAppend(AcceptedIn(run), r.now, HourAt(r.now), r.now);
  }

  // So it keeps both limits where nothing was overlooked, as the lists then have room for it.
  lemma AcceptanceIsBounded(run: seq<Request>, r: Request)
    requires Decide(ListsAfter(run), r).Accepted?
    ensures MinuteMissed(run, r) <= MinuteOverlooked(run, r) && HourMissed(run, r) <= HourOverlooked(run, r)
    ensures MinuteMissed(run, r) == 0 ==>
              InWindow(AcceptedIn(run + [r]), MinuteAt(r.now), r.now) <= r.limits.perMinute
    ensures HourMissed(run, r) == 0 ==>
              InWindow(AcceptedIn(run + [r]), HourAt(r.now), r.now) <= r.limits.perHour
  {
    UpToAtMostAll(History(run), 60.0, MinuteAt(r.now), r.now, |run|);
    UpToAtMostAll(History(run), 3600.0, HourAt(r.now), r.now, |run|);
    MinuteIsBoundedIff(run, r);
    HourIsBoundedIff(run, r);
    InWindowAtMost(ListsAfter(run).minute, MinuteAt(r.now), r.now);
    InWindowAtMost(ListsAfter(run).hour, HourAt(r.now), r.now);
  }

  // At each acceptance of the run the windows that it falls into had room for it.
  ghost predicate EachHadRoom(run: seq<Request>, m: int, h: int) {
    run == [] ||
    var before, r := run[..|run| - 1], run[|run| - 1];
    && EachHadRoom(before, m, h)
    && (Decide(ListsAfter(before), r).Accepted? ==>
          && HasRoom(ListsAfter(before).minute, History(before), 60.0, r.now, m)
          && HasRoom(ListsAfter(before).hour, History(before), 3600.0, r.now, h))
  }

  lemma AcceptanceKeepsWindowsIff(run: seq<Request>, now: real, m: int, h: int)
    ensures var l, acc, longer := ListsAfter(run), AcceptedIn(run), AcceptedIn(run) + [now];
            WindowsWithin(longer, 60.0, m) && WindowsWithin(longer, 3600.0, h) <==>
            && WindowsWithin(acc, 60.0, m) && WindowsWithin(acc, 3600.0, h)
            && HasRoom(l.minute, History(run), 60.0, now, m) && HasRoom(l.hour, History(run), 3600.0, now, h)
  {
    ListsHoldListed(run);
    RoomOneMoreIff(History(run), 60.0, now, m);
    RoomOneMoreIff(History(run), 3600.0, now, h);
  }

  // Whatever the order of the stamps: every minute and every hour, wherever it starts, holds at most m
  // and h accepted requests if and only if at each acceptance what was listed and what was overlooked
  // left room in the windows it falls into.
  lemma {:induction false} EveryWindowObeysIff(run: seq<Request>, m: nat, h: nat)
    ensures WindowsWithin(AcceptedIn(run), 60.0, m) && WindowsWithin(AcceptedIn(run), 3600.0, h) <==>
            EachHadRoom(run, m, h)
  {
    if run != [] {
      var before, r := run[..|run| - 1], run[|run| - 1];
      EveryWindowObeysIff(before, m, h);
      if Decide(ListsAfter(before), r).Accepted? {
        AcceptanceKeepsWindowsIff(before, r.now, m, h);
      }
    }
  }

  // Every accepted request of the run decided on all it should see.
  ghost predicate NothingOverlooked(run: seq<Request>) {
    run == [] ||
    var before, r := run[..|run| - 1], run[|run| - 1];
    && NothingOverlooked(before)
    && (Decide(ListsAfter(before), r).Accepted? ==> MinuteOverlooked(before, r) == HourOverlooked(before, r) == 0)
  }

  ghost predicate TierUpTo(run: seq<Request>, m: nat, h: nat) {
    forall i :: 0 <= i < |run| ==> run[i].limits.perMinute <= m && run[i].limits.perHour <= h
  }

  ghost predicate BothBounded(acc: seq<real>, m: nat, h: nat) {
    EachBounded(acc, Open(0.0), 60.0, m) && EachBounded(acc, Open(0.0), 3600.0, h)
  }

  lemma BothStayBounded(acc: seq<real>, r: Request, m: nat, h: nat)
    requires BothBounded(acc, m, h) && Ideal(acc, r).Accepted?
    requires r.limits.perMinute <= m && r.limits.perHour <= h
    ensures BothBounded(acc + [r.now], m, h)
  {
    IdealAcceptance(acc, r);
    BoundedExtends(acc, r.now, Open(0.0), 60.0, m);
    BoundedExtends(acc, r.now, Open(0.0), 3600.0, h);
  }

  lemma {:induction false} EachAcceptanceBounded(run: seq<Request>, m: nat, h: nat)
    requires NothingOverlooked(run) && TierUpTo(run, m, h)
    ensures BothBounded(AcceptedIn(run), m, h)
  {
    if run != [] {
      var before, r := run[..|run| - 1], run[|run| - 1];
      EachAcceptanceBounded(before, m, h);
      if Decide(ListsAfter(before), r).Accepted? {
        RefinesIdealIff(before, r);
        BothStayBounded(AcceptedIn(before), r, m, h);
      }
    }
  }

  // With tiers of at most m per minute and h per hour, every minute and every hour of the run,
  // wherever it starts, holds at most m and h accepted requests, if nothing was overlooked.
  lemma EveryWindowObeysLimits(run: seq<Request>, m: nat, h: nat, start: real)
    requires NothingOverlooked(run) && TierUpTo(run, m, h)
    ensures InWindow(AcceptedIn(run), Open(start), start + 60.0) <= m
    ensures InWindow(AcceptedIn(run), Open(start), start + 3600.0) <= h
  {
    EachAcceptanceBounded(run, m, h);
    BothWindows(AcceptedIn(run), m, h, start);
  }

  lemma BothWindows(acc: seq<real>, m: nat, h: nat, start: real)
    requires BothBounded(acc, m, h)
    ensures InWindow(acc, Open(start), start + 60.0) <= m
    ensures InWindow(acc, Open(start), start + 3600.0) <= h
  {
    WindowsAnywhere(acc, Open(0.0), start, 60.0, m);
    WindowsAnywhere(acc, Open(0.0), start, 3600.0, h);
  }

  // ----- Requests in the order of their stamps

  ghost predicate ClockOk(run: seq<Request>) {
    forall i, j :: 0 <= i < j < |run| ==> run[i].now <= run[j].now
  }

  lemma {:induction false} StampsOf(run: seq<Request>, r: Request)
    requires ClockOk(run + [r])
    ensures ClockOk(run) && forall j :: 0 <= j < |run| ==> History(run)[j].now <= r.now
  {
    var all := run + [r];
    assert forall j :: 0 <= j < |run| ==> all[j] == run[j];
    forall j | 0 <= j < |run| ensures History(run)[j].now <= r.now {
      HistoryStamps(run, j);
      assert all[j].now <= all[|run|].now;
    }
  }

  lemma NothingOverlookedNow(run: seq<Request>, r: Request)
    requires ClockOk(run + [r])
    ensures MinuteOverlooked(run, r) == HourOverlooked(run, r) == 0
  {
    StampsOf(run, r);
    NothingBeforeIsOverlooked(History(run), 60.0, r.now);
    NothingBeforeIsOverlooked(History(run), 3600.0, r.now);
  }

  // Then the two limiters agree on every request, and the minute list is a suffix of the hour list.
  lemma RefinesIdeal(run: seq<Request>, r: Request)
    requires ClockOk(run + [r])
    ensures Decide(ListsAfter(run), r) == Ideal(AcceptedIn(run), r)
    ensures IsSuffix(ListsAfter(run).minute, ListsAfter(run).hour)
  {
    StampsOf(run, r);
    NothingOverlookedNow(run, r);
    RefinesIdealIff(run, r);
    NoGapInOrder(run);
    MinuteListIsSuffixIff(run);
  }

  // And no request of the run overlooks anything.
  lemma {:induction false} InOrderNothingIsOverlooked(run: seq<Request>)
    requires ClockOk(run)
    ensures NothingOverlooked(run)
  {
    if run != [] {
      var before, r := run[..|run| - 1], run[|run| - 1];
      assert run == before + [r];
      NothingOverlookedNow(before, r);
      InOrderNothingIsOverlooked(before);
    }
  }

  lemma NoGapInOrder(run: seq<Request>)
    requires ClockOk(run)
    ensures NoGap(History(run), 60.0, 3600.0, |run|)
  {
    var h := History(run);
    forall i, k | 0 <= i < k < |run| && ListedAt(h, i, 60.0) && ListedAt(h, k, 3600.0) ensures ListedAt(h, k, 60.0) {
      HistoryStamps(run, i);
      HistoryStamps(run, k);
      if Overtaken(h, k, 60.0) {
        OvertakenIsLess(h, i, k, 60.0);
      }
    }
  }

  // Where stamps are overlooked the bound can fail: here the request stamped 65.0 is the third one
  // accepted in (5.0, 65.0] although the limit is 2.
  lemma LateStampCanExceedLimit()
    ensures var lim := Limits(2, 100, 1);
            var run := [Request(lim, 5.05), Request(lim, 5.06)] + [Request(lim, 65.1)] + [Request(lim, 65.0)];
            && AcceptedIn(run) == [5.05, 5.06] + [65.1] + [65.0]
            && InWindow(AcceptedIn(run), MinuteAt(65.0), 65.0) == 3
  {
    var lim := Limits(2, 100, 1);
    var two, third, fourth := [Request(lim, 5.05), Request(lim, 5.06)], Request(lim, 65.1), Request(lim, 65.0);
    FirstTwo(lim);
    ThirdStep(third);
    FourthStep(fourth);
    AfterOneMore(two, third);
    AfterOneMore(two + [third], fourth);
    CountInWindow();
  }

  lemma FirstTwo(lim: Limits)
    requires lim == Limits(2, 100, 1)
    ensures var two := [Request(lim, 5.05), Request(lim, 5.06)];
            ListsAfter(two) == Lists([5.05, 5.06], [5.05, 5.06]) && AcceptedIn(two) == [5.05, 5.06]
  {
    var q1, q2 := Request(lim, 5.05), Request(lim, 5.06);
    assert [q1] == [] + [q1] && [q1, q2] == [q1] + [q2];
    AfterOneMore([], q1);
    AfterOneMore([q1], q2);
    FirstStep(q1);
    SecondStep(q2);
  }

  lemma FirstStep(q: Request)
    requires q == Request(Limits(2, 100, 1), 5.05)
    ensures Decide(Lists([], []), q).Accepted? && ListsStep(Lists([], []), q) == Lists([5.05], [5.05])
  {
  }

  lemma SecondStep(q: Request)
    requires q == Request(Limits(2, 100, 1), 5.06)
    ensures Decide(Lists([5.05], [5.05]), q).Accepted?
    ensures ListsStep(Lists([5.05], [5.05]), q) == Lists([5.05, 5.06], [5.05, 5.06])
  {
    RecentAll([5.05], MinuteAt(5.06));
    RecentAll([5.05], HourAt(5.06));
    assert [5.05] + [5.06] == [5.05, 5.06];
  }

  lemma ThirdStep(q: Request)
    requires q == Request(Limits(2, 100, 1), 65.1)
    ensures Decide(Lists([5.05, 5.06], [5.05, 5.06]), q).Accepted?
    ensures ListsStep(Lists([5.05, 5.06], [5.05, 5.06]), q) == Lists([65.1], [5.05, 5.06, 65.1])
  {
    RecentNone([5.05, 5.06], MinuteAt(65.1));
    RecentAll([5.05, 5.06], HourAt(65.1));
    assert [] + [65.1] == [65.1] && [5.05, 5.06] + [65.1] == [5.05, 5.06, 65.1];
  }

  lemma FourthStep(q: Request)
    requires q == Request(Limits(2, 100, 1), 65.0)
    ensures Decide(Lists([65.1], [5.05, 5.06, 65.1]), q).Accepted?
  {
    RecentAll([65.1], MinuteAt(65.0));
    RecentAll([5.05, 5.06, 65.1], HourAt(65.0));
  }

  lemma CountInWindow()
    ensures InWindow([5.05, 5.06] + [65.1] + [65.0], MinuteAt(65.0), 65.0) == 3
  {
    var a := [5.05, 5.06] + [65.1] + [65.0];
    assert a[..3] == [5.05, 5.06, 65.1] && [5.05, 5.06, 65.1][..2] == [5.05, 5.06] && [5.05, 5.06][..1] == [5.05];
    assert InWindow([5.05], MinuteAt(65.0), 65.0) == 1 && InWindow([5.05, 5.06], MinuteAt(65.0), 65.0) == 2;
    assert InWindow([5.05, 5.06, 65.1], MinuteAt(65.0), 65.0) == 2;
  }

  // ----- Concurrent requests

  datatype SlotOp = Acquire(limit: int) | Release

  function SlotStep(held: int, op: SlotOp): int {
    match op
    case Acquire(limit) => if held >= limit then held else held + 1
    case Release => if held > 0 then held - 1 else 0
  }

  function SlotsAfter(ops: seq<SlotOp>): int {
    if ops == [] then 0 else SlotStep(SlotsAfter(ops[..|ops| - 1]), ops[|ops| - 1])
  }

  function Granted(ops: seq<SlotOp>): nat {
    if ops == [] then 0
    else
      var before, op := ops[..|ops| - 1], ops[|ops| - 1];
      Granted(before) + if op.Acquire? && SlotsAfter(before) < op.limit then 1 else 0
  }

  function Released(ops: seq<SlotOp>): nat {
    if ops == [] then 0 else Released(ops[..|ops| - 1]) + if ops[|ops| - 1].Release? then 1 else 0
  }

  // No release ever found the counter at 0.
  ghost predicate NoSpareRelease(ops: seq<SlotOp>) {
    forall i :: 0 <= i < |ops| && ops[i].Release? ==> SlotsAfter(ops[..i]) > 0
  }

  // The counter never exceeds the largest limit used, and it is the number of grants not
  // yet given back exactly when nothing was released that was not held.
  lemma {:induction false} SlotsCountHolders(ops: seq<SlotOp>, limit: nat)
    requires forall i :: 0 <= i < |ops| && ops[i].Acquire? ==> ops[i].limit <= limit
    ensures 0 <= SlotsAfter(ops) <= limit
    ensures SlotsAfter(ops) >= Granted(ops) - Released(ops)
    ensures SlotsAfter(ops) == Granted(ops) - Released(ops) <==> NoSpareRelease(ops)
  {
    if ops != [] {
      SlotsCountHolders(ops[..|ops| - 1], limit);
      SpareReleaseOneMore(ops);
    }
  }

  lemma SpareReleaseOneMore(ops: seq<SlotOp>)
    requires ops != []
    ensures var n := |ops| - 1;
            NoSpareRelease(ops) <==> NoSpareRelease(ops[..n]) && (ops[n].Release? ==> SlotsAfter(ops[..n]) > 0)
  {
    var n := |ops| - 1;
    var before := ops[..n];
    forall i | 0 <= i < n ensures ops[i] == before[i] && ops[..i] == before[..i] {
    }
  }

  // ----- The object

  type Stamps = map<string, seq<real>>

  ghost predicate ListsMatchAt(minute: Stamps, hour: Stamps, requests: map<string, seq<Request>>, b: string) {
    Lists(Lookup(minute, b, []), Lookup(hour, b, [])) == ListsAfter(Lookup(requests, b, []))
  }

  // The two dictionaries hold, for each bucket, the lists its requests lead to.
  ghost predicate ListsMatch(minute: Stamps, hour: Stamps, requests: map<string, seq<Request>>) {
    forall b :: ListsMatchAt(minute, hour, requests, b)
  }

  lemma ListsStillMatch(minute: Stamps, hour: Stamps, requests: map<string, seq<Request>>, b: string, r: Request,
                        l: Lists)
    requires ListsMatch(minute, hour, requests)
    requires l == ListsStep(ListsAfter(Lookup(requests, b, [])), r)
    ensures ListsMatch(minute[b := l.minute], hour[b := l.hour], requests[b := Lookup(requests, b, []) + [r]])
  {
    var run := Lookup(requests, b, []);
    AfterOneMore(run, r);
    var minute', hour', requests' := minute[b := l.minute], hour[b := l.hour], requests[b := run + [r]];
    forall x ensures ListsMatchAt(minute', hour', requests', x) {
      assert ListsMatchAt(minute, hour, requests, x);
    }
  }

  ghost predicate SlotsMatchAt(concurrent: map<string, int>, slotOps: map<string, seq<SlotOp>>, u: string) {
    Lookup(concurrent, u, 0) == SlotsAfter(Lookup(slotOps, u, []))
  }

  ghost predicate SlotsMatch(concurrent: map<string, int>, slotOps: map<string, seq<SlotOp>>) {
    forall u :: SlotsMatchAt(concurrent, slotOps, u)
  }

  lemma SlotsStillMatch(concurrent: map<string, int>, slotOps: map<string, seq<SlotOp>>, u: string, op: SlotOp)
    requires SlotsMatch(concurrent, slotOps)
    ensures var held := SlotStep(Lookup(concurrent, u, 0), op);
            var ops := slotOps[u := Lookup(slotOps, u, []) + [op]];
            && SlotsMatch(concurrent[u := held], ops)
            && (held == Lookup(concurrent, u, 0) ==> SlotsMatch(concurrent, ops))
  {
    var ops := Lookup(slotOps, u, []);
    assert (ops + [op])[..|ops|] == ops;
    assert SlotsMatchAt(concurrent, slotOps, u);
    var held := SlotStep(Lookup(concurrent, u, 0), op);
    var concurrent', slotOps' := concurrent[u := held], slotOps[u := ops + [op]];
    forall x
      ensures SlotsMatchAt(concurrent', slotOps', x)
      ensures held == Lookup(concurrent, u, 0) ==> SlotsMatchAt(concurrent, slotOps', x)
    {
      assert SlotsMatchAt(concurrent, slotOps, x);
    }
  }

  // ----- Buckets

  function Bucket(userId: string, operation: string): string {
    userId + ":" + operation
  }

  // The same text, split at another colon.
  ghost predicate SplitElsewhere(user: string, op: string, user': string, op': string) {
    exists between: string :: user' == user + ":" + between && op == between + ":" + op'
  }

  lemma SplitElsewhereShares(user: string, op: string, user': string, op': string)
    requires SplitElsewhere(user, op, user', op')
    ensures Bucket(user, op) == Bucket(user', op')
  {
    var between: string :| user' == user + ":" + between && op == between + ":" + op';
    assert user + ":" + (between + ":" + op') == user + ":" + between + ":" + op';
  }

  lemma LongerUserSplitsElsewhere(user: string, op: string, user': string, op': string)
    requires Bucket(user, op) == Bucket(user', op') && |user| < |user'|
    ensures SplitElsewhere(user, op, user', op')
  {
    var b := Bucket(user, op);
    var between := user'[|user| + 1..];
    assert b[..|user|] == user && b[|user|] == ':' && b[|user| + 1..] == op;
    assert b[..|user'|] == user' && b[|user'|] == ':' && b[|user'| + 1..] == op';
    assert user' == user + ":" + between;
    assert op == between + ":" + op';
  }

  lemma SameLengthSameUser(user: string, op: string, user': string, op': string)
    requires Bucket(user, op) == Bucket(user', op') && |user| == |user'|
    ensures user == user' && op == op'
  {
    var b := Bucket(user, op);
    assert b[..|user|] == user && b[|user| + 1..] == op;
    assert b[..|user'|] == user' && b[|user'| + 1..] == op';
  }

  // Two pairs share a bucket if and only if they are the same, or split the same text at different
  // colons, like "a:b" with "c" and "a" with "b:c".
  lemma BucketsSharedIff(user: string, op: string, user': string, op': string)
    ensures Bucket(user, op) == Bucket(user', op') <==>
            || (user == user' && op == op')
            || SplitElsewhere(user, op, user', op') || SplitElsewhere(user', op', user, op)
  {
    if Bucket(user, op) == Bucket(user', op') {
      if |user| < |user'| {
        LongerUserSplitsElsewhere(user, op, user', op');
      } else if |user'| < |user| {
        LongerUserSplitsElsewhere(user', op', user, op);
      } else {
        SameLengthSameUser(user, op, user', op');
      }
    }
    if SplitElsewhere(user, op, user', op') {
      SplitElsewhereShares(user, op, user', op');
    }
    if SplitElsewhere(user', op', user, op) {
      SplitElsewhereShares(user', op', user, op);
    }
  }

  lemma OnlyColonsSplitElsewhere(user: string, op: string, user': string, op': string)
    requires SplitElsewhere(user, op, user', op')
    ensures ':' in op
  {
    var between: string :| user' == user + ":" + between && op == between + ":" + op';
    assert op[|between|] == ':';
  }

  // So operations without a colon never do.
  lemma PlainOperationsHaveOwnBuckets(user: string, op: string, user': string, op': string)
    requires ':' !in op && ':' !in op' && (user != user' || op != op')
    ensures Bucket(user, op) != Bucket(user', op')
  {
    BucketsSharedIff(user, op, user', op');
    if SplitElsewhere(user, op, user', op') {
      OnlyColonsSplitElsewhere(user, op, user', op');
    }
    if SplitElsewhere(user', op', user, op) {
      OnlyColonsSplitElsewhere(user', op', user, op);
    }
  }

  class AiRateLimiter {
    var requestsPerMinute: map<string, seq<real>>
    var requestsPerHour: map<string, seq<real>>
    var concurrent: map<string, int>
    ghost var requests: map<string, seq<Request>>  // per bucket
    ghost var slotOps: map<string, seq<SlotOp>>    // per user

    ghost function RunOf(bucket: string): seq<Request>
      reads this
    {
      Lookup(requests, bucket, [])
    }

    // The requests of one user for one operation, and the stamps kept for them.
    ghost function RequestsOf(userId: string, operation: string): seq<Request>
      reads this
    {
      RunOf(Bucket(userId, operation))
    }

    function ListsOf(userId: string, operation: string): Lists
      reads this
    {
      Lists(Lookup(requestsPerMinute, Bucket(userId, operation), []),
            Lookup(requestsPerHour, Bucket(userId, operation), []))
    }

    ghost function SlotsOf(userId: string): seq<SlotOp>
      reads this
    {
      Lookup(slotOps, userId, [])
    }

    ghost predicate Valid()
      reads this
    {
      && ListsMatch(requestsPerMinute, requestsPerHour, requests)
      && SlotsMatch(concurrent, slotOps)
    }

    constructor ()
      ensures Valid() && requests == map[] && slotOps == map[]
    {
      requestsPerMinute, requestsPerHour, concurrent := map[], map[], map[];
      requests, slotOps := map[], map[];
    }

    // The block under the lock, for one bucket.
    method CheckBucket(b: string, limits: Limits, now: real) returns (verdict: Verdict)
      requires Valid()
      modifies this`requestsPerMinute, this`requestsPerHour, this`requests
      ensures Valid() && verdict == Decide(ListsAfter(old(RunOf(b))), Request(limits, now))
      ensures requests == old(requests)[b := old(RunOf(b)) + [Request(limits, now)]]
      ensures requestsPerMinute == old(requestsPerMinute)[b := Lookup(requestsPerMinute, b, [])]
      ensures requestsPerHour == old(requestsPerHour)[b := Lookup(requestsPerHour, b, [])]
    {
      ghost var r := Request(limits, now);
      assert ListsMatchAt(requestsPerMinute, requestsPerHour, requests, b);
      var minute, hour;
      verdict, minute, hour := Check(Lookup(requestsPerMinute, b, []), Lookup(requestsPerHour, b, []), limits, now);
      ListsStillMatch(requestsPerMinute, requestsPerHour, requests, b, r, Lists(minute, hour));
      requestsPerMinute := requestsPerMinute[b := minute];
      requestsPerHour := requestsPerHour[b := hour];
      requests := requests[b := RunOf(b) + [r]];
    }

    // Prunes the two lists, compares, and appends the stamp if both limits allow it.
    static method Check(perMinute: seq<real>, perHour: seq<real>, limits: Limits, now: real)
      returns (verdict: Verdict, minute: seq<real>, hour: seq<real>)
      ensures verdict == Decide(Lists(perMinute, perHour), Request(limits, now))
      ensures Lists(minute, hour) == ListsStep(Lists(perMinute, perHour), Request(limits, now))
    {
      minute := Recent(perMinute, MinuteAt(now));
      hour := Recent(perHour, HourAt(now));
      var minuteCount, hourCount := |minute|, |hour|;
      if minuteCount >= limits.perMinute {
        verdict := MinuteLimit(limits.perMinute, minuteCount);
      } else if hourCount >= limits.perHour {
        verdict := HourLimit(limits.perHour, hourCount);
      } else {
        minute := minute + [now];
        hour := hour + [now];
        verdict := Accepted(limits.perMinute - minuteCount - 1, limits.perHour - hourCount - 1);
      }
    }

    method CheckRateLimit(userId: string, operation: string, limits: Limits, now: real) returns (verdict: Verdict)
      requires Valid()
      modifies this
      ensures Valid() && slotOps == old(slotOps)
      ensures verdict == Decide(ListsAfter(old(RequestsOf(userId, operation))), Request(limits, now))
      ensures RequestsOf(userId, operation) == old(RequestsOf(userId, operation)) + [Request(limits, now)]
      ensures forall u, o :: Bucket(u, o) != Bucket(userId, operation) ==>
                RequestsOf(u, o) == old(RequestsOf(u, o)) && ListsOf(u, o) == old(ListsOf(u, o))
      ensures ':' !in operation ==>
                forall u, o :: ':' !in o && (u != userId || o != operation) ==>
                  RequestsOf(u, o) == old(RequestsOf(u, o)) && ListsOf(u, o) == old(ListsOf(u, o))
    {
      verdict := CheckBucket(Bucket(userId, operation), limits, now);
      forall u, o | ':' !in o && ':' !in operation && (u != userId || o != operation)
        ensures Bucket(u, o) != Bucket(userId, operation)
      {
        PlainOperationsHaveOwnBuckets(u, o, userId, operation);
      }
    }

    method AcquireConcurrent(userId: string, limits: Limits) returns (granted: bool, held: int)
      requires Valid()
      modifies this
      ensures Valid() && requests == old(requests)
      ensures slotOps == old(slotOps)[userId := old(SlotsOf(userId)) + [Acquire(limits.concurrent)]]
      ensures granted <==> SlotsAfter(old(SlotsOf(userId))) < limits.concurrent
      ensures held == SlotsAfter(SlotsOf(userId))
    {
      ghost var op := Acquire(limits.concurrent);
      assert SlotsMatchAt(concurrent, slotOps, userId);
      SlotsStillMatch(concurrent, slotOps, userId, op);
      held := Lookup(concurrent, userId, 0);
      granted := held < limits.concurrent;
      if granted {
        held := held + 1;
        concurrent := concurrent[userId := held];
      }
      slotOps := slotOps[userId := SlotsOf(userId) + [op]];
      assert SlotsMatchAt(concurrent, slotOps, userId);
    }

    method ReleaseConcurrent(userId: string)
      requires Valid()
      modifies this
      ensures Valid() && requests == old(requests)
      ensures slotOps == old(slotOps)[userId := old(SlotsOf(userId)) + [Release]]
    {
      SlotsStillMatch(concurrent, slotOps, userId, Release);
      var held := Lookup(concurrent, userId, 0);
      if held > 0 {
        concurrent := concurrent[userId := held - 1];
      } else {
        concurrent := concurrent[userId := 0];
      }
      slotOps := slotOps[userId := SlotsOf(userId) + [Release]];
    }
  }
}
