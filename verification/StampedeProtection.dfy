/**
 The lock and cache protocol of shared/cache_stampede_protection.py, for any number of
 requests and background refreshes on one cache key.

 A process is a running `get_with_stampede_protection` or `_refresh_cache`; an action is
 what it does between two awaits, at a moment `now` of a clock that does not go back.
 Redis keeps the cache entry and the lock until they expire.  The lock's value is always
 "1" in the original; the owner is recorded here only to say whose lock it is.
 */
module StampedeProtection {
  import opened Prelude

  type Pid = nat
  type Value = int

  const LOCK_SECONDS: real := 30.0

  // The stored JSON carries its own `expires_at`; Redis drops it at `goneAt`.
  datatype Entry = Entry(value: Value, expiresAt: real, goneAt: real)

  datatype Lock = Lock(owner: Pid, goneAt: real)

  datatype Pc =
    | Started                                              // before the first read
    | Examining(entry: Entry)                              // read something, clock not yet read
    | Missed                                               // about to SET NX
    | Fetching(since: real)                                // holds the lock
    | Storing(since: real, value: Value, expiresAt: real)
    | Releasing(since: real, outcome: Option<Value>)       // `finally`; None: an exception is on its way
    | Waiting                                              // another request holds the lock
    | Falling(guarded: bool)                               // about to fetch directly; guarded: inside the `try`
    | Finished
    | RefreshFetching                                      // `_refresh_cache`
    | RefreshStoring(value: Value, expiresAt: real)

  datatype Proc = Proc(ttl: int, pc: Pc)

  // What the run did that matters to its callers.
  datatype Event =
    | Fetched(value: Value, at: real)
    | Stored(value: Value, ttl: int, at: real)
    | Served(value: Value, at: real)  // returned from the cache

  datatype Sys = Sys(cache: Option<Entry>, lock: Option<Lock>, procs: map<Pid, Proc>, log: seq<Event>, clock: real)

  const INITIAL := Sys(None, None, map[], [], 0.0)

  datatype Action =
    | Begin(p: Pid, ttl: int, connected: bool)  // connected: a Redis client could be had
    | Read(p: Pid, reply: Reply)
    | Examine(p: Pid, refresher: Option<Pid>)  // refresher: the early refresh it spawns, if any
    | TakeLock(p: Pid, reply: Reply)
    | Fetch(p: Pid, outcome: Option<Value>)    // None: fetch_func raised
    | Store(p: Pid, reply: Reply)
    | Release(p: Pid, reply: Reply)
    | Retry(p: Pid, reply: Reply)

  function LiveEntry(s: Sys, now: real): Option<Entry> {
    if s.cache.Some? && now < s.cache.value.goneAt then s.cache else None
  }

  function LiveLock(s: Sys, now: real): Option<Lock> {
    if s.lock.Some? && now < s.lock.value.goneAt then s.lock else None
  }

  // The last fifth of the lifetime is open to early refreshes.
  predicate NearExpiry(e: Entry, ttl: int, now: real) {
    e.expiresAt - now < ttl as real * 0.2
  }

  predicate Enabled(s: Sys, a: Action, now: real) {
    && s.clock <= now
    && if a.Begin? then a.p !in s.procs
       else
         && a.p in s.procs
         && var pc := s.procs[a.p].pc;
         match a
         case Begin(_, _, _) => true
         case Read(_, _) => pc.Started?
         case Examine(_, refresher) =>
           pc.Examining? &&
           (refresher.Some? ==>
              && refresher.value !in s.procs && pc.entry.expiresAt > now && NearExpiry(pc.entry, s.procs[a.p].ttl, now))
         case TakeLock(_, _) => pc.Missed?
         case Fetch(_, _) => pc.Fetching? || pc.Falling? || pc.RefreshFetching?
         case Store(_, _) => pc.Storing? || pc.RefreshStoring?
         case Release(_, _) => pc.Releasing?
         case Retry(_, _) => pc.Waiting?
  }

  function Goto(s: Sys, p: Pid, pc: Pc): Sys
    requires p in s.procs
  {
    s.(procs := s.procs[p := s.procs[p].(pc := pc)])
  }

  function Log(s: Sys, e: Event): Sys { s.(log := s.log + [e]) }

  // ----- One function per piece of code between awaits

  // Without a client the value is fetched directly.
  function FirstPc(connected: bool): Pc {
    if connected then Started else Falling(false)
  }

  function ReadStep(s: Sys, p: Pid, reply: Reply, now: real): Sys
    requires p in s.procs
  {
    if !reply.Done? then Goto(s, p, Falling(false))
    else if LiveEntry(s, now).Some? then Goto(s, p, Examining(LiveEntry(s, now).value))
    else Goto(s, p, Missed)
  }

  function ExamineStep(s: Sys, p: Pid, refresher: Option<Pid>, now: real): Sys
    requires p in s.procs && s.procs[p].pc.Examining?
  {
    var e, ttl := s.procs[p].pc.entry, s.procs[p].ttl;
    if e.expiresAt > now then
      var s' := Log(Goto(s, p, Finished), Served(e.value, now));
      if refresher.Some? then s'.(procs := s'.procs[refresher.value := Proc(ttl, RefreshFetching)]) else s'
    else Goto(s, p, Missed)
  }

  function TakeLockStep(s: Sys, p: Pid, reply: Reply, now: real): Sys
    requires p in s.procs
  {
    var granted := LiveLock(s, now).None?;
    var s' := if granted && reply.TookEffect() then s.(lock := Some(Lock(p, now + LOCK_SECONDS))) else s;
    if !reply.Done? then Goto(s', p, Falling(false))
    else if granted then Goto(s', p, Fetching(now))
    else Goto(s', p, Waiting)
  }

  function FetchedPc(proc: Proc, outcome: Option<Value>, now: real): Pc
    requires proc.pc.Fetching? || proc.pc.Falling? || proc.pc.RefreshFetching?
  {
    var expiresAt := now + proc.ttl as real;
    match (proc.pc, outcome)
    case (Fetching(since), Some(v)) => Storing(since, v, expiresAt)
    case (Fetching(since), None) => Releasing(since, None)
    case (RefreshFetching, Some(v)) => RefreshStoring(v, expiresAt)
    case (RefreshFetching, None) => Finished
    case (_, Some(_)) => Finished
    case (_, None) => if proc.pc.guarded then Falling(false) else Finished
  }

  function FetchStep(s: Sys, p: Pid, outcome: Option<Value>, now: real): Sys
    requires p in s.procs && (s.procs[p].pc.Fetching? || s.procs[p].pc.Falling? || s.procs[p].pc.RefreshFetching?)
  {
    var s' := Goto(s, p, FetchedPc(s.procs[p], outcome, now));
    if outcome.Some? then Log(s', Fetched(outcome.value, now)) else s'
  }

  // setex refuses lifetimes below 1.
  function StoreStep(s: Sys, p: Pid, reply: Reply, now: real): Sys
    requires p in s.procs && (s.procs[p].pc.Storing? || s.procs[p].pc.RefreshStoring?)
  {
    var Proc(ttl, pc) := s.procs[p];
    var written := ttl > 0 && reply.TookEffect();
    var s' := if written
              then Log(s.(cache := Some(Entry(pc.value, pc.expiresAt, now + ttl as real))), Stored(pc.value, ttl, now))
              else s;
    if pc.RefreshStoring? then Goto(s', p, Finished)
    else Goto(s', p, Releasing(pc.since, if ttl > 0 && reply.Done? then Some(pc.value) else None))
  }

  // The delete is unconditional.  If it raises, or an exception is already on its way, the
  // value is lost and fetched again.
  function ReleaseStep(s: Sys, p: Pid, reply: Reply): Sys
    requires p in s.procs && s.procs[p].pc.Releasing?
  {
    var s' := if reply.TookEffect() then s.(lock := None) else s;
    if reply.Done? && s.procs[p].pc.outcome.Some? then Goto(s', p, Finished) else Goto(s', p, Falling(false))
  }

  // The second read trusts Redis alone: `expires_at` is not looked at.
  function RetryStep(s: Sys, p: Pid, reply: Reply, now: real): Sys
    requires p in s.procs
  {
    if !reply.Done? then Goto(s, p, Falling(false))
    else if LiveEntry(s, now).Some? then Log(Goto(s, p, Finished), Served(LiveEntry(s, now).value.value, now))
    else Goto(s, p, Falling(true))
  }

  function Apply(s: Sys, a: Action, now: real): Sys
    requires Enabled(s, a, now)
  {
    (match a
     case Begin(p, ttl, connected) => s.(procs := s.procs[p := Proc(ttl, FirstPc(connected))])
     case Read(p, reply) => ReadStep(s, p, reply, now)
     case Examine(p, refresher) => ExamineStep(s, p, refresher, now)
     case TakeLock(p, reply) => TakeLockStep(s, p, reply, now)
     case Fetch(p, outcome) => FetchStep(s, p, outcome, now)
     case Store(p, reply) => StoreStep(s, p, reply, now)
     case Release(p, reply) => ReleaseStep(s, p, reply)
     case Retry(p, reply) => RetryStep(s, p, reply, now)).(clock := now)
  }

  // ----- Runs

  datatype Step = Step(action: Action, now: real)

  ghost predicate IsRun(run: seq<Step>)
    decreases |run|, 0
  {
    run == [] ||
    (IsRun(run[..|run| - 1]) && Enabled(After(run[..|run| - 1]), run[|run| - 1].action, run[|run| - 1].now))
  }

  ghost function After(run: seq<Step>): Sys
    requires IsRun(run)
    decreases |run|, 1
  {
    if run == [] then INITIAL else Apply(After(run[..|run| - 1]), run[|run| - 1].action, run[|run| - 1].now)
  }

  lemma OneMoreStep(run: seq<Step>, step: Step)
    requires IsRun(run) && Enabled(After(run), step.action, step.now)
    ensures IsRun(run + [step]) && After(run + [step]) == Apply(After(run), step.action, step.now)
  {
    assert (run + [step])[..|run|] == run;
  }

  // ----- Mutual exclusion

  // In the fetch-and-store section, from the granted SET NX to the delete.
  predicate InSection(s: Sys, p: Pid) {
    p in s.procs && (s.procs[p].pc.Fetching? || s.procs[p].pc.Storing? || s.procs[p].pc.Releasing?)
  }

  // Nobody is still in the section when its lock expires.
  ghost predicate NobodyOverdue(s: Sys, now: real) {
    forall p :: InSection(s, p) ==> now < s.procs[p].pc.since + LOCK_SECONDS
  }

  // Every lock holder of the run finishes within the lock's lifetime.
  ghost predicate Timely(run: seq<Step>)
    requires IsRun(run)
  {
    run == [] || (Timely(run[..|run| - 1]) && NobodyOverdue(After(run[..|run| - 1]), run[|run| - 1].now))
  }

  ghost predicate HoldersOwnTheLock(s: Sys) {
    forall p :: InSection(s, p) ==>
      s.lock == Some(Lock(p, s.procs[p].pc.since + LOCK_SECONDS)) && s.procs[p].pc.since <= s.clock
  }

  lemma OwnershipPreserved(s: Sys, a: Action, now: real)
    requires HoldersOwnTheLock(s) && Enabled(s, a, now) && NobodyOverdue(s, now)
    ensures HoldersOwnTheLock(Apply(s, a, now))
  {
    var s' := Apply(s, a, now);
    forall p | InSection(s', p)
      ensures s'.lock == Some(Lock(p, s'.procs[p].pc.since + LOCK_SECONDS)) && s'.procs[p].pc.since <= s'.clock
    {
      if p != a.p || !a.TakeLock? {
        assert InSection(s, p);
      }
    }
  }

  lemma {:induction false} HoldersOwnTheLockAlways(run: seq<Step>)
    requires IsRun(run) && Timely(run)
    ensures HoldersOwnTheLock(After(run))
  {
    if run != [] {
      HoldersOwnTheLockAlways(run[..|run| - 1]);
      OwnershipPreserved(After(run[..|run| - 1]), run[|run| - 1].action, run[|run| - 1].now);
    }
  }

  // In every interleaving whose lock holders finish in time, at most one process is in the
  // section.
  lemma MutualExclusion(run: seq<Step>, p: Pid, q: Pid)
    requires IsRun(run) && Timely(run)
    ensures InSection(After(run), p) && InSection(After(run), q) ==> p == q
  {
    HoldersOwnTheLockAlways(run);
  }

  // The unconditional delete then only ever removes the deleter's own lock, still alive.
  lemma DeletesOwnLock(run: seq<Step>, p: Pid, reply: Reply, now: real)
    requires IsRun(run) && Timely(run)
    requires Enabled(After(run), Release(p, reply), now) && NobodyOverdue(After(run), now)
    ensures LiveLock(After(run), now).Some? && LiveLock(After(run), now).value.owner == p
  {
    HoldersOwnTheLockAlways(run);
    assert InSection(After(run), p);
  }

  // Timeliness is exactly what is needed: while p holds the section, another request's
  // SET NX is granted, putting two processes into it, if and only if p is overdue.
  lemma {:induction false} GrantedIffHolderOverdue(run: seq<Step>, p: Pid, q: Pid, now: real)
    requires IsRun(run) && Timely(run) && InSection(After(run), p)
    requires Enabled(After(run), TakeLock(q, Done), now)
    ensures var s' := Apply(After(run), TakeLock(q, Done), now);
            InSection(s', p) && (InSection(s', q) <==> now >= After(run).procs[p].pc.since + LOCK_SECONDS)
  {
    HoldersOwnTheLockAlways(run);
  }

  // A process p about to give the lock back, another asking for it at t1, and p's delete at t2, before
  // what the other may have got expires.
  function TakenThenReleased(run: seq<Step>, p: Pid, q: Pid, t1: real, t2: real): seq<Step> {
    run + [Step(TakeLock(q, Done), t1)] + [Step(Release(p, Done), t2)]
  }

  // The delete removes the other's live lock, with the other still in the section, if and only if p
  // was overdue when the other asked.
  lemma {:induction false} OverdueDeleteHitsOther(run: seq<Step>, p: Pid, q: Pid, t1: real, t2: real)
    requires IsRun(run) && Timely(run) && p != q
    requires Enabled(After(run), Release(p, Done), t1) && Enabled(After(run), TakeLock(q, Done), t1)
    requires t1 <= t2 < t1 + LOCK_SECONDS
    ensures var taken := run + [Step(TakeLock(q, Done), t1)];
            var done := TakenThenReleased(run, p, q, t1, t2);
            && IsRun(taken) && IsRun(done)
            && (HoldsLock(After(taken), q, t2) && After(done).lock == None && InSection(After(done), q)
                <==> t1 >= After(run).procs[p].pc.since + LOCK_SECONDS)
  {
    HoldersOwnTheLockAlways(run);
    assert InSection(After(run), p);
    OneMoreStep(run, Step(TakeLock(q, Done), t1));
    OneMoreStep(run + [Step(TakeLock(q, Done), t1)], Step(Release(p, Done), t2));
  }

  predicate HoldsLock(s: Sys, p: Pid, now: real) {
    LiveLock(s, now).Some? && LiveLock(s, now).value.owner == p
  }

  // Such a run: process 0 takes 30 seconds from its grant to its delete, and process 1 asks then.
  lemma OverdueDeleteCanHappen() returns (run: seq<Step>)
    ensures var taken := run + [Step(TakeLock(1, Done), 30.0)];
            var done := TakenThenReleased(run, 0, 1, 30.0, 30.0);
            && IsRun(run) && Timely(run) && IsRun(taken) && IsRun(done)
            && HoldsLock(After(taken), 1, 30.0) && After(done).lock == None && InSection(After(done), 1)
  {
    run := SlowHolder();
    OverdueDeleteHitsOther(run, 0, 1, 30.0, 30.0);
  }

  lemma SlowHolder() returns (run: seq<Step>)
    ensures IsRun(run) && Timely(run)
    ensures After(run).procs == map[0 := Proc(60, Releasing(0.0, None)), 1 := Proc(60, Missed)]
    ensures After(run).clock == 0.0
  {
    run := Holder();
    run := Extended(run, Begin(1, 60, true));
    run := Extended(run, Read(1, Done));
  }

  lemma Holder() returns (run: seq<Step>)
    ensures IsRun(run) && Timely(run)
    ensures After(run).procs == map[0 := Proc(60, Releasing(0.0, None))]
    ensures After(run).clock == 0.0 && After(run).cache == None
  {
    run := [];
    run := Extended(run, Begin(0, 60, true));
    run := Extended(run, Read(0, Done));
    run := Extended(run, TakeLock(0, Done));
    run := Extended(run, Fetch(0, None));
  }

  lemma Extended(run: seq<Step>, a: Action) returns (longer: seq<Step>)
    requires IsRun(run) && Timely(run) && Enabled(After(run), a, 0.0)
    requires forall p :: InSection(After(run), p) ==> After(run).procs[p].pc.since == 0.0
    ensures IsRun(longer) && Timely(longer) && After(longer) == Apply(After(run), a, 0.0)
  {
    longer := run + [Step(a, 0.0)];
    OneMoreStep(run, Step(a, 0.0));
    assert longer[..|run|] == run;
  }

  // ----- Freshness

  ghost predicate WasFetched(log: seq<Event>, v: Value, until: real) {
    exists i :: 0 <= i < |log| && log[i].Fetched? && log[i].value == v && log[i].at <= until
  }

  // Some write stored v, fetched before it, less than its lifetime ago.
  ghost predicate FreshAt(log: seq<Event>, v: Value, now: real) {
    exists i :: 0 <= i < |log| && log[i].Stored? && log[i].value == v
                && WasFetched(log[..i], v, log[i].at) && log[i].at <= now < log[i].at + log[i].ttl as real
  }

  // The entry is the record of a write in the log; its own `expires_at` is no later than
  // the moment Redis drops it.
  ghost predicate Recorded(log: seq<Event>, e: Entry, clock: real) {
    exists i :: 0 <= i < |log| && log[i].Stored? && log[i].value == e.value && WasFetched(log[..i], e.value, log[i].at)
                && log[i].at <= clock && e.goneAt == log[i].at + log[i].ttl as real && e.expiresAt <= e.goneAt
  }

  lemma MonotoneLog(log: seq<Event>, more: seq<Event>)
    ensures forall v, t, t' :: WasFetched(log, v, t) && t <= t' ==> WasFetched(log + more, v, t')
    ensures forall v, now :: FreshAt(log, v, now) ==> FreshAt(log + more, v, now)
    ensures forall e, c, c' :: Recorded(log, e, c) && c <= c' ==> Recorded(log + more, e, c')
  {
    var log' := log + more;
    assert forall i :: 0 <= i < |log| ==> log'[i] == log[i] && log'[..i] == log[..i];
    forall v, t, t' | WasFetched(log, v, t) && t <= t' ensures WasFetched(log', v, t') {
      var i :| 0 <= i < |log| && log[i].Fetched? && log[i].value == v && log[i].at <= t;
      assert log'[i].Fetched?;
    }
    forall v, now | FreshAt(log, v, now) ensures FreshAt(log', v, now) {
      var i :| 0 <= i < |log| && log[i].Stored? && log[i].value == v
               && WasFetched(log[..i], v, log[i].at) && log[i].at <= now < log[i].at + log[i].ttl as real;
      assert log'[i].Stored?;
    }
    forall e, c, c' | Recorded(log, e, c) && c <= c' ensures Recorded(log', e, c') {
      var i :| 0 <= i < |log| && log[i].Stored? && log[i].value == e.value && WasFetched(log[..i], e.value, log[i].at)
               && log[i].at <= c && e.goneAt == log[i].at + log[i].ttl as real && e.expiresAt <= e.goneAt;
      assert log'[i].Stored?;
    }
  }

  // What each process holds in hand, in terms of the log.
  ghost predicate Justified(s: Sys, pc: Pc, ttl: int) {
    match pc
    case Examining(e) => Recorded(s.log, e, s.clock)
    case Storing(_, v, expiresAt) => WasFetched(s.log, v, s.clock) && expiresAt <= s.clock + ttl as real
    case RefreshStoring(v, expiresAt) => WasFetched(s.log, v, s.clock) && expiresAt <= s.clock + ttl as real
    case _ => true
  }

  ghost predicate ServedFresh(log: seq<Event>) {
    forall k :: 0 <= k < |log| && log[k].Served? ==> FreshAt(log[..k], log[k].value, log[k].at)
  }

  ghost predicate FreshnessInv(s: Sys) {
    && (s.cache.Some? ==> Recorded(s.log, s.cache.value, s.clock))
    && (forall p :: p in s.procs ==> Justified(s, s.procs[p].pc, s.procs[p].ttl))
    && ServedFresh(s.log)
  }

  lemma RecordedIsFresh(log: seq<Event>, e: Entry, clock: real, now: real)
    requires Recorded(log, e, clock) && clock <= now < e.goneAt
    ensures FreshAt(log, e.value, now)
  {
  }

  lemma JustifiedLater(s: Sys, s': Sys, more: seq<Event>, pc: Pc, ttl: int)
    requires Justified(s, pc, ttl) && s'.log == s.log + more && s.clock <= s'.clock
    ensures Justified(s', pc, ttl)
  {
    MonotoneLog(s.log, more);
  }

  lemma ServedFreshMore(log: seq<Event>, e: Event)
    requires ServedFresh(log) && (e.Served? ==> FreshAt(log, e.value, e.at))
    ensures ServedFresh(log + [e])
  {
    var log' := log + [e];
    forall k | 0 <= k < |log'| && log'[k].Served? ensures FreshAt(log'[..k], log'[k].value, log'[k].at) {
      assert log'[..k] == log[..k];
      assert k == |log| ==> log[..k] == log;
    }
  }

  // The event an action logs, if any.
  function Logged(s: Sys, a: Action, now: real): seq<Event>
    requires Enabled(s, a, now)
  {
    var s' := Apply(s, a, now);
    if |s'.log| > |s.log| then s'.log[|s.log|..] else []
  }

  lemma LogGrows(s: Sys, a: Action, now: real)
    requires Enabled(s, a, now)
    ensures Apply(s, a, now).log == s.log + Logged(s, a, now) && |Logged(s, a, now)| <= 1
  {
  }

  lemma StoredIsRecorded(s: Sys, v: Value, expiresAt: real, ttl: int, now: real)
    requires WasFetched(s.log, v, s.clock) && expiresAt <= s.clock + ttl as real && s.clock <= now
    ensures Recorded(s.log + [Stored(v, ttl, now)], Entry(v, expiresAt, now + ttl as real), now)
  {
    var log' := s.log + [Stored(v, ttl, now)];
    MonotoneLog(s.log, []);
    assert s.log + [] == s.log == log'[..|s.log|];
    assert log'[|s.log|] == Stored(v, ttl, now);
  }

  lemma CacheStaysRecorded(s: Sys, a: Action, now: real)
    requires FreshnessInv(s) && Enabled(s, a, now)
    ensures var s' := Apply(s, a, now); s'.cache.Some? ==> Recorded(s'.log, s'.cache.value, now)
  {
    var s' := Apply(s, a, now);
    LogGrows(s, a, now);
    MonotoneLog(s.log, Logged(s, a, now));
    if a.Store? && s'.cache != s.cache {
      var Proc(ttl, pc) := s.procs[a.p];
      assert Justified(s, pc, ttl);
      StoredIsRecorded(s, pc.value, pc.expiresAt, ttl, now);
    }
  }

  lemma ServedStaysFresh(s: Sys, a: Action, now: real)
    requires FreshnessInv(s) && Enabled(s, a, now)
    ensures ServedFresh(Apply(s, a, now).log)
  {
    var s' := Apply(s, a, now);
    LogGrows(s, a, now);
    var more := Logged(s, a, now);
    if more == [] {
      assert s'.log == s.log;
    } else {
      assert more == [more[0]];
      if more[0].Served? {
        if a.Examine? {
          assert Justified(s, s.procs[a.p].pc, s.procs[a.p].ttl);
          RecordedIsFresh(s.log, s.procs[a.p].pc.entry, s.clock, now);
        } else {
          RecordedIsFresh(s.log, s.cache.value, s.clock, now);
        }
      }
      ServedFreshMore(s.log, more[0]);
    }
  }

  lemma ProcsStayJustified(s: Sys, a: Action, now: real, p: Pid)
    requires FreshnessInv(s) && Enabled(s, a, now) && p in Apply(s, a, now).procs
    ensures var s' := Apply(s, a, now); Justified(s', s'.procs[p].pc, s'.procs[p].ttl)
  {
    var s' := Apply(s, a, now);
    LogGrows(s, a, now);
    if p in s.procs && s'.procs[p] == s.procs[p] {
      JustifiedLater(s, s', Logged(s, a, now), s.procs[p].pc, s.procs[p].ttl);
    } else if a.Read? && p == a.p {
      MonotoneLog(s.log, []);
      assert s.log + [] == s.log;
    } else if a.Fetch? && p == a.p && a.outcome.Some? {
      assert s'.log[|s.log|] == Fetched(a.outcome.value, now);
    }
  }

  lemma {:induction false} FreshnessAlways(run: seq<Step>)
    requires IsRun(run)
    ensures FreshnessInv(After(run))
  {
    if run != [] {
      var s, step := After(run[..|run| - 1]), run[|run| - 1];
      FreshnessAlways(run[..|run| - 1]);
      CacheStaysRecorded(s, step.action, step.now);
      ServedStaysFresh(s, step.action, step.now);
      forall p | p in After(run).procs ensures Justified(After(run), After(run).procs[p].pc, After(run).procs[p].ttl) {
        ProcsStayJustified(s, step.action, step.now, p);
      }
    }
  }

  // In every interleaving of requests and refreshes, timely or not and whatever fails, a
  // value served from the cache, on the first read or on the retry, was produced by an
  // earlier fetch, stored after that, and stored less than its lifetime ago.
  lemma ServedValuesAreFresh(run: seq<Step>, k: nat)
    requires IsRun(run) && k < |After(run).log| && After(run).log[k].Served?
    ensures var log := After(run).log; FreshAt(log[..k], log[k].value, log[k].at)
  {
    FreshnessAlways(run);
  }

  // ----- What a coroutine has in hand, in terms of the actions of the run

  // What a fetch ended with, and when.
  datatype FetchEnd = FetchEnd(outcome: Option<Value>, at: real)

  // The end of p's latest fetch, and the reply to p's latest store.
  function LastFetch(run: seq<Step>, p: Pid): Option<FetchEnd> {
    if run == [] then None
    else
      var Step(a, now) := run[|run| - 1];
      if a.Fetch? && a.p == p then Some(FetchEnd(a.outcome, now)) else LastFetch(run[..|run| - 1], p)
  }

  function LastStore(run: seq<Step>, p: Pid): Option<Reply> {
    if run == [] then None
    else
      var a := run[|run| - 1].action;
      if a.Store? && a.p == p then Some(a.reply) else LastStore(run[..|run| - 1], p)
  }

  // The lifetime p was started with; a refresh has that of the request that spawned it.
  function Lifetime(run: seq<Step>, p: Pid): int {
    if run == [] then 0
    else
      var before, a := run[..|run| - 1], run[|run| - 1].action;
      if a.Begin? && a.p == p then a.ttl
      else if a.Examine? && a.refresher == Some(p) then Lifetime(before, a.p)
      else Lifetime(before, p)
  }

  // The value p has fetched, if its latest fetch gave one and, being a request, it could store that
  // without an exception: its lifetime is at least 1 and the store was answered.
  function Outcome(run: seq<Step>, p: Pid): Option<Value> {
    if LastFetch(run, p).Some? && Lifetime(run, p) >= 1 && LastStore(run, p) == Some(Done)
    then LastFetch(run, p).value.outcome else None
  }

  ghost predicate HasFetched(run: seq<Step>, p: Pid, v: Value, expiresAt: real) {
    LastFetch(run, p).Some? && LastFetch(run, p).value == FetchEnd(Some(v), expiresAt - Lifetime(run, p) as real)
  }

  // What p has in hand is what its latest fetch gave it.
  ghost predicate HoldsIts(run: seq<Step>, p: Pid, proc: Proc) {
    && proc.ttl == Lifetime(run, p)
    && match proc.pc
       case Storing(_, v, expiresAt) => HasFetched(run, p, v, expiresAt)
       case RefreshStoring(v, expiresAt) => HasFetched(run, p, v, expiresAt)
       case Releasing(_, outcome) => outcome == Outcome(run, p)
       case _ => true
  }

  ghost predicate EachHoldsIts(run: seq<Step>, procs: map<Pid, Proc>) {
    forall p :: p in procs ==> HoldsIts(run, p, procs[p])
  }

  // The actions of others change none of it, and p's own change what they are about.
  lemma HandsOneMore(run: seq<Step>, step: Step, p: Pid)
    ensures var all, a := run + [step], step.action;
            && LastFetch(all, p) ==
               (if a.Fetch? && a.p == p then Some(FetchEnd(a.outcome, step.now)) else LastFetch(run, p))
            && LastStore(all, p) == (if a.Store? && a.p == p then Some(a.reply) else LastStore(run, p))
            && Lifetime(all, p) ==
               (if a.Begin? && a.p == p then a.ttl
                else if a.Examine? && a.refresher == Some(p) then Lifetime(run, a.p) else Lifetime(run, p))
  {
    assert (run + [step])[..|run|] == run;
  }

  lemma OneMoreHolds(run: seq<Step>, s: Sys, step: Step, p: Pid)
    requires EachHoldsIts(run, s.procs) && Enabled(s, step.action, step.now)
    requires p in Apply(s, step.action, step.now).procs
    ensures HoldsIts(run + [step], p, Apply(s, step.action, step.now).procs[p])
  {
    HandsOneMore(run, step, p);
    assert p in s.procs ==> HoldsIts(run, p, s.procs[p]);
    if step.action.Examine? && step.action.refresher == Some(p) {
      assert HoldsIts(run, step.action.p, s.procs[step.action.p]);
    }
  }

  lemma {:induction false} HandsAlwaysHold(run: seq<Step>)
    requires IsRun(run)
    ensures EachHoldsIts(run, After(run).procs)
  {
    if run != [] {
      var before, step := run[..|run| - 1], run[|run| - 1];
      HandsAlwaysHold(before);
      forall p | p in After(run).procs ensures HoldsIts(run, p, After(run).procs[p]) {
        OneMoreHolds(before, After(before), step, p);
        assert before + [step] == run;
      }
    }
  }

  // The latest store that took effect: what it wrote, when that expires by its own account, a lifetime
  // after the fetch, and when Redis drops it, a lifetime after the store.
  function LastWritten(run: seq<Step>): Option<Entry> {
    if run == [] then None
    else
      var before, Step(a, now) := run[..|run| - 1], run[|run| - 1];
      if a.Store? && a.reply.TookEffect() && Lifetime(before, a.p) >= 1
         && LastFetch(before, a.p).Some? && LastFetch(before, a.p).value.outcome.Some?
      then
        var fetch, ttl := LastFetch(before, a.p).value, Lifetime(before, a.p) as real;
        Some(Entry(fetch.outcome.value, fetch.at + ttl, now + ttl))
      else LastWritten(before)
  }

  lemma {:induction false} CacheIsLastWritten(run: seq<Step>)
    requires IsRun(run)
    ensures After(run).cache == LastWritten(run)
  {
    if run != [] {
      var before, step := run[..|run| - 1], run[|run| - 1];
      CacheIsLastWritten(before);
      HandsAlwaysHold(before);
      if step.action.Store? {
        assert HoldsIts(before, step.action.p, After(before).procs[step.action.p]);
      }
    }
  }

  // The lock: the latest SET NX that took effect while none was held, for 30 seconds, unless a delete
  // took effect since.  A lost reply does not undo either.
  function LastTaken(run: seq<Step>): Option<Lock> {
    if run == [] then None
    else
      var held, Step(a, now) := LastTaken(run[..|run| - 1]), run[|run| - 1];
      if a.TakeLock? && a.reply != NotDelivered && (held.None? || held.value.goneAt <= now)
      then Some(Lock(a.p, now + 30.0))
      else if a.Release? && a.reply != NotDelivered then None
      else held
  }

  lemma {:induction false} LockIsLastTaken(run: seq<Step>)
    requires IsRun(run)
    ensures After(run).lock == LastTaken(run)
  {
    if run != [] {
      LockIsLastTaken(run[..|run| - 1]);
    }
  }

  // ----- Which way a request goes

  // Steps in which p itself takes no part.
  ghost predicate WithoutPid(steps: seq<Step>, p: Pid) {
    forall i :: 0 <= i < |steps| ==> steps[i].action.p != p
  }

  lemma OtherLeavesIt(s: Sys, a: Action, now: real, p: Pid)
    requires Enabled(s, a, now) && a.p != p && p in s.procs
    ensures p in Apply(s, a, now).procs && Apply(s, a, now).procs[p] == s.procs[p]
  {
  }

  lemma {:induction false} OthersLeaveIt(run: seq<Step>, steps: seq<Step>, p: Pid)
    requires IsRun(run) && IsRun(run + steps) && p in After(run).procs && WithoutPid(steps, p)
    ensures p in After(run + steps).procs && After(run + steps).procs[p] == After(run).procs[p]
  {
    if steps == [] {
      assert run + steps == run;
    } else {
      var init := steps[..|steps| - 1];
      assert (run + steps)[..|run + steps| - 1] == run + init;
      OthersLeaveIt(run, init, p);
      var last := steps[|steps| - 1];
      OtherLeavesIt(After(run + init), last.action, last.now, p);
    }
  }

  // p reads at t1, others go on, and p looks at what it read at t2.
  function ReadThenExamined(run: seq<Step>, p: Pid, t1: real, others: seq<Step>, t2: real): seq<Step> {
    run + [Step(Read(p, Done), t1)] + others + [Step(Examine(p, None), t2)]
  }

  // A read that finds an entry is answered with it, without touching lock or cache, if the entry has not
  // expired by its own account when it is looked at; otherwise p goes on to the lock.
  lemma {:induction false} HitIsServedIff(run: seq<Step>, p: Pid, t1: real, others: seq<Step>, t2: real)
    requires IsRun(run) && Enabled(After(run), Read(p, Done), t1)
    requires LastWritten(run).Some? && t1 < LastWritten(run).value.goneAt
    requires var read := run + [Step(Read(p, Done), t1)];
             IsRun(read + others) && WithoutPid(others, p) && After(read + others).clock <= t2
    ensures var all, e := ReadThenExamined(run, p, t1, others, t2), LastWritten(run).value;
            var before := run + [Step(Read(p, Done), t1)] + others;
            && IsRun(all) && After(all).lock == After(before).lock && After(all).cache == After(before).cache
            && (t2 < e.expiresAt ==>
                  After(all).log == After(before).log + [Served(e.value, t2)] && After(all).procs[p].pc.Finished?)
            && (t2 >= e.expiresAt ==> After(all).log == After(before).log && After(all).procs[p].pc.Missed?)
  {
    var read := run + [Step(Read(p, Done), t1)];
    CacheIsLastWritten(run);
    OneMoreStep(run, Step(Read(p, Done), t1));
    OthersLeaveIt(read, others, p);
    OneMoreStep(read + others, Step(Examine(p, None), t2));
  }

  // A request that can get no client fetches directly; nothing but that fetch is left to do.
  lemma NoClientFetchesDirectly(run: seq<Step>, p: Pid, ttl: int, now: real, outcome: Option<Value>, later: real)
    requires IsRun(run) && Enabled(After(run), Begin(p, ttl, false), now) && now <= later
    ensures var begun := run + [Step(Begin(p, ttl, false), now)];
            && IsRun(begun) && Enabled(After(begun), Fetch(p, outcome), later)
            && Apply(After(begun), Fetch(p, outcome), later).procs[p].pc == Finished
  {
    OneMoreStep(run, Step(Begin(p, ttl, false), now));
  }

  // A direct fetch ends the request, except that one that raises inside the `try` is repeated outside.
  lemma DirectFetchEnds(s: Sys, p: Pid, guarded: bool, outcome: Option<Value>, now: real)
    requires p in s.procs && s.procs[p].pc == Falling(guarded) && Enabled(s, Fetch(p, outcome), now)
    ensures Apply(s, Fetch(p, outcome), now).procs[p].pc ==
            if guarded && outcome.None? then Falling(false) else Finished
  {
  }

  // A fetch in the section that raises gives the lock back without a value; a refresh whose fetch raises,
  // or whose store is done or not, ends.
  lemma FailedFetchAndRefreshEnd(s: Sys, p: Pid, reply: Reply, now: real)
    requires p in s.procs && s.clock <= now
    ensures s.procs[p].pc.Fetching? ==>
              Apply(s, Fetch(p, None), now).procs[p].pc == Releasing(s.procs[p].pc.since, None)
    ensures s.procs[p].pc.RefreshFetching? ==> Apply(s, Fetch(p, None), now).procs[p].pc == Finished
    ensures s.procs[p].pc.RefreshStoring? ==> Apply(s, Store(p, reply), now).procs[p].pc == Finished
  {
  }

  // Looking at an entry, p may start a refresh if and only if the entry has not expired and less than a
  // fifth of p's lifetime is left of it.
  lemma RefreshesInLastFifthIff(run: seq<Step>, p: Pid, r: Pid, now: real)
    requires IsRun(run) && Enabled(After(run), Examine(p, None), now) && r !in After(run).procs
    ensures var left := After(run).procs[p].pc.entry.expiresAt - now;
            Enabled(After(run), Examine(p, Some(r)), now) <==> 0.0 < left && 5.0 * left < Lifetime(run, p) as real
    ensures Enabled(After(run), Examine(p, Some(r)), now) ==>
              Apply(After(run), Examine(p, Some(r)), now).procs[r] == Proc(Lifetime(run, p), RefreshFetching)
  {
    HandsAlwaysHold(run);
    assert HoldsIts(run, p, After(run).procs[p]);
  }

  // Whatever fails, the value is fetched directly: after a read, SET NX or second read that raises, and
  // after a section that has no value to return or whose delete raises.
  lemma FailureFetchesDirectly(run: seq<Step>, a: Action, now: real)
    requires IsRun(run) && Enabled(After(run), a, now)
    requires a.Read? || a.TakeLock? || a.Retry? || a.Release?
    requires a.reply != Done || (a.Release? && Outcome(run, a.p).None?)
    ensures Apply(After(run), a, now).procs[a.p].pc == Falling(false)
  {
    HandsAlwaysHold(run);
    assert HoldsIts(run, a.p, After(run).procs[a.p]);
  }

  // A request, nothing failing, with nothing cached and nobody holding the lock, gets the lock
  // (ColdRequestGetsLock); whoever has it fetches, stores and gives it back (FetcherFills).
  function Asks(p: Pid, ttl: int, t0: real, t1: real, t2: real): seq<Step> {
    [Step(Begin(p, ttl, true), t0)] + [Step(Read(p, Done), t1)] + [Step(TakeLock(p, Done), t2)]
  }

  function Fills(p: Pid, v: Value, t3: real, t4: real, t5: real): seq<Step> {
    [Step(Fetch(p, Some(v)), t3)] + [Step(Store(p, Done), t4)] + [Step(Release(p, Done), t5)]
  }

  // Three steps in turn, on a state.
  ghost predicate CanTurn(s: Sys, x: Step, y: Step, z: Step) {
    && Enabled(s, x.action, x.now)
    && var s1 := Apply(s, x.action, x.now);
    && Enabled(s1, y.action, y.now)
    && Enabled(Apply(s1, y.action, y.now), z.action, z.now)
  }

  function Turn(s: Sys, x: Step, y: Step, z: Step): Sys
    requires CanTurn(s, x, y, z)
  {
    Apply(Apply(Apply(s, x.action, x.now), y.action, y.now), z.action, z.now)
  }

  lemma ThreeMoreSteps(run: seq<Step>, x: Step, y: Step, z: Step)
    requires IsRun(run) && CanTurn(After(run), x, y, z)
    ensures var all := run + ([x] + [y] + [z]); IsRun(all) && After(all) == Turn(After(run), x, y, z)
  {
    OneMoreStep(run, x);
    OneMoreStep(run + [x], y);
    OneMoreStep(run + [x] + [y], z);
    assert run + ([x] + [y] + [z]) == run + [x] + [y] + [z];
  }

  lemma AsksState(s: Sys, p: Pid, ttl: int, t0: real, t1: real, t2: real)
    requires p !in s.procs && s.clock <= t0 <= t1 <= t2 && LiveEntry(s, t1).None? && LiveLock(s, t2).None?
    ensures var x, y, z := Step(Begin(p, ttl, true), t0), Step(Read(p, Done), t1), Step(TakeLock(p, Done), t2);
            && CanTurn(s, x, y, z)
            && Turn(s, x, y, z) ==
               Sys(s.cache, Some(Lock(p, t2 + LOCK_SECONDS)), s.procs[p := Proc(ttl, Fetching(t2))], s.log, t2)
  {
  }

  lemma ColdRequestGetsLock(run: seq<Step>, p: Pid, ttl: int, t0: real, t1: real, t2: real)
    requires IsRun(run) && p !in After(run).procs && After(run).clock <= t0 <= t1 <= t2
    requires LiveEntry(After(run), t1).None? && LiveLock(After(run), t2).None?
    ensures var s, all := After(run), run + Asks(p, ttl, t0, t1, t2);
            && IsRun(all)
            && After(all) ==
               Sys(s.cache, Some(Lock(p, t2 + LOCK_SECONDS)), s.procs[p := Proc(ttl, Fetching(t2))], s.log, t2)
  {
    AsksState(After(run), p, ttl, t0, t1, t2);
    ThreeMoreSteps(run, Step(Begin(p, ttl, true), t0), Step(Read(p, Done), t1), Step(TakeLock(p, Done), t2));
  }

  lemma StateAfterFetch(s: Sys, p: Pid, v: Value, t3: real)
    requires p in s.procs && s.procs[p].pc.Fetching? && s.clock <= t3
    ensures Enabled(s, Fetch(p, Some(v)), t3)
    ensures var Proc(ttl, pc) := s.procs[p];
            Apply(s, Fetch(p, Some(v)), t3) ==
            s.(procs := s.procs[p := Proc(ttl, Storing(pc.since, v, t3 + ttl as real))],
               log := s.log + [Fetched(v, t3)], clock := t3)
  {
  }

  lemma StateAfterStore(s: Sys, p: Pid, t4: real)
    requires p in s.procs && s.procs[p].pc.Storing? && s.procs[p].ttl >= 1 && s.clock <= t4
    ensures Enabled(s, Store(p, Done), t4)
    ensures var Proc(ttl, pc) := s.procs[p];
            Apply(s, Store(p, Done), t4) ==
            Sys(Some(Entry(pc.value, pc.expiresAt, t4 + ttl as real)), s.lock,
                s.procs[p := Proc(ttl, Releasing(pc.since, Some(pc.value)))], s.log + [Stored(pc.value, ttl, t4)], t4)
  {
  }

  lemma StateAfterRelease(s: Sys, p: Pid, t5: real)
    requires p in s.procs && s.procs[p].pc.Releasing? && s.procs[p].pc.outcome.Some? && s.clock <= t5
    ensures Enabled(s, Release(p, Done), t5)
    ensures Apply(s, Release(p, Done), t5) ==
            s.(lock := None, procs := s.procs[p := Proc(s.procs[p].ttl, Finished)], clock := t5)
  {
  }

  // What a fetch of v, its store and the delete make of a state.
  function Filled(s: Sys, p: Pid, v: Value, t3: real, t4: real, t5: real): Sys
    requires p in s.procs
  {
    var ttl := s.procs[p].ttl;
    Sys(Some(Entry(v, t3 + ttl as real, t4 + ttl as real)), None, s.procs[p := Proc(ttl, Finished)],
        s.log + [Fetched(v, t3)] + [Stored(v, ttl, t4)], t5)
  }

  lemma FillsState(s: Sys, p: Pid, v: Value, t3: real, t4: real, t5: real)
    requires p in s.procs && s.procs[p].pc.Fetching? && s.procs[p].ttl >= 1 && s.clock <= t3 <= t4 <= t5
    ensures var x, y, z := Step(Fetch(p, Some(v)), t3), Step(Store(p, Done), t4), Step(Release(p, Done), t5);
            CanTurn(s, x, y, z) && Turn(s, x, y, z) == Filled(s, p, v, t3, t4, t5)
  {
    StateAfterFetch(s, p, v, t3);
    var s1 := Apply(s, Fetch(p, Some(v)), t3);
    StateAfterStore(s1, p, t4);
    StateAfterRelease(Apply(s1, Store(p, Done), t4), p, t5);
  }

  lemma FillsOutcome(run: seq<Step>, p: Pid, v: Value, t3: real, t4: real, t5: real)
    requires Lifetime(run, p) >= 1
    ensures Outcome(run + Fills(p, v, t3, t4, t5), p) == Some(v)
  {
    var x, y, z := Step(Fetch(p, Some(v)), t3), Step(Store(p, Done), t4), Step(Release(p, Done), t5);
    HandsOneMore(run, x, p);
    HandsOneMore(run + [x], y, p);
    HandsOneMore(run + [x] + [y], z, p);
    assert run + Fills(p, v, t3, t4, t5) == run + [x] + [y] + [z];
  }

  lemma FetcherFills(run: seq<Step>, p: Pid, v: Value, t3: real, t4: real, t5: real)
    requires IsRun(run) && p in After(run).procs && After(run).procs[p].pc.Fetching? && After(run).procs[p].ttl >= 1
    requires After(run).clock <= t3 <= t4 <= t5
    ensures var all := run + Fills(p, v, t3, t4, t5);
            IsRun(all) && After(all) == Filled(After(run), p, v, t3, t4, t5) && Outcome(all, p) == Some(v)
  {
    FillsState(After(run), p, v, t3, t4, t5);
    ThreeMoreSteps(run, Step(Fetch(p, Some(v)), t3), Step(Store(p, Done), t4), Step(Release(p, Done), t5));
    HandsAlwaysHold(run);
    assert HoldsIts(run, p, After(run).procs[p]);
    FillsOutcome(run, p, v, t3, t4, t5);
  }

  // While another holds the lock, a request that finds nothing cached waits and reads again: it is served
  // what is then there, or fetches directly.
  lemma WaiterReadsAgain(run: seq<Step>, p: Pid, t1: real, others: seq<Step>, t2: real)
    requires IsRun(run) && Enabled(After(run), TakeLock(p, Done), t1) && LiveLock(After(run), t1).Some?
    requires var asked := run + [Step(TakeLock(p, Done), t1)];
             IsRun(asked + others) && WithoutPid(others, p) && After(asked + others).clock <= t2
    ensures var before := run + [Step(TakeLock(p, Done), t1)] + others;
            var all := before + [Step(Retry(p, Done), t2)];
            && IsRun(all) && After(all).lock == After(before).lock
            && (if LiveEntry(After(before), t2).Some?
                then After(all).log == After(before).log + [Served(After(before).cache.value.value, t2)]
                     && After(all).procs[p].pc.Finished?
                else After(all).log == After(before).log && After(all).procs[p].pc == Falling(true))
  {
    var asked := run + [Step(TakeLock(p, Done), t1)];
    OneMoreStep(run, Step(TakeLock(p, Done), t1));
    OthersLeaveIt(asked, others, p);
    OneMoreStep(asked + others, Step(Retry(p, Done), t2));
  }

  // ----- The coroutines

  // The two keys in Redis and the frames of the running coroutines.  Each method runs one
  // coroutine from one await to the next.
  class StampedeCache {
    var cache: Option<Entry>
    var lock: Option<Lock>
    var procs: map<Pid, Proc>
    ghost var log: seq<Event>
    ghost var clock: real
    ghost var run: seq<Step>

    ghost predicate Valid()
      reads this
    {
      IsRun(run) && Sys(cache, lock, procs, log, clock) == After(run)
    }

    // The action is one the coroutine can take next.
    ghost predicate Can(a: Action, now: real)
      requires Valid()
      reads this
    {
      Enabled(After(run), a, now)
    }

    constructor ()
      ensures Valid() && run == []
    {
      cache, lock, procs := None, None, map[];
      log, clock, run := [], 0.0, [];
    }

    method BeginRequest(p: Pid, ttl: int, connected: bool, now: real)
      requires Valid() && Can(Begin(p, ttl, connected), now)
      modifies this
      ensures Valid() && run == old(run) + [Step(Begin(p, ttl, connected), now)]
    {
      OneMoreStep(run, Step(Begin(p, ttl, connected), now));
      if connected {
        procs := procs[p := Proc(ttl, Started)];
      } else {
        procs := procs[p := Proc(ttl, Falling(false))];
      }
      clock, run := now, run + [Step(Begin(p, ttl, connected), now)];
    }

    // The first read.
    method ReadCache(p: Pid, reply: Reply, now: real)
      requires Valid() && Can(Read(p, reply), now)
      modifies this
      ensures Valid() && run == old(run) + [Step(Read(p, reply), now)]
    {
      OneMoreStep(run, Step(Read(p, reply), now));
      var pc := Missed;
      if !reply.Done? {
        pc := Falling(false);
      } else if cache.Some? && now < cache.value.goneAt {
        pc := Examining(cache.value);
      }
      procs := procs[p := procs[p].(pc := pc)];
      clock, run := now, run + [Step(Read(p, reply), now)];
    }

    // Looks at expires_at, and either returns the value, possibly starting an early refresh,
    // or goes on to the lock.
    method ExamineEntry(p: Pid, refresher: Option<Pid>, now: real) returns (value: Option<Value>)
      requires Valid() && Can(Examine(p, refresher), now)
      modifies this
      ensures Valid() && run == old(run) + [Step(Examine(p, refresher), now)]
      ensures value.Some? ==> log == old(log) + [Served(value.value, now)] && FreshAt(old(log), value.value, now)
      ensures value.None? ==> log == old(log)
    {
      OneMoreStep(run, Step(Examine(p, refresher), now));
      FreshnessAlways(run + [Step(Examine(p, refresher), now)]);
      var Proc(ttl, pc) := procs[p];
      value := None;
      if pc.entry.expiresAt > now {
        procs := procs[p := Proc(ttl, Finished)];
        if refresher.Some? {
          procs := procs[refresher.value := Proc(ttl, RefreshFetching)];
        }
        value := Some(pc.entry.value);
        log := log + [Served(pc.entry.value, now)];
        assert log[|log| - 1].Served? && log[..|log| - 1] == old(log);
      } else {
        procs := procs[p := Proc(ttl, Missed)];
      }
      clock, run := now, run + [Step(Examine(p, refresher), now)];
    }

    // Asks for the lock, for 30 seconds.
    method AcquireLock(p: Pid, reply: Reply, now: real)
      requires Valid() && Can(TakeLock(p, reply), now)
      modifies this
      ensures Valid() && run == old(run) + [Step(TakeLock(p, reply), now)]
    {
      OneMoreStep(run, Step(TakeLock(p, reply), now));
      var granted := !(lock.Some? && now < lock.value.goneAt);
      if granted && reply.TookEffect() {
        lock := Some(Lock(p, now + LOCK_SECONDS));
      }
      var pc := if !reply.Done? then Falling(false) else if granted then Fetching(now) else Waiting;
      procs := procs[p := procs[p].(pc := pc)];
      clock, run := now, run + [Step(TakeLock(p, reply), now)];
    }

    // A fetch returns a value or raises; direct fetches hand it to the caller.
    method FinishFetch(p: Pid, outcome: Option<Value>, now: real) returns (value: Option<Value>)
      requires Valid() && Can(Fetch(p, outcome), now)
      modifies this
      ensures Valid() && run == old(run) + [Step(Fetch(p, outcome), now)]
      ensures log == if outcome.Some? then old(log) + [Fetched(outcome.value, now)] else old(log)
      ensures value == if old(procs)[p].pc.Falling? then outcome else None
    {
      var Proc(ttl, pc) := procs[p];
      value := if pc.Falling? then outcome else None;
      if pc.Fetching? {
        pc := if outcome.Some? then Storing(pc.since, outcome.value, now + ttl as real) else Releasing(pc.since, None);
      } else if pc.RefreshFetching? {
        pc := if outcome.Some? then RefreshStoring(outcome.value, now + ttl as real) else Finished;
      } else {
        pc := if outcome.None? && pc.guarded then Falling(false) else Finished;
      }
      assert pc == FetchedPc(procs[p], outcome, now);
      procs := procs[p := Proc(ttl, pc)];
      if outcome.Some? {
        log := log + [Fetched(outcome.value, now)];
      }
      OneMoreStep(run, Step(Fetch(p, outcome), now));
      clock, run := now, run + [Step(Fetch(p, outcome), now)];
    }

    // Stores the fetched value with its lifetime.
    method StoreEntry(p: Pid, reply: Reply, now: real)
      requires Valid() && Can(Store(p, reply), now)
      modifies this
      ensures Valid() && run == old(run) + [Step(Store(p, reply), now)]
    {
      OneMoreStep(run, Step(Store(p, reply), now));
      var Proc(ttl, pc) := procs[p];
      if ttl > 0 && reply.TookEffect() {
        cache := Some(Entry(pc.value, pc.expiresAt, now + ttl as real));
        log := log + [Stored(pc.value, ttl, now)];
      }
      if pc.RefreshStoring? {
        pc := Finished;
      } else {
        pc := Releasing(pc.since, if ttl > 0 && reply.Done? then Some(pc.value) else None);
      }
      procs := procs[p := Proc(ttl, pc)];
      clock, run := now, run + [Step(Store(p, reply), now)];
    }

    // Gives the lock back, whosever it is by now.
    method ReleaseLock(p: Pid, reply: Reply, now: real) returns (value: Option<Value>)
      requires Valid() && Can(Release(p, reply), now)
      modifies this
      ensures Valid() && run == old(run) + [Step(Release(p, reply), now)]
      ensures value == if reply.Done? then Outcome(old(run), p) else None
    {
      HandsAlwaysHold(run);
      assert HoldsIts(run, p, procs[p]);
      OneMoreStep(run, Step(Release(p, reply), now));
      if reply.TookEffect() {
        lock := None;
      }
      value := if reply.Done? then procs[p].pc.outcome else None;
      procs := procs[p := procs[p].(pc := if value.Some? then Finished else Falling(false))];
      clock, run := now, run + [Step(Release(p, reply), now)];
    }

    // The second read, after the sleep.
    method RetryRead(p: Pid, reply: Reply, now: real) returns (value: Option<Value>)
      requires Valid() && Can(Retry(p, reply), now)
      modifies this
      ensures Valid() && run == old(run) + [Step(Retry(p, reply), now)]
      ensures value.Some? ==> log == old(log) + [Served(value.value, now)] && FreshAt(old(log), value.value, now)
      ensures value.None? ==> log == old(log)
    {
      OneMoreStep(run, Step(Retry(p, reply), now));
      FreshnessAlways(run + [Step(Retry(p, reply), now)]);
      value := None;
      var pc := Falling(reply.Done?);
      if reply.Done? && cache.Some? && now < cache.value.goneAt {
        value := Some(cache.value.value);
        pc := Finished;
        log := log + [Served(cache.value.value, now)];
        assert log[|log| - 1].Served? && log[..|log| - 1] == old(log);
      }
      procs := procs[p := procs[p].(pc := pc)];
      clock, run := now, run + [Step(Retry(p, reply), now)];
    }
  }
}
