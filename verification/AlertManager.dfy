/**
 `AlertManager` of shared/alerting.py.

 Alerts are objects: the one in `_active_alerts` is the one in the history, so resolving it
 changes both.  The ghost `log` records firings and resolutions; `Valid` ties it to the
 dictionaries, and AlertLog says what it means.
 */
module AlertManager {
  import opened Prelude
  import opened AlertLog
  import opened AlertRules
  import opened AlertSamples

  datatype Status = Firing | Resolved | Silenced

  predicate InCooldown(rule: AlertRule, cooldowns: map<AlertId, real>, now: real) {
    now - Lookup(cooldowns, rule.Id(), 0.0) < rule.cooldownSeconds as real
  }

  // Readings of the clock while one rule is evaluated.
  datatype Readings = Readings(statsAt: real, checkedAt: real, firedAt: real, stampedAt: real)
  {
    predicate InOrder() { statsAt <= checkedAt <= firedAt <= stampedAt }
  }

  // ----- Which alerts are active, decision by decision

  datatype Book = Book(active: set<AlertId>, cooldowns: map<AlertId, real>)

  function DecideStep(b: Book, rule: AlertRule, shouldFire: bool, t: Readings): Book {
    var id := rule.Id();
    if !shouldFire then b.(active := b.active - {id})
    else if id in b.active || InCooldown(rule, b.cooldowns, t.checkedAt) then b
    else Book(b.active + {id}, b.cooldowns[id := t.stampedAt])
  }

  // One undisturbed pass of `evaluate_rules` over the enabled rules among rules[..n].
  function Pass(rules: seq<AlertRule>, readings: seq<Readings>, samples: map<string, seq<Sample>>, b: Book,
                n: nat): Book
    requires n <= |rules| == |readings|
  {
    if n == 0 then b
    else
      var before, rule := Pass(rules, readings, samples, b, n - 1), rules[n - 1];
      if rule.enabled
      then DecideStep(before, rule, RuleFires(rule, samples, readings[n - 1].statsAt), readings[n - 1])
      else before
  }

  lemma {:induction false} PassLeavesOthers(rules: seq<AlertRule>, readings: seq<Readings>,
                                           samples: map<string, seq<Sample>>, b: Book, n: nat, id: AlertId)
    requires n <= |rules| == |readings|
    requires forall i :: 0 <= i < n && rules[i].enabled ==> rules[i].name != id.ruleName
    ensures var after := Pass(rules, readings, samples, b, n);
            (id in after.active <==> id in b.active) && Lookup(after.cooldowns, id, 0.0) == Lookup(b.cooldowns, id, 0.0)
  {
    if n > 0 {
      PassLeavesOthers(rules, readings, samples, b, n - 1, id);
    }
  }

  // After a pass, an enabled rule's alert is active exactly when the rule's condition holds
  // and the alert was active already or out of cooldown; other alerts stay as they were
  // (PassLeavesOthers).
  lemma PassOutcome(rules: seq<AlertRule>, readings: seq<Readings>, samples: map<string, seq<Sample>>, b: Book,
                    n: nat, k: nat)
    requires k < n <= |rules| == |readings| && rules[k].enabled
    requires forall i, j :: 0 <= i < j < |rules| ==> rules[i].name != rules[j].name
    ensures rules[k].Id() in Pass(rules, readings, samples, b, n).active <==>
            && RuleFires(rules[k], samples, readings[k].statsAt)
            && (rules[k].Id() in b.active
                || readings[k].checkedAt - Lookup(b.cooldowns, rules[k].Id(), 0.0) >= rules[k].cooldownSeconds as real)
    decreases n
  {
    if k < n - 1 {
      PassOutcome(rules, readings, samples, b, n - 1, k);
    } else {
      PassLeavesOthers(rules, readings, samples, b, k, rules[k].Id());
    }
  }

  class Alert {
    const id: AlertId
    const severity: Severity
    const value: real
    const threshold: real
    const firedAt: real
    var status: Status
    var resolvedAt: Option<real>
    var acknowledgedAt: Option<real>
    var acknowledgedBy: Option<string>

    constructor (id: AlertId, severity: Severity, value: real, threshold: real, firedAt: real)
      ensures this.id == id && this.severity == severity && this.value == value
      ensures this.threshold == threshold && this.firedAt == firedAt
      ensures status == Firing && resolvedAt.None? && acknowledgedAt.None? && acknowledgedBy.None?
    {
      this.id, this.severity, this.value, this.threshold, this.firedAt := id, severity, value, threshold, firedAt;
      status, resolvedAt, acknowledgedAt, acknowledgedBy := Firing, None, None, None;
    }
  }

  const MAX_HISTORY: nat := 1000
  const MAX_SAMPLES: nat := 10000

  ghost predicate SamplesMatchAt(stored: map<string, seq<Sample>>, recorded: map<string, seq<Sample>>, metric: string) {
    Lookup(stored, metric, []) == Stored(Lookup(recorded, metric, []), MAX_SAMPLES)
  }

  ghost predicate SamplesMatch(stored: map<string, seq<Sample>>, recorded: map<string, seq<Sample>>) {
    forall metric :: SamplesMatchAt(stored, recorded, metric)
  }

  lemma SamplesStillMatch(stored: map<string, seq<Sample>>, recorded: map<string, seq<Sample>>, metric: string,
                          s: Sample)
    requires SamplesMatch(stored, recorded)
    ensures SamplesMatch(stored[metric := Truncate(Lookup(stored, metric, []) + [s], MAX_SAMPLES)],
                         recorded[metric := Lookup(recorded, metric, []) + [s]])
  {
    var all := Lookup(recorded, metric, []);
    assert (all + [s])[..|all|] == all;
    assert SamplesMatchAt(stored, recorded, metric);
    var stored' := stored[metric := Truncate(Lookup(stored, metric, []) + [s], MAX_SAMPLES)];
    var recorded' := recorded[metric := all + [s]];
    forall m ensures SamplesMatchAt(stored', recorded', m) {
      assert SamplesMatchAt(stored, recorded, m);
    }
  }

  // The dictionaries say of each id what the log says.
  ghost predicate LogMatches(log: seq<Event>, clock: real, active: set<AlertId>, cooldowns: map<AlertId, real>) {
    && LogOk(log) && (forall i :: 0 <= i < |log| ==> Ends(log[i]) <= clock)
    && (forall id :: id in active <==> IsActive(log, id))
    && (forall id :: LastStamp(log, id) == if id in cooldowns then Some(cooldowns[id]) else None)
  }

  lemma LogStillMatches(log: seq<Event>, clock: real, active: set<AlertId>, cooldowns: map<AlertId, real>, e: Event)
    requires LogMatches(log, clock, active, cooldowns) && EventOk(log, e) && clock <= Begins(e) <= Ends(e)
    ensures e.Fired? ==> LogMatches(log + [e], Ends(e), active + {e.id}, cooldowns[e.id := e.stampedAt])
    ensures e.Resolved? ==> LogMatches(log + [e], Ends(e), active - {e.id}, cooldowns)
  {
    LogOkExtends(log, e);
    forall id
      ensures IsActive(log + [e], id) == if id == e.id then e.Fired? else IsActive(log, id)
      ensures LastStamp(log + [e], id) == if e.Fired? && id == e.id then Some(e.stampedAt) else LastStamp(log, id)
    {
      OneMoreEvent(log, e, id);
    }
    assert forall i :: 0 <= i < |log| ==> (log + [e])[i] == log[i];
  }

  lemma OneMoreEvent(log: seq<Event>, e: Event, id: AlertId)
    ensures IsActive(log + [e], id) == if id == e.id then e.Fired? else IsActive(log, id)
    ensures LastStamp(log + [e], id) == if e.Fired? && id == e.id then Some(e.stampedAt) else LastStamp(log, id)
  {
    assert (log + [e])[..|log|] == log;
  }

  class AlertManager {
    var rules: map<string, AlertRule>
    var activeAlerts: map<AlertId, Alert>
    var history: seq<Alert>
    var cooldowns: map<AlertId, real>
    var metricSamples: map<string, seq<Sample>>
    ghost var log: seq<Event>
    ghost var clock: real                         // no logged event ends later
    ghost var recorded: map<string, seq<Sample>>  // every sample ever recorded

    // An alert in the history is firing exactly when it is the active one for its id.
    ghost predicate AlertsOk()
      reads this`activeAlerts, this`history, activeAlerts.Values, history
    {
      && (forall id :: id in activeAlerts ==>
            activeAlerts[id].id == id && activeAlerts[id].status == Firing && activeAlerts[id].resolvedAt.None?)
      && (forall a :: a in history ==>
            if a.id in activeAlerts && activeAlerts[a.id] == a then a.status == Firing
            else a.status == Status.Resolved && a.resolvedAt.Some?)
      && |history| <= MAX_HISTORY
    }

    ghost predicate Valid()
      reads this, activeAlerts.Values, history
    {
      && AlertsOk()
      && (forall name :: name in rules ==> rules[name].name == name)
      && LogMatches(log, clock, activeAlerts.Keys, cooldowns)
      && SamplesMatch(metricSamples, recorded)
    }

    constructor ()
      ensures Valid() && log == [] && rules == map[] && recorded == map[]
    {
      rules, activeAlerts, history, cooldowns, metricSamples := map[], map[], [], map[], map[];
      log, clock, recorded := [], 0.0, map[];
    }

    method AddRule(rule: AlertRule)
      requires Valid()
      modifies this`rules
      ensures Valid() && rules == old(rules)[rule.name := rule]
    {
      rules := rules[rule.name := rule];
    }

    method RemoveRule(name: string)
      requires Valid()
      modifies this`rules
      ensures Valid() && rules == old(rules) - {name}
    {
      rules := rules - {name};
    }

    method RecordMetric(metric: string, value: real, now: real)
      requires Valid()
      modifies this`metricSamples, this`recorded
      ensures Valid()
      ensures recorded == old(recorded)[metric := old(Lookup(recorded, metric, [])) + [Sample(value, now)]]
      ensures metricSamples.Keys == old(metricSamples).Keys + {metric}
    {
      SamplesStillMatch(metricSamples, recorded, metric, Sample(value, now));
      var samples := Lookup(metricSamples, metric, []) + [Sample(value, now)];
      metricSamples := metricSamples[metric := samples];
      if |samples| > MAX_SAMPLES {
        metricSamples := metricSamples[metric := samples[|samples| - Kept(MAX_SAMPLES)..]];
      }
      assert metricSamples == old(metricSamples)[metric := Truncate(samples, MAX_SAMPLES)];
      recorded := recorded[metric := Lookup(recorded, metric, []) + [Sample(value, now)]];
    }

    // Exact whenever the window's samples still fit in what is stored.
    method GetWindowStats(metric: string, windowSeconds: int, now: real) returns (stats: Stats)
      requires Valid()
      ensures stats == StatsOf(Since(Lookup(metricSamples, metric, []), now - windowSeconds as real), windowSeconds)
      ensures var all := Lookup(recorded, metric, []);
              var recent := Since(all, now - windowSeconds as real);
              AlertSamples.InOrder(all) && |recent| <= 5000 ==> stats == StatsOf(recent, windowSeconds)
    {
      var cutoff := now - windowSeconds as real;
      var recent := Since(Lookup(metricSamples, metric, []), cutoff);
      stats := StatsOf(recent, windowSeconds);
      ghost var all := Lookup(recorded, metric, []);
      assert SamplesMatchAt(metricSamples, recorded, metric);
      if AlertSamples.InOrder(all) {
        TruncationIsInvisible(all, MAX_SAMPLES, cutoff);
      }
    }

    method AddToHistory(alert: Alert)
      modifies this`history
      ensures history == Truncate(old(history) + [alert], MAX_HISTORY)
      ensures |old(history)| < 1000 ==> history == old(history) + [alert]
      ensures |old(history)| == 1000 ==> history == old(history)[501..] + [alert]
    {
      history := history + [alert];
      if |history| > MAX_HISTORY {
        history := history[|history| - Kept(MAX_HISTORY)..];
      }
    }

    method Activate(alert: Alert)
      requires AlertsOk() && alert.id !in activeAlerts && alert.status == Firing && alert.resolvedAt.None?
      requires alert !in history
      modifies this`activeAlerts, this`history
      ensures AlertsOk()
      ensures activeAlerts == old(activeAlerts)[alert.id := alert]
      ensures history == Truncate(old(history) + [alert], MAX_HISTORY)
    {
      activeAlerts := activeAlerts[alert.id := alert];
      AddToHistory(alert);
    }

    method Raise(rule: AlertRule, value: real, now: real) returns (alert: Alert)
      requires AlertsOk() && rule.Id() !in activeAlerts
      modifies this`activeAlerts, this`history
      ensures AlertsOk() && fresh(alert)
      ensures alert.firedAt == now && alert.value == value && alert.threshold == rule.threshold
      ensures activeAlerts == old(activeAlerts)[rule.Id() := alert]
      ensures activeAlerts.Keys == old(activeAlerts).Keys + {rule.Id()}
      ensures history == Truncate(old(history) + [alert], MAX_HISTORY)
    {
      alert := new Alert(rule.Id(), rule.severity, value, rule.threshold, now);
      Activate(alert);
    }

    // The alert has just become active, `before` being the ones that were.
    method StartCooldown(rule: AlertRule, t: Readings, ghost before: set<AlertId>)
      requires LogMatches(log, clock, before, cooldowns)
      requires rule.Id() !in before && activeAlerts.Keys == before + {rule.Id()}
      requires t.InOrder() && clock <= t.checkedAt && !InCooldown(rule, cooldowns, t.checkedAt)
      modifies this`cooldowns, this`log, this`clock
      ensures LogMatches(log, clock, activeAlerts.Keys, cooldowns) && clock == t.stampedAt
      ensures cooldowns == old(cooldowns)[rule.Id() := t.stampedAt]
      ensures log == old(log) + [Fired(rule.Id(), t.checkedAt, t.firedAt, t.stampedAt, rule.cooldownSeconds)]
    {
      ghost var e := Fired(rule.Id(), t.checkedAt, t.firedAt, t.stampedAt, rule.cooldownSeconds);
      LogStillMatches(log, clock, before, cooldowns, e);
      cooldowns := cooldowns[rule.Id() := t.stampedAt];
      log, clock := log + [e], t.stampedAt;
    }

    method Fire(rule: AlertRule, value: real, t: Readings) returns (alert: Alert)
      requires Valid() && t.InOrder() && clock <= t.checkedAt
      requires rule.Id() !in activeAlerts && !InCooldown(rule, cooldowns, t.checkedAt)
      modifies this`activeAlerts, this`history, this`cooldowns, this`log, this`clock
      ensures Valid() && clock == t.stampedAt
      ensures fresh(alert) && alert.firedAt == t.firedAt && alert.value == value && alert.threshold == rule.threshold
      ensures activeAlerts == old(activeAlerts)[rule.Id() := alert]
      ensures cooldowns == old(cooldowns)[rule.Id() := t.stampedAt]
      ensures log == old(log) + [Fired(rule.Id(), t.checkedAt, t.firedAt, t.stampedAt, rule.cooldownSeconds)]
      ensures history == Truncate(old(history) + [alert], MAX_HISTORY)
    {
      alert := Raise(rule, value, t.firedAt);
      StartCooldown(rule, t, old(activeAlerts).Keys);
    }

    method Deactivate(id: AlertId, now: real)
      requires AlertsOk() && id in activeAlerts
      modifies this`activeAlerts, this`history, activeAlerts[id]
      ensures AlertsOk()
      ensures old(activeAlerts[id]).status == Status.Resolved && old(activeAlerts[id]).resolvedAt == Some(now)
      ensures activeAlerts == old(activeAlerts) - {id}
      ensures history == Truncate(old(history) + [old(activeAlerts[id])], MAX_HISTORY)
    {
      var alert := activeAlerts[id];
      alert.status := Status.Resolved;
      alert.resolvedAt := Some(now);
      AddToHistory(alert);
      activeAlerts := activeAlerts - {id};
    }

    method Resolve(id: AlertId, now: real)
      requires Valid() && clock <= now && id in activeAlerts
      modifies this`activeAlerts, this`history, this`log, this`clock, activeAlerts[id]
      ensures Valid() && clock == now
      ensures old(activeAlerts[id]).status == Status.Resolved && old(activeAlerts[id]).resolvedAt == Some(now)
      ensures activeAlerts == old(activeAlerts) - {id}
      ensures log == old(log) + [Event.Resolved(id, now)]
      ensures history == Truncate(old(history) + [old(activeAlerts[id])], MAX_HISTORY)
    {
      LogStillMatches(log, clock, activeAlerts.Keys, cooldowns, Event.Resolved(id, now));
      assert (activeAlerts - {id}).Keys == activeAlerts.Keys - {id};
      Deactivate(id, now);
      log, clock := log + [Event.Resolved(id, now)], now;
    }

    // The block of `evaluate_rules` that runs under the lock.  `value` and `shouldFire` were
    // computed before, without it, so any other decision may have come in between.
    method Decide(rule: AlertRule, value: real, shouldFire: bool, t: Readings) returns (fired: Option<Alert>)
      requires Valid() && t.InOrder() && clock <= t.checkedAt
      modifies this`activeAlerts, this`history, this`cooldowns, this`log, this`clock, activeAlerts.Values
      ensures Valid() && clock <= t.stampedAt
      ensures Book(activeAlerts.Keys, cooldowns)
                == DecideStep(Book(old(activeAlerts).Keys, old(cooldowns)), rule, shouldFire, t)
      ensures fired.Some? <==>
              && shouldFire && !IsActive(old(log), rule.Id())
              && var last := LastStamp(old(log), rule.Id());
                 t.checkedAt - (if last.Some? then last.value else 0.0) >= rule.cooldownSeconds as real
      ensures fired.Some? ==>
                && fresh(fired.value) && fired.value.firedAt == t.firedAt && fired.value.value == value
                && fired.value.threshold == rule.threshold
                && activeAlerts == old(activeAlerts)[rule.Id() := fired.value]
                && log == old(log) + [Fired(rule.Id(), t.checkedAt, t.firedAt, t.stampedAt, rule.cooldownSeconds)]
                && history == Truncate(old(history) + [fired.value], MAX_HISTORY)
      ensures !shouldFire && rule.Id() in old(activeAlerts) ==>
                && old(activeAlerts[rule.Id()]).status == Status.Resolved
                && old(activeAlerts[rule.Id()]).resolvedAt == Some(t.checkedAt)
                && activeAlerts == old(activeAlerts) - {rule.Id()}
                && log == old(log) + [Event.Resolved(rule.Id(), t.checkedAt)]
                && history == Truncate(old(history) + [old(activeAlerts[rule.Id()])], MAX_HISTORY)
      ensures fired.None? && (shouldFire || rule.Id() !in old(activeAlerts)) ==>
                activeAlerts == old(activeAlerts) && log == old(log) && history == old(history)
      ensures forall a :: a in activeAlerts.Values && !fresh(a) ==> a in old(activeAlerts).Values
    {
      var id := rule.Id();
      fired := None;
      if shouldFire {
        if id in activeAlerts && activeAlerts[id].status == Firing {
          return;
        }
        if InCooldown(rule, cooldowns, t.checkedAt) {
          return;
        }
        var alert := Fire(rule, value, t);
        fired := Some(alert);
      } else if id in activeAlerts && activeAlerts[id].status == Firing {
        Resolve(id, t.checkedAt);
      }
    }

    method EvaluateRule(rule: AlertRule, t: Readings) returns (fired: Option<Alert>)
      requires Valid() && t.InOrder() && clock <= t.checkedAt
      modifies this`activeAlerts, this`history, this`cooldowns, this`log, this`clock, activeAlerts.Values
      ensures Valid() && clock <= t.stampedAt
      ensures Book(activeAlerts.Keys, cooldowns) ==
              DecideStep(Book(old(activeAlerts).Keys, old(cooldowns)), rule,
                         RuleFires(rule, metricSamples, t.statsAt), t)
      ensures forall a :: a in activeAlerts.Values && !fresh(a) ==> a in old(activeAlerts).Values
      ensures forall id :: id in activeAlerts && id !in old(activeAlerts) ==> fired == Some(activeAlerts[id])
      ensures forall id :: id in activeAlerts && id in old(activeAlerts) ==> activeAlerts[id] == old(activeAlerts[id])
      ensures fired.Some? ==> fresh(fired.value)
    {
      var stats := GetWindowStats(rule.Metric(), rule.windowSeconds, t.statsAt);
      var value := Pick(stats, rule.labels.stat);
      fired := Decide(rule, value, rule.Evaluate(value), t);
    }

    // One undisturbed pass over a copy of the rules, in dictionary order.
    method EvaluateRules(rulesCopy: seq<AlertRule>, readings: seq<Readings>) returns (newAlerts: seq<Alert>)
      requires Valid()
      requires (set r | r in rulesCopy) == rules.Values
      requires |readings| == |rulesCopy|
      requires forall i :: 0 <= i < |readings| ==> readings[i].InOrder() && clock <= readings[i].statsAt
      requires forall i, j :: 0 <= i < j < |readings| ==> readings[i].stampedAt <= readings[j].statsAt
      modifies this`activeAlerts, this`history, this`cooldowns, this`log, this`clock, activeAlerts.Values
      ensures Valid()
      ensures Book(activeAlerts.Keys, cooldowns) ==
              Pass(rulesCopy, readings, metricSamples, Book(old(activeAlerts).Keys, old(cooldowns)), |rulesCopy|)
      ensures forall id :: id in activeAlerts && id !in old(activeAlerts) ==> activeAlerts[id] in newAlerts
      ensures forall a :: a in newAlerts ==> fresh(a)
    {
      newAlerts := [];
      for i := 0 to |rulesCopy|
        invariant Valid()
        invariant forall k :: i <= k < |rulesCopy| ==> clock <= readings[k].statsAt
        invariant forall a :: a in activeAlerts.Values && !fresh(a) ==> a in old(activeAlerts).Values
        invariant Book(activeAlerts.Keys, cooldowns) ==
                  Pass(rulesCopy, readings, metricSamples, Book(old(activeAlerts).Keys, old(cooldowns)), i)
        invariant forall id :: id in activeAlerts && id !in old(activeAlerts) ==> activeAlerts[id] in newAlerts
        invariant forall a :: a in newAlerts ==> fresh(a)
      {
        var rule := rulesCopy[i];
        if !rule.enabled {
          continue;
        }
        var fired := EvaluateRule(rule, readings[i]);
        if fired.Some? {
          newAlerts := newAlerts + [fired.value];
        }
      }
    }

    method AcknowledgeAlert(id: AlertId, acknowledger: string, now: real) returns (alert: Option<Alert>)
      requires Valid()
      modifies activeAlerts.Values
      ensures Valid()
      ensures alert == if id in activeAlerts then Some(activeAlerts[id]) else None
      ensures alert.Some? ==>
                alert.value.acknowledgedAt == Some(now) && alert.value.acknowledgedBy == Some(acknowledger)
      ensures forall a :: a in activeAlerts.Values && alert != Some(a) ==> unchanged(a)
    {
      alert := None;
      if id in activeAlerts {
        var a := activeAlerts[id];
        a.acknowledgedAt := Some(now);
        a.acknowledgedBy := Some(acknowledger);
        alert := Some(a);
      }
    }
  }
}
