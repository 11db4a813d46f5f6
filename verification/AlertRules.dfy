/**
 The rules of shared/alerting.py: which statistic of which samples a rule looks at, and when its
 condition holds.
 */
module AlertRules {
  import opened Prelude
  import opened AlertLog
  import opened AlertSamples

  datatype Severity = Info | Warning | Error | Critical

  // Any other text compares as UnknownComparison.
  datatype Comparison = Gt | Gte | Lt | Lte | Eq | Neq | UnknownComparison

  datatype AlertRule = AlertRule(
    name: string,
    severity: Severity,
    windowSeconds: int,
    threshold: real,
    comparison: Comparison,
    cooldownSeconds: int,
    enabled: bool,
    labels: Labels)
  {
    predicate Evaluate(value: real) {
      && enabled
      && match comparison
         case Gt => value > threshold
         case Gte => value >= threshold
         case Lt => value < threshold
         case Lte => value <= threshold
         case Eq => value == threshold
         case Neq => value != threshold
         case UnknownComparison => false
    }

    function Metric(): string {
      if labels.metric.Some? then labels.metric.value else name
    }

    function Id(): AlertId { AlertId(name, labels.(metric := Some(Metric()))) }
  }

  // The statistic a rule names, the average if it names none, and 0 if there is no such statistic.
  function Pick(s: Stats, stat: Option<Stat>): real {
    match stat
    case None => s.avg
    case Some(Count) => s.count as real
    case Some(Sum) => s.sum
    case Some(Avg) => s.avg
    case Some(Min) => s.min
    case Some(Max) => s.max
    case Some(Rate) => s.rate
    case Some(UnknownStat(_)) => 0.0
  }

  // The samples in the rule's window.
  function Watched(rule: AlertRule, samples: map<string, seq<Sample>>, now: real): seq<Sample> {
    Since(Lookup(samples, rule.Metric(), []), now - rule.windowSeconds as real)
  }

  // The rule's statistic, read at `now` from what is stored.
  function RuleValue(rule: AlertRule, samples: map<string, seq<Sample>>, now: real): real {
    Pick(StatsOf(Watched(rule, samples, now), rule.windowSeconds), rule.labels.stat)
  }

  predicate RuleFires(rule: AlertRule, samples: map<string, seq<Sample>>, now: real) {
    rule.Evaluate(RuleValue(rule, samples, now))
  }

  // ----- What a rule says of the samples

  // A sample of the metric the rule's label names, or else the rule itself, not older than the window.
  ghost predicate InView(rule: AlertRule, samples: map<string, seq<Sample>>, now: real, x: Sample) {
    var metric := if rule.labels.metric.Some? then rule.labels.metric.value else rule.name;
    metric in samples && x in samples[metric] && now - x.timestamp <= rule.windowSeconds as real
  }

  lemma WatchedAreInView(rule: AlertRule, samples: map<string, seq<Sample>>, now: real)
    ensures forall x :: InView(rule, samples, now, x) <==> x in Watched(rule, samples, now)
  {
    SinceMembers(Lookup(samples, rule.Metric(), []), now - rule.windowSeconds as real);
  }

  // How a rule compares the values of the samples in view with its threshold.
  ghost predicate AllAbove(rule: AlertRule, samples: map<string, seq<Sample>>, now: real) {
    forall x :: InView(rule, samples, now, x) ==> x.value > rule.threshold
  }

  ghost predicate AllBelow(rule: AlertRule, samples: map<string, seq<Sample>>, now: real) {
    forall x :: InView(rule, samples, now, x) ==> x.value < rule.threshold
  }

  ghost predicate SomeAbove(rule: AlertRule, samples: map<string, seq<Sample>>, now: real) {
    exists x :: InView(rule, samples, now, x) && x.value > rule.threshold
  }

  ghost predicate SomeBelow(rule: AlertRule, samples: map<string, seq<Sample>>, now: real) {
    exists x :: InView(rule, samples, now, x) && x.value < rule.threshold
  }

  ghost predicate SeesSomething(rule: AlertRule, samples: map<string, seq<Sample>>, now: real) {
    exists x :: InView(rule, samples, now, x)
  }

  // A rule that is not enabled, or compares in an unknown way, never fires.
  lemma NeverFires(rule: AlertRule, samples: map<string, seq<Sample>>, now: real)
    requires !rule.enabled || rule.comparison.UnknownComparison?
    ensures !RuleFires(rule, samples, now)
  {
  }

  // How each comparison reads, given where a value lies.
  lemma Compares(rule: AlertRule, value: real)
    requires rule.enabled
    ensures match rule.comparison
            case Gt => rule.Evaluate(value) <==> value > rule.threshold
            case Gte => rule.Evaluate(value) <==> !(value < rule.threshold)
            case Lt => rule.Evaluate(value) <==> value < rule.threshold
            case Lte => rule.Evaluate(value) <==> !(value > rule.threshold)
            case Eq => rule.Evaluate(value) <==> !(value > rule.threshold) && !(value < rule.threshold)
            case Neq => rule.Evaluate(value) <==> value > rule.threshold || value < rule.threshold
            case UnknownComparison => !rule.Evaluate(value)
  {
  }

  lemma LeastAgainst(recent: seq<Sample>, threshold: real)
    requires recent != []
    ensures Least(recent) > threshold <==> forall x :: x in recent ==> x.value > threshold
    ensures Least(recent) < threshold <==> exists x :: x in recent && x.value < threshold
  {
    ExtremesAreAttained(recent);
    var i :| 0 <= i < |recent| && recent[i].value == Least(recent);
    assert recent[i] in recent;
  }

  lemma GreatestAgainst(recent: seq<Sample>, threshold: real)
    requires recent != []
    ensures Greatest(recent) > threshold <==> exists x :: x in recent && x.value > threshold
    ensures Greatest(recent) < threshold <==> forall x :: x in recent ==> x.value < threshold
  {
    ExtremesAreAttained(recent);
    var i :| 0 <= i < |recent| && recent[i].value == Greatest(recent);
    assert recent[i] in recent;
  }

  lemma LeastOfView(rule: AlertRule, samples: map<string, seq<Sample>>, now: real)
    requires SeesSomething(rule, samples, now) && rule.labels.stat == Some(Min)
    ensures RuleValue(rule, samples, now) > rule.threshold <==> AllAbove(rule, samples, now)
    ensures RuleValue(rule, samples, now) < rule.threshold <==> SomeBelow(rule, samples, now)
  {
    WatchedAreInView(rule, samples, now);
    LeastAgainst(Watched(rule, samples, now), rule.threshold);
  }

  lemma GreatestOfView(rule: AlertRule, samples: map<string, seq<Sample>>, now: real)
    requires SeesSomething(rule, samples, now) && rule.labels.stat == Some(Max)
    ensures RuleValue(rule, samples, now) > rule.threshold <==> SomeAbove(rule, samples, now)
    ensures RuleValue(rule, samples, now) < rule.threshold <==> AllBelow(rule, samples, now)
  {
    WatchedAreInView(rule, samples, now);
    GreatestAgainst(Watched(rule, samples, now), rule.threshold);
  }

  // A rule on the minimum, by its comparison.
  lemma MinRuleFiresIff(rule: AlertRule, samples: map<string, seq<Sample>>, now: real)
    requires rule.enabled && SeesSomething(rule, samples, now) && rule.labels.stat == Some(Min)
    ensures var allAbove, someBelow := AllAbove(rule, samples, now), SomeBelow(rule, samples, now);
            match rule.comparison
            case Gt => RuleFires(rule, samples, now) <==> allAbove
            case Gte => RuleFires(rule, samples, now) <==> !someBelow
            case Lt => RuleFires(rule, samples, now) <==> someBelow
            case Lte => RuleFires(rule, samples, now) <==> !allAbove
            case Eq => RuleFires(rule, samples, now) <==> !allAbove && !someBelow
            case Neq => RuleFires(rule, samples, now) <==> allAbove || someBelow
            case UnknownComparison => !RuleFires(rule, samples, now)
  {
    LeastOfView(rule, samples, now);
    Compares(rule, RuleValue(rule, samples, now));
  }

  // A rule on the maximum, by its comparison.
  lemma MaxRuleFiresIff(rule: AlertRule, samples: map<string, seq<Sample>>, now: real)
    requires rule.enabled && SeesSomething(rule, samples, now) && rule.labels.stat == Some(Max)
    ensures var someAbove, allBelow := SomeAbove(rule, samples, now), AllBelow(rule, samples, now);
            match rule.comparison
            case Gt => RuleFires(rule, samples, now) <==> someAbove
            case Gte => RuleFires(rule, samples, now) <==> !allBelow
            case Lt => RuleFires(rule, samples, now) <==> allBelow
            case Lte => RuleFires(rule, samples, now) <==> !someAbove
            case Eq => RuleFires(rule, samples, now) <==> !someAbove && !allBelow
            case Neq => RuleFires(rule, samples, now) <==> someAbove || allBelow
            case UnknownComparison => !RuleFires(rule, samples, now)
  {
    GreatestOfView(rule, samples, now);
    Compares(rule, RuleValue(rule, samples, now));
  }

  lemma AverageOfView(rule: AlertRule, samples: map<string, seq<Sample>>, now: real)
    requires SeesSomething(rule, samples, now) && (rule.labels.stat.None? || rule.labels.stat == Some(Avg))
    ensures AllAbove(rule, samples, now) ==> RuleValue(rule, samples, now) > rule.threshold
    ensures AllBelow(rule, samples, now) ==> RuleValue(rule, samples, now) < rule.threshold
    ensures !SomeAbove(rule, samples, now) ==> RuleValue(rule, samples, now) <= rule.threshold
    ensures !SomeBelow(rule, samples, now) ==> RuleValue(rule, samples, now) >= rule.threshold
  {
    var recent := Watched(rule, samples, now);
    WatchedAreInView(rule, samples, now);
    LeastAgainst(recent, rule.threshold);
    GreatestAgainst(recent, rule.threshold);
    AverageIsBetweenExtremes(recent, rule.windowSeconds);
  }

  // A rule on the average, which is what a rule without a statistic is, fires if the samples in view
  // all lie on its side of the threshold, and not if they all lie on the other.
  lemma AverageRuleFires(rule: AlertRule, samples: map<string, seq<Sample>>, now: real)
    requires rule.enabled && SeesSomething(rule, samples, now)
    requires rule.labels.stat.None? || rule.labels.stat == Some(Avg)
    ensures rule.comparison.Gt? || rule.comparison.Gte? || rule.comparison.Neq? ==>
              (AllAbove(rule, samples, now) ==> RuleFires(rule, samples, now))
    ensures rule.comparison.Lt? || rule.comparison.Lte? || rule.comparison.Neq? ==>
              (AllBelow(rule, samples, now) ==> RuleFires(rule, samples, now))
    ensures rule.comparison.Gt? ==> (!SomeAbove(rule, samples, now) ==> !RuleFires(rule, samples, now))
    ensures rule.comparison.Gte? || rule.comparison.Eq? ==>
              (AllBelow(rule, samples, now) ==> !RuleFires(rule, samples, now))
    ensures rule.comparison.Lt? ==> (!SomeBelow(rule, samples, now) ==> !RuleFires(rule, samples, now))
    ensures rule.comparison.Lte? || rule.comparison.Eq? ==>
              (AllAbove(rule, samples, now) ==> !RuleFires(rule, samples, now))
  {
    AverageOfView(rule, samples, now);
    Compares(rule, RuleValue(rule, samples, now));
  }

  // The other statistics: the number of samples and their sum; and 0 for a statistic that does not exist
  // or without samples.
  lemma CountAndSumValues(recent: seq<Sample>, windowSeconds: int, stat: Option<Stat>)
    ensures var value := Pick(StatsOf(recent, windowSeconds), stat);
            && (stat == Some(Count) ==> value == |recent| as real)
            && (stat == Some(Stat.Sum) ==> value == AlertSamples.Sum(recent))
            && (stat.Some? && stat.value.UnknownStat? ==> value == 0.0)
            && (recent == [] ==> value == 0.0)
  {
  }

  // The average times the number of samples is their sum, and the rate times the seconds their number.
  lemma AverageAndRateValues(recent: seq<Sample>, windowSeconds: int, stat: Option<Stat>)
    requires recent != []
    ensures stat.None? || stat == Some(Avg) ==>
              Pick(StatsOf(recent, windowSeconds), stat) * |recent| as real == AlertSamples.Sum(recent)
    ensures stat == Some(Rate) && windowSeconds > 0 ==>
              Pick(StatsOf(recent, windowSeconds), stat) * windowSeconds as real == |recent| as real
  {
    StatsMean(recent, windowSeconds);
    var st := StatsOf(recent, windowSeconds);
    if stat.None? || stat == Some(Avg) {
      assert Pick(st, stat) == st.avg;
    } else if stat == Some(Rate) {
      assert Pick(st, stat) == st.rate;
    }
  }

  // These are statistics of the samples in view.
  lemma RuleValueOfView(rule: AlertRule, samples: map<string, seq<Sample>>, now: real)
    ensures var recent := Watched(rule, samples, now);
            && (forall x :: InView(rule, samples, now, x) <==> x in recent)
            && RuleValue(rule, samples, now) == Pick(StatsOf(recent, rule.windowSeconds), rule.labels.stat)
            && (recent == [] <==> !SeesSomething(rule, samples, now))
  {
    var recent := Watched(rule, samples, now);
    WatchedAreInView(rule, samples, now);
    if recent != [] {
      assert InView(rule, samples, now, recent[0]);
    }
  }

  // Rules share an alert if and only if they have the same name and look the same: the metric that the
  // rule looks at counts as a label.
  lemma SameIdIff(r: AlertRule, r': AlertRule)
    ensures r.Id() == r'.Id() <==>
            && r.name == r'.name && r.labels.stat == r'.labels.stat && r.labels.others == r'.labels.others
            && (r.labels.metric == r'.labels.metric
                || (r.labels.metric == None && r'.labels.metric == Some(r.name))
                || (r'.labels.metric == None && r.labels.metric == Some(r.name)))
  {
  }
}
