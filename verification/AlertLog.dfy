/**
 The lifecycle of alerts in shared/alerting.py, as a log of firings and resolutions.

 `evaluate_rules` computes statistics without the lock and decides under it, so several
 evaluators interleave decision by decision.  The log records those decisions; what one
 decision guarantees about the log before it (`EventOk`) is what AlertManager keeps, and
 this module derives what it means for every run.
 */
module AlertLog {
  import opened Prelude

  datatype Stat = Count | Sum | Avg | Min | Max | Rate | UnknownStat(text: string)

  // A rule's label dictionary: the two labels the code looks at, and the others.
  datatype Labels = Labels(metric: Option<string>, stat: Option<Stat>, others: map<string, string>)

  // The id hashes the rule's name and labels; the hash is taken to be injective.
  datatype AlertId = AlertId(ruleName: string, labels: Labels)

  // The clock is read three times to fire: for the cooldown, for `fired_at` and for the
  // cooldown stamp.  `cooldown` is the rule's setting at that moment.
  datatype Event =
    | Fired(id: AlertId, checkedAt: real, firedAt: real, stampedAt: real, cooldown: int)
    | Resolved(id: AlertId, at: real)

  function IsActive(log: seq<Event>, id: AlertId): bool {
    if log == [] then false
    else if log[|log| - 1].id == id then log[|log| - 1].Fired?
    else IsActive(log[..|log| - 1], id)
  }

  function LastStamp(log: seq<Event>, id: AlertId): Option<real> {
    if log == [] then None
    else
      var e := log[|log| - 1];
      if e.Fired? && e.id == id then Some(e.stampedAt) else LastStamp(log[..|log| - 1], id)
  }

  predicate EventOk(before: seq<Event>, e: Event) {
    match e
    case Fired(id, checkedAt, firedAt, stampedAt, cooldown) =>
      && !IsActive(before, id)
      && checkedAt <= firedAt <= stampedAt
      && (LastStamp(before, id).Some? ==> checkedAt - LastStamp(before, id).value >= cooldown as real)
    case Resolved(id, _) => IsActive(before, id)
  }

  function Begins(e: Event): real { if e.Fired? then e.checkedAt else e.at }
  function Ends(e: Event): real { if e.Fired? then e.stampedAt else e.at }

  ghost predicate LogOk(log: seq<Event>) {
    && (forall n :: 0 <= n < |log| ==> EventOk(log[..n], log[n]))
    && (forall i, j :: 0 <= i < j < |log| ==> Ends(log[i]) <= Begins(log[j]))
  }

  function Firings(log: seq<Event>, id: AlertId): nat {
    if log == [] then 0
    else Firings(log[..|log| - 1], id) + if log[|log| - 1].Fired? && log[|log| - 1].id == id then 1 else 0
  }

  function Resolutions(log: seq<Event>, id: AlertId): nat {
    if log == [] then 0
    else Resolutions(log[..|log| - 1], id) + if log[|log| - 1].Resolved? && log[|log| - 1].id == id then 1 else 0
  }

  lemma LogOkExtends(log: seq<Event>, e: Event)
    requires LogOk(log) && EventOk(log, e)
    requires forall i :: 0 <= i < |log| ==> Ends(log[i]) <= Begins(e)
    ensures LogOk(log + [e])
  {
    var log' := log + [e];
    forall n | 0 <= n < |log'| ensures EventOk(log'[..n], log'[n]) {
      assert log'[..n] == log[..n];
      assert n == |log| ==> log[..n] == log;
    }
  }

  lemma LogOkPrefix(log: seq<Event>, n: nat)
    requires LogOk(log) && n <= |log|
    ensures LogOk(log[..n])
  {
    forall m | 0 <= m < n ensures EventOk(log[..n][..m], log[..n][m]) {
      assert log[..n][..m] == log[..m];
    }
  }

  // An alert is active exactly when its firings exceed its resolutions by one, and
  // otherwise the two are equal.
  lemma {:induction false} ActiveIffOneMoreFiring(log: seq<Event>, id: AlertId)
    requires LogOk(log)
    ensures Firings(log, id) == Resolutions(log, id) + if IsActive(log, id) then 1 else 0
  {
    if log != [] {
      var n := |log| - 1;
      LogOkPrefix(log, n);
      ActiveIffOneMoreFiring(log[..n], id);
      assert EventOk(log[..n], log[n]);
    }
  }

  // If nothing about `id` happens from i on, it stays as it was at i.
  lemma {:induction false} QuietKeepsActive(log: seq<Event>, i: nat, j: nat, id: AlertId)
    requires i <= j <= |log|
    requires forall k :: i <= k < j ==> log[k].id != id
    ensures IsActive(log[..j], id) == IsActive(log[..i], id)
    ensures LastStamp(log[..j], id) == LastStamp(log[..i], id)
  {
    if i < j {
      QuietKeepsActive(log, i, j - 1, id);
      assert log[..j][..j - 1] == log[..j - 1];
    }
  }

  // The log says nothing about `id` from i up to but not including j.
  ghost predicate Quiet(log: seq<Event>, i: nat, j: nat, id: AlertId)
    requires j <= |log|
  {
    forall k :: i <= k < j ==> log[k].id != id
  }

  // Firings and resolutions of an id strictly alternate: the first event is a firing ...
  lemma StartsWithFiring(log: seq<Event>, j: nat)
    requires LogOk(log) && j < |log| && Quiet(log, 0, j, log[j].id)
    ensures log[j].Fired?
  {
    assert EventOk(log[..j], log[j]);
    QuietKeepsActive(log, 0, j, log[j].id);
  }

  // ... and of two neighbouring events exactly one is.
  lemma NeighboursAlternate(log: seq<Event>, i: nat, j: nat)
    requires LogOk(log) && i < j < |log| && log[i].id == log[j].id && Quiet(log, i + 1, j, log[j].id)
    ensures log[i].Fired? <==> log[j].Resolved?
  {
    assert EventOk(log[..j], log[j]);
    QuietKeepsActive(log, i + 1, j, log[j].id);
    assert log[..i + 1][|log[..i + 1]| - 1] == log[i];
  }

  lemma {:induction false} LastStampAtLeast(log: seq<Event>, id: AlertId, i: nat)
    requires LogOk(log) && i < |log| && log[i].Fired? && log[i].id == id
    ensures LastStamp(log, id).Some? && LastStamp(log, id).value >= log[i].stampedAt
  {
    var n := |log| - 1;
    if i < n {
      assert EventOk(log[..n], log[n]);
      if log[n].Fired? && log[n].id == id {
        assert Ends(log[i]) <= Begins(log[n]);
      } else {
        LogOkPrefix(log, n);
        LastStampAtLeast(log[..n], id, i);
      }
    }
  }

  // Any two firings of an id, not only consecutive ones, are at least the later one's
  // cooldown apart.
  lemma FiringsKeepCooldown(log: seq<Event>, i: nat, j: nat)
    requires LogOk(log) && i < j < |log|
    requires log[i].Fired? && log[j].Fired? && log[i].id == log[j].id
    ensures log[j].firedAt - log[i].firedAt >= log[j].cooldown as real
  {
    assert EventOk(log[..j], log[j]) && EventOk(log[..i], log[i]);
    LogOkPrefix(log, j);
    LastStampAtLeast(log[..j], log[i].id, i);
  }
}
