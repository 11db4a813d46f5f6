/**
 The migration runner of scripts/migrate.py: file names with three-digit prefixes, and the
 table `schema_migrations` of applied versions.

 A run is any sequence of migrate and rollback calls; each call can stop midway, because a
 script fails (`broken`) or a delete does (`stuck`).
 */
module Migrations {
  import opened Prelude
  import opened Texts
  import StableSort

  datatype File = File(version: string, name: string)

  // ----- The file list

  // Three digits, an underscore, at least one character but no newline, and the suffix.
  predicate IsMigrationName(name: string) {
    && |name| >= 9
    && AllDigits(name[..3]) && name[3] == '_'
    && name[|name| - 4..] == ".sql"
    && '\n' !in name[4..|name| - 4]
  }

  function Matching(names: seq<string>): seq<File> {
    if names == [] then []
    else
      var name := names[|names| - 1];
      Matching(names[..|names| - 1]) + if IsMigrationName(name) then [File(name[..3], name)] else []
  }

  // A name gives a file if and only if it is three digits, an underscore, some text on one line, and
  // the suffix; the digits are the version.
  lemma {:induction false} NameGivesFileIff(names: seq<string>, f: File)
    ensures f in Matching(names) <==>
            f.name in names && exists text: string :: IsNamed(f, text)
  {
    if names != [] {
      var n := |names| - 1;
      NameGivesFileIff(names[..n], f);
      assert names == names[..n] + [names[n]];
      NamedIff(names[n], f);
    }
  }

  ghost predicate IsNamed(f: File, text: string) {
    && f.name == f.version + "_" + text + ".sql"
    && |f.version| == 3 && AllDigits(f.version) && text != "" && '\n' !in text
  }

  lemma NamedIff(name: string, f: File)
    ensures IsMigrationName(name) && f == File(name[..3], name) <==>
            f.name == name && exists text: string :: IsNamed(f, text)
  {
    if IsMigrationName(name) && f == File(name[..3], name) {
      var text := name[4..|name| - 4];
      assert name == name[..3] + "_" + text + ".sql";
      assert IsNamed(f, text);
    }
    if text: string :| f.name == name && IsNamed(f, text) {
      assert name[..3] == f.version && name[3] == '_';
      assert name[4..|name| - 4] == text && name[|name| - 4..] == ".sql";
    }
  }

  predicate Before(f: File, g: File) { Less(f.version, g.version) }

  // `names` are the SQL files of the directory, sorted by name.
  function GetMigrationFiles(names: seq<string>): seq<File> {
    StableSort.Sort(Matching(names), Before)
  }

  lemma BeforeIsStrictWeak()
    ensures StableSort.StrictWeakOrder(Before)
  {
    forall f: File, g: File, h: File
      ensures !Before(f, f)
      ensures Before(f, g) ==> !Before(g, f)
      ensures !Before(g, f) && !Before(h, g) ==> !Before(h, f)
    {
      LessIrreflexive(f.version);
      LessTrichotomy(f.version, g.version);
      LessTrichotomy(g.version, h.version);
      LessTrichotomy(f.version, h.version);
      if Less(f.version, g.version) && Less(g.version, h.version) {
        LessTransitive(f.version, g.version, h.version);
      }
    }
  }

  // The list has the matching names, each as often as it was there, versions ascending.
  lemma FilesAscend(names: seq<string>)
    ensures StableSort.Sorted(GetMigrationFiles(names), Before)
    ensures multiset(GetMigrationFiles(names)) == multiset(Matching(names))
  {
    BeforeIsStrictWeak();
    StableSort.SortSorts(Matching(names), Before);
  }

  lemma {:induction false} MatchingVersions(names: seq<string>)
    ensures forall f :: f in Matching(names) ==> AllDigits(f.version) && |f.version| == 3
  {
    if names != [] {
      MatchingVersions(names[..|names| - 1]);
    }
  }

  // On three digits the text order that the code sorts and compares by is the numeric one.
  lemma VersionOrderIsNumeric(names: seq<string>, f: File, g: File)
    requires f in Matching(names) && g in Matching(names)
    ensures AllDigits(f.version) && AllDigits(g.version)
    ensures Before(f, g) <==> Value(f.version) < Value(g.version)
  {
    MatchingVersions(names);
    LessIsNumeric(f.version, g.version);
  }

  // Sorted, and no two files share a version.
  ghost predicate Strict(files: seq<File>) {
    forall i, j :: 0 <= i < j < |files| ==> Before(files[i], files[j])
  }

  lemma StrictIffDistinct(files: seq<File>)
    requires StableSort.Sorted(files, Before)
    ensures Strict(files) <==> forall i, j :: 0 <= i < j < |files| ==> files[i].version != files[j].version
  {
    forall i, j | 0 <= i < j < |files|
      ensures Before(files[i], files[j]) <==> files[i].version != files[j].version
    {
      assert !Before(files[j], files[i]);
      LessTrichotomy(files[i].version, files[j].version);
    }
  }

  function Versions(files: seq<File>): set<string> {
    set f | f in files :: f.version
  }

  // ----- One call

  // At or below the target; None and "" ask for everything.
  predicate Wanted(v: string, target: Option<string>) {
    target.None? || target.value == "" || v == target.value || Less(v, target.value)
  }

  function Pending(files: seq<File>, applied: set<string>, target: Option<string>): seq<File> {
    if files == [] then []
    else
      var f := files[|files| - 1];
      Pending(files[..|files| - 1], applied, target)
      + if f.version !in applied && Wanted(f.version, target) then [f] else []
  }

  // How many of the pending files go through, in order, before one fails: its script, or
  // the insertion of a version that is already in the table.
  function Going(pending: seq<File>, applied: set<string>, broken: set<string>): nat {
    if pending == [] || pending[0].name in broken || pending[0].version in applied then 0
    else 1 + Going(pending[1..], applied + {pending[0].version}, broken)
  }

  function Migrated(files: seq<File>, applied: set<string>, target: Option<string>, broken: set<string>): set<string> {
    var pending := Pending(files, applied, target);
    GoingWithin(pending, applied, broken);
    applied + Versions(pending[..Going(pending, applied, broken)])
  }

  predicate MigrateSucceeds(files: seq<File>, applied: set<string>, target: Option<string>, broken: set<string>) {
    var pending := Pending(files, applied, target);
    Going(pending, applied, broken) == |pending|
  }

  lemma {:induction false} GoingWithin(pending: seq<File>, applied: set<string>, broken: set<string>)
    ensures Going(pending, applied, broken) <= |pending|
  {
    if pending != [] {
      GoingWithin(pending[1..], applied + {pending[0].version}, broken);
    }
  }

  // What a rollback leaves: it deletes the newer versions from the newest down, up to the
  // first one that will not go.
  function RolledBack(applied: set<string>, target: string, stuck: set<string>): set<string> {
    set v | v in applied &&
            (!Less(target, v) || exists w :: w in applied && w in stuck && Less(target, w) && !Less(w, v))
  }

  predicate RollbackSucceeds(applied: set<string>, target: string, stuck: set<string>) {
    forall v :: v in applied && Less(target, v) ==> v !in stuck
  }

  // ----- Prefixes

  ghost predicate IsPrefix(applied: set<string>, files: seq<File>) {
    exists k :: 0 <= k <= |files| && applied == Versions(files[..k])
  }

  // With every applied version, all smaller ones of the list are applied too.
  ghost predicate DownClosed(applied: set<string>, files: seq<File>) {
    && applied <= Versions(files)
    && forall i, j :: 0 <= i < j < |files| && files[j].version in applied ==> files[i].version in applied
  }

  lemma {:induction false} DownClosedIsPrefix(applied: set<string>, files: seq<File>)
    requires Strict(files) && DownClosed(applied, files)
    ensures IsPrefix(applied, files)
  {
    if files == [] {
      assert files[..0] == [];
      assert applied == Versions(files[..0]);
    } else {
      var n := |files| - 1;
      var init := files[..n];
      if files[n].version in applied {
        AllApplied(applied, files);
        assert files[..|files|] == files;
      } else {
        LastNotApplied(applied, files);
        DownClosedIsPrefix(applied, init);
        var k :| 0 <= k <= |init| && applied == Versions(init[..k]);
        assert init[..k] == files[..k];
      }
    }
  }

  lemma AllApplied(applied: set<string>, files: seq<File>)
    requires DownClosed(applied, files) && files != [] && files[|files| - 1].version in applied
    ensures applied == Versions(files)
  {
    assert forall f :: f in files ==> f.version in applied;
  }

  lemma LastNotApplied(applied: set<string>, files: seq<File>)
    requires Strict(files) && DownClosed(applied, files) && files != [] && files[|files| - 1].version !in applied
    ensures Strict(files[..|files| - 1]) && DownClosed(applied, files[..|files| - 1])
  {
    var n := |files| - 1;
    assert forall f :: f in files && f != files[n] ==> f in files[..n];
  }

  lemma {:induction false} PendingMembers(files: seq<File>, applied: set<string>, target: Option<string>)
    ensures forall f :: f in Pending(files, applied, target) <==>
              f in files && f.version !in applied && Wanted(f.version, target)
  {
    if files != [] {
      var n := |files| - 1;
      PendingMembers(files[..n], applied, target);
      assert files == files[..n] + [files[n]];
    }
  }

  lemma {:induction false} PendingStaysStrict(files: seq<File>, applied: set<string>, target: Option<string>)
    requires Strict(files)
    ensures Strict(Pending(files, applied, target))
  {
    if files != [] {
      var n := |files| - 1;
      PendingStaysStrict(files[..n], applied, target);
      PendingMembers(files[..n], applied, target);
      var p := Pending(files[..n], applied, target);
      forall i | 0 <= i < |p| ensures Before(p[i], files[n]) {
        assert p[i] in files[..n];
      }
    }
  }

  // With distinct versions only a broken script stops a migrate.
  lemma {:induction false} GoingStopsAtBroken(pending: seq<File>, applied: set<string>, broken: set<string>)
    requires Strict(pending) && forall f :: f in pending ==> f.version !in applied
    ensures var n := Going(pending, applied, broken);
            && n <= |pending|
            && (forall i :: 0 <= i < n ==> pending[i].name !in broken)
            && (n < |pending| ==> pending[n].name in broken)
  {
    if pending != [] && pending[0].name !in broken {
      assert pending[0] in pending;
      var rest := pending[1..];
      forall f | f in rest ensures f.version !in applied + {pending[0].version} {
        var i :| 0 <= i < |rest| && rest[i] == f;
        assert f == pending[i + 1] && Before(pending[0], f);
        LessIrreflexive(f.version);
      }
      assert forall i, j :: 0 <= i < j < |rest| ==> rest[i] == pending[i + 1] && rest[j] == pending[j + 1];
      GoingStopsAtBroken(rest, applied + {pending[0].version}, broken);
      assert forall i :: 0 < i < |pending| ==> pending[i] == rest[i - 1];
    }
  }

  lemma AllPendingIn(files: seq<File>, applied: set<string>, target: Option<string>, broken: set<string>)
    requires Strict(files)
    ensures var pending := Pending(files, applied, target);
            && Strict(pending) && Going(pending, applied, broken) <= |pending|
            && (forall i :: 0 <= i < Going(pending, applied, broken) ==> pending[i].name !in broken)
            && (Going(pending, applied, broken) < |pending| ==> pending[Going(pending, applied, broken)].name in broken)
  {
    PendingMembers(files, applied, target);
    PendingStaysStrict(files, applied, target);
    GoingStopsAtBroken(Pending(files, applied, target), applied, broken);
  }

  // ----- Laws

  lemma MigrateAddsWanted(files: seq<File>, applied: set<string>, target: Option<string>, broken: set<string>)
    requires Strict(files)
    ensures MigrateSucceeds(files, applied, target, broken) <==>
            forall f :: f in files && f.version !in applied && Wanted(f.version, target) ==> f.name !in broken
    ensures MigrateSucceeds(files, applied, target, broken) ==>
              Migrated(files, applied, target, broken)
              == applied + set f | f in files && Wanted(f.version, target) :: f.version
    ensures applied <= Migrated(files, applied, target, broken)
    ensures Migrated(files, applied, target, broken)
            <= applied + set f | f in files && Wanted(f.version, target) :: f.version
  {
    var pending := Pending(files, applied, target);
    var n := Going(pending, applied, broken);
    AllPendingIn(files, applied, target, broken);
    PendingMembers(files, applied, target);
    assert n < |pending| ==> pending[n] in pending;
    assert forall f :: f in pending[..n] ==> f in pending;
    if n == |pending| {
      assert pending[..n] == pending;
    }
  }

  // Without a target, or with a blank one, everything is asked for.
  predicate AsksForAll(target: Option<string>) {
    target == None || target == Some("")
  }

  // Of files whose versions have three digits: the versions that are asked for, those up to the number
  // of a target of three digits.
  ghost predicate AskedFor(files: seq<File>, target: Option<string>, v: string)
    requires forall f :: f in files ==> AllDigits(f.version)
    requires AsksForAll(target) || AllDigits(target.value)
  {
    exists f :: f in files && f.version == v && (AsksForAll(target) || Value(v) <= Value(target.value))
  }

  lemma WantedIsNumeric(v: string, target: Option<string>)
    requires AllDigits(v) && |v| == 3
    requires AsksForAll(target) || (AllDigits(target.value) && |target.value| == 3)
    ensures Wanted(v, target) <==> AsksForAll(target) || Value(v) <= Value(target.value)
  {
    if !AsksForAll(target) {
      LessIsNumeric(v, target.value);
      LessIsNumeric(target.value, v);
      LessTrichotomy(v, target.value);
    }
  }

  // A migrate succeeds exactly when no pending script is broken; it then adds exactly the versions up
  // to the target, and if it fails it has added only some of them.
  lemma MigrateAddsUpToTarget(files: seq<File>, applied: set<string>, target: Option<string>, broken: set<string>)
    requires Strict(files) && forall f :: f in files ==> AllDigits(f.version) && |f.version| == 3
    requires AsksForAll(target) || (AllDigits(target.value) && |target.value| == 3)
    ensures MigrateSucceeds(files, applied, target, broken) <==>
            forall f :: f in files && f.version !in applied && AskedFor(files, target, f.version) ==> f.name !in broken
    ensures MigrateSucceeds(files, applied, target, broken) ==>
              forall v :: v in Migrated(files, applied, target, broken) <==>
                v in applied || AskedFor(files, target, v)
    ensures applied <= Migrated(files, applied, target, broken)
    ensures forall v :: v in Migrated(files, applied, target, broken) ==> v in applied || AskedFor(files, target, v)
  {
    MigrateAddsWanted(files, applied, target, broken);
    forall f | f in files ensures Wanted(f.version, target) <==> AskedFor(files, target, f.version) {
      WantedIsNumeric(f.version, target);
    }
  }

  // For any target: rolling everything back to it leaves what migrating an empty table up to it adds.
  lemma RollbackMeetsMigrate(files: seq<File>, target: string)
    requires Strict(files) && target != ""
    ensures RolledBack(Versions(files), target, {}) == Migrated(files, {}, Some(target), {})
  {
    MigrateAddsWanted(files, {}, Some(target), {});
    forall f | f in files ensures !Less(target, f.version) <==> Wanted(f.version, Some(target)) {
      LessTrichotomy(f.version, target);
    }
  }

  lemma LaterIsNotBefore(s: seq<File>, a: nat, b: nat)
    requires Strict(s) && b <= a < |s|
    ensures !Before(s[a], s[b])
  {
    LessTrichotomy(s[a].version, s[b].version);
  }

  // If a pending file got through, so did every earlier one that was pending.
  lemma EarlierGotThrough(pending: seq<File>, n: nat, f: File, g: File)
    requires Strict(pending) && n <= |pending| && f in pending && g in pending[..n] && Before(f, g)
    ensures f in pending[..n]
  {
    var a :| 0 <= a < |pending| && pending[a] == f;
    var b :| 0 <= b < n && pending[b] == g;
    if b <= a {
      LaterIsNotBefore(pending, a, b);
    }
    assert pending[..n][a] == f;
  }

  lemma MigrateKeepsDownClosed(files: seq<File>, applied: set<string>, target: Option<string>, broken: set<string>)
    requires Strict(files) && DownClosed(applied, files)
    ensures DownClosed(Migrated(files, applied, target, broken), files)
  {
    var applied' := Migrated(files, applied, target, broken);
    MigrateAddsWanted(files, applied, target, broken);
    forall i, j | 0 <= i < j < |files| && files[j].version in applied' ensures files[i].version in applied' {
      if files[j].version !in applied && files[i].version !in applied {
        PendingDownwards(files, applied, target, broken, i, j);
      }
    }
  }

  lemma PendingDownwards(files: seq<File>, applied: set<string>, target: Option<string>, broken: set<string>, i: nat,
                         j: nat)
    requires Strict(files) && i < j < |files| && files[i].version !in applied && files[j].version !in applied
    requires files[j].version in Migrated(files, applied, target, broken)
    ensures files[i].version in Migrated(files, applied, target, broken)
  {
    var pending := Pending(files, applied, target);
    var n := Going(pending, applied, broken);
    AllPendingIn(files, applied, target, broken);
    PendingMembers(files, applied, target);
    var g :| g in pending[..n] && g.version == files[j].version;
    assert g in pending;
    WantedDownwards(files[i].version, files[j].version, target);
    EarlierGotThrough(pending, n, files[i], g);
  }

  lemma WantedDownwards(v: string, w: string, target: Option<string>)
    requires Less(v, w) && Wanted(w, target)
    ensures Wanted(v, target)
  {
    if target.Some? && Less(w, target.value) {
      LessTransitive(v, w, target.value);
    }
  }

  lemma RollbackKeepsDownClosed(files: seq<File>, applied: set<string>, target: string, stuck: set<string>)
    requires Strict(files) && DownClosed(applied, files)
    ensures DownClosed(RolledBack(applied, target, stuck), files)
  {
    var left := RolledBack(applied, target, stuck);
    forall i, j | 0 <= i < j < |files| && files[j].version in left ensures files[i].version in left {
      var v, w := files[i].version, files[j].version;
      if Less(target, v) {
        LessTransitive(target, v, w);
        var x :| x in applied && x in stuck && Less(target, x) && !Less(x, w);
        if Less(x, v) {
          LessTransitive(x, v, w);
        }
      }
    }
  }

  // Rolling back never touches what is at or below the target, and empties what is above it
  // exactly when no delete gets stuck.
  lemma RollbackStopsAtTarget(applied: set<string>, target: string, stuck: set<string>)
    ensures forall v :: v in applied && !Less(target, v) ==> v in RolledBack(applied, target, stuck)
    ensures RollbackSucceeds(applied, target, stuck) <==>
            RolledBack(applied, target, stuck) == set v | v in applied && !Less(target, v)
  {
    if !RollbackSucceeds(applied, target, stuck) {
      var v :| v in applied && Less(target, v) && v in stuck;
      LessIrreflexive(v);
      assert v in RolledBack(applied, target, stuck);
    }
  }

  // ----- Runs

  datatype Call =
    | Migrate(target: Option<string>, broken: set<string>)
    | Rollback(to: string, stuck: set<string>)

  function AppliedAfter(files: seq<File>, calls: seq<Call>): set<string> {
    if calls == [] then {}
    else
      var applied := AppliedAfter(files, calls[..|calls| - 1]);
      match calls[|calls| - 1]
      case Migrate(target, broken) => Migrated(files, applied, target, broken)
      case Rollback(to, stuck) => RolledBack(applied, to, stuck)
  }

  lemma {:induction false} AlwaysDownClosed(files: seq<File>, calls: seq<Call>)
    requires Strict(files)
    ensures DownClosed(AppliedAfter(files, calls), files)
  {
    if calls != [] {
      var applied := AppliedAfter(files, calls[..|calls| - 1]);
      AlwaysDownClosed(files, calls[..|calls| - 1]);
      match calls[|calls| - 1]
      case Migrate(target, broken) => MigrateKeepsDownClosed(files, applied, target, broken);
      case Rollback(to, stuck) => RollbackKeepsDownClosed(files, applied, to, stuck);
    }
  }

  // Starting empty, after any run of calls, failed ones included, the applied versions are
  // a prefix of the sorted file list.
  lemma AppliedIsAlwaysPrefix(files: seq<File>, calls: seq<Call>)
    requires Strict(files)
    ensures IsPrefix(AppliedAfter(files, calls), files)
  {
    AlwaysDownClosed(files, calls);
    DownClosedIsPrefix(AppliedAfter(files, calls), files);
  }

  // Repeating a successful migrate does nothing.
  lemma MigrateIsIdempotent(files: seq<File>, applied: set<string>, target: Option<string>, broken: set<string>,
                            broken': set<string>)
    requires Strict(files) && MigrateSucceeds(files, applied, target, broken)
    ensures var once := Migrated(files, applied, target, broken);
            Pending(files, once, target) == [] && Migrated(files, once, target, broken') == once
  {
    var once := Migrated(files, applied, target, broken);
    MigrateAddsWanted(files, applied, target, broken);
    assert forall f :: f in files && Wanted(f.version, target) ==> f.version in once;
    NothingPending(files, once, target);
    assert once + Versions([]) == once;
  }

  lemma {:induction false} NothingPending(files: seq<File>, applied: set<string>, target: Option<string>)
    requires forall f :: f in files && Wanted(f.version, target) ==> f.version in applied
    ensures Pending(files, applied, target) == []
  {
    if files != [] {
      assert files[|files| - 1] in files;
      NothingPending(files[..|files| - 1], applied, target);
    }
  }

  // Rolling back deletes rows and undoes no script, so a full migrate afterwards runs scripts again
  // that have run before.  It restores the full list if and only if none of those is broken.
  lemma {:induction false} RollbackThenMigrateRestoresIff(files: seq<File>, calls: seq<Call>, to: string,
                                                          stuck: set<string>, broken: set<string>)
    requires Strict(files)
    ensures var left := RolledBack(AppliedAfter(files, calls), to, stuck);
            Migrated(files, left, None, broken) == Versions(files) <==>
            forall f :: f in files && f.version !in left ==> f.name !in broken
  {
    AlwaysDownClosed(files, calls);
    var left := RolledBack(AppliedAfter(files, calls), to, stuck);
    MigrateAddsWanted(files, left, None, broken);
    if !MigrateSucceeds(files, left, None, broken) {
      var f := FailureLeavesOut(files, left, None, broken);
      assert f.version in Versions(files);
    }
  }

  lemma FailureLeavesOut(files: seq<File>, applied: set<string>, target: Option<string>, broken: set<string>)
    returns (f: File)
    requires Strict(files) && !MigrateSucceeds(files, applied, target, broken)
    ensures f in files && f.version !in Migrated(files, applied, target, broken)
  {
    var pending := Pending(files, applied, target);
    var n := Going(pending, applied, broken);
    AllPendingIn(files, applied, target, broken);
    PendingMembers(files, applied, target);
    f := pending[n];
    assert f in pending;
    forall g | g in pending[..n] ensures g.version != f.version {
      var i :| 0 <= i < n && pending[i] == g;
      assert Before(pending[i], pending[n]);
      LessIrreflexive(f.version);
    }
  }

  // ----- Files that share a version

  ghost predicate DistinctVersions(files: seq<File>) {
    forall i, j :: 0 <= i < j < |files| ==> files[i].version != files[j].version
  }

  lemma DistinctFromFirst(files: seq<File>)
    requires files != []
    ensures DistinctVersions(files) <==>
            DistinctVersions(files[1..]) && forall g :: g in files[1..] ==> g.version != files[0].version
  {
    var rest := files[1..];
    if DistinctVersions(files) {
      assert forall i, j :: 0 <= i < j < |rest| ==> rest[i] == files[i + 1] && rest[j] == files[j + 1];
    } else {
      var i, j :| 0 <= i < j < |files| && files[i].version == files[j].version;
      assert rest[j - 1] == files[j] && rest[j - 1] in rest;
      assert i > 0 ==> rest[i - 1] == files[i];
    }
  }

  lemma {:induction false} AllGoIff(pending: seq<File>, applied: set<string>, broken: set<string>)
    ensures Going(pending, applied, broken) == |pending| <==>
            DistinctVersions(pending) && forall f :: f in pending ==> f.name !in broken && f.version !in applied
  {
    if pending != [] {
      var first, rest := pending[0], pending[1..];
      AllGoIff(rest, applied + {first.version}, broken);
      DistinctFromFirst(pending);
      assert forall f :: f in pending <==> f == first || f in rest;
    }
  }

  // Whatever the files and the table: a migrate succeeds if and only if no two pending files share
  // a version and none of them is broken.
  lemma MigrateSucceedsIff(files: seq<File>, applied: set<string>, target: Option<string>, broken: set<string>)
    ensures var pending := Pending(files, applied, target);
            MigrateSucceeds(files, applied, target, broken) <==>
            DistinctVersions(pending) && forall f :: f in pending ==> f.name !in broken
  {
    PendingMembers(files, applied, target);
    AllGoIff(Pending(files, applied, target), applied, broken);
  }

  // So from an empty table a full migrate needs distinct versions throughout.
  lemma FullMigrateNeedsDistinctVersions(files: seq<File>)
    requires StableSort.Sorted(files, Before)
    ensures MigrateSucceeds(files, {}, None, {}) <==> Strict(files)
  {
    StrictIffDistinct(files);
    PendingIsAll(files);
    MigrateSucceedsIff(files, {}, None, {});
  }

  lemma {:induction false} PendingIsAll(files: seq<File>)
    ensures Pending(files, {}, None) == files
  {
    if files != [] {
      PendingIsAll(files[..|files| - 1]);
    }
  }

  // But the failed call leaves the version recorded: the next one finds nothing pending and
  // succeeds, and the second script never runs.
  lemma SecondOfTwoIsSkipped()
    ensures var files := [File("001", "001_a.sql"), File("001", "001_b.sql")];
            && !MigrateSucceeds(files, {}, None, {}) && Migrated(files, {}, None, {}) == {"001"}
            && MigrateSucceeds(files, {"001"}, None, {}) && Pending(files, {"001"}, None) == []
  {
    var a, b := File("001", "001_a.sql"), File("001", "001_b.sql");
    var files := [a, b];
    PendingIsAll(files);
    assert files[1..] == [b] && files[..1] == [a];
    assert Going(files, {}, {}) == 1 + Going([b], {} + {"001"}, {});
    NothingPending(files, {"001"}, None);
  }

  // ----- The object

  class MigrationSystem {
    const files: seq<File>
    var applied: map<string, string>  // schema_migrations: version to file name
    ghost var inserted: seq<string>   // versions in the order in which they were recorded

    // The directory does not change afterwards.
    constructor (names: seq<string>)
      ensures files == GetMigrationFiles(names) && applied == map[] && inserted == []
    {
      files := GetMigrationFiles(names);
      applied, inserted := map[], [];
    }

    // One transaction: the script, then the row, or neither; `true` when it raises.
    method ApplyMigration(f: File, broken: set<string>) returns (raised: bool)
      modifies this`applied, this`inserted
      ensures raised <==> f.name in broken || f.version in old(applied)
      ensures applied == if raised then old(applied) else old(applied)[f.version := f.name]
      ensures inserted == if raised then old(inserted) else old(inserted) + [f.version]
    {
      if f.name in broken || f.version in applied {
        return true;
      }
      applied := applied[f.version := f.name];
      inserted := inserted + [f.version];
      return false;
    }

    // Applies the files in order and stops at the first that fails.
    method ApplyAll(pending: seq<File>, broken: set<string>) returns (raised: bool)
      modifies this`applied, this`inserted
      ensures var n := Going(pending, old(applied).Keys, broken);
              && n <= |pending| && raised == (n < |pending|)
              && applied.Keys == old(applied).Keys + Versions(pending[..n])
              && inserted == old(inserted) + VersionList(pending[..n])
    {
      GoingWithin(pending, applied.Keys, broken);
      ghost var n := Going(pending, applied.Keys, broken);
      for i := 0 to |pending|
        invariant i <= n && n == i + Going(pending[i..], applied.Keys, broken)
        invariant Recorded(pending[..i], old(applied).Keys, old(inserted), applied.Keys, inserted)
      {
        GoingOneMore(pending, i, applied.Keys, broken);
        RecordedOneMore(pending, i, old(applied).Keys, old(inserted), applied.Keys, inserted);
        ghost var before := applied.Keys;
        raised := ApplyMigration(pending[i], broken);
        if raised {
          return;
        }
        assert applied.Keys == before + {pending[i].version};
      }
      return false;
    }

    method Migrate(target: Option<string>, dryRun: bool, broken: set<string>) returns (raised: bool)
      modifies this`applied, this`inserted
      ensures dryRun ==> !raised && applied == old(applied) && inserted == old(inserted)
      ensures !dryRun ==>
                && raised == !MigrateSucceeds(files, old(applied).Keys, target, broken)
                && applied.Keys == Migrated(files, old(applied).Keys, target, broken)
                && inserted == old(inserted) + InsertedBy(files, old(applied).Keys, target, broken)
    {
      var pending := Pending(files, applied.Keys, target);
      if dryRun {
        return false;
      }
      raised := ApplyAll(pending, broken);
    }

    // Deletes the versions above the target from the greatest down; `true` when one raises.
    method Rollback(target: string, dryRun: bool, stuck: set<string>) returns (raised: bool)
      modifies this`applied
      ensures dryRun ==> !raised && applied == old(applied)
      ensures !dryRun ==>
                && raised == !RollbackSucceeds(old(applied).Keys, target, stuck)
                && applied.Keys == RolledBack(old(applied).Keys, target, stuck)
    {
      if dryRun {
        return false;
      }
      var todo := set v | v in applied && Less(target, v);
      while todo != {}
        invariant todo == set v | v in applied && Less(target, v)
        invariant applied.Keys <= old(applied).Keys
        invariant forall v, w :: v in old(applied) && v !in applied && w in todo ==> Less(w, v)
        invariant forall v :: v in old(applied) && v !in applied ==> Less(target, v) && v !in stuck
        decreases todo
      {
        GreatestExists(todo);
        var version :| version in todo && IsGreatest(todo, version);
        if version in stuck {
          StuckAt(old(applied).Keys, applied.Keys, target, stuck, version);
          return true;
        }
        applied := applied - {version};
        todo := todo - {version};
      }
      assert forall v :: v in applied && Less(target, v) ==> v in todo;
      NothingLeft(old(applied).Keys, applied.Keys, target, stuck);
      return false;
    }
  }

  function VersionList(files: seq<File>): (r: seq<string>)
    ensures |r| == |files| && forall i :: 0 <= i < |files| ==> r[i] == files[i].version
  {
    seq(|files|, i requires 0 <= i < |files| => files[i].version)
  }

  // What a migrate records, in order.
  function InsertedBy(files: seq<File>, applied: set<string>, target: Option<string>,
                      broken: set<string>): seq<string>
  {
    var pending := Pending(files, applied, target);
    GoingWithin(pending, applied, broken);
    VersionList(pending[..Going(pending, applied, broken)])
  }

  // A migrate records versions in ascending order.
  lemma InsertsAscend(files: seq<File>, applied: set<string>, target: Option<string>, broken: set<string>)
    requires Strict(files)
    ensures var r := InsertedBy(files, applied, target, broken); forall i, j :: 0 <= i < j < |r| ==> Less(r[i], r[j])
  {
    PendingStaysStrict(files, applied, target);
    var pending := Pending(files, applied, target);
    GoingWithin(pending, applied, broken);
    var r := InsertedBy(files, applied, target, broken);
    forall i, j | 0 <= i < j < |r| ensures Less(r[i], r[j]) {
      assert Before(pending[i], pending[j]);
    }
  }

  lemma GoingOneMore(pending: seq<File>, i: nat, applied: set<string>, broken: set<string>)
    requires i < |pending|
    ensures Going(pending[i..], applied, broken) ==
            if pending[i].name in broken || pending[i].version in applied then 0
            else 1 + Going(pending[i + 1..], applied + {pending[i].version}, broken)
  {
    assert pending[i..][1..] == pending[i + 1..];
  }

  // What inserting these files' versions makes of the table and of the insertion order.
  predicate Recorded(files: seq<File>, before: set<string>, listed: seq<string>, after: set<string>,
                     listed': seq<string>)
  {
    after == before + Versions(files) && listed' == listed + VersionList(files)
  }

  lemma RecordedOneMore(files: seq<File>, i: nat, before: set<string>, listed: seq<string>, after: set<string>,
                        listed': seq<string>)
    requires i < |files| && Recorded(files[..i], before, listed, after, listed')
    ensures Recorded(files[..i + 1], before, listed, after + {files[i].version}, listed' + [files[i].version])
  {
    assert files[..i + 1] == files[..i] + [files[i]];
    VersionsOneMore(files[..i], files[i]);
  }

  lemma VersionsOneMore(files: seq<File>, f: File)
    ensures Versions(files + [f]) == Versions(files) + {f.version}
    ensures VersionList(files + [f]) == VersionList(files) + [f.version]
  {
    assert forall g :: g in files + [f] <==> g in files || g == f;
    assert f in files + [f];
  }

  predicate IsGreatest(s: set<string>, m: string) {
    m in s && forall w :: w in s && w != m ==> Less(w, m)
  }

  lemma {:induction false} GreatestExists(s: set<string>)
    requires s != {}
    ensures exists m :: IsGreatest(s, m)
    decreases |s|
  {
    var x :| x in s;
    var rest := s - {x};
    if rest == {} {
      assert forall w :: w in s && w != x ==> w in rest;
      assert IsGreatest(s, x);
    } else {
      GreatestExists(rest);
      var m :| IsGreatest(rest, m);
      GreaterOfTwo(s, x, m);
    }
  }

  lemma GreaterOfTwo(s: set<string>, x: string, m: string)
    requires x in s && IsGreatest(s - {x}, m)
    ensures IsGreatest(s, if Less(m, x) then x else m)
  {
    LessTrichotomy(x, m);
    assert forall w :: w in s && w != x ==> w in s - {x};
    if Less(m, x) {
      forall w | w in s && w != x ensures Less(w, x) {
        if w != m {
          LessTransitive(w, m, x);
        }
      }
    }
  }

  lemma StuckAt(before: set<string>, now: set<string>, target: string, stuck: set<string>, version: string)
    requires version in now && version in stuck && Less(target, version) && now <= before
    requires forall v :: v in before && v !in now ==> Less(target, v) && v !in stuck && Less(version, v)
    requires forall w :: w in now && Less(target, w) && w != version ==> Less(w, version)
    ensures !RollbackSucceeds(before, target, stuck) && RolledBack(before, target, stuck) == now
  {
    forall v | v in before ensures v in now <==> v in RolledBack(before, target, stuck) {
      if v in now && Less(target, v) {
        LessTrichotomy(v, version);
        assert !Less(version, v);
      } else if v !in now {
        forall w | w in before && w in stuck && Less(target, w) ensures Less(w, v) {
          assert w in now;
          if w != version {
            LessTransitive(w, version, v);
          }
        }
      }
    }
  }

  lemma NothingLeft(before: set<string>, now: set<string>, target: string, stuck: set<string>)
    requires now <= before && forall v :: v in now ==> !Less(target, v)
    requires forall v :: v in before && v !in now ==> Less(target, v) && v !in stuck
    ensures RollbackSucceeds(before, target, stuck) && RolledBack(before, target, stuck) == now
  {
  }
}
