/** The migration runner: pending scripts are applied in file order, one transaction each. */
module Migrator {
  import opened Models
  import opened Sorting

  const SUFFIX := ".up.sql"

  // ---------------------------------------------------------------- the files

  predicate LexLeq(a: string, b: string) {
    a == [] || (b != [] && (a[0] < b[0] || (a[0] == b[0] && LexLeq(a[1..], b[1..]))))
  }

  predicate HasSuffix(name: string) {
    |name| >= |SUFFIX| && name[|name| - |SUFFIX|..] == SUFFIX
  }

  function Version(name: string): string {
    if HasSuffix(name) then name[..|name| - |SUFFIX|] else name
  }

  function Scripts(entries: seq<string>): seq<string> {
    if entries == [] then []
    else
      var name := entries[|entries| - 1];
      Scripts(entries[..|entries| - 1]) + if HasSuffix(name) then [name] else []
  }

  lemma {:induction false} LexReflexiveTotal(a: string, b: string)
    ensures LexLeq(a, b) || LexLeq(b, a)
    ensures LexLeq(a, b) && LexLeq(b, a) ==> a == b
  {
    if a != [] && b != [] && a[0] == b[0] {
      LexReflexiveTotal(a[1..], b[1..]);
      assert a == [a[0]] + a[1..] && b == [b[0]] + b[1..];
    }
  }

  lemma {:induction false} LexTransitive(a: string, b: string, c: string)
    requires LexLeq(a, b) && LexLeq(b, c)
    ensures LexLeq(a, c)
  {
    if a != [] && a[0] == b[0] && b[0] == c[0] { LexTransitive(a[1..], b[1..], c[1..]); }
  }

  /** The names first differ at `i`, where `a` has the smaller character. */
  ghost predicate SmallerAt(a: string, b: string, i: int) {
    0 <= i < |a| && i < |b| && a[..i] == b[..i] && a[i] < b[i]
  }

  lemma SmallerInRest(a: string, b: string, i: nat)
    requires a != [] && b != [] && a[0] == b[0]
    ensures SmallerAt(a, b, i + 1) <==> SmallerAt(a[1..], b[1..], i)
  {
    if i < |a[1..]| && i < |b[1..]| {
      assert a[..i + 1] == [a[0]] + a[1..][..i] && b[..i + 1] == [b[0]] + b[1..][..i];
    }
  }

  /** A name comes before those that continue it, and else the first character in which the two differ decides. */
  lemma {:induction false} FirstDifferenceDecides(a: string, b: string)
    ensures LexLeq(a, b) <==> a <= b || exists i :: SmallerAt(a, b, i)
  {
    if a != [] && b != [] {
      if a[0] == b[0] {
        FirstDifferenceDecides(a[1..], b[1..]);
        SamePrefix(a, b);
        if i :| SmallerAt(a, b, i) { SmallerInRest(a, b, i - 1); }
        if i :| SmallerAt(a[1..], b[1..], i) { SmallerInRest(a, b, i); }
      } else {
        assert SmallerAt(a, b, 0) <==> a[0] < b[0];
        assert forall i :: i > 0 && SmallerAt(a, b, i) ==> a[..i][0] == b[..i][0];
      }
    }
  }

  /** The scripts are the names that end in ".up.sql", and their versions are what stands before that. */
  lemma ScriptNames(name: string)
    ensures HasSuffix(name) <==> exists v :: name == v + ".up.sql"
    ensures forall v :: name == v + ".up.sql" ==> Version(name) == v
  {
    if HasSuffix(name) { assert name == name[..|name| - |SUFFIX|] + ".up.sql"; }
    forall v | name == v + ".up.sql" ensures HasSuffix(name) && Version(name) == v {
      assert name[|name| - |SUFFIX|..] == SUFFIX;
    }
  }

  lemma LexIsTotalOrder()
    ensures TotalOrder(LexLeq)
  {
    forall a, b ensures LexLeq(a, b) || LexLeq(b, a)
      ensures LexLeq(a, b) && LexLeq(b, a) ==> a == b
    {
      LexReflexiveTotal(a, b);
    }
    forall a, b, c | LexLeq(a, b) && LexLeq(b, c) ensures LexLeq(a, c) { LexTransitive(a, b, c); }
  }

  /** The scripts of a directory in the order in which they run. */
  ghost function MigrationFiles(entries: seq<string>): seq<string> {
    LexIsTotalOrder();
    Ascending(multiset(Scripts(entries)), LexLeq)
  }

  ghost predicate NoDuplicates(names: seq<string>) {
    forall i, j :: 0 <= i < j < |names| ==> names[i] != names[j]
  }

  /** The versions of these files, in file order: what a run of the program goes through. */
  function VersionsOf(files: seq<string>): (r: seq<string>)
    ensures |r| == |files|
    ensures forall i :: 0 <= i < |r| ==> r[i] == Version(files[i])
  {
    seq(|files|, i requires 0 <= i < |files| => Version(files[i]))
  }

  lemma {:induction false} InScripts(entries: seq<string>, name: string)
    ensures name in Scripts(entries) <==> name in entries && HasSuffix(name)
  {
    if entries != [] {
      InScripts(entries[..|entries| - 1], name);
      assert entries == entries[..|entries| - 1] + [entries[|entries| - 1]];
    }
  }

  lemma {:induction false} ScriptsKeepExactly(entries: seq<string>, name: string)
    ensures multiset(Scripts(entries))[name] == if HasSuffix(name) then multiset(entries)[name] else 0
  {
    if entries != [] {
      ScriptsKeepExactly(entries[..|entries| - 1], name);
      assert entries == entries[..|entries| - 1] + [entries[|entries| - 1]];
    }
  }

  lemma {:induction false} ScriptsCountedOnce(entries: seq<string>, name: string)
    requires NoDuplicates(entries)
    ensures multiset(Scripts(entries))[name] <= 1
  {
    if entries != [] {
      var front, last := entries[..|entries| - 1], entries[|entries| - 1];
      ScriptsCountedOnce(front, name);
      InScripts(front, name);
      assert last !in front;
      assert name in multiset(Scripts(front)) <==> name in Scripts(front);
    }
  }

  lemma VersionDeterminesScript(a: string, b: string)
    requires HasSuffix(a) && HasSuffix(b) && Version(a) == Version(b)
    ensures a == b
  {
    assert a == Version(a) + SUFFIX;
  }

  /** The files of a directory are its scripts, in lexicographic order and with distinct versions. */
  lemma MigrationFilesAreTheScripts(entries: seq<string>)
    requires NoDuplicates(entries)
    ensures var files := MigrationFiles(entries);
            && SortedBy(files, LexLeq) && NoDuplicates(VersionsOf(files))
            && forall name :: name in files <==> name in entries && HasSuffix(name)
  {
    LexIsTotalOrder();
    var files := MigrationFiles(entries);
    forall name ensures name in files <==> name in entries && HasSuffix(name) {
      InScripts(entries, name);
      assert name in multiset(files) <==> name in multiset(Scripts(entries));
    }
    forall i, j | 0 <= i < j < |files| ensures Version(files[i]) != Version(files[j]) {
      ScriptsCountedOnce(entries, files[i]);
      CountedOnceIsDistinct(files, i, j);
      assert files[i] in files && files[j] in files;
      if Version(files[i]) == Version(files[j]) { VersionDeterminesScript(files[i], files[j]); }
    }
  }

  /** Neither version continues the other in a way that sorts before the suffix. */
  predicate OrdersAgree(v: string, w: string) {
    && (v <= w ==> LexLeq(SUFFIX, w[|v|..] + SUFFIX))
    && (w <= v ==> LexLeq(SUFFIX, v[|w|..] + SUFFIX))
  }

  /** Files run in the order of their names, not of their versions: when the two orders agree on two versions. */
  lemma {:induction false} FileOrderIsVersionOrderExactly(v: string, w: string)
    requires v != w
    ensures (LexLeq(v + SUFFIX, w + SUFFIX) <==> LexLeq(v, w)) <==> OrdersAgree(v, w)
  {
    if v == [] || w == [] {
      EmptyVersionOrder(v, w);
    } else {
      assert (v + SUFFIX)[1..] == v[1..] + SUFFIX && (w + SUFFIX)[1..] == w[1..] + SUFFIX;
      assert v == [v[0]] + v[1..] && w == [w[0]] + w[1..];
      if v[0] == w[0] {
        FileOrderIsVersionOrderExactly(v[1..], w[1..]);
        SamePrefix(v, w);
        SamePrefix(w, v);
      }
    }
  }

  lemma SamePrefix(v: string, w: string)
    requires v != [] && w != [] && v[0] == w[0]
    ensures v <= w <==> v[1..] <= w[1..]
    ensures v <= w ==> w[|v|..] == w[1..][|v[1..]|..]
  {
    assert v == [v[0]] + v[1..] && w == [w[0]] + w[1..];
  }

  lemma EmptyVersionOrder(v: string, w: string)
    requires v != w && (v == [] || w == [])
    ensures (LexLeq(v + SUFFIX, w + SUFFIX) <==> LexLeq(v, w)) <==> OrdersAgree(v, w)
  {
    if v == [] {
      assert v + SUFFIX == SUFFIX && w[|v|..] == w;
    } else {
      assert w + SUFFIX == SUFFIX && v[|w|..] == v;
      assert |v + SUFFIX| > |SUFFIX|;
      LexReflexiveTotal(v + SUFFIX, SUFFIX);
    }
  }

  lemma ScriptOrder(a: string, b: string)
    requires HasSuffix(a) && HasSuffix(b) && Version(a) != Version(b)
    ensures (LexLeq(a, b) <==> LexLeq(Version(a), Version(b))) <==> OrdersAgree(Version(a), Version(b))
  {
    hide LexLeq, OrdersAgree;
    assert a == Version(a) + SUFFIX && b == Version(b) + SUFFIX;
    FileOrderIsVersionOrderExactly(Version(a), Version(b));
  }

  /** The scripts of these entries are pairwise in the same order by name and by version. */
  ghost predicate AllOrdersAgree(entries: seq<string>) {
    forall a, b :: a in entries && b in entries && HasSuffix(a) && HasSuffix(b) && a != b ==>
                     OrdersAgree(Version(a), Version(b))
  }

  /** A directory's scripts run in the order of their versions exactly when the two orders agree on all of them. */
  lemma RunsInVersionOrderExactly(entries: seq<string>)
    requires NoDuplicates(entries)
    ensures SortedBy(VersionsOf(MigrationFiles(entries)), LexLeq) <==> AllOrdersAgree(entries)
  {
    hide LexLeq, OrdersAgree, HasSuffix, Version;
    var files := MigrationFiles(entries);
    var versions := VersionsOf(files);
    MigrationFilesAreTheScripts(entries);
    if SortedBy(versions, LexLeq) {
      forall a, b | a in entries && b in entries && HasSuffix(a) && HasSuffix(b) && a != b
        ensures OrdersAgree(Version(a), Version(b))
      {
        assert a in files && b in files;
        var i, j :| 0 <= i < |files| && 0 <= j < |files| && a == files[i] && b == files[j];
        if i < j { InOrderAgree(files, i, j); } else { InOrderAgree(files, j, i); }
        OrdersAgreeSymmetric(a, b);
      }
    }
    if AllOrdersAgree(entries) {
      forall i, j | 0 <= i < j < |files| ensures LexLeq(versions[i], versions[j]) {
        assert files[i] in files && files[j] in files && versions[i] != versions[j];
        ScriptOrder(files[i], files[j]);
      }
    }
  }

  lemma OrdersAgreeSymmetric(a: string, b: string)
    ensures OrdersAgree(Version(a), Version(b)) <==> OrdersAgree(Version(b), Version(a))
  {
  }

  lemma InOrderAgree(files: seq<string>, i: nat, j: nat)
    requires i < j < |files| && HasSuffix(files[i]) && HasSuffix(files[j])
    requires SortedBy(files, LexLeq) && SortedBy(VersionsOf(files), LexLeq) && NoDuplicates(VersionsOf(files))
    ensures OrdersAgree(Version(files[i]), Version(files[j]))
  {
    hide LexLeq, OrdersAgree, HasSuffix, Version;
    assert VersionsOf(files)[i] != VersionsOf(files)[j];
    ScriptOrder(files[i], files[j]);
  }

  // ---------------------------------------------------------------- one transaction

  /** The committed state: the recorded versions and, in commit order, the scripts whose effects are in the schema. */
  datatype Db = Db(applied: set<string>, log: seq<string>)

  /** What happens to one script; the last is a commit that took effect though its caller saw an error. */
  datatype Fate =
    | Commits
    | ReadFails
    | BeginFails
    | ExecFails
    | RecordFails
    | CommitFails
    | CommitsUnseen

  /** Script and record take effect together or not at all; a version already recorded violates the primary key. */
  function Attempt(db: Db, version: string, fate: Fate): (Db, bool) {
    if (fate.Commits? || fate.CommitsUnseen?) && version !in db.applied
    then (Db(db.applied + {version}, db.log + [version]), fate.Commits?)
    else (db, false)
  }

  /** Only a commit of a version that is not recorded changes anything, also one that its caller sees fail. */
  lemma AttemptByFate(db: Db, version: string, fate: Fate)
    ensures var (db', ok) := Attempt(db, version, fate);
            && (ok <==> fate == Commits && version !in db.applied)
            && (fate in {ReadFails, BeginFails, ExecFails, RecordFails, CommitFails} ==> db' == db)
            && (version in db.applied ==> db' == db)
            && (fate in {Commits, CommitsUnseen} && version !in db.applied ==>
                  db'.log == db.log + [version] && db'.applied == db.applied + {version})
  {
  }

  // ---------------------------------------------------------------- any number of runners

  /** A running or stopped process: the versions it read as applied, and the index of its next version. */
  datatype Runner = Runner(snapshot: set<string>, next: nat, running: bool)

  datatype System = System(db: Db, runners: map<nat, Runner>)

  datatype Event = Launch(id: nat) | Advance(id: nat, fate: Fate)

  predicate Active(versions: seq<string>, s: System, id: nat) {
    id in s.runners && s.runners[id].running && s.runners[id].next < |versions|
  }

  function Step(versions: seq<string>, s: System, e: Event): System {
    match e
    case Launch(id) => s.(runners := s.runners[id := Runner(s.db.applied, 0, true)])
    case Advance(id, fate) =>
      if !Active(versions, s, id) then s
      else
        var r := s.runners[id];
        var version := versions[r.next];
        if version in r.snapshot then s.(runners := s.runners[id := r.(next := r.next + 1)])
        else
          var (db, ok) := Attempt(s.db, version, fate);
          System(db, s.runners[id := if ok then r.(next := r.next + 1) else r.(running := false)])
  }

  function Run(versions: seq<string>, s: System, events: seq<Event>): System {
    if events == [] then s else Step(versions, Run(versions, s, events[..|events| - 1]), events[|events| - 1])
  }

  /** Those of the first `n` versions that are not yet applied, in file order. */
  function PendingUpTo(applied: set<string>, versions: seq<string>, n: nat): seq<string>
    requires n <= |versions|
  {
    if n == 0 then []
    else
      var version := versions[n - 1];
      PendingUpTo(applied, versions, n - 1) + if version in applied then [] else [version]
  }

  function Pending(applied: set<string>, versions: seq<string>): seq<string> {
    PendingUpTo(applied, versions, |versions|)
  }

  function FirstVersions(versions: seq<string>, n: nat): set<string>
    requires n <= |versions|
  {
    if n == 0 then {} else FirstVersions(versions, n - 1) + {versions[n - 1]}
  }

  function AllVersions(versions: seq<string>): set<string> {
    FirstVersions(versions, |versions|)
  }

  lemma {:induction false} VersionsGrow(versions: seq<string>, m: nat, n: nat)
    requires m <= n <= |versions|
    ensures FirstVersions(versions, m) <= FirstVersions(versions, n)
  {
    if m < n { VersionsGrow(versions, m, n - 1); }
  }

  lemma {:induction false} LaterVersionIsNew(versions: seq<string>, n: nat, i: nat)
    requires NoDuplicates(versions) && n <= i < |versions|
    ensures versions[i] !in FirstVersions(versions, n)
  {
    if n > 0 { LaterVersionIsNew(versions, n - 1, i); }
  }

  /** The first `m` files are done: all their versions are recorded, and the pending ones were committed in order. */
  ghost predicate DoneUpTo(versions: seq<string>, db0: Db, db: Db, m: nat) {
    && m <= |versions|
    && db.applied == db0.applied + FirstVersions(versions, m)
    && db.log == db0.log + PendingUpTo(db0.applied, versions, m)
  }

  /** What a runner has seen or passed is recorded. */
  ghost predicate RunnerBehind(versions: seq<string>, db: Db, r: Runner) {
    && r.snapshot <= db.applied
    && r.next <= |versions|
    && FirstVersions(versions, r.next) <= db.applied
  }

  ghost predicate Consistent(versions: seq<string>, db0: Db, s: System, m: nat) {
    && DoneUpTo(versions, db0, s.db, m)
    && forall id :: id in s.runners ==> RunnerBehind(versions, s.db, s.runners[id])
  }

  /** Files whose versions are applied already add nothing to what is pending. */
  lemma {:induction false} PendingSkipsApplied(versions: seq<string>, db0: Db, m: nat, n: nat)
    requires NoDuplicates(versions) && m <= n <= |versions|
    requires FirstVersions(versions, n) <= db0.applied + FirstVersions(versions, m)
    ensures PendingUpTo(db0.applied, versions, n) == PendingUpTo(db0.applied, versions, m)
  {
    if m < n {
      LaterVersionIsNew(versions, m, n - 1);
      PendingSkipsApplied(versions, db0, m, n - 1);
    }
  }

  lemma CommitExtendsPrefix(versions: seq<string>, db0: Db, db: Db, m: nat, next: nat)
    requires NoDuplicates(versions) && DoneUpTo(versions, db0, db, m) && next < |versions|
    requires FirstVersions(versions, next) <= db.applied && versions[next] !in db.applied
    ensures var v := versions[next];
            DoneUpTo(versions, db0, Db(db.applied + {v}, db.log + [v]), next + 1)
  {
    if next < m { VersionsGrow(versions, next + 1, m); }
    VersionsGrow(versions, m, next);
    PendingSkipsApplied(versions, db0, m, next);
  }

  lemma StepConsistent(versions: seq<string>, db0: Db, s: System, m: nat, e: Event) returns (m': nat)
    requires NoDuplicates(versions) && Consistent(versions, db0, s, m)
    ensures Consistent(versions, db0, Step(versions, s, e), m')
  {
    hide PendingUpTo;
    m' := m;
    if e.Advance? && Active(versions, s, e.id) {
      var r := s.runners[e.id];
      assert RunnerBehind(versions, s.db, r);
      var version := versions[r.next];
      if version !in r.snapshot && Attempt(s.db, version, e.fate).0 != s.db {
        CommitExtendsPrefix(versions, db0, s.db, m, r.next);
        m' := r.next + 1;
      }
    }
  }

  lemma {:induction false} RunConsistent(versions: seq<string>, db0: Db, events: seq<Event>) returns (m: nat)
    requires NoDuplicates(versions)
    ensures Consistent(versions, db0, Run(versions, System(db0, map[]), events), m)
  {
    if events == [] {
      m := 0;
    } else {
      var k := RunConsistent(versions, db0, events[..|events| - 1]);
      var s := Run(versions, System(db0, map[]), events[..|events| - 1]);
      m := StepConsistent(versions, db0, s, k, events[|events| - 1]);
    }
  }

  lemma {:induction false} PendingPrefix(applied: set<string>, versions: seq<string>, m: nat, n: nat)
    requires m <= n <= |versions|
    ensures PendingUpTo(applied, versions, m) <= PendingUpTo(applied, versions, n)
  {
    if m < n { PendingPrefix(applied, versions, m, n - 1); }
  }

  lemma {:induction false} PendingOnce(applied: set<string>, versions: seq<string>, n: nat)
    requires NoDuplicates(versions) && n <= |versions|
    ensures NoDuplicates(PendingUpTo(applied, versions, n))
    ensures forall v :: v in PendingUpTo(applied, versions, n) <==> v in FirstVersions(versions, n) && v !in applied
  {
    if n > 0 {
      PendingOnce(applied, versions, n - 1);
      LaterVersionIsNew(versions, n - 1, n - 1);
    }
  }

  /**
   * However many runners are launched, interleaved, failed or relaunched, the scripts committed so far are a
   * prefix of the initially pending ones, each once.
   */
  lemma CommittedIsPrefixOfPending(versions: seq<string>, db0: Db, events: seq<Event>)
    requires NoDuplicates(versions)
    ensures var db := Run(versions, System(db0, map[]), events).db;
            && db0.log <= db.log
            && db.log[|db0.log|..] <= Pending(db0.applied, versions)
            && NoDuplicates(db.log[|db0.log|..])
            && db.applied == db0.applied + set v | v in db.log[|db0.log|..]
  {
    var m := RunConsistent(versions, db0, events);
    var db := Run(versions, System(db0, map[]), events).db;
    var done := PendingUpTo(db0.applied, versions, m);
    assert db.log[|db0.log|..] == done;
    PendingPrefix(db0.applied, versions, m, |versions|);
    PendingOnce(db0.applied, versions, m);
    forall v ensures v in db.applied <==> v in db0.applied + set v | v in done {
      assert v in done <==> v in FirstVersions(versions, m) && v !in db0.applied;
    }
  }

  /** When a runner gets past the last file, every initially pending script is committed. */
  lemma SuccessCommitsAllPending(versions: seq<string>, db0: Db, events: seq<Event>, id: nat)
    requires NoDuplicates(versions)
    requires var s := Run(versions, System(db0, map[]), events);
             id in s.runners && s.runners[id].next == |versions|
    ensures var db := Run(versions, System(db0, map[]), events).db;
            db.log == db0.log + Pending(db0.applied, versions) && AllVersions(versions) <= db.applied
  {
    var m := RunConsistent(versions, db0, events);
    var s := Run(versions, System(db0, map[]), events);
    assert RunnerBehind(versions, s.db, s.runners[id]);
    PendingSkipsApplied(versions, db0, m, |versions|);
  }

  lemma NothingLeftToCommit(versions: seq<string>, s: System, e: Event)
    requires AllVersions(versions) <= s.db.applied
    ensures Step(versions, s, e).db == s.db
  {
    if e.Advance? && Active(versions, s, e.id) { VersionsGrow(versions, s.runners[e.id].next + 1, |versions|); }
  }

  /** After a success, nothing that any runner does changes the database any more. */
  lemma {:induction false} SuccessIsFinal(versions: seq<string>, db0: Db, events: seq<Event>, id: nat, more: seq<Event>)
    requires NoDuplicates(versions)
    requires var s := Run(versions, System(db0, map[]), events);
             id in s.runners && s.runners[id].next == |versions|
    ensures Run(versions, System(db0, map[]), events + more).db == Run(versions, System(db0, map[]), events).db
    decreases |more|
  {
    if more == [] {
      assert events + more == events;
    } else {
      var front, last := more[..|more| - 1], more[|more| - 1];
      SuccessIsFinal(versions, db0, events, id, front);
      SuccessCommitsAllPending(versions, db0, events, id);
      assert (events + more)[..|events + more| - 1] == events + front;
      NothingLeftToCommit(versions, Run(versions, System(db0, map[]), events + front), last);
    }
  }

  // ---------------------------------------------------------------- one run of the program

  /** One runner that handles the first `n` files, with a fate for each file index. */
  function Solo(fates: nat -> Fate, n: nat): (r: seq<Event>)
    ensures r != []
  {
    if n == 0 then [Launch(0)] else Solo(fates, n - 1) + [Advance(0, fates(n - 1))]
  }

  function SoloRun(versions: seq<string>, db: Db, fates: nat -> Fate, n: nat): System {
    Run(versions, System(db, map[]), Solo(fates, n))
  }

  lemma SoloStarts(versions: seq<string>, db: Db, fates: nat -> Fate)
    ensures SoloRun(versions, db, fates, 0) == System(db, map[0 := Runner(db.applied, 0, true)])
  {
    assert [Launch(0)][..0] == [];
    assert Run(versions, System(db, map[]), [Launch(0)][..0]) == System(db, map[]);
  }

  lemma SoloAdvances(versions: seq<string>, db: Db, fates: nat -> Fate, n: nat)
    ensures SoloRun(versions, db, fates, n + 1) == Step(versions, SoloRun(versions, db, fates, n), Advance(0, fates(n)))
  {
    assert Solo(fates, n + 1)[..|Solo(fates, n + 1)| - 1] == Solo(fates, n);
  }

  /** What the loop body does to its own runner. */
  lemma SoloStep(versions: seq<string>, db: Db, snapshot: set<string>, i: nat, fate: Fate)
    requires i < |versions|
    ensures var s := System(db, map[0 := Runner(snapshot, i, true)]);
            var (db', ok) := Attempt(db, versions[i], fate);
            Step(versions, s, Advance(0, fate))
            == if versions[i] in snapshot || ok
               then System(if ok && versions[i] !in snapshot then db' else db, map[0 := Runner(snapshot, i + 1, true)])
               else System(db', map[0 := Runner(snapshot, i, false)])
  {
    var r := Runner(snapshot, i, true);
    assert map[0 := r][0 := r.(next := i + 1)] == map[0 := r.(next := i + 1)];
    assert map[0 := r][0 := r.(running := false)] == map[0 := r.(running := false)];
  }

  lemma {:induction false} StoppedStays(versions: seq<string>, db: Db, fates: nat -> Fate, m: nat, n: nat)
    requires m <= n && !Active(versions, SoloRun(versions, db, fates, m), 0)
    ensures SoloRun(versions, db, fates, n) == SoloRun(versions, db, fates, m)
  {
    if m < n {
      StoppedStays(versions, db, fates, m, n - 1);
      SoloAdvances(versions, db, fates, n - 1);
    }
  }

  /** No pending script among the first `n` meets a failure. */
  ghost predicate Unhindered(versions: seq<string>, applied: set<string>, fates: nat -> Fate, n: nat)
    requires n <= |versions|
  {
    forall i :: 0 <= i < n && versions[i] !in applied ==> fates(i).Commits?
  }

  lemma OneScript(versions: seq<string>, db0: Db, db: Db, i: nat, fate: Fate)
    requires NoDuplicates(versions) && i < |versions| && DoneUpTo(versions, db0, db, i)
    ensures versions[i] in db0.applied ==> DoneUpTo(versions, db0, db, i + 1)
    ensures versions[i] !in db0.applied ==>
              var (db', ok) := Attempt(db, versions[i], fate);
              && ok == fate.Commits? && (ok ==> DoneUpTo(versions, db0, db', i + 1))
              && (!ok ==> DoneUpToFailure(versions, db0, db', i, fate))
  {
    LaterVersionIsNew(versions, i, i);
  }

  /** Script `i` is pending and is the first to meet a failure. */
  ghost predicate FirstFailure(versions: seq<string>, applied: set<string>, fates: nat -> Fate, i: int) {
    && 0 <= i < |versions| && versions[i] !in applied && !fates(i).Commits?
    && forall j :: 0 <= j < i && versions[j] !in applied ==> fates(j).Commits?
  }

  /** The first `i` files are done, and script `i` too when its failed commit took effect. */
  ghost predicate DoneUpToFailure(versions: seq<string>, db0: Db, db: Db, i: nat, fate: Fate)
    requires i < |versions|
  {
    var unseen := if fate.CommitsUnseen? then [versions[i]] else [];
    && db.log == db0.log + PendingUpTo(db0.applied, versions, i) + unseen
    && db.applied == db0.applied + FirstVersions(versions, i) + set v | v in unseen
  }

  ghost predicate StoppedAt(versions: seq<string>, db: Db, fates: nat -> Fate, i: int, s: System) {
    && FirstFailure(versions, db.applied, fates, i)
    && DoneUpToFailure(versions, db, s.db, i, fates(i))
    && s.runners == map[0 := Runner(db.applied, i, false)]
  }

  /** Where a run stands after `n` scripts: all done so far, or stopped at the first failure. */
  ghost predicate StandsAt(versions: seq<string>, db: Db, fates: nat -> Fate, n: nat, s: System)
    requires n <= |versions|
  {
    if Unhindered(versions, db.applied, fates, n)
    then DoneUpTo(versions, db, s.db, n) && s.runners == map[0 := Runner(db.applied, n, true)]
    else exists i :: 0 <= i < n && StoppedAt(versions, db, fates, i, s)
  }

  lemma UnhinderedStep(versions: seq<string>, db: Db, fates: nat -> Fate, n: nat, s: System)
    requires NoDuplicates(versions) && n < |versions|
    requires Unhindered(versions, db.applied, fates, n) && StandsAt(versions, db, fates, n, s)
    ensures StandsAt(versions, db, fates, n + 1, Step(versions, s, Advance(0, fates(n))))
  {
    OneScript(versions, db, s.db, n, fates(n));
    SoloStep(versions, s.db, db.applied, n, fates(n));
    hide DoneUpTo, DoneUpToFailure, Attempt, Step;
    assert s == System(s.db, map[0 := Runner(db.applied, n, true)]);
    var s' := Step(versions, s, Advance(0, fates(n)));
    if !Unhindered(versions, db.applied, fates, n + 1) { assert StoppedAt(versions, db, fates, n, s'); }
  }

  lemma StoppedStep(versions: seq<string>, db: Db, fates: nat -> Fate, n: nat, s: System)
    requires n < |versions|
    requires !Unhindered(versions, db.applied, fates, n) && StandsAt(versions, db, fates, n, s)
    ensures StandsAt(versions, db, fates, n + 1, Step(versions, s, Advance(0, fates(n))))
  {
    hide DoneUpTo, DoneUpToFailure, FirstFailure;
    var i :| 0 <= i < n && StoppedAt(versions, db, fates, i, s);
    assert StoppedAt(versions, db, fates, i, Step(versions, s, Advance(0, fates(n))));
  }

  lemma SoloStandsAtStart(versions: seq<string>, db: Db, fates: nat -> Fate)
    ensures StandsAt(versions, db, fates, 0, SoloRun(versions, db, fates, 0))
  {
    SoloStarts(versions, db, fates);
    hide SoloRun;
    assert PendingUpTo(db.applied, versions, 0) == [] && FirstVersions(versions, 0) == {};
  }

  lemma {:induction false} SoloProgress(versions: seq<string>, db: Db, fates: nat -> Fate, n: nat)
    requires NoDuplicates(versions) && n <= |versions|
    ensures StandsAt(versions, db, fates, n, SoloRun(versions, db, fates, n))
  {
    hide *;
    if n == 0 {
      SoloStandsAtStart(versions, db, fates);
    } else {
      SoloProgress(versions, db, fates, n - 1);
      SoloAdvances(versions, db, fates, n - 1);
      var s := SoloRun(versions, db, fates, n - 1);
      if Unhindered(versions, db.applied, fates, n - 1) {
        UnhinderedStep(versions, db, fates, n - 1, s);
      } else {
        StoppedStep(versions, db, fates, n - 1, s);
      }
    }
  }

  /**
   * What a run did: it succeeds exactly when no pending script meets a failure, and then has committed all of them;
   * else those before the first failure, and that script only when its commit failed after it took effect.
   */
  ghost predicate CommitsUpToFailure(versions: seq<string>, before: Db, fates: nat -> Fate, after: Db, ok: bool) {
    && (ok <==> forall i :: 0 <= i < |versions| && versions[i] !in before.applied ==> fates(i).Commits?)
    && (ok ==> after.log == before.log + Pending(before.applied, versions))
    && (forall i :: FirstFailure(versions, before.applied, fates, i) ==>
                      after.log == before.log + PendingUpTo(before.applied, versions, i)
                                   + if fates(i).CommitsUnseen? then [versions[i]] else [])
    && before.log <= after.log
    && after.applied == before.applied + set v | v in after.log[|before.log|..]
  }

  lemma DoneIsRecorded(versions: seq<string>, before: Db, after: Db, m: nat, unseen: seq<string>)
    requires NoDuplicates(versions) && m <= |versions|
    requires after.log == before.log + PendingUpTo(before.applied, versions, m) + unseen
    requires after.applied == before.applied + FirstVersions(versions, m) + set v | v in unseen
    ensures before.log <= after.log
    ensures after.applied == before.applied + set v | v in after.log[|before.log|..]
  {
    PendingOnce(before.applied, versions, m);
    assert after.log[|before.log|..] == PendingUpTo(before.applied, versions, m) + unseen;
  }

  lemma FirstFailureUnique(versions: seq<string>, applied: set<string>, fates: nat -> Fate, i: int, j: int)
    requires FirstFailure(versions, applied, fates, i) && FirstFailure(versions, applied, fates, j)
    ensures i == j
  {
  }

  /** Undisturbed by others, a run succeeds exactly when no pending script meets a failure. */
  lemma SoloSucceedsExactly(versions: seq<string>, db: Db, fates: nat -> Fate)
    requires NoDuplicates(versions)
    ensures var s := SoloRun(versions, db, fates, |versions|);
            0 in s.runners && CommitsUpToFailure(versions, db, fates, s.db, s.runners[0].next == |versions|)
  {
    SoloProgress(versions, db, fates, |versions|);
    StandingIsOutcome(versions, db, fates, SoloRun(versions, db, fates, |versions|));
  }

  lemma StandingIsOutcome(versions: seq<string>, db: Db, fates: nat -> Fate, s: System)
    requires NoDuplicates(versions) && StandsAt(versions, db, fates, |versions|, s)
    ensures 0 in s.runners && CommitsUpToFailure(versions, db, fates, s.db, s.runners[0].next == |versions|)
  {
    hide PendingUpTo, FirstVersions;
    if Unhindered(versions, db.applied, fates, |versions|) {
      DoneIsRecorded(versions, db, s.db, |versions|, []);
    } else {
      var i :| 0 <= i < |versions| && StoppedAt(versions, db, fates, i, s);
      DoneIsRecorded(versions, db, s.db, i, if fates(i).CommitsUnseen? then [versions[i]] else []);
      forall j | FirstFailure(versions, db.applied, fates, j) ensures j == i {
        FirstFailureUnique(versions, db.applied, fates, i, j);
      }
    }
  }

  // ---------------------------------------------------------------- a series of runs of the program

  /** One call: how listing the directory and reading the applied versions turn out, and the fates of the scripts. */
  datatype Invocation = Invocation(listing: Outcome<seq<string>>, readable: bool, fates: nat -> Fate)

  /** The call finds these files if it can list the directory at all. */
  ghost predicate Finds(files: seq<string>, c: Invocation) {
    c.listing.Ok? ==> MigrationFiles(c.listing.value) == files
  }

  /** The call gets as far as its loop over the files. */
  ghost predicate Proceeds(c: Invocation) {
    c.listing.Ok? && MigrationFiles(c.listing.value) != [] && c.readable
  }

  ghost function AfterCall(db: Db, c: Invocation): Db {
    if !Proceeds(c) then db
    else
      var versions := VersionsOf(MigrationFiles(c.listing.value));
      SoloRun(versions, db, c.fates, |versions|).db
  }

  ghost function AfterCalls(db: Db, calls: seq<Invocation>): Db {
    if calls == [] then db else AfterCall(AfterCalls(db, calls[..|calls| - 1]), calls[|calls| - 1])
  }

  /** A series of calls as events of the protocol: the only runner is launched anew by each call that proceeds. */
  ghost function EventsOf(versions: seq<string>, calls: seq<Invocation>): seq<Event> {
    if calls == [] then []
    else
      var c := calls[|calls| - 1];
      EventsOf(versions, calls[..|calls| - 1]) + if Proceeds(c) then Solo(c.fates, |versions|) else []
  }

  lemma {:induction false} RunConcat(versions: seq<string>, s: System, a: seq<Event>, b: seq<Event>)
    ensures Run(versions, s, a + b) == Run(versions, Run(versions, s, a), b)
  {
    if b == [] {
      assert a + b == a;
    } else {
      assert (a + b)[..|a + b| - 1] == a + b[..|b| - 1];
      RunConcat(versions, s, a, b[..|b| - 1]);
    }
  }

  /** A relaunch forgets the runner it replaces and does not depend on any other. */
  lemma {:induction false} RelaunchIsFresh(versions: seq<string>, s: System, fates: nat -> Fate, n: nat)
    ensures var solo := SoloRun(versions, s.db, fates, n);
            && solo.runners.Keys == {0}
            && Run(versions, s, Solo(fates, n)) == System(solo.db, s.runners + solo.runners)
  {
    if n == 0 {
      SoloStarts(versions, s.db, fates);
      assert [Launch(0)][..0] == [];
      assert Run(versions, s, [Launch(0)][..0]) == s;
      var r := Runner(s.db.applied, 0, true);
      assert s.runners[0 := r] == s.runners + map[0 := r];
    } else {
      hide Step, SoloRun;
      RelaunchIsFresh(versions, s, fates, n - 1);
      SoloAdvances(versions, s.db, fates, n - 1);
      assert Solo(fates, n)[..|Solo(fates, n)| - 1] == Solo(fates, n - 1);
      AdvanceIgnoresOthers(versions, SoloRun(versions, s.db, fates, n - 1), s.runners, fates(n - 1));
    }
  }

  lemma AdvanceIgnoresOthers(versions: seq<string>, solo: System, others: map<nat, Runner>, fate: Fate)
    requires solo.runners.Keys == {0}
    ensures var next := Step(versions, solo, Advance(0, fate));
            && next.runners.Keys == {0}
            && Step(versions, System(solo.db, others + solo.runners), Advance(0, fate))
               == System(next.db, others + next.runners)
  {
    var next := Step(versions, solo, Advance(0, fate));
    var both := Step(versions, System(solo.db, others + solo.runners), Advance(0, fate));
    assert both.runners == others + next.runners;
  }

  lemma {:induction false} CallsAreOneRun(files: seq<string>, db: Db, calls: seq<Invocation>)
    requires forall i :: 0 <= i < |calls| ==> Finds(files, calls[i])
    ensures var versions := VersionsOf(files);
            AfterCalls(db, calls) == Run(versions, System(db, map[]), EventsOf(versions, calls)).db
  {
    if calls != [] {
      var front, c, versions := calls[..|calls| - 1], calls[|calls| - 1], VersionsOf(files);
      CallsAreOneRun(files, db, front);
      var s := Run(versions, System(db, map[]), EventsOf(versions, front));
      if Proceeds(c) {
        RunConcat(versions, System(db, map[]), EventsOf(versions, front), Solo(c.fates, |versions|));
        RelaunchIsFresh(versions, s, c.fates, |versions|);
      } else {
        assert EventsOf(versions, front) + [] == EventsOf(versions, front);
      }
    }
  }

  /**
   * After any series of calls on one set of files, each of which may fail anywhere, the scripts committed so far are
   * a prefix of the initially pending ones, each once.
   */
  lemma CallsCommitPrefixOfPending(entries: seq<string>, db0: Db, calls: seq<Invocation>)
    requires NoDuplicates(entries)
    requires forall i :: 0 <= i < |calls| ==> Finds(MigrationFiles(entries), calls[i])
    ensures var db := AfterCalls(db0, calls);
            && db0.log <= db.log
            && db.log[|db0.log|..] <= Pending(db0.applied, VersionsOf(MigrationFiles(entries)))
            && NoDuplicates(db.log[|db0.log|..])
            && db.applied == db0.applied + set v | v in db.log[|db0.log|..]
  {
    var files := MigrationFiles(entries);
    MigrationFilesAreTheScripts(entries);
    CallsAreOneRun(files, db0, calls);
    CommittedIsPrefixOfPending(VersionsOf(files), db0, EventsOf(VersionsOf(files), calls));
  }

  /** What one call does, by itself: nothing without the files and the table, and else its run. */
  lemma CallCommitsUpToFailure(db: Db, c: Invocation)
    requires c.listing.Ok? ==> NoDuplicates(c.listing.value)
    ensures !c.listing.Ok? || !c.readable ==> AfterCall(db, c) == db
    ensures c.listing.Ok? && c.readable ==>
              var versions := VersionsOf(MigrationFiles(c.listing.value));
              var clean := Unhindered(versions, db.applied, c.fates, |versions|);
              CommitsUpToFailure(versions, db, c.fates, AfterCall(db, c), clean)
  {
    if c.listing.Ok? && c.readable {
      var versions := VersionsOf(MigrationFiles(c.listing.value));
      MigrationFilesAreTheScripts(c.listing.value);
      if versions == [] { NothingToRun(db, c.fates); } else { SoloSucceedsExactly(versions, db, c.fates); }
    }
  }

  lemma NothingToRun(db: Db, fates: nat -> Fate)
    ensures CommitsUpToFailure([], db, fates, db, true)
  {
    assert db.log + [] == db.log;
  }

  /**
   * However many calls failed before, and wherever: one call that meets no failure leaves all initially pending scripts
   * committed, in order and each once.
   */
  lemma OneCleanCallCompletes(entries: seq<string>, db0: Db, calls: seq<Invocation>, c: Invocation)
    requires NoDuplicates(entries)
    requires forall i :: 0 <= i < |calls| ==> Finds(MigrationFiles(entries), calls[i])
    requires c.listing == Ok(entries) && c.readable
    requires var versions := VersionsOf(MigrationFiles(entries));
             Unhindered(versions, AfterCalls(db0, calls).applied, c.fates, |versions|)
    ensures AfterCalls(db0, calls + [c]).log == db0.log + Pending(db0.applied, VersionsOf(MigrationFiles(entries)))
  {
    hide *;
    var files := MigrationFiles(entries);
    var versions, s := VersionsOf(files), System(db0, map[]);
    MigrationFilesAreTheScripts(entries);
    FindsOwnFiles(entries, c);
    CallsAreOneRun(files, db0, calls);
    CallsAreOneRun(files, db0, calls + [c]);
    EventsOfCleanCall(versions, calls, c);
    if files == [] {
      NothingIsPending(db0.applied);
      CallsCommitPrefixOfPending(entries, db0, calls + [c]);
    } else {
      var events := EventsOf(versions, calls);
      RunConcat(versions, s, events, Solo(c.fates, |versions|));
      CleanRelaunchSucceeds(versions, Run(versions, s, events), c.fates);
      SuccessCommitsAllPending(versions, db0, events + Solo(c.fates, |versions|), 0);
    }
  }

  lemma NothingIsPending(applied: set<string>)
    ensures Pending(applied, []) == []
  {
  }

  lemma FindsOwnFiles(entries: seq<string>, c: Invocation)
    requires c.listing == Ok(entries)
    ensures Finds(MigrationFiles(entries), c)
    ensures c.readable ==> (Proceeds(c) <==> MigrationFiles(entries) != [])
  {
  }

  lemma EventsOfCleanCall(versions: seq<string>, calls: seq<Invocation>, c: Invocation)
    ensures EventsOf(versions, calls + [c])
            == EventsOf(versions, calls) + if Proceeds(c) then Solo(c.fates, |versions|) else []
  {
    assert (calls + [c])[..|calls|] == calls;
  }

  lemma CleanRelaunchSucceeds(versions: seq<string>, s: System, fates: nat -> Fate)
    requires NoDuplicates(versions) && Unhindered(versions, s.db.applied, fates, |versions|)
    ensures var s' := Run(versions, s, Solo(fates, |versions|)); 0 in s'.runners && s'.runners[0].next == |versions|
  {
    hide Run, SoloRun, Solo;
    SoloSucceedsExactly(versions, s.db, fates);
    RelaunchIsFresh(versions, s, fates, |versions|);
  }

  method GetMigrationFiles(entries: seq<string>) returns (migrations: seq<string>)
    ensures migrations == MigrationFiles(entries)
    ensures SortedBy(migrations, LexLeq)
    ensures forall name :: multiset(migrations)[name] == if HasSuffix(name) then multiset(entries)[name] else 0
  {
    forall name ensures multiset(Scripts(entries))[name] == if HasSuffix(name) then multiset(entries)[name] else 0 {
      ScriptsKeepExactly(entries, name);
    }
    migrations := [];
    for i := 0 to |entries|
      invariant migrations == Scripts(entries[..i])
    {
      assert entries[..i + 1][..i] == entries[..i];
      if HasSuffix(entries[i]) { migrations := migrations + [entries[i]]; }
    }
    assert entries[..|entries|] == entries;
    LexIsTotalOrder();
    SortIsAscending(migrations, LexLeq);
    migrations := Sort(migrations, LexLeq);
  }

  class Database {
    var applied: set<string>
    var log: seq<string>

    function State(): Db
      reads this
    {
      Db(applied, log)
    }

    constructor ()
      ensures State() == Db({}, []) && applied == {} && log == []
    {
      applied, log := {}, [];
    }

    /** The transaction of one script; a rollback, or a commit that fails, drops what it did. */
    method ApplyScript(version: string, fate: Fate) returns (r: Outcome<()>)
      modifies this
      ensures State() == Attempt(old(State()), version, fate).0
      ensures r.Ok? == Attempt(old(State()), version, fate).1 && !r.Panic?
      ensures r.Ok? <==> fate == Commits && version !in old(applied)
      ensures if fate in {Commits, CommitsUnseen} && version !in old(applied)
              then log == old(log) + [version] && applied == old(applied) + {version}
              else log == old(log) && applied == old(applied)
    {
      if fate.ReadFails? { return Err("failed to read migration file " + version); }
      if fate.BeginFails? { return Err("failed to begin transaction"); }
      var txLog, txApplied := log, applied;
      if fate.ExecFails? { return Err("failed to execute migration " + version); }
      txLog := txLog + [version];
      if fate.RecordFails? || version in txApplied { return Err("failed to record migration " + version); }
      txApplied := txApplied + {version};
      if fate.CommitFails? { return Err("failed to commit migration " + version); }
      applied, log := txApplied, txLog;
      if fate.CommitsUnseen? { return Err("failed to commit migration " + version); }
      return Ok(());
    }

    /** `listing` and `readable` say how reading the directory and the table of applied versions turns out. */
    method RunMigrationsUp(listing: Outcome<seq<string>>, readable: bool, fates: nat -> Fate) returns (r: Outcome<()>)
      requires !listing.Panic?
      modifies this
      ensures State() == AfterCall(old(State()), Invocation(listing, readable, fates))
      ensures listing.Err? ==> r.Err? && State() == old(State())
      ensures listing.Ok? && MigrationFiles(listing.value) == [] ==> r == Ok(()) && State() == old(State())
      ensures listing.Ok? && MigrationFiles(listing.value) != [] && !readable ==> r.Err? && State() == old(State())
      ensures listing.Ok? && readable && NoDuplicates(listing.value) ==>
                && !r.Panic?
                && CommitsUpToFailure(VersionsOf(MigrationFiles(listing.value)), old(State()), fates, State(), r.Ok?)
      ensures Proceeds(Invocation(listing, readable, fates)) ==>
                var versions := VersionsOf(MigrationFiles(listing.value));
                var s := SoloRun(versions, old(State()), fates, |versions|);
                !r.Panic? && 0 in s.runners && (r.Ok? <==> s.runners[0].next == |versions|)
    {
      hide CommitsUpToFailure;
      if listing.Err? { return Err("failed to read migrations directory"); }
      if NoDuplicates(listing.value) {
        MigrationFilesAreTheScripts(listing.value);
        SoloSucceedsExactly(VersionsOf(MigrationFiles(listing.value)), State(), fates);
      }
      var migrationFiles := GetMigrationFiles(listing.value);
      if |migrationFiles| == 0 {
        NothingToRun(State(), fates);
        return Ok(());
      }
      if !readable { return Err("failed to get applied migrations"); }
      r := ApplyPending(migrationFiles, applied, fates);
    }

    /** The loop over the files, with the versions that were applied before it. */
    method ApplyPending(migrationFiles: seq<string>, snapshot: set<string>, fates: nat -> Fate) returns (r: Outcome<()>)
      requires snapshot == applied
      modifies this
      ensures var versions := VersionsOf(migrationFiles);
              var s := SoloRun(versions, old(State()), fates, |versions|);
              && State() == s.db && !r.Panic?
              && 0 in s.runners && (r.Ok? <==> s.runners[0].next == |versions|)
    {
      ghost var before, versions := State(), VersionsOf(migrationFiles);
      SoloStarts(versions, before, fates);
      for i := 0 to |migrationFiles|
        invariant SoloRun(versions, before, fates, i) == System(State(), map[0 := Runner(snapshot, i, true)])
      {
        SoloAdvances(versions, before, fates, i);
        SoloStep(versions, State(), snapshot, i, fates(i));
        var version := Version(migrationFiles[i]);
        if version in snapshot { continue; }
        var attempt := ApplyScript(version, fates(i));
        if attempt.Err? {
          StoppedStays(versions, before, fates, i + 1, |migrationFiles|);
          return attempt;
        }
      }
      return Ok(());
    }
  }
}
