/**
 * Upgrading stored documents: a plan made before the user confirms, and a commit that reads every
 * planned file again under its lock. Other processes may write between the two, so the commit is
 * stated for any store it finds.
 */
module Migration {
  import opened Wrappers
  import NumberText

  datatype Version = NoVersion | NotAnInteger | Number(n: int)

  datatype Document<T> = Document(version: Version, body: T)

  // A path that is not in the store reads as null.
  type Store<T> = map<string, Document<T>>

  datatype MigrationError = InvalidVersion(path: string) | ChangedMeanwhile(path: string) | MigrateFailed(path: string)

  // A step's migrate returns nothing when it throws.
  datatype MigrationStep<!T> = MigrationStep(
    path: string,
    currentVersion: int,
    needsPassword: Document<T> -> bool,
    migrate: (Document<T>, Option<string>) -> Option<Document<T>>
  )

  datatype StaleFile<!T> = StaleFile(step: MigrationStep<T>, storedVersion: int)

  datatype RunnerPlan<!T> = RunnerPlan(stale: seq<StaleFile<T>>, needsPassword: bool)

  datatype Write<T> = Write(path: string, value: Document<T>)

  // A missing document is current; an invalid version must not trigger a migration.
  function StoredVersionOf<T>(store: Store<T>, path: string, currentVersion: int): Option<int> {
    if path !in store then Some(currentVersion)
    else
      match store[path].version
      case Number(n) => if n < 1 then None else Some(n)
      case _ => None
  }

  function BackupPath(path: string, storedVersion: int): string
    requires 1 <= storedVersion
  {
    path + ".v" + NumberText.Print(storedVersion, 10) + ".bak"
  }

  function PlanSteps<T>(store: Store<T>, steps: seq<MigrationStep<T>>): Result<RunnerPlan<T>, MigrationError> {
    if steps == [] then Ok(RunnerPlan([], false))
    else
      var step := steps[0];
      var stored := StoredVersionOf(store, step.path, step.currentVersion);
      if stored.None? then Err(InvalidVersion(step.path))
      else
        match PlanSteps(store, steps[1..])
        case Err(error) => Err(error)
        case Ok(rest) =>
          if stored.value < step.currentVersion then
            Ok(RunnerPlan([StaleFile(step, stored.value)] + rest.stale,
                          rest.needsPassword || (step.path in store && step.needsPassword(store[step.path]))))
          else Ok(rest)
  }

  // What the commit does with one planned file, reading it again.
  function FileWrites<T>(store: Store<T>, file: StaleFile<T>, password: Option<string>)
    : Result<seq<Write<T>>, MigrationError>
  {
    var step := file.step;
    var found := StoredVersionOf(store, step.path, step.currentVersion);
    if found.None? then Err(InvalidVersion(step.path))
    else if found.value == step.currentVersion then Ok([])
    else if found.value != file.storedVersion then Err(ChangedMeanwhile(step.path))
    else
      var doc := store[step.path];
      match step.migrate(doc, password)
      case None => Err(MigrateFailed(step.path))
      case Some(migrated) => Ok([Write(BackupPath(step.path, found.value), doc), Write(step.path, migrated)])
  }

  function CommitWrites<T>(store: Store<T>, stale: seq<StaleFile<T>>, password: Option<string>)
    : Result<seq<Write<T>>, MigrationError>
  {
    if stale == [] then Ok([])
    else
      match FileWrites(store, stale[0], password)
      case Err(error) => Err(error)
      case Ok(writes) =>
        match CommitWrites(store, stale[1..], password)
        case Err(error) => Err(error)
        case Ok(rest) => Ok(writes + rest)
  }

  function WriteAll<T>(store: Store<T>, writes: seq<Write<T>>): Store<T>
    decreases |writes|
  {
    if writes == [] then store else WriteAll(store[writes[0].path := writes[0].value], writes[1..])
  }

  // The store after apply(); a commit that throws has written nothing.
  function Applied<T>(store: Store<T>, stale: seq<StaleFile<T>>, password: Option<string>): Store<T> {
    match CommitWrites(store, stale, password)
    case Err(_) => store
    case Ok(writes) => WriteAll(store, writes)
  }

  class MigrationRunner<T> {
    var store: Store<T>

    constructor (store: Store<T>)
      ensures this.store == store
    {
      this.store := store;
    }

    // commit(): every file is read and migrated before the one batch is written.
    method Commit(stale: seq<StaleFile<T>>, password: Option<string>) returns (result: Result<(), MigrationError>)
      modifies this
      ensures store == Applied(old(store), stale, password)
      ensures match CommitWrites(old(store), stale, password)
              case Err(error) => result == Err(error)
              case Ok(_) => result.Ok?
    {
      var writes: seq<Write<T>> := [];
      var i := 0;
      assert stale[0..] == stale;
      AfterNothing(CommitWrites(store, stale, password));
      while i < |stale|
        invariant 0 <= i <= |stale| && store == old(store)
        invariant CommitWrites(store, stale, password) == After(writes, CommitWrites(store, stale[i..], password))
      {
        var step, storedVersion := stale[i].step, stale[i].storedVersion;
        assert stale[i..][1..] == stale[i + 1..];
        var found := StoredVersionOf(store, step.path, step.currentVersion);
        ghost var fileWrites := FileWrites(store, stale[i], password);
        assert fileWrites.Err? ==> CommitWrites(store, stale[i..], password) == Err(fileWrites.error);
        if found.None? {
          return Err(InvalidVersion(step.path));
        }
        if found.value != step.currentVersion {
          if found.value != storedVersion {
            return Err(ChangedMeanwhile(step.path));
          }
          var doc := store[step.path];
          var migrated := step.migrate(doc, password);
          if migrated.None? {
            return Err(MigrateFailed(step.path));
          }
          var two := [Write(BackupPath(step.path, found.value), doc), Write(step.path, migrated.value)];
          AfterTwice(writes, two, CommitWrites(store, stale[i + 1..], password));
          writes := writes + two;
        } else {
          AfterNothing(CommitWrites(store, stale[i + 1..], password));
        }
        i := i + 1;
      }
      assert stale[i..] == [] && writes + [] == writes;
      store := WriteAll(store, writes);
      result := Ok(());
    }
  }

  function After<T>(
    writes: seq<Write<T>>, rest: Result<seq<Write<T>>, MigrationError>): Result<seq<Write<T>>, MigrationError> {
    match rest
    case Err(error) => Err(error)
    case Ok(more) => Ok(writes + more)
  }

  lemma AfterTwice<T>(writes: seq<Write<T>>, two: seq<Write<T>>, rest: Result<seq<Write<T>>, MigrationError>)
    ensures After(writes, After(two, rest)) == After(writes + two, rest)
  {
    if rest.Ok? {
      assert writes + (two + rest.value) == writes + two + rest.value;
    }
  }

  lemma AfterNothing<T>(rest: Result<seq<Write<T>>, MigrationError>)
    ensures After([], rest) == rest
  {
    if rest.Ok? {
      assert [] + rest.value == rest.value;
    }
  }

  // ----- Backup names -----

  predicate IsBackup(path: string) { |path| >= 4 && path[|path| - 4..] == ".bak" }

  lemma BackupIsBackup(path: string, version: int)
    requires 1 <= version
    ensures IsBackup(BackupPath(path, version))
  {
  }

  predicate AllDigits(s: string) { forall i :: 0 <= i < |s| ==> '0' <= s[i] <= '9' }

  // The letter before the last run of digits marks where the path ends.
  lemma SameTail(a: string, s: string, b: string, t: string)
    requires AllDigits(s) && AllDigits(t) && a + ".v" + s == b + ".v" + t
    ensures a == b && s == t
  {
    var whole := a + ".v" + s;
    assert whole[|a| + 1] == 'v' && whole[|b| + 1] == 'v';
    assert forall i :: |a| + 2 <= i < |whole| ==> whole[i] == s[i - |a| - 2];
    assert forall i :: |b| + 2 <= i < |whole| ==> whole[i] == t[i - |b| - 2];
    assert |a| == |b|;
    assert whole[..|a|] == a && whole[..|b|] == b && whole[|a| + 2..] == s && whole[|b| + 2..] == t;
  }

  lemma PrintedDigits(n: nat)
    ensures AllDigits(NumberText.Print(n, 10))
  {
    NumberText.PrintShape(n, 10);
  }

  /** Different files never share a backup: the last run of digits and what precedes it are unique. */
  lemma BackupPathsDiffer(a: string, m: int, b: string, n: int)
    requires 1 <= m && 1 <= n && BackupPath(a, m) == BackupPath(b, n)
    ensures a == b && m == n
  {
    PrintedDigits(m);
    PrintedDigits(n);
    var left, right := a + ".v" + NumberText.Print(m, 10), b + ".v" + NumberText.Print(n, 10);
    assert (left + ".bak")[..|left|] == left && (right + ".bak")[..|right|] == right;
    SameTail(a, NumberText.Print(m, 10), b, NumberText.Print(n, 10));
    NumberText.PrintIsInjective(m, n, 10);
  }

  // ----- Stored versions -----

  predicate HasVersion<T>(store: Store<T>, path: string, n: int) {
    path in store && store[path].version == Number(n) && 1 <= n
  }

  // A document whose version is missing, not an integer or below 1.
  predicate IsInvalid<T>(store: Store<T>, path: string) {
    path in store && !(store[path].version.Number? && 1 <= store[path].version.n)
  }

  /** A missing document counts as current; any other has its version, unless that is invalid. */
  lemma StoredVersionIs<T>(store: Store<T>, path: string, current: int)
    ensures StoredVersionOf(store, path, current).None? <==> IsInvalid(store, path)
    ensures forall n :: StoredVersionOf(store, path, current) == Some(n) <==>
                        HasVersion(store, path, n) || (path !in store && n == current)
  {
  }

  // ----- What an upgrade does -----

  // Planned files have different paths, none of which is a backup name.
  ghost predicate ProperPlan<T>(stale: seq<StaleFile<T>>) {
    && (forall i, j :: 0 <= i < j < |stale| ==> stale[i].step.path != stale[j].step.path)
    && (forall i :: 0 <= i < |stale| ==> !IsBackup(stale[i].step.path))
  }

  // The file cannot be upgraded as planned.
  predicate Blocks<T>(store: Store<T>, file: StaleFile<T>, password: Option<string>) {
    && Outdated(store, file)
    && (|| IsInvalid(store, file.step.path)
        || !HasVersion(store, file.step.path, file.storedVersion)
        || file.step.migrate(store[file.step.path], password).None?)
  }

  // The file exists and is not at the current version.
  predicate Outdated<T>(store: Store<T>, file: StaleFile<T>) {
    file.step.path in store && !HasVersion(store, file.step.path, file.step.currentVersion)
  }

  // What stands in the way of the first planned file that cannot be upgraded.
  function Obstacle<T>(store: Store<T>, file: StaleFile<T>): MigrationError {
    if IsInvalid(store, file.step.path) then InvalidVersion(file.step.path)
    else if !HasVersion(store, file.step.path, file.storedVersion) then ChangedMeanwhile(file.step.path)
    else MigrateFailed(file.step.path)
  }

  /** The error is that of the first file that cannot be upgraded, and says what is wrong with it. */
  lemma {:induction false} UpgradeErrorIsTheFirst<T>(
    store: Store<T>, stale: seq<StaleFile<T>>, password: Option<string>, i: nat)
    requires i < |stale| && Blocks(store, stale[i], password)
    requires forall j :: 0 <= j < i ==> !Blocks(store, stale[j], password)
    ensures CommitWrites(store, stale, password) == Err(Obstacle(store, stale[i]))
  {
    StoredVersionIs(store, stale[0].step.path, stale[0].step.currentVersion);
    if 0 < i {
      assert forall j :: 0 <= j < i - 1 ==> stale[1..][j] == stale[j + 1];
      UpgradeErrorIsTheFirst(store, stale[1..], password, i - 1);
    }
  }

  // The paths an upgrade of this file writes.
  predicate Owns<T>(store: Store<T>, file: StaleFile<T>, path: string) {
    && Outdated(store, file) && 1 <= file.storedVersion
    && (path == file.step.path || path == BackupPath(file.step.path, file.storedVersion))
  }

  /** An upgrade fails exactly when some planned file has an invalid or unexpected version or does not migrate. */
  lemma {:induction false} UpgradeFailsIff<T>(store: Store<T>, stale: seq<StaleFile<T>>, password: Option<string>)
    ensures CommitWrites(store, stale, password).Err? <==>
            exists i :: 0 <= i < |stale| && Blocks(store, stale[i], password)
  {
    if stale != [] {
      UpgradeFailsIff(store, stale[1..], password);
      if i :| 0 <= i < |stale[1..]| && Blocks(store, stale[1..][i], password) {
        assert Blocks(store, stale[i + 1], password);
      }
      if i :| 0 <= i < |stale| && Blocks(store, stale[i], password) {
        assert i != 0 ==> Blocks(store, stale[1..][i - 1], password);
      }
    }
  }

  lemma {:induction false} WriteAllAppends<T>(store: Store<T>, a: seq<Write<T>>, b: seq<Write<T>>)
    ensures WriteAll(store, a + b) == WriteAll(WriteAll(store, a), b)
    decreases |a|
  {
    if a == [] {
      assert a + b == b;
    } else {
      WriteAllAppends(store[a[0].path := a[0].value], a[1..], b);
      assert (a + b)[1..] == a[1..] + b;
    }
  }

  lemma WriteTwo<T>(store: Store<T>, a: Write<T>, b: Write<T>)
    ensures WriteAll(store, [a, b]) == store[a.path := a.value][b.path := b.value]
  {
    assert [a, b][1..] == [b] && [b][1..] == [];
    assert WriteAll(store, [a, b]) == WriteAll(store[a.path := a.value], [b]);
    assert WriteAll(store[a.path := a.value], [b]) == WriteAll(store[a.path := a.value][b.path := b.value], []);
  }

  lemma {:induction false} UnwrittenPath<T>(store: Store<T>, writes: seq<Write<T>>, path: string)
    requires forall w :: w in writes ==> w.path != path
    ensures path in WriteAll(store, writes) <==> path in store
    ensures path in store ==> WriteAll(store, writes)[path] == store[path]
    decreases |writes|
  {
    if writes != [] {
      assert forall w :: w in writes[1..] ==> w in writes;
      UnwrittenPath(store[writes[0].path := writes[0].value], writes[1..], path);
    }
  }

  // The writes of a batch are those of its outdated files.
  lemma {:induction false} WritesAreOwned<T>(
    store: Store<T>, stale: seq<StaleFile<T>>, password: Option<string>, path: string)
    requires CommitWrites(store, stale, password).Ok?
    requires forall i :: 0 <= i < |stale| ==> !Owns(store, stale[i], path)
    ensures forall w :: w in CommitWrites(store, stale, password).value ==> w.path != path
  {
    if stale != [] {
      assert !Owns(store, stale[0], path);
      assert forall i :: 0 <= i < |stale[1..]| ==> stale[1..][i] == stale[i + 1];
      WritesAreOwned(store, stale[1..], password, path);
    }
  }

  lemma OwnersDiffer<T>(store: Store<T>, stale: seq<StaleFile<T>>, i: nat, j: nat, path: string)
    requires ProperPlan(stale) && i < |stale| && j < |stale| && i != j && Owns(store, stale[i], path)
    ensures !Owns(store, stale[j], path)
  {
    var a, b := stale[i], stale[j];
    assert a.step.path != b.step.path;
    BackupIsBackup(a.step.path, a.storedVersion);
    if Owns(store, b, path) {
      BackupIsBackup(b.step.path, b.storedVersion);
      if path != a.step.path && path != b.step.path {
        BackupPathsDiffer(a.step.path, a.storedVersion, b.step.path, b.storedVersion);
      }
    }
  }

  lemma NoCommit<T>(store: Store<T>, password: Option<string>)
    ensures CommitWrites(store, [], password) == Ok([])
  {
  }

  lemma FirstCommit<T>(store: Store<T>, stale: seq<StaleFile<T>>, password: Option<string>)
    requires stale != []
    ensures var first, rest := FileWrites(store, stale[0], password), CommitWrites(store, stale[1..], password);
            && (CommitWrites(store, stale, password).Ok? <==> first.Ok? && rest.Ok?)
            && (first.Ok? && rest.Ok? ==> CommitWrites(store, stale, password).value == first.value + rest.value)
  {
    hide FileWrites;
  }

  lemma {:induction false} SplitCommit<T>(store: Store<T>, stale: seq<StaleFile<T>>, password: Option<string>, i: nat)
    requires i < |stale| && CommitWrites(store, stale, password).Ok?
    ensures CommitWrites(store, stale[..i], password).Ok? && FileWrites(store, stale[i], password).Ok?
    ensures CommitWrites(store, stale[i + 1..], password).Ok?
    ensures CommitWrites(store, stale, password).value ==
            CommitWrites(store, stale[..i], password).value + FileWrites(store, stale[i], password).value
            + CommitWrites(store, stale[i + 1..], password).value
  {
    hide FileWrites, Outdated, CommitWrites;
    FirstCommit(store, stale, password);
    if i == 0 {
      NoCommit(store, password);
      assert stale[..0] == [];
      assert stale[1..] == stale[i + 1..];
    } else {
      FirstCommit(store, stale[..i], password);
      SplitCommit(store, stale[1..], password, i - 1);
      assert stale[1..][i - 1] == stale[i];
      assert stale[..i][0] == stale[0] && stale[..i][1..] == stale[1..][..i - 1] && stale[1..][i..] == stale[i + 1..];
    }
  }

  lemma LaterFilesLeave<T>(store: Store<T>, stale: seq<StaleFile<T>>, password: Option<string>, i: nat, path: string)
    requires ProperPlan(stale) && i < |stale| && Owns(store, stale[i], path)
    requires CommitWrites(store, stale[i + 1..], password).Ok?
    ensures forall w :: w in CommitWrites(store, stale[i + 1..], password).value ==> w.path != path
  {
    var later := stale[i + 1..];
    forall k | 0 <= k < |later|
      ensures !Owns(store, later[k], path)
    {
      OwnersDiffer(store, stale, i, i + 1 + k, path);
    }
    WritesAreOwned(store, later, password, path);
  }

  /**
   * A successful upgrade stores, for each planned file that is not already current, the exact document
   * read under the lock as its backup and the migration of that document as its new content.
   */
  lemma UpgradeStoresBackupAndMigration<T>(store: Store<T>, stale: seq<StaleFile<T>>, password: Option<string>, i: nat)
    requires ProperPlan(stale) && i < |stale| && CommitWrites(store, stale, password).Ok?
    requires Outdated(store, stale[i])
    ensures var file := stale[i];
            var after := Applied(store, stale, password);
            && file.step.path in store && store[file.step.path].version == Number(file.storedVersion)
            && 1 <= file.storedVersion
            && BackupPath(file.step.path, file.storedVersion) in after
            && after[BackupPath(file.step.path, file.storedVersion)] == store[file.step.path]
            && file.step.path in after
            && Some(after[file.step.path]) == file.step.migrate(store[file.step.path], password)
  {
    var file := stale[i];
    SplitCommit(store, stale, password, i);
    var front := CommitWrites(store, stale[..i], password).value;
    var two := FileWrites(store, file, password).value;
    var back := CommitWrites(store, stale[i + 1..], password).value;
    WriteAllAppends(store, front + two, back);
    WriteAllAppends(store, front, two);
    var backup := BackupPath(file.step.path, file.storedVersion);
    BackupIsBackup(file.step.path, file.storedVersion);
    var middle := WriteAll(store, front);
    assert two == [Write(backup, store[file.step.path]), two[1]];
    WriteTwo(middle, two[0], two[1]);
    LaterFilesLeave(store, stale, password, i, backup);
    LaterFilesLeave(store, stale, password, i, file.step.path);
    UnwrittenPath(WriteAll(middle, two), back, backup);
    UnwrittenPath(WriteAll(middle, two), back, file.step.path);
  }

  /** Every other path keeps exactly what it held, in particular a planned file that is already current. */
  lemma UpgradeTouchesNothingElse<T>(store: Store<T>, stale: seq<StaleFile<T>>, password: Option<string>, path: string)
    requires forall i :: 0 <= i < |stale| ==> !Owns(store, stale[i], path)
    ensures path in Applied(store, stale, password) <==> path in store
    ensures path in store ==> Applied(store, stale, password)[path] == store[path]
  {
    if CommitWrites(store, stale, password).Ok? {
      WritesAreOwned(store, stale, password, path);
      UnwrittenPath(store, CommitWrites(store, stale, password).value, path);
    }
  }

  // A migration produces a document of the step's current version.
  ghost predicate MigratesToCurrent<T(!new)>(step: MigrationStep<T>) {
    forall doc: Document<T>, password: Option<string> :: step.migrate(doc, password).Some? ==>
      step.migrate(doc, password).value.version == Number(step.currentVersion)
  }

  /** Applying the same plan again after a successful upgrade changes nothing. */
  lemma SecondUpgradeChangesNothing<T(!new)>(store: Store<T>, stale: seq<StaleFile<T>>, password: Option<string>)
    requires ProperPlan(stale) && CommitWrites(store, stale, password).Ok?
    requires forall i :: 0 <= i < |stale| ==> MigratesToCurrent(stale[i].step) && 1 <= stale[i].step.currentVersion
    ensures var after := Applied(store, stale, password);
            CommitWrites(after, stale, password) == Ok([]) && Applied(after, stale, password) == after
  {
    var after := Applied(store, stale, password);
    forall i | 0 <= i < |stale|
      ensures !Outdated(after, stale[i])
    {
      var file := stale[i];
      if Outdated(store, file) {
        UpgradeStoresBackupAndMigration(store, stale, password, i);
        assert MigratesToCurrent(file.step);
      } else {
        forall j | 0 <= j < |stale|
          ensures !Owns(store, stale[j], file.step.path)
        {
          if j != i && Owns(store, stale[j], file.step.path) {
            BackupIsBackup(stale[j].step.path, stale[j].storedVersion);
          }
        }
        UpgradeTouchesNothingElse(store, stale, password, file.step.path);
      }
    }
    CurrentFilesNeedNothing(after, stale, password);
  }

  lemma {:induction false} CurrentFilesNeedNothing<T>(
    store: Store<T>, stale: seq<StaleFile<T>>, password: Option<string>)
    requires forall i :: 0 <= i < |stale| ==> !Outdated(store, stale[i])
    ensures CommitWrites(store, stale, password) == Ok([])
  {
    if stale != [] {
      assert !Outdated(store, stale[0]);
      assert forall i :: 0 <= i < |stale[1..]| ==> stale[1..][i] == stale[i + 1];
      CurrentFilesNeedNothing(store, stale[1..], password);
      assert FileWrites(store, stale[0], password) == Ok([]);
      AfterNothing(CommitWrites(store, stale[1..], password));
    }
  }

  // The step's document exists at a version below the current one.
  predicate IsStale<T>(store: Store<T>, step: MigrationStep<T>, n: int) {
    HasVersion(store, step.path, n) && n < step.currentVersion
  }

  /** There is no plan exactly when some document has an invalid version. */
  lemma {:induction false} PlanFailsIff<T>(store: Store<T>, steps: seq<MigrationStep<T>>)
    ensures PlanSteps(store, steps).Err? <==> exists step :: step in steps && IsInvalid(store, step.path)
  {
    if steps != [] {
      PlanFailsIff(store, steps[1..]);
      StoredVersionIs(store, steps[0].path, steps[0].currentVersion);
      assert forall step :: step in steps <==> step == steps[0] || step in steps[1..];
    }
  }

  /** A plan asks for the password exactly when one of its documents says that its migration needs it. */
  lemma {:induction false} PlanNeedsThePasswordIff<T>(store: Store<T>, steps: seq<MigrationStep<T>>)
    requires PlanSteps(store, steps).Ok?
    ensures PlanSteps(store, steps).value.needsPassword <==>
            exists step, n :: step in steps && IsStale(store, step, n) && step.needsPassword(store[step.path])
  {
    if steps != [] {
      PlanNeedsThePasswordIff(store, steps[1..]);
      StoredVersionIs(store, steps[0].path, steps[0].currentVersion);
      assert forall step :: step in steps <==> step == steps[0] || step in steps[1..];
      var stored := StoredVersionOf(store, steps[0].path, steps[0].currentVersion).value;
      assert IsStale(store, steps[0], stored) <==> steps[0].path in store && stored < steps[0].currentVersion;
    }
  }

  /** A plan lists exactly the steps whose stored version is below the current one, with that version. */
  lemma {:induction false} PlanListsTheStaleSteps<T>(store: Store<T>, steps: seq<MigrationStep<T>>)
    requires PlanSteps(store, steps).Ok?
    ensures var stale := PlanSteps(store, steps).value.stale;
            forall step, n :: StaleFile(step, n) in stale <==> step in steps && IsStale(store, step, n)
  {
    if steps != [] {
      PlanListsTheStaleSteps(store, steps[1..]);
      StoredVersionIs(store, steps[0].path, steps[0].currentVersion);
      var stale := PlanSteps(store, steps).value.stale;
      var rest := PlanSteps(store, steps[1..]).value.stale;
      assert forall file :: file in rest ==> file in stale;
      assert forall step :: step in steps ==> step == steps[0] || step in steps[1..];
    }
  }

  /** A plan over steps with different paths, none of them a backup name, is a proper one. */
  lemma {:induction false} PlansAreProper<T>(store: Store<T>, steps: seq<MigrationStep<T>>)
    requires PlanSteps(store, steps).Ok?
    requires forall i, j :: 0 <= i < j < |steps| ==> steps[i].path != steps[j].path
    requires forall i :: 0 <= i < |steps| ==> !IsBackup(steps[i].path)
    ensures ProperPlan(PlanSteps(store, steps).value.stale)
  {
    if steps != [] {
      PlansAreProper(store, steps[1..]);
      PlanListsTheStaleSteps(store, steps[1..]);
      var rest := PlanSteps(store, steps[1..]).value.stale;
      forall i | 0 <= i < |rest|
        ensures rest[i].step.path != steps[0].path
      {
        assert StaleFile(rest[i].step, rest[i].storedVersion) in rest && rest[i].step in steps[1..];
        var k :| 0 <= k < |steps[1..]| && steps[1..][k] == rest[i].step;
        assert steps[k + 1] == rest[i].step;
      }
    }
  }
}
