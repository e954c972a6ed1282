/**
 The update and rollback transactions of apps/cli/src/lifecycle.ts over the installed application
 and the minimum application version that its state demands.

 The installer child either publishes and exits normally or fails before publishing.  Downloading
 and verifying the release, the health check and the state backup are outcomes the environment
 chooses; a migration by the active release never demands more than that release.
 */
module Lifecycle {
  import opened Common
  import opened Strings
  import opened VersionOrder

  datatype Release = Release(id: string, version: string, commit: string)

  /** The installed application, its predecessor, and the minimum version recorded in the state. */
  datatype Application = Application(current: Release, previous: Option<Release>, minimum: string)

  /** What happens around an update. */
  datatype UpdateEvents = UpdateEvents(
    verified: bool,            // artifact, checksums, package identity and migration plan are accepted
    planned: bool,             // the release plans migration steps, so the state is backed up
    published: bool,           // the installer child publishes the release
    migrated: Option<string>,  // the minimum set by a migration while the release is active
    healthy: bool,
    rollbackWorks: bool,
    restoreWorks: bool)

  datatype RollbackEvents = RollbackEvents(published: bool, migrated: Option<string>, healthy: bool, undoWorks: bool)

  /** The installer publishing a release, and its rollback to the predecessor. */
  function Published(app: Application, target: Release): Application {
    app.(current := target, previous := if app.current.id != target.id then Some(app.current) else app.previous)
  }

  function Swapped(app: Application): Application
    requires app.previous.Some?
  {
    app.(current := app.previous.value, previous := Some(app.current))
  }

  function Migrated(app: Application, minimum: Option<string>): Application {
    if minimum.Some? then app.(minimum := minimum.value) else app
  }

  function AfterUpdate(e: Engine, app: Application, target: Release, ev: UpdateEvents): (Application, bool) {
    if Compare(e, target.version, app.current.version) <= 0 || !ev.verified || !ev.published then (app, false) else
    var running := Migrated(Published(app, target), ev.migrated);
    if ev.healthy then (running, true)
    else if !ev.rollbackWorks || running.previous.None? then (running, false)
    else
      var back := Swapped(running);
      (if ev.planned && ev.restoreWorks then back.(minimum := app.minimum) else back, false)
  }

  function AfterRollback(e: Engine, app: Application, ev: RollbackEvents): (Application, bool) {
    if app.previous.None? || Compare(e, app.previous.value.version, app.minimum) < 0 || !ev.published then (app, false) else
    var running := Migrated(Swapped(app), ev.migrated);
    if ev.healthy then (running, true)
    else if ev.undoWorks then (Swapped(running), false)
    else (running, false)
  }

  /** The transactions as they run, with the flags they keep. */
  class Session {
    const engine: Engine
    var current: Release
    var previous: Option<Release>
    var minimum: string

    constructor (engine: Engine, app: Application)
      ensures this.engine == engine && App() == app
    {
      this.engine := engine;
      current, previous, minimum := app.current, app.previous, app.minimum;
    }

    function App(): Application
      reads this
    {
      Application(current, previous, minimum)
    }

    method Update(target: Release, ev: UpdateEvents) returns (ok: bool)
      modifies this
      ensures (App(), ok) == AfterUpdate(engine, old(App()), target, ev)
    {
      var comparison := CompareVersions(engine, target.version, current.version);
      if comparison <= 0 {
        return false;
      }
      var recoveryBackup: Option<string> := None;
      var switched := false;
      if ev.verified {
        if ev.planned {
          recoveryBackup := Some(minimum);
        }
        if ev.published {
          if current.id != target.id {
            previous := Some(current);
          }
          current := target;
          switched := true;
          if ev.migrated.Some? {
            minimum := ev.migrated.value;
          }
          if ev.healthy {
            return true;
          }
        }
      }
      if switched && ev.rollbackWorks && previous.Some? {
        current, previous := previous.value, Some(current);
        if recoveryBackup.Some? && ev.restoreWorks {
          minimum := recoveryBackup.value;
        }
      }
      return false;
    }

    method Rollback(ev: RollbackEvents) returns (ok: bool)
      modifies this
      ensures (App(), ok) == AfterRollback(engine, old(App()), ev)
    {
      if previous.None? {
        return false;
      }
      var comparison := CompareVersions(engine, previous.value.version, minimum);
      if comparison < 0 || !ev.published {
        return false;
      }
      current, previous := previous.value, Some(current);
      if ev.migrated.Some? {
        minimum := ev.migrated.value;
      }
      if ev.healthy {
        return true;
      }
      if ev.undoWorks {
        current, previous := previous.value, Some(current);
      }
      return false;
    }
  }

  // ---------- What the transactions do ----------

  /** The minimum after a migration that may have run. */
  predicate MinimumIs(minimum: string, migrated: Option<string>, before: string) {
    minimum == if migrated.Some? then migrated.value else before
  }

  /** The installed pair is as it was. */
  predicate SamePair(a: Application, b: Application) { a.current == b.current && a.previous == b.previous }

  predicate Newer(e: Engine, a: string, b: string) { Compare(e, a, b) > 0 }

  /**
   An update succeeds if and only if the release is newer, is verified, is published and is healthy.  It
   then runs the release, keeps the one before it to go back to, and its migration has set the minimum.
   */
  lemma UpdateSucceeds(e: Engine, app: Application, target: Release, ev: UpdateEvents)
    requires target.id != app.current.id
    ensures var (after, ok) := AfterUpdate(e, app, target, ev);
      && (ok <==> Newer(e, target.version, app.current.version) && ev.verified && ev.published && ev.healthy)
      && (ok ==> after.current == target && after.previous == Some(app.current) && MinimumIs(after.minimum, ev.migrated, app.minimum))
  {
    hide Compare;
  }

  /**
   An update that fails leaves the application in one of three states.  Before it is published nothing has
   changed.  If it is undone, the release before it runs again with the failed one behind it, and a planned
   migration's backup is restored; only a backup that cannot be restored, or a migration nobody planned,
   leaves the migrated minimum.  If undoing fails, the release stays.
   */
  lemma FailedUpdateLeaves(e: Engine, app: Application, target: Release, ev: UpdateEvents)
    requires target.id != app.current.id && !AfterUpdate(e, app, target, ev).1
    ensures var after := AfterUpdate(e, app, target, ev).0;
      && (!Newer(e, target.version, app.current.version) || !ev.verified || !ev.published ==> after == app)
      && (Newer(e, target.version, app.current.version) && ev.verified && ev.published ==>
            && after.current == (if ev.rollbackWorks then app.current else target)
            && after.previous == Some(if ev.rollbackWorks then target else app.current)
            && (ev.rollbackWorks && ev.planned && ev.restoreWorks ==> after.minimum == app.minimum)
            && (!(ev.rollbackWorks && ev.planned && ev.restoreWorks) ==> MinimumIs(after.minimum, ev.migrated, app.minimum)))
  {
    hide Compare;
  }

  /**
   A rollback succeeds if and only if there is a release to go back to that the state allows, and it is
   published and healthy.  It exchanges the two releases.  One that fails leaves them as they were, unless
   it was published and cannot be undone; and it changes the minimum only by that release's migration.
   */
  lemma RollbackSucceeds(e: Engine, app: Application, ev: RollbackEvents)
    requires Faithful(e)
    ensures var (after, ok) := AfterRollback(e, app, ev);
      var begins := app.previous.Some? && !Newer(e, app.minimum, app.previous.value.version) && ev.published;
      && (ok <==> begins && ev.healthy)
      && (!begins ==> after == app)
      && (begins ==> MinimumIs(after.minimum, ev.migrated, app.minimum))
      && (begins && (ev.healthy || !ev.undoWorks) ==>
            Some(after.current) == app.previous && after.previous == Some(app.current))
      && (begins && !ev.healthy && ev.undoWorks ==> SamePair(after, app))
  {
    hide Compare, Faithful;
    if app.previous.Some? { CompareOpposite(e, app.minimum, app.previous.value.version); }
  }

  // ---------- The state never needs more than the active release ----------

  /** A version string the order laws apply to. */
  ghost predicate Orderly(v: string) { TidyPrerelease(v) && SafePrerelease(v) }

  ghost predicate OrderlyApp(app: Application) {
    && Orderly(app.current.version) && Orderly(app.minimum)
    && (app.previous.Some? ==> Orderly(app.previous.value.version))
  }

  /** The active release satisfies what the state demands. */
  predicate Compatible(e: Engine, app: Application) {
    Compare(e, app.current.version, app.minimum) >= 0
  }

  /** A migration by `release` demands no more than that release. */
  ghost predicate Modest(e: Engine, release: Release, minimum: Option<string>) {
    minimum.Some? ==> Orderly(minimum.value) && Compare(e, minimum.value, release.version) <= 0
  }

  /** An update that fails after a migration raised the minimum past the old release, and is undone without a restore. */
  predicate StrandedUpdate(e: Engine, app: Application, target: Release, ev: UpdateEvents) {
    && Compare(e, target.version, app.current.version) > 0 && ev.verified && ev.published
    && !ev.healthy && ev.rollbackWorks && !(ev.planned && ev.restoreWorks)
    && ev.migrated.Some? && Compare(e, app.current.version, ev.migrated.value) < 0
  }

  /** The update transaction keeps compatibility in every case but that one. */
  lemma UpdateKeepsCompatible(e: Engine, app: Application, target: Release, ev: UpdateEvents)
    requires Faithful(e) && OrderlyApp(app) && Compatible(e, app)
    requires Orderly(target.version) && target.id != app.current.id && Modest(e, target, ev.migrated)
    ensures Compatible(e, AfterUpdate(e, app, target, ev).0) <==> !StrandedUpdate(e, app, target, ev)
    ensures OrderlyApp(AfterUpdate(e, app, target, ev).0)
  {
    hide Compare, Faithful, Orderly;
    CompareOpposite(e, target.version, app.current.version);
    CompareOpposite(e, app.current.version, app.minimum);
    if ev.migrated.Some? {
      CompareOpposite(e, ev.migrated.value, target.version);
    }
    if Compare(e, target.version, app.current.version) > 0 {
      OrderlyTransitive(e, app.minimum, app.current.version, target.version);
      CompareOpposite(e, app.minimum, target.version);
    }
  }

  lemma OrderlyTransitive(e: Engine, a: string, b: string, c: string)
    requires Faithful(e) && Orderly(a) && Orderly(b) && Orderly(c)
    requires Compare(e, a, b) <= 0 && Compare(e, b, c) <= 0
    ensures Compare(e, a, c) <= 0
  {
    CompareTransitive(e, a, b, c);
  }

  /** A rollback whose target migrated the state past the release it is then undone to. */
  predicate StrandedRollback(e: Engine, app: Application, ev: RollbackEvents) {
    && app.previous.Some? && Compare(e, app.previous.value.version, app.minimum) >= 0 && ev.published
    && !ev.healthy && ev.undoWorks
    && ev.migrated.Some? && Compare(e, app.current.version, ev.migrated.value) < 0
  }

  lemma RollbackKeepsCompatible(e: Engine, app: Application, ev: RollbackEvents)
    requires Faithful(e) && OrderlyApp(app) && Compatible(e, app)
    requires app.previous.Some? ==> Modest(e, app.previous.value, ev.migrated)
    ensures Compatible(e, AfterRollback(e, app, ev).0) <==> !StrandedRollback(e, app, ev)
    ensures OrderlyApp(AfterRollback(e, app, ev).0)
  {
    hide Compare, Faithful, Orderly;
    if app.previous.Some? && ev.migrated.Some? {
      CompareOpposite(e, ev.migrated.value, app.previous.value.version);
    }
  }

  const OLD: Release := Release("1", "1.0.0", "c1")
  const NEW: Release := Release("2", "2.0.0", "c2")

  lemma OldBeforeNew(e: Engine)
    requires Faithful(e)
    ensures Orderly("1.0.0") && Orderly("2.0.0")
    ensures Compare(e, "1.0.0", "2.0.0") < 0 && Compare(e, "2.0.0", "1.0.0") > 0
    ensures Compare(e, "1.0.0", "1.0.0") == 0 && Compare(e, "2.0.0", "2.0.0") == 0
  {
    hide Parse, Orderly, Faithful;
    assert ['1'] + ".0.0" == "1.0.0" && ['2'] + ".0.0" == "2.0.0";
    PlainVersion(e, '1', 1);
    PlainVersion(e, '2', 2);
  }

  lemma PlainVersion(e: Engine, major: char, n: nat)
    requires Faithful(e) && '0' <= major <= '9' && n == major as int - '0' as int
    ensures Orderly([major] + ".0.0") && Parse(e, [major] + ".0.0") == Parsed([n, 0, 0], "")
  {
    var v := [major] + ".0.0";
    IndexOfFirst(v, '+', "");
    IndexOfFirst(v, '-', "");
    assert Base(v) == v && Core(v) == v && Prerelease(v) == "";
    var parts := [[major], "0", "0"];
    assert v == Join(parts, '.') by {
      assert parts[1..] == ["0", "0"] && ["0", "0"][1..] == ["0"];
      assert Join(["0", "0"], '.') == "0.0";
      assert [major] + ['.'] + "0.0" == v;
    }
    JoinSplits(parts, '.');
    assert Value([major]) == n && Value("0") == 0 by { assert [major][..0] == "" && "0"[..0] == ""; }
  }

  /** An input: the new release migrates the state, fails its health check, and the backup cannot be restored. */
  lemma StrandedUpdateHappens(e: Engine)
    requires Faithful(e)
    ensures var app := Application(OLD, None, "1.0.0");
      var ev := UpdateEvents(true, true, true, Some("2.0.0"), false, true, false);
      var after := AfterUpdate(e, app, NEW, ev).0;
      && OrderlyApp(app) && Compatible(e, app) && Modest(e, NEW, ev.migrated) && StrandedUpdate(e, app, NEW, ev)
      && after == Application(OLD, Some(NEW), "2.0.0") && !Compatible(e, after)
  {
    OldBeforeNew(e);
    hide Compare, Faithful, Orderly;
  }

  /** An input: rolled back once, a second rollback goes forward again, migrates, and is undone. */
  lemma StrandedRollbackHappens(e: Engine)
    requires Faithful(e)
    ensures var app := Application(OLD, Some(NEW), "1.0.0");
      var ev := RollbackEvents(true, Some("2.0.0"), false, true);
      var after := AfterRollback(e, app, ev).0;
      && OrderlyApp(app) && Compatible(e, app) && Modest(e, NEW, ev.migrated) && StrandedRollback(e, app, ev)
      && after == Application(OLD, Some(NEW), "2.0.0") && !Compatible(e, after)
  {
    OldBeforeNew(e);
    hide Compare, Faithful, Orderly;
  }

  /** A rollback undone after a failed health check restores the installation exactly. */
  lemma UndoneRollbackRestores(e: Engine, app: Application, ev: RollbackEvents)
    requires !ev.healthy && ev.undoWorks
    ensures var after := AfterRollback(e, app, ev).0;
      && after.current == app.current && after.previous == app.previous
      && (ev.migrated.None? ==> after == app)
  {
    hide Compare;
  }

  // ---------- Runs ----------

  datatype Action =
    | DoUpdate(target: Release, update: UpdateEvents)
    | DoRollback(rollback: RollbackEvents)
    | Migrate(minimum: string)  // an ordinary command of the active release

  function Do(e: Engine, app: Application, a: Action): (Application, bool) {
    match a
    case DoUpdate(target, update) => AfterUpdate(e, app, target, update)
    case DoRollback(rollback) => AfterRollback(e, app, rollback)
    case Migrate(minimum) => (app.(minimum := minimum), true)
  }

  /** The assumptions on one action, and that it is not one of the two stranding ones. */
  ghost predicate Admissible(e: Engine, app: Application, a: Action) {
    match a
    case DoUpdate(target, update) =>
      && Orderly(target.version) && target.id != app.current.id && Modest(e, target, update.migrated)
      && !StrandedUpdate(e, app, target, update)
    case DoRollback(rollback) =>
      (app.previous.Some? ==> Modest(e, app.previous.value, rollback.migrated)) && !StrandedRollback(e, app, rollback)
    case Migrate(minimum) => Modest(e, app.current, Some(minimum))
  }

  ghost predicate AdmissibleRun(e: Engine, app: Application, actions: seq<Action>)
    decreases actions
  {
    actions == [] || (Admissible(e, app, actions[0]) && AdmissibleRun(e, Do(e, app, actions[0]).0, actions[1..]))
  }

  function RunAll(e: Engine, app: Application, actions: seq<Action>): Application
    decreases actions
  {
    if actions == [] then app else RunAll(e, Do(e, app, actions[0]).0, actions[1..])
  }

  /** Over every run of updates and rollbacks, failed or not, the active release satisfies the state. */
  lemma {:induction false} AlwaysCompatible(e: Engine, app: Application, actions: seq<Action>)
    requires Faithful(e) && OrderlyApp(app) && Compatible(e, app) && AdmissibleRun(e, app, actions)
    ensures Compatible(e, RunAll(e, app, actions)) && OrderlyApp(RunAll(e, app, actions))
    decreases actions
  {
    hide AfterUpdate, AfterRollback, Faithful, Orderly, Compare, StrandedUpdate, StrandedRollback;
    if actions != [] {
      match actions[0] {
        case DoUpdate(target, update) => UpdateKeepsCompatible(e, app, target, update);
        case DoRollback(rollback) => RollbackKeepsCompatible(e, app, rollback);
        case Migrate(minimum) => CompareOpposite(e, minimum, app.current.version);
      }
      AlwaysCompatible(e, Do(e, app, actions[0]).0, actions[1..]);
    }
  }

  /** A run that consists of successful updates. */
  ghost predicate SuccessfulUpdates(e: Engine, app: Application, actions: seq<Action>)
    decreases actions
  {
    actions == [] ||
    (&& actions[0].DoUpdate? && Orderly(actions[0].target.version) && Do(e, app, actions[0]).1
     && SuccessfulUpdates(e, Do(e, app, actions[0]).0, actions[1..]))
  }

  lemma SuccessMeansNewer(e: Engine, app: Application, target: Release, ev: UpdateEvents)
    requires Faithful(e) && AfterUpdate(e, app, target, ev).1
    ensures AfterUpdate(e, app, target, ev).0.current == target
    ensures Compare(e, app.current.version, target.version) < 0
  {
    CompareOpposite(e, app.current.version, target.version);
  }

  /** The active version strictly increases over any nonempty run of successful updates. */
  lemma {:induction false} UpdatesStrictlyIncrease(e: Engine, app: Application, actions: seq<Action>)
    requires Faithful(e) && Orderly(app.current.version) && SuccessfulUpdates(e, app, actions) && actions != []
    ensures Orderly(RunAll(e, app, actions).current.version)
    ensures Compare(e, app.current.version, RunAll(e, app, actions).current.version) < 0
    decreases actions
  {
    hide AfterUpdate, Faithful, Orderly, Compare;
    var a, next := actions[0], Do(e, app, actions[0]).0;
    SuccessMeansNewer(e, app, a.target, a.update);
    if |actions| > 1 {
      UpdatesStrictlyIncrease(e, next, actions[1..]);
      StrictTransitive(e, app.current.version, next.current.version, RunAll(e, app, actions).current.version);
    } else {
      assert RunAll(e, app, actions) == next;
    }
  }

  lemma StrictTransitive(e: Engine, a: string, b: string, c: string)
    requires Faithful(e) && Orderly(a) && Orderly(b) && Orderly(c)
    requires Compare(e, a, b) < 0 && Compare(e, b, c) < 0
    ensures Compare(e, a, c) < 0
  {
    CompareTransitive(e, a, b, c);
  }
}
