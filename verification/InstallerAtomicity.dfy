/**
 Atomicity of one switch: exactly when an upgrade or a rollback, cut anywhere, is recovered to the old or
 the new installation; what completed switches leave; and where the guarantee stops.
 */
module InstallerAtomicity {
  import opened Common
  import opened InstallerModel
  import opened InstallerRecovery
  import opened InstallerSwitches

  // ---------- One switch ----------

  /** The installation is exactly the old one or exactly the new one. */
  predicate OldOrNew(d: Disk, i: Installation, target: VersionId) {
    InstallationIs(d, i) || InstallationIs(d, Switched(i, target))
  }

  /** The disk after a command stopped by its `k`-th operation, a run of other commands, and one more to its end. */
  function Recovered(d: Disk, env: Env, command: Command, k: nat, steps: seq<Step>, last: Env): Disk
    requires k <= |CommandOps(d, env, command)|
  {
    var e := After(Run(d, CommandOps(d, env, command)[..k]), steps);
    Run(e, CommandOps(e, last, Status))
  }

  /** Every cut of the command is recovered to the old or the new installation. */
  ghost predicate Atomic(d: Disk, i: Installation, target: VersionId, command: Command, win32: bool) {
    forall env: Env, k: nat, steps: seq<Step>, last: Env ::
      env.win32 == last.win32 == win32 && k <= |CommandOps(d, env, command)|
      && AllRecover(steps) && OnPlatform(steps, win32) && last.fault.None? ==>
        OldOrNew(Recovered(d, env, command, k, steps, last), i, target)
  }

  /** A live marker that leads from `i` neither back to it nor to the switch to `target`. */
  predicate Diverts(m: Marker, i: Installation, target: VersionId) {
    && Live(m, i)
    && if m.versionId == i.current then m.previousVersionId.Some? && m.previousVersionId != i.previous
       else !(m.versionId == target && (m.previousVersionId.None? || m.previousVersionId == Some(i.current)))
  }

  /** A marker that diverts the switch, and whose version is installed or gets installed by the switch itself. */
  predicate Threatened(d: Disk, i: Installation, command: Command, target: VersionId, win32: bool) {
    && win32 && d.marker.Some? && Diverts(d.marker.value, i, target)
    && (|| d.marker.value.versionId in d.versions
        || (command.Install? && d.marker.value.versionId == target && d.marker.value.phase != Applying))
  }

  /** What a switch of `i` to `target` may leave; an upgrade that gets past its reconciliation installs the target. */
  ghost function SwitchScope(d: Disk, i: Installation, target: VersionId, env: Env, command: Command): Scope {
    Scope(env.win32,
          Installed(d) + if command.Install? && !ActivationPart(d, env, command).threw then iset{target} else iset{},
          iset{i, Switched(i, target)})
  }

  lemma UnthreatenedInside(d: Disk, i: Installation, target: VersionId, env: Env, command: Command)
    requires InstallationIs(d, i) && SwitchOf(command, i, target) && !Threatened(d, i, command, target, env.win32)
    ensures var c := SwitchScope(d, i, target, env, command);
      Inside(d, c) && Next(c.allowed, command) <= c.allowed && AtEveryCut(d, CommandOps(d, env, command), In(c))
  {
    hide ActivationPart, CommandOps, AtEveryCut;
    var c := SwitchScope(d, i, target, env, command);
    if env.win32 && d.marker.Some? && command.Install? && Live(d.marker.value, i)
      && d.marker.value.versionId !in d.versions && d.marker.value.phase == Applying {
      StuckThrows(d, i, env, command);
    }
    assert Inside(d, c);
    hide Inside;
    CommandKeeps(d, c, c, env, command);
  }

  /** With no such marker: nothing but the two installations can come out. */
  lemma UnthreatenedKeeps(d: Disk, i: Installation, target: VersionId, env: Env, command: Command, k: nat, steps: seq<Step>, last: Env)
    requires InstallationIs(d, i) && SwitchOf(command, i, target) && env.win32 == last.win32
    requires !Threatened(d, i, command, target, last.win32)
    requires k <= |CommandOps(d, env, command)| && AllRecover(steps) && OnPlatform(steps, last.win32) && last.fault.None?
    ensures OldOrNew(Recovered(d, env, command, k, steps, last), i, target)
  {
    var c := SwitchScope(d, i, target, env, command);
    var ops := CommandOps(d, env, command);
    UnthreatenedInside(d, i, target, env, command);
    hide Inside, CommandOps, Threatened, AtEveryCut, InstallationIs;
    CutHolds(d, ops, k, In(c));
    var stopped := Run(d, ops[..k]);
    assert Inside(stopped, c);
    RecoveriesKeep(stopped, c, steps);
    OutcomeInside(After(stopped, steps), c, last);
    CommitPoint(After(stopped, steps), last);
  }

  lemma OutcomeInside(d: Disk, c: Scope, env: Env)
    requires Inside(d, c) && env.win32 == c.win32
    ensures Coherent(d, c.win32) && Outcome(d, env) in c.allowed
  {
  }

  /** An activation that was being applied to a version that is not there stops the command. */
  lemma StuckThrows(d: Disk, i: Installation, env: Env, command: Command)
    requires InstallationIs(d, i) && env.win32 && d.marker.Some? && command.Install?
    requires Live(d.marker.value, i) && d.marker.value.versionId !in d.versions && d.marker.value.phase == Applying
    ensures ActivationPart(d, env, command).threw
  {
    hide ApplyActivation;
    var c := Scope(true, Installed(d), iset{i});
    assert Base(d) == i && Inside(d, c);
    ApplyKeeps(d, c, env.fault);
  }

  /** The commands that switch `i` to `target`. */
  predicate SwitchOf(command: Command, i: Installation, target: VersionId) {
    (command.Install? && command.upgrade && command.id == target) || (command.RollBack? && i.previous == Some(target))
  }

  const NOBODY_ALIVE: Env := Env(true, {}, 0, 0, 0, None, false)

  /** With such a marker: the next command, once nothing waits, leads elsewhere. */
  lemma InstalledMarkerDiverts(d: Disk, i: Installation, target: VersionId, command: Command)
    requires InstallationIs(d, i) && d.marker.Some? && d.marker.value.versionId in d.versions
    requires Diverts(d.marker.value, i, target)
    ensures !OldOrNew(Recovered(d, NOBODY_ALIVE, command, 0, [], NOBODY_ALIVE), i, target)
  {
    assert CommandOps(d, NOBODY_ALIVE, command)[..0] == [];
    CommitPoint(d, NOBODY_ALIVE);
  }

  /** An upgrade that waits beside the marker installs its version, and is then cut. */
  lemma InstallingDiverts(d: Disk, i: Installation, target: VersionId, command: Command) returns (env: Env, k: nat)
    requires InstallationIs(d, i) && d.marker.Some? && command.Install? && command.upgrade && command.id == target
    requires d.marker.value.versionId == target && target !in d.versions && d.marker.value.phase != Applying
    requires Diverts(d.marker.value, i, target)
    ensures env.win32 && k <= |CommandOps(d, env, command)|
    ensures !OldOrNew(Recovered(d, env, command, k, [], NOBODY_ALIVE), i, target)
  {
    hide SwitchTo, OldOrNew, Reconcile;
    var m := d.marker.value;
    env := Env(true, {m.waitForPid}, 0, 0, 0, None, false);
    var first := ActivationPart(d, env, command).ops;
    var d1 := Run(d, first);
    WaitingOnly(d, env, command);
    var copy := AddVersion(target, command.metadata);
    k := |first| + 1;
    assert CommandOps(d, env, command)[..k] == first + [copy];
    RunConcat(d, first, [copy]);
    RunOne(d1, copy);
    var e := Perform(d1, copy);
    assert Recovered(d, env, command, k, [], NOBODY_ALIVE) == Run(e, CommandOps(e, NOBODY_ALIVE, Status));
    CommitPoint(e, NOBODY_ALIVE);
    assert Due(e, NOBODY_ALIVE) && Outcome(e, NOBODY_ALIVE) == Activated(i, e.marker.value);
    assert InstallationIs(Run(e, CommandOps(e, NOBODY_ALIVE, Status)), Activated(i, m));
    OneInstallation(Run(e, CommandOps(e, NOBODY_ALIVE, Status)), Activated(i, m), i, target);
  }

  lemma OneInstallation(d: Disk, a: Installation, i: Installation, target: VersionId)
    requires InstallationIs(d, a) && a != i && a != Switched(i, target)
    ensures !OldOrNew(d, i, target)
  {
  }

  lemma WaitingOnly(d: Disk, env: Env, command: Command)
    requires d.marker.Some? && command.Install? && env.win32
    requires d.marker.value.phase != Applying && d.marker.value.waitForPid in env.alive
    ensures var activation := ActivationPart(d, env, command);
      var e := Run(d, activation.ops);
      !activation.threw && e == d.(marker := e.marker) && e.marker.Some?
      && e.marker.value == d.marker.value.(phase := e.marker.value.phase)
  {
    RunOne(d, SetMarker(d.marker.value.(phase := Failed)));
  }

  lemma SwitchIsAtomic(d: Disk, i: Installation, target: VersionId, command: Command, win32: bool)
    requires InstallationIs(d, i) && SwitchOf(command, i, target)
    ensures Atomic(d, i, target, command, win32) <==> !Threatened(d, i, command, target, win32)
  {
    hide OldOrNew, Recovered, Diverts;
    if Threatened(d, i, command, target, win32) {
      if d.marker.value.versionId in d.versions {
        InstalledMarkerDiverts(d, i, target, command);
        var steps: seq<Step> := [];
        assert !OldOrNew(Recovered(d, NOBODY_ALIVE, command, 0, steps, NOBODY_ALIVE), i, target);
        assert AllRecover(steps) && OnPlatform(steps, win32);
      } else {
        var env, k := InstallingDiverts(d, i, target, command);
        var steps: seq<Step> := [];
        assert !OldOrNew(Recovered(d, env, command, k, steps, NOBODY_ALIVE), i, target);
        assert AllRecover(steps) && OnPlatform(steps, win32);
      }
    } else {
      forall env: Env, k: nat, steps: seq<Step>, last: Env |
        env.win32 == last.win32 == win32 && k <= |CommandOps(d, env, command)|
        && AllRecover(steps) && OnPlatform(steps, win32) && last.fault.None?
        ensures OldOrNew(Recovered(d, env, command, k, steps, last), i, target)
      {
        UnthreatenedKeeps(d, i, target, env, command, k, steps, last);
      }
    }
  }

  /**
   From every existing installation, an upgrade is atomic (for every cut, every environment and every
   sequence of recovering commands, themselves cut or failing) if and only if no live marker diverts it.
   */
  lemma UpgradeIsAtomic(d: Disk, i: Installation, target: VersionId, metadata: Metadata, waitForPid: Option<Pid>, parent: Pid,
                        win32: bool)
    requires InstallationIs(d, i)
    ensures var command := Install(true, target, metadata, waitForPid, parent);
      Atomic(d, i, target, command, win32) <==> !Threatened(d, i, command, target, win32)
  {
    SwitchIsAtomic(d, i, target, Install(true, target, metadata, waitForPid, parent), win32);
  }

  /** The same for a rollback, deferred or synchronous. */
  lemma RollbackIsAtomic(d: Disk, i: Installation, target: VersionId, waitForPid: Option<Pid>, win32: bool)
    requires InstallationIs(d, i) && i.previous == Some(target)
    ensures Atomic(d, i, target, RollBack(waitForPid), win32) <==> !Threatened(d, i, RollBack(waitForPid), target, win32)
  {
    SwitchIsAtomic(d, i, target, RollBack(waitForPid), win32);
  }

  // ---------- Completed switches ----------

  /** The installation a switch starts from: what the reconciliation before it leaves. */
  function StartOf(d: Disk, env: Env, command: Command): Disk {
    Run(d, ActivationPart(d, env, command).ops)
  }

  lemma SwitchStart(d: Disk, env: Env, command: Command, known: iset<VersionId>)
    requires Coherent(d, env.win32) && (command.Install? || command.RollBack?) && Installed(d) <= known
    ensures var e := StartOf(d, env, command);
      && Inside(e, Scope(env.win32, known, Possible(d, env.win32, known)))
      && (env.fault.None? ==> Base(e) == Outcome(d, env))
  {
    var c := Scope(env.win32, known, Possible(d, env.win32, known));
    ActivationPartKeeps(d, c, env, command);
    hide Reconcile, Inside, Outcome;
    assert ActivationPart(d, env, command) == Reconcile(d, env, false, None);
    if env.fault.None? { ReconcileDecides(d, c, env); }
  }

  /** After a switch is done nothing else can come out. */
  lemma DoneSettles(d: Disk, i: Installation, target: VersionId, win32: bool)
    requires SwitchDone(d, i, target, win32)
    ensures Coherent(d, win32) && Possible(d, win32, ANY_VERSION) == iset{Switched(i, target)}
  {
  }

  /** An upgrade that runs to its end from any coherent disk leaves exactly its switch, and nothing else can come out. */
  lemma CompletedUpgradeSettles(d: Disk, env: Env, id: VersionId, metadata: Metadata, waitForPid: Option<Pid>, parent: Pid)
    requires Coherent(d, env.win32)
    requires var command := Install(true, id, metadata, waitForPid, parent);
      && !ActivationPart(d, env, command).threw && !CommandPart(StartOf(d, env, command), env, command).threw
    ensures var command := Install(true, id, metadata, waitForPid, parent);
      var e, start := Run(d, CommandOps(d, env, command)), StartOf(d, env, command);
      && Coherent(start, env.win32) && SwitchDone(e, Base(start), id, env.win32)
      && Possible(e, env.win32, ANY_VERSION) == iset{Switched(Base(start), id)}
      && (env.fault.None? ==> Base(start) == Outcome(d, env))
  {
    var command := Install(true, id, metadata, waitForPid, parent);
    var start := StartOf(d, env, command);
    SwitchStart(d, env, command, ANY_VERSION);
    var c := Scope(env.win32, ANY_VERSION, Possible(d, env.win32, ANY_VERSION));
    assert Inside(start, c);
    hide ActivationPart, InstallCommand;
    var more := c.(allowed := c.allowed + iset{Switched(Base(start), id)});
    assert Inside(start, more);
    if !env.win32 { UnmarkedElsewhere(d, env, command); }
    InstallKeeps(start, more, env, id, metadata, waitForPid, parent);
    RunConcat(d, ActivationPart(d, env, command).ops, CommandPart(start, env, command).ops);
    DoneSettles(Run(d, CommandOps(d, env, command)), Base(start), id, env.win32);
  }

  lemma CompletedRollbackSettles(d: Disk, env: Env, waitForPid: Option<Pid>)
    requires Coherent(d, env.win32)
    requires var command := RollBack(waitForPid);
      && !ActivationPart(d, env, command).threw && !CommandPart(StartOf(d, env, command), env, command).threw
    ensures var command := RollBack(waitForPid);
      var e, start := Run(d, CommandOps(d, env, command)), StartOf(d, env, command);
      && Coherent(start, env.win32) && Base(start).previous.Some?
      && SwitchDone(e, Base(start), Base(start).previous.value, env.win32)
      && Possible(e, env.win32, ANY_VERSION) == iset{Switched(Base(start), Base(start).previous.value)}
      && (env.fault.None? ==> Base(start) == Outcome(d, env))
  {
    var command := RollBack(waitForPid);
    var start := StartOf(d, env, command);
    SwitchStart(d, env, command, ANY_VERSION);
    var c := Scope(env.win32, ANY_VERSION, Possible(d, env.win32, ANY_VERSION));
    assert Inside(start, c);
    hide ActivationPart, RollbackCommand;
    var more := if Base(start).previous.Some? then c.(allowed := c.allowed + iset{Switched(Base(start), Base(start).previous.value)}) else c;
    assert Inside(start, more);
    RollbackCommandKeeps(start, more, env, waitForPid);
    RunConcat(d, ActivationPart(d, env, command).ops, CommandPart(start, env, command).ops);
    DoneSettles(Run(d, CommandOps(d, env, command)), Base(start), Base(start).previous.value, env.win32);
  }

  // ---------- Where the guarantee stops ----------

  /**
   A cut upgrade threatens the next one.  From every installation without a marker, a deferred upgrade
   that stops before its pointer leaves a marker that diverts an upgrade to any third version.
   */
  lemma CutUpgradeThreatens(d: Disk, i: Installation, env: Env, id: VersionId, pid: Pid, other: Command)
    requires InstallationIs(d, i) && d.marker.None? && id in d.versions && id != i.current
    requires env.win32 && pid > 0 && pid in env.alive
    requires other.Install? && other.upgrade && other.id != id
    ensures var ops := CommandOps(d, env, Install(true, id, d.versions[id], Some(pid), pid));
      && |ops| > 5
      && var stopped := Run(d, ops[..5]);
      InstallationIs(stopped, i) && Threatened(stopped, i, other, other.id, true)
      && !Atomic(stopped, i, other.id, other, true)
  {
    var metadata := d.versions[id];
    var command := Install(true, id, metadata, Some(pid), pid);
    var previous := d.state.value;
    var next := InstalledState(previous, true, id, metadata);
    var marker := NewMarker(env, Upgrade, id, previous.current, next.previous, pid);
    var launchers := WriteLaunchersOps(env.token);
    var rest := [SetPointer(PointerFor(id, metadata)), SetState(next)] + StartFinalizerOps(env, marker);
    var ops := CommandOps(d, env, command);
    NothingToDo(d, i, env, command, launchers + [SetMarker(marker)] + rest);
    assert ops[..5] == launchers + [SetMarker(marker)];
    LaunchersOnly(d, launchers);
    RunConcat(d, launchers, [SetMarker(marker)]);
    RunOne(Run(d, launchers), SetMarker(marker));
    hide Atomic;
    SwitchIsAtomic(Run(d, ops[..5]), i, other.id, other, true);
  }

  /** Without a marker or a repair an upgrade of an installed version is its publication. */
  lemma NothingToDo(d: Disk, i: Installation, env: Env, command: Command, ops: seq<FileOp>)
    requires InstallationIs(d, i) && d.marker.None? && command.Install? && command.upgrade
    requires command.id in d.versions && d.versions[command.id] == command.metadata
    requires env.win32 && command.waitForPid.Some? && command.waitForPid.value > 0 && command.waitForPid.value in env.alive
    requires var next := InstalledState(d.state.value, true, command.id, command.metadata);
      var marker := NewMarker(env, Upgrade, command.id, d.state.value.current, next.previous, command.waitForPid.value);
      ops == WriteLaunchersOps(env.token) + [SetMarker(marker)]
        + ([SetPointer(PointerFor(command.id, command.metadata)), SetState(next)] + StartFinalizerOps(env, marker))
    ensures CommandOps(d, env, command) == ops
  {
    hide WriteLaunchersOps, StartFinalizerOps;
    assert ReadState(d) == Ok(d.state.value) && ReadStateOps(d) == [];
    assert Run(d, []) == d;
  }

  /** `readState` follows the pointer exactly when a state file exists. */
  lemma PointerNeedsStateFile(d: Disk)
    requires d.pointer.Some? && PointsAt(d, d.pointer.value.versionId)
    ensures ReadState(d).Ok?
    ensures ReadState(d).value.current == Some(d.pointer.value.versionId) <==> d.state.Some?
  {
  }

  /** So a first installation is not atomic, on any platform: stopped just before its state file, it is not recovered. */
  lemma FirstInstallIsNotAtomic(d: Disk, env: Env, id: VersionId, metadata: Metadata)
    requires d.state.None? && d.marker.None? && id !in d.versions
    ensures
      var ops := CommandOps(d, env, Install(false, id, metadata, None, 0));
      && |ops| > 0
      && var stopped := Run(d, ops[..|ops| - 1]);
      var e := Run(stopped, CommandOps(stopped, env, Status));
      PointsAt(e, id) && ReadState(e) == Ok(NO_STATE)
  {
    var command := Install(false, id, metadata, None, 0);
    var ops := CommandOps(d, env, command);
    var copy, pointer := AddVersion(id, metadata), PointerFor(id, metadata);
    var d1 := Perform(d, copy);
    RunOne(d, copy);
    var launchers := WriteLaunchersOps(env.generation);
    var next := InstalledState(NO_STATE, false, id, metadata);
    assert ops == [copy] + launchers + [SetPointer(pointer), SetState(next)];
    assert ops[..|ops| - 1] == [copy] + launchers + [SetPointer(pointer)];
    LaunchersOnly(d1, launchers);
    RunConcat(d, [copy], launchers);
    RunConcat(d, [copy] + launchers, [SetPointer(pointer)]);
    RunOne(Run(d, [copy] + launchers), SetPointer(pointer));
  }

  lemma {:induction false} LaunchersOnly(d: Disk, ops: seq<FileOp>)
    requires forall op :: op in ops ==> op.WriteStable? || op.WriteGeneration? || op.RemoveGeneration?
    ensures Run(d, ops) == d.(stable := Run(d, ops).stable, generations := Run(d, ops).generations)
    decreases ops
  {
    if ops != [] {
      assert ops[0] in ops;
      LaunchersOnly(Perform(d, ops[0]), ops[1..]);
    }
  }

  /** A plain install leaves a pending activation in place. */
  lemma PlainInstallKeepsMarker(d: Disk, env: Env, id: VersionId, metadata: Metadata, parent: Pid)
    ensures Run(d, InstallCommand(d, env, false, id, metadata, None, parent).ops).marker == d.marker
  {
    var copy := if id in d.versions then [] else [AddVersion(id, metadata)];
    var switch := SwitchTo(Run(d, copy), env, false, id, metadata, None, parent).ops;
    forall op | op in switch
      ensures !op.RetireMarker? && !op.SetMarker?
    {
    }
    KeepsMarker(d, InstallCommand(d, env, false, id, metadata, None, parent).ops);
  }

  /**
   And so can be undone by it.  An installation at some version other than the activation's own
   keeps that version through the next command, once the awaited process is dead, if and only if
   it is not the version the activation was upgrading from.
   */
  lemma PendingActivationUndoes(d: Disk, env: Env, i: Installation)
    requires InstallationIs(d, i)
    requires d.marker.Some? && env.win32 && env.fault.None?
    requires var m := d.marker.value;
      && m.versionId in d.versions && m.versionId != i.current && m.attempts < MAXIMUM_ATTEMPTS
      && m.waitForPid !in env.alive
    ensures PointsAt(Run(d, CommandOps(d, env, Status)), i.current) <==> d.marker.value.sourceVersionId != Some(i.current)
  {
    CommitPoint(d, env);
  }

  /**
   An input: an upgrade from 1 to 2 was completed and still waits for its caller; then 1 is installed
   again, and reported installed; then the caller exits, and the next command goes back to 2.
   */
  lemma ReinstallIsUndone(d: Disk, env: Env, one: VersionId, two: VersionId, m1: Metadata, m2: Metadata)
    requires one != two && env.win32 && env.fault.None?
    requires d.versions == map[one := m1, two := m2] && InstallationIs(d, Installation(two, Some(one)))
    requires d.marker == Some(Marker(7, Upgrade, Waiting, two, Some(one), Some(one), 5, 600000, 0))
    requires env.alive == {5} && env.now < 600000
    ensures var e := Run(d, CommandOps(d, env, Install(false, one, m1, None, 5)));
      && InstallationIs(e, Installation(one, Some(two)))
      && InstallationIs(Run(e, CommandOps(e, env.(alive := {}), Status)), Installation(two, Some(one)))
  {
    var command, pointer := Install(false, one, m1, None, 5), SetPointer(PointerFor(one, m1));
    var launchers, published := WriteLaunchersOps(env.generation), SetState(InstalledState(d.state.value, false, one, m1));
    PlainInstallWaits(d, env, one, two, m1);
    LaunchersOnly(d, launchers);
    var d1 := Run(d, launchers);
    var e := Perform(Perform(d1, pointer), published);
    hide CommandOps, WriteLaunchersOps;
    RunConcat(d, launchers, [pointer, published]);
    RunConcat(d1, [pointer], [published]);
    assert [pointer] + [published] == [pointer, published];
    RunOne(d1, pointer);
    RunOne(Perform(d1, pointer), published);
    assert InstallationIs(e, Installation(one, Some(two))) && e.marker == d.marker;
    CommitPoint(e, env.(alive := {}));
  }

  /** Beside a marker that still waits, a plain install is its publication. */
  lemma PlainInstallWaits(d: Disk, env: Env, one: VersionId, two: VersionId, m1: Metadata)
    requires one in d.versions && d.versions[one] == m1 && InstallationIs(d, Installation(two, Some(one)))
    requires env.win32 && d.marker.Some? && d.marker.value.phase == Waiting
    requires d.marker.value.waitForPid in env.alive && env.now < d.marker.value.deadline
    ensures CommandOps(d, env, Install(false, one, m1, None, 5)) ==
      WriteLaunchersOps(env.generation) + [SetPointer(PointerFor(one, m1)), SetState(InstalledState(d.state.value, false, one, m1))]
  {
    hide WriteLaunchersOps;
    assert Run(d, []) == d && ReadStateOps(d) == [];
  }
}
