/**
 The switches of the installer, upgrade and rollback, at every cut; and whole runs of commands, each cut
 anywhere: nothing but installations that completed switches lead to can come out.
 */
module InstallerSwitches {
  import opened Common
  import opened InstallerModel
  import opened InstallerRecovery

  // ---------- The switches ----------

  /** The activation a switch of `i` to `target` leaves for later. */
  predicate Own(m: Marker, i: Installation, target: VersionId) {
    && m.versionId == target && m.sourceVersionId == Some(i.current)
    && m.previousVersionId == Switched(i, target).previous
  }

  /** Publishing with no other marker in the way. */
  lemma PublishKeeps(d: Disk, c: Scope, i: Installation, target: VersionId, env: Env, activation: Option<Marker>,
                     launchers: seq<FileOp>, state: InstallState)
    requires Inside(d, c) && InstallationIs(d, i) && d.marker.None? && target in d.versions && Switched(i, target) in c.allowed
    requires activation.Some? ==> c.win32 && Own(activation.value, i, target)
    requires forall op :: op in launchers ==> op.WriteStable? || op.WriteGeneration? || op.RemoveGeneration?
    requires StateIs(d.(state := Some(state)), Switched(i, target))
    ensures var ops := PublishOps(env, activation, launchers, PointerFor(target, d.versions[target]), state);
      var e := Run(d, ops);
      && AtEveryCut(d, ops, In(c)) && Inside(e, c) && InstallationIs(e, Switched(i, target))
      && e.versions == d.versions && (e.marker.Some? ==> c.win32 && Own(e.marker.value, i, target))
  {
    var pointer, published := SetPointer(PointerFor(target, d.versions[target])), SetState(state);
    var mark := if activation.Some? then [SetMarker(activation.value)] else [];
    var start := if activation.Some? then StartFinalizerOps(env, activation.value) else [];
    LaunchersKeep(d, launchers, c);
    var d1 := Run(d, launchers);
    assert InstallationIs(d1, i) && StateIs(d1.(state := Some(state)), Switched(i, target)) && d1.marker == d.marker;
    MarkKeeps(d1, c, i, target, activation);
    var d2 := d1.(marker := activation);
    PointerAndState(d2, c, i, target, state);
    var d4 := Perform(Perform(d2, pointer), published);
    hide AtEveryCut, Run, Inside, StateIs, PointsAt;
    CutsConcat(d, launchers, mark, In(c));
    RunConcat(d, launchers, mark);
    CutsConcat(d, launchers + mark, [pointer, published], In(c));
    RunConcat(d, launchers + mark, [pointer, published]);
    NoOps(d4, c);
    if activation.Some? { FinalizerStartKeeps(d4, c, env, activation.value); }
    CutsConcat(d, launchers + mark + [pointer, published], start, In(c));
    RunConcat(d, launchers + mark + [pointer, published], start);
    var e := Run(d4, start);
    assert e == d4.(marker := e.marker);
    MarkerAside(d4, e, Switched(i, target));
  }

  lemma MarkerAside(d: Disk, e: Disk, i: Installation)
    requires e == d.(marker := e.marker) && InstallationIs(d, i)
    ensures InstallationIs(e, i)
  {
  }

  /** The switch's own marker, where there was none. */
  lemma MarkKeeps(d: Disk, c: Scope, i: Installation, target: VersionId, activation: Option<Marker>)
    requires Inside(d, c) && InstallationIs(d, i) && d.marker.None? && Switched(i, target) in c.allowed
    requires activation.Some? ==> c.win32 && Own(activation.value, i, target)
    ensures var mark := if activation.Some? then [SetMarker(activation.value)] else [];
      AtEveryCut(d, mark, In(c)) && Run(d, mark) == d.(marker := activation)
  {
    if activation.Some? {
      CutsOne(d, SetMarker(activation.value), In(c));
    } else {
      NoOps(d, c);
      assert d == d.(marker := activation);
    }
  }

  /** Pointer, then state file. */
  lemma PointerAndState(d: Disk, c: Scope, i: Installation, target: VersionId, state: InstallState)
    requires Inside(d.(marker := None), c) && InstallationIs(d, i) && target in d.versions && Switched(i, target) in c.allowed
    requires d.marker.Some? ==> c.win32 && Own(d.marker.value, i, target)
    requires StateIs(d.(state := Some(state)), Switched(i, target))
    ensures var ops := [SetPointer(PointerFor(target, d.versions[target])), SetState(state)];
      && AtEveryCut(d, ops, In(c))
      && Run(d, ops) == Perform(Perform(d, ops[0]), ops[1])
      && Inside(Run(d, ops), c) && InstallationIs(Run(d, ops), Switched(i, target))
  {
    var pointer, published := SetPointer(PointerFor(target, d.versions[target])), SetState(state);
    var d1 := Perform(d, pointer);
    var d2 := Perform(d1, published);
    assert Inside(d, c) && Inside(d1, c) && Inside(d2, c);
    hide Inside;
    CutsOne(d, pointer, In(c));
    CutsOne(d1, published, In(c));
    CutsConcat(d, [pointer], [published], In(c));
    RunConcat(d, [pointer], [published]);
    assert [pointer] + [published] == [pointer, published];
  }

  lemma FinalizerStartKeeps(d: Disk, c: Scope, env: Env, m: Marker)
    requires Inside(d, c) && d.marker == Some(m)
    ensures var e := Run(d, StartFinalizerOps(env, m));
      && AtEveryCut(d, StartFinalizerOps(env, m), In(c)) && Inside(e, c)
      && e == d.(marker := e.marker) && e.marker.Some? && Continues(e.marker.value, m)
  {
    hide Inside;
    var waiting, failed := m.(phase := Waiting), m.(phase := Failed);
    MarkerKeeps(d, c, waiting);
    if env.spawnFails {
      var d1 := d.(marker := Some(waiting));
      MarkerKeeps(d1, c, failed);
      CutsConcat(d, [SetMarker(waiting)], [SetMarker(failed)], In(c));
      RunConcat(d, [SetMarker(waiting)], [SetMarker(failed)]);
    } else {
      assert StartFinalizerOps(env, m) == [SetMarker(waiting)];
    }
  }

  /** Retiring a marker first makes room for the switch's own. */
  lemma RetireKeeps(d: Disk, c: Scope)
    requires Inside(d, c)
    ensures AtEveryCut(d, RetireExistingOps(d), In(c))
    ensures Run(d, RetireExistingOps(d)) == d.(marker := None) && Inside(d.(marker := None), c)
  {
    if d.marker.Some? { CutsOne(d, RetireMarker, In(c)); } else { assert d == d.(marker := None); }
  }

  /** Repair, then make room, then publish: the common shape of the switches. */
  lemma ShapeKeeps(d: Disk, c: Scope, repair: seq<FileOp>, retire: seq<FileOp>, publish: seq<FileOp>)
    requires AtEveryCut(d, repair, In(c)) && AtEveryCut(Run(d, repair), retire, In(c))
    requires AtEveryCut(Run(Run(d, repair), retire), publish, In(c))
    ensures AtEveryCut(d, repair + (retire + publish), In(c))
    ensures Run(d, repair + (retire + publish)) == Run(Run(Run(d, repair), retire), publish)
  {
    CutsConcat(Run(d, repair), retire, publish, In(c));
    RunConcat(Run(d, repair), retire, publish);
    CutsConcat(d, repair, retire + publish, In(c));
    RunConcat(d, repair, retire + publish);
  }

  lemma SwitchKeeps(d: Disk, c: Scope, env: Env, id: VersionId, metadata: Metadata, waitForPid: Option<Pid>, parent: Pid)
    requires Inside(d, c) && env.win32 == c.win32 && (!c.win32 ==> d.marker.None?)
    requires id in d.versions && d.versions[id] == metadata && Switched(Base(d), id) in c.allowed
    ensures var switch := SwitchTo(d, env, true, id, metadata, waitForPid, parent);
      && AtEveryCut(d, switch.ops, In(c)) && Inside(Run(d, switch.ops), c)
      && (!switch.threw ==> SwitchDone(Run(d, switch.ops), Base(d), id, c.win32))
  {
    var i := Base(d);
    hide AtEveryCut, Run, Inside, WriteLaunchersOps, PublishOps;
    var repair := ReadStateOps(d);
    RepairKeeps(d, c);
    var d1 := Run(d, repair);
    Last(d, repair, c);
    var previous := ReadState(d).value;
    var next := InstalledState(previous, true, id, metadata);
    RetireKeeps(d1, c);
    NoOps(d1, c);
    var free := d1.(marker := None);
    match DeferredPid(env, true, false, waitForPid, parent)
    case Error =>
    case Ok(None) =>
      var launchers := WriteLaunchersOps(env.generation);
      var publish := PublishOps(env, None, launchers, PointerFor(id, metadata), next);
      LaunchersOf(env.generation);
      PublishKeeps(d1, c, i, id, env, None, launchers, next);
      CutsConcat(d, repair, publish, In(c));
      RunConcat(d, repair, publish);
    case Ok(Some(pid)) =>
      var marker := NewMarker(env, Upgrade, id, previous.current, next.previous, pid);
      var launchers := WriteLaunchersOps(env.token);
      LaunchersOf(env.token);
      PublishKeeps(free, c, i, id, env, Some(marker), launchers, next);
      ShapeKeeps(d, c, repair, RetireExistingOps(d1),
                 PublishOps(env, Some(marker), launchers, PointerFor(id, metadata), next));
  }

  lemma LaunchersOf(generation: Token)
    ensures forall op :: op in WriteLaunchersOps(generation) ==> op.WriteStable? || op.WriteGeneration? || op.RemoveGeneration?
  {
  }

  /** The switch is complete, and nothing else can come of it. */
  predicate SwitchDone(d: Disk, i: Installation, target: VersionId, win32: bool) {
    && InstallationIs(d, Switched(i, target))
    && (d.marker.Some? ==> win32 && Own(d.marker.value, i, target))
  }

  lemma InstallKeeps(d: Disk, c: Scope, env: Env, id: VersionId, metadata: Metadata, waitForPid: Option<Pid>, parent: Pid)
    requires Inside(d, c) && env.win32 == c.win32 && (!c.win32 ==> d.marker.None?)
    requires id in c.known && Switched(Base(d), id) in c.allowed
    ensures var install := InstallCommand(d, env, true, id, metadata, waitForPid, parent);
      && AtEveryCut(d, install.ops, In(c)) && Inside(Run(d, install.ops), c)
      && (!install.threw ==> SwitchDone(Run(d, install.ops), Base(d), id, c.win32))
  {
    hide SwitchTo;
    NoOps(d, c);
    if id in d.versions {
      if d.versions[id] == metadata {
        SwitchKeeps(d, c, env, id, metadata, waitForPid, parent);
        var ops := SwitchTo(d, env, true, id, metadata, waitForPid, parent).ops;
        assert [] + ops == ops;
      }
    } else {
      var copy := AddVersion(id, metadata);
      var d1 := Perform(d, copy);
      CutsOne(d, copy, In(c));
      SwitchKeeps(d1, c, env, id, metadata, waitForPid, parent);
      var ops := SwitchTo(d1, env, true, id, metadata, waitForPid, parent).ops;
      CutsConcat(d, [copy], ops, In(c));
      RunConcat(d, [copy], ops);
    }
  }

  lemma RollbackCommandKeeps(d: Disk, c: Scope, env: Env, waitForPid: Option<Pid>)
    requires Inside(d, c) && env.win32 == c.win32
    requires Base(d).previous.Some? ==> Switched(Base(d), Base(d).previous.value) in c.allowed
    ensures var rollback := RollbackCommand(d, env, waitForPid);
      && AtEveryCut(d, rollback.ops, In(c)) && Inside(Run(d, rollback.ops), c)
      && (!rollback.threw ==>
            Base(d).previous.Some? && SwitchDone(Run(d, rollback.ops), Base(d), Base(d).previous.value, c.win32))
  {
    var i, repair := Base(d), ReadStateOps(d);
    RollbackReads(d, c, env);
    RepairKeeps(d, c);
    Last(d, repair, c);
    RollbackIs(d, env, waitForPid);
    hide AtEveryCut, Run, Inside, WriteLaunchersOps, PublishOps, LegacyLaunchersOps, ReadStateOps, ReadState, SwitchDone,
      RetireExistingOps, RemoveAllOps, RolledBackState, StateIs, InstallationIs, NewMarker, Own, Base, Switched, RollbackCommand;
    if i.previous.Some? && i.previous.value in d.versions {
      var current, target := ReadState(d).value, i.previous.value;
      var next := RolledBackState(current, d.versions[target]);
      match DeferredPid(env, false, true, waitForPid, 0)
      case Error =>
      case Ok(None) => SynchronousKeeps(d, c, env, next);
      case Ok(Some(pid)) =>
        DeferredKeeps(d, c, env, next, NewMarker(env, Rollback, target, current.current, next.previous, pid));
    }
  }

  /** The rollback of a readable state, case by case. */
  lemma RollbackIs(d: Disk, env: Env, waitForPid: Option<Pid>)
    requires ReadState(d).Ok? && ReadState(d).value.current.Some? && ReadState(d).value.current.value in d.versions
    ensures var current, repair, rollback := ReadState(d).value, ReadStateOps(d), RollbackCommand(d, env, waitForPid);
      if current.previous.None? || current.previous.value !in d.versions then rollback == Effect(repair, true)
      else
        var target := current.previous.value;
        var m := d.versions[target];
        var next := RolledBackState(current, m);
        match DeferredPid(env, false, true, waitForPid, 0)
        case Error => rollback == Effect(repair, true)
        case Ok(None) =>
          var launchers := if env.win32 then LegacyLaunchersOps(d.generations) else WriteLaunchersOps(env.generation);
          var main := repair + (RetireExistingOps(d) + PublishOps(env, None, launchers, PointerFor(target, m), next));
          var d1 := Run(d, main);
          rollback == Effect(main + (RetireExistingOps(d1) + if env.win32 then RemoveAllOps(d1.generations) else []), false)
        case Ok(Some(pid)) =>
          var marker := NewMarker(env, Rollback, target, current.current, next.previous, pid);
          rollback == Effect(repair + (RetireExistingOps(d)
            + PublishOps(env, Some(marker), WriteLaunchersOps(env.token), PointerFor(target, m), next)), false)
  {
    hide ReadState, ReadStateOps, PublishOps, LegacyLaunchersOps, WriteLaunchersOps, RemoveAllOps, Run;
  }

  /** What a rollback reads, and what it will write. */
  lemma RollbackReads(d: Disk, c: Scope, env: Env)
    requires Inside(d, c)
    ensures ReadState(d).Ok?
    ensures var current := ReadState(d).value;
      && current.previous == Base(d).previous && current.current.Some? && current.current.value in d.versions
      && (current.previous.Some? && current.previous.value in d.versions ==>
            var target := current.previous.value;
            var next := RolledBackState(current, d.versions[target]);
            && StateIs(d.(state := Some(next)), Switched(Base(d), target))
            && forall pid :: Own(NewMarker(env, Rollback, target, current.current, next.previous, pid), Base(d), target))
  {
    hide AtEveryCut;
    RepairKeeps(d, c);
  }

  lemma DeferredKeeps(d: Disk, c: Scope, env: Env, next: InstallState, marker: Marker)
    requires Inside(d, c) && c.win32 && Base(d).previous.Some? && Base(d).previous.value in d.versions
    requires Switched(Base(d), Base(d).previous.value) in c.allowed && Own(marker, Base(d), Base(d).previous.value)
    requires StateIs(d.(state := Some(next)), Switched(Base(d), Base(d).previous.value))
    ensures
      var target := Base(d).previous.value;
      var ops := ReadStateOps(d) + (RetireExistingOps(d)
        + PublishOps(env, Some(marker), WriteLaunchersOps(env.token), PointerFor(target, d.versions[target]), next));
      AtEveryCut(d, ops, In(c)) && Inside(Run(d, ops), c) && SwitchDone(Run(d, ops), Base(d), target, c.win32)
  {
    var i, target, repair := Base(d), Base(d).previous.value, ReadStateOps(d);
    hide AtEveryCut, Run, Inside, WriteLaunchersOps, PublishOps, ReadStateOps, ReadState;
    RepairKeeps(d, c);
    var d1 := Run(d, repair);
    RetireKeeps(d1, c);
    LaunchersOf(env.token);
    PublishKeeps(d1.(marker := None), c, i, target, env, Some(marker), WriteLaunchersOps(env.token), next);
    ShapeKeeps(d, c, repair, RetireExistingOps(d1),
               PublishOps(env, Some(marker), WriteLaunchersOps(env.token), PointerFor(target, d.versions[target]), next));
  }

  lemma SynchronousKeeps(d: Disk, c: Scope, env: Env, next: InstallState)
    requires Inside(d, c) && Base(d).previous.Some? && Base(d).previous.value in d.versions
    requires Switched(Base(d), Base(d).previous.value) in c.allowed
    requires StateIs(d.(state := Some(next)), Switched(Base(d), Base(d).previous.value))
    ensures
      var target := Base(d).previous.value;
      var launchers := if env.win32 then LegacyLaunchersOps(d.generations) else WriteLaunchersOps(env.generation);
      var main := ReadStateOps(d)
        + (RetireExistingOps(d) + PublishOps(env, None, launchers, PointerFor(target, d.versions[target]), next));
      var d1 := Run(d, main);
      var ops := main + (RetireExistingOps(d1) + if env.win32 then RemoveAllOps(d1.generations) else []);
      AtEveryCut(d, ops, In(c)) && Inside(Run(d, ops), c) && SwitchDone(Run(d, ops), Base(d), target, c.win32)
  {
    var i, target, repair := Base(d), Base(d).previous.value, ReadStateOps(d);
    hide AtEveryCut, Run, Inside, PublishOps, ReadStateOps, ReadState;
    RepairKeeps(d, c);
    var repaired := Run(d, repair);
    RetireKeeps(repaired, c);
    var launchers := if env.win32 then LegacyLaunchersOps(d.generations) else WriteLaunchersOps(env.generation);
    var publish := PublishOps(env, None, launchers, PointerFor(target, d.versions[target]), next);
    PublishKeeps(repaired.(marker := None), c, i, target, env, None, launchers, next);
    ShapeKeeps(d, c, repair, RetireExistingOps(d), publish);
    var main := repair + (RetireExistingOps(d) + publish);
    var d1 := Run(d, main);
    Last(d, main, c);
    var tidy := if env.win32 then RemoveAllOps(d1.generations) else [];
    RetireKeeps(d1, c);
    var d2 := d1.(marker := None);
    LaunchersKeep(d2, tidy, c);
    CutsConcat(d1, RetireExistingOps(d1), tidy, In(c));
    RunConcat(d1, RetireExistingOps(d1), tidy);
    CutsConcat(d, main, RetireExistingOps(d1) + tidy, In(c));
    RunConcat(d, main, RetireExistingOps(d1) + tidy);
    Last(d, main + (RetireExistingOps(d1) + tidy), c);
  }

  // ---------- Whole commands and runs ----------

  /** Upgrades, rollbacks and recovering commands; a plain install does not make room for its switch. */
  predicate Admissible(command: Command) {
    command.Install? ==> command.upgrade
  }

  /** The installations that a command may lead to, from any of those that may come out before it. */
  ghost function Next(s: iset<Installation>, command: Command): iset<Installation> {
    match command
    case Install(_, id, _, _, _) => s + iset i | i in s :: Switched(i, id)
    case RollBack(_) => s + iset i | i in s && i.previous.Some? :: Switched(i, i.previous.value)
    case _ => s
  }

  /** At every cut of a command nothing can come out but what could before, or its own switch of that. */
  lemma CommandKeeps(d: Disk, before: Scope, c: Scope, env: Env, command: Command)
    requires Inside(d, before) && Admissible(command) && env.win32 == c.win32
    requires c == before.(allowed := c.allowed) && Next(before.allowed, command) <= c.allowed
    requires command.Install? ==> command.id in c.known || ActivationPart(d, env, command).threw
    ensures AtEveryCut(d, CommandOps(d, env, command), In(c))
  {
    hide ActivationPart, InstallCommand, RollbackCommand;
    assert before.allowed <= c.allowed;
    assert Inside(d, c);
    if Recovers(command) {
      RecoveryKeeps(d, c, env, command);
    } else {
      var activation := ActivationPart(d, env, command);
      ActivationPartKeeps(d, before, env, command);
      ActivationPartKeeps(d, c, env, command);
      var d1 := Run(d, activation.ops);
      if !activation.threw {
        if !env.win32 { UnmarkedElsewhere(d, env, command); }
        if command.Install? {
          InstallKeeps(d1, c, env, command.id, command.metadata, command.waitForPid, command.parent);
        } else {
          RollbackCommandKeeps(d1, c, env, command.waitForPid);
        }
        CutsConcat(d, activation.ops, CommandPart(d1, env, command).ops, In(c));
      }
    }
  }

  /** Away from Windows a marker stops every command. */
  lemma UnmarkedElsewhere(d: Disk, env: Env, command: Command)
    requires !Recovers(command) && !ActivationPart(d, env, command).threw && !env.win32
    ensures Run(d, ActivationPart(d, env, command).ops).marker.None?
  {
  }

  /** What may come out after a run. */
  ghost function Reachable(s: iset<Installation>, steps: seq<Step>): iset<Installation>
    decreases |steps|
  {
    if steps == [] then s else Reachable(Next(s, steps[0].command), steps[1..])
  }

  ghost predicate AllAdmissible(steps: seq<Step>) {
    forall s :: s in steps ==> Admissible(s.command)
  }

  ghost const ANY_VERSION: iset<VersionId> := iset v: VersionId | true

  lemma {:induction false} RunKeeps(d: Disk, c: Scope, steps: seq<Step>)
    requires Inside(d, c) && c.known == ANY_VERSION && AllAdmissible(steps) && OnPlatform(steps, c.win32)
    ensures Inside(After(d, steps), c.(allowed := Reachable(c.allowed, steps)))
    decreases |steps|
  {
    if steps != [] {
      hide Inside, CommandOps, Next;
      var s := steps[0];
      assert s in steps;
      var later := c.(allowed := Next(c.allowed, s.command));
      CommandKeeps(d, c, later, s.env, s.command);
      StepInside(d, later, s);
      RunKeeps(Run(d, StepOps(d, s)), later, steps[1..]);
    } else {
      assert c.(allowed := Reachable(c.allowed, steps)) == c;
    }
  }

  /**
   Over any run of upgrades, rollbacks and recoveries, each cut anywhere or disturbed by a failing
   operation, from any coherent disk with any marker: one command that runs to its end leaves exactly
   an installation, pointer and state file in agreement.  It is the one before or the one after the
   switch that is then pending, and it comes from the starting installation by completing some of the
   run's switches in order.
   */
  lemma EveryRunRecovers(d: Disk, steps: seq<Step>, last: Env)
    requires Coherent(d, last.win32) && AllAdmissible(steps) && OnPlatform(steps, last.win32) && last.fault.None?
    ensures var e := After(d, steps);
      && Coherent(e, last.win32)
      && InstallationIs(Run(e, CommandOps(e, last, Status)), Outcome(e, last))
      && Outcome(e, last) in Reachable(Possible(d, last.win32, ANY_VERSION), steps)
  {
    var c := Scope(last.win32, ANY_VERSION, Possible(d, last.win32, ANY_VERSION));
    RunKeeps(d, c, steps);
    CommitPoint(After(d, steps), last);
  }

  // ---------- Runs with plain installs ----------

  ghost const ANY_INSTALLATION: iset<Installation> := iset i: Installation | true

  /** Coherent, whatever may come out. */
  ghost function Anything(win32: bool): Scope {
    Scope(win32, ANY_VERSION, ANY_INSTALLATION)
  }

  lemma AnythingIsCoherent(d: Disk, win32: bool)
    ensures Inside(d, Anything(win32)) <==> Coherent(d, win32)
  {
  }

  /** A plain install leaves its switch of the installation it found, beside whatever marker is there. */
  lemma PlainSwitchKeeps(d: Disk, env: Env, id: VersionId, metadata: Metadata, waitForPid: Option<Pid>, parent: Pid)
    requires Coherent(d, env.win32) && (!env.win32 ==> d.marker.None?)
    requires id in d.versions && d.versions[id] == metadata
    ensures var switch, c := SwitchTo(d, env, false, id, metadata, waitForPid, parent), Anything(env.win32);
      && AtEveryCut(d, switch.ops, In(c))
      && (!switch.threw ==> InstallationIs(Run(d, switch.ops), Switched(Base(d), id)))
  {
    var c, i, repair := Anything(env.win32), Base(d), ReadStateOps(d);
    var next := InstalledState(ReadState(d).value, false, id, metadata);
    var launchers, publish := WriteLaunchersOps(env.generation), [SetPointer(PointerFor(id, metadata)), SetState(next)];
    AnythingIsCoherent(d, env.win32);
    RepairKeeps(d, c);
    var d1 := Run(d, repair);
    assert StateIs(d1.(state := Some(next)), Switched(i, id)) && d1.versions == d.versions && d1.marker == d.marker;
    PlainSwitchIs(d, env, id, metadata, waitForPid, parent);
    hide AtEveryCut, Run, Inside, WriteLaunchersOps, ReadState, ReadStateOps, InstalledState, SwitchTo, Base, Switched, Coherent;
    if waitForPid.None? {
      LaunchersOf(env.generation);
      LaunchersKeep(d1, launchers, c);
      var d2 := Run(d1, launchers);
      assert StateIs(d2.(state := Some(next)), Switched(i, id)) && InstallationIs(d2, i);
      hide StateIs, PointsAt;
      PlainPublish(d2, c, i, id, next);
      ShapeKeeps(d, c, repair, launchers, publish);
    }
  }

  lemma PlainSwitchIs(d: Disk, env: Env, id: VersionId, metadata: Metadata, waitForPid: Option<Pid>, parent: Pid)
    requires ReadState(d).Ok?
    ensures SwitchTo(d, env, false, id, metadata, waitForPid, parent) ==
      if waitForPid.Some? then Effect(ReadStateOps(d), true)
      else Effect(ReadStateOps(d) + (WriteLaunchersOps(env.generation)
        + [SetPointer(PointerFor(id, metadata)), SetState(InstalledState(ReadState(d).value, false, id, metadata))]), false)
  {
    hide ReadState, ReadStateOps, InstalledState, WriteLaunchersOps;
    var publish := [SetPointer(PointerFor(id, metadata)), SetState(InstalledState(ReadState(d).value, false, id, metadata))];
    assert WriteLaunchersOps(env.generation) + [] + publish + [] == WriteLaunchersOps(env.generation) + publish;
  }

  lemma PlainPublish(d: Disk, c: Scope, i: Installation, id: VersionId, state: InstallState)
    requires Inside(d, c) && c == Anything(c.win32) && InstallationIs(d, i) && id in d.versions
    requires !c.win32 ==> d.marker.None?
    requires StateIs(d.(state := Some(state)), Switched(i, id))
    ensures var ops := [SetPointer(PointerFor(id, d.versions[id])), SetState(state)];
      AtEveryCut(d, ops, In(c)) && InstallationIs(Run(d, ops), Switched(i, id))
  {
    var pointer, published := SetPointer(PointerFor(id, d.versions[id])), SetState(state);
    var d1 := Perform(d, pointer);
    var d2 := Perform(d1, published);
    assert Inside(d1, c) && Inside(d2, c);
    hide Inside;
    CutsOne(d, pointer, In(c));
    CutsOne(d1, published, In(c));
    CutsConcat(d, [pointer], [published], In(c));
    RunConcat(d, [pointer], [published]);
    assert [pointer] + [published] == [pointer, published];
  }

  lemma PlainInstallKeeps(d: Disk, env: Env, id: VersionId, metadata: Metadata, waitForPid: Option<Pid>, parent: Pid)
    requires Coherent(d, env.win32) && (!env.win32 ==> d.marker.None?)
    ensures var install, c := InstallCommand(d, env, false, id, metadata, waitForPid, parent), Anything(env.win32);
      && AtEveryCut(d, install.ops, In(c))
      && (!install.threw ==> InstallationIs(Run(d, install.ops), Switched(Base(d), id)))
  {
    hide SwitchTo;
    var c := Anything(env.win32);
    NoOps(d, c);
    if id in d.versions {
      if d.versions[id] == metadata {
        PlainSwitchKeeps(d, env, id, metadata, waitForPid, parent);
        var ops := SwitchTo(d, env, false, id, metadata, waitForPid, parent).ops;
        assert [] + ops == ops;
      }
    } else {
      var copy := AddVersion(id, metadata);
      var d1 := Perform(d, copy);
      CutsOne(d, copy, In(c));
      PlainSwitchKeeps(d1, env, id, metadata, waitForPid, parent);
      var ops := SwitchTo(d1, env, false, id, metadata, waitForPid, parent).ops;
      CutsConcat(d, [copy], ops, In(c));
      RunConcat(d, [copy], ops);
    }
  }

  lemma AnyCommandKeeps(d: Disk, env: Env, command: Command)
    requires Coherent(d, env.win32)
    ensures AtEveryCut(d, CommandOps(d, env, command), In(Anything(env.win32)))
  {
    hide ActivationPart, InstallCommand;
    var c := Anything(env.win32);
    AnythingIsCoherent(d, env.win32);
    if Admissible(command) {
      CommandKeeps(d, c, c, env, command);
    } else {
      var activation := ActivationPart(d, env, command);
      ActivationPartKeeps(d, c, env, command);
      var d1 := Run(d, activation.ops);
      AnythingIsCoherent(d1, env.win32);
      if !activation.threw {
        if !env.win32 { UnmarkedElsewhere(d, env, command); }
        PlainInstallKeeps(d1, env, command.id, command.metadata, command.waitForPid, command.parent);
        CutsConcat(d, activation.ops, CommandPart(d1, env, command).ops, In(c));
      }
    }
  }

  lemma {:induction false} AnyRunKeeps(d: Disk, win32: bool, steps: seq<Step>)
    requires Coherent(d, win32) && OnPlatform(steps, win32)
    ensures Coherent(After(d, steps), win32)
    decreases |steps|
  {
    if steps != [] {
      hide Coherent, CommandOps;
      var s := steps[0];
      assert s in steps;
      AnyCommandKeeps(d, s.env, s.command);
      StepInside(d, Anything(win32), s);
      AnythingIsCoherent(Run(d, StepOps(d, s)), win32);
      AnyRunKeeps(Run(d, StepOps(d, s)), win32, steps[1..]);
    }
  }

  /**
   Over any run of any commands, plain installs included, each cut anywhere: one command that runs to its
   end leaves exactly an installation, never a mix; which one is as for every coherent disk.
   */
  lemma EveryRunIsWhole(d: Disk, steps: seq<Step>, last: Env)
    requires Coherent(d, last.win32) && OnPlatform(steps, last.win32) && last.fault.None?
    ensures var e := After(d, steps);
      && Coherent(e, last.win32)
      && InstallationIs(Run(e, CommandOps(e, last, Status)), Outcome(e, last))
  {
    AnyRunKeeps(d, last.win32, steps);
    CommitPoint(After(d, steps), last);
  }
}
