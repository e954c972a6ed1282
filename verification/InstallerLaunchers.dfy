/**
 Windows launchers stay usable at every crash point: generations are written before the
 trampolines that name them and removed only after both stable launchers are self-contained.
 */
module InstallerLaunchers {
  import opened Common
  import opened InstallerModel

  /** Every stable launcher is self-contained or names a generation file that exists. */
  ghost predicate LaunchersSound(d: Disk) {
    forall n :: n in d.stable && d.stable[n].Trampoline? ==> Generation(n, d.stable[n].generation) in d.generations
  }

  ghost predicate AllDirect(d: Disk) {
    forall n :: n in d.stable ==> d.stable[n].Direct?
  }

  predicate Quiet(op: FileOp) {
    !op.WriteStable? && !op.RemoveGeneration?
  }

  /** Operations on other files, and new generations, leave the launchers as they are. */
  lemma {:induction false} QuietCuts(d: Disk, ops: seq<FileOp>)
    requires LaunchersSound(d)
    requires forall op :: op in ops ==> Quiet(op)
    ensures AtEveryCut(d, ops, LaunchersSound)
    ensures LaunchersSound(Run(d, ops)) && Run(d, ops).stable == d.stable
    decreases ops
  {
    if ops != [] {
      assert ops[0] in ops;
      QuietCuts(Perform(d, ops[0]), ops[1..]);
    }
  }

  lemma {:induction false} RemoveAllCuts(d: Disk, gs: seq<Generation>)
    requires AllDirect(d)
    ensures AtEveryCut(d, RemoveAllOps(gs), LaunchersSound)
    ensures AllDirect(Run(d, RemoveAllOps(gs)))
    decreases gs
  {
    if gs != [] {
      assert RemoveAllOps(gs)[1..] == RemoveAllOps(gs[1..]);
      RemoveAllCuts(Perform(d, RemoveGeneration(gs[0])), gs[1..]);
    }
  }

  /** The order inside `writeLaunchers`: both generations first, then both trampolines. */
  lemma WriteLaunchersCuts(d: Disk, generation: Token)
    requires LaunchersSound(d)
    ensures AtEveryCut(d, WriteLaunchersOps(generation), LaunchersSound)
    ensures LaunchersSound(Run(d, WriteLaunchersOps(generation)))
  {
    var ops := WriteLaunchersOps(generation);
    var first, last := ops[..2], ops[2..];
    QuietCuts(d, first);
    var d2 := Run(d, first);
    assert first[1..] == [ops[1]];
    assert d2 == Run(Perform(d, ops[0]), [ops[1]]) == Perform(Perform(d, ops[0]), ops[1]);
    assert Generation(Cli, generation) in d2.generations && Generation(Gateway, generation) in d2.generations;
    CutsOne(d2, last[0], LaunchersSound);
    CutsOne(Perform(d2, last[0]), last[1], LaunchersSound);
    CutsConcat(d2, [last[0]], [last[1]], LaunchersSound);
    RunConcat(d2, [last[0]], [last[1]]);
    assert last == [last[0]] + [last[1]];
    CutsConcat(d, first, last, LaunchersSound);
    RunConcat(d, first, last);
    assert ops == first + last;
  }

  /** The order of the legacy layout: both direct launchers first, then the removals. */
  lemma LegacyLaunchersCuts(d: Disk, gs: seq<Generation>)
    requires LaunchersSound(d)
    ensures AtEveryCut(d, LegacyLaunchersOps(gs), LaunchersSound)
    ensures AllDirect(Run(d, LegacyLaunchersOps(gs)))
  {
    var cli, gateway := WriteStable(Cli, Direct), WriteStable(Gateway, Direct);
    CutsOne(d, cli, LaunchersSound);
    var d1 := Perform(d, cli);
    CutsOne(d1, gateway, LaunchersSound);
    CutsConcat(d, [cli], [gateway], LaunchersSound);
    RunConcat(d, [cli], [gateway]);
    assert [cli] + [gateway] == [cli, gateway];
    var d2 := Perform(d1, gateway);
    forall n | n in d2.stable
      ensures d2.stable[n].Direct?
    {
      assert n == Cli || n == Gateway;
    }
    RemoveAllCuts(d2, gs);
    CutsConcat(d, [cli, gateway], RemoveAllOps(gs), LaunchersSound);
    RunConcat(d, [cli, gateway], RemoveAllOps(gs));
  }

  lemma RepairQuiet(d: Disk)
    ensures forall op :: op in ReadStateOps(d) ==> Quiet(op)
  {
  }

  /** Two blocks that each keep the launchers sound do so one after the other. */
  lemma SoundConcat(d: Disk, a: seq<FileOp>, b: seq<FileOp>)
    requires AtEveryCut(d, a, LaunchersSound)
    requires AtEveryCut(Run(d, a), b, LaunchersSound)
    ensures AtEveryCut(d, a + b, LaunchersSound)
    ensures LaunchersSound(Run(d, a + b))
  {
    CutsConcat(d, a, b, LaunchersSound);
    CutHolds(d, a + b, |a + b|, LaunchersSound);
    assert (a + b)[..|a + b|] == a + b;
  }

  lemma ActivationBodyCuts(d: Disk, m: Marker, state: InstallState)
    requires LaunchersSound(d)
    ensures AtEveryCut(d, ActivationBody(d, m, state).0, LaunchersSound)
  {
    if m.versionId in d.versions {
      var metadata := d.versions[m.versionId];
      var switch := [SetPointer(PointerFor(m.versionId, metadata)), SetState(ActivatedState(m, metadata, state))];
      var publish := WriteLaunchersOps(m.token) + switch;
      WriteLaunchersCuts(d, m.token);
      QuietCuts(Run(d, WriteLaunchersOps(m.token)), switch);
      SoundConcat(d, WriteLaunchersOps(m.token), switch);
      var d1 := Run(d, publish);
      if LegacyLayout(d, m, state).Ok? {
        if LegacyLayout(d, m, state).value {
          LegacyLaunchersCuts(d1, d1.generations);
          SoundConcat(d, publish, LegacyLaunchersOps(d1.generations));
          QuietCuts(Run(d, publish + LegacyLaunchersOps(d1.generations)), [RetireMarker]);
          SoundConcat(d, publish + LegacyLaunchersOps(d1.generations), [RetireMarker]);
        } else {
          assert publish + [] == publish;
          QuietCuts(d1, [RetireMarker]);
          SoundConcat(d, publish, [RetireMarker]);
        }
      }
    }
  }

  lemma GuardedActivationCuts(d: Disk, applying: Marker, state: InstallState, fault: Option<nat>)
    requires LaunchersSound(d)
    ensures AtEveryCut(d, GuardedActivation(d, applying, state, fault).ops, LaunchersSound)
  {
    var body := ActivationBody(d, applying, state).0;
    var failed := [SetMarker(applying.(phase := Failed))];
    ActivationBodyCuts(d, applying, state);
    var k := if fault.Some? && fault.value < |body| then fault.value else |body|;
    CutHolds(d, body, k, LaunchersSound);
    assert body[..|body|] == body;
    QuietCuts(Run(d, body[..k]), failed);
    SoundConcat(d, body[..k], failed);
  }

  lemma ActivateRepairedCuts(d: Disk, m: Marker, state: InstallState, fault: Option<nat>)
    requires LaunchersSound(d)
    ensures AtEveryCut(d, ActivateRepaired(d, m, state, fault).ops, LaunchersSound)
  {
    hide GuardedActivation;
    var applying := m.(phase := Applying, attempts := m.attempts + 1);
    QuietCuts(d, [SetMarker(applying)]);
    QuietCuts(d, [RetireMarker]);
    QuietCuts(d, [SetMarker(m.(phase := Failed))]);
    RunOne(d, SetMarker(applying));
    var d1 := Perform(d, SetMarker(applying));
    GuardedActivationCuts(d1, applying, state, fault);
    SoundConcat(d, [SetMarker(applying)], GuardedActivation(d1, applying, state, fault).ops);
  }

  lemma ApplyActivationCuts(d: Disk, token: Token, fault: Option<nat>)
    requires LaunchersSound(d)
    ensures AtEveryCut(d, ApplyActivation(d, token, fault).ops, LaunchersSound)
  {
    if d.marker.Some? && d.marker.value.token == token && ReadState(d).Ok? {
      var m, state, repair := d.marker.value, ReadState(d).value, ReadStateOps(d);
      RepairQuiet(d);
      QuietCuts(d, repair);
      ActivateRepairedCuts(Run(d, repair), m, state, fault);
      SoundConcat(d, repair, ActivateRepaired(Run(d, repair), m, state, fault).ops);
    }
  }

  lemma ActivationPartCuts(d: Disk, env: Env, command: Command)
    requires LaunchersSound(d)
    ensures AtEveryCut(d, ActivationPart(d, env, command).ops, LaunchersSound)
    ensures LaunchersSound(Run(d, ActivationPart(d, env, command).ops))
  {
    hide ApplyActivation;
    var ops := ActivationPart(d, env, command).ops;
    if d.marker.Some? {
      var m := d.marker.value;
      ApplyActivationCuts(d, m.token, env.fault);
      QuietCuts(d, [SetMarker(m.(phase := Failed))]);
      if command.Finalize? {
        var applied := ApplyActivation(d, command.token, env.fault);
        ApplyActivationCuts(d, command.token, env.fault);
        var d1 := Run(d, applied.ops);
        CutHolds(d, applied.ops, |applied.ops|, LaunchersSound);
        assert applied.ops[..|applied.ops|] == applied.ops;
        assert applied.ops + [] == applied.ops;
        if d1.marker.Some? {
          var again := [SetMarker(d1.marker.value.(phase := Failed))];
          QuietCuts(d1, again);
          SoundConcat(d, applied.ops, again);
        }
      }
    }
    assert AtEveryCut(d, [], LaunchersSound);
    CutHolds(d, ops, |ops|, LaunchersSound);
    assert ops[..|ops|] == ops;
  }

  /** Any launcher block that keeps soundness can be published. */
  lemma PublishCuts(d: Disk, env: Env, activation: Option<Marker>, launchers: seq<FileOp>, pointer: Pointer,
                    state: InstallState)
    requires AtEveryCut(d, launchers, LaunchersSound)
    ensures AtEveryCut(d, PublishOps(env, activation, launchers, pointer, state), LaunchersSound)
    ensures Run(d, PublishOps(env, activation, launchers, pointer, state)).stable == Run(d, launchers).stable
  {
    var rest := (if activation.Some? then [SetMarker(activation.value)] else [])
                + [SetPointer(pointer), SetState(state)]
                + (if activation.Some? then StartFinalizerOps(env, activation.value) else []);
    assert PublishOps(env, activation, launchers, pointer, state) == launchers + rest;
    CutHolds(d, launchers, |launchers|, LaunchersSound);
    assert launchers[..|launchers|] == launchers;
    QuietCuts(Run(d, launchers), rest);
    SoundConcat(d, launchers, rest);
    RunConcat(d, launchers, rest);
  }

  lemma SwitchCuts(d: Disk, env: Env, upgrade: bool, id: VersionId, m: Metadata, waitForPid: Option<Pid>, parent: Pid)
    requires LaunchersSound(d)
    ensures AtEveryCut(d, SwitchTo(d, env, upgrade, id, m, waitForPid, parent).ops, LaunchersSound)
  {
    if ReadState(d).Ok? {
      var previous, repair := ReadState(d).value, ReadStateOps(d);
      var next := InstalledState(previous, upgrade, id, m);
      RepairQuiet(d);
      QuietCuts(d, repair);
      match DeferredPid(env, upgrade, false, waitForPid, parent)
      case Error =>
      case Ok(None) =>
        var d1 := Run(d, repair);
        WriteLaunchersCuts(d1, env.generation);
        PublishCuts(d1, env, None, WriteLaunchersOps(env.generation), PointerFor(id, m), next);
        SoundConcat(d, repair, PublishOps(env, None, WriteLaunchersOps(env.generation), PointerFor(id, m), next));
      case Ok(Some(pid)) =>
        var marker := NewMarker(env, Upgrade, id, previous.current, next.previous, pid);
        DeferredCuts(d, env, marker, PointerFor(id, m), next);
    }
  }

  lemma DeferredCuts(d: Disk, env: Env, marker: Marker, pointer: Pointer, next: InstallState)
    requires LaunchersSound(d)
    ensures var publish := PublishOps(env, Some(marker), WriteLaunchersOps(env.token), pointer, next);
            AtEveryCut(d, ReadStateOps(d) + (RetireExistingOps(d) + publish), LaunchersSound)
  {
    hide PublishOps, WriteLaunchersOps;
    var publish := PublishOps(env, Some(marker), WriteLaunchersOps(env.token), pointer, next);
    var before := ReadStateOps(d) + RetireExistingOps(d);
    RepairQuiet(d);
    QuietCuts(d, before);
    var d1 := Run(d, before);
    WriteLaunchersCuts(d1, env.token);
    PublishCuts(d1, env, Some(marker), WriteLaunchersOps(env.token), pointer, next);
    SoundConcat(d, before, publish);
    assert before + publish == ReadStateOps(d) + (RetireExistingOps(d) + publish);
  }

  lemma RollbackCuts(d: Disk, env: Env, waitForPid: Option<Pid>)
    requires LaunchersSound(d)
    ensures AtEveryCut(d, RollbackCommand(d, env, waitForPid).ops, LaunchersSound)
  {
    if ReadState(d).Ok? {
      var current, repair := ReadState(d).value, ReadStateOps(d);
      RepairQuiet(d);
      QuietCuts(d, repair);
      if current.previous.Some? && current.previous.value in d.versions {
        var target := current.previous.value;
        var m := d.versions[target];
        var next := RolledBackState(current, m);
        match DeferredPid(env, false, true, waitForPid, 0)
        case Error =>
        case Ok(None) => SynchronousRollbackCuts(d, env, PointerFor(target, m), next);
        case Ok(Some(pid)) =>
          var marker := NewMarker(env, Rollback, target, current.current, next.previous, pid);
          var publish := PublishOps(env, Some(marker), WriteLaunchersOps(env.token), PointerFor(target, m), next);
          DeferredCuts(d, env, marker, PointerFor(target, m), next);
          var whole := repair + (RetireExistingOps(d) + publish);
          var n := |repair| + |RetireExistingOps(d)| + |WriteLaunchersOps(env.token)| + 3;
          CutHolds(d, whole, n, LaunchersSound);
          assert whole[..n] == repair + (RetireExistingOps(d) + publish[..|WriteLaunchersOps(env.token)| + 3]);
      }
    }
  }

  lemma SynchronousRollbackCuts(d: Disk, env: Env, pointer: Pointer, next: InstallState)
    requires LaunchersSound(d)
    ensures
      var launchers := if env.win32 then LegacyLaunchersOps(d.generations) else WriteLaunchersOps(env.generation);
      var main := ReadStateOps(d) + (RetireExistingOps(d) + PublishOps(env, None, launchers, pointer, next));
      var d1 := Run(d, main);
      AtEveryCut(d, main + (RetireExistingOps(d1) + if env.win32 then RemoveAllOps(d1.generations) else []), LaunchersSound)
  {
    hide ReadStateOps, PublishOps, LegacyLaunchersOps, WriteLaunchersOps;
    var launchers := if env.win32 then LegacyLaunchersOps(d.generations) else WriteLaunchersOps(env.generation);
    var publish := PublishOps(env, None, launchers, pointer, next);
    var before := ReadStateOps(d) + RetireExistingOps(d);
    RepairQuiet(d);
    QuietCuts(d, before);
    var d0 := Run(d, before);
    if env.win32 {
      LegacyLaunchersCuts(d0, d.generations);
    } else {
      WriteLaunchersCuts(d0, env.generation);
    }
    PublishCuts(d0, env, None, launchers, pointer, next);
    SoundConcat(d, before, publish);
    RunConcat(d, before, publish);
    var main := ReadStateOps(d) + (RetireExistingOps(d) + publish);
    assert main == before + publish;
    var d1 := Run(d, main);
    QuietCuts(d1, RetireExistingOps(d1));
    var d2 := Run(d1, RetireExistingOps(d1));
    if env.win32 {
      assert AllDirect(d2);
      RemoveAllCuts(d2, d1.generations);
      SoundConcat(d1, RetireExistingOps(d1), RemoveAllOps(d1.generations));
    } else {
      assert RetireExistingOps(d1) + [] == RetireExistingOps(d1);
    }
    SoundConcat(d, main, RetireExistingOps(d1) + if env.win32 then RemoveAllOps(d1.generations) else []);
  }

  lemma CommandPartCuts(d: Disk, env: Env, command: Command)
    requires LaunchersSound(d)
    ensures AtEveryCut(d, CommandPart(d, env, command).ops, LaunchersSound)
  {
    match command
    case Status =>
      RepairQuiet(d);
      QuietCuts(d, ReadStateOps(d));
    case Install(upgrade, id, m, waitForPid, parent) =>
      var copy := if id in d.versions then [] else [AddVersion(id, m)];
      QuietCuts(d, copy);
      SwitchCuts(Run(d, copy), env, upgrade, id, m, waitForPid, parent);
      SoundConcat(d, copy, SwitchTo(Run(d, copy), env, upgrade, id, m, waitForPid, parent).ops);
      QuietCuts(d, []);
    case RollBack(waitForPid) => RollbackCuts(d, env, waitForPid);
    case ReconcileLaunchers(_) =>
    case Finalize(_, _, _, _) =>
  }

  /** Every crash point of every command leaves usable launchers. */
  lemma CommandKeepsLaunchers(d: Disk, env: Env, command: Command)
    requires LaunchersSound(d)
    ensures AtEveryCut(d, CommandOps(d, env, command), LaunchersSound)
  {
    ActivationPartCuts(d, env, command);
    var activation := ActivationPart(d, env, command);
    var d1 := Run(d, activation.ops);
    CommandPartCuts(d1, env, command);
    SoundConcat(d, activation.ops, CommandPart(d1, env, command).ops);
  }

  // ---------- Whole runs ----------

  /** At every crash point of every run, every stable launcher works. */
  lemma {:induction false} RunsKeepLaunchers(d: Disk, steps: seq<Step>)
    requires LaunchersSound(d)
    ensures LaunchersSound(After(d, steps))
    decreases steps
  {
    if steps != [] {
      var s := steps[0];
      var ops := CommandOps(d, s.env, s.command);
      CommandKeepsLaunchers(d, s.env, s.command);
      CutHolds(d, ops, if s.cut <= |ops| then s.cut else |ops|, LaunchersSound);
      assert ops[..|ops|] == ops;
      RunsKeepLaunchers(Run(d, StepOps(d, s)), steps[1..]);
    }
  }
}
