/**
 What the commands of the installer do when nothing stops them: exactly when an upgrade, a rollback or a
 plain install goes through, and everything it leaves behind; and what a finalizer or a forced
 reconciliation makes of a pending activation.
 */
module InstallerOutcomes {
  import opened Common
  import opened InstallerModel
  import opened InstallerRecovery
  import opened InstallerSwitches

  // ---------- Closed forms of the blocks ----------

  function Added(gs: seq<Generation>, g: Generation): seq<Generation> {
    if g in gs then gs else gs + [g]
  }

  function Launched(d: Disk, t: Token): Disk {
    d.(stable := d.stable[Cli := Trampoline(t)][Gateway := Trampoline(t)],
       generations := Added(Added(d.generations, Generation(Cli, t)), Generation(Gateway, t)))
  }

  lemma LaunchersResult(d: Disk, t: Token)
    ensures Run(d, WriteLaunchersOps(t)) == Launched(d, t)
  {
    var ops := WriteLaunchersOps(t);
    var d1 := Perform(d, ops[0]);
    var d2 := Perform(d1, ops[1]);
    var d3 := Perform(d2, ops[2]);
    RunFour(d, ops);
    assert Perform(d3, ops[3]) == Launched(d, t);
  }

  lemma RunFour(d: Disk, ops: seq<FileOp>)
    requires |ops| == 4
    ensures Run(d, ops) == Perform(Perform(Perform(Perform(d, ops[0]), ops[1]), ops[2]), ops[3])
  {
    assert ops == [ops[0]] + ([ops[1]] + ([ops[2]] + [ops[3]]));
    RunConcat(d, [ops[0]], [ops[1]] + ([ops[2]] + [ops[3]]));
    var d1 := Perform(d, ops[0]);
    RunOne(d, ops[0]);
    RunConcat(d1, [ops[1]], [ops[2]] + [ops[3]]);
    var d2 := Perform(d1, ops[1]);
    RunOne(d1, ops[1]);
    RunConcat(d2, [ops[2]], [ops[3]]);
    RunOne(d2, ops[2]);
    RunOne(Perform(d2, ops[2]), ops[3]);
  }

  /** Removing generation files removes exactly those. */
  lemma {:induction false} RemoveAllResult(d: Disk, gs: seq<Generation>)
    ensures var e := Run(d, RemoveAllOps(gs));
      && e == d.(generations := e.generations)
      && forall g :: g in e.generations <==> g in d.generations && g !in gs
    decreases gs
  {
    if gs != [] {
      assert RemoveAllOps(gs)[1..] == RemoveAllOps(gs[1..]);
      RemoveAllResult(Perform(d, RemoveGeneration(gs[0])), gs[1..]);
    }
  }

  function SelfContained(d: Disk): Disk {
    d.(stable := d.stable[Cli := Direct][Gateway := Direct], generations := [])
  }

  lemma LegacyResult(d: Disk)
    ensures Run(d, LegacyLaunchersOps(d.generations)) == SelfContained(d)
  {
    var cli, gateway := WriteStable(Cli, Direct), WriteStable(Gateway, Direct);
    var d1 := Perform(d, cli);
    var d2 := Perform(d1, gateway);
    RunConcat(d, [cli, gateway], RemoveAllOps(d.generations));
    RunConcat(d, [cli], [gateway]);
    assert [cli] + [gateway] == [cli, gateway];
    RunOne(d, cli);
    RunOne(d1, gateway);
    RemoveAllResult(d2, d.generations);
    NoneLeft(Run(d2, RemoveAllOps(d.generations)).generations);
  }

  lemma NoneLeft(gs: seq<Generation>)
    ensures (forall g :: g !in gs) ==> gs == []
  {
    assert gs != [] ==> gs[0] in gs;
  }

  /** The activation as its finalizer finds it. */
  function Started(env: Env, m: Marker): Marker {
    m.(phase := if env.spawnFails then Failed else Waiting)
  }

  /** After the launchers: marker, pointer, state file and the start of the finalizer. */
  lemma PublishResult(d: Disk, env: Env, activation: Option<Marker>, launchers: seq<FileOp>, pointer: Pointer, state: InstallState)
    ensures Run(d, PublishOps(env, activation, launchers, pointer, state)) ==
      Run(d, launchers).(pointer := Some(pointer), state := Some(state),
                         marker := if activation.Some? then Some(Started(env, activation.value)) else Run(d, launchers).marker)
  {
    hide Run, StartFinalizerOps;
    var mark := if activation.Some? then [SetMarker(activation.value)] else [];
    var publish := [SetPointer(pointer), SetState(state)];
    var start := if activation.Some? then StartFinalizerOps(env, activation.value) else [];
    var d1 := Run(d, launchers);
    var d2 := if activation.Some? then d1.(marker := activation) else d1;
    var d3 := d2.(pointer := Some(pointer), state := Some(state));
    RunConcat(d, launchers, mark);
    NoOperation(d1);
    NoOperation(d3);
    if activation.Some? { RunOne(d1, SetMarker(activation.value)); }
    RunConcat(d, launchers + mark, publish);
    RunConcat(d2, [publish[0]], [publish[1]]);
    assert [publish[0]] + [publish[1]] == publish;
    RunOne(d2, publish[0]);
    RunOne(Perform(d2, publish[0]), publish[1]);
    RunConcat(d, launchers + mark + publish, start);
    if activation.Some? { StartResult(d3, env, activation.value); }
  }

  lemma NoOperation(d: Disk)
    ensures Run(d, []) == d
  {
  }

  lemma StartResult(d: Disk, env: Env, m: Marker)
    ensures Run(d, StartFinalizerOps(env, m)) == d.(marker := Some(Started(env, m)))
  {
    var waiting, failed := SetMarker(m.(phase := Waiting)), SetMarker(m.(phase := Failed));
    RunOne(d, waiting);
    if env.spawnFails {
      RunConcat(d, [waiting], [failed]);
      RunOne(Perform(d, waiting), failed);
    } else {
      assert StartFinalizerOps(env, m) == [waiting];
    }
  }

  lemma RetireResult(d: Disk)
    ensures Run(d, RetireExistingOps(d)) == d.(marker := None)
  {
    if d.marker.Some? { RunOne(d, RetireMarker); } else { assert d == d.(marker := None); }
  }

  /** The repair of `readState`. */
  lemma RepairResult(d: Disk, win32: bool)
    requires Coherent(d, win32)
    ensures ReadState(d).Ok? && Run(d, ReadStateOps(d)) == d.(state := Some(ReadState(d).value))
    ensures InstallationIs(Run(d, ReadStateOps(d)), Base(d)) && Recorded(Run(d, ReadStateOps(d))) == Base(d)
  {
    StartsCoherent(d, win32);
    RepairKeeps(d, Anything(win32));
  }

  lemma StartsCoherent(d: Disk, win32: bool)
    requires Coherent(d, win32)
    ensures Inside(d, Anything(win32))
  {
    AnythingIsCoherent(d, win32);
  }

  lemma RunThree(d: Disk, a: seq<FileOp>, b: seq<FileOp>, c: seq<FileOp>)
    ensures Run(d, a + (b + c)) == Run(Run(Run(d, a), b), c)
  {
    RunConcat(d, a, b + c);
    RunConcat(Run(d, a), b, c);
  }

  // ---------- Upgrade ----------

  /** On Windows the process to wait for is the one given, or else the caller. */
  function WaitsFor(waitForPid: Option<Pid>, parent: Pid): Pid {
    if waitForPid.Some? then waitForPid.value else parent
  }

  predicate Waitable(env: Env, pid: Pid) { pid > 0 && pid in env.alive }

  /** An upgrade waits for a live process on Windows, and for none elsewhere. */
  predicate UpgradeRuns(env: Env, waitForPid: Option<Pid>, parent: Pid) {
    if env.win32 then Waitable(env, WaitsFor(waitForPid, parent)) else waitForPid.None?
  }

  /** The marker an upgrade or a deferred rollback leaves for its finalizer. */
  function OwnMarker(env: Env, operation: Operation, i: Installation, target: VersionId, pid: Pid): Marker {
    Marker(env.token, operation, if env.spawnFails then Failed else Waiting, target, Some(i.current),
           Switched(i, target).previous, pid, env.now + 600000, 0)
  }

  /** Everything a switch that writes new launchers leaves. */
  predicate Leaves(e: Disk, i: Installation, target: VersionId, generation: Token, marker: Option<Marker>, operation: string) {
    && InstallationIs(e, Switched(i, target)) && e.state.value.operation == operation && e.marker == marker
    && Cli in e.stable && Gateway in e.stable
    && e.stable[Cli] == e.stable[Gateway] == Trampoline(generation)
    && Generation(Cli, generation) in e.generations && Generation(Gateway, generation) in e.generations
  }

  /** The publication of a switch on a repaired disk without a marker in the way. */
  lemma PublishLeaves(d: Disk, env: Env, activation: Option<Marker>, generation: Token, i: Installation, target: VersionId,
                      state: InstallState)
    requires InstallationIs(d, i) && target in d.versions && StateIs(d.(state := Some(state)), Switched(i, target))
    requires activation.None? ==> d.marker.None?
    ensures var launchers := WriteLaunchersOps(generation);
      var e := Run(d, PublishOps(env, activation, launchers, PointerFor(target, d.versions[target]), state));
      Leaves(e, i, target, generation, if activation.Some? then Some(Started(env, activation.value)) else None, state.operation)
  {
    LaunchersResult(d, generation);
    PublishResult(d, env, activation, WriteLaunchersOps(generation), PointerFor(target, d.versions[target]), state);
    hide Run, PublishOps, WriteLaunchersOps;
  }

  /** An upgrade of an installed version, read off its operations. */
  lemma UpgradeSwitchIs(d: Disk, env: Env, id: VersionId, m: Metadata, waitForPid: Option<Pid>, parent: Pid)
    requires ReadState(d).Ok?
    ensures var previous, switch := ReadState(d).value, SwitchTo(d, env, true, id, m, waitForPid, parent);
      var next := InstalledState(previous, true, id, m);
      var marker := NewMarker(env, Upgrade, id, previous.current, next.previous, WaitsFor(waitForPid, parent));
      && switch.threw == !UpgradeRuns(env, waitForPid, parent)
      && switch.ops == ReadStateOps(d) +
           if !UpgradeRuns(env, waitForPid, parent) then []
           else if env.win32 then RetireExistingOps(d)
             + PublishOps(env, Some(marker), WriteLaunchersOps(env.token), PointerFor(id, m), next)
           else PublishOps(env, None, WriteLaunchersOps(env.generation), PointerFor(id, m), next)
  {
    hide ReadState, ReadStateOps, PublishOps, WriteLaunchersOps;
    assert ReadStateOps(d) + [] == ReadStateOps(d);
  }

  lemma UpgradeSwitchLeaves(d: Disk, env: Env, id: VersionId, m: Metadata, waitForPid: Option<Pid>, parent: Pid)
    requires Coherent(d, env.win32) && (!env.win32 ==> d.marker.None?) && id in d.versions && d.versions[id] == m
    ensures var switch, i := SwitchTo(d, env, true, id, m, waitForPid, parent), Base(d);
      var e := Run(d, switch.ops);
      && switch.threw == !UpgradeRuns(env, waitForPid, parent)
      && if !UpgradeRuns(env, waitForPid, parent) then InstallationIs(e, i) && e.marker == d.marker
         else if env.win32 then
           Leaves(e, i, id, env.token, Some(OwnMarker(env, Upgrade, i, id, WaitsFor(waitForPid, parent))), "upgrade")
         else Leaves(e, i, id, env.generation, None, "upgrade")
  {
    var i, repair := Base(d), ReadStateOps(d);
    RepairResult(d, env.win32);
    UpgradeSwitchIs(d, env, id, m, waitForPid, parent);
    var d1 := Run(d, repair);
    var next := InstalledState(ReadState(d).value, true, id, m);
    assert StateIs(d1.(state := Some(next)), Switched(i, id)) && next.operation == "upgrade";
    assert RetireExistingOps(d) == RetireExistingOps(d1);
    RetireResult(d1);
    NoOperation(d1);
    var free := d1.(marker := None);
    assert InstallationIs(free, i) && StateIs(free.(state := Some(next)), Switched(i, id));
    var marker := NewMarker(env, Upgrade, id, ReadState(d).value.current, next.previous, WaitsFor(waitForPid, parent));
    assert Started(env, marker) == OwnMarker(env, Upgrade, i, id, WaitsFor(waitForPid, parent));
    hide Run, PublishOps, WriteLaunchersOps, ReadState, ReadStateOps, SwitchTo, StateIs, PointsAt, RetireExistingOps;
    if UpgradeRuns(env, waitForPid, parent) {
      if env.win32 {
        PublishLeaves(free, env, Some(marker), env.token, i, id, next);
        RunThree(d, repair, RetireExistingOps(d1),
                 PublishOps(env, Some(marker), WriteLaunchersOps(env.token), PointerFor(id, m), next));
      } else {
        PublishLeaves(d1, env, None, env.generation, i, id, next);
        RunConcat(d, repair, PublishOps(env, None, WriteLaunchersOps(env.generation), PointerFor(id, m), next));
      }
    } else {
      assert repair + [] == repair;
    }
  }

  /**
   From every coherent disk, with no marker in the way of commands off Windows, an upgrade goes through if
   and only if the stored version agrees and, on Windows, the process to wait for is a live one, or elsewhere
   none is given.  It then leaves exactly its switch, its launchers and its marker; otherwise the old
   installation.
   */
  lemma UpgradeGoesThrough(d: Disk, env: Env, id: VersionId, m: Metadata, waitForPid: Option<Pid>, parent: Pid)
    requires Coherent(d, env.win32) && (!env.win32 ==> d.marker.None?)
    ensures var part, i := CommandPart(d, env, Install(true, id, m, waitForPid, parent)), Base(d);
      var e := Run(d, part.ops);
      && (part.threw <==> (id in d.versions && d.versions[id] != m) || !UpgradeRuns(env, waitForPid, parent))
      && if id in d.versions && d.versions[id] != m then e == d
         else if !UpgradeRuns(env, waitForPid, parent) then InstallationIs(e, i) && e.marker == d.marker
         else if env.win32 then
           Leaves(e, i, id, env.token, Some(OwnMarker(env, Upgrade, i, id, WaitsFor(waitForPid, parent))), "upgrade")
         else Leaves(e, i, id, env.generation, None, "upgrade")
  {
    hide SwitchTo;
    NoOperation(d);
    if id in d.versions {
      if d.versions[id] == m {
        UpgradeSwitchLeaves(d, env, id, m, waitForPid, parent);
        var ops := SwitchTo(d, env, true, id, m, waitForPid, parent).ops;
        assert [] + ops == ops;
      }
    } else {
      var d1 := Perform(d, AddVersion(id, m));
      RunOne(d, AddVersion(id, m));
      UpgradeSwitchLeaves(d1, env, id, m, waitForPid, parent);
      RunConcat(d, [AddVersion(id, m)], SwitchTo(d1, env, true, id, m, waitForPid, parent).ops);
    }
  }

  // ---------- Plain install ----------

  /** A plain install goes through if and only if the stored version agrees and no process to wait for is given. */
  lemma PlainInstallGoesThrough(d: Disk, env: Env, id: VersionId, m: Metadata, waitForPid: Option<Pid>, parent: Pid)
    requires Coherent(d, env.win32) && (!env.win32 ==> d.marker.None?)
    ensures var part := CommandPart(d, env, Install(false, id, m, waitForPid, parent));
      && (part.threw <==> (id in d.versions && d.versions[id] != m) || waitForPid.Some?)
      && (!part.threw ==> InstallationIs(Run(d, part.ops), Switched(Base(d), id)))
  {
    PlainInstallKeeps(d, env, id, m, waitForPid, parent);
    RepairResult(d, env.win32);
    PlainSwitchIs(d, env, id, m, waitForPid, parent);
    if id !in d.versions {
      var d1 := Perform(d, AddVersion(id, m));
      RunOne(d, AddVersion(id, m));
      RepairResult(d1, env.win32);
      PlainSwitchIs(d1, env, id, m, waitForPid, parent);
    }
  }

  // ---------- Rollback ----------

  /** A rollback needs a previous version that is there, and on request a live process on Windows to wait for. */
  predicate RollbackRuns(d: Disk, env: Env, i: Installation, waitForPid: Option<Pid>) {
    && i.previous.Some? && i.previous.value in d.versions
    && (waitForPid.Some? ==> env.win32 && Waitable(env, waitForPid.value))
  }

  /** A synchronous rollback on Windows leaves the layout an older runtime accepts. */
  predicate LeavesLegacy(e: Disk, i: Installation, target: VersionId) {
    && InstallationIs(e, Switched(i, target)) && e.state.value.operation == "rollback" && e.marker.None?
    && Cli in e.stable && Gateway in e.stable && e.stable[Cli] == e.stable[Gateway] == Direct && e.generations == []
  }

  lemma RollbackDeferred(d: Disk, env: Env, pid: Pid, ops: seq<FileOp>)
    requires Coherent(d, env.win32) && Base(d).previous.Some? && Base(d).previous.value in d.versions
    requires var current, target := ReadState(d).value, Base(d).previous.value;
      var next := RolledBackState(current, d.versions[target]);
      var marker := NewMarker(env, Rollback, target, current.current, next.previous, pid);
      ops == ReadStateOps(d) + (RetireExistingOps(d)
        + PublishOps(env, Some(marker), WriteLaunchersOps(env.token), PointerFor(target, d.versions[target]), next))
    ensures var i, target := Base(d), Base(d).previous.value;
      Leaves(Run(d, ops), i, target, env.token, Some(OwnMarker(env, Rollback, i, target, pid)), "rollback")
  {
    var i, target, repair, current := Base(d), Base(d).previous.value, ReadStateOps(d), ReadState(d).value;
    RepairResult(d, env.win32);
    var d1 := Run(d, repair);
    var next := RolledBackState(current, d.versions[target]);
    RetireResult(d1);
    var free := d1.(marker := None);
    assert InstallationIs(free, i) && StateIs(free.(state := Some(next)), Switched(i, target)) && next.operation == "rollback";
    var marker := NewMarker(env, Rollback, target, current.current, next.previous, pid);
    assert Started(env, marker) == OwnMarker(env, Rollback, i, target, pid);
    assert RetireExistingOps(d) == RetireExistingOps(d1);
    hide Run, PublishOps, WriteLaunchersOps, ReadState, ReadStateOps, StateIs, PointsAt, RetireExistingOps;
    PublishLeaves(free, env, Some(marker), env.token, i, target, next);
    RunThree(d, repair, RetireExistingOps(d1),
             PublishOps(env, Some(marker), WriteLaunchersOps(env.token), PointerFor(target, d.versions[target]), next));
  }

  /** The part of a synchronous rollback up to its state file. */
  lemma RollbackMain(d: Disk, env: Env, launchers: seq<FileOp>) returns (free: Disk)
    requires Coherent(d, env.win32) && Base(d).previous.Some? && Base(d).previous.value in d.versions
    ensures var i, target := Base(d), Base(d).previous.value;
      var next := RolledBackState(ReadState(d).value, d.versions[target]);
      var publish := PublishOps(env, None, launchers, PointerFor(target, d.versions[target]), next);
      && Run(d, ReadStateOps(d) + (RetireExistingOps(d) + publish)) == Run(free, publish)
      && free.marker.None? && free.versions == d.versions && free.generations == d.generations && InstallationIs(free, i)
      && StateIs(free.(state := Some(next)), Switched(i, target)) && next.operation == "rollback"
  {
    var i, target, repair, current := Base(d), Base(d).previous.value, ReadStateOps(d), ReadState(d).value;
    RepairResult(d, env.win32);
    var d1 := Run(d, repair);
    var next := RolledBackState(current, d.versions[target]);
    RetireResult(d1);
    free := d1.(marker := None);
    assert InstallationIs(free, i) && StateIs(free.(state := Some(next)), Switched(i, target));
    assert RetireExistingOps(d) == RetireExistingOps(d1);
    hide Run, PublishOps, ReadState, ReadStateOps, RetireExistingOps;
    RunThree(d, repair, RetireExistingOps(d1), PublishOps(env, None, launchers, PointerFor(target, d.versions[target]), next));
  }

  /** Its tidying up. */
  lemma RollbackTidies(d: Disk, env: Env)
    ensures var e := Run(d, RetireExistingOps(d) + if env.win32 then RemoveAllOps(d.generations) else []);
      e == d.(marker := None, generations := if env.win32 then [] else d.generations)
  {
    var tidy := if env.win32 then RemoveAllOps(d.generations) else [];
    var d1 := d.(marker := None);
    RetireResult(d);
    RunConcat(d, RetireExistingOps(d), tidy);
    RemoveAllResult(d1, d.generations);
    NoneLeft(Run(d1, RemoveAllOps(d.generations)).generations);
  }

  lemma RollbackSynchronousOnWindows(d: Disk, env: Env, main: seq<FileOp>, ops: seq<FileOp>)
    requires Coherent(d, env.win32) && env.win32 && Base(d).previous.Some? && Base(d).previous.value in d.versions
    requires var current, target := ReadState(d).value, Base(d).previous.value;
      main == ReadStateOps(d) + (RetireExistingOps(d) + PublishOps(env, None, LegacyLaunchersOps(d.generations),
        PointerFor(target, d.versions[target]), RolledBackState(current, d.versions[target])))
    requires var d1 := Run(d, main);
      ops == main + (RetireExistingOps(d1) + RemoveAllOps(d1.generations))
    ensures LeavesLegacy(Run(d, ops), Base(d), Base(d).previous.value)
  {
    var i, target := Base(d), Base(d).previous.value;
    var next, pointer := RolledBackState(ReadState(d).value, d.versions[target]), PointerFor(target, d.versions[target]);
    var launchers := LegacyLaunchersOps(d.generations);
    hide Run, PublishOps, WriteLaunchersOps, LegacyLaunchersOps, ReadState, ReadStateOps, RetireExistingOps, RemoveAllOps, RolledBackState,
      Base, Switched;
    var free := RollbackMain(d, env, launchers);
    var done := Run(d, main);
    RollbackTidies(done, env);
    RunConcat(d, main, RetireExistingOps(done) + RemoveAllOps(done.generations));
    LegacyResult(free);
    PublishResult(free, env, None, launchers, pointer, next);
  }

  lemma RollbackSynchronousElsewhere(d: Disk, env: Env, main: seq<FileOp>, ops: seq<FileOp>)
    requires Coherent(d, env.win32) && !env.win32 && Base(d).previous.Some? && Base(d).previous.value in d.versions
    requires var current, target := ReadState(d).value, Base(d).previous.value;
      main == ReadStateOps(d) + (RetireExistingOps(d) + PublishOps(env, None, WriteLaunchersOps(env.generation),
        PointerFor(target, d.versions[target]), RolledBackState(current, d.versions[target])))
    requires var d1 := Run(d, main);
      ops == main + (RetireExistingOps(d1) + [])
    ensures Leaves(Run(d, ops), Base(d), Base(d).previous.value, env.generation, None, "rollback")
  {
    var i, target := Base(d), Base(d).previous.value;
    var next, pointer := RolledBackState(ReadState(d).value, d.versions[target]), PointerFor(target, d.versions[target]);
    var launchers := WriteLaunchersOps(env.generation);
    hide Run, PublishOps, WriteLaunchersOps, LegacyLaunchersOps, ReadState, ReadStateOps, RetireExistingOps, RemoveAllOps, RolledBackState,
      Base, Switched;
    var free := RollbackMain(d, env, launchers);
    var done := Run(d, main);
    RollbackTidies(done, env);
    RunConcat(d, main, RetireExistingOps(done) + []);
    PublishLeaves(free, env, None, env.generation, i, target, next);
  }

  /**
   From every coherent disk a rollback goes through if and only if there is a previous version to return to
   and the process to wait for, if one is given, is a live one on Windows.  It then leaves exactly its switch:
   deferred, with its launchers and marker; synchronous, with no marker; and on Windows in the old layout.
   */
  lemma RollbackGoesThrough(d: Disk, env: Env, waitForPid: Option<Pid>)
    requires Coherent(d, env.win32) && (!env.win32 ==> d.marker.None?)
    ensures var part, i := CommandPart(d, env, RollBack(waitForPid)), Base(d);
      var e := Run(d, part.ops);
      && (part.threw <==> !RollbackRuns(d, env, i, waitForPid))
      && if !RollbackRuns(d, env, i, waitForPid) then InstallationIs(e, i) && e.marker == d.marker
         else if waitForPid.Some? then
           Leaves(e, i, i.previous.value, env.token, Some(OwnMarker(env, Rollback, i, i.previous.value, waitForPid.value)), "rollback")
         else if env.win32 then LeavesLegacy(e, i, i.previous.value)
         else Leaves(e, i, i.previous.value, env.generation, None, "rollback")
  {
    var i, current, rollback := Base(d), ReadState(d).value, RollbackCommand(d, env, waitForPid);
    RepairResult(d, env.win32);
    assert current.current == Some(i.current) && current.previous == i.previous && i.current in d.versions;
    RollbackIs(d, env, waitForPid);
    hide RollbackCommand, ReadState, ReadStateOps, PublishOps, Run, LegacyLaunchersOps, WriteLaunchersOps, RetireExistingOps, RemoveAllOps,
      Coherent, StateIs, PointsAt, Base, NewMarker, RolledBackState;
    if RollbackRuns(d, env, i, waitForPid) {
      var target := i.previous.value;
      if waitForPid.Some? {
        RollbackDeferred(d, env, waitForPid.value, rollback.ops);
      } else {
        var launchers := if env.win32 then LegacyLaunchersOps(d.generations) else WriteLaunchersOps(env.generation);
        var main := ReadStateOps(d) + (RetireExistingOps(d) + PublishOps(env, None, launchers,
          PointerFor(target, d.versions[target]), RolledBackState(current, d.versions[target])));
        if env.win32 { RollbackSynchronousOnWindows(d, env, main, rollback.ops); } else { RollbackSynchronousElsewhere(d, env, main, rollback.ops); }
      }
    }
  }

  // ---------- Pending activations ----------

  /** Which version an activation replaces for good, and so whether the old layout is needed. */
  function Replaced(m: Marker, i: Installation): Option<VersionId> {
    if m.operation == Rollback then None else if m.sourceVersionId.Some? then m.sourceVersionId else i.previous
  }

  predicate SourceReadable(d: Disk, m: Marker, i: Installation) {
    Replaced(m, i).Some? ==> Replaced(m, i).value in d.versions
  }

  predicate FirstRelease(d: Disk, id: VersionId) { id in d.versions && d.versions[id].version == "1.0.0" }

  predicate NeedsOldLayout(d: Disk, m: Marker, i: Installation) {
    FirstRelease(d, m.versionId) || (Replaced(m, i).Some? && FirstRelease(d, Replaced(m, i).value))
  }

  /** What becomes of the marker when its activation is applied to `i` without a fault. */
  function MarkerLeft(d: Disk, m: Marker, i: Installation): Option<Marker> {
    if i.current !in Admitted(m) then None
    else if m.attempts >= 100 then Some(m.(phase := Failed))
    else if m.versionId in d.versions && SourceReadable(d, m, i) then None
    else Some(m.(phase := Failed, attempts := m.attempts + 1))
  }

  /** The launchers an activation leaves: its own generation, or the layout of the first release. */
  predicate LaunchersLeft(d: Disk, e: Disk, m: Marker, i: Installation) {
    && e.state.Some? && e.state.value.operation == (if m.operation == Upgrade then "upgrade" else "rollback")
    && Cli in e.stable && Gateway in e.stable
    && if SourceReadable(d, m, i) && NeedsOldLayout(d, m, i) then e.stable[Cli] == e.stable[Gateway] == Direct && e.generations == []
       else
         && e.stable[Cli] == e.stable[Gateway] == Trampoline(m.token)
         && Generation(Cli, m.token) in e.generations && Generation(Gateway, m.token) in e.generations
  }

  /** Everything an activation leaves: installation, marker and launchers. */
  predicate Applied(d: Disk, e: Disk, m: Marker, i: Installation) {
    && InstallationIs(e, if Ready(d, m, i) then Activated(i, m) else i) && e.marker == MarkerLeft(d, m, i)
    && if Ready(d, m, i) then LaunchersLeft(d, e, m, i) else e.stable == d.stable && e.generations == d.generations
  }

  /** The disk after launchers, pointer and state file of an activation. */
  function Activating(d: Disk, m: Marker): Disk
    requires d.state.Some? && m.versionId in d.versions
  {
    var metadata := d.versions[m.versionId];
    Launched(d, m.token).(pointer := Some(PointerFor(m.versionId, metadata)), state := Some(ActivatedState(m, metadata, d.state.value)))
  }

  lemma ActivatingResult(d: Disk, m: Marker)
    requires d.state.Some? && m.versionId in d.versions
    ensures var metadata := d.versions[m.versionId];
      Run(d, WriteLaunchersOps(m.token)
             + [SetPointer(PointerFor(m.versionId, metadata)), SetState(ActivatedState(m, metadata, d.state.value))]) == Activating(d, m)
  {
    var metadata := d.versions[m.versionId];
    var pointer, published := SetPointer(PointerFor(m.versionId, metadata)), SetState(ActivatedState(m, metadata, d.state.value));
    LaunchersResult(d, m.token);
    hide Run, WriteLaunchersOps, ActivatedState;
    var d1 := Launched(d, m.token);
    RunConcat(d, WriteLaunchersOps(m.token), [pointer, published]);
    RunConcat(d1, [pointer], [published]);
    assert [pointer] + [published] == [pointer, published];
    RunOne(d1, pointer);
    RunOne(Perform(d1, pointer), published);
  }

  /** The disk after the guarded part of an activation. */
  function BodyLeft(d: Disk, m: Marker, i: Installation): Disk
    requires d.state.Some? && m.versionId in d.versions
  {
    var e := Activating(d, m);
    if !SourceReadable(d, m, i) then e
    else (if NeedsOldLayout(d, m, i) then SelfContained(e) else e).(marker := None)
  }

  lemma LayoutMeans(d: Disk, m: Marker, i: Installation)
    requires InstallationIs(d, i) && m.versionId in d.versions
    ensures LegacyLayout(d, m, d.state.value) == if SourceReadable(d, m, i) then Ok(NeedsOldLayout(d, m, i)) else Error
  {
  }

  /** Its operations. */
  function BodyOps(d: Disk, m: Marker, i: Installation): seq<FileOp>
    requires d.state.Some? && m.versionId in d.versions
  {
    var metadata := d.versions[m.versionId];
    var publish := WriteLaunchersOps(m.token)
      + [SetPointer(PointerFor(m.versionId, metadata)), SetState(ActivatedState(m, metadata, d.state.value))];
    if !SourceReadable(d, m, i) then publish
    else publish + (if NeedsOldLayout(d, m, i) then LegacyLaunchersOps(Activating(d, m).generations) else []) + [RetireMarker]
  }

  lemma BodyHas(d: Disk, m: Marker, i: Installation)
    requires InstallationIs(d, i) && m.versionId in d.versions
    ensures ActivationBody(d, m, d.state.value) == (BodyOps(d, m, i), !SourceReadable(d, m, i))
  {
    LayoutMeans(d, m, i);
    ActivatingResult(d, m);
    hide Run, LegacyLayout, WriteLaunchersOps, InstallationIs, Activating, SourceReadable, NeedsOldLayout, LegacyLaunchersOps, ActivatedState;
  }

  lemma RunChain(d: Disk, a: seq<FileOp>, b: seq<FileOp>, op: FileOp)
    ensures Run(d, a + b + [op]) == Perform(Run(Run(d, a), b), op)
  {
    RunConcat(d, a, b);
    RunConcat(d, a + b, [op]);
    RunOne(Run(Run(d, a), b), op);
  }

  lemma BodyOpsRun(d: Disk, m: Marker, i: Installation)
    requires d.state.Some? && m.versionId in d.versions
    ensures Run(d, BodyOps(d, m, i)) == BodyLeft(d, m, i)
  {
    hide Run, WriteLaunchersOps, Activating, SourceReadable, NeedsOldLayout, LegacyLaunchersOps, ActivatedState, PointerFor;
    var metadata, e := d.versions[m.versionId], Activating(d, m);
    var publish := WriteLaunchersOps(m.token)
      + [SetPointer(PointerFor(m.versionId, metadata)), SetState(ActivatedState(m, metadata, d.state.value))];
    ActivatingResult(d, m);
    LegacyResult(e);
    NoOperation(e);
    RunChain(d, publish, LegacyLaunchersOps(e.generations), RetireMarker);
    RunChain(d, publish, [], RetireMarker);
  }

  lemma BodyIs(d: Disk, m: Marker, i: Installation)
    requires InstallationIs(d, i) && m.versionId in d.versions
    ensures var (body, broken) := ActivationBody(d, m, d.state.value);
      Run(d, body) == BodyLeft(d, m, i) && broken == !SourceReadable(d, m, i)
  {
    BodyHas(d, m, i);
    BodyOpsRun(d, m, i);
    hide ActivationBody, BodyOps, BodyLeft, Run;
  }

  lemma BodyResult(d: Disk, m: Marker, i: Installation)
    requires InstallationIs(d, i) && m.versionId in d.versions
    ensures var (body, broken) := ActivationBody(d, m, d.state.value);
      var e := Run(d, body);
      && broken == !SourceReadable(d, m, i) && e.marker == (if broken then d.marker else None)
      && InstallationIs(e, Activated(i, m)) && LaunchersLeft(d, e, m, i)
  {
    BodyIs(d, m, i);
    ActivatingIs(d, m, i);
    BodyLaunchers(d, m, i);
    hide ActivationBody, Run, SourceReadable, NeedsOldLayout, Activating, LaunchersLeft, StateIs, PointsAt, Activated;
    MarkerOnly(Activating(d, m), BodyLeft(d, m, i), Activated(i, m));
    assert Activating(d, m).marker == d.marker by { ActivatingMarker(d, m); }
  }

  lemma ActivatingMarker(d: Disk, m: Marker)
    requires d.state.Some? && m.versionId in d.versions
    ensures Activating(d, m).marker == d.marker
  {
  }

  lemma ActivatingIs(d: Disk, m: Marker, i: Installation)
    requires InstallationIs(d, i) && m.versionId in d.versions
    ensures InstallationIs(Activating(d, m), Activated(i, m))
  {
  }

  lemma BodyLaunchers(d: Disk, m: Marker, i: Installation)
    requires d.state.Some? && m.versionId in d.versions
    ensures LaunchersLeft(d, BodyLeft(d, m, i), m, i)
  {
    hide SourceReadable, NeedsOldLayout;
  }

  lemma MarkerOnly(d: Disk, e: Disk, i: Installation)
    requires e == d.(marker := e.marker, stable := e.stable, generations := e.generations) && InstallationIs(d, i)
    ensures InstallationIs(e, i)
  {
  }

  lemma GuardedResult(d: Disk, m: Marker, i: Installation)
    requires InstallationIs(d, i) && d.marker == Some(m)
    ensures var guarded := GuardedActivation(d, m, d.state.value, None);
      var e := Run(d, guarded.ops);
      var done := m.versionId in d.versions && SourceReadable(d, m, i);
      && guarded.threw == !done && e.marker == (if done then None else Some(m.(phase := Failed)))
      && if m.versionId in d.versions then InstallationIs(e, Activated(i, m)) && LaunchersLeft(d, e, m, i)
         else e == d.(marker := e.marker)
  {
    var (body, broken) := ActivationBody(d, m, d.state.value);
    var failed := SetMarker(m.(phase := Failed));
    if m.versionId in d.versions { BodyResult(d, m, i); } else { NoOperation(d); }
    hide ActivationBody, Run, SourceReadable, StateIs, PointsAt;
    if broken {
      RunConcat(d, body, [failed]);
      RunOne(Run(d, body), failed);
      MarkerKept(d, Run(d, body), m, i, failed.marker);
    }
  }

  lemma MarkerKept(d: Disk, e: Disk, m: Marker, i: Installation, n: Marker)
    ensures var f := e.(marker := Some(n));
      && (InstallationIs(e, Activated(i, m)) ==> InstallationIs(f, Activated(i, m)))
      && (LaunchersLeft(d, e, m, i) ==> LaunchersLeft(d, f, m, i))
  {
  }

  /** One attempt at a live activation. */
  lemma AttemptOutcome(d: Disk, m: Marker, i: Installation)
    requires InstallationIs(d, i) && d.marker == Some(m) && Live(m, i)
    ensures var applying := m.(phase := Applying, attempts := m.attempts + 1);
      var d1 := Perform(d, SetMarker(applying));
      var guarded := GuardedActivation(d1, applying, d.state.value, None);
      && Applied(d, Run(d1, guarded.ops), m, i)
      && (guarded.threw <==> !(m.versionId in d.versions && SourceReadable(d, m, i)))
  {
    var applying := m.(phase := Applying, attempts := m.attempts + 1);
    var d1 := Perform(d, SetMarker(applying));
    assert InstallationIs(d1, i) && d1.versions == d.versions && d1.state == d.state;
    assert Activated(i, applying) == Activated(i, m);
    var e := Run(d1, GuardedActivation(d1, applying, d.state.value, None).ops);
    GuardedResult(d1, applying, i);
    SameActivation(d, d1, e, m, applying, i);
    hide Run, GuardedActivation, LaunchersLeft, SourceReadable, Activated;
    if m.versionId !in d.versions { MarkerOnly(d1, e, i); }
  }

  lemma SameActivation(d: Disk, d1: Disk, e: Disk, m: Marker, n: Marker, i: Installation)
    requires d1.versions == d.versions && n == m.(phase := n.phase, attempts := n.attempts)
    ensures SourceReadable(d1, n, i) == SourceReadable(d, m, i) && LaunchersLeft(d1, e, n, i) == LaunchersLeft(d, e, m, i)
  {
  }

  /** A marker that is not live is retired if it does not admit the installation, and else recorded as failed. */
  lemma StaleOutcome(d: Disk, m: Marker, i: Installation)
    requires InstallationIs(d, i) && d.marker == Some(m) && !Live(m, i)
    ensures var rest := ActivateRepaired(d, m, d.state.value, None);
      Applied(d, Run(d, rest.ops), m, i) && !rest.threw
  {
    var op := if i.current !in Admitted(m) then RetireMarker else SetMarker(m.(phase := Failed));
    assert ActivateRepaired(d, m, d.state.value, None) == Effect([op], false);
    RunOne(d, op);
    hide Run, ActivateRepaired, LaunchersLeft;
  }

  lemma LiveIs(d: Disk, m: Marker, i: Installation)
    requires InstallationIs(d, i) && Live(m, i)
    ensures var applying := m.(phase := Applying, attempts := m.attempts + 1);
      var guarded := GuardedActivation(Perform(d, SetMarker(applying)), applying, d.state.value, None);
      ActivateRepaired(d, m, d.state.value, None) == Effect([SetMarker(applying)] + guarded.ops, guarded.threw)
  {
    hide GuardedActivation;
  }

  lemma RepairedOutcome(d: Disk, m: Marker, i: Installation)
    requires InstallationIs(d, i) && d.marker == Some(m)
    ensures var rest := ActivateRepaired(d, m, d.state.value, None);
      && Applied(d, Run(d, rest.ops), m, i)
      && (rest.threw <==> Live(m, i) && !(m.versionId in d.versions && SourceReadable(d, m, i)))
  {
    if Live(m, i) {
      var applying := m.(phase := Applying, attempts := m.attempts + 1);
      AttemptOutcome(d, m, i);
      LiveIs(d, m, i);
      RunOne(d, SetMarker(applying));
      hide Run, GuardedActivation, ActivateRepaired, Applied, SourceReadable, Perform, InstallationIs, Live;
      RunConcat(d, [SetMarker(applying)], GuardedActivation(Perform(d, SetMarker(applying)), applying, d.state.value, None).ops);
    } else {
      StaleOutcome(d, m, i);
    }
  }

  lemma ApplyOutcome(d: Disk, m: Marker)
    requires Coherent(d, true) && d.marker == Some(m)
    ensures var applied := ApplyActivation(d, m.token, None);
      && Applied(d, Run(d, applied.ops), m, Base(d))
      && (applied.threw <==> Live(m, Base(d)) && !(m.versionId in d.versions && SourceReadable(d, m, Base(d))))
  {
    var i, repair := Base(d), ReadStateOps(d);
    RepairResult(d, true);
    var d1 := Run(d, repair);
    assert d1.versions == d.versions && d1.marker == Some(m);
    RepairedOutcome(d1, m, i);
    hide ActivateRepaired, ReadState, ReadStateOps, Run, StateIs, PointsAt;
    RunConcat(d, repair, ActivateRepaired(d1, m, ReadState(d).value, None).ops);
  }

  /** A file operation that fails inside an activation is recorded, counted and passed on. */
  lemma FaultIsRecorded(d: Disk, m: Marker, fault: nat)
    requires Coherent(d, true) && d.marker == Some(m) && Ready(d, m, Base(d)) && fault < 6
    ensures var applied := ApplyActivation(d, m.token, Some(fault));
      applied.threw && Run(d, applied.ops).marker == Some(m.(phase := Failed, attempts := m.attempts + 1))
  {
    var repair := ReadStateOps(d);
    RepairResult(d, true);
    var d1 := Run(d, repair);
    var applying := m.(phase := Applying, attempts := m.attempts + 1);
    var d2 := Perform(d1, SetMarker(applying));
    var body := ActivationBody(d2, applying, d1.state.value).0;
    assert |body| >= 6;
    var ops, failed := body[..fault], SetMarker(applying.(phase := Failed));
    StoppedBodyKeepsMarker(d2, applying, d1.state.value, fault);
    assert Admits(m, d1.state.value, d1.pointer);
    assert GuardedActivation(d2, applying, d1.state.value, Some(fault)) == Effect(ops + [failed], true);
    assert d1.marker == d.marker && ReadState(d).value == d1.state.value;
    hide Run, ActivationBody, ReadState, ReadStateOps, StateIs, PointsAt, GuardedActivation;
    RunConcat(d2, ops, [failed]);
    RunOne(Run(d2, ops), failed);
    RunConcat(d1, [SetMarker(applying)], ops + [failed]);
    RunOne(d1, SetMarker(applying));
    RunConcat(d, repair, [SetMarker(applying)] + (ops + [failed]));
  }

  /**
   The finalizer.  With its own token, version and process, and no file operation that fails, it applies its
   activation once the process has exited, and after a timeout only records the failure.  With any other it
   does nothing.
   */
  lemma FinalizerApplies(d: Disk, env: Env, m: Marker, token: Token, id: VersionId, pid: Pid, timedOut: bool)
    requires Coherent(d, true) && env.win32 && env.fault.None? && d.marker == Some(m)
    ensures var e := Run(d, CommandOps(d, env, Finalize(token, id, pid, timedOut)));
      if token != m.token || id != m.versionId || pid != m.waitForPid then e == d
      else if timedOut then e == d.(marker := Some(m.(phase := Failed)))
      else Applied(d, e, m, Base(d))
  {
    var command := Finalize(token, id, pid, timedOut);
    var finalize := FinalizeCommand(d, env, token, id, pid, timedOut);
    assert CommandOps(d, env, command) == finalize.ops + [] == finalize.ops;
    if token != m.token || id != m.versionId || pid != m.waitForPid {
      NoOperation(d);
    } else if timedOut {
      RunOne(d, SetMarker(m.(phase := Failed)));
    } else {
      ApplyOutcome(d, m);
      var applied := ApplyActivation(d, token, None);
      hide ApplyActivation, Run;
      var e := Run(d, applied.ops);
      if applied.threw && e.marker.Some? && e.marker.value.token == token {
        var failed := SetMarker(e.marker.value.(phase := Failed));
        RunConcat(d, applied.ops, [failed]);
        RunOne(e, failed);
        assert Perform(e, failed) == e;
      } else {
        assert applied.ops + [] == applied.ops;
      }
    }
  }

  /** A forced reconciliation with the marker's token applies it whether or not its process lives; with another it does nothing. */
  lemma ForcedReconciliationApplies(d: Disk, env: Env, m: Marker, token: Token)
    requires Coherent(d, true) && env.win32 && env.fault.None? && d.marker == Some(m)
    ensures var e := Run(d, CommandOps(d, env, ReconcileLaunchers(token)));
      if token != m.token then e == d else Applied(d, e, m, Base(d))
  {
    var reconciled := Reconcile(d, env, true, Some(token));
    assert reconciled.ops + [] == reconciled.ops;
    if token == m.token { ApplyOutcome(d, m); } else { NoOperation(d); }
  }

  /**
   An ordinary command applies the activation if its process has exited, or it was being applied already;
   otherwise it leaves it alone, but for recording a failure once the deadline has passed.
   */
  lemma StatusApplies(d: Disk, env: Env, m: Marker)
    requires Coherent(d, true) && env.win32 && env.fault.None? && d.marker == Some(m)
    ensures var e := Run(d, CommandOps(d, env, Status));
      if m.phase == Applying || m.waitForPid !in env.alive then Applied(d, e, m, Base(d))
      else
        && InstallationIs(e, Base(d)) && e.stable == d.stable && e.generations == d.generations
        && e.marker == Some(if env.now >= m.deadline then m.(phase := Failed) else m)
  {
    var reconciled := Reconcile(d, env, false, None);
    var d1 := Run(d, reconciled.ops);
    if m.phase == Applying || m.waitForPid !in env.alive {
      ApplyOutcome(d, m);
      RepairResult(d, true);
      assert InstallationIs(d1, Recorded(d1)) && d1.marker == MarkerLeft(d, m, Base(d));
      assert ReadStateOps(d1) == [];
      hide Reconcile, ReadState, ReadStateOps, Run, StateIs, PointsAt;
      assert CommandOps(d, env, Status) == reconciled.ops || CommandOps(d, env, Status) == reconciled.ops + [];
      assert reconciled.ops + [] == reconciled.ops;
    } else {
      if env.now >= m.deadline && m.phase != Failed { RunOne(d, SetMarker(m.(phase := Failed))); } else { NoOperation(d); }
      assert d1 == d.(marker := Some(if env.now >= m.deadline then m.(phase := Failed) else m));
      RepairResult(d1, true);
      RunConcat(d, reconciled.ops, ReadStateOps(d1));
    }
  }

  // ---------- Reading the state ----------

  /** `readState` throws exactly for a pointer that does not name an installed version with its metadata. */
  lemma UnreadableStates(d: Disk)
    ensures ReadState(d).Error? <==>
      && d.state.Some?
      && if d.pointer.Some? then !PointsAt(d, d.pointer.value.versionId)
         else d.state.value.current.Some? && d.state.value.current.value !in d.versions
  {
  }

  /** A missing pointer is restored from the state file, and nothing else is changed. */
  lemma MissingPointerIsRestored(d: Disk, i: Installation)
    requires d.pointer.None? && StateIs(d, i)
    ensures var e := Run(d, ReadStateOps(d)); InstallationIs(e, i) && e == d.(pointer := e.pointer)
  {
    RunOne(d, SetPointer(PointerFor(i.current, d.versions[i.current])));
  }

  // ---------- The order of publication ----------

  /** As long as the pointer has not moved, or with the new launchers and, on Windows, the marker in place. */
  function PointerLast(p: Option<Pointer>, env: Env): Disk -> bool {
    (d: Disk) =>
      || d.pointer == p
      || (&& Cli in d.stable && Gateway in d.stable
          && d.stable[Cli] == d.stable[Gateway] == Trampoline(if env.win32 then env.token else env.generation)
          && (env.win32 ==> d.marker.Some? && d.marker.value.token == env.token))
  }

  lemma {:induction false} PointerStays(d: Disk, ops: seq<FileOp>, p: Option<Pointer>, env: Env)
    requires d.pointer == p && forall op :: op in ops ==> !op.SetPointer?
    ensures AtEveryCut(d, ops, PointerLast(p, env)) && Run(d, ops).pointer == p
    decreases ops
  {
    if ops != [] {
      assert ops[0] in ops;
      PointerStays(Perform(d, ops[0]), ops[1..], p, env);
    }
  }

  /** From here on only the pointer, the state file and the phase of the marker change. */
  lemma {:induction false} LaunchersStay(d: Disk, ops: seq<FileOp>, p: Option<Pointer>, env: Env)
    requires Cli in d.stable && Gateway in d.stable
    requires d.stable[Cli] == d.stable[Gateway] == Trampoline(if env.win32 then env.token else env.generation)
    requires env.win32 ==> d.marker.Some? && d.marker.value.token == env.token
    requires forall op :: op in ops ==> op.SetPointer? || op.SetState? || (op.SetMarker? && op.marker.token == env.token)
    ensures AtEveryCut(d, ops, PointerLast(p, env))
    decreases ops
  {
    if ops != [] {
      assert ops[0] in ops;
      LaunchersStay(Perform(d, ops[0]), ops[1..], p, env);
    }
  }

  lemma PublishOrder(d: Disk, env: Env, activation: Option<Marker>, pointer: Pointer, state: InstallState)
    requires if activation.Some? then env.win32 && activation.value.token == env.token else !env.win32
    ensures var launchers := WriteLaunchersOps(if env.win32 then env.token else env.generation);
      AtEveryCut(d, PublishOps(env, activation, launchers, pointer, state), PointerLast(d.pointer, env))
  {
    var t := if env.win32 then env.token else env.generation;
    var mark := if activation.Some? then [SetMarker(activation.value)] else [];
    var first := WriteLaunchersOps(t) + mark;
    var last := [SetPointer(pointer), SetState(state)] + if activation.Some? then StartFinalizerOps(env, activation.value) else [];
    PointerStays(d, first, d.pointer, env);
    RunConcat(d, WriteLaunchersOps(t), mark);
    LaunchersResult(d, t);
    if activation.Some? { RunOne(Launched(d, t), mark[0]); } else { NoOperation(Launched(d, t)); }
    LaunchersStay(Run(d, first), last, d.pointer, env);
    CutsConcat(d, first, last, PointerLast(d.pointer, env));
    assert first + last == PublishOps(env, activation, WriteLaunchersOps(t), pointer, state);
  }

  /** At every cut of an upgrade, the pointer has moved only if the new launchers and the marker are in place. */
  lemma PointerComesLast(d: Disk, env: Env, id: VersionId, m: Metadata, waitForPid: Option<Pid>, parent: Pid)
    requires Coherent(d, env.win32)
    ensures AtEveryCut(d, CommandPart(d, env, Install(true, id, m, waitForPid, parent)).ops, PointerLast(d.pointer, env))
  {
    var p := PointerLast(d.pointer, env);
    PointerStays(d, [], d.pointer, env);
    if !(id in d.versions && d.versions[id] != m) {
      var copy := if id in d.versions then [] else [AddVersion(id, m)];
      PointerStays(d, copy, d.pointer, env);
      if id in d.versions { NoOperation(d); } else { RunOne(d, copy[0]); }
      var d1 := Run(d, copy);
      RepairResult(d1, env.win32);
      UpgradeSwitchIs(d1, env, id, m, waitForPid, parent);
      var previous, repair := ReadState(d1).value, ReadStateOps(d1);
      var next := InstalledState(previous, true, id, m);
      var marker := NewMarker(env, Upgrade, id, previous.current, next.previous, WaitsFor(waitForPid, parent));
      var retire := if env.win32 then RetireExistingOps(d1) else [];
      var runs := UpgradeRuns(env, waitForPid, parent);
      var publish := if !runs then [] else
        PublishOps(env, if env.win32 then Some(marker) else None, WriteLaunchersOps(if env.win32 then env.token else env.generation),
                   PointerFor(id, m), next);
      PointerStays(d1, repair, d.pointer, env);
      var d2 := Run(d1, repair);
      PointerStays(d2, if runs then retire else [], d.pointer, env);
      var d3 := Run(d2, if runs then retire else []);
      hide PublishOps, ReadState, ReadStateOps, RetireExistingOps, WriteLaunchersOps, Run, AtEveryCut, SwitchTo;
      if runs {
        PublishOrder(d3, env, if env.win32 then Some(marker) else None, PointerFor(id, m), next);
        CutsConcat(d2, retire, publish, p);
        CutsConcat(d1, repair, retire + publish, p);
        assert [] + publish == publish;
        CutsConcat(d, copy, repair + (retire + publish), p);
      } else {
        assert repair + [] == repair;
        CutsConcat(d, copy, repair, p);
      }
    }
  }
}
