/**
 Crash recovery.  What may come out of a disk that a stopped command left, for every activation marker,
 and what one undisturbed command makes of it.
 */
module InstallerRecovery {
  import opened Common
  import opened InstallerModel

  /** What is installed: the current version and the one a rollback returns to. */
  datatype Installation = Installation(current: VersionId, previous: Option<VersionId>)

  /** A completed switch to `target`. */
  function Switched(i: Installation, target: VersionId): Installation {
    Installation(target, if i.current == target then i.previous else Some(i.current))
  }

  predicate PointsAt(d: Disk, id: VersionId) {
    id in d.versions && d.pointer == Some(PointerFor(id, d.versions[id]))
  }

  predicate StateIs(d: Disk, i: Installation) {
    && i.current in d.versions && d.state.Some?
    && d.state.value.current == Some(i.current) && d.state.value.previous == i.previous
    && d.state.value.currentVersion == d.versions[i.current].version
    && d.state.value.currentCommit == d.versions[i.current].commit
  }

  /** The installation is exactly `i`: pointer and state file agree, down to version and commit. */
  predicate InstallationIs(d: Disk, i: Installation) {
    PointsAt(d, i.current) && StateIs(d, i)
  }

  // ---------- What a disk stands for ----------

  function Recorded(d: Disk): Installation
    requires d.state.Some? && d.state.value.current.Some?
  {
    Installation(d.state.value.current.value, d.state.value.previous)
  }

  /** A valid pointer, and a valid state file that may be one switch behind it. */
  predicate Coherent(d: Disk, win32: bool) {
    && d.pointer.Some? && PointsAt(d, d.pointer.value.versionId)
    && d.state.Some? && d.state.value.current.Some? && StateIs(d, Recorded(d))
    && (!win32 && d.marker.Some? ==> d.state.value.current == Some(d.pointer.value.versionId))
  }

  /** The installation on disk; a half-made switch counts as made. */
  function Base(d: Disk): Installation
    requires d.pointer.Some? && d.state.Some? && d.state.value.current.Some?
  {
    Switched(Recorded(d), d.pointer.value.versionId)
  }

  /** The installation that applying a marker to `i` leads to. */
  function Activated(i: Installation, m: Marker): Installation {
    Installation(m.versionId, if m.previousVersionId.Some? then m.previousVersionId else Switched(i, m.versionId).previous)
  }

  /** The marker can still be applied to `i`. */
  predicate Live(m: Marker, i: Installation) {
    m.attempts < MAXIMUM_ATTEMPTS && i.current in Admitted(m)
  }

  /**
   What a set of cuts may leave: the platform, the versions that may be or become installed, and the
   installations that may come out.
   */
  datatype Scope = Scope(win32: bool, known: iset<VersionId>, allowed: iset<Installation>)

  predicate Pending(d: Disk, i: Installation, c: Scope) {
    d.marker.Some? && c.win32 && Live(d.marker.value, i) && d.marker.value.versionId in c.known
  }

  /** A live marker leads to `Activated`, or when stopped between pointer and state file to `Switched`. */
  predicate MayActivate(m: Marker, i: Installation, c: Scope) {
    Switched(i, m.versionId) in c.allowed && Activated(i, m) in c.allowed
  }

  ghost predicate Inside(d: Disk, c: Scope) {
    && Coherent(d, c.win32) && (forall v :: v in d.versions ==> v in c.known)
    && Base(d) in c.allowed && (Pending(d, Base(d), c) ==> MayActivate(d.marker.value, Base(d), c))
  }

  ghost function In(c: Scope): Disk -> bool {
    (d: Disk) => Inside(d, c)
  }

  lemma {:induction false} LaunchersKeep(d: Disk, ops: seq<FileOp>, c: Scope)
    requires Inside(d, c)
    requires forall op :: op in ops ==> op.WriteStable? || op.WriteGeneration? || op.RemoveGeneration?
    ensures AtEveryCut(d, ops, In(c)) && Inside(Run(d, ops), c)
    ensures Run(d, ops) == d.(stable := Run(d, ops).stable, generations := Run(d, ops).generations)
    decreases ops
  {
    if ops != [] {
      assert ops[0] in ops;
      LaunchersKeep(Perform(d, ops[0]), ops[1..], c);
    }
  }

  lemma Last(d: Disk, ops: seq<FileOp>, c: Scope)
    requires AtEveryCut(d, ops, In(c))
    ensures Inside(Run(d, ops), c)
  {
    CutHolds(d, ops, |ops|, In(c));
    assert ops[..|ops|] == ops;
  }

  /** `readState` never throws here, finishes a half-made switch and changes nothing else. */
  lemma RepairKeeps(d: Disk, c: Scope)
    requires Inside(d, c)
    ensures AtEveryCut(d, ReadStateOps(d), In(c)) && ReadState(d).Ok?
    ensures var e := Run(d, ReadStateOps(d));
      && e == d.(state := e.state) && e.state == Some(ReadState(d).value)
      && InstallationIs(e, Base(d)) && Base(e) == Base(d) && Inside(e, c)
      && (InstallationIs(d, Base(d)) ==> ReadStateOps(d) == [])
  {
    if ReadStateOps(d) != [] {
      var op := ReadStateOps(d)[0];
      RunOne(d, op);
      CutsOne(d, op, In(c));
    }
  }

  // ---------- Activation ----------

  /** The same activation in another phase, with as many attempts or more. */
  predicate Continues(n: Marker, m: Marker) {
    n == m.(phase := n.phase, attempts := n.attempts) && n.attempts >= m.attempts
  }

  lemma MarkerKeeps(d: Disk, c: Scope, n: Marker)
    requires Inside(d, c) && d.marker.Some? && Continues(n, d.marker.value)
    ensures AtEveryCut(d, [SetMarker(n)], In(c))
    ensures Run(d, [SetMarker(n)]) == d.(marker := Some(n)) && Inside(d.(marker := Some(n)), c)
  {
    CutsOne(d, SetMarker(n), In(c));
  }

  /** Launchers, pointer and state file of an activation. */
  lemma ActivationPublishes(d: Disk, m: Marker, i: Installation, c: Scope)
    requires Inside(d, c) && InstallationIs(d, i) && d.marker == Some(m) && c.win32
    requires m.versionId in d.versions && MayActivate(m, i, c)
    ensures
      var metadata := d.versions[m.versionId];
      var publish := WriteLaunchersOps(m.token)
        + [SetPointer(PointerFor(m.versionId, metadata)), SetState(ActivatedState(m, metadata, d.state.value))];
      var e := Run(d, publish);
      && AtEveryCut(d, publish, In(c)) && Inside(e, c)
      && e.marker == d.marker && e.versions == d.versions && InstallationIs(e, Activated(i, m))
  {
    hide AtEveryCut, Run;
    var metadata := d.versions[m.versionId];
    var launchers := WriteLaunchersOps(m.token);
    var pointer, published := SetPointer(PointerFor(m.versionId, metadata)), SetState(ActivatedState(m, metadata, d.state.value));
    LaunchersKeep(d, launchers, c);
    var d1 := Run(d, launchers);
    var d2 := Perform(d1, pointer);
    CutsOne(d1, pointer, In(c));
    CutsOne(d2, published, In(c));
    CutsConcat(d1, [pointer], [published], In(c));
    RunConcat(d1, [pointer], [published]);
    assert [pointer] + [published] == [pointer, published];
    CutsConcat(d, launchers, [pointer, published], In(c));
    RunConcat(d, launchers, [pointer, published]);
  }

  /** What an activation that is not disturbed leaves installed. */
  function Reached(d: Disk, m: Marker, i: Installation): Installation {
    if m.versionId in d.versions then Activated(i, m) else i
  }

  lemma BodyKeeps(d: Disk, m: Marker, i: Installation, c: Scope)
    requires Inside(d, c) && InstallationIs(d, i) && d.marker == Some(m) && c.win32
    requires m.versionId in d.versions ==> MayActivate(m, i, c)
    ensures var body := ActivationBody(d, m, d.state.value).0;
      AtEveryCut(d, body, In(c)) && InstallationIs(Run(d, body), Reached(d, m, i))
  {
    hide AtEveryCut, Run, WriteLaunchersOps, ActivatedState;
    if m.versionId !in d.versions {
      NoOps(d, c);
    } else {
      ActivationPublishes(d, m, i, c);
      var metadata := d.versions[m.versionId];
      var publish := WriteLaunchersOps(m.token)
        + [SetPointer(PointerFor(m.versionId, metadata)), SetState(ActivatedState(m, metadata, d.state.value))];
      match LegacyLayout(d, m, d.state.value)
      case Error =>
      case Ok(legacy) =>
        var d1 := Run(d, publish);
        var tail := if legacy then LegacyLaunchersOps(d1.generations) else [];
        LaunchersKeep(d1, tail, c);
        CutsConcat(d, publish, tail, In(c));
        RunConcat(d, publish, tail);
        var d2 := Run(d1, tail);
        CutsOne(d2, RetireMarker, In(c));
        CutsConcat(d, publish + tail, [RetireMarker], In(c));
        RunConcat(d, publish + tail, [RetireMarker]);
    }
  }

  lemma NoOps(d: Disk, c: Scope)
    requires Inside(d, c)
    ensures AtEveryCut(d, [], In(c)) && Run(d, []) == d
  {
  }

  lemma GuardedKeeps(d: Disk, m: Marker, i: Installation, c: Scope, fault: Option<nat>)
    requires Inside(d, c) && InstallationIs(d, i) && d.marker == Some(m) && c.win32
    requires m.versionId in d.versions ==> MayActivate(m, i, c)
    ensures var guarded := GuardedActivation(d, m, d.state.value, fault);
      && AtEveryCut(d, guarded.ops, In(c))
      && (fault.None? ==> InstallationIs(Run(d, guarded.ops), Reached(d, m, i)))
      && (m.versionId !in d.versions ==> guarded.threw)
  {
    var (body, broken) := ActivationBody(d, m, d.state.value);
    BodyKeeps(d, m, i, c);
    var faulty := fault.Some? && fault.value < |body|;
    var k := if faulty then fault.value else |body|;
    assert body[..|body|] == body;
    if faulty || broken {
      StoppedBodyKeeps(d, m, c, k);
    }
  }

  lemma StoppedBodyKeeps(d: Disk, m: Marker, c: Scope, k: nat)
    requires Inside(d, c) && d.marker == Some(m) && d.state.Some?
    requires k <= |ActivationBody(d, m, d.state.value).0|
    requires k < |ActivationBody(d, m, d.state.value).0| || ActivationBody(d, m, d.state.value).1
    requires AtEveryCut(d, ActivationBody(d, m, d.state.value).0, In(c))
    ensures var ops := ActivationBody(d, m, d.state.value).0[..k];
      && AtEveryCut(d, ops + [SetMarker(m.(phase := Failed))], In(c))
      && Run(d, ops + [SetMarker(m.(phase := Failed))]) == Run(d, ops).(marker := Some(m.(phase := Failed)))
  {
    hide ActivationBody, Inside;
    var ops := ActivationBody(d, m, d.state.value).0[..k];
    CutHolds(d, ActivationBody(d, m, d.state.value).0, k, In(c));
    StoppedBodyKeepsMarker(d, m, d.state.value, k);
    var d1 := Run(d, ops);
    assert Inside(d1, c);
    MarkerKeeps(d1, c, m.(phase := Failed));
    CutsConcat(d, ops, [SetMarker(m.(phase := Failed))], In(c));
    RunConcat(d, ops, [SetMarker(m.(phase := Failed))]);
  }

  /** Applying `m` to `i` on this disk goes through. */
  predicate Ready(d: Disk, m: Marker, i: Installation) {
    Live(m, i) && m.versionId in d.versions
  }

  lemma ActivateRepairedKeeps(d: Disk, m: Marker, i: Installation, c: Scope, fault: Option<nat>)
    requires Inside(d, c) && InstallationIs(d, i) && d.marker == Some(m) && c.win32
    ensures var rest := ActivateRepaired(d, m, d.state.value, fault);
      && AtEveryCut(d, rest.ops, In(c))
      && (fault.None? ==> InstallationIs(Run(d, rest.ops), if Ready(d, m, i) then Activated(i, m) else i))
      && (Live(m, i) && m.versionId !in d.versions ==> rest.threw)
  {
    hide GuardedActivation;
    assert Base(d) == i;
    if !Admits(m, d.state.value, d.pointer) {
      CutsOne(d, RetireMarker, In(c));
    } else if m.attempts >= MAXIMUM_ATTEMPTS {
      MarkerKeeps(d, c, m.(phase := Failed));
    } else {
      var applying := m.(phase := Applying, attempts := m.attempts + 1);
      var d1 := Perform(d, SetMarker(applying));
      MarkerKeeps(d, c, applying);
      GuardedKeeps(d1, applying, i, c, fault);
      var guarded := GuardedActivation(d1, applying, d.state.value, fault).ops;
      CutsConcat(d, [SetMarker(applying)], guarded, In(c));
      RunConcat(d, [SetMarker(applying)], guarded);
    }
  }

  /** Applying a pending activation, whatever switch it belongs to. */
  lemma ApplyKeeps(d: Disk, c: Scope, fault: Option<nat>)
    requires Inside(d, c) && d.marker.Some? && c.win32
    ensures var m, i, applied := d.marker.value, Base(d), ApplyActivation(d, d.marker.value.token, fault);
      && AtEveryCut(d, applied.ops, In(c))
      && (fault.None? ==> InstallationIs(Run(d, applied.ops), if Ready(d, m, i) then Activated(i, m) else i))
      && (Live(m, i) && m.versionId !in d.versions ==> applied.threw)
  {
    hide ActivateRepaired, AtEveryCut;
    var m, repair := d.marker.value, ReadStateOps(d);
    RepairKeeps(d, c);
    var d1 := Run(d, repair);
    ActivateRepairedKeeps(d1, m, Base(d), c, fault);
    var rest := ActivateRepaired(d1, m, ReadState(d).value, fault).ops;
    CutsConcat(d, repair, rest, In(c));
    RunConcat(d, repair, rest);
  }

  lemma FinalizeKeeps(d: Disk, c: Scope, env: Env, token: Token, id: VersionId, pid: Pid, timedOut: bool)
    requires Inside(d, c) && env.win32 == c.win32
    ensures AtEveryCut(d, FinalizeCommand(d, env, token, id, pid, timedOut).ops, In(c))
  {
    hide ApplyActivation, Inside;
    NoOps(d, c);
    if env.win32 && d.marker.Some? && d.marker.value.token == token {
      MarkerKeeps(d, c, d.marker.value.(phase := Failed));
      ApplyKeeps(d, c, env.fault);
      var applied := ApplyActivation(d, token, env.fault).ops;
      var d1 := Run(d, applied);
      Last(d, applied, c);
      assert applied + [] == applied;
      if d1.marker.Some? {
        MarkerKeeps(d1, c, d1.marker.value.(phase := Failed));
        CutsConcat(d, applied, [SetMarker(d1.marker.value.(phase := Failed))], In(c));
      }
    }
  }

  lemma ActivationPartKeeps(d: Disk, c: Scope, env: Env, command: Command)
    requires Inside(d, c) && env.win32 == c.win32
    ensures AtEveryCut(d, ActivationPart(d, env, command).ops, In(c))
    ensures Inside(Run(d, ActivationPart(d, env, command).ops), c)
  {
    hide ApplyActivation, Inside;
    if command.Finalize? {
      FinalizeKeeps(d, c, env, command.token, command.id, command.pid, command.timedOut);
    } else {
      NoOps(d, c);
      if d.marker.Some? && env.win32 {
        MarkerKeeps(d, c, d.marker.value.(phase := Failed));
        ApplyKeeps(d, c, env.fault);
      }
    }
    Last(d, ActivationPart(d, env, command).ops, c);
  }

  // ---------- Recovery ----------

  /** Commands that only recover: they start no switch of their own. */
  predicate Recovers(command: Command) {
    command.Status? || command.ReconcileLaunchers? || command.Finalize?
  }

  /** A recovering command may itself be cut anywhere, or fail inside the activation. */
  lemma RecoveryKeeps(d: Disk, c: Scope, env: Env, command: Command)
    requires Inside(d, c) && Recovers(command) && env.win32 == c.win32
    ensures AtEveryCut(d, CommandOps(d, env, command), In(c))
  {
    hide ActivationPart, Inside;
    var activation := ActivationPart(d, env, command);
    ActivationPartKeeps(d, c, env, command);
    var d1 := Run(d, activation.ops);
    RepairKeeps(d1, c);
    NoOps(d1, c);
    CutsConcat(d, activation.ops, CommandPart(d1, env, command).ops, In(c));
  }

  ghost predicate OnPlatform(steps: seq<Step>, win32: bool) {
    forall s :: s in steps ==> s.env.win32 == win32
  }

  ghost predicate AllRecover(steps: seq<Step>) {
    forall s :: s in steps ==> Recovers(s.command)
  }

  lemma {:induction false} RecoveriesKeep(d: Disk, c: Scope, steps: seq<Step>)
    requires Inside(d, c) && AllRecover(steps) && OnPlatform(steps, c.win32)
    ensures Inside(After(d, steps), c)
    decreases steps
  {
    if steps != [] {
      var s := steps[0];
      assert s in steps;
      hide Inside, CommandOps;
      RecoveryKeeps(d, c, s.env, s.command);
      StepInside(d, c, s);
      RecoveriesKeep(Run(d, StepOps(d, s)), c, steps[1..]);
    }
  }

  lemma StepInside(d: Disk, c: Scope, s: Step)
    requires AtEveryCut(d, CommandOps(d, s.env, s.command), In(c))
    ensures Inside(Run(d, StepOps(d, s)), c)
  {
    hide Inside, CommandOps;
    var ops := CommandOps(d, s.env, s.command);
    CutHolds(d, ops, if s.cut <= |ops| then s.cut else |ops|, In(c));
    assert ops[..|ops|] == ops;
    assert Inside(Run(d, StepOps(d, s)), c);
  }

  /** The next command will carry out the activation: it can be applied, and nothing waits any more. */
  predicate Due(d: Disk, env: Env)
    requires d.pointer.Some? && d.state.Some? && d.state.value.current.Some?
  {
    && env.win32 && d.marker.Some? && Ready(d, d.marker.value, Base(d))
    && (d.marker.value.phase == Applying || d.marker.value.waitForPid !in env.alive)
  }

  /** What one undisturbed command makes of a disk. */
  function Outcome(d: Disk, env: Env): Installation
    requires d.pointer.Some? && d.state.Some? && d.state.value.current.Some?
  {
    if Due(d, env) then Activated(Base(d), d.marker.value) else Base(d)
  }

  /** The installations that may come out of a disk, when the versions in `known` are or become installed. */
  ghost function Possible(d: Disk, win32: bool, known: iset<VersionId>): iset<Installation>
    requires d.pointer.Some? && d.state.Some? && d.state.value.current.Some?
  {
    iset{Base(d)} + if Pending(d, Base(d), Scope(win32, known, iset{})) then
      iset{Switched(Base(d), d.marker.value.versionId), Activated(Base(d), d.marker.value)} else iset{}
  }

  ghost function Installed(d: Disk): iset<VersionId> { iset v | v in d.versions }

  /**
   The commit point, for every marker.  One command that runs to its end leaves exactly the
   installation the activation leads to if and only if the activation is due, and otherwise exactly
   the installation that `current` points at.
   */
  lemma CommitPoint(d: Disk, env: Env)
    requires Coherent(d, env.win32) && env.fault.None?
    ensures InstallationIs(Run(d, CommandOps(d, env, Status)), Outcome(d, env))
    ensures Outcome(d, env) in Possible(d, env.win32, Installed(d))
  {
    var c := Scope(env.win32, Installed(d), Possible(d, env.win32, Installed(d)));
    var reconciled := Reconcile(d, env, false, None);
    ActivationPartKeeps(d, c, env, Status);
    var d1 := Run(d, reconciled.ops);
    assert reconciled == ActivationPart(d, env, Status);
    ReconcileDecides(d, c, env);
    hide Reconcile, Inside, AtEveryCut;
    RepairKeeps(d1, c);
    RunConcat(d, reconciled.ops, ReadStateOps(d1));
  }

  lemma ReconcileDecides(d: Disk, c: Scope, env: Env)
    requires Inside(d, c) && env.win32 == c.win32 && env.fault.None?
    ensures var reconciled := Reconcile(d, env, false, None);
      var e := Run(d, reconciled.ops);
      && Inside(e, c) && Base(e) == Outcome(d, env)
      && (reconciled.threw ==> InstallationIs(e, Outcome(d, env)))
  {
    hide AtEveryCut, ApplyActivation, ReadState, ReadStateOps;
    if d.marker.Some? && env.win32 {
      var m := d.marker.value;
      if m.phase != Applying && m.waitForPid in env.alive {
        MarkerKeeps(d, c, m.(phase := Failed));
      } else {
        ApplyKeeps(d, c, env.fault);
        Last(d, ApplyActivation(d, m.token, env.fault).ops, c);
      }
    }
  }
}
