/**
 What a pending activation may do, over every run of commands and detached finalizers: it acts
 only while its own marker is in place, moves the pointer only to its version and only from its
 version or its source, and begins at most 100 attempts.
 */
module InstallerActivation {
  import opened Common
  import opened InstallerModel

  predicate Holds(d: Disk, t: Token) {
    d.marker.Some? && d.marker.value.token == t
  }

  predicate LauncherOp(op: FileOp) {
    op.WriteStable? || op.WriteGeneration? || op.RemoveGeneration?
  }

  /** The operation writes a generation file of the token, or a stable launcher that names one. */
  predicate Names(op: FileOp, t: Token) {
    (op.WriteGeneration? && op.generation.token == t) || (op.WriteStable? && op.launcher == Trampoline(t))
  }

  predicate NamesOnly(op: FileOp, tokens: set<Token>) {
    && (op.WriteGeneration? ==> op.generation.token in tokens)
    && (op.WriteStable? && op.launcher.Trampoline? ==> op.launcher.generation in tokens)
  }

  /** What activation `t` may do next on disk `d` in a command that found its marker at `attempts`. */
  predicate Authorised(t: Token, attempts: nat, d: Disk, op: FileOp) {
    && Holds(d, t)
    && var m := d.marker.value;
    && attempts <= m.attempts <= attempts + 1
    && match op
       case SetPointer(p) =>
         // a missing pointer is restored from the state file; otherwise the activation publishes its version
         || (d.pointer.None? && d.state.Some? && d.state.value.current == Some(p.versionId))
         || (d.pointer.Some? && d.pointer.value.versionId in Admitted(m) && p.versionId == m.versionId)
       case SetMarker(n) =>
         && n.token == t && n.versionId == m.versionId && n.sourceVersionId == m.sourceVersionId
         && m.attempts <= n.attempts <= attempts + 1
         && (n.attempts == attempts + 1 ==> attempts < MAXIMUM_ATTEMPTS)
       case SetState(_) => true
       case RetireMarker => true
       case AddVersion(_, _) => false
       case WriteGeneration(_) => m.attempts == attempts + 1 <= MAXIMUM_ATTEMPTS && NamesOnly(op, {t})
       case RemoveGeneration(_) => m.attempts == attempts + 1 <= MAXIMUM_ATTEMPTS
       case WriteStable(_, _) => m.attempts == attempts + 1 <= MAXIMUM_ATTEMPTS && NamesOnly(op, {t})
  }

  predicate AllAuthorised(t: Token, attempts: nat, d: Disk, ops: seq<FileOp>)
    decreases ops
  {
    ops == [] || (Authorised(t, attempts, d, ops[0]) && AllAuthorised(t, attempts, Perform(d, ops[0]), ops[1..]))
  }

  lemma {:induction false} AuthorisedConcat(t: Token, n: nat, d: Disk, a: seq<FileOp>, b: seq<FileOp>)
    requires AllAuthorised(t, n, d, a) && AllAuthorised(t, n, Run(d, a), b)
    ensures AllAuthorised(t, n, d, a + b)
    decreases a
  {
    if a == [] {
      assert a + b == b;
    } else {
      assert (a + b)[1..] == a[1..] + b;
      AuthorisedConcat(t, n, Perform(d, a[0]), a[1..], b);
    }
  }

  lemma {:induction false} AuthorisedPrefix(t: Token, n: nat, d: Disk, ops: seq<FileOp>, k: nat)
    requires AllAuthorised(t, n, d, ops) && k <= |ops|
    ensures AllAuthorised(t, n, d, ops[..k])
    decreases k
  {
    if k > 0 {
      assert ops[..k][1..] == ops[1..][..k - 1];
      AuthorisedPrefix(t, n, Perform(d, ops[0]), ops[1..], k - 1);
    }
  }

  lemma AuthorisedOne(t: Token, n: nat, d: Disk, op: FileOp)
    requires Authorised(t, n, d, op)
    ensures AllAuthorised(t, n, d, [op])
  {
    assert [op][1..] == [];
  }

  /** A block of launcher writes inside an attempt. */
  lemma {:induction false} LauncherBlock(t: Token, n: nat, d: Disk, ops: seq<FileOp>)
    requires Holds(d, t) && d.marker.value.attempts == n + 1 <= MAXIMUM_ATTEMPTS
    requires forall op :: op in ops ==> LauncherOp(op) && NamesOnly(op, {t})
    ensures AllAuthorised(t, n, d, ops)
    ensures Run(d, ops) == d.(stable := Run(d, ops).stable, generations := Run(d, ops).generations)
    decreases ops
  {
    if ops != [] {
      assert ops[0] in ops;
      LauncherBlock(t, n, Perform(d, ops[0]), ops[1..]);
    }
  }

  lemma RepairAuthorised(d: Disk, t: Token)
    requires Holds(d, t)
    ensures AllAuthorised(t, d.marker.value.attempts, d, ReadStateOps(d))
    ensures Run(d, ReadStateOps(d)).marker == d.marker
  {
    if ReadStateOps(d) != [] {
      AuthorisedOne(t, d.marker.value.attempts, d, ReadStateOps(d)[0]);
      RunOne(d, ReadStateOps(d)[0]);
    }
  }

  lemma BodyAuthorised(d: Disk, m: Marker, state: InstallState, n: nat)
    requires d.marker == Some(m) && m.attempts == n + 1 <= MAXIMUM_ATTEMPTS
    requires Admits(m, state, d.pointer)
    ensures AllAuthorised(m.token, n, d, ActivationBody(d, m, state).0)
  {
    if m.versionId in d.versions {
      var t, metadata := m.token, d.versions[m.versionId];
      var launchers := WriteLaunchersOps(t);
      var pointer, published := SetPointer(PointerFor(m.versionId, metadata)), SetState(ActivatedState(m, metadata, state));
      LauncherBlock(t, n, d, launchers);
      var d1 := Run(d, launchers);
      var d2 := Perform(d1, pointer);
      AuthorisedOne(t, n, d2, published);
      RunOne(d2, published);
      assert [pointer, published][1..] == [published];
      assert Run(d1, [pointer, published]) == Perform(d2, published);
      AuthorisedConcat(t, n, d, launchers, [pointer, published]);
      RunConcat(d, launchers, [pointer, published]);
      var publish := launchers + [pointer, published];
      var d3 := Run(d, publish);
      match LegacyLayout(d, m, state)
      case Error =>
      case Ok(legacy) =>
        var tail := if legacy then LegacyLaunchersOps(d3.generations) else [];
        LauncherBlock(t, n, d3, tail);
        AuthorisedConcat(t, n, d, publish, tail);
        RunConcat(d, publish, tail);
        AuthorisedOne(t, n, Run(d, publish + tail), RetireMarker);
        AuthorisedConcat(t, n, d, publish + tail, [RetireMarker]);
    }
  }

  lemma GuardedAuthorised(d: Disk, m: Marker, state: InstallState, n: nat, fault: Option<nat>)
    requires d.marker == Some(m) && m.attempts == n + 1 <= MAXIMUM_ATTEMPTS
    requires Admits(m, state, d.pointer)
    ensures AllAuthorised(m.token, n, d, GuardedActivation(d, m, state, fault).ops)
  {
    var (body, broken) := ActivationBody(d, m, state);
    BodyAuthorised(d, m, state, n);
    var faulty := fault.Some? && fault.value < |body|;
    var k := if faulty then fault.value else |body|;
    assert body[..|body|] == body;
    if faulty || broken {
      StoppedBodyKeepsMarker(d, m, state, k);
      AuthorisedPrefix(m.token, n, d, body, k);
      var failed := SetMarker(m.(phase := Failed));
      AuthorisedOne(m.token, n, Run(d, body[..k]), failed);
      AuthorisedConcat(m.token, n, d, body[..k], [failed]);
    }
  }

  lemma ActivateRepairedAuthorised(d: Disk, m: Marker, state: InstallState, fault: Option<nat>)
    requires d.marker == Some(m)
    ensures AllAuthorised(m.token, m.attempts, d, ActivateRepaired(d, m, state, fault).ops)
  {
    hide GuardedActivation;
    var n := m.attempts;
    if !Admits(m, state, d.pointer) {
      AuthorisedOne(m.token, n, d, RetireMarker);
    } else if n >= MAXIMUM_ATTEMPTS {
      AuthorisedOne(m.token, n, d, SetMarker(m.(phase := Failed)));
    } else {
      var applying := m.(phase := Applying, attempts := n + 1);
      var d1 := Perform(d, SetMarker(applying));
      AuthorisedOne(m.token, n, d, SetMarker(applying));
      RunOne(d, SetMarker(applying));
      GuardedAuthorised(d1, applying, state, n, fault);
      AuthorisedConcat(m.token, n, d, [SetMarker(applying)], GuardedActivation(d1, applying, state, fault).ops);
    }
  }

  lemma ApplyAuthorised(d: Disk, t: Token, fault: Option<nat>)
    requires Holds(d, t)
    ensures AllAuthorised(t, d.marker.value.attempts, d, ApplyActivation(d, t, fault).ops)
  {
    if ReadState(d).Ok? {
      var m, repair := d.marker.value, ReadStateOps(d);
      RepairAuthorised(d, t);
      ActivateRepairedAuthorised(Run(d, repair), m, ReadState(d).value, fault);
      AuthorisedConcat(t, m.attempts, d, repair, ActivateRepaired(Run(d, repair), m, ReadState(d).value, fault).ops);
    }
  }

  /** What a whole authorised block can have done to the marker. */
  lemma {:induction false} AuthorisedMarker(t: Token, n: nat, d: Disk, ops: seq<FileOp>)
    requires AllAuthorised(t, n, d, ops)
    requires Holds(d, t) && n <= d.marker.value.attempts <= n + 1
    requires d.marker.value.attempts == n + 1 ==> n < MAXIMUM_ATTEMPTS
    ensures var e := Run(d, ops);
      e.marker.Some? ==>
        && Holds(e, t)
        && d.marker.value.attempts <= e.marker.value.attempts <= n + 1
        && (e.marker.value.attempts == n + 1 ==> n < MAXIMUM_ATTEMPTS)
        && ((exists op :: op in ops && LauncherOp(op)) ==> e.marker.value.attempts == n + 1)
        && e.marker.value.versionId == d.marker.value.versionId
        && e.marker.value.sourceVersionId == d.marker.value.sourceVersionId
    ensures (exists op :: op in ops && LauncherOp(op)) ==> n < MAXIMUM_ATTEMPTS
    decreases ops
  {
    if ops != [] {
      var d1 := Perform(d, ops[0]);
      if ops[0].RetireMarker? {
        assert ops[1..] == [];
        assert ops == [RetireMarker];
      } else {
        AuthorisedMarker(t, n, d1, ops[1..]);
        assert forall op :: op in ops <==> op == ops[0] || op in ops[1..];
      }
    }
  }

  /** Every operation a pending activation performs, in any command, is authorised. */
  lemma ActivationPartAuthorised(d: Disk, env: Env, command: Command)
    ensures d.marker.None? ==> ActivationPart(d, env, command).ops == []
    ensures d.marker.Some? ==>
      AllAuthorised(d.marker.value.token, d.marker.value.attempts, d, ActivationPart(d, env, command).ops)
  {
    if d.marker.Some? {
      var m := d.marker.value;
      AuthorisedOne(m.token, m.attempts, d, SetMarker(m.(phase := Failed)));
      ApplyAuthorised(d, m.token, env.fault);
      if command.Finalize? && command.token == m.token {
        var applied := ApplyActivation(d, m.token, env.fault);
        var d1 := Run(d, applied.ops);
        assert applied.ops + [] == applied.ops;
        AuthorisedMarker(m.token, m.attempts, d, applied.ops);
        if d1.marker.Some? {
          AuthorisedOne(m.token, m.attempts, d1, SetMarker(d1.marker.value.(phase := Failed)));
          AuthorisedConcat(m.token, m.attempts, d, applied.ops, [SetMarker(d1.marker.value.(phase := Failed))]);
        }
      }
    }
  }

  // ---------- One step of a run ----------

  /** The operations a pending activation completes in a step before its cut. */
  function ActivationOps(d: Disk, s: Step): seq<FileOp> {
    var ops := ActivationPart(d, s.env, s.command).ops;
    if s.cut <= |ops| then ops[..s.cut] else ops
  }

  /** The activation that acts in a step, if any. */
  function Actor(d: Disk, s: Step): Option<Token> {
    if ActivationOps(d, s) != [] && d.marker.Some? then Some(d.marker.value.token) else None
  }

  predicate WritesLaunchers(d: Disk, s: Step, t: Token) {
    Actor(d, s) == Some(t) && exists op :: op in ActivationOps(d, s) && LauncherOp(op)
  }

  /** These operations create no marker but one with the command's fresh token, and name no launcher but its own. */
  ghost predicate OnlyOwn(ops: seq<FileOp>, env: Env) {
    && (forall op :: op in ops && op.SetMarker? ==> op.marker.token == env.token && op.marker.attempts == 0)
    && forall op :: op in ops ==> NamesOnly(op, {env.token, env.generation})
  }

  lemma PublishMarker(env: Env, activation: Option<Marker>, launchers: seq<FileOp>, pointer: Pointer, state: InstallState)
    requires OnlyOwn(launchers, env)
    requires activation.Some? ==> activation.value.token == env.token && activation.value.attempts == 0
    ensures OnlyOwn(PublishOps(env, activation, launchers, pointer, state), env)
  {
  }

  lemma RepairMarker(d: Disk, env: Env)
    ensures OnlyOwn(ReadStateOps(d), env)
  {
  }

  lemma LaunchersMarker(gs: seq<Generation>, env: Env)
    ensures OnlyOwn(RemoveAllOps(gs), env)
    ensures OnlyOwn(LegacyLaunchersOps(gs), env)
    ensures OnlyOwn(WriteLaunchersOps(env.generation), env) && OnlyOwn(WriteLaunchersOps(env.token), env)
  {
  }

  lemma SwitchMarker(d: Disk, env: Env, upgrade: bool, id: VersionId, m: Metadata, waitForPid: Option<Pid>, parent: Pid)
    ensures OnlyOwn(SwitchTo(d, env, upgrade, id, m, waitForPid, parent).ops, env)
  {
    if ReadState(d).Ok? {
      var previous := ReadState(d).value;
      var next := InstalledState(previous, upgrade, id, m);
      RepairMarker(d, env);
      match DeferredPid(env, upgrade, false, waitForPid, parent)
      case Error =>
      case Ok(None) => PublishMarker(env, None, WriteLaunchersOps(env.generation), PointerFor(id, m), next);
      case Ok(Some(pid)) =>
        var marker := NewMarker(env, Upgrade, id, previous.current, next.previous, pid);
        PublishMarker(env, Some(marker), WriteLaunchersOps(env.token), PointerFor(id, m), next);
    }
  }

  lemma OwnConcat(a: seq<FileOp>, b: seq<FileOp>, env: Env)
    requires OnlyOwn(a, env) && OnlyOwn(b, env)
    ensures OnlyOwn(a + b, env)
  {
  }

  lemma OwnPrefix(ops: seq<FileOp>, k: nat, env: Env)
    requires OnlyOwn(ops, env) && k <= |ops|
    ensures OnlyOwn(ops[..k], env)
  {
  }

  lemma RetireMarkers(d: Disk, env: Env)
    ensures OnlyOwn(RetireExistingOps(d), env) && OnlyOwn([], env)
  {
  }

  lemma RollbackMarker(d: Disk, env: Env, waitForPid: Option<Pid>)
    ensures OnlyOwn(RollbackCommand(d, env, waitForPid).ops, env)
  {
    hide OnlyOwn, ReadState, ReadStateOps, PublishOps, LegacyLaunchersOps, WriteLaunchersOps, RemoveAllOps, RetireExistingOps;
    RepairMarker(d, env);
    RetireMarkers(d, env);
    if ReadState(d).Ok? {
      var current, repair := ReadState(d).value, ReadStateOps(d);
      if current.previous.Some? && current.previous.value in d.versions {
        var target := current.previous.value;
        var m := d.versions[target];
        var next := RolledBackState(current, m);
        LaunchersMarker(d.generations, env);
        match DeferredPid(env, false, true, waitForPid, 0)
        case Error =>
        case Ok(None) =>
          var launchers := if env.win32 then LegacyLaunchersOps(d.generations) else WriteLaunchersOps(env.generation);
          var publish := PublishOps(env, None, launchers, PointerFor(target, m), next);
          PublishMarker(env, None, launchers, PointerFor(target, m), next);
          OwnConcat(RetireExistingOps(d), publish, env);
          var main := repair + (RetireExistingOps(d) + publish);
          OwnConcat(repair, RetireExistingOps(d) + publish, env);
          var d1 := Run(d, main);
          var tidy := if env.win32 then RemoveAllOps(d1.generations) else [];
          LaunchersMarker(d1.generations, env);
          RetireMarkers(d1, env);
          OwnConcat(RetireExistingOps(d1), tidy, env);
          OwnConcat(main, RetireExistingOps(d1) + tidy, env);
        case Ok(Some(pid)) =>
          var marker := NewMarker(env, Rollback, target, current.current, next.previous, pid);
          var publish := PublishOps(env, Some(marker), WriteLaunchersOps(env.token), PointerFor(target, m), next);
          PublishMarker(env, Some(marker), WriteLaunchersOps(env.token), PointerFor(target, m), next);
          var k := |WriteLaunchersOps(env.token)| + 3;
          assert k <= |publish| by { StartedFits(env, marker, PointerFor(target, m), next); }
          OwnPrefix(publish, k, env);
          OwnConcat(RetireExistingOps(d), publish, env);
          OwnConcat(RetireExistingOps(d), publish[..k], env);
          OwnConcat(repair, RetireExistingOps(d) + publish, env);
          OwnConcat(repair, RetireExistingOps(d) + publish[..k], env);
      }
    }
  }

  lemma StartedFits(env: Env, marker: Marker, pointer: Pointer, state: InstallState)
    ensures |WriteLaunchersOps(env.token)| + 3 <= |PublishOps(env, Some(marker), WriteLaunchersOps(env.token), pointer, state)|
  {
  }

  /** The command part of a step creates no marker but the one with its own fresh token. */
  lemma CommandPartMarkers(d: Disk, env: Env, command: Command)
    ensures OnlyOwn(CommandPart(d, env, command).ops, env)
  {
    match command
    case Status =>
    case Install(upgrade, id, m, waitForPid, parent) =>
      var copy := if id in d.versions then [] else [AddVersion(id, m)];
      SwitchMarker(Run(d, copy), env, upgrade, id, m, waitForPid, parent);
    case RollBack(waitForPid) => RollbackMarker(d, env, waitForPid);
    case ReconcileLaunchers(_) =>
    case Finalize(_, _, _, _) =>
  }

  /** After such operations the marker is the old one, none, or one with the fresh token. */
  lemma {:induction false} MarkerAfter(d: Disk, ops: seq<FileOp>, env: Env)
    requires OnlyOwn(ops, env)
    ensures var e := Run(d, ops);
      e.marker == d.marker || e.marker.None? || (Holds(e, env.token) && e.marker.value.attempts == 0)
    decreases ops
  {
    if ops != [] {
      assert ops[0] in ops;
      MarkerAfter(Perform(d, ops[0]), ops[1..], env);
    }
  }

  /** How one step, cut anywhere, changes who holds the marker. */
  lemma StepMarker(d: Disk, s: Step)
    requires d.marker.Some? ==> d.marker.value.attempts <= MAXIMUM_ATTEMPTS
    ensures var e := Run(d, StepOps(d, s));
      && (e.marker.Some? ==> e.marker.value.attempts <= MAXIMUM_ATTEMPTS)
      && (e.marker.Some? ==>
            || (Holds(e, s.env.token) && e.marker.value.attempts == 0)
            || (d.marker.Some? && Holds(e, d.marker.value.token)
                && d.marker.value.attempts + (if WritesLaunchers(d, s, d.marker.value.token) then 1 else 0)
                   <= e.marker.value.attempts))
      && (d.marker.Some? && WritesLaunchers(d, s, d.marker.value.token) ==> d.marker.value.attempts < MAXIMUM_ATTEMPTS)
  {
    var activation := ActivationPart(d, s.env, s.command);
    var acted := ActivationOps(d, s);
    var d1 := Run(d, acted);
    ActivationPartAuthorised(d, s.env, s.command);
    if d.marker.Some? {
      var m := d.marker.value;
      assert activation.ops[..|activation.ops|] == activation.ops;
      AuthorisedPrefix(m.token, m.attempts, d, activation.ops, |acted|);
      AuthorisedMarker(m.token, m.attempts, d, acted);
    }
    var ops, all := StepOps(d, s), CommandOps(d, s.env, s.command);
    if s.cut <= |activation.ops| || activation.threw {
      assert ops == acted;
    } else {
      var part := CommandPart(Run(d, activation.ops), s.env, s.command).ops;
      var rest := ops[|activation.ops|..];
      assert all == activation.ops + part;
      assert ops == acted + rest;
      assert forall op :: op in rest ==> op in part;
      CommandPartMarkers(d1, s.env, s.command);
      MarkerAfter(d1, rest, s.env);
      RunConcat(d, acted, rest);
    }
  }

  /**
   The pointer in any step of any run: an activation moves it only to its own version, and only
   from that version or from the one it replaces.
   */
  lemma {:induction false} PointerMoves(d: Disk, s: Step, k: nat)
    requires d.marker.Some?
    requires k < |ActivationOps(d, s)| && ActivationOps(d, s)[k].SetPointer?
    ensures var m, e := d.marker.value, Run(d, ActivationOps(d, s)[..k]);
      && (e.pointer.Some? ==>
            && ActivationOps(d, s)[k].pointer.versionId == m.versionId
            && e.pointer.value.versionId in Admitted(m))
      && (e.pointer.None? ==>
            e.state.Some? && e.state.value.current == Some(ActivationOps(d, s)[k].pointer.versionId))
  {
    var ops, acted, m := ActivationPart(d, s.env, s.command).ops, ActivationOps(d, s), d.marker.value;
    ActivationPartAuthorised(d, s.env, s.command);
    assert ops[..|ops|] == ops;
    AuthorisedPrefix(m.token, m.attempts, d, ops, |acted|);
    AuthorisedPrefix(m.token, m.attempts, d, acted, k);
    AuthorisedMarker(m.token, m.attempts, d, acted[..k]);
    AuthorisedAt(m.token, m.attempts, d, acted, k);
  }

  lemma {:induction false} AuthorisedAt(t: Token, n: nat, d: Disk, ops: seq<FileOp>, k: nat)
    requires AllAuthorised(t, n, d, ops) && k < |ops|
    ensures Authorised(t, n, Run(d, ops[..k]), ops[k])
    decreases k
  {
    if k > 0 {
      assert ops[..k][1..] == ops[1..][..k - 1];
      AuthorisedAt(t, n, Perform(d, ops[0]), ops[1..], k - 1);
    }
  }

  // ---------- Whole runs ----------

  /** Tokens are random: no two commands of a run draw the same one, and none draws one already in use. */
  ghost predicate FreshTokens(d: Disk, steps: seq<Step>) {
    && (forall i, j :: 0 <= i < j < |steps| ==> steps[i].env.token != steps[j].env.token)
    && (forall i :: 0 <= i < |steps| ==> !Holds(d, steps[i].env.token))
  }

  function At(d: Disk, steps: seq<Step>, i: nat): Disk
    requires i <= |steps|
  {
    After(d, steps[..i])
  }

  lemma {:induction false} AfterConcat(d: Disk, a: seq<Step>, b: seq<Step>)
    ensures After(d, a + b) == After(After(d, a), b)
    decreases a
  {
    if a == [] {
      assert a + b == b;
    } else {
      assert (a + b)[1..] == a[1..] + b;
      AfterConcat(Run(d, StepOps(d, a[0])), a[1..], b);
    }
  }

  lemma AtNext(d: Disk, steps: seq<Step>, i: nat)
    requires i < |steps|
    ensures At(d, steps, i + 1) == Run(At(d, steps, i), StepOps(At(d, steps, i), steps[i]))
  {
    assert steps[..i + 1] == steps[..i] + [steps[i]];
    AfterConcat(d, steps[..i], [steps[i]]);
    assert [steps[i]][1..] == [];
  }

  /** Whoever holds the marker held it at the start or drew its token in an earlier step. */
  lemma {:induction false} HolderIsOld(d: Disk, steps: seq<Step>, i: nat, t: Token)
    requires i <= |steps| && Holds(At(d, steps, i), t)
    requires d.marker.Some? ==> d.marker.value.attempts <= MAXIMUM_ATTEMPTS
    ensures Holds(d, t) || exists k :: 0 <= k < i && steps[k].env.token == t
  {
    hide StepOps, ActivationOps;
    if i > 0 {
      AtNext(d, steps, i - 1);
      AttemptsBounded(d, steps, i - 1);
      StepMarker(At(d, steps, i - 1), steps[i - 1]);
      if Holds(At(d, steps, i - 1), t) {
        HolderIsOld(d, steps, i - 1, t);
      }
    }
  }

  lemma {:induction false} AttemptsBounded(d: Disk, steps: seq<Step>, i: nat)
    requires i <= |steps|
    requires d.marker.Some? ==> d.marker.value.attempts <= MAXIMUM_ATTEMPTS
    ensures var e := At(d, steps, i); e.marker.Some? ==> e.marker.value.attempts <= MAXIMUM_ATTEMPTS
  {
    hide StepOps, ActivationOps;
    if i > 0 {
      AttemptsBounded(d, steps, i - 1);
      AtNext(d, steps, i - 1);
      StepMarker(At(d, steps, i - 1), steps[i - 1]);
    }
  }

  /**
   A token that held the marker and lost it, retired or superseded, never acts again in the run,
   whatever commands and finalizers follow and wherever they are cut.
   */
  lemma {:induction false} RetiredTokenNeverActs(d: Disk, steps: seq<Step>, i: nat, j: nat, k: nat, t: Token)
    requires FreshTokens(d, steps)
    requires d.marker.Some? ==> d.marker.value.attempts <= MAXIMUM_ATTEMPTS
    requires i <= j <= k < |steps|
    requires Holds(At(d, steps, i), t) && !Holds(At(d, steps, j), t)
    ensures !Holds(At(d, steps, k), t)
    ensures Actor(At(d, steps, k), steps[k]) != Some(t)
    decreases k
  {
    hide StepOps, ActivationOps;
    HolderIsOld(d, steps, i, t);
    if j < k {
      RetiredTokenNeverActs(d, steps, i, j, k - 1, t);
      AtNext(d, steps, k - 1);
      AttemptsBounded(d, steps, k - 1);
      StepMarker(At(d, steps, k - 1), steps[k - 1]);
    }
  }

  /** A synchronous rollback that runs to its end leaves no marker. */
  lemma SynchronousRollbackRetires(d: Disk, env: Env)
    requires !ActivationPart(d, env, RollBack(None)).threw
    requires !RollbackCommand(Run(d, ActivationPart(d, env, RollBack(None)).ops), env, None).threw
    ensures Run(d, CommandOps(d, env, RollBack(None))).marker == None
  {
    var activation := ActivationPart(d, env, RollBack(None)).ops;
    var d1 := Run(d, activation);
    RunConcat(d, activation, RollbackCommand(d1, env, None).ops);
    var current := ReadState(d1).value;
    var target := current.previous.value;
    var m := d1.versions[target];
    var launchers := if env.win32 then LegacyLaunchersOps(d1.generations) else WriteLaunchersOps(env.generation);
    var main := ReadStateOps(d1)
      + (RetireExistingOps(d1) + PublishOps(env, None, launchers, PointerFor(target, m), RolledBackState(current, m)));
    var d2 := Run(d1, main);
    var end := RetireExistingOps(d2) + if env.win32 then RemoveAllOps(d2.generations) else [];
    RunConcat(d1, main, end);
    RunConcat(d2, RetireExistingOps(d2), end[|RetireExistingOps(d2)|..]);
    if d2.marker.Some? {
      RunOne(d2, RetireMarker);
    }
    KeepsMarker(Run(d2, RetireExistingOps(d2)), end[|RetireExistingOps(d2)|..]);
    assert end == RetireExistingOps(d2) + end[|RetireExistingOps(d2)|..];
  }

  /** So no activation that was pending before a completed synchronous rollback acts after it. */
  lemma NoneActsAfterSynchronousRollback(d: Disk, steps: seq<Step>, i: nat, j: nat, k: nat, t: Token)
    requires FreshTokens(d, steps)
    requires d.marker.Some? ==> d.marker.value.attempts <= MAXIMUM_ATTEMPTS
    requires i <= j < k < |steps| && Holds(At(d, steps, i), t)
    requires var e, env := At(d, steps, j), steps[j].env;
      && steps[j].command == RollBack(None)
      && !ActivationPart(e, env, RollBack(None)).threw
      && !RollbackCommand(Run(e, ActivationPart(e, env, RollBack(None)).ops), env, None).threw
      && steps[j].cut >= |CommandOps(e, env, RollBack(None))|
    ensures Actor(At(d, steps, k), steps[k]) != Some(t)
  {
    var e := At(d, steps, j);
    SynchronousRollbackRetires(e, steps[j].env);
    AtNext(d, steps, j);
    assert StepOps(e, steps[j]) == CommandOps(e, steps[j].env, RollBack(None));
    RetiredTokenNeverActs(d, steps, i, j + 1, k, t);
  }

  /** The number of steps of a run in which activation `t` writes launchers. */
  function LauncherWrites(d: Disk, steps: seq<Step>, t: Token): nat
    decreases steps
  {
    if steps == [] then 0
    else (if WritesLaunchers(d, steps[0], t) then 1 else 0)
         + LauncherWrites(Run(d, StepOps(d, steps[0])), steps[1..], t)
  }

  /** One activation writes launchers on its own behalf in at most 100 commands, over any run. */
  lemma {:induction false} AtMostHundredAttempts(d: Disk, steps: seq<Step>, t: Token)
    requires FreshTokens(d, steps)
    requires d.marker.Some? ==> d.marker.value.attempts <= MAXIMUM_ATTEMPTS
    ensures LauncherWrites(d, steps, t) <= if Holds(d, t) then MAXIMUM_ATTEMPTS - d.marker.value.attempts else MAXIMUM_ATTEMPTS
    decreases steps
  {
    hide StepOps, ActivationOps;
    if steps != [] {
      var e := Run(d, StepOps(d, steps[0]));
      StepMarker(d, steps[0]);
      if Holds(d, t) && !Holds(e, t) {
        GoneWritesNothing(e, steps[1..], t);
      } else {
        AtMostHundredAttempts(e, steps[1..], t);
      }
    }
  }

  lemma {:induction false} GoneWritesNothing(d: Disk, steps: seq<Step>, t: Token)
    requires !Holds(d, t) && forall i :: 0 <= i < |steps| ==> steps[i].env.token != t
    requires d.marker.Some? ==> d.marker.value.attempts <= MAXIMUM_ATTEMPTS
    ensures LauncherWrites(d, steps, t) == 0
    decreases steps
  {
    hide StepOps, ActivationOps;
    if steps != [] {
      StepMarker(d, steps[0]);
      GoneWritesNothing(Run(d, StepOps(d, steps[0])), steps[1..], t);
    }
  }

  /** A launcher is written under the token: by its activation, or by the command that draws it. */
  ghost predicate WritesUnder(d: Disk, s: Step, t: Token) {
    WritesLaunchers(d, s, t) || exists op :: op in StepOps(d, s) && Names(op, t)
  }

  ghost function AllLauncherWrites(d: Disk, steps: seq<Step>, t: Token): nat
    decreases steps
  {
    if steps == [] then 0
    else (if WritesUnder(d, steps[0], t) then 1 else 0)
         + AllLauncherWrites(Run(d, StepOps(d, steps[0])), steps[1..], t)
  }

  function Draws(steps: seq<Step>, t: Token): nat {
    if steps == [] then 0 else (if steps[0].env.token == t then 1 else 0) + Draws(steps[1..], t)
  }

  /** The operations of a step are those of the activation and then those of the command proper. */
  lemma StepOpsAre(d: Disk, s: Step, op: FileOp)
    requires op in StepOps(d, s)
    ensures op in ActivationOps(d, s)
         || op in CommandPart(Run(d, ActivationPart(d, s.env, s.command).ops), s.env, s.command).ops
  {
    hide ActivationPart, CommandPart;
    var first := ActivationPart(d, s.env, s.command).ops;
    var k :| 0 <= k < |StepOps(d, s)| && StepOps(d, s)[k] == op;
    if k < |first| { assert ActivationOps(d, s)[k] == op; }
  }

  /** Only its activation and the command that draws a token write launchers under it. */
  lemma WhoWritesUnder(d: Disk, s: Step, t: Token)
    requires s.env.generation != t && WritesUnder(d, s, t)
    ensures WritesLaunchers(d, s, t) || s.env.token == t
  {
    hide ActivationPart, CommandPart, StepOps;
    if !WritesLaunchers(d, s, t) {
      var first := ActivationPart(d, s.env, s.command).ops;
      var op :| op in StepOps(d, s) && Names(op, t);
      StepOpsAre(d, s, op);
      if op in ActivationOps(d, s) {
        var k :| 0 <= k < |ActivationOps(d, s)| && ActivationOps(d, s)[k] == op;
        assert first[k] == op;
        ActivationPartAuthorised(d, s.env, s.command);
        AuthorisedAt(d.marker.value.token, d.marker.value.attempts, d, first, k);
      } else {
        CommandPartMarkers(Run(d, first), s.env, s.command);
      }
    }
  }

  lemma {:induction false} WritesAreAttemptsOrDraws(d: Disk, steps: seq<Step>, t: Token)
    requires forall s :: s in steps ==> s.env.generation != t
    ensures AllLauncherWrites(d, steps, t) <= LauncherWrites(d, steps, t) + Draws(steps, t)
    decreases steps
  {
    hide StepOps, WritesLaunchers, WritesUnder;
    if steps != [] {
      if WritesUnder(d, steps[0], t) { WhoWritesUnder(d, steps[0], t); }
      WritesAreAttemptsOrDraws(Run(d, StepOps(d, steps[0])), steps[1..], t);
    }
  }

  lemma {:induction false} DrawnOnce(steps: seq<Step>, t: Token)
    requires forall i, j :: 0 <= i < j < |steps| ==> steps[i].env.token != steps[j].env.token
    ensures Draws(steps, t) <= 1
    ensures (forall s :: s in steps ==> s.env.token != t) ==> Draws(steps, t) == 0
  {
    if steps != [] {
      DrawnOnce(steps[1..], t);
      if steps[0].env.token == t {
        forall s | s in steps[1..]
          ensures s.env.token != t
        {
          var k :| 0 <= k < |steps[1..]| && steps[1..][k] == s;
          assert steps[k + 1] == s;
        }
      }
    }
  }

  /** Counting the command that draws it, launchers are written under one token in at most 101 commands. */
  lemma AtMostHundredAndOneWrites(d: Disk, steps: seq<Step>, t: Token)
    requires FreshTokens(d, steps) && forall s :: s in steps ==> s.env.generation != t
    requires d.marker.Some? ==> d.marker.value.attempts <= MAXIMUM_ATTEMPTS
    ensures AllLauncherWrites(d, steps, t) <=
      if Holds(d, t) then MAXIMUM_ATTEMPTS - d.marker.value.attempts else MAXIMUM_ATTEMPTS + 1
  {
    AtMostHundredAttempts(d, steps, t);
    WritesAreAttemptsOrDraws(d, steps, t);
    DrawnOnce(steps, t);
  }
}
