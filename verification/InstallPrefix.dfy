/**
 The install prefix as an object: the files the commands of scripts/install.ts rewrite in place.
 Every method is proved to perform exactly the file operations its specification in
 InstallerModel lists, in that order, so what is proved there about every cut holds of the object.
 */
module InstallPrefix {
  import opened Common
  import opened InstallerModel

  /**
   A block of operations attempted from disk `d0` and log `l0` while the operating system lets
   `f0` more of them succeed: it completes, or stops at the failing operation.
   */
  ghost predicate Attempted(d0: Disk, l0: seq<FileOp>, f0: Option<nat>, ops: seq<FileOp>,
                            ok: bool, d1: Disk, l1: seq<FileOp>, f1: Option<nat>)
  {
    if f0.Some? && f0.value < |ops| then
      !ok && f1 == None && l1 == l0 + ops[..f0.value] && d1 == Run(d0, ops[..f0.value])
    else
      && ok && l1 == l0 + ops && d1 == Run(d0, ops)
      && f1 == if f0.Some? then Some(f0.value - |ops|) else None
  }

  /** A block after a block that completed. */
  lemma AttemptThen(d0: Disk, l0: seq<FileOp>, f0: Option<nat>, a: seq<FileOp>,
                    d1: Disk, l1: seq<FileOp>, f1: Option<nat>, b: seq<FileOp>,
                    ok: bool, d2: Disk, l2: seq<FileOp>, f2: Option<nat>)
    requires Attempted(d0, l0, f0, a, true, d1, l1, f1)
    requires Attempted(d1, l1, f1, b, ok, d2, l2, f2)
    ensures Attempted(d0, l0, f0, a + b, ok, d2, l2, f2)
  {
    if f1.Some? && f1.value < |b| {
      assert (a + b)[..f0.value] == a + b[..f1.value];
      RunConcat(d0, a, b[..f1.value]);
      assert l0 + a + b[..f1.value] == l0 + (a + b[..f1.value]);
    } else {
      RunConcat(d0, a, b);
      assert l0 + a + b == l0 + (a + b);
    }
  }

  /** A block that stopped has stopped whatever was to follow. */
  lemma StoppedThen(d0: Disk, l0: seq<FileOp>, f0: Option<nat>, a: seq<FileOp>, b: seq<FileOp>,
                    d1: Disk, l1: seq<FileOp>, f1: Option<nat>)
    requires Attempted(d0, l0, f0, a, false, d1, l1, f1)
    ensures Attempted(d0, l0, f0, a + b, false, d1, l1, f1)
  {
    assert (a + b)[..f0.value] == a[..f0.value];
  }

  class Prefix {
    var versions: map<VersionId, Metadata>
    var pointer: Option<Pointer>
    var state: Option<InstallState>
    var marker: Option<Marker>
    var stable: map<Name, Launcher>
    var generations: seq<Generation>

    /** The number of file operations that still succeed before one fails, if one is going to. */
    var failing: Option<nat>

    /** The file operations performed so far. */
    ghost var log: seq<FileOp>

    function Snapshot(): Disk
      reads this
    {
      Disk(versions, pointer, state, marker, stable, generations)
    }

    /** The object has performed exactly `ops` since disk `d0` and log `l0`. */
    ghost predicate Did(d0: Disk, l0: seq<FileOp>, ops: seq<FileOp>)
      reads this
    {
      Attempted(d0, l0, None, ops, true, Snapshot(), log, failing)
    }

    lemma DidThen(d0: Disk, l0: seq<FileOp>, a: seq<FileOp>, d1: Disk, l1: seq<FileOp>, b: seq<FileOp>)
      requires Attempted(d0, l0, None, a, true, d1, l1, None)
      requires Did(d1, l1, b)
      ensures Did(d0, l0, a + b)
    {
      AttemptThen(d0, l0, None, a, d1, l1, None, b, true, Snapshot(), log, failing);
    }

    // ---------- Single file operations ----------

    /** Whether the next operation succeeds; a failure happens once. */
    method Admit() returns (ok: bool)
      modifies this`failing
      ensures ok == (failing.Some? || old(failing) == None)
      ensures ok == (old(failing) != Some(0))
      ensures failing == if old(failing).Some? && old(failing).value > 0 then Some(old(failing).value - 1) else None
    {
      ok := failing != Some(0);
      failing := if failing.Some? && failing.value > 0 then Some(failing.value - 1) else None;
    }

    method AddVersionDirectory(id: VersionId, metadata: Metadata)
      requires failing.None?
      modifies this
      ensures Did(old(Snapshot()), old(log), [AddVersion(id, metadata)])
    {
      RunOne(Snapshot(), AddVersion(id, metadata));
      versions := versions[id := metadata];
      log := log + [AddVersion(id, metadata)];
    }

    method WriteCurrentPointer(p: Pointer) returns (ok: bool)
      modifies this
      ensures Attempted(old(Snapshot()), old(log), old(failing), [SetPointer(p)], ok, Snapshot(), log, failing)
    {
      RunOne(Snapshot(), SetPointer(p));
      ok := Admit();
      if ok {
        pointer := Some(p);
        log := log + [SetPointer(p)];
      }
    }

    method WriteState(value: InstallState) returns (ok: bool)
      modifies this
      ensures Attempted(old(Snapshot()), old(log), old(failing), [SetState(value)], ok, Snapshot(), log, failing)
    {
      RunOne(Snapshot(), SetState(value));
      ok := Admit();
      if ok {
        state := Some(value);
        log := log + [SetState(value)];
      }
    }

    /** The guarded marker write: refused unless the marker in place is the expected one. */
    method WriteMarker(next: Marker, expected: Option<Token>) returns (ok: bool)
      requires failing.None?
      modifies this
      ensures ok == (if expected.None? then old(marker).None?
                     else old(marker).Some? && old(marker).value.token == expected.value)
      ensures Did(old(Snapshot()), old(log), if ok then [SetMarker(next)] else [])
    {
      RunOne(Snapshot(), SetMarker(next));
      ok := if expected.None? then marker.None? else marker.Some? && marker.value.token == expected.value;
      if ok {
        marker := Some(next);
        log := log + [SetMarker(next)];
      }
    }

    method RetireActivation(token: Token) returns (ok: bool)
      modifies this
      ensures
        var ops := if old(marker).Some? && old(marker).value.token == token then [RetireMarker] else [];
        Attempted(old(Snapshot()), old(log), old(failing), ops, ok, Snapshot(), log, failing)
    {
      RunOne(Snapshot(), RetireMarker);
      if marker.None? || marker.value.token != token {
        return true;
      }
      ok := Admit();
      if ok {
        marker := None;
        log := log + [RetireMarker];
      }
    }

    method WriteGenerationFile(g: Generation) returns (ok: bool)
      modifies this
      ensures Attempted(old(Snapshot()), old(log), old(failing), [WriteGeneration(g)], ok, Snapshot(), log, failing)
    {
      RunOne(Snapshot(), WriteGeneration(g));
      ok := Admit();
      if ok {
        if g !in generations {
          generations := generations + [g];
        }
        log := log + [WriteGeneration(g)];
      }
    }

    method WriteStableLauncher(name: Name, launcher: Launcher) returns (ok: bool)
      modifies this
      ensures Attempted(old(Snapshot()), old(log), old(failing), [WriteStable(name, launcher)], ok, Snapshot(), log, failing)
    {
      RunOne(Snapshot(), WriteStable(name, launcher));
      ok := Admit();
      if ok {
        stable := stable[name := launcher];
        log := log + [WriteStable(name, launcher)];
      }
    }

    // ---------- Launchers ----------

    method WriteLaunchers(generation: Token) returns (ok: bool)
      modifies this
      ensures Attempted(old(Snapshot()), old(log), old(failing), WriteLaunchersOps(generation), ok, Snapshot(), log, failing)
    {
      ghost var ops := WriteLaunchersOps(generation);
      ghost var d0, l0, f0 := Snapshot(), log, failing;
      ok := WriteGenerationFile(Generation(Cli, generation));
      if !ok { StoppedThen(d0, l0, f0, [ops[0]], ops[1..], Snapshot(), log, failing); assert ops == [ops[0]] + ops[1..]; return; }
      ghost var d1, l1, f1 := Snapshot(), log, failing;
      ok := WriteGenerationFile(Generation(Gateway, generation));
      AttemptThen(d0, l0, f0, [ops[0]], d1, l1, f1, [ops[1]], ok, Snapshot(), log, failing);
      assert [ops[0]] + [ops[1]] == ops[..2];
      if !ok { StoppedThen(d0, l0, f0, ops[..2], ops[2..], Snapshot(), log, failing); assert ops == ops[..2] + ops[2..]; return; }
      ghost var d2, l2, f2 := Snapshot(), log, failing;
      ok := WriteStableLauncher(Cli, Trampoline(generation));
      AttemptThen(d0, l0, f0, ops[..2], d2, l2, f2, [ops[2]], ok, Snapshot(), log, failing);
      assert ops[..2] + [ops[2]] == ops[..3];
      if !ok { StoppedThen(d0, l0, f0, ops[..3], ops[3..], Snapshot(), log, failing); assert ops == ops[..3] + ops[3..]; return; }
      ghost var d3, l3, f3 := Snapshot(), log, failing;
      ok := WriteStableLauncher(Gateway, Trampoline(generation));
      AttemptThen(d0, l0, f0, ops[..3], d3, l3, f3, [ops[3]], ok, Snapshot(), log, failing);
      assert ops[..3] + [ops[3]] == ops;
    }

    /** Removes the listed generation files one by one. */
    method RemoveGenerationFiles(listing: seq<Generation>) returns (ok: bool)
      modifies this
      ensures Attempted(old(Snapshot()), old(log), old(failing), RemoveAllOps(listing), ok, Snapshot(), log, failing)
    {
      ghost var ops := RemoveAllOps(listing);
      ghost var d0, l0, f0 := Snapshot(), log, failing;
      ok := true;
      var i := 0;
      while i < |listing|
        invariant 0 <= i <= |listing|
        invariant ok && Attempted(d0, l0, f0, ops[..i], true, Snapshot(), log, failing)
      {
        ghost var d1, l1, f1 := Snapshot(), log, failing;
        RunOne(d1, ops[i]);
        ok := Admit();
        if ok {
          generations := WithoutGeneration(generations, listing[i]);
          log := log + [ops[i]];
        }
        AttemptThen(d0, l0, f0, ops[..i], d1, l1, f1, [ops[i]], ok, Snapshot(), log, failing);
        assert ops[..i] + [ops[i]] == ops[..i + 1];
        if !ok {
          StoppedThen(d0, l0, f0, ops[..i + 1], ops[i + 1..], Snapshot(), log, failing);
          assert ops == ops[..i + 1] + ops[i + 1..];
          return;
        }
        i := i + 1;
      }
      assert ops[..i] == ops;
    }

    method WriteLegacyLaunchers() returns (ok: bool)
      modifies this
      ensures Attempted(old(Snapshot()), old(log), old(failing), LegacyLaunchersOps(old(generations)), ok, Snapshot(), log, failing)
    {
      ghost var d0, l0, f0 := Snapshot(), log, failing;
      ghost var cli, gateway, rest := WriteStable(Cli, Direct), WriteStable(Gateway, Direct), RemoveAllOps(generations);
      var listing := generations;
      ghost var all := LegacyLaunchersOps(listing);
      ok := WriteStableLauncher(Cli, Direct);
      if !ok { StoppedThen(d0, l0, f0, [cli], all[1..], Snapshot(), log, failing); assert all == [cli] + all[1..]; return; }
      ghost var d1, l1, f1 := Snapshot(), log, failing;
      RunOne(d0, cli);
      ok := WriteStableLauncher(Gateway, Direct);
      AttemptThen(d0, l0, f0, [cli], d1, l1, f1, [gateway], ok, Snapshot(), log, failing);
      assert [cli] + [gateway] == [cli, gateway];
      if !ok { StoppedThen(d0, l0, f0, [cli, gateway], rest, Snapshot(), log, failing); return; }
      ghost var d2, l2, f2 := Snapshot(), log, failing;
      RunOne(d1, gateway);
      ok := RemoveGenerationFiles(listing);
      AttemptThen(d0, l0, f0, [cli, gateway], d2, l2, f2, rest, ok, Snapshot(), log, failing);
    }

    // ---------- State and marker ----------

    method ReadInstallState() returns (r: Result<InstallState>)
      requires failing.None?
      modifies this
      ensures r == ReadState(old(Snapshot()))
      ensures Did(old(Snapshot()), old(log), ReadStateOps(old(Snapshot())))
    {
      if state.None? {
        return Ok(NO_STATE);
      }
      var value := state.value;
      if pointer.None? {
        if value.current.Some? {
          if value.current.value !in versions {
            return Error;
          }
          var _ := WriteCurrentPointer(PointerFor(value.current.value, versions[value.current.value]));
        }
        return Ok(value);
      }
      var p := pointer.value;
      if p.versionId !in versions || p != PointerFor(p.versionId, versions[p.versionId]) {
        return Error;
      }
      if value.current != Some(p.versionId) {
        var recovered := Recovered(value, p.versionId, versions[p.versionId]);
        var _ := WriteState(recovered);
        return Ok(recovered);
      }
      return Ok(value);
    }

    /** Rewrites phase and attempts of the marker that carries `token`; an error if it was superseded. */
    method UpdateMarker(token: Token, phase: Phase, attempts: nat) returns (r: Result<Marker>)
      requires failing.None?
      modifies this
      ensures r.Ok? <==> old(marker).Some? && old(marker).value.token == token
      ensures r.Ok? ==> r.value == old(marker).value.(phase := phase, attempts := attempts)
      ensures Did(old(Snapshot()), old(log), if r.Ok? then [SetMarker(r.value)] else [])
    {
      if marker.None? || marker.value.token != token {
        return Error;
      }
      var next := marker.value.(phase := phase, attempts := attempts);
      var _ := WriteMarker(next, Some(token));
      return Ok(next);
    }

    method RecordFailure(token: Token)
      requires failing.None?
      modifies this
      ensures Did(old(Snapshot()), old(log),
                  if old(marker).Some? && old(marker).value.token == token
                  then [SetMarker(old(marker).value.(phase := Failed))] else [])
    {
      if marker.Some? && marker.value.token == token {
        var _ := UpdateMarker(token, Failed, marker.value.attempts);
      }
    }

    // ---------- Activation ----------

    /** The launchers, pointer and state file of an activation. */
    method PublishActivation(m: Marker, metadata: Metadata, value: InstallState) returns (ok: bool)
      modifies this
      ensures
        var ops := WriteLaunchersOps(m.token)
                   + [SetPointer(PointerFor(m.versionId, metadata)), SetState(ActivatedState(m, metadata, value))];
        Attempted(old(Snapshot()), old(log), old(failing), ops, ok, Snapshot(), log, failing)
    {
      ghost var d0, l0, f0 := Snapshot(), log, failing;
      var p, s := PointerFor(m.versionId, metadata), ActivatedState(m, metadata, value);
      ghost var launchers := WriteLaunchersOps(m.token);
      ok := WriteLaunchers(m.token);
      if !ok { StoppedThen(d0, l0, f0, launchers, [SetPointer(p), SetState(s)], Snapshot(), log, failing); return; }
      ghost var d1, l1, f1 := Snapshot(), log, failing;
      ok := WriteCurrentPointer(p);
      AttemptThen(d0, l0, f0, launchers, d1, l1, f1, [SetPointer(p)], ok, Snapshot(), log, failing);
      assert launchers + [SetPointer(p)] + [SetState(s)] == launchers + [SetPointer(p), SetState(s)];
      if !ok { StoppedThen(d0, l0, f0, launchers + [SetPointer(p)], [SetState(s)], Snapshot(), log, failing); return; }
      ghost var d2, l2, f2 := Snapshot(), log, failing;
      ok := WriteState(s);
      AttemptThen(d0, l0, f0, launchers + [SetPointer(p)], d2, l2, f2, [SetState(s)], ok, Snapshot(), log, failing);
    }

    /** The guarded block of `applyLauncherActivation`; `ok` is false when it throws. */
    method RunActivation(m: Marker, value: InstallState) returns (ok: bool)
      requires marker == Some(m)
      modifies this
      ensures
        var (body, broken) := ActivationBody(old(Snapshot()), m, value);
        exists done :: Attempted(old(Snapshot()), old(log), old(failing), body, done, Snapshot(), log, failing)
                       && ok == (done && !broken)
    {
      ghost var d0, l0, f0 := Snapshot(), log, failing;
      ghost var body := ActivationBody(d0, m, value).0;
      if m.versionId !in versions {
        assert Attempted(d0, l0, f0, body, true, Snapshot(), log, failing);
        return false;
      }
      var metadata := versions[m.versionId];
      ghost var publish: seq<FileOp> := WriteLaunchersOps(m.token)
        + [SetPointer(PointerFor(m.versionId, metadata)), SetState(ActivatedState(m, metadata, value))];
      var legacy := LegacyLayout(Snapshot(), m, value);
      ok := PublishActivation(m, metadata, value);
      if !ok {
        StoppedThen(d0, l0, f0, publish, body[|publish|..], Snapshot(), log, failing);
        assert body == publish + body[|publish|..];
        assert Attempted(d0, l0, f0, body, false, Snapshot(), log, failing);
        return;
      }
      if legacy.Error? {
        assert Attempted(d0, l0, f0, body, true, Snapshot(), log, failing);
        return false;
      }
      ghost var d1, l1, f1 := Snapshot(), log, failing;
      ghost var tail: seq<FileOp> := if legacy.value then LegacyLaunchersOps(d1.generations) else [];
      if legacy.value {
        ok := WriteLegacyLaunchers();
      }
      AttemptThen(d0, l0, f0, publish, d1, l1, f1, tail, ok, Snapshot(), log, failing);
      if !ok {
        StoppedThen(d0, l0, f0, publish + tail, [RetireMarker], Snapshot(), log, failing);
        assert Attempted(d0, l0, f0, body, false, Snapshot(), log, failing);
        return;
      }
      ghost var d2, l2, f2 := Snapshot(), log, failing;
      forall op: FileOp | op in publish + tail
        ensures !op.RetireMarker? && !op.SetMarker?
      {
      }
      KeepsMarker(d0, publish + tail);
      ok := RetireActivation(m.token);
      AttemptThen(d0, l0, f0, publish + tail, d2, l2, f2, [RetireMarker], ok, Snapshot(), log, failing);
      assert Attempted(d0, l0, f0, body, ok, Snapshot(), log, failing);
    }

    /** The guarded block with its `catch`, which records the failure and passes the error on. */
    method GuardActivation(m: Marker, value: InstallState, fault: Option<nat>) returns (threw: bool)
      requires marker == Some(m) && failing.None?
      modifies this
      ensures threw == GuardedActivation(old(Snapshot()), m, value, fault).threw
      ensures Did(old(Snapshot()), old(log), GuardedActivation(old(Snapshot()), m, value, fault).ops)
    {
      ghost var d0, l0 := Snapshot(), log;
      ghost var (body, broken) := ActivationBody(d0, m, value);
      failing := fault;
      var ok := RunActivation(m, value);
      failing := None;
      threw := !ok;
      ghost var k := if fault.Some? && fault.value < |body| then fault.value else |body|;
      assert body[..|body|] == body;
      if threw {
        StoppedBodyKeepsMarker(d0, m, value, k);
        ghost var d1, l1 := Snapshot(), log;
        RecordFailure(m.token);
        DidThen(d0, l0, body[..k], d1, l1, [SetMarker(m.(phase := Failed))]);
      }
    }

    method ActivateAfterRepair(m: Marker, value: InstallState, fault: Option<nat>) returns (threw: bool)
      requires marker == Some(m) && failing.None?
      modifies this
      ensures threw == ActivateRepaired(old(Snapshot()), m, value, fault).threw
      ensures Did(old(Snapshot()), old(log), ActivateRepaired(old(Snapshot()), m, value, fault).ops)
    {
      ghost var d0, l0 := Snapshot(), log;
      if !Admits(m, value, pointer) {
        var _ := RetireActivation(m.token);
        return false;
      }
      if m.attempts >= MAXIMUM_ATTEMPTS {
        RecordFailure(m.token);
        return false;
      }
      var updated := UpdateMarker(m.token, Applying, m.attempts + 1);
      var applying := updated.value;
      ghost var d1, l1 := Snapshot(), log;
      RunOne(d0, SetMarker(applying));
      threw := GuardActivation(applying, value, fault);
      DidThen(d0, l0, [SetMarker(applying)], d1, l1, GuardedActivation(d1, applying, value, fault).ops);
    }

    method ApplyLauncherActivation(token: Token, fault: Option<nat>) returns (threw: bool)
      requires failing.None?
      modifies this
      ensures threw == ApplyActivation(old(Snapshot()), token, fault).threw
      ensures Did(old(Snapshot()), old(log), ApplyActivation(old(Snapshot()), token, fault).ops)
    {
      ghost var d0, l0 := Snapshot(), log;
      if marker.None? || marker.value.token != token {
        return false;
      }
      var m := marker.value;
      var value := ReadInstallState();
      if value.Error? {
        return true;
      }
      ghost var d1, l1 := Snapshot(), log;
      RepairKeepsMarker(d0);
      threw := ActivateAfterRepair(m, value.value, fault);
      DidThen(d0, l0, ReadStateOps(d0), d1, l1, ActivateRepaired(d1, m, value.value, fault).ops);
    }

    static lemma RepairKeepsMarker(d: Disk)
      ensures Run(d, ReadStateOps(d)) == d.(pointer := Run(d, ReadStateOps(d)).pointer, state := Run(d, ReadStateOps(d)).state)
    {
      if ReadStateOps(d) != [] {
        RunOne(d, ReadStateOps(d)[0]);
      }
    }

    method ReconcileActivation(env: Env, force: bool, token: Option<Token>) returns (threw: bool)
      requires failing.None?
      modifies this
      ensures threw == Reconcile(old(Snapshot()), env, force, token).threw
      ensures Did(old(Snapshot()), old(log), Reconcile(old(Snapshot()), env, force, token).ops)
    {
      if marker.None? || (token.Some? && marker.value.token != token.value) {
        return false;
      }
      var m := marker.value;
      if !env.win32 {
        return true;
      }
      if !force && m.phase != Applying && m.waitForPid in env.alive {
        if env.now >= m.deadline && m.phase != Failed {
          RecordFailure(m.token);
        }
        return false;
      }
      threw := ApplyLauncherActivation(m.token, env.fault);
    }

    method FinalizeDeferredLaunchers(env: Env, token: Token, id: VersionId, pid: Pid, timedOut: bool)
      requires failing.None?
      modifies this
      ensures Did(old(Snapshot()), old(log), FinalizeCommand(old(Snapshot()), env, token, id, pid, timedOut).ops)
    {
      ghost var d0, l0 := Snapshot(), log;
      if !env.win32 || marker.None? || marker.value.token != token {
        return;
      }
      if marker.value.versionId != id || marker.value.waitForPid != pid {
        return;
      }
      if timedOut {
        RecordFailure(token);
        return;
      }
      var threw := ApplyLauncherActivation(token, env.fault);
      ghost var applied := ApplyActivation(d0, token, env.fault).ops;
      ghost var d1, l1 := Snapshot(), log;
      assert applied + [] == applied;
      if threw {
        RecordFailure(token);
        DidThen(d0, l0, applied, d1, l1,
                if d1.marker.Some? && d1.marker.value.token == token
                then [SetMarker(d1.marker.value.(phase := Failed))] else []);
      }
    }

    // ---------- Commands ----------

    method RetireExisting()
      requires failing.None?
      modifies this
      ensures Did(old(Snapshot()), old(log), RetireExistingOps(old(Snapshot())))
    {
      if marker.Some? {
        var _ := RetireActivation(marker.value.token);
      }
    }

    /** Everything after the launchers have been written. */
    method SwitchPointer(env: Env, activation: Option<Marker>, p: Pointer, next: InstallState, start: bool)
      requires failing.None? && (activation.Some? ==> marker.None?)
      modifies this
      ensures
        var mark := if activation.Some? then [SetMarker(activation.value)] else [];
        var finalizer := if activation.Some? && start then StartFinalizerOps(env, activation.value) else [];
        Did(old(Snapshot()), old(log), mark + [SetPointer(p), SetState(next)] + finalizer)
    {
      ghost var d0, l0 := Snapshot(), log;
      ghost var mark := if activation.Some? then [SetMarker(activation.value)] else [];
      if activation.Some? {
        var _ := WriteMarker(activation.value, None);
        RunOne(d0, SetMarker(activation.value));
      }
      ghost var d1, l1 := Snapshot(), log;
      var _ := WriteCurrentPointer(p);
      RunOne(d1, SetPointer(p));
      DidThen(d0, l0, mark, d1, l1, [SetPointer(p)]);
      ghost var d2, l2 := Snapshot(), log;
      var _ := WriteState(next);
      RunOne(d2, SetState(next));
      DidThen(d0, l0, mark + [SetPointer(p)], d2, l2, [SetState(next)]);
      assert mark + [SetPointer(p)] + [SetState(next)] == mark + [SetPointer(p), SetState(next)];
      ghost var d3, l3 := Snapshot(), log;
      ghost var body := mark + [SetPointer(p), SetState(next)];
      assert body + [] == body;
      if activation.Some? && start {
        var m := activation.value;
        var _ := UpdateMarker(m.token, Waiting, m.attempts);
        RunOne(d3, SetMarker(m.(phase := Waiting)));
        DidThen(d0, l0, body, d3, l3, [SetMarker(m.(phase := Waiting))]);
        ghost var d4, l4 := Snapshot(), log;
        ghost var waiting := [SetMarker(m.(phase := Waiting))];
        if env.spawnFails {
          RecordFailure(m.token);
          DidThen(d0, l0, body + waiting, d4, l4, [SetMarker(m.(phase := Failed))]);
          assert body + waiting + [SetMarker(m.(phase := Failed))] == body + StartFinalizerOps(env, m);
        } else {
          assert waiting == StartFinalizerOps(env, m);
        }
      }
    }

    method Install(env: Env, upgrade: bool, id: VersionId, m: Metadata, waitForPid: Option<Pid>, parent: Pid)
      returns (threw: bool)
      requires failing.None?
      modifies this
      ensures threw == InstallCommand(old(Snapshot()), env, upgrade, id, m, waitForPid, parent).threw
      ensures Did(old(Snapshot()), old(log), InstallCommand(old(Snapshot()), env, upgrade, id, m, waitForPid, parent).ops)
    {
      ghost var d0, l0 := Snapshot(), log;
      if id in versions && versions[id] != m {
        return true;
      }
      ghost var copy := if id in d0.versions then [] else [AddVersion(id, m)];
      if id !in versions {
        AddVersionDirectory(id, m);
      }
      ghost var d1, l1 := Snapshot(), log;
      threw := SwitchInstallation(env, upgrade, id, m, waitForPid, parent);
      DidThen(d0, l0, copy, d1, l1, SwitchTo(d1, env, upgrade, id, m, waitForPid, parent).ops);
    }

    method SwitchInstallation(env: Env, upgrade: bool, id: VersionId, m: Metadata, waitForPid: Option<Pid>, parent: Pid)
      returns (threw: bool)
      requires failing.None?
      modifies this
      ensures threw == SwitchTo(old(Snapshot()), env, upgrade, id, m, waitForPid, parent).threw
      ensures Did(old(Snapshot()), old(log), SwitchTo(old(Snapshot()), env, upgrade, id, m, waitForPid, parent).ops)
    {
      hide ReadState, WriteLaunchersOps, PublishOps;
      ghost var d0, l0 := Snapshot(), log;
      var previous := ReadInstallState();
      if previous.Error? {
        return true;
      }
      ghost var repair := ReadStateOps(d0);
      ghost var d1, l1 := Snapshot(), log;
      RepairKeepsMarker(d0);
      var next := InstalledState(previous.value, upgrade, id, m);
      var deferred := DeferredPid(env, upgrade, false, waitForPid, parent);
      if deferred.Error? {
        return true;
      }
      if deferred.value.None? {
        PublishAll(env, None, env.generation, PointerFor(id, m), next, true);
        DidThen(d0, l0, repair, d1, l1,
                PublishOps(env, None, WriteLaunchersOps(env.generation), PointerFor(id, m), next));
      } else {
        var activation := NewMarker(env, Upgrade, id, previous.value.current, next.previous, deferred.value.value);
        RetireExisting();
        ghost var d2, l2 := Snapshot(), log;
        DidThen(d0, l0, repair, d1, l1, RetireExistingOps(d0));
        if d0.marker.Some? { RunOne(d1, RetireMarker); }
        PublishAll(env, Some(activation), env.token, PointerFor(id, m), next, true);
        ghost var publish := PublishOps(env, Some(activation), WriteLaunchersOps(env.token), PointerFor(id, m), next);
        DidThen(d0, l0, repair + RetireExistingOps(d0), d2, l2, publish);
        assert repair + RetireExistingOps(d0) + publish == repair + (RetireExistingOps(d0) + publish);
      }
      return false;
    }

    /** Generation launchers, then the switch; `start` is false when the finalizer cannot be reached. */
    method PublishAll(env: Env, activation: Option<Marker>, generation: Token, p: Pointer, next: InstallState, start: bool)
      requires failing.None? && (activation.Some? ==> marker.None?)
      modifies this
      ensures
        var publish := PublishOps(env, activation, WriteLaunchersOps(generation), p, next);
        Did(old(Snapshot()), old(log),
            if activation.Some? && !start then publish[..|WriteLaunchersOps(generation)| + 3] else publish)
    {
      ghost var d0, l0 := Snapshot(), log;
      ghost var launchers := WriteLaunchersOps(generation);
      var _ := WriteLaunchers(generation);
      ghost var d1, l1 := Snapshot(), log;
      KeepsMarker(d0, launchers);
      SwitchPointer(env, activation, p, next, start);
      ghost var mark := if activation.Some? then [SetMarker(activation.value)] else [];
      ghost var finalizer := if activation.Some? && start then StartFinalizerOps(env, activation.value) else [];
      DidThen(d0, l0, launchers, d1, l1, mark + [SetPointer(p), SetState(next)] + finalizer);
      ghost var publish := PublishOps(env, activation, launchers, p, next);
      if activation.Some? && !start {
        assert launchers + (mark + [SetPointer(p), SetState(next)] + finalizer) == publish[..|launchers| + 3];
      } else {
        assert launchers + (mark + [SetPointer(p), SetState(next)] + finalizer) == publish;
      }
    }

    method RollBackInstallation(env: Env, waitForPid: Option<Pid>) returns (threw: bool)
      requires failing.None?
      modifies this
      ensures threw == RollbackCommand(old(Snapshot()), env, waitForPid).threw
      ensures Did(old(Snapshot()), old(log), RollbackCommand(old(Snapshot()), env, waitForPid).ops)
    {
      ghost var d0, l0 := Snapshot(), log;
      var read := ReadInstallState();
      if read.Error? {
        return true;
      }
      ghost var repair := ReadStateOps(d0);
      ghost var d1, l1 := Snapshot(), log;
      RepairKeepsMarker(d0);
      var current := read.value;
      if current.previous.None? || current.previous.value !in versions {
        return true;
      }
      var target := current.previous.value;
      var m := versions[target];
      var next := RolledBackState(current, m);
      var deferred := DeferredPid(env, false, true, waitForPid, 0);
      if deferred.Error? {
        return true;
      }
      RetireExisting();
      ghost var d2, l2 := Snapshot(), log;
      DidThen(d0, l0, repair, d1, l1, RetireExistingOps(d0));
      if d0.marker.Some? { RunOne(d1, RetireMarker); }
      if deferred.value.None? {
        RollBackNow(env, PointerFor(target, m), next);
        SynchronousOps(d0, l0, d2, l2, env, PointerFor(target, m), next);
        return false;
      }
      var activation := NewMarker(env, Rollback, target, current.current, next.previous, deferred.value.value);
      var readable := current.current.Some? && current.current.value in versions;
      PublishAll(env, Some(activation), env.token, PointerFor(target, m), next, readable);
      DeferredOps(d0, l0, d2, l2, env, activation, PointerFor(target, m), next, readable);
      return !readable;
    }

    /** Puts the parts of a deferred rollback together. */
    lemma DeferredOps(d0: Disk, l0: seq<FileOp>, d2: Disk, l2: seq<FileOp>, env: Env, activation: Marker, p: Pointer,
                      next: InstallState, readable: bool)
      requires Attempted(d0, l0, None, ReadStateOps(d0) + RetireExistingOps(d0), true, d2, l2, None)
      requires
        var publish := PublishOps(env, Some(activation), WriteLaunchersOps(env.token), p, next);
        Did(d2, l2, if readable then publish else publish[..|WriteLaunchersOps(env.token)| + 3])
      ensures
        var publish := PublishOps(env, Some(activation), WriteLaunchersOps(env.token), p, next);
        var started := if readable then publish else publish[..|WriteLaunchersOps(env.token)| + 3];
        Did(d0, l0, ReadStateOps(d0) + (RetireExistingOps(d0) + started))
    {
      hide ReadStateOps, RetireExistingOps;
      var publish := PublishOps(env, Some(activation), WriteLaunchersOps(env.token), p, next);
      var started := if readable then publish else publish[..|WriteLaunchersOps(env.token)| + 3];
      DidThen(d0, l0, ReadStateOps(d0) + RetireExistingOps(d0), d2, l2, started);
      assert ReadStateOps(d0) + RetireExistingOps(d0) + started == ReadStateOps(d0) + (RetireExistingOps(d0) + started);
    }

    /** The synchronous switch and its clean-up. */
    method RollBackNow(env: Env, p: Pointer, next: InstallState)
      requires failing.None?
      modifies this
      ensures
        var d0 := old(Snapshot());
        var launchers := if env.win32 then LegacyLaunchersOps(d0.generations) else WriteLaunchersOps(env.generation);
        var publish := PublishOps(env, None, launchers, p, next);
        var d1 := Run(d0, publish);
        Did(d0, old(log), publish + (RetireExistingOps(d1) + if env.win32 then RemoveAllOps(d1.generations) else []))
    {
      hide LegacyLaunchersOps, WriteLaunchersOps, RemoveAllOps, PublishOps;
      ghost var d0, l0 := Snapshot(), log;
      SwitchNow(env, p, next);
      ghost var launchers := if env.win32 then LegacyLaunchersOps(d0.generations) else WriteLaunchersOps(env.generation);
      ghost var publish := PublishOps(env, None, launchers, p, next);
      ghost var d1, l1 := Snapshot(), log;
      RetireExisting();
      DidThen(d0, l0, publish, d1, l1, RetireExistingOps(d1));
      ghost var d2, l2 := Snapshot(), log;
      if d1.marker.Some? { RunOne(d1, RetireMarker); }
      ghost var tidy := if env.win32 then RemoveAllOps(d1.generations) else [];
      if env.win32 {
        var _ := RemoveGenerationFiles(generations);
      }
      DidThen(d0, l0, publish + RetireExistingOps(d1), d2, l2, tidy);
      assert publish + RetireExistingOps(d1) + tidy == publish + (RetireExistingOps(d1) + tidy);
    }

    method SwitchNow(env: Env, p: Pointer, next: InstallState)
      requires failing.None?
      modifies this
      ensures
        var d0 := old(Snapshot());
        var launchers := if env.win32 then LegacyLaunchersOps(d0.generations) else WriteLaunchersOps(env.generation);
        Did(d0, old(log), PublishOps(env, None, launchers, p, next))
    {
      ghost var d0, l0 := Snapshot(), log;
      ghost var launchers := if env.win32 then LegacyLaunchersOps(d0.generations) else WriteLaunchersOps(env.generation);
      if env.win32 {
        var _ := WriteLegacyLaunchers();
      } else {
        var _ := WriteLaunchers(env.generation);
      }
      ghost var d1, l1 := Snapshot(), log;
      SwitchPointer(env, None, p, next, false);
      DidThen(d0, l0, launchers, d1, l1, [] + [SetPointer(p), SetState(next)] + []);
      assert launchers + ([] + [SetPointer(p), SetState(next)] + []) == PublishOps(env, None, launchers, p, next);
    }

    /** Puts the parts of a synchronous rollback together. */
    lemma SynchronousOps(d0: Disk, l0: seq<FileOp>, d2: Disk, l2: seq<FileOp>, env: Env, p: Pointer, next: InstallState)
      requires Attempted(d0, l0, None, ReadStateOps(d0) + RetireExistingOps(d0), true, d2, l2, None)
      requires d2.generations == d0.generations
      requires
        var launchers := if env.win32 then LegacyLaunchersOps(d2.generations) else WriteLaunchersOps(env.generation);
        var publish := PublishOps(env, None, launchers, p, next);
        var d3 := Run(d2, publish);
        Did(d2, l2, publish + (RetireExistingOps(d3) + if env.win32 then RemoveAllOps(d3.generations) else []))
      ensures
        var launchers := if env.win32 then LegacyLaunchersOps(d0.generations) else WriteLaunchersOps(env.generation);
        var main := ReadStateOps(d0) + (RetireExistingOps(d0) + PublishOps(env, None, launchers, p, next));
        var d3 := Run(d0, main);
        Did(d0, l0, main + (RetireExistingOps(d3) + if env.win32 then RemoveAllOps(d3.generations) else []))
    {
      hide ReadStateOps, RetireExistingOps, PublishOps, LegacyLaunchersOps, WriteLaunchersOps, RemoveAllOps;
      var launchers := if env.win32 then LegacyLaunchersOps(d0.generations) else WriteLaunchersOps(env.generation);
      var before, publish := ReadStateOps(d0) + RetireExistingOps(d0), PublishOps(env, None, launchers, p, next);
      RunConcat(d0, before, publish);
      var main := ReadStateOps(d0) + (RetireExistingOps(d0) + publish);
      assert main == before + publish;
      var d3 := Run(d0, main);
      var after := RetireExistingOps(d3) + if env.win32 then RemoveAllOps(d3.generations) else [];
      DidThen(d0, l0, before, d2, l2, publish + after);
      assert before + (publish + after) == main + after;
    }

    /** One whole command under the install lock. */
    method Execute(env: Env, command: Command)
      requires failing.None?
      modifies this
      ensures Did(old(Snapshot()), old(log), CommandOps(old(Snapshot()), env, command))
    {
      ghost var d0, l0 := Snapshot(), log;
      var threw := Activate(env, command);
      if threw {
        return;
      }
      ghost var d1, l1 := Snapshot(), log;
      match command {
        case Status => var _ := ReadInstallState();
        case Install(upgrade, id, m, waitForPid, parent) => var _ := Install(env, upgrade, id, m, waitForPid, parent);
        case RollBack(waitForPid) => var _ := RollBackInstallation(env, waitForPid);
        case ReconcileLaunchers(_) =>
        case Finalize(_, _, _, _) =>
      }
      DidThen(d0, l0, ActivationPart(d0, env, command).ops, d1, l1, CommandPart(d1, env, command).ops);
    }

    /** What a pending activation does before the command proper. */
    method Activate(env: Env, command: Command) returns (threw: bool)
      requires failing.None?
      modifies this
      ensures threw == ActivationPart(old(Snapshot()), env, command).threw
      ensures Did(old(Snapshot()), old(log), ActivationPart(old(Snapshot()), env, command).ops)
    {
      match command
      case ReconcileLaunchers(token) => threw := ReconcileActivation(env, true, Some(token));
      case Finalize(token, id, pid, timedOut) =>
        FinalizeDeferredLaunchers(env, token, id, pid, timedOut);
        threw := false;
      case _ => threw := ReconcileActivation(env, false, None);
    }
  }
}
