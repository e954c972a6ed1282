/**
 The installer (scripts/install.ts) as programs of file operations.

 A command reads the install prefix and then performs a sequence of file operations, each one
 atomic (a rename, or the removal of one file).  Commands run one at a time under the install
 lock, so the operations of a command are a function of the disk it starts from and of its
 environment.  A crash, or an error that nothing catches, leaves a prefix of them on disk.
 */
module InstallerModel {
  import opened Common

  type VersionId = string
  type Token = nat  // a random UUID, modelled as a fresh number
  type Pid = nat

  datatype Distribution = Standalone | Compiled | Source

  /** install-metadata.json of an immutable version directory. */
  datatype Metadata = Metadata(version: string, commit: string, distribution: Distribution, runtimeSha256: string)

  /** The `current` pointer file. */
  datatype Pointer = Pointer(versionId: VersionId, distribution: Distribution, runtimeSha256: string)

  datatype InstallState = InstallState(
    current: Option<VersionId>, currentVersion: string, currentCommit: string,
    previous: Option<VersionId>, operation: string)

  datatype Phase = Prepared | Waiting | Applying | Failed
  datatype Operation = Upgrade | Rollback

  /** The launcher activation marker. */
  datatype Marker = Marker(
    token: Token, operation: Operation, phase: Phase,
    versionId: VersionId, sourceVersionId: Option<VersionId>, previousVersionId: Option<VersionId>,
    waitForPid: Pid, deadline: nat, attempts: nat)

  datatype Name = Cli | Gateway

  /** A stable Windows launcher: self-contained, or a trampoline into a generation file of the same name. */
  datatype Launcher = Direct | Trampoline(generation: Token)

  datatype Generation = Generation(name: Name, token: Token)

  datatype Disk = Disk(
    versions: map<VersionId, Metadata>,
    pointer: Option<Pointer>,
    state: Option<InstallState>,
    marker: Option<Marker>,
    stable: map<Name, Launcher>,
    generations: seq<Generation>)  // in directory order

  const MAXIMUM_ATTEMPTS: nat := 100
  const ACTIVATION_TIMEOUT_MS: nat := 600000

  // ---------- File operations ----------

  datatype FileOp =
    | AddVersion(id: VersionId, metadata: Metadata)
    | SetPointer(pointer: Pointer)
    | SetState(state: InstallState)
    | SetMarker(marker: Marker)
    | RetireMarker
    | WriteGeneration(generation: Generation)
    | RemoveGeneration(generation: Generation)
    | WriteStable(name: Name, launcher: Launcher)

  function WithoutGeneration(gs: seq<Generation>, g: Generation): (r: seq<Generation>)
    ensures forall x :: x in r <==> x in gs && x != g
  {
    if gs == [] then [] else
    var rest := WithoutGeneration(gs[1..], g);
    if gs[0] == g then rest else [gs[0]] + rest
  }

  function Perform(d: Disk, op: FileOp): Disk {
    match op
    case AddVersion(id, metadata) => d.(versions := d.versions[id := metadata])
    case SetPointer(pointer) => d.(pointer := Some(pointer))
    case SetState(state) => d.(state := Some(state))
    case SetMarker(marker) => d.(marker := Some(marker))
    case RetireMarker => d.(marker := None)
    case WriteGeneration(g) => if g in d.generations then d else d.(generations := d.generations + [g])
    case RemoveGeneration(g) => d.(generations := WithoutGeneration(d.generations, g))
    case WriteStable(name, launcher) => d.(stable := d.stable[name := launcher])
  }

  function Run(d: Disk, ops: seq<FileOp>): Disk
    decreases ops
  {
    if ops == [] then d else Run(Perform(d, ops[0]), ops[1..])
  }

  lemma {:induction false} RunConcat(d: Disk, a: seq<FileOp>, b: seq<FileOp>)
    ensures Run(d, a + b) == Run(Run(d, a), b)
    decreases a
  {
    if a == [] {
      assert a + b == b;
    } else {
      assert (a + b)[1..] == a[1..] + b;
      RunConcat(Perform(d, a[0]), a[1..], b);
    }
  }

  // ---------- Reading the state ----------

  function PointerFor(id: VersionId, m: Metadata): Pointer {
    Pointer(id, m.distribution, m.runtimeSha256)
  }

  const NO_STATE := InstallState(None, "", "", None, "")

  function Recovered(value: InstallState, id: VersionId, m: Metadata): InstallState {
    InstallState(Some(id), m.version, m.commit,
                 if value.current.Some? && value.current != Some(id) then value.current else value.previous,
                 "recover-interrupted-activation")
  }

  /** The value `readState` returns, or an error when it throws. */
  function ReadState(d: Disk): Result<InstallState> {
    if d.state.None? then Ok(NO_STATE) else
    var value := d.state.value;
    if d.pointer.None? then
      if value.current.Some? && value.current.value !in d.versions then Error else Ok(value)
    else
      var p := d.pointer.value;
      if p.versionId !in d.versions || p != PointerFor(p.versionId, d.versions[p.versionId]) then Error
      else if value.current != Some(p.versionId) then Ok(Recovered(value, p.versionId, d.versions[p.versionId]))
      else Ok(value)
  }

  /** The repairs `readState` writes on the way. */
  function ReadStateOps(d: Disk): seq<FileOp> {
    if ReadState(d).Error? || d.state.None? then []
    else if d.pointer.None? then
      if d.state.value.current.Some? then
        var id := d.state.value.current.value;
        [SetPointer(PointerFor(id, d.versions[id]))]
      else []
    else if ReadState(d).value != d.state.value then [SetState(ReadState(d).value)]
    else []
  }

  // ---------- Launchers ----------

  function WriteLaunchersOps(generation: Token): seq<FileOp> {
    [WriteGeneration(Generation(Cli, generation)), WriteGeneration(Generation(Gateway, generation)),
     WriteStable(Cli, Trampoline(generation)), WriteStable(Gateway, Trampoline(generation))]
  }

  function RemoveAllOps(gs: seq<Generation>): (ops: seq<FileOp>)
    ensures |ops| == |gs|
    ensures forall i :: 0 <= i < |gs| ==> ops[i] == RemoveGeneration(gs[i])
  {
    seq(|gs|, i requires 0 <= i < |gs| => RemoveGeneration(gs[i]))
  }

  /** The layout an older runtime accepts: self-contained launchers and no generation files. */
  function LegacyLaunchersOps(gs: seq<Generation>): seq<FileOp> {
    [WriteStable(Cli, Direct), WriteStable(Gateway, Direct)] + RemoveAllOps(gs)
  }

  // ---------- Activation ----------

  function Admitted(m: Marker): set<VersionId> {
    {m.versionId} + if m.sourceVersionId.Some? then {m.sourceVersionId.value} else {}
  }

  /** The state file an applied activation publishes; `state` is what was read before. */
  function ActivatedState(m: Marker, metadata: Metadata, state: InstallState): InstallState {
    InstallState(
      Some(m.versionId), metadata.version, metadata.commit,
      if m.previousVersionId.Some? then m.previousVersionId
      else if state.current == Some(m.versionId) then state.previous else state.current,
      if m.operation.Upgrade? then "upgrade" else "rollback")
  }

  /** Whether an applied activation must also restore the layout of v1.0.0; an error if the source is unreadable. */
  function LegacyLayout(d: Disk, m: Marker, state: InstallState): Result<bool>
    requires m.versionId in d.versions
  {
    var source :=
      if m.operation.Rollback? then None
      else if m.sourceVersionId.Some? then m.sourceVersionId
      else state.previous;
    if source.Some? && source.value !in d.versions then Error
    else Ok(d.versions[m.versionId].version == "1.0.0"
            || (source.Some? && d.versions[source.value].version == "1.0.0"))
  }

  /** The guarded part of `applyLauncherActivation`; the flag says that it ends in an error. */
  function ActivationBody(d: Disk, m: Marker, state: InstallState): (seq<FileOp>, bool) {
    if m.versionId !in d.versions then ([], true) else
    var metadata := d.versions[m.versionId];
    var publish := WriteLaunchersOps(m.token)
                   + [SetPointer(PointerFor(m.versionId, metadata)), SetState(ActivatedState(m, metadata, state))];
    match LegacyLayout(d, m, state)
    case Error => (publish, true)
    case Ok(legacy) =>
      (publish + (if legacy then LegacyLaunchersOps(Run(d, publish).generations) else []) + [RetireMarker], false)
  }

  /** How `applyLauncherActivation` leaves: `threw` when the error is passed on to the caller. */
  datatype Effect = Effect(ops: seq<FileOp>, threw: bool)

  /** The guarded part with its `catch`: `fault` is the number of operations that succeed before one fails. */
  function GuardedActivation(d: Disk, applying: Marker, state: InstallState, fault: Option<nat>): Effect {
    var (body, broken) := ActivationBody(d, applying, state);
    var failed := [SetMarker(applying.(phase := Failed))];
    if fault.Some? && fault.value < |body| then Effect(body[..fault.value] + failed, true)
    else if broken then Effect(body + failed, true)
    else Effect(body, false)
  }

  predicate Admits(m: Marker, state: InstallState, pointer: Option<Pointer>) {
    && state.current.Some? && state.current.value in Admitted(m)
    && pointer.Some? && pointer.value.versionId in Admitted(m)
  }

  /** `applyLauncherActivation` once `readState` has returned `state`. */
  function ActivateRepaired(d: Disk, m: Marker, state: InstallState, fault: Option<nat>): Effect {
    if !Admits(m, state, d.pointer) then Effect([RetireMarker], false)
    else if m.attempts >= MAXIMUM_ATTEMPTS then Effect([SetMarker(m.(phase := Failed))], false)
    else
      var applying := m.(phase := Applying, attempts := m.attempts + 1);
      var guarded := GuardedActivation(Perform(d, SetMarker(applying)), applying, state, fault);
      Effect([SetMarker(applying)] + guarded.ops, guarded.threw)
  }

  function ApplyActivation(d: Disk, token: Token, fault: Option<nat>): Effect {
    if d.marker.None? || d.marker.value.token != token then Effect([], false) else
    if ReadState(d).Error? then Effect([], true) else
    var repair := ReadStateOps(d);
    var rest := ActivateRepaired(Run(d, repair), d.marker.value, ReadState(d).value, fault);
    Effect(repair + rest.ops, rest.threw)
  }

  /** Everything a command learns from outside the prefix. */
  datatype Env = Env(
    win32: bool,
    alive: set<Pid>,         // processes alive when the command runs
    now: nat,
    token: Token,            // the UUID of a new activation
    generation: Token,       // the UUID of a launcher generation without activation
    fault: Option<nat>,      // a file operation that fails inside an activation
    spawnFails: bool)        // the detached finalizer cannot be started

  function Reconcile(d: Disk, env: Env, force: bool, token: Option<Token>): Effect {
    if d.marker.None? || (token.Some? && d.marker.value.token != token.value) then Effect([], false) else
    var m := d.marker.value;
    if !env.win32 then Effect([], true)
    else if !force && m.phase != Applying && m.waitForPid in env.alive then
      Effect(if env.now >= m.deadline && m.phase != Failed then [SetMarker(m.(phase := Failed))] else [], false)
    else ApplyActivation(d, m.token, env.fault)
  }

  // ---------- Commands ----------

  /** `waitForPid` is the `--defer-launchers-until-pid` option; `parent` the invoking process. */
  datatype Command =
    | Status
    | Install(upgrade: bool, id: VersionId, metadata: Metadata, waitForPid: Option<Pid>, parent: Pid)
    | RollBack(waitForPid: Option<Pid>)
    | ReconcileLaunchers(token: Token)
    | Finalize(token: Token, id: VersionId, pid: Pid, timedOut: bool)

  /** `deferredLauncherParentPid`: the process to wait for, none, or an error. */
  function DeferredPid(env: Env, upgrade: bool, rollback: bool, value: Option<Pid>, parent: Pid): Result<Option<Pid>> {
    if !env.win32 || (!upgrade && !rollback) then
      if value.None? then Ok(None) else Error
    else if rollback && value.None? then Ok(None)
    else
      var pid := if value.Some? then value.value else parent;
      if pid > 0 && pid in env.alive then Ok(Some(pid)) else Error
  }

  function NewMarker(env: Env, operation: Operation, id: VersionId, source: Option<VersionId>,
                     previous: Option<VersionId>, pid: Pid): Marker
  {
    Marker(env.token, operation, Prepared, id, source, previous, pid, env.now + ACTIVATION_TIMEOUT_MS, 0)
  }

  function RetireExistingOps(d: Disk): seq<FileOp> {
    if d.marker.Some? then [RetireMarker] else []
  }

  function StartFinalizerOps(env: Env, m: Marker): seq<FileOp> {
    [SetMarker(m.(phase := Waiting))] + if env.spawnFails then [SetMarker(m.(phase := Failed))] else []
  }

  /** The switch shared by an upgrade and a rollback, once the marker slot is free. */
  function PublishOps(env: Env, activation: Option<Marker>, launchers: seq<FileOp>, pointer: Pointer,
                      state: InstallState): seq<FileOp>
  {
    launchers
    + (if activation.Some? then [SetMarker(activation.value)] else [])
    + [SetPointer(pointer), SetState(state)]
    + (if activation.Some? then StartFinalizerOps(env, activation.value) else [])
  }

  function InstalledState(previous: InstallState, upgrade: bool, id: VersionId, m: Metadata): InstallState {
    InstallState(Some(id), m.version, m.commit,
                 if previous.current.Some? && previous.current != Some(id) then previous.current else previous.previous,
                 if upgrade then "upgrade" else "install")
  }

  /** `install` after the package has been copied to its version directory. */
  function SwitchTo(d: Disk, env: Env, upgrade: bool, id: VersionId, m: Metadata,
                    waitForPid: Option<Pid>, parent: Pid): Effect
  {
    if ReadState(d).Error? then Effect([], true) else
    var previous := ReadState(d).value;
    var repair := ReadStateOps(d);
    var next := InstalledState(previous, upgrade, id, m);
    match DeferredPid(env, upgrade, false, waitForPid, parent)
    case Error => Effect(repair, true)
    case Ok(None) =>
      Effect(repair + PublishOps(env, None, WriteLaunchersOps(env.generation), PointerFor(id, m), next), false)
    case Ok(Some(pid)) =>
      var marker := NewMarker(env, Upgrade, id, previous.current, next.previous, pid);
      Effect(repair + (RetireExistingOps(d)
             + PublishOps(env, Some(marker), WriteLaunchersOps(env.token), PointerFor(id, m), next)), false)
  }

  function InstallCommand(d: Disk, env: Env, upgrade: bool, id: VersionId, m: Metadata,
                          waitForPid: Option<Pid>, parent: Pid): Effect
  {
    if id in d.versions && d.versions[id] != m then Effect([], true) else
    var copy := if id in d.versions then [] else [AddVersion(id, m)];
    var switch := SwitchTo(Run(d, copy), env, upgrade, id, m, waitForPid, parent);
    Effect(copy + switch.ops, switch.threw)
  }

  function RolledBackState(current: InstallState, m: Metadata): InstallState {
    InstallState(current.previous, m.version, m.commit, current.current, "rollback")
  }

  function RollbackCommand(d: Disk, env: Env, waitForPid: Option<Pid>): Effect {
    if ReadState(d).Error? then Effect([], true) else
    var current := ReadState(d).value;
    var repair := ReadStateOps(d);
    if current.previous.None? || current.previous.value !in d.versions then Effect(repair, true) else
    var target := current.previous.value;
    var m := d.versions[target];
    var next := RolledBackState(current, m);
    match DeferredPid(env, false, true, waitForPid, 0)
    case Error => Effect(repair, true)
    case Ok(None) =>
      var launchers := if env.win32 then LegacyLaunchersOps(d.generations) else WriteLaunchersOps(env.generation);
      var main := repair + (RetireExistingOps(d) + PublishOps(env, None, launchers, PointerFor(target, m), next));
      var d1 := Run(d, main);
      Effect(main + (RetireExistingOps(d1) + if env.win32 then RemoveAllOps(d1.generations) else []), false)
    case Ok(Some(pid)) =>
      var marker := NewMarker(env, Rollback, target, current.current, next.previous, pid);
      var readable := current.current.Some? && current.current.value in d.versions;
      var publish := PublishOps(env, Some(marker), WriteLaunchersOps(env.token), PointerFor(target, m), next);
      // an unreadable source version is noticed only when the finalizer is about to be started
      var started := if readable then publish else publish[..|WriteLaunchersOps(env.token)| + 3];
      Effect(repair + (RetireExistingOps(d) + started), !readable)
  }

  /** The detached finalizer once the awaited process has exited or the deadline has passed. */
  function FinalizeCommand(d: Disk, env: Env, token: Token, id: VersionId, pid: Pid, timedOut: bool): Effect {
    if !env.win32 || d.marker.None? || d.marker.value.token != token then Effect([], false) else
    var m := d.marker.value;
    if m.versionId != id || m.waitForPid != pid then Effect([], false)
    else if timedOut then Effect([SetMarker(m.(phase := Failed))], false)
    else
      var applied := ApplyActivation(d, token, env.fault);
      var d1 := Run(d, applied.ops);
      Effect(applied.ops + (if applied.threw && d1.marker.Some? && d1.marker.value.token == token
                            then [SetMarker(d1.marker.value.(phase := Failed))] else []), false)
  }

  /** The part of a command that a pending activation performs on its own behalf. */
  function ActivationPart(d: Disk, env: Env, command: Command): Effect {
    match command
    case ReconcileLaunchers(token) => Reconcile(d, env, true, Some(token))
    case Finalize(token, id, pid, timedOut) => FinalizeCommand(d, env, token, id, pid, timedOut)
    case _ => Reconcile(d, env, false, None)
  }

  /** The command proper, which starts only if the reconciliation before it did not throw. */
  function CommandPart(d: Disk, env: Env, command: Command): Effect {
    match command
    case Status => Effect(ReadStateOps(d), ReadState(d).Error?)
    case Install(upgrade, id, m, waitForPid, parent) => InstallCommand(d, env, upgrade, id, m, waitForPid, parent)
    case RollBack(waitForPid) => RollbackCommand(d, env, waitForPid)
    case ReconcileLaunchers(_) => Effect([], false)
    case Finalize(_, _, _, _) => Effect([], false)
  }

  function CommandOps(d: Disk, env: Env, command: Command): seq<FileOp> {
    var activation := ActivationPart(d, env, command);
    if activation.threw then activation.ops
    else activation.ops + CommandPart(Run(d, activation.ops), env, command).ops
  }

  // ---------- Runs ----------

  /** One command of a run, stopped after `cut` file operations if it has that many. */
  datatype Step = Step(command: Command, env: Env, cut: nat)

  function StepOps(d: Disk, s: Step): seq<FileOp> {
    var ops := CommandOps(d, s.env, s.command);
    if s.cut <= |ops| then ops[..s.cut] else ops
  }

  /** The disk after a run of commands, each cut anywhere or not at all. */
  function After(d: Disk, steps: seq<Step>): Disk
    decreases steps
  {
    if steps == [] then d else After(Run(d, StepOps(d, steps[0])), steps[1..])
  }

  // ---------- Cuts ----------

  /** `P` holds on the disk before, between and after the operations. */
  ghost predicate AtEveryCut(d: Disk, ops: seq<FileOp>, P: Disk -> bool)
    decreases ops
  {
    P(d) && (ops != [] ==> AtEveryCut(Perform(d, ops[0]), ops[1..], P))
  }

  lemma {:induction false} CutsConcat(d: Disk, a: seq<FileOp>, b: seq<FileOp>, P: Disk -> bool)
    requires AtEveryCut(d, a, P)
    requires AtEveryCut(Run(d, a), b, P)
    ensures AtEveryCut(d, a + b, P)
    decreases a
  {
    if a == [] {
      assert a + b == b;
    } else {
      assert (a + b)[1..] == a[1..] + b;
      CutsConcat(Perform(d, a[0]), a[1..], b, P);
    }
  }

  /** `AtEveryCut` is what its name says: the property survives stopping after any number of operations. */
  lemma {:induction false} CutHolds(d: Disk, ops: seq<FileOp>, k: nat, P: Disk -> bool)
    requires AtEveryCut(d, ops, P)
    requires k <= |ops|
    ensures P(Run(d, ops[..k]))
    ensures AtEveryCut(d, ops[..k], P)
    decreases k
  {
    if k > 0 {
      assert ops[..k][0] == ops[0];
      assert ops[..k][1..] == ops[1..][..k - 1];
      CutHolds(Perform(d, ops[0]), ops[1..], k - 1, P);
    }
  }

  lemma RunOne(d: Disk, op: FileOp)
    ensures Run(d, [op]) == Perform(d, op)
  {
    assert [op][1..] == [];
  }

  /** A single operation. */
  lemma CutsOne(d: Disk, op: FileOp, P: Disk -> bool)
    requires P(d) && P(Perform(d, op))
    ensures AtEveryCut(d, [op], P)
    ensures Run(d, [op]) == Perform(d, op)
  {
    RunOne(d, op);
    assert [op][1..] == [];
    assert AtEveryCut(Perform(d, op), [], P);
  }

  /** Operations that neither retire nor rewrite the marker. */
  lemma {:induction false} KeepsMarker(d: Disk, ops: seq<FileOp>)
    requires forall op :: op in ops ==> !op.RetireMarker? && !op.SetMarker?
    ensures Run(d, ops).marker == d.marker
    decreases ops
  {
    if ops != [] {
      assert ops[0] in ops;
      KeepsMarker(Perform(d, ops[0]), ops[1..]);
    }
  }

  /** Only the last operation of an activation that does not break touches the marker. */
  lemma StoppedBodyKeepsMarker(d: Disk, m: Marker, state: InstallState, k: nat)
    requires k <= |ActivationBody(d, m, state).0|
    requires k < |ActivationBody(d, m, state).0| || ActivationBody(d, m, state).1
    ensures Run(d, ActivationBody(d, m, state).0[..k]).marker == d.marker
  {
    var (body, broken) := ActivationBody(d, m, state);
    forall op | op in body[..k]
      ensures !op.RetireMarker? && !op.SetMarker?
    {
    }
    KeepsMarker(d, body[..k]);
  }
}
