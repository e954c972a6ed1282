/**
 The directory lock of the installer (scripts/install.ts) and of uninstall
 (apps/cli/src/lifecycle.ts) as a state machine.  A step is one file operation of one process, in
 any interleaving; processes die at any time and a dead process stays dead.
 */
module InstallLock {
  import opened Common

  type Pid = nat
  type Token = nat

  datatype Owner = Owner(pid: Pid, token: Token)

  /** A lock directory.  `serial` and `creator` tell directories apart; only `owner` is on disk. */
  datatype Directory = Directory(serial: nat, creator: Pid, owner: Option<Owner>)

  datatype Stage =
    | Idle
    | Made(token: Token)          // has created the directory, owner file not yet written
    | Holding(token: Token)
    | Releasing(token: Token)     // has confirmed its own owner file, about to rename
    | Stealing(seen: Directory)   // has found a stale directory, about to rename it

  datatype World = World(lock: Option<Directory>, stages: map<Pid, Stage>, alive: set<Pid>, serial: nat)

  datatype Step =
    | Mkdir(p: Pid, token: Token)
    | WriteOwner(p: Pid)
    | FailOwner(p: Pid, cleaned: bool)   // the owner file cannot be written; the directory is moved away if possible
    | CheckStale(p: Pid, aged: bool)     // installer only; `aged`: no owner file for ten minutes
    | RenameStale(p: Pid)
    | CheckRelease(p: Pid)
    | RenameRelease(p: Pid)
    | Die(p: Pid)

  function StageOf(w: World, p: Pid): Stage {
    if p in w.stages then w.stages[p] else Idle
  }

  function At(w: World, p: Pid, stage: Stage): World {
    w.(stages := w.stages[p := stage])
  }

  function Next(w: World, step: Step): World {
    if step.Die? then w.(alive := w.alive - {step.p})
    else if step.p !in w.alive then w
    else
      match step
      case Mkdir(p, token) =>
        if StageOf(w, p).Idle? && w.lock.None? then
          At(w, p, Made(token)).(lock := Some(Directory(w.serial, p, None)), serial := w.serial + 1)
        else w
      case WriteOwner(p) =>
        if !StageOf(w, p).Made? then w
        else if w.lock.Some? && w.lock.value.owner.None? then
          At(w, p, Holding(StageOf(w, p).token))
            .(lock := Some(w.lock.value.(owner := Some(Owner(p, StageOf(w, p).token)))))
        else At(w, p, Idle).(lock := None)  // the exclusive write fails and whatever is there is moved away
      case FailOwner(p, cleaned) =>
        if StageOf(w, p).Made? then At(w, p, Idle).(lock := if cleaned then None else w.lock) else w
      case CheckStale(p, aged) =>
        if StageOf(w, p).Idle? && w.lock.Some?
           && (if w.lock.value.owner.Some? then w.lock.value.owner.value.pid !in w.alive else aged) then
          At(w, p, Stealing(w.lock.value))
        else w
      case RenameStale(p) =>
        if StageOf(w, p).Stealing? then At(w, p, Idle).(lock := None) else w
      case CheckRelease(p) =>
        if StageOf(w, p).Holding? then
          var token := StageOf(w, p).token;
          if w.lock.Some? && w.lock.value.owner == Some(Owner(p, token)) then At(w, p, Releasing(token)) else At(w, p, Idle)
        else w
      case RenameRelease(p) =>
        if StageOf(w, p).Releasing? then At(w, p, Idle).(lock := None) else w
      case Die(p) => w
  }

  function Run(w: World, steps: seq<Step>): World
    decreases steps
  {
    if steps == [] then w else Run(Next(w, steps[0]), steps[1..])
  }

  predicate Critical(w: World, p: Pid) {
    p in w.alive && (StageOf(w, p).Made? || StageOf(w, p).Holding? || StageOf(w, p).Releasing?)
  }

  /** At most one live process has the lock, from creating the directory to renaming it away. */
  ghost predicate Exclusive(w: World) {
    forall p, q :: Critical(w, p) && Critical(w, q) ==> p == q
  }

  ghost predicate Nobody(w: World) {
    forall p :: !Critical(w, p)
  }

  /** The one assumption: a stale directory is renamed only while no live process is inside. */
  ghost predicate Timely(w: World, step: Step) {
    step.RenameStale? && step.p in w.alive && StageOf(w, step.p).Stealing? ==> Nobody(w)
  }

  ghost predicate TimelyRun(w: World, steps: seq<Step>)
    decreases steps
  {
    steps == [] || (Timely(w, steps[0]) && TimelyRun(Next(w, steps[0]), steps[1..]))
  }

  /** A live process past `mkdir` owns the directory in place. */
  ghost predicate Inv(w: World) {
    && (w.lock.Some? && w.lock.value.owner.Some? ==> w.lock.value.owner.value.pid == w.lock.value.creator)
    && forall p :: Critical(w, p) ==>
      && w.lock.Some? && w.lock.value.creator == p
      && w.lock.value.owner == (if StageOf(w, p).Made? then None else Some(Owner(p, StageOf(w, p).token)))
  }

  lemma StepKeepsInv(w: World, step: Step)
    requires Inv(w) && Timely(w, step)
    ensures Inv(Next(w, step))
  {
    var e := Next(w, step);
    forall q
      ensures StageOf(e, q) == StageOf(w, q) || q == step.p
      ensures Critical(e, q) ==> Critical(w, q) || q == step.p
    {
    }
    match step
    case Mkdir(p, token) =>
    case WriteOwner(p) =>
      if Critical(w, p) { assert w.lock.value.creator == p; }
    case FailOwner(p, cleaned) =>
    case CheckStale(p, aged) =>
    case RenameStale(p) =>
    case CheckRelease(p) =>
    case RenameRelease(p) =>
    case Die(p) =>
  }

  /** Mutual exclusion in every timely interleaving. */
  lemma {:induction false} AtMostOneHolder(w: World, steps: seq<Step>)
    requires Inv(w) && TimelyRun(w, steps)
    ensures Exclusive(Run(w, steps)) && Inv(Run(w, steps))
    decreases steps
  {
    if steps != [] {
      StepKeepsInv(w, steps[0]);
      AtMostOneHolder(Next(w, steps[0]), steps[1..]);
    } else {
      forall p, q | Critical(w, p) && Critical(w, q)
        ensures p == q
      {
        assert w.lock.value.creator == p;
      }
    }
  }

  // ---------- The lock can be taken ----------

  /** The stale check passes: the owner is dead, or there has been no owner file for ten minutes. */
  predicate LooksStale(w: World, p: Pid, aged: bool) {
    && p in w.alive && StageOf(w, p).Idle? && w.lock.Some?
    && if w.lock.value.owner.Some? then w.lock.value.owner.value.pid !in w.alive else aged
  }

  /** One undisturbed attempt to take the lock. */
  function Attempt(p: Pid, aged: bool, token: Token): seq<Step> {
    [CheckStale(p, aged), RenameStale(p), Mkdir(p, token), WriteOwner(p)]
  }

  lemma RunsInOrder(w: World, a: Step, b: Step, c: Step, d: Step)
    ensures Run(w, [a, b]) == Next(Next(w, a), b)
    ensures Run(w, [a, b, c, d]) == Next(Next(Next(Next(w, a), b), c), d)
  {
    hide Next;
    var x, y := Next(Next(w, a), b), Next(Next(Next(w, a), b), c);
    assert [a, b][1..] == [b] && [b][1..] == [] && [d][1..] == [] && [c, d][1..] == [d];
    assert [a, b, c, d][1..] == [b, c, d] && [b, c, d][1..] == [c, d];
    assert Run(x, [c, d]) == Run(y, [d]) == Next(y, d);
    assert Run(Next(w, a), [b]) == Run(x, []);
    assert Run(Next(w, a), [b, c, d]) == Run(x, [c, d]);
  }

  /** The outcome of an attempt: a free or stale lock comes to be held under the token, any other stays as it is. */
  ghost predicate Attempted(w: World, p: Pid, aged: bool, token: Token, e: World) {
    if w.lock.None? || LooksStale(w, p, aged) then
      && StageOf(e, p) == Holding(token)
      && e.lock == Some(Directory(w.serial, p, Some(Owner(p, token)))) && e.alive == w.alive
    else e == w
  }

  /** A live process takes the lock if and only if there is none or it looks stale. */
  lemma AttemptSucceeds(w: World, p: Pid, aged: bool, token: Token)
    requires p in w.alive && StageOf(w, p).Idle?
    ensures Attempted(w, p, aged, token, Run(w, Attempt(p, aged, token)))
  {
    RunsInOrder(w, CheckStale(p, aged), RenameStale(p), Mkdir(p, token), WriteOwner(p));
    var c := Next(w, CheckStale(p, aged));
    var r := Next(c, RenameStale(p));
    if w.lock.None? || LooksStale(w, p, aged) {
      assert r.lock.None? && StageOf(r, p).Idle? && r.serial == w.serial;
    } else {
      assert r == w;
    }
  }

  /** The holder's release frees the lock, for whoever attempts it next, and leaves the others where they are. */
  lemma ReleaseFrees(w: World, p: Pid, q: Pid, aged: bool, token: Token)
    requires Inv(w) && p in w.alive && StageOf(w, p).Holding?
    requires q in w.alive && (q == p || StageOf(w, q).Idle?)
    ensures var e := Run(w, [CheckRelease(p), RenameRelease(p)]);
      && e.lock.None? && StageOf(e, p).Idle? && (forall o :: o != p ==> StageOf(e, o) == StageOf(w, o)) && e.alive == w.alive
      && StageOf(Run(e, Attempt(q, aged, token)), q) == Holding(token)
  {
    RunsInOrder(w, CheckRelease(p), RenameRelease(p), Die(p), Die(p));
    assert Critical(w, p);
    var e := Run(w, [CheckRelease(p), RenameRelease(p)]);
    assert e.lock.None? && StageOf(e, q).Idle?;
    AttemptSucceeds(e, q, aged, token);
  }

  /** Whoever was inside when it died does not keep the lock; before its owner file, once the directory has aged. */
  lemma DeadHolderLosesLock(w: World, p: Pid, q: Pid, aged: bool, token: Token)
    requires Inv(w) && Critical(w, p) && (StageOf(w, p).Made? ==> aged)
    requires q != p && q in w.alive && StageOf(w, q).Idle?
    ensures StageOf(Run(Next(w, Die(p)), Attempt(q, aged, token)), q) == Holding(token)
  {
    AttemptSucceeds(Next(w, Die(p)), q, aged, token);
  }

  /** A creation that fails at the owner file and is cleaned up leaves the lock free. */
  lemma FailedCreationFrees(w: World, p: Pid, token: Token)
    requires p in w.alive && StageOf(w, p).Idle? && w.lock.None?
    ensures var e := Run(w, [Mkdir(p, token), FailOwner(p, true)]);
      e.lock.None? && StageOf(e, p).Idle? && e.alive == w.alive && forall q :: q != p ==> StageOf(e, q) == StageOf(w, q)
  {
    RunsInOrder(w, Mkdir(p, token), FailOwner(p, true), Die(p), Die(p));
  }

  // ---------- The assumption is exact ----------

  /** Exclusion holds now and in every timely continuation. */
  ghost predicate Safe(w: World) {
    forall steps :: TimelyRun(w, steps) ==> Exclusive(Run(w, steps))
  }

  /**
   A stale rename, in any world that runs lead to, keeps exclusion in every timely continuation if and
   only if no live process is inside the directory it moves.
   */
  lemma StaleRenameIsExact(w: World, p: Pid)
    requires Inv(w) && p in w.alive && StageOf(w, p).Stealing?
    ensures Safe(Next(w, RenameStale(p))) <==> Nobody(w)
  {
    var e := Next(w, RenameStale(p));
    if Nobody(w) {
      StepKeepsInv(w, RenameStale(p));
      forall steps | TimelyRun(e, steps)
        ensures Exclusive(Run(e, steps))
      {
        AtMostOneHolder(e, steps);
      }
    } else {
      var q :| Critical(w, q);
      var steps := [Mkdir(p, 0)];
      var after := Next(e, Mkdir(p, 0));
      assert steps[1..] == [] && Run(e, steps) == Run(after, []) == after;
      assert TimelyRun(after, []) && TimelyRun(e, steps);
      assert Critical(after, q) && Critical(after, p);
    }
  }

  /**
   The check with its rename as one step.  Finding a dead owner is always safe; finding a directory that
   has had no owner file for ten minutes is safe if and only if its creator is not alive and still about
   to write that file.
   */
  lemma CheckAndRenameIsExact(w: World, p: Pid, aged: bool)
    requires Inv(w) && LooksStale(w, p, aged)
    ensures Safe(Next(Next(w, CheckStale(p, aged)), RenameStale(p))) <==> Nobody(w)
    ensures w.lock.value.owner.Some? ==> Nobody(w)
    ensures w.lock.value.owner.None? ==> (Nobody(w) <==> !Critical(w, w.lock.value.creator))
  {
    var c := Next(w, CheckStale(p, aged));
    StepKeepsInv(w, CheckStale(p, aged));
    assert forall q :: Critical(c, q) <==> Critical(w, q);
    StaleRenameIsExact(c, p);
  }

  // ---------- Timing that meets the assumption ----------

  /**
   Between finding a stale directory and renaming it the installer is not overtaken: the rename moves the
   directory that was checked, or none.  And a live process writes its owner file within ten minutes.
   */
  ghost predicate Prompt(w: World, step: Step) {
    && (step.RenameStale? && StageOf(w, step.p).Stealing? && w.lock.Some? ==>
          w.lock.value.serial == StageOf(w, step.p).seen.serial)
    && (step.CheckStale? && step.aged ==> forall q :: q in w.alive ==> !StageOf(w, q).Made?)
  }

  ghost predicate PromptRun(w: World, steps: seq<Step>)
    decreases steps
  {
    steps == [] || (Prompt(w, steps[0]) && PromptRun(Next(w, steps[0]), steps[1..]))
  }

  /** A rename that follows its check at once is not overtaken. */
  lemma AdjacentRenameIsTimely(w: World, p: Pid, aged: bool)
    requires StageOf(w, p).Idle?
    ensures Prompt(Next(w, CheckStale(p, aged)), RenameStale(p))
  {
  }

  /** A directory that somebody is about to rename is nobody's. */
  ghost predicate Watched(w: World) {
    && (w.lock.Some? ==> w.lock.value.serial < w.serial)
    && forall p :: StageOf(w, p).Stealing? ==>
      && StageOf(w, p).seen.serial < w.serial
      && (w.lock.Some? && w.lock.value.serial == StageOf(w, p).seen.serial ==> Nobody(w))
  }

  lemma PromptKeepsWatch(w: World, step: Step)
    requires Inv(w) && Watched(w) && Prompt(w, step)
    ensures Timely(w, step) && Watched(Next(w, step))
  {
    var e := Next(w, step);
    forall q
      ensures StageOf(e, q) == StageOf(w, q) || q == step.p
      ensures Critical(e, q) ==> Critical(w, q) || q == step.p
    {
    }
    match step
    case Mkdir(p, token) =>
    case WriteOwner(p) =>
      if Critical(w, p) { assert w.lock.value.creator == p; }
    case FailOwner(p, cleaned) =>
    case CheckStale(p, aged) =>
      if LooksStale(w, p, aged) { StepKeepsInv(w, step); }
    case RenameStale(p) =>
    case CheckRelease(p) =>
    case RenameRelease(p) =>
    case Die(p) =>
  }

  /** Runs with that timing are timely. */
  lemma {:induction false} PromptRunsAreTimely(w: World, steps: seq<Step>)
    requires Inv(w) && Watched(w) && PromptRun(w, steps)
    ensures TimelyRun(w, steps)
    decreases steps
  {
    if steps != [] {
      PromptKeepsWatch(w, steps[0]);
      StepKeepsInv(w, steps[0]);
      PromptRunsAreTimely(Next(w, steps[0]), steps[1..]);
    }
  }

  const EMPTY_STAGES: map<Pid, Stage> := map[]

  /** A prefix without lock starts every run. */
  lemma StartsSafe(alive: set<Pid>)
    ensures Inv(World(None, EMPTY_STAGES, alive, 0)) && Watched(World(None, EMPTY_STAGES, alive, 0))
  {
  }

  /**
   The first assumption is needed: two installers that find the same dead owner both rename, the
   second one moving away the directory of the first, and both then hold the lock.
   */
  lemma OvertakenCheckBreaksExclusion()
    ensures
      var steps := [Mkdir(1, 0), WriteOwner(1), Die(1), CheckStale(2, false), CheckStale(3, false),
                    RenameStale(2), Mkdir(2, 1), WriteOwner(2), RenameStale(3), Mkdir(3, 2), WriteOwner(3)];
      var e := Run(World(None, EMPTY_STAGES, {1, 2, 3}, 0), steps);
      e.alive == {2, 3} && StageOf(e, 2) == Holding(1) && StageOf(e, 3) == Holding(2) && !Exclusive(e)
  {
    FindDeadOwner();
    RenameOnce();
    RenameAgain();
    hide Next;
    var w0 := World(None, EMPTY_STAGES, {1, 2, 3}, 0);
    var w1 := Next(w0, Mkdir(1, 0));
    var w2 := Next(w1, WriteOwner(1));
    var w3 := Next(w2, Die(1));
    var w4 := Next(w3, CheckStale(2, false));
    var w6 := Next(BOTH_FOUND_IT, RenameStale(2));
    var w7 := Next(w6, Mkdir(2, 1));
    var w9 := Next(RENAMED, RenameStale(3));
    var w10 := Next(w9, Mkdir(3, 2));
    Chain([w0, w1, w2, w3, w4, BOTH_FOUND_IT, w6, w7, RENAMED, w9, w10, BOTH_HOLD],
          [Mkdir(1, 0), WriteOwner(1), Die(1), CheckStale(2, false), CheckStale(3, false),
           RenameStale(2), Mkdir(2, 1), WriteOwner(2), RenameStale(3), Mkdir(3, 2), WriteOwner(3)]);
    assert Critical(BOTH_HOLD, 2) && Critical(BOTH_HOLD, 3);
  }

  /** The directory of process 1, which has died, and what follows. */
  const DEAD := Directory(0, 1, Some(Owner(1, 0)))
  const BOTH_FOUND_IT :=
    World(Some(DEAD), map[1 := Holding(0), 2 := Stealing(DEAD), 3 := Stealing(DEAD)], {2, 3}, 1)
  const RENAMED :=
    World(Some(Directory(1, 2, Some(Owner(2, 1)))), map[1 := Holding(0), 2 := Holding(1), 3 := Stealing(DEAD)], {2, 3}, 2)
  const BOTH_HOLD :=
    World(Some(Directory(2, 3, Some(Owner(3, 2)))), map[1 := Holding(0), 2 := Holding(1), 3 := Holding(2)], {2, 3}, 3)

  lemma FindDeadOwner()
    ensures var w := Next(Next(Next(World(None, EMPTY_STAGES, {1, 2, 3}, 0), Mkdir(1, 0)), WriteOwner(1)), Die(1));
      Next(Next(w, CheckStale(2, false)), CheckStale(3, false)) == BOTH_FOUND_IT
  {
    var w := Next(Next(Next(World(None, EMPTY_STAGES, {1, 2, 3}, 0), Mkdir(1, 0)), WriteOwner(1)), Die(1));
    assert w == World(Some(DEAD), map[1 := Holding(0)], {2, 3}, 1);
  }

  lemma RenameOnce()
    ensures Next(Next(Next(BOTH_FOUND_IT, RenameStale(2)), Mkdir(2, 1)), WriteOwner(2)) == RENAMED
  {
  }

  lemma RenameAgain()
    ensures Next(Next(Next(RENAMED, RenameStale(3)), Mkdir(3, 2)), WriteOwner(3)) == BOTH_HOLD
  {
  }

  /** A run follows its chain of worlds. */
  lemma {:induction false} Chain(worlds: seq<World>, steps: seq<Step>)
    requires |worlds| == |steps| + 1
    requires forall i :: 0 <= i < |steps| ==> worlds[i + 1] == Next(worlds[i], steps[i])
    ensures Run(worlds[0], steps) == worlds[|steps|]
    decreases steps
  {
    if steps != [] {
      Chain(worlds[1..], steps[1..]);
    }
  }

  /**
   The second assumption is needed too: a creator that takes more than ten minutes to write its owner
   file is still about to write it when an installer moves its directory away and makes another.
   */
  lemma AgedCheckBreaksExclusion(alive: set<Pid>, p: Pid, q: Pid)
    requires p in alive && q in alive && p != q
    ensures var steps := [Mkdir(q, 0), CheckStale(p, true), RenameStale(p), Mkdir(p, 1)];
      var e := Run(World(None, EMPTY_STAGES, alive, 0), steps);
      Critical(e, p) && Critical(e, q) && !Exclusive(e)
  {
    var w0 := World(None, EMPTY_STAGES, alive, 0);
    var w1 := Next(w0, Mkdir(q, 0));
    var w2 := Next(w1, CheckStale(p, true));
    var w3 := Next(w2, RenameStale(p));
    var w4 := Next(w3, Mkdir(p, 1));
    Chain([w0, w1, w2, w3, w4], [Mkdir(q, 0), CheckStale(p, true), RenameStale(p), Mkdir(p, 1)]);
    assert Critical(w4, p) && Critical(w4, q);
  }
}
