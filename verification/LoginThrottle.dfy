/**
 The login attempt store of apps/gateway/src/host.ts: counters in the memory of several host processes,
 merged into one file under the state lock.
 */
module LoginThrottle {
  import opened Common
  import opened InsertionMap

  type Key = string

  datatype Attempt = Attempt(count: nat, resetAt: int, updatedAt: int)

  type Attempts = seq<Entry<Key, Attempt>>

  predicate Live(a: Attempt, now: int) { a.count > 0 && a.resetAt > now }

  function Alive(now: int): Entry<Key, Attempt> -> bool { (e: Entry<Key, Attempt>) => Live(e.value, now) }

  /** `sweepLoginAttempts`. */
  function Sweep(list: Attempts, now: int): (r: Attempts)
    ensures |r| <= |list|
  {
    Keep(list, Alive(now))
  }

  function Refresh(a: Attempt, now: int): Attempt {
    if a.updatedAt == 0 then a.(updatedAt := now) else a
  }

  /** The live records of the file; a record without a time of update gets the present one. */
  function Load(list: Attempts, now: int): (r: Attempts)
    ensures |r| <= |list|
  {
    if list == [] then []
    else if Alive(now)(list[0]) then [Entry(list[0].key, Refresh(list[0].value, now))] + Load(list[1..], now)
    else Load(list[1..], now)
  }

  /** `incrementLoginAttempt`: the record moves to the end. */
  function Increment(list: Attempts, key: Key, now: int, window: nat): Attempts {
    Put(Delete(list, key), key, Incremented(Get(list, key), now, window))
  }

  function Incremented(current: Option<Attempt>, now: int, window: nat): Attempt {
    if current.Some? then Attempt(current.value.count + 1, current.value.resetAt, now) else Attempt(1, now + window, now)
  }

  function IncrementAll(list: Attempts, keys: seq<Key>, now: int, window: nat): Attempts
    decreases keys
  {
    if keys == [] then list else IncrementAll(Increment(list, keys[0], now, window), keys[1..], now, window)
  }

  function Missing(list: Attempts, keys: seq<Key>): nat {
    if keys == [] then 0 else (if Absent(list, keys[0]) then 1 else 0) + Missing(list, keys[1..])
  }

  /** A failed login counts against its keys if there is room for the new ones. */
  function Fail(list: Attempts, keys: seq<Key>, now: int, window: nat, limit: nat): Attempts {
    if |list| + Missing(list, keys) > limit then list else IncrementAll(list, keys, now, window)
  }

  function Max(a: int, b: int): int { if a < b then b else a }

  function Combine(previous: Option<Attempt>, value: Attempt): (r: Attempt)
    ensures r.count == if previous.Some? then Max(previous.value.count, value.count) else value.count
    ensures previous.Some? ==> r.resetAt >= previous.value.resetAt
  {
    if previous.Some? && previous.value.count > value.count then previous.value
    else
      var p := if previous.Some? then previous.value else Attempt(0, 0, 0);
      Attempt(Max(p.count, value.count), Max(p.resetAt, value.resetAt), Max(p.updatedAt, value.updatedAt))
  }

  function Merge(persisted: Attempts, memory: Attempts): Attempts
    decreases memory
  {
    if memory == [] then persisted
    else
      var e := memory[0];
      Merge(Put(persisted, e.key, Combine(Get(persisted, e.key), e.value)), memory[1..])
  }

  /** The comparator of the trim puts `a` no later than `b`. */
  predicate Before(a: Attempt, b: Attempt) {
    a.count > b.count || (a.count == b.count && a.updatedAt >= b.updatedAt)
  }

  function Rank(): (Attempt, Attempt) -> bool { (a: Attempt, b: Attempt) => Before(a, b) }

  /** `trimLoginAttempts`. */
  function Trim(list: Attempts, limit: nat): (r: Attempts)
    ensures |r| <= limit
  {
    if |list| <= limit then list else Sort(list, Rank())[..limit]
  }

  // ---------- Loading and merging ----------

  lemma {:induction false} GetLoad(list: Attempts, now: int, key: Key)
    requires Distinct(list)
    ensures var r := Get(list, key);
      Get(Load(list, now), key) == if r.Some? && Live(r.value, now) then Some(Refresh(r.value, now)) else None
    ensures Distinct(Load(list, now))
  {
    if list != [] {
      GetLoad(list[1..], now, key);
      GetLoad(list[1..], now, list[0].key);
      if Alive(now)(list[0]) { assert Load(list, now)[1..] == Load(list[1..], now); }
    }
  }

  /** A sweep removes exactly the records that are not alive. */
  lemma {:induction false} GetSweep(list: Attempts, now: int, key: Key)
    requires Distinct(list)
    ensures var r := Get(list, key);
      Get(Sweep(list, now), key) == if r.Some? && r.value.count > 0 && r.value.resetAt > now then r else None
  {
    if list != [] {
      GetSweep(list[1..], now, key);
      KeepMeans(list[1..], Alive(now), list[0]);
      if Alive(now)(list[0]) { assert Sweep(list, now)[1..] == Sweep(list[1..], now); }
    }
  }

  /** The merge is pointwise: each key's record is combined from the two sides. */
  lemma {:induction false} GetMerge(persisted: Attempts, memory: Attempts, key: Key)
    requires Distinct(memory)
    ensures var p, m := Get(persisted, key), Get(memory, key);
      Get(Merge(persisted, memory), key) == if m.None? then p else Some(Combine(p, m.value))
    decreases memory
  {
    if memory != [] {
      hide Combine;
      var e := memory[0];
      var c := Combine(Get(persisted, e.key), e.value);
      GetPut(persisted, e.key, c, key);
      GetMerge(Put(persisted, e.key, c), memory[1..], key);
    }
  }

  lemma {:induction false} MergeDistinct(persisted: Attempts, memory: Attempts)
    requires Distinct(persisted)
    ensures Distinct(Merge(persisted, memory))
    decreases memory
  {
    if memory != [] {
      hide Combine, Distinct;
      var e := memory[0];
      var c := Combine(Get(persisted, e.key), e.value);
      PutDistinct(persisted, e.key, c);
      MergeDistinct(Put(persisted, e.key, c), memory[1..]);
    }
  }

  // ---------- Trimming ----------

  /**
   `trimLoginAttempts`: keeps whole records, as many as the limit allows, and drops none that ranks above
   one it keeps: not one with a higher count, nor a more recent one with the same count.
   */
  lemma TrimDropsLowest(list: Attempts, limit: nat)
    requires Distinct(list)
    ensures var r := Trim(list, limit);
      && Distinct(r) && |r| == (if |list| <= limit then |list| else limit)
      && (forall x :: x in r ==> x in list)
      && (forall x, y :: x in r && y in list && y !in r ==> Before(x.value, y.value))
  {
    if |list| > limit {
      assert TotalPreorder(Rank());
      hide Distinct, Sort, Before;
      var ranked := Sort(list, Rank());
      SortSorts(list, Rank());
      PrefixDistinct(ranked, limit, "");
      assert ranked == ranked[..limit] + ranked[limit..];
      forall x | x in ranked[..limit] ensures x in list { SortMeans(list, Rank(), "", x); }
      forall x, y | x in ranked[..limit] && y in list && y !in ranked[..limit]
        ensures Before(x.value, y.value)
      {
        SortMeans(list, Rank(), "", y);
        SortedSplit(ranked, Rank(), limit, x, y);
      }
    }
  }

  /** A key keeps its record through the trim, or loses it to `limit` records that rank no lower. */
  lemma GetTrim(list: Attempts, limit: nat, key: Key)
    requires Distinct(list)
    ensures Get(Trim(list, limit), key).Some? ==> Get(Trim(list, limit), key) == Get(list, key)
    ensures Get(Trim(list, limit), key).None? && Get(list, key).Some? ==>
      |Trim(list, limit)| == limit && forall x :: x in Trim(list, limit) ==> Before(x.value, Get(list, key).value)
  {
    hide Distinct, Before, Sort;
    TrimDropsLowest(list, limit);
    var r := Get(Trim(list, limit), key);
    if r.Some? {
      InGet(list, Entry(key, r.value));
    } else if Get(list, key).Some? {
      var y := Entry(key, Get(list, key).value);
      if y in Trim(list, limit) { InGet(Trim(list, limit), y); }
    }
  }

  // ---------- Failed logins ----------

  /** The record of one more failure: the count goes up by one, and the window stays the one that was opened. */
  predicate Raised(before: Option<Attempt>, after: Option<Attempt>, now: int, window: nat) {
    && after.Some? && after.value.updatedAt == now
    && after.value.count == (if before.Some? then before.value.count + 1 else 1)
    && after.value.resetAt == (if before.Some? then before.value.resetAt else now + window)
  }

  lemma IncrementMeans(list: Attempts, key: Key, now: int, window: nat, other: Key)
    ensures |Increment(list, key, now, window)| <= |list| + if Absent(list, key) then 1 else 0
    ensures Raised(Get(list, key), Get(Increment(list, key, now, window), key), now, window)
    ensures other != key ==> Get(Increment(list, key, now, window), other) == Get(list, other)
    ensures Distinct(list) ==> Distinct(Increment(list, key, now, window))
  {
    hide Distinct, Delete, Put;
    GetDelete(list, key, key);
    GetDelete(list, key, other);
    GetPut(Delete(list, key), key, Incremented(Get(list, key), now, window), other);
    GetPut(Delete(list, key), key, Incremented(Get(list, key), now, window), key);
    if Distinct(list) {
      DeleteDistinct(list, key);
      PutDistinct(Delete(list, key), key, Incremented(Get(list, key), now, window));
    }
  }

  predicate AllDifferent(keys: seq<Key>) {
    keys != [] ==> keys[0] !in keys[1..] && AllDifferent(keys[1..])
  }

  /** A failure raises each of its keys once and changes no other record. */
  lemma {:induction false} IncrementAllRaises(list: Attempts, keys: seq<Key>, now: int, window: nat, k: Key)
    requires AllDifferent(keys)
    ensures var r := IncrementAll(list, keys, now, window);
      if k in keys then Raised(Get(list, k), Get(r, k), now, window) else Get(r, k) == Get(list, k)
    decreases keys
  {
    if keys != [] {
      hide Increment, Get, Raised;
      IncrementMeans(list, keys[0], now, window, k);
      IncrementAllRaises(Increment(list, keys[0], now, window), keys[1..], now, window, k);
    }
  }

  lemma {:induction false} NoneMissing(list: Attempts, keys: seq<Key>)
    ensures Missing(list, keys) == 0 <==> (forall k :: k in keys ==> !Absent(list, k))
  {
    if keys != [] {
      NoneMissing(list, keys[1..]);
      assert keys == [keys[0]] + keys[1..] && keys[0] in keys;
      assert forall k :: k in keys[1..] ==> k in keys;
    }
  }

  /** Failures one after another. */
  function FailAll(list: Attempts, keys: seq<Key>, times: seq<int>, window: nat, limit: nat): Attempts
    decreases |times|
  {
    if times == [] then list else FailAll(Fail(list, keys, times[0], window, limit), keys, times[1..], window, limit)
  }

  function Count(list: Attempts, key: Key): nat {
    var r := Get(list, key); if r.Some? then r.value.count else 0
  }

  /** With room for the first, all of them count: each adds one to each of its keys. */
  lemma {:induction false} FailuresAddUp(list: Attempts, keys: seq<Key>, times: seq<int>, window: nat, limit: nat, k: Key)
    requires Distinct(list) && AllDifferent(keys) && k in keys && |list| + Missing(list, keys) <= limit
    ensures Count(FailAll(list, keys, times, window, limit), k) == Count(list, k) + |times|
    decreases |times|
  {
    if times != [] {
      hide Distinct, Get;
      var next := Fail(list, keys, times[0], window, limit);
      IncrementAllMeans(list, keys, times[0], window);
      forall j | j in keys
        ensures !Absent(next, j)
      {
        IncrementAllRaises(list, keys, times[0], window, j);
      }
      NoneMissing(next, keys);
      IncrementAllRaises(list, keys, times[0], window, k);
      FailuresAddUp(next, keys, times[1..], window, limit, k);
    }
  }

  datatype Maximum = Maximum(pair: nat, ip: nat, total: nat)

  /** The record that refuses a login before its password is looked at. */
  function BlockedBy(list: Attempts, pair: Key, ip: Key, m: Maximum): Option<Attempt> {
    if Count(list, "global") >= m.total then Get(list, "global")
    else if Count(list, pair) >= m.pair then Get(list, pair)
    else if Count(list, ip) >= m.ip then Get(list, ip)
    else None
  }

  /** As many failures as the maximum of the pair, the address or all logins refuse the next one, and no fewer do. */
  lemma FailuresBlock(list: Attempts, pair: Key, ip: Key, times: seq<int>, window: nat, limit: nat, m: Maximum)
    requires Distinct(list) && AllDifferent([pair, ip, "global"]) && m.pair > 0 && m.ip > 0 && m.total > 0
    requires |list| + Missing(list, [pair, ip, "global"]) <= limit
    ensures BlockedBy(FailAll(list, [pair, ip, "global"], times, window, limit), pair, ip, m).Some? <==>
      || Count(list, pair) + |times| >= m.pair || Count(list, ip) + |times| >= m.ip || Count(list, "global") + |times| >= m.total
  {
    FailuresAddUp(list, [pair, ip, "global"], times, window, limit, pair);
    FailuresAddUp(list, [pair, ip, "global"], times, window, limit, ip);
    FailuresAddUp(list, [pair, ip, "global"], times, window, limit, "global");
  }

  lemma {:induction false} MissingFewer(list: Attempts, more: Attempts, keys: seq<Key>)
    requires forall k :: Absent(more, k) ==> Absent(list, k)
    ensures Missing(more, keys) <= Missing(list, keys)
  {
    if keys != [] { MissingFewer(list, more, keys[1..]); }
  }

  lemma {:induction false} IncrementAllMeans(list: Attempts, keys: seq<Key>, now: int, window: nat)
    requires Distinct(list)
    ensures Distinct(IncrementAll(list, keys, now, window))
    ensures |IncrementAll(list, keys, now, window)| <= |list| + Missing(list, keys)
    decreases keys
  {
    if keys != [] {
      hide Distinct, Increment, Absent, Get;
      var more := Increment(list, keys[0], now, window);
      forall k ensures Absent(more, k) ==> Absent(list, k) {
        IncrementMeans(list, keys[0], now, window, k);
      }
      IncrementMeans(list, keys[0], now, window, keys[0]);
      MissingFewer(list, more, keys[1..]);
      IncrementAllMeans(more, keys[1..], now, window);
    }
  }

  lemma FailKeepsLimit(list: Attempts, keys: seq<Key>, now: int, window: nat, limit: nat)
    requires Distinct(list) && |list| <= limit
    ensures Distinct(Fail(list, keys, now, window, limit)) && |Fail(list, keys, now, window, limit)| <= limit
  {
    IncrementAllMeans(list, keys, now, window);
  }

  // ---------- Processes that share the file ----------

  datatype Config = Config(limit: nat, window: nat)

  /** How far a process is in persisting: it holds the state lock unless it is idle. */
  datatype Phase = Idle | Read(copy: Attempts) | Merged(snapshot: Attempts)

  datatype Process = Process(memory: Attempts, phase: Phase)

  datatype State = State(file: Attempts, processes: map<nat, Process>, holder: Option<nat>)

  /** `Abandon` is a write that fails and releases the lock; a crash does the same and loses the memory. */
  datatype Step =
    | Start(p: nat, now: int)
    | Failed(p: nat, keys: seq<Key>, now: int)
    | Clear(p: nat, key: Key)
    | Expire(p: nat, now: int)
    | ReadFile(p: nat)
    | MergeFile(p: nat, now: int)
    | Publish(p: nat)
    | Abandon(p: nat)
    | Crash(p: nat)

  /** What a process in phase `Read` holds after it merges. */
  function MergedAttempts(copy: Attempts, memory: Attempts, now: int): Attempts {
    Merge(Load(copy, now), memory)
  }

  function Released(s: State, p: nat): Option<nat> {
    if s.holder == Some(p) then None else s.holder
  }

  function Apply(c: Config, s: State, step: Step): State {
    var p := step.p;
    if step.Start? then
      if p in s.processes then s
      else s.(processes := s.processes[p := Process(Trim(Load(s.file, step.now), c.limit), Idle)])
    else if p !in s.processes then s
    else
      var me := s.processes[p];
      match step
      case Failed(_, keys, now) =>
        s.(processes := s.processes[p := me.(memory := Fail(me.memory, keys, now, c.window, c.limit))])
      case Clear(_, key) => s.(processes := s.processes[p := me.(memory := Delete(me.memory, key))])
      case Expire(_, now) => s.(processes := s.processes[p := me.(memory := Sweep(me.memory, now))])
      case ReadFile(_) =>
        if s.holder.Some? || me.phase != Idle then s
        else State(s.file, s.processes[p := me.(phase := Read(s.file))], Some(p))
      case MergeFile(_, now) =>
        if !me.phase.Read? then s
        else
          var kept := Trim(MergedAttempts(me.phase.copy, me.memory, now), c.limit);
          s.(processes := s.processes[p := Process(kept, Merged(kept))])
      case Publish(_) =>
        if !me.phase.Merged? then s
        else State(me.phase.snapshot, s.processes[p := me.(phase := Idle)], Released(s, p))
      case Abandon(_) => State(s.file, s.processes[p := me.(phase := Idle)], Released(s, p))
      case Crash(_) => State(s.file, s.processes - {p}, Released(s, p))
  }

  function After(c: Config, s: State, steps: seq<Step>): State
    decreases |steps|
  {
    if steps == [] then s else After(c, Apply(c, s, steps[0]), steps[1..])
  }

  /** Only the holder of the lock is persisting, and what it read is what the file holds. */
  ghost predicate Exclusive(s: State, p: nat)
    requires p in s.processes
  {
    var me := s.processes[p];
    (me.phase.Idle? || s.holder == Some(p)) && (me.phase.Read? ==> me.phase.copy == s.file)
  }

  ghost predicate Small(c: Config, list: Attempts) {
    Distinct(list) && |list| <= c.limit
  }

  ghost predicate SmallProcess(c: Config, me: Process) {
    Small(c, me.memory) && (me.phase.Merged? ==> Small(c, me.phase.snapshot))
  }

  ghost predicate Valid(c: Config, s: State) {
    && Small(c, s.file)
    && forall p :: p in s.processes ==> Exclusive(s, p) && SmallProcess(c, s.processes[p])
  }

  lemma MergeSmall(c: Config, copy: Attempts, memory: Attempts, now: int)
    requires Distinct(copy)
    ensures Distinct(MergedAttempts(copy, memory, now)) && Small(c, Trim(MergedAttempts(copy, memory, now), c.limit))
  {
    GetLoad(copy, now, "");
    MergeDistinct(Load(copy, now), memory);
    TrimDropsLowest(MergedAttempts(copy, memory, now), c.limit);
  }

  /** What a step leaves in the acting process. */
  lemma ActorStaysSmall(c: Config, s: State, step: Step)
    requires Valid(c, s)
    ensures step.p in Apply(c, s, step).processes ==> SmallProcess(c, Apply(c, s, step).processes[step.p])
    ensures Small(c, Apply(c, s, step).file)
  {
    hide Distinct, Trim, Load, Delete, Fail, MergedAttempts;
    if step.Start? {
      GetLoad(s.file, step.now, "");
      TrimDropsLowest(Load(s.file, step.now), c.limit);
    } else if step.p in s.processes {
      var me := s.processes[step.p];
      assert Exclusive(s, step.p) && SmallProcess(c, me);
      match step {
        case Failed(_, keys, now) => FailKeepsLimit(me.memory, keys, now, c.window, c.limit);
        case Clear(_, key) => DeleteDistinct(me.memory, key);
        case Expire(_, now) => KeepDistinct(me.memory, Alive(now));
        case MergeFile(_, now) => if me.phase.Read? { MergeSmall(c, me.phase.copy, me.memory, now); }
        case _ =>
      }
    }
  }

  /** Every step keeps the record limit in the file and in every memory, and the exclusion. */
  lemma StepKeepsValid(c: Config, s: State, step: Step)
    requires Valid(c, s)
    ensures Valid(c, Apply(c, s, step))
  {
    ActorStaysSmall(c, s, step);
    hide Small, Distinct, Trim, Load, Sweep, Delete, Fail, MergedAttempts;
    var t := Apply(c, s, step);
    forall p | p in t.processes
      ensures Exclusive(t, p) && SmallProcess(c, t.processes[p])
    {
      if p in s.processes { assert Exclusive(s, p) && SmallProcess(c, s.processes[p]); }
      if step.p in s.processes { assert Exclusive(s, step.p); }
    }
  }

  /** The record of `key` has a count of at least `count` and lasts at least until `until`. */
  predicate AtLeast(list: Attempts, key: Key, count: nat, until: int) {
    var r := Get(list, key);
    r.Some? && r.value.count >= count && r.value.resetAt >= until
  }

  ghost predicate Floor(s: State, key: Key, count: nat, until: int) {
    && AtLeast(s.file, key, count, until)
    && forall p :: p in s.processes && s.processes[p].phase.Merged? ==>
      AtLeast(s.processes[p].phase.snapshot, key, count, until)
  }

  /** The step merges at a time when the record is alive, and its trim does not drop the key. */
  ghost predicate Spares(c: Config, s: State, step: Step, key: Key, until: int) {
    step.MergeFile? && step.p in s.processes && s.processes[step.p].phase.Read? ==>
      var me := s.processes[step.p];
      var merged := MergedAttempts(me.phase.copy, me.memory, step.now);
      step.now < until && (Get(merged, key).Some? ==> Get(Trim(merged, c.limit), key).Some?)
  }

  ghost predicate AllSpare(c: Config, s: State, steps: seq<Step>, key: Key, until: int)
    decreases |steps|
  {
    steps != [] ==> Spares(c, s, steps[0], key, until) && AllSpare(c, Apply(c, s, steps[0]), steps[1..], key, until)
  }

  /** The merge gives a live key the larger of the two counts. */
  lemma MergeTakesMax(copy: Attempts, memory: Attempts, now: int, key: Key)
    requires Distinct(copy) && Distinct(memory)
    ensures var f, m := Get(copy, key), Get(memory, key);
      var live := f.Some? && Live(f.value, now);
      var r := Get(MergedAttempts(copy, memory, now), key);
      && (r.Some? <==> live || m.Some?)
      && (live ==> r.value.resetAt >= f.value.resetAt)
      && (r.Some? ==> r.value.count == Max(if live then f.value.count else 0, if m.Some? then m.value.count else 0))
      && (m.None? && live ==> r.value.resetAt == f.value.resetAt)
      && (m.Some? && !live ==> r.value.resetAt == Max(0, m.value.resetAt))
      && (m.Some? && live && f.value.count > m.value.count ==> r.value.resetAt == f.value.resetAt)
      && (m.Some? && live && f.value.count <= m.value.count ==> r.value.resetAt == Max(f.value.resetAt, m.value.resetAt))
  {
    GetLoad(copy, now, key);
    GetMerge(Load(copy, now), memory, key);
  }

  lemma MergeKeepsFloor(c: Config, copy: Attempts, memory: Attempts, now: int, key: Key, count: nat, until: int)
    requires Distinct(copy) && Distinct(memory) && AtLeast(copy, key, count, until) && count > 0 && now < until
    requires Get(MergedAttempts(copy, memory, now), key).Some? ==>
      Get(Trim(MergedAttempts(copy, memory, now), c.limit), key).Some?
    ensures AtLeast(Trim(MergedAttempts(copy, memory, now), c.limit), key, count, until)
  {
    hide Trim, MergedAttempts, Get, Distinct;
    MergeTakesMax(copy, memory, now, key);
    MergeSmall(c, copy, memory, now);
    GetTrim(MergedAttempts(copy, memory, now), c.limit, key);
  }

  lemma StepKeepsFloor(c: Config, s: State, step: Step, key: Key, count: nat, until: int)
    requires Valid(c, s) && Floor(s, key, count, until) && count > 0 && Spares(c, s, step, key, until)
    ensures Floor(Apply(c, s, step), key, count, until)
  {
    hide AtLeast, Distinct, Trim, Load, Sweep, Delete, Fail, MergedAttempts, Get;
    if step.p in s.processes { assert Exclusive(s, step.p) && SmallProcess(c, s.processes[step.p]); }
    if step.MergeFile? && step.p in s.processes && s.processes[step.p].phase.Read? {
      var me := s.processes[step.p];
      MergeKeepsFloor(c, me.phase.copy, me.memory, step.now, key, count, until);
    }
  }

  /**
   Over any interleaving of processes that start, count failures, clear keys, expire records, persist, fail
   to persist and crash, the persisted count of a key never falls below what it once was, until the record
   expires or a trim drops it.  Clearing the key after a successful login does not lower it either.
   */
  lemma {:induction false} PersistedCountHolds(c: Config, s: State, steps: seq<Step>, key: Key, count: nat, until: int)
    requires Valid(c, s) && Floor(s, key, count, until) && count > 0 && AllSpare(c, s, steps, key, until)
    ensures AtLeast(After(c, s, steps).file, key, count, until) && Valid(c, After(c, s, steps))
    decreases |steps|
  {
    if steps != [] {
      hide Valid, Floor, Spares, Apply;
      StepKeepsValid(c, s, steps[0]);
      StepKeepsFloor(c, s, steps[0], key, count, until);
      PersistedCountHolds(c, Apply(c, s, steps[0]), steps[1..], key, count, until);
    }
  }

  /** While nobody holds the lock, what the file says is the floor. */
  lemma UnlockedFloor(c: Config, s: State, key: Key, count: nat, until: int)
    requires Valid(c, s) && s.holder.None? && AtLeast(s.file, key, count, until)
    ensures Floor(s, key, count, until)
  {
    forall p | p in s.processes ensures s.processes[p].phase.Idle? { assert Exclusive(s, p); }
  }

  lemma {:induction false} RunKeepsValid(c: Config, s: State, steps: seq<Step>)
    requires Valid(c, s)
    ensures Valid(c, After(c, s, steps))
    decreases |steps|
  {
    if steps != [] {
      hide Valid, Apply;
      StepKeepsValid(c, s, steps[0]);
      RunKeepsValid(c, Apply(c, s, steps[0]), steps[1..]);
    }
  }

  /** A process that persists without interruption puts every count it had into the file, or drops it by trim. */
  lemma PersistRecords(c: Config, s: State, p: nat, now: int, key: Key)
    requires Valid(c, s) && s.holder.None? && p in s.processes && Get(s.processes[p].memory, key).Some?
    ensures var t := After(c, s, [ReadFile(p), MergeFile(p, now), Publish(p)]);
      var mine, r := Get(s.processes[p].memory, key).value, Get(t.file, key);
      && t.holder.None? && p in t.processes && t.processes[p] == Process(t.file, Idle)
      && (if r.Some? then r.value.count >= mine.count
          else |t.file| == c.limit && forall x :: x in t.file ==> x.value.count >= mine.count)
  {
    hide Trim, MergedAttempts, Get, Distinct;
    assert Exclusive(s, p) && SmallProcess(c, s.processes[p]);
    var memory := s.processes[p].memory;
    var merged := MergedAttempts(s.file, memory, now);
    var steps := [ReadFile(p), MergeFile(p, now), Publish(p)];
    var s1 := Apply(c, s, steps[0]);
    var s2 := Apply(c, s1, steps[1]);
    assert s2.processes[p] == Process(Trim(merged, c.limit), Merged(Trim(merged, c.limit)));
    var t := Apply(c, s2, steps[2]);
    assert steps[1..] == [MergeFile(p, now), Publish(p)] && steps[1..][1..] == [Publish(p)];
    assert After(c, s, steps) == After(c, s1, [MergeFile(p, now), Publish(p)]) == After(c, s2, [Publish(p)]) == After(c, t, []);
    MergeTakesMax(s.file, memory, now, key);
    MergeSmall(c, s.file, memory, now);
    GetTrim(merged, c.limit, key);
  }

  // ---------- The memory of one process ----------

  class Throttle {
    const config: Config
    var attempts: Attempts

    ghost predicate Valid()
      reads this
    {
      Small(config, attempts)
    }

    /** The load at start, from what the file holds. */
    constructor (config: Config, file: Attempts, now: int)
      requires Distinct(file)
      ensures Valid() && this.config == config && attempts == Trim(Load(file, now), config.limit)
    {
      this.config := config;
      attempts := Load(file, now);
      new;
      GetLoad(file, now, "");
      TrimAttempts();
    }

    method TrimAttempts()
      requires Distinct(attempts)
      modifies this`attempts
      ensures Valid() && attempts == Trim(old(attempts), config.limit)
    {
      TrimDropsLowest(attempts, config.limit);
      if |attempts| > config.limit {
        attempts := Sort(attempts, Rank())[..config.limit];
      }
    }

    method SweepAttempts(now: int) returns (changed: bool)
      requires Valid()
      modifies this`attempts
      ensures Valid() && attempts == Sweep(old(attempts), now)
      ensures changed <==> |attempts| < |old(attempts)|
    {
      KeepDistinct(attempts, Alive(now));
      var kept: Attempts := [];
      changed := false;
      for i := 0 to |attempts|
        invariant attempts == old(attempts) && kept == Sweep(attempts[..i], now)
        invariant |kept| <= i && (changed <==> |kept| < i)
      {
        KeepAppend(attempts[..i], attempts[i], Alive(now));
        assert attempts[..i + 1] == attempts[..i] + [attempts[i]];
        if Alive(now)(attempts[i]) {
          kept := kept + [attempts[i]];
        } else {
          changed := true;
        }
      }
      assert attempts[..|attempts|] == attempts;
      attempts := kept;
    }

    /** A failed login; refused when there is no room for its records. */
    method FailLogin(pair: Key, ip: Key, now: int) returns (counted: bool)
      requires Valid()
      modifies this`attempts
      ensures Valid() && attempts == Fail(old(attempts), [pair, ip, "global"], now, config.window, config.limit)
      ensures counted <==> |old(attempts)| + Missing(old(attempts), [pair, ip, "global"]) <= config.limit
      ensures !counted ==> attempts == old(attempts)
      ensures counted && AllDifferent([pair, ip, "global"]) ==> forall k ::
        if k in [pair, ip, "global"] then Raised(Get(old(attempts), k), Get(attempts, k), now, config.window)
        else Get(attempts, k) == Get(old(attempts), k)
    {
      hide Increment, Absent, Get, Raised, AllDifferent;
      var keys := [pair, ip, "global"];
      if AllDifferent(keys) {
        forall k
          ensures var r := IncrementAll(attempts, keys, now, config.window);
            if k in keys then Raised(Get(attempts, k), Get(r, k), now, config.window) else Get(r, k) == Get(attempts, k)
        {
          IncrementAllRaises(attempts, keys, now, config.window, k);
        }
      }
      FailKeepsLimit(attempts, keys, now, config.window, config.limit);
      counted := |attempts| + Missing(attempts, keys) <= config.limit;
      if counted {
        var i := 0;
        while i < |keys|
          invariant i <= |keys|
          invariant IncrementAll(attempts, keys[i..], now, config.window)
            == IncrementAll(old(attempts), keys, now, config.window)
        {
          assert keys[i..][1..] == keys[i + 1..];
          attempts := Increment(attempts, keys[i], now, config.window);
          i := i + 1;
        }
      }
    }

    method ClearAttempt(key: Key) returns (cleared: bool)
      requires Valid()
      modifies this`attempts
      ensures Valid() && attempts == Delete(old(attempts), key)
      ensures cleared <==> Get(old(attempts), key).Some?
    {
      cleared := Get(attempts, key).Some?;
      DeleteDistinct(attempts, key);
      attempts := Delete(attempts, key);
    }

    /** The uninterrupted part of `persistLoginAttempts`: merges what was read and returns what to write. */
    method MergeAttempts(file: Attempts, now: int) returns (snapshot: Attempts)
      requires Valid() && Distinct(file)
      modifies this`attempts
      ensures Valid() && attempts == snapshot == Trim(MergedAttempts(file, old(attempts), now), config.limit)
    {
      hide Combine, Distinct;
      MergeSmall(config, file, attempts, now);
      var merged := Load(file, now);
      var i := 0;
      while i < |attempts|
        invariant i <= |attempts| && attempts == old(attempts)
        invariant Merge(merged, attempts[i..]) == MergedAttempts(file, attempts, now)
      {
        assert attempts[i..][1..] == attempts[i + 1..];
        merged := Put(merged, attempts[i].key, Combine(Get(merged, attempts[i].key), attempts[i].value));
        i := i + 1;
      }
      attempts := merged;
      TrimAttempts();
      snapshot := attempts;
    }
  }
}
