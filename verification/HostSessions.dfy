/**
 Login sessions of apps/gateway/src/host.ts.  A handler runs without interruption between two `await`s,
 so one step of the model is one such stretch, and any number of handlers interleave step by step.
 */
module HostSessions {
  import opened Common
  import opened InsertionMap

  type User = string

  datatype Session = Session(user: User, issuedAt: int, expiresAt: int)

  /** The session map, by session id. */
  type Sessions = seq<Entry<nat, Session>>

  datatype Limits = Limits(total: nat, perUser: nat, duration: nat)

  predicate ValidLimits(c: Limits) { 1 <= c.perUser <= c.total && c.duration > 0 }

  // ---------- The operations on the map ----------

  type Test = Entry<nat, Session> -> bool

  function Owns(user: User): Test { (e: Entry<nat, Session>) => e.value.user == user }
  function Lives(now: int): Test { (e: Entry<nat, Session>) => e.value.expiresAt > now }

  function Owned(list: Sessions, user: User): Sessions { Keep(list, Owns(user)) }
  function Others(list: Sessions, user: User): Sessions { Keep(list, (e: Entry<nat, Session>) => e.value.user != user) }

  function ByIssue(): (Session, Session) -> bool { (a: Session, b: Session) => a.issuedAt <= b.issuedAt }

  /** Deletes the first of `owned` while there are `cap` or more. */
  function Evict(list: Sessions, owned: Sessions, cap: nat): (r: Sessions)
    requires cap > 0
    ensures |r| <= |list|
    decreases owned
  {
    if |owned| < cap then list else Evict(Delete(list, owned[0].key), owned[1..], cap)
  }

  function ReplaceOldest(list: Sessions, user: User, cap: nat): (r: Sessions)
    requires cap > 0
    ensures |r| <= |list|
  {
    Evict(list, Sort(Owned(list, user), ByIssue()), cap)
  }

  // ---------- Replacing the oldest ----------

  /** Only removals, and nothing removed is younger than a session of the user that stayed. */
  ghost predicate OldestGone(before: Sessions, after: Sessions, user: User) {
    && (forall e :: e in after ==> e in before)
    && forall e, kept :: e in before && e !in after && kept in after && kept.value.user == user ==>
      e.value.issuedAt <= kept.value.issuedAt
  }

  /** `owned` is the sorted queue of the user's sessions. */
  ghost predicate Queue(owned: Sessions, list: Sessions, user: User) {
    && Sorted(owned, ByIssue()) && Distinct(owned) && |owned| == |Owned(list, user)|
    && forall e :: e in owned <==> e in list && e.value.user == user
  }

  lemma QueueShifts(owned: Sessions, list: Sessions, user: User)
    requires Distinct(list) && Queue(owned, list, user) && owned != []
    ensures Queue(owned[1..], Delete(list, owned[0].key), user)
    ensures Others(Delete(list, owned[0].key), user) == Others(list, user)
  {
    var oldest := owned[0];
    DeleteFromKeep(list, oldest, Owns(user));
    DeleteFromKeep(list, oldest, (e: Entry<nat, Session>) => e.value.user != user);
    forall e
      ensures e in owned[1..] <==> e in Delete(list, oldest.key) && e.value.user == user
    {
      DeleteMeans(list, oldest.key, e);
      assert e in owned <==> e == oldest || e in owned[1..];
      if e in owned[1..] { InGet(owned[1..], e); }
      if e in list && e.key == oldest.key {
        InGet(list, e);
        InGet(list, oldest);
      }
    }
  }

  lemma OldestFirst(owned: Sessions, list: Sessions, user: User, r: Sessions)
    requires Distinct(list) && Queue(owned, list, user) && owned != []
    requires OldestGone(Delete(list, owned[0].key), r, user)
    ensures OldestGone(list, r, user)
  {
    hide Distinct, Delete, Get;
    var oldest := owned[0];
    forall e | e in r ensures e in list { DeleteMeans(list, oldest.key, e); }
    forall e, kept | e in list && e !in r && kept in r && kept.value.user == user
      ensures e.value.issuedAt <= kept.value.issuedAt
    {
      DeleteMeans(list, oldest.key, e);
      if e.key == oldest.key {
        InGet(list, e);
        InGet(list, oldest);
        assert kept in owned;
        if kept != oldest { NoneBeforeMeans(owned[1..], oldest.value, ByIssue(), kept); }
      }
    }
  }

  lemma {:induction false} EvictKeeps(list: Sessions, owned: Sessions, user: User, cap: nat)
    requires cap > 0 && Distinct(list) && Queue(owned, list, user)
    ensures var r := Evict(list, owned, cap);
      && Distinct(r) && Others(r, user) == Others(list, user) && OldestGone(list, r, user)
      && |Owned(r, user)| == if |owned| < cap then |owned| else cap - 1
    decreases owned
  {
    if |owned| >= cap {
      hide Distinct, Sorted, Delete, OldestGone, Others, Owned;
      QueueShifts(owned, list, user);
      DeleteDistinct(list, owned[0].key);
      EvictKeeps(Delete(list, owned[0].key), owned[1..], user, cap);
      OldestFirst(owned, list, user, Evict(list, owned, cap));
    }
  }

  lemma SortedQueue(list: Sessions, user: User)
    requires Distinct(list)
    ensures Queue(Sort(Owned(list, user), ByIssue()), list, user)
  {
    var owned := Owned(list, user);
    KeepDistinct(list, Owns(user));
    SortSorts(owned, ByIssue());
    forall e
      ensures e in Sort(owned, ByIssue()) <==> e in list && e.value.user == user
    {
      SortMeans(owned, ByIssue(), e.key, e);
      KeepMeans(list, Owns(user), e);
    }
  }

  /**
   `replaceOldestUserSessionAtCapacity`: leaves room for one more session of the user, by removing the
   oldest and as few as possible, and touches nobody else's.
   */
  lemma ReplaceMakesRoom(list: Sessions, user: User, cap: nat)
    requires cap > 0 && Distinct(list)
    ensures var r := ReplaceOldest(list, user, cap);
      && Distinct(r) && Others(r, user) == Others(list, user) && OldestGone(list, r, user)
      && |Owned(r, user)| == if |Owned(list, user)| < cap then |Owned(list, user)| else cap - 1
    ensures |Owned(list, user)| < cap ==> ReplaceOldest(list, user, cap) == list
  {
    SortedQueue(list, user);
    EvictKeeps(list, Sort(Owned(list, user), ByIssue()), user, cap);
  }

  /** Another user's replacement leaves this user's sessions alone. */
  lemma ReplaceElsewhere(list: Sessions, user: User, other: User, cap: nat)
    requires cap > 0 && Distinct(list) && user != other
    ensures Owned(ReplaceOldest(list, other, cap), user) == Owned(list, user)
  {
    ReplaceMakesRoom(list, other, cap);
    KeepTwice(list, (e: Entry<nat, Session>) => e.value.user != other, Owns(user));
    KeepTwice(ReplaceOldest(list, other, cap), (e: Entry<nat, Session>) => e.value.user != other, Owns(user));
  }

  // ---------- Handlers that interleave ----------

  /** Where a login waits: after it swept expired sessions, or after it replaced the user's oldest. */
  datatype Phase = Swept | Replaced

  datatype Login = Login(user: User, now: int, phase: Phase)

  datatype State = State(sessions: Sessions, logins: map<nat, Login>)

  /** One stretch without an `await`.  `Remove` is any logout, revocation, reload or timed sweep. */
  datatype Step =
    | Arrive(login: nat, user: User, now: int, id: nat, admitted: bool)
    | Resume(login: nat, id: nat, admitted: bool)
    | Remove(keep: Test)

  /** The capacity test and the insertion, with no `await` between them. */
  function Finish(c: Limits, list: Sessions, user: User, now: int, id: nat, admitted: bool): Sessions {
    if |list| >= c.total || !admitted then list else Put(list, id, Session(user, now, now + c.duration))
  }

  function Proceed(c: Limits, s: State, login: nat, user: User, now: int, id: nat, admitted: bool): State
    requires ValidLimits(c)
  {
    if |Owned(s.sessions, user)| >= c.perUser then
      State(ReplaceOldest(s.sessions, user, c.perUser), s.logins[login := Login(user, now, Replaced)])
    else
      State(Finish(c, s.sessions, user, now, id, admitted), s.logins - {login})
  }

  function Apply(c: Limits, s: State, step: Step): State
    requires ValidLimits(c)
  {
    match step
    case Arrive(login, user, now, id, admitted) =>
      if login in s.logins then s
      else
        var swept := Keep(s.sessions, Lives(now));
        if swept != s.sessions then State(swept, s.logins[login := Login(user, now, Swept)])
        else Proceed(c, s, login, user, now, id, admitted)
    case Resume(login, id, admitted) =>
      if login !in s.logins then s
      else
        var l := s.logins[login];
        if l.phase == Swept then Proceed(c, s, login, l.user, l.now, id, admitted)
        else State(Finish(c, s.sessions, l.user, l.now, id, admitted), s.logins - {login})
    case Remove(keep) => State(Keep(s.sessions, keep), s.logins)
  }

  function After(c: Limits, s: State, steps: seq<Step>): State
    requires ValidLimits(c)
    decreases |steps|
  {
    if steps == [] then s else After(c, Apply(c, s, steps[0]), steps[1..])
  }

  /** The logins of a user that are under way, and those of them that have made room and not used it yet. */
  function Waiting(logins: map<nat, Login>, user: User): set<nat> {
    set l | l in logins && logins[l].user == user
  }

  function Reserving(logins: map<nat, Login>, user: User): set<nat> {
    set l | l in logins && logins[l].user == user && logins[l].phase == Replaced
  }

  /** How many logins of the user overlap while `step` runs. */
  function Overlap(s: State, step: Step, user: User): nat {
    |Waiting(s.logins, user)| + if step.Arrive? && step.user == user && step.login !in s.logins then 1 else 0
  }

  ghost predicate OverlapAtMost(c: Limits, s: State, steps: seq<Step>, user: User, k: nat)
    requires ValidLimits(c)
    decreases |steps|
  {
    steps != [] ==> Overlap(s, steps[0], user) <= k && OverlapAtMost(c, Apply(c, s, steps[0]), steps[1..], user, k)
  }

  ghost predicate WithinTotal(c: Limits, s: State) {
    Distinct(s.sessions) && |s.sessions| <= c.total
  }

  /** Sessions plus room already reserved. */
  ghost predicate WithinUser(c: Limits, s: State, user: User, k: nat) {
    |Owned(s.sessions, user)| + |Reserving(s.logins, user)| <= c.perUser - 1 + k
  }

  lemma FinishKeeps(c: Limits, list: Sessions, user: User, now: int, id: nat, admitted: bool, any: User)
    requires Distinct(list) && |list| <= c.total
    ensures Distinct(Finish(c, list, user, now, id, admitted)) && |Finish(c, list, user, now, id, admitted)| <= c.total
    ensures |Owned(Finish(c, list, user, now, id, admitted), any)| <= |Owned(list, any)| + if user == any then 1 else 0
  {
    var s := Session(user, now, now + c.duration);
    PutDistinct(list, id, s);
    PutIntoKeep(list, id, s, Owns(any));
  }

  lemma StepKeepsTotal(c: Limits, s: State, step: Step)
    requires ValidLimits(c) && WithinTotal(c, s)
    ensures WithinTotal(c, Apply(c, s, step))
  {
    hide Distinct, Finish, ReplaceOldest, Keep;
    match step {
      case Arrive(login, user, now, id, admitted) =>
        KeepDistinct(s.sessions, Lives(now));
        ReplaceMakesRoom(s.sessions, user, c.perUser);
        FinishKeeps(c, s.sessions, user, now, id, admitted, user);
      case Resume(login, id, admitted) =>
        if login in s.logins {
          var l := s.logins[login];
          ReplaceMakesRoom(s.sessions, l.user, c.perUser);
          FinishKeeps(c, s.sessions, l.user, l.now, id, admitted, l.user);
        }
      case Remove(keep) => KeepDistinct(s.sessions, keep);
    }
  }

  lemma ReservingSet(m: map<nat, Login>, l: nat, x: Login, user: User)
    ensures Reserving(m - {l}, user) == Reserving(m, user) - {l}
    ensures Reserving(m[l := x], user) ==
      Reserving(m, user) - {l} + if x.user == user && x.phase == Replaced then {l} else {}
  {
  }

  lemma ReservingWaits(m: map<nat, Login>, user: User)
    ensures |Reserving(m, user)| <= |Waiting(m, user)|
    ensures forall l :: l in m && m[l].user == user && m[l].phase == Swept ==> |Reserving(m, user)| < |Waiting(m, user)|
  {
    SubsetSmaller(Reserving(m, user), Waiting(m, user));
    forall l | l in m && m[l].user == user && m[l].phase == Swept
      ensures |Reserving(m, user)| < |Waiting(m, user)|
    {
      SubsetSmaller(Reserving(m, user), Waiting(m, user) - {l});
    }
  }

  lemma SubsetSmaller(a: set<nat>, b: set<nat>)
    requires a <= b
    ensures |a| <= |b|
  {
    assert b == a + (b - a);
  }

  lemma ProceedKeepsUser(c: Limits, s: State, login: nat, by_: User, now: int, id: nat, admitted: bool, user: User, k: nat)
    requires ValidLimits(c) && WithinTotal(c, s) && WithinUser(c, s, user, k)
    requires login !in Reserving(s.logins, by_) && (login in s.logins ==> s.logins[login].user == by_)
    requires by_ == user ==> |Reserving(s.logins, user)| < k
    ensures WithinUser(c, Proceed(c, s, login, by_, now, id, admitted), user, k)
  {
    hide Distinct, Finish, ReplaceOldest, Owned, Reserving;
    ReservingSet(s.logins, login, Login(by_, now, Replaced), user);
    FinishKeeps(c, s.sessions, by_, now, id, admitted, user);
    ReplaceMakesRoom(s.sessions, by_, c.perUser);
    if by_ != user {
      ReplaceElsewhere(s.sessions, user, by_, c.perUser);
    }
  }

  /** The step keeps `WithinUser` for every number of overlapping logins. */
  lemma StepKeepsUser(c: Limits, s: State, step: Step, user: User, k: nat)
    requires ValidLimits(c) && WithinTotal(c, s) && WithinUser(c, s, user, k) && Overlap(s, step, user) <= k
    ensures WithinUser(c, Apply(c, s, step), user, k)
  {
    hide Distinct, Finish, ReplaceOldest, Keep, Proceed;
    ReservingWaits(s.logins, user);
    match step {
      case Arrive(login, by_, now, id, admitted) =>
        if login !in s.logins {
          ReservingSet(s.logins, login, Login(by_, now, Swept), user);
          assert login !in Reserving(s.logins, user);
          KeepTwice(s.sessions, Lives(now), Owns(user));
          ProceedKeepsUser(c, s, login, by_, now, id, admitted, user, k);
        }
      case Resume(login, id, admitted) =>
        if login in s.logins {
          var l := s.logins[login];
          if l.phase == Swept {
            ProceedKeepsUser(c, s, login, l.user, l.now, id, admitted, user, k);
          } else {
            ReservingSet(s.logins, login, l, user);
            FinishKeeps(c, s.sessions, l.user, l.now, id, admitted, user);
          }
        }
      case Remove(keep) => KeepTwice(s.sessions, keep, Owns(user));
    }
  }

  /** The global cap holds in every interleaving. */
  lemma {:induction false} TotalCapHolds(c: Limits, s: State, steps: seq<Step>)
    requires ValidLimits(c) && WithinTotal(c, s)
    ensures WithinTotal(c, After(c, s, steps))
    decreases |steps|
  {
    if steps != [] {
      StepKeepsTotal(c, s, steps[0]);
      TotalCapHolds(c, Apply(c, s, steps[0]), steps[1..]);
    }
  }

  lemma {:induction false} UserBoundHolds(c: Limits, s: State, steps: seq<Step>, user: User, k: nat)
    requires ValidLimits(c) && WithinTotal(c, s) && WithinUser(c, s, user, k) && OverlapAtMost(c, s, steps, user, k)
    ensures WithinUser(c, After(c, s, steps), user, k)
    decreases |steps|
  {
    if steps != [] {
      StepKeepsTotal(c, s, steps[0]);
      StepKeepsUser(c, s, steps[0], user, k);
      UserBoundHolds(c, Apply(c, s, steps[0]), steps[1..], user, k);
    }
  }

  function Min(a: int, b: int): int { if a < b then a else b }

  /** The most sessions a user can hold when at most `k` of the user's logins overlap. */
  function Most(c: Limits, k: nat): int { Min(c.total, c.perUser - 1 + k) }

  lemma OverlapBounds(c: Limits, s: State, steps: seq<Step>, user: User, k: nat)
    requires ValidLimits(c) && WithinTotal(c, s) && s.logins == map[] && |Owned(s.sessions, user)| <= c.perUser
    requires k > 0 && OverlapAtMost(c, s, steps, user, k)
    ensures |Owned(After(c, s, steps).sessions, user)| <= Most(c, k)
  {
    hide Distinct;
    assert Reserving(s.logins, user) == {};
    UserBoundHolds(c, s, steps, user, k);
    TotalCapHolds(c, s, steps);
  }

  /** The per-user cap holds in every run in which logins of the user do not overlap. */
  lemma UserCapHolds(c: Limits, s: State, steps: seq<Step>, user: User)
    requires ValidLimits(c) && WithinTotal(c, s) && s.logins == map[] && |Owned(s.sessions, user)| <= c.perUser
    requires OverlapAtMost(c, s, steps, user, 1)
    ensures |Owned(After(c, s, steps).sessions, user)| <= c.perUser
  {
    OverlapBounds(c, s, steps, user, 1);
  }

  // ---------- What one login does ----------

  function Live(s: State, now: int): Sessions { Keep(s.sessions, Lives(now)) }

  /** The login is admitted, and there is room: a place is free, or the user gives one up. */
  predicate Granted(c: Limits, s: State, user: User, now: int, admitted: bool) {
    admitted && (|Live(s, now)| < c.total || |Owned(Live(s, now), user)| >= c.perUser)
  }

  /** From the replacement on, undisturbed. */
  lemma ProceedEnds(c: Limits, s: State, login: nat, user: User, now: int, id: nat, admitted: bool)
    requires ValidLimits(c) && WithinTotal(c, s)
    ensures var e := Apply(c, Proceed(c, s, login, user, now, id, admitted), Resume(login, id, admitted));
      && e.logins == s.logins - {login}
      && e.sessions == Finish(c, ReplaceOldest(s.sessions, user, c.perUser), user, now, id, admitted)
  {
    hide Distinct, ReplaceOldest, Finish, Owned;
    ReplaceMakesRoom(s.sessions, user, c.perUser);
    assert s.logins[login := Login(user, now, Replaced)] - {login} == s.logins - {login};
  }

  lemma UndisturbedEnds(c: Limits, s: State, login: nat, user: User, now: int, id: nat, admitted: bool)
    requires ValidLimits(c) && WithinTotal(c, s) && login !in s.logins
    ensures After(c, s, [Arrive(login, user, now, id, admitted), Resume(login, id, admitted), Resume(login, id, admitted)])
      == State(Finish(c, ReplaceOldest(Live(s, now), user, c.perUser), user, now, id, admitted), s.logins)
  {
    hide Distinct, ReplaceOldest, Finish, Owned, Proceed, Keep;
    var arrive, resume := Arrive(login, user, now, id, admitted), Resume(login, id, admitted);
    KeepDistinct(s.sessions, Lives(now));
    var swept := State(Live(s, now), s.logins[login := Login(user, now, Swept)]);
    assert swept.logins - {login} == s.logins && s.logins - {login} == s.logins;
    ProceedEnds(c, s, login, user, now, id, admitted);
    ProceedEnds(c, swept, login, user, now, id, admitted);
    ThreeSteps(c, s, arrive, resume);
  }

  lemma ThreeSteps(c: Limits, s: State, first: Step, then_: Step)
    requires ValidLimits(c)
    ensures After(c, s, [first, then_, then_]) == Apply(c, Apply(c, Apply(c, s, first), then_), then_)
  {
    hide Apply;
    var a := Apply(c, s, first);
    var b := Apply(c, a, then_);
    assert [first, then_, then_][1..] == [then_, then_] && [then_, then_][1..] == [then_] && [then_][1..] == [];
    assert After(c, b, [then_]) == Apply(c, b, then_);
    assert After(c, a, [then_, then_]) == After(c, b, [then_]);
  }

  /** Replacing at the cap frees a place. */
  lemma ReplacementFrees(list: Sessions, user: User, cap: nat)
    requires cap > 0 && Distinct(list) && |Owned(list, user)| >= cap
    ensures |ReplaceOldest(list, user, cap)| < |list|
  {
    hide Owned;
    SortedQueue(list, user);
    var owned := Sort(Owned(list, user), ByIssue());
    assert owned[0] in owned;
    InGet(list, owned[0]);
  }

  /**
   A login that is not disturbed creates its session if and only if it is granted: of that user, issued at
   that time, for the whole duration.  It ends with no login left over, and apart from the new session
   only live sessions remain, all of the other users' among them.
   */
  lemma LoginCreatesSession(c: Limits, s: State, login: nat, user: User, now: int, id: nat, admitted: bool)
    requires ValidLimits(c) && WithinTotal(c, s) && login !in s.logins && Absent(s.sessions, id)
    ensures
      var e := After(c, s, [Arrive(login, user, now, id, admitted), Resume(login, id, admitted), Resume(login, id, admitted)]);
      && e.logins == s.logins && Distinct(e.sessions)
      && Get(e.sessions, id) == (if Granted(c, s, user, now, admitted) then Some(Session(user, now, now + c.duration)) else None)
      && (forall x :: x in e.sessions && x.key != id ==> x in s.sessions && x.value.expiresAt > now)
      && (forall x :: x in s.sessions && x.value.expiresAt > now && x.value.user != user ==> x in e.sessions)
  {
    UndisturbedEnds(c, s, login, user, now, id, admitted);
    var live := Live(s, now);
    KeepDistinct(s.sessions, Lives(now));
    KeepAbsent(s.sessions, Lives(now), id);
    ReplaceMakesRoom(live, user, c.perUser);
    var room := ReplaceOldest(live, user, c.perUser);
    if |Owned(live, user)| >= c.perUser { ReplacementFrees(live, user, c.perUser); }
    hide ReplaceOldest, Distinct, Keep, Delete;
    assert Absent(room, id) by {
      if !Absent(room, id) {
        var x := Entry(id, Get(room, id).value);
        assert x in live;
        InGet(live, x);
      }
    }
    FinishedList(c, room, user, now, id, admitted);
    forall x
      ensures x in live <==> x in s.sessions && x.value.expiresAt > now
      ensures x in live && x.value.user != user ==> x in room
    {
      KeepMeans(s.sessions, Lives(now), x);
      KeepMeans(live, (e: Entry<nat, Session>) => e.value.user != user, x);
      KeepMeans(room, (e: Entry<nat, Session>) => e.value.user != user, x);
    }
  }

  lemma KeepAbsent(list: Sessions, p: Test, id: nat)
    requires Absent(list, id)
    ensures Absent(Keep(list, p), id)
  {
    KeepMeans(list, p, Entry(id, Session("", 0, 0)));
  }

  lemma FinishedList(c: Limits, list: Sessions, user: User, now: int, id: nat, admitted: bool)
    requires Distinct(list) && Absent(list, id)
    ensures var e := Finish(c, list, user, now, id, admitted);
      && Distinct(e) && (forall x :: x in list ==> x in e) && (forall x :: x in e && x.key != id ==> x in list)
      && Get(e, id) == if |list| < c.total && admitted then Some(Session(user, now, now + c.duration)) else None
  {
    PutDistinct(list, id, Session(user, now, now + c.duration));
    GetPut(list, id, Session(user, now, now + c.duration), id);
  }

  /** A session is gone at its expiry and not before. */
  lemma LivesUntilExpiry(list: Sessions, id: nat, clock: int)
    requires Distinct(list) && Get(list, id).Some?
    ensures Get(Keep(list, Lives(clock)), id)
      == if clock < Get(list, id).value.expiresAt then Get(list, id) else None
  {
    var x := Entry(id, Get(list, id).value);
    var kept := Keep(list, Lives(clock));
    KeepDistinct(list, Lives(clock));
    KeepMeans(list, Lives(clock), x);
    if x in kept {
      InGet(kept, x);
    } else if Get(kept, id).Some? {
      var y := Entry(id, Get(kept, id).value);
      KeepMeans(list, Lives(clock), y);
      InGet(list, y);
    }
  }

  // ---------- The bound is attained ----------

  /** Only this user's live sessions, and only this user's logins, each with room reserved; keys below `n`. */
  ghost predicate Crowd(s: State, user: User, n: nat) {
    && Distinct(s.sessions)
    && (forall x :: x in s.sessions ==> x.value.user == user && x.value.expiresAt > 0 && x.key < n)
    && forall l :: l in s.logins ==> l < n && s.logins[l] == Login(user, 0, Replaced)
  }

  lemma CrowdSteps(c: Limits, s: State, user: User, n: nat)
    requires ValidLimits(c) && Crowd(s, user, n)
    ensures Keep(s.sessions, Lives(0)) == s.sessions && n !in s.logins && |Waiting(s.logins, user)| == |s.logins|
    ensures Owned(s.sessions, user) == s.sessions
    ensures Put(s.sessions, n, Session(user, 0, c.duration)) == s.sessions + [Entry(n, Session(user, 0, c.duration))]
  {
    KeepsAll(s.sessions, Lives(0));
    KeepsAll(s.sessions, Owns(user));
    assert Get(s.sessions, n).None?;
    assert Waiting(s.logins, user) == s.logins.Keys;
    assert |s.logins.Keys| == |s.logins|;
  }

  /** Another login of the user, at or below the cap. */
  lemma CrowdArrives(c: Limits, s: State, user: User, n: nat)
    requires ValidLimits(c) && Crowd(s, user, n) && |s.sessions| <= c.perUser
    ensures var t := Apply(c, s, Arrive(n, user, 0, n, true));
      && Crowd(t, user, n + 1)
      && if |s.sessions| < c.perUser then |t.sessions| == |s.sessions| + 1 && t.logins == s.logins
         else |t.sessions| == c.perUser - 1 && |t.logins| == |s.logins| + 1
  {
    hide Distinct, Put, ReplaceOldest, Keep;
    CrowdSteps(c, s, user, n);
    var t := Apply(c, s, Arrive(n, user, 0, n, true));
    if |s.sessions| < c.perUser {
      PutDistinct(s.sessions, n, Session(user, 0, c.duration));
      assert s.logins - {n} == s.logins;
    } else {
      ReplaceMakesRoom(s.sessions, user, c.perUser);
      KeepsAll(t.sessions, Owns(user));
      assert t.logins.Keys == s.logins.Keys + {n};
      assert |t.logins.Keys| == |t.logins| && |s.logins.Keys| == |s.logins|;
    }
  }

  /** One of the waiting logins inserts its session. */
  lemma CrowdResumes(c: Limits, s: State, user: User, n: nat, l: nat)
    requires ValidLimits(c) && Crowd(s, user, n) && |s.sessions| < c.total && l in s.logins
    ensures var t := Apply(c, s, Resume(l, n, true));
      Crowd(t, user, n + 1) && |t.sessions| == |s.sessions| + 1 && |t.logins| == |s.logins| - 1
  {
    hide Distinct, Owned, Put, ReplaceOldest, Keep;
    CrowdSteps(c, s, user, n);
    PutDistinct(s.sessions, n, Session(user, 0, c.duration));
    var t := Apply(c, s, Resume(l, n, true));
    assert t.logins.Keys == s.logins.Keys - {l};
    assert |t.logins.Keys| == |t.logins| && |s.logins.Keys| == |s.logins|;
  }

  lemma {:induction false} Drain(c: Limits, s: State, user: User, n: nat, k: nat) returns (steps: seq<Step>)
    requires ValidLimits(c) && Crowd(s, user, n) && |s.sessions| + |s.logins| <= c.total && |s.logins| <= k
    ensures OverlapAtMost(c, s, steps, user, k)
    ensures |Owned(After(c, s, steps).sessions, user)| == |s.sessions| + |s.logins|
    decreases |s.logins|
  {
    hide Apply, Owned, Distinct;
    CrowdSteps(c, s, user, n);
    if s.logins == map[] {
      steps := [];
    } else {
      var l :| l in s.logins;
      CrowdResumes(c, s, user, n, l);
      var step := Resume(l, n, true);
      var rest := Drain(c, Apply(c, s, step), user, n + 1, k);
      steps := [step] + rest;
      assert steps[1..] == rest;
    }
  }

  lemma {:induction false} Climb(c: Limits, s: State, user: User, n: nat, k: nat) returns (steps: seq<Step>)
    requires ValidLimits(c) && Crowd(s, user, n) && |s.sessions| <= c.perUser && |s.logins| < k
    requires c.perUser - 1 + k <= c.total
    ensures OverlapAtMost(c, s, steps, user, k)
    ensures |Owned(After(c, s, steps).sessions, user)| == c.perUser - 1 + k
    decreases k - |s.logins|, c.perUser - |s.sessions|
  {
    hide Apply, Owned, Distinct;
    if |s.sessions| == c.perUser && |s.logins| == k - 1 {
      steps := Drain(c, s, user, n, k);
    } else {
      CrowdSteps(c, s, user, n);
      CrowdArrives(c, s, user, n);
      var step := Arrive(n, user, 0, n, true);
      var rest := Climb(c, Apply(c, s, step), user, n + 1, k);
      steps := [step] + rest;
      assert steps[1..] == rest;
    }
  }

  ghost predicate Attains(c: Limits, user: User, k: nat, count: int)
    requires ValidLimits(c)
  {
    exists steps :: OverlapAtMost(c, State([], map[]), steps, user, k)
      && |Owned(After(c, State([], map[]), steps).sessions, user)| == count
  }

  lemma {:induction false} OverlapWeakens(c: Limits, s: State, steps: seq<Step>, user: User, j: nat, k: nat)
    requires ValidLimits(c) && OverlapAtMost(c, s, steps, user, j) && j <= k
    ensures OverlapAtMost(c, s, steps, user, k)
    decreases |steps|
  {
    if steps != [] { OverlapWeakens(c, Apply(c, s, steps[0]), steps[1..], user, j, k); }
  }

  /**
   From an empty host, runs in which at most `k` logins of a user overlap reach exactly `Most(c, k)` of the
   user's sessions, never more.  So with two overlapping logins the per-user cap is exceeded, unless the
   global cap is no larger.
   */
  lemma MostIsExact(c: Limits, user: User, k: nat)
    requires ValidLimits(c) && k > 0
    ensures Attains(c, user, k, Most(c, k))
    ensures forall n :: Attains(c, user, k, n) ==> n <= Most(c, k)
    ensures (forall n :: Attains(c, user, k, n) ==> n <= c.perUser) <==> k == 1 || c.total == c.perUser
  {
    hide Apply;
    var empty := State([], map[]);
    var j: nat := if c.perUser - 1 + k <= c.total then k else c.total - c.perUser + 1;
    assert Owned(empty.sessions, user) == [];
    var steps := Climb(c, empty, user, 0, j);
    OverlapWeakens(c, empty, steps, user, j, k);
    assert Attains(c, user, k, Most(c, k));
    forall n | Attains(c, user, k, n)
      ensures n <= Most(c, k)
    {
      var run :| OverlapAtMost(c, empty, run, user, k) && |Owned(After(c, empty, run).sessions, user)| == n;
      OverlapBounds(c, empty, run, user, k);
    }
  }

  // ---------- The host ----------

  /** The host's session state; each method is one stretch of a handler, and does that step of the model. */
  class Host {
    const limits: Limits
    var sessions: Sessions
    var logins: map<nat, Login>

    ghost predicate Valid()
      reads this
    {
      ValidLimits(limits) && WithinTotal(limits, Abstract())
    }

    ghost function Abstract(): State
      reads this
    {
      State(sessions, logins)
    }

    constructor (limits: Limits)
      requires ValidLimits(limits)
      ensures Valid() && this.limits == limits && Abstract() == State([], map[])
    {
      this.limits := limits;
      sessions, logins := [], map[];
    }

    /** `sweepSessions`, and with another test the revocations. */
    method Retain(p: Test) returns (changed: bool)
      requires Valid()
      modifies this`sessions
      ensures Valid() && Abstract() == Apply(limits, old(Abstract()), Remove(p))
      ensures changed <==> sessions != old(sessions)
    {
      var kept: Sessions := [];
      changed := false;
      for i := 0 to |sessions|
        invariant sessions == old(sessions) && kept == Keep(sessions[..i], p)
        invariant changed <==> |kept| != i
      {
        KeepAppend(sessions[..i], sessions[i], p);
        assert sessions[..i + 1] == sessions[..i] + [sessions[i]];
        if p(sessions[i]) {
          kept := kept + [sessions[i]];
        } else {
          changed := true;
        }
      }
      assert sessions[..|sessions|] == sessions;
      if !changed { KeepsAll(sessions, p); }
      KeepDistinct(sessions, p);
      sessions := kept;
    }

    /** `replaceOldestUserSessionAtCapacity`. */
    method ReplaceOldestAtCapacity(user: User) returns (changed: bool)
      requires Valid()
      modifies this`sessions
      ensures Valid() && sessions == ReplaceOldest(old(sessions), user, limits.perUser)
      ensures changed <==> |Owned(old(sessions), user)| >= limits.perUser
      ensures !changed ==> sessions == old(sessions)
    {
      hide Distinct, Owned, Delete, Insert, Sorted;
      SortedQueue(sessions, user);
      ReplaceMakesRoom(sessions, user, limits.perUser);
      var owned := Sort(Owned(sessions, user), ByIssue());
      changed := false;
      while |owned| >= limits.perUser
        invariant |sessions| <= |old(sessions)|
        invariant Evict(sessions, owned, limits.perUser) == ReplaceOldest(old(sessions), user, limits.perUser)
        invariant changed || (sessions == old(sessions) && |owned| == |Owned(sessions, user)|)
        invariant changed ==> |Owned(old(sessions), user)| >= limits.perUser
        decreases |owned|
      {
        sessions := Delete(sessions, owned[0].key);
        owned, changed := owned[1..], true;
      }
    }

    method FinishLogin(login: nat, user: User, now: int, id: nat, admitted: bool)
      requires Valid()
      modifies this
      ensures Valid()
      ensures Abstract() == State(Finish(limits, old(sessions), user, now, id, admitted), old(logins) - {login})
    {
      FinishKeeps(limits, sessions, user, now, id, admitted, user);
      if |sessions| < limits.total && admitted {
        sessions := Put(sessions, id, Session(user, now, now + limits.duration));
      }
      logins := logins - {login};
    }

    /** From the replacement on: waits if something was replaced, otherwise finishes at once. */
    method ProceedLogin(login: nat, user: User, now: int, id: nat, admitted: bool)
      requires Valid()
      modifies this
      ensures Valid() && Abstract() == Proceed(limits, old(Abstract()), login, user, now, id, admitted)
    {
      var changed := ReplaceOldestAtCapacity(user);
      if changed {
        logins := logins[login := Login(user, now, Replaced)];
      } else {
        FinishLogin(login, user, now, id, admitted);
      }
    }

    /** A login whose password was verified, up to its first `await` or its end. */
    method ArriveLogin(login: nat, user: User, now: int, id: nat, admitted: bool)
      requires Valid() && login !in logins
      modifies this
      ensures Valid() && Abstract() == Apply(limits, old(Abstract()), Arrive(login, user, now, id, admitted))
    {
      var expired := Retain(Lives(now));
      if expired {
        logins := logins[login := Login(user, now, Swept)];
      } else {
        ProceedLogin(login, user, now, id, admitted);
      }
    }

    method ResumeLogin(login: nat, id: nat, admitted: bool)
      requires Valid() && login in logins
      modifies this
      ensures Valid() && Abstract() == Apply(limits, old(Abstract()), Resume(login, id, admitted))
    {
      var l := logins[login];
      if l.phase == Swept {
        ProceedLogin(login, l.user, l.now, id, admitted);
      } else {
        FinishLogin(login, l.user, l.now, id, admitted);
      }
    }
  }
}
