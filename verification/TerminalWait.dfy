/**
 Waiting for a durable job (apps/gateway/src/durable-dispatch.ts): poll the job, keep the lease of
 its event delivery alive, and settle only on the job's durable terminal state.
 */
module TerminalWait {
  import opened Common
  import opened EventBinding

  datatype Delivery = Completed | Failed | NeedsReview

  const NONTERMINAL: set<string> := {"queued", "running", "cancelling", "awaiting-approval"}

  function DeliveryStatus(job: Job): Option<Delivery> {
    if job.status in NONTERMINAL then None
    else if job.status == "completed" then Some(Completed)
    else if job.status == "failed" || job.status == "cancelled" then Some(Failed)
    else Some(NeedsReview)
  }

  /** What one look at the job decides: nothing yet, or how to settle the delivery. */
  function Verdict(k: Kernel, expected: Option<Request>, seen: Option<Job>): Option<Delivery> {
    if seen.None? then Some(NeedsReview)
    else if expected.Some? && !Bound(k, seen.value, expected.value) then Some(NeedsReview)
    else DeliveryStatus(seen.value)
  }

  /** The job is there and is the one the delivery asked for. */
  predicate Adopted(k: Kernel, expected: Option<Request>, seen: Option<Job>) {
    seen.Some? && (expected.Some? ==> Bound(k, seen.value, expected.value))
  }

  predicate Ongoing(status: string) {
    status == "queued" || status == "running" || status == "cancelling" || status == "awaiting-approval"
  }

  /**
   Which looks go on waiting, and how each of the others settles: `completed` only for a correctly bound job
   that is durably completed, `failed` only for one that durably failed or was cancelled, and whatever is
   missing, bound to something else or of an unknown status goes to review.
   */
  lemma VerdictMeans(k: Kernel, expected: Option<Request>, seen: Option<Job>)
    ensures Verdict(k, expected, seen).None? <==> Adopted(k, expected, seen) && Ongoing(seen.value.status)
    ensures Verdict(k, expected, seen) == Some(Completed) <==>
      Adopted(k, expected, seen) && seen.value.status == "completed"
    ensures Verdict(k, expected, seen) == Some(Failed) <==>
      Adopted(k, expected, seen) && (seen.value.status == "failed" || seen.value.status == "cancelled")
    ensures Verdict(k, expected, seen) == Some(NeedsReview) <==>
      !Adopted(k, expected, seen)
      || (!Ongoing(seen.value.status) && seen.value.status !in {"completed", "failed", "cancelled"})
  {
    hide Bound;
  }

  /** One turn of the loop as the environment lets it happen; times are readings of the clock. */
  datatype Round = Round(
    aborted: bool,
    check: nat,       // when the renewal is considered
    renews: bool,     // whether a renewal succeeds
    renewed: nat,     // the reading after it
    sleep: nat,       // the reading from which the delay is computed
    interrupted: bool,  // aborted during the delay
    next: Option<Job>)

  datatype Outcome = Settled(delivery: Delivery) | Aborted | LeaseLost | StillWaiting

  function Min(a: int, b: int): int { if a < b then a else b }
  function Max(a: int, b: int): int { if a < b then b else a }

  function RenewAt(r: Round, renewAt: nat, renewEvery: nat): nat {
    if r.check >= renewAt then r.renewed + renewEvery else renewAt
  }

  function Delay(r: Round, renewAt: nat, pollEvery: nat): int {
    Min(pollEvery, Max(1, renewAt - r.sleep))
  }

  /**
   Timing: the clock moves forward, the readings of one turn are at most `turn` apart, and the next
   turn begins at most `late` after the delay it waited for (timer overshoot and one look-up).
   */
  ghost predicate Timely(rounds: seq<Round>, renewAt: nat, pollEvery: nat, renewEvery: nat, late: nat, turn: nat)
    decreases rounds
  {
    rounds == [] ||
    var r := rounds[0];
    var at := RenewAt(r, renewAt, renewEvery);
    && r.check <= r.renewed <= r.sleep <= r.check + turn
    && (|rounds| > 1 ==> rounds[1].check <= r.sleep + Delay(r, at, pollEvery) + late)
    && Timely(rounds[1..], at, pollEvery, renewEvery, late, turn)
  }

  /** One turn: whatever it waited for, the next check comes at most this long after the renewal is due. */
  lemma TurnIsTimely(rounds: seq<Round>, i: nat, renewAt: nat, pollEvery: nat, renewEvery: nat, late: nat, turn: nat)
    requires i < |rounds| && Timely(rounds[i..], renewAt, pollEvery, renewEvery, late, turn)
    ensures var at := RenewAt(rounds[i], renewAt, renewEvery);
      && Timely(rounds[i + 1..], at, pollEvery, renewEvery, late, turn)
      && rounds[i].check <= rounds[i].renewed <= rounds[i].check + turn
      && (i + 1 < |rounds| ==> rounds[i + 1].check <= at + turn + 1 + late)
  {
    assert rounds[i..][0] == rounds[i] && rounds[i..][1..] == rounds[i + 1..];
    assert i + 1 < |rounds| ==> rounds[i..][1] == rounds[i + 1];
  }

  /** What the waiter sees: the initial job, then one snapshot a round. */
  function Seen(initial: Job, rounds: seq<Round>, i: nat): Option<Job>
    requires i <= |rounds|
  {
    if i == 0 then Some(initial) else rounds[i - 1].next
  }

  /** When a renewal is due as round `i` begins: at once, and then an interval after each renewal. */
  function DueAt(rounds: seq<Round>, i: nat, renewEvery: nat): nat
    requires i <= |rounds|
  {
    if i == 0 then 0 else RenewAt(rounds[i - 1], DueAt(rounds, i - 1, renewEvery), renewEvery)
  }

  predicate IsDue(rounds: seq<Round>, i: nat, renewEvery: nat)
    requires i < |rounds|
  {
    rounds[i].check >= DueAt(rounds, i, renewEvery)
  }

  /** The renewals in the first `n` rounds: one in every round in which it was due. */
  function Renewals(rounds: seq<Round>, n: nat, renewEvery: nat): (r: seq<nat>)
    requires n <= |rounds|
  {
    if n == 0 then []
    else Renewals(rounds, n - 1, renewEvery) + if IsDue(rounds, n - 1, renewEvery) then [rounds[n - 1].renewed] else []
  }

  /** The lease is lost in round `i`: a renewal is due and is refused. */
  predicate Refused(rounds: seq<Round>, i: nat, renewEvery: nat)
    requires i < |rounds|
  {
    IsDue(rounds, i, renewEvery) && !rounds[i].renews
  }

  /** The renewals of a wait are never further apart than this. */
  ghost predicate Spaced(renewals: seq<nat>, gap: nat) {
    forall i :: 0 <= i < |renewals| - 1 ==> renewals[i + 1] <= renewals[i] + gap
  }

  /** The lease has been renewed, and at `now` at most `gap` ago. */
  ghost predicate Recent(renewals: seq<nat>, now: nat, gap: nat) {
    renewals != [] && now <= renewals[|renewals| - 1] + gap
  }

  /** The first renewal comes in the first round, and what is due later counts from the last renewal. */
  lemma {:induction false} DueAfterRenewal(rounds: seq<Round>, n: nat, renewEvery: nat)
    requires 0 < n <= |rounds|
    ensures var r := Renewals(rounds, n, renewEvery);
      r != [] && DueAt(rounds, n, renewEvery) == r[|r| - 1] + renewEvery
  {
    if n > 1 { DueAfterRenewal(rounds, n - 1, renewEvery); }
  }

  lemma {:induction false} TimelyFrom(rounds: seq<Round>, i: nat, pollEvery: nat, renewEvery: nat, late: nat, turn: nat)
    requires i <= |rounds| && Timely(rounds, 0, pollEvery, renewEvery, late, turn)
    ensures Timely(rounds[i..], DueAt(rounds, i, renewEvery), pollEvery, renewEvery, late, turn)
  {
    if i == 0 {
      assert rounds[0..] == rounds;
    } else {
      TimelyFrom(rounds, i - 1, pollEvery, renewEvery, late, turn);
      TurnIsTimely(rounds, i - 1, DueAt(rounds, i - 1, renewEvery), pollEvery, renewEvery, late, turn);
    }
  }

  /** Whenever a later round considers the renewal, the last one is recent. */
  lemma CheckedInTime(rounds: seq<Round>, i: nat, pollEvery: nat, renewEvery: nat, late: nat, turn: nat)
    requires 0 < i < |rounds| && Timely(rounds, 0, pollEvery, renewEvery, late, turn)
    ensures Recent(Renewals(rounds, i, renewEvery), rounds[i].check, renewEvery + 1 + late + turn)
  {
    hide Timely;
    DueAfterRenewal(rounds, i, renewEvery);
    TimelyFrom(rounds, i - 1, pollEvery, renewEvery, late, turn);
    TurnIsTimely(rounds, i - 1, DueAt(rounds, i - 1, renewEvery), pollEvery, renewEvery, late, turn);
  }

  lemma {:induction false} RenewalsSpaced(rounds: seq<Round>, n: nat, pollEvery: nat, renewEvery: nat, late: nat, turn: nat)
    requires n <= |rounds| && Timely(rounds, 0, pollEvery, renewEvery, late, turn)
    ensures Spaced(Renewals(rounds, n, renewEvery), renewEvery + 1 + late + 2 * turn)
  {
    hide Timely;
    if n > 0 {
      RenewalsSpaced(rounds, n - 1, pollEvery, renewEvery, late, turn);
      TimelyFrom(rounds, n - 1, pollEvery, renewEvery, late, turn);
      TurnIsTimely(rounds, n - 1, DueAt(rounds, n - 1, renewEvery), pollEvery, renewEvery, late, turn);
      if n > 1 { CheckedInTime(rounds, n - 1, pollEvery, renewEvery, late, turn); }
    }
  }

  /** How long turn `i` sleeps. */
  function SleepOf(rounds: seq<Round>, i: nat, pollEvery: nat, renewEvery: nat): int
    requires i < |rounds|
  {
    Delay(rounds[i], DueAt(rounds, i + 1, renewEvery), pollEvery)
  }

  /** The sleep that a turn asks for ends soon after the renewal that follows it is due. */
  lemma SleepEndsInTime(rounds: seq<Round>, i: nat, pollEvery: nat, renewEvery: nat, late: nat, turn: nat)
    requires i < |rounds| && Timely(rounds, 0, pollEvery, renewEvery, late, turn) && pollEvery >= 1 && renewEvery >= 1
    ensures 1 <= SleepOf(rounds, i, pollEvery, renewEvery) <= pollEvery
    ensures Recent(Renewals(rounds, i + 1, renewEvery), rounds[i].sleep + SleepOf(rounds, i, pollEvery, renewEvery), renewEvery + turn)
  {
    DueAfterRenewal(rounds, i + 1, renewEvery);
    TimelyFrom(rounds, i, pollEvery, renewEvery, late, turn);
    assert rounds[i..][0] == rounds[i];
  }

  /**
   The lease is kept through the first `n` rounds: it is renewed at once; consecutive renewals, and every
   later time at which the renewal is considered, are at most the interval, one millisecond and the
   lateness of the turns apart; and no turn asks to sleep longer than that allows.
   */
  ghost predicate LeaseKept(rounds: seq<Round>, n: nat, pollEvery: nat, renewEvery: nat, late: nat, turn: nat)
    requires n <= |rounds|
  {
    && (n > 0 ==> Renewals(rounds, n, renewEvery) != [])
    && Spaced(Renewals(rounds, n, renewEvery), renewEvery + 1 + late + 2 * turn)
    && (forall i :: 0 < i <= n && i < |rounds| ==>
          Recent(Renewals(rounds, i, renewEvery), rounds[i].check, renewEvery + 1 + late + turn))
    && (forall i :: 0 <= i < n ==>
          && 1 <= SleepOf(rounds, i, pollEvery, renewEvery) <= pollEvery
          && Recent(Renewals(rounds, i + 1, renewEvery), rounds[i].sleep + SleepOf(rounds, i, pollEvery, renewEvery), renewEvery + turn))
  }

  lemma LeaseIsKept(rounds: seq<Round>, n: nat, pollEvery: nat, renewEvery: nat, late: nat, turn: nat)
    requires n <= |rounds| && Timely(rounds, 0, pollEvery, renewEvery, late, turn) && pollEvery >= 1 && renewEvery >= 1
    ensures LeaseKept(rounds, n, pollEvery, renewEvery, late, turn)
  {
    hide Timely, Recent, Spaced, SleepOf;
    if n > 0 { DueAfterRenewal(rounds, n, renewEvery); }
    RenewalsSpaced(rounds, n, pollEvery, renewEvery, late, turn);
    forall i | 0 < i <= n && i < |rounds|
      ensures Recent(Renewals(rounds, i, renewEvery), rounds[i].check, renewEvery + 1 + late + turn)
    {
      CheckedInTime(rounds, i, pollEvery, renewEvery, late, turn);
    }
    forall i | 0 <= i < n
      ensures 1 <= SleepOf(rounds, i, pollEvery, renewEvery) <= pollEvery
      ensures Recent(Renewals(rounds, i + 1, renewEvery), rounds[i].sleep + SleepOf(rounds, i, pollEvery, renewEvery), renewEvery + turn)
    {
      SleepEndsInTime(rounds, i, pollEvery, renewEvery, late, turn);
    }
  }

  ghost predicate Apart(renewals: seq<nat>, gap: nat) {
    forall i :: 0 <= i < |renewals| - 1 ==> renewals[i + 1] >= renewals[i] + gap
  }

  lemma {:induction false} RenewalsApart(rounds: seq<Round>, n: nat, pollEvery: nat, renewEvery: nat, late: nat, turn: nat)
    requires n <= |rounds| && Timely(rounds, 0, pollEvery, renewEvery, late, turn)
    ensures Apart(Renewals(rounds, n, renewEvery), renewEvery)
  {
    if n > 0 {
      RenewalsApart(rounds, n - 1, pollEvery, renewEvery, late, turn);
      TimelyFrom(rounds, n - 1, pollEvery, renewEvery, late, turn);
      assert rounds[n - 1..][0] == rounds[n - 1];
      if n > 1 { DueAfterRenewal(rounds, n - 1, renewEvery); }
    }
  }

  /** A sleep shorter than the poll interval ends when the renewal is due, or at the next millisecond if it is already. */
  ghost predicate CutShortByRenewal(rounds: seq<Round>, i: nat, pollEvery: nat, renewEvery: nat)
    requires i < |rounds|
  {
    var wakes := rounds[i].sleep + SleepOf(rounds, i, pollEvery, renewEvery);
    var due := DueAt(rounds, i + 1, renewEvery);
    SleepOf(rounds, i, pollEvery, renewEvery) < pollEvery ==> wakes == due || (due <= rounds[i].sleep && wakes == rounds[i].sleep + 1)
  }

  /**
   The other side of keeping the lease: no renewal comes less than an interval after the one before it,
   and every sleep is a whole poll interval unless a renewal is due sooner.
   */
  lemma NoNeedlessWork(rounds: seq<Round>, n: nat, pollEvery: nat, renewEvery: nat, late: nat, turn: nat)
    requires n <= |rounds| && Timely(rounds, 0, pollEvery, renewEvery, late, turn) && pollEvery >= 1
    ensures Apart(Renewals(rounds, n, renewEvery), renewEvery)
    ensures forall i :: 0 <= i < n ==> CutShortByRenewal(rounds, i, pollEvery, renewEvery)
  {
    RenewalsApart(rounds, n, pollEvery, renewEvery, late, turn);
  }

  /** Turn `i` goes through: no verdict, no abort, no refusal. */
  predicate GoesThrough(k: Kernel, initial: Job, expected: Option<Request>, rounds: seq<Round>, i: nat, renewEvery: nat)
    requires i < |rounds|
  {
    && Verdict(k, expected, Seen(initial, rounds, i)).None?
    && !rounds[i].aborted && !Refused(rounds, i, renewEvery) && !rounds[i].interrupted
  }

  /** Why the wait ends as `turns` turns have gone through. */
  predicate EndsWith(outcome: Outcome, k: Kernel, initial: Job, expected: Option<Request>, rounds: seq<Round>, turns: nat, renewEvery: nat)
    requires turns <= |rounds|
  {
    var verdict := Verdict(k, expected, Seen(initial, rounds, turns));
    if verdict.Some? then outcome == Settled(verdict.value)
    else if turns == |rounds| then outcome == StillWaiting
    else if rounds[turns].aborted then outcome == Aborted
    else if Refused(rounds, turns, renewEvery) then outcome == LeaseLost
    else rounds[turns].interrupted && outcome == Aborted
  }

  /**
   `waitForDurableJobTerminal`; `turns` counts the turns that went through.

   It stops at the first look that gives a verdict, and reports it; or in the first turn that finds the
   abort signal, in which a due renewal is refused, or whose sleep is interrupted: which of these decides
   the outcome.  It renews in every turn in which a renewal is due and in no other, so that the lease is
   kept for as long as it waits.
   */
  method Wait(k: Kernel, initial: Job, expected: Option<Request>, pollEvery: nat, renewEvery: nat, rounds: seq<Round>,
              ghost late: nat, ghost turn: nat)
    returns (outcome: Outcome, turns: nat, renewals: seq<nat>, sleeps: seq<int>)
    requires pollEvery >= 1 && renewEvery >= 1
    requires Timely(rounds, 0, pollEvery, renewEvery, late, turn)
    ensures turns <= |rounds| && EndsWith(outcome, k, initial, expected, rounds, turns, renewEvery)
    ensures forall i :: 0 <= i < turns ==> GoesThrough(k, initial, expected, rounds, i, renewEvery)
    ensures var n := if outcome.Aborted? && !rounds[turns].aborted then turns + 1 else turns;
      && renewals == Renewals(rounds, n, renewEvery) && LeaseKept(rounds, n, pollEvery, renewEvery, late, turn)
      && |sleeps| == n && forall i :: 0 <= i < n ==> sleeps[i] == SleepOf(rounds, i, pollEvery, renewEvery)
  {
    hide Bound, DeliveryStatus, Timely, LeaseKept;
    forall n | 0 <= n <= |rounds|
      ensures LeaseKept(rounds, n, pollEvery, renewEvery, late, turn)
    {
      LeaseIsKept(rounds, n, pollEvery, renewEvery, late, turn);
    }
    var job := Some(initial);
    var renewAt: nat := 0;
    turns, renewals, sleeps := 0, [], [];
    while job.Some?
      invariant turns <= |rounds| && job == Seen(initial, rounds, turns)
      invariant forall i :: 0 <= i < turns ==> GoesThrough(k, initial, expected, rounds, i, renewEvery)
      invariant renewAt == DueAt(rounds, turns, renewEvery) && renewals == Renewals(rounds, turns, renewEvery)
      invariant |sleeps| == turns && forall i :: 0 <= i < turns ==> sleeps[i] == SleepOf(rounds, i, pollEvery, renewEvery)
      decreases |rounds| - turns
    {
      if expected.Some? && !Bound(k, job.value, expected.value) {
        return Settled(NeedsReview), turns, renewals, sleeps;
      }
      var terminal := DeliveryStatus(job.value);
      if terminal.Some? {
        return Settled(terminal.value), turns, renewals, sleeps;
      }
      if turns == |rounds| {
        return StillWaiting, turns, renewals, sleeps;
      }
      var r := rounds[turns];
      if r.aborted {
        return Aborted, turns, renewals, sleeps;
      }
      if r.check >= renewAt {
        if !r.renews {
          return LeaseLost, turns, renewals, sleeps;
        }
        renewals := renewals + [r.renewed];
        renewAt := r.renewed + renewEvery;
      }
      sleeps := sleeps + [Min(pollEvery, Max(1, renewAt - r.sleep))];
      if r.interrupted {
        return Aborted, turns, renewals, sleeps;
      }
      job := r.next;
      turns := turns + 1;
    }
    return Settled(NeedsReview), turns, renewals, sleeps;
  }

  // ---------- Agreement ----------

  /** The durable history of a job: the snapshot in the store at every moment. */
  type History = nat -> Job

  /** Terminal states are absorbing and the binding of a job never changes. */
  ghost predicate Durable(h: History) {
    forall s: nat, t: nat :: s <= t ==>
      && h(t).id == h(s).id && h(t).payload == h(s).payload
      && h(t).requestHash == h(s).requestHash && h(t).retrySafe == h(s).retrySafe
      && (DeliveryStatus(h(s)).Some? ==> h(t).status == h(s).status)
  }

  /** A waiter that looks at the job at increasing moments, with any gaps and across restarts. */
  ghost predicate Watches(h: History, initial: Job, rounds: seq<Round>, moments: seq<nat>) {
    && |moments| == |rounds| + 1
    && (forall i, j :: 0 <= i < j < |moments| ==> moments[i] <= moments[j])
    && initial == h(moments[0])
    && forall i :: 0 <= i < |rounds| ==> rounds[i].next == Some(h(moments[i + 1]))
  }

  lemma BindingIsImmutable(k: Kernel, a: Job, b: Job, r: Request)
    requires a.id == b.id && a.payload == b.payload && a.requestHash == b.requestHash && a.retrySafe == b.retrySafe
    ensures Bound(k, a, r) == Bound(k, b, r)
  {
    hide IdentifiersMatch, SameCanonical;
  }

  /** Verdicts on one durable job agree, whenever they are reached. */
  lemma VerdictsAgree(k: Kernel, expected: Option<Request>, h: History, s: nat, t: nat)
    requires Durable(h)
    requires Verdict(k, expected, Some(h(s))).Some? && Verdict(k, expected, Some(h(t))).Some?
    ensures Verdict(k, expected, Some(h(s))) == Verdict(k, expected, Some(h(t)))
  {
    hide Bound;
    if expected.Some? {
      if s <= t { BindingIsImmutable(k, h(s), h(t), expected.value); } else { BindingIsImmutable(k, h(t), h(s), expected.value); }
    }
  }

  /** Any two waiters on the job, whatever their polling, settle the delivery the same way. */
  lemma WaitersAgree(k: Kernel, expected: Option<Request>, h: History,
                     a: Job, ra: seq<Round>, ma: seq<nat>, da: Delivery, i: nat,
                     b: Job, rb: seq<Round>, mb: seq<nat>, db: Delivery, j: nat)
    requires Durable(h) && Watches(h, a, ra, ma) && Watches(h, b, rb, mb)
    requires i <= |ra| && Verdict(k, expected, Seen(a, ra, i)) == Some(da)
    requires j <= |rb| && Verdict(k, expected, Seen(b, rb, j)) == Some(db)
    ensures da == db
  {
    hide Verdict;
    assert Seen(a, ra, i) == Some(h(ma[i]));
    assert Seen(b, rb, j) == Some(h(mb[j]));
    VerdictsAgree(k, expected, h, ma[i], mb[j]);
  }
}
