/**
 Whole runs of the subscriber. A world is the table, the scheduler's next tick and
 what is in flight; an event is one atomic step of some task. Verification and the
 scheduler's tick come both as one step and split at every point where others can get between.
 */
module Runs {
  import opened Prelude
  import opened Subscriptions
  import opened Protocol
  import opened Db
  import opened Handle
  import opened Service

  /** A verification past the inactive check, before its transaction. */
  datatype Verification = Verification(id: U64, at: Pair, expiresAt: I64)

  /** What the renewal task is about to do: nothing, query the least expiry, or store its answer. */
  datatype Task = Idle | Querying | Storing(answer: Option<U64>)

  datatype World = World(
    margin: U64,
    now: U64,
    table: Table,
    used: set<U64>,
    nextTick: U64,
    inFlight: multiset<Verification>,
    task: Task,
    recent: set<U64>)  // the ids activated since the task last queried

  datatype Event =
    | Advance(to: U64)
    | Subscribed(id: U64, hub: string, topic: string, secret: string)
    | Unsubscribed(id: U64, hub: string, topic: string)
    | Renewal(turns: seq<Turn>)
    | Verified(id: U64, at: Pair, lease: U64, removed: seq<U64>)
    | Ticked(turns: seq<Turn>, expiry: Option<I64>)
    | Checked(id: U64, at: Pair, lease: U64)
    | CommittedLate(v: Verification, removed: seq<U64>)
    | TickRenewed(turns: seq<Turn>)
    | TickRead(expiry: Option<I64>)
    | TickStored

  predicate Serialised(e: Event) {
    !e.Checked? && !e.CommittedLate? && !e.TickRenewed? && !e.TickRead? && !e.TickStored?
  }

  predicate Renews(e: Event) {
    e.Renewal? || e.Ticked? || e.TickRenewed?
  }

  function Threshold(w: World): int {
    w.now + w.margin + 1
  }

  predicate Inactive(t: Table, id: U64, p: Pair) {
    id in t && t[id].At() == p && !t[id].Active()
  }

  ghost predicate Enabled(w: World, e: Event) {
    match e
    case Advance(to) => w.now <= to && ClockInRange(to, w.margin)
    case Subscribed(id, _, _, _) => id !in w.used
    case Unsubscribed(_, _, _) => true
    case Renewal(turns) => ValidRenewals(w.table, w.used, Threshold(w), turns)
    case Verified(id, p, _, removed) => Inactive(w.table, id, p) && Lists(removed, OldIds(w.table, id, p))
    case Ticked(turns, expiry) => w.task.Idle? && CanTick(w, turns, expiry)
    case Checked(id, p, _) => Inactive(w.table, id, p)
    case CommittedLate(v, removed) => v in w.inFlight && Lists(removed, OldIds(w.table, v.id, v.at))
    case TickRenewed(turns) => w.task.Idle? && ValidRenewals(w.table, w.used, Threshold(w), turns)
    case TickRead(expiry) => w.task.Querying? && IsNextExpiry(w.table, expiry)
    case TickStored => w.task.Storing?
  }

  ghost predicate CanTick(w: World, turns: seq<Turn>, expiry: Option<I64>) {
    && ValidRenewals(w.table, w.used, Threshold(w), turns)
    && DueIds(turns, |turns|) <= w.table.Keys
    && IsNextExpiry(Renewed(w.table, Threshold(w), turns), expiry)
  }

  function AfterRenewal(w: World, turns: seq<Turn>): World {
    if DueIds(turns, |turns|) <= w.table.Keys then
      w.(table := Renewed(w.table, Threshold(w), turns), used := w.used + BornIds(turns, |turns|))
    else w
  }

  /** The hastened time, wrapping below zero where the clock assumption does not hold. */
  function RefreshOf(w: World, lease: U64): U64 {
    var expiresAt := Expiry(w.now, lease);
    if w.margin <= expiresAt then expiresAt - w.margin else expiresAt - w.margin + U64_COUNT
  }

  function Next(w: World, e: Event): World {
    match e
    case Advance(to) => w.(now := to)
    case Subscribed(id, hub, topic, secret) =>
      w.(table := Inserted(w.table, id, hub, topic, secret), used := w.used + {id})
    case Unsubscribed(id, _, _) => w.(table := w.table - {id})
    case Renewal(turns) => AfterRenewal(w, turns)
    case Verified(id, p, lease, _) =>
      w.(table := Committed(w.table, id, p, Expiry(w.now, lease)), nextTick := Min(w.nextTick, RefreshOf(w, lease)),
         recent := w.recent + {id})
    case Ticked(turns, expiry) =>
      AfterRenewal(w, turns).(nextTick := Encode(TickAnswer(expiry, w.margin)), recent := {})
    case Checked(id, p, lease) =>
      w.(inFlight := w.inFlight + multiset{Verification(id, p, Expiry(w.now, lease))}, nextTick := Min(w.nextTick, RefreshOf(w, lease)))
    case CommittedLate(v, _) =>
      w.(table := Committed(w.table, v.id, v.at, v.expiresAt), inFlight := w.inFlight - multiset{v}, recent := w.recent + {v.id})
    case TickRenewed(turns) => AfterRenewal(w, turns).(task := Querying)
    case TickRead(expiry) => w.(task := Storing(TickAnswer(expiry, w.margin)), recent := {})
    case TickStored =>
      w.(nextTick := if w.task.Storing? then Encode(w.task.answer) else w.nextTick, task := Idle)
  }

  /** The forms an event sends. */
  function Sent(w: World, e: Event): seq<Form> {
    match e
    case Subscribed(id, hub, topic, secret) => [Form.Subscribe(id, hub, topic, secret)]
    case Unsubscribed(id, hub, topic) => [Form.Unsubscribe(id, hub, topic)]
    case Renewal(turns) => if DueIds(turns, |turns|) <= w.table.Keys then RenewalForms(w.table, turns) else []
    case Ticked(turns, _) => if DueIds(turns, |turns|) <= w.table.Keys then RenewalForms(w.table, turns) else []
    case TickRenewed(turns) => if DueIds(turns, |turns|) <= w.table.Keys then RenewalForms(w.table, turns) else []
    case Verified(_, p, _, removed) => UnsubscribeForms(removed, p)
    case CommittedLate(v, removed) => UnsubscribeForms(removed, v.at)
    case _ => []
  }

  ghost predicate Legal(w: World, es: seq<Event>)
    decreases |es|
  {
    ClockInRange(w.now, w.margin) &&
    (es == [] || (Enabled(w, es[0]) && Legal(Next(w, es[0]), es[1..])))
  }

  ghost function After(w: World, es: seq<Event>): World
    requires Legal(w, es)
    decreases |es|
  {
    if es == [] then w else After(Next(w, es[0]), es[1..])
  }

  lemma {:induction false} RunCons(w: World, e: Event, es: seq<Event>)
    requires ClockInRange(w.now, w.margin) && Enabled(w, e) && Legal(Next(w, e), es)
    ensures Legal(w, [e] + es) && After(w, [e] + es) == After(Next(w, e), es)
  {
    assert ([e] + es)[1..] == es;
  }

  // ----- The steps that are split -----

  /** A check and its commit with nothing in between are the verification as one step. */
  lemma {:induction false} VerificationInTwo(w: World, id: U64, p: Pair, lease: U64, removed: seq<U64>)
    requires ClockInRange(w.now, w.margin) && Enabled(w, Verified(id, p, lease, removed))
    ensures var v := Verification(id, p, Expiry(w.now, lease));
      var es := [Checked(id, p, lease)] + ([CommittedLate(v, removed)] + []);
      && Legal(w, es) && After(w, es) == Next(w, Verified(id, p, lease, removed))
      && Sent(Next(w, es[0]), es[1]) == Sent(w, Verified(id, p, lease, removed))
  {
    var v := Verification(id, p, Expiry(w.now, lease));
    var check, commit := Checked(id, p, lease), CommittedLate(v, removed);
    var w1 := Next(w, check);
    assert w.inFlight + multiset{v} - multiset{v} == w.inFlight;
    RunCons(w1, commit, []);
    RunCons(w, check, [commit] + []);
  }

  /** A renewal, a query and a store with nothing in between are the tick as one step. */
  lemma {:induction false} TickInThree(w: World, turns: seq<Turn>, expiry: Option<I64>)
    requires ClockInRange(w.now, w.margin) && Enabled(w, Ticked(turns, expiry))
    ensures var es := [TickRenewed(turns)] + ([TickRead(expiry)] + ([TickStored] + []));
      && Legal(w, es) && After(w, es) == Next(w, Ticked(turns, expiry))
      && Sent(w, es[0]) == Sent(w, Ticked(turns, expiry))
  {
    var w1 := Next(w, TickRenewed(turns));
    var w2 := Next(w1, TickRead(expiry));
    RunCons(w2, TickStored, []);
    RunCons(w1, TickRead(expiry), [TickStored] + []);
    RunCons(w, TickRenewed(turns), [TickRead(expiry)] + ([TickStored] + []));
  }

  // ----- What every reachable world satisfies -----

  ghost predicate Sound(w: World) {
    && ClockInRange(w.now, w.margin)
    && w.table.Keys <= w.used
    && (forall v :: v in w.inFlight ==> v.id in w.used && (v.id in w.table ==> w.table[v.id].At() == v.at))
    && (forall v :: v in w.inFlight ==> w.margin <= v.expiresAt)
    && (!w.task.Idle? ==> NoneBelow(w.table, w.margin))
  }

  /** No active row has an expiry that the margin could be subtracted from with an underflow. */
  ghost predicate NoneBelow(t: Table, margin: U64) {
    forall id :: id in ActiveIds(t) ==> margin <= t[id].expiresAt.value
  }

  /** A world as `build_service` finds it: any table, nothing in flight, the first tick stored. */
  ghost predicate Initial(w: World) {
    && ClockInRange(w.now, w.margin)
    && w.table.Keys <= w.used
    && w.inFlight == multiset{} && w.task.Idle?
    && exists expiry :: IsNextExpiry(w.table, expiry) && w.nextTick == Encode(FirstTick(expiry, w.margin))
  }

  lemma {:induction false} RenewalStepSound(w: World, turns: seq<Turn>)
    requires Sound(w) && ValidRenewals(w.table, w.used, Threshold(w), turns)
    ensures Sound(AfterRenewal(w, turns)) && NoneBelow(AfterRenewal(w, turns).table, w.margin)
  {
    RenewalExact(w.table, w.used, Threshold(w), turns);
    var t' := Renewed(w.table, Threshold(w), turns);
    forall id | id in ActiveIds(t') ensures w.margin <= t'[id].expiresAt.value {
      assert id !in ExpiringIds(t', Threshold(w));
    }
  }

  lemma {:induction false} CommitStepSound(w: World, id: U64, p: Pair, expiresAt: I64)
    requires Sound(w) && (id in w.table ==> w.table[id].At() == p) && w.margin <= expiresAt
    ensures Sound(w.(table := Committed(w.table, id, p, expiresAt)))
  {
    CommitExact(w.table, id, p, expiresAt);
    var t' := Committed(w.table, id, p, expiresAt);
    forall other | other in t' ensures other in w.table && t'[other].At() == w.table[other].At() {
    }
  }

  lemma {:induction false} StepSound(w: World, e: Event)
    requires Sound(w) && Enabled(w, e)
    ensures Sound(Next(w, e))
  {
    match e {
      case Renewal(turns) => RenewalStepSound(w, turns);
      case Ticked(turns, _) => RenewalStepSound(w, turns);
      case TickRenewed(turns) => RenewalStepSound(w, turns);
      case Verified(id, p, lease, _) => CommitStepSound(w, id, p, Expiry(w.now, lease));
      case CommittedLate(v, _) => CommitStepSound(w, v.id, v.at, v.expiresAt);
      case Checked(id, p, lease) => RefreshNeverUnderflowsIff(w.now, w.margin);
      case Advance(_) =>
      case Subscribed(_, _, _, _) =>
      case Unsubscribed(_, _, _) =>
      case TickRead(_) =>
      case TickStored =>
    }
  }

  // ----- One active row a pair -----

  lemma {:induction false} CommitKeepsOneActive(t: Table, id: U64, at: Pair, expiresAt: I64, p: Pair)
    requires OneActiveAt(t, p) && (id in t ==> t[id].At() == at)
    ensures OneActiveAt(Committed(t, id, at, expiresAt), p)
  {
    var t' := Committed(t, id, at, expiresAt);
    forall a, b | a in ActiveIds(t') && b in ActiveIds(t') && t'[a].At() == p == t'[b].At()
      ensures a == b
    {
      if a != id && b != id {
        assert a in ActiveIds(t) && b in ActiveIds(t);
      }
    }
  }

  lemma {:induction false} RenewalKeepsOneActive(t: Table, used: set<U64>, before: int, turns: seq<Turn>, p: Pair)
    requires OneActiveAt(t, p) && t.Keys <= used && ValidRenewals(t, used, before, turns)
    ensures DueIds(turns, |turns|) <= t.Keys && OneActiveAt(Renewed(t, before, turns), p)
  {
    RenewalExact(t, used, before, turns);
    var t' := Renewed(t, before, turns);
    forall a, b | a in ActiveIds(t') && b in ActiveIds(t') && t'[a].At() == p == t'[b].At()
      ensures a == b
    {
      assert a in ActiveIds(t) && b in ActiveIds(t);
    }
  }

  lemma {:induction false} StepKeepsOneActive(w: World, e: Event, p: Pair)
    requires Sound(w) && Enabled(w, e) && OneActiveAt(w.table, p)
    ensures OneActiveAt(Next(w, e).table, p)
  {
    match e {
      case Renewal(turns) => RenewalKeepsOneActive(w.table, w.used, Threshold(w), turns, p);
      case Ticked(turns, _) => RenewalKeepsOneActive(w.table, w.used, Threshold(w), turns, p);
      case TickRenewed(turns) => RenewalKeepsOneActive(w.table, w.used, Threshold(w), turns, p);
      case Verified(id, at, lease, _) => CommitKeepsOneActive(w.table, id, at, Expiry(w.now, lease), p);
      case CommittedLate(v, _) => CommitKeepsOneActive(w.table, v.id, v.at, v.expiresAt, p);
      case Subscribed(_, _, _, _) => assert ActiveIds(Next(w, e).table) == ActiveIds(w.table);
      case Unsubscribed(_, _, _) => assert ActiveIds(Next(w, e).table) <= ActiveIds(w.table);
      case _ =>
    }
  }

  /**
   In every run, whatever is interleaved between a check and its commit or within a tick: no two
   rows of one (hub, topic) are ever active together, unless they were from the beginning.
   */
  lemma {:induction false} OneActiveInEveryRun(w: World, es: seq<Event>, p: Pair)
    requires Sound(w) && Legal(w, es) && OneActiveAt(w.table, p)
    ensures OneActiveAt(After(w, es).table, p)
    decreases |es|
  {
    if es != [] {
      StepSound(w, es[0]);
      StepKeepsOneActive(w, es[0], p);
      OneActiveInEveryRun(Next(w, es[0]), es[1..], p);
    }
  }

  /** The event commits a verification of the pair. */
  predicate Commits(e: Event, p: Pair) {
    (e.Verified? && e.at == p) || (e.CommittedLate? && e.v.at == p)
  }

  /** Whatever the table was, one commit settles its pair for good. */
  lemma {:induction false} OneActiveOnceCommitted(w: World, e: Event, es: seq<Event>, p: Pair)
    requires Sound(w) && Enabled(w, e) && Commits(e, p) && Legal(Next(w, e), es)
    ensures OneActiveAt(After(Next(w, e), es).table, p)
  {
    StepSound(w, e);
    var (id, expiresAt) := if e.Verified? then (e.id, Expiry(w.now, e.lease)) else (e.v.id, e.v.expiresAt);
    CommitExact(w.table, id, p, expiresAt);
    var t' := Next(w, e).table;
    assert forall a :: a in t' && t'[a].At() == p ==> a in PairIds(t', p);
    OneActiveInEveryRun(Next(w, e), es, p);
  }
}
