/**
 Runs under a clock. Polls of the renewal task and verifications are single steps, or split at
 every point where others can get between. A woken task is polled before time passes, time never
 gets more than `delay` past the armed deadline before the task is polled, and no tick takes longer.
 */
module Timed {
  import opened Prelude
  import opened Subscriptions
  import opened Protocol
  import opened Handle
  import opened Service
  import opened Scheduler
  import opened Runs
  import opened Coverage

  datatype Timed = Timed(
    world: World,
    sleep: Option<U64>,
    woken: bool,
    since: map<U64, U64>,  // when each id was last activated
    begun: U64)            // when the last split tick began

  datatype Move =
    | Do(event: Event)
    | Poll(turns: seq<Turn>, expiry: Option<I64>)
    | Begin(turns: seq<Turn>)  // a poll up to the renewal of its tick; its query and store are still to be done

  predicate Due(s: Timed) {
    var armed := Rearmed(s.sleep, s.world.nextTick);
    armed.Some? && armed.value <= s.world.now
  }

  /** Time may pass until `to`. */
  predicate CanPass(s: Timed, to: U64, delay: nat) {
    if s.world.task.Idle? then !s.woken && (s.sleep.Some? ==> to <= s.sleep.value + delay)
    else to <= s.begun + delay
  }

  ghost predicate CanMove(s: Timed, m: Move, delay: nat) {
    match m
    case Do(e) =>
      && !e.Ticked? && !e.TickRenewed? && Enabled(s.world, e)
      && (e.Advance? ==> CanPass(s, e.to, delay))
    case Poll(turns, expiry) => s.world.task.Idle? && (Due(s) ==> Enabled(s.world, Ticked(turns, expiry)))
    case Begin(turns) => Due(s) && Enabled(s.world, TickRenewed(turns))
  }

  function Activates(s: Timed, e: Event): map<U64, U64> {
    if e.Verified? then s.since[e.id := s.world.now]
    else if e.CommittedLate? then s.since[e.v.id := s.world.now]
    else s.since
  }

  function Moved(s: Timed, m: Move): Timed
    requires ClockInRange(s.world.now, s.world.margin)
  {
    match m
    case Do(e) =>
      var w' := Next(s.world, e);
      s.(world := w',
         sleep := if e.TickStored? then Decode(w'.nextTick) else s.sleep,
         woken := s.woken || (!e.TickStored? && w'.nextTick < s.world.nextTick),
         since := Activates(s, e))
    case Poll(turns, expiry) =>
      if Due(s) then
        s.(world := Next(s.world, Ticked(turns, expiry)), sleep := TickAnswer(expiry, s.world.margin), woken := false)
      else
        s.(sleep := Rearmed(s.sleep, s.world.nextTick), woken := false)
    case Begin(turns) =>
      s.(world := Next(s.world, TickRenewed(turns)), sleep := Rearmed(s.sleep, s.world.nextTick), woken := false,
        begun := s.world.now)
  }

  ghost predicate LegalMoves(s: Timed, ms: seq<Move>, delay: nat)
    decreases |ms|
  {
    ClockInRange(s.world.now, s.world.margin) &&
    (ms == [] || (CanMove(s, ms[0], delay) && LegalMoves(Moved(s, ms[0]), ms[1..], delay)))
  }

  ghost function AfterMoves(s: Timed, ms: seq<Move>, delay: nat): Timed
    requires LegalMoves(s, ms, delay)
    decreases |ms|
  {
    if ms == [] then s else AfterMoves(Moved(s, ms[0]), ms[1..], delay)
  }

  /** Start-up: the first sleep follows the first tick, and the task is about to be polled. */
  ghost predicate InitialTimed(s: Timed) {
    && Initial(s.world) && s.sleep == Decode(s.world.nextTick) && s.woken
    && s.since == map id | id in ActiveIds(s.world.table) :: s.world.now
  }

  /** The last second at which an active row may still be waiting for its renewal. */
  function Deadline(t: Table, since: U64, margin: U64, id: U64, delay: nat): nat
    requires id in ActiveIds(t)
  {
    Max(since, SaturatingSub(t[id].expiresAt.value, margin)) + delay
  }

  ghost predicate Timely(s: Timed, delay: nat) {
    forall id :: id in ActiveIds(s.world.table) ==>
      id in s.since && s.world.now <= Deadline(s.world.table, s.since[id], s.world.margin, id, delay)
  }

  ghost predicate InStep(s: Timed) {
    && Ahead(s.sleep, s.world.nextTick)
    && (!s.woken ==> s.sleep == Decode(s.world.nextTick))
  }

  lemma {:induction false} MoveInStep(s: Timed, m: Move, delay: nat)
    requires Sound(s.world) && InStep(s) && CanMove(s, m, delay)
    ensures Sound(Moved(s, m).world) && InStep(Moved(s, m)) && Moved(s, m).world.margin == s.world.margin
  {
    RearmedFollowsNextTick(s.sleep, s.world.nextTick);
    match m {
      case Do(e) => StepSound(s.world, e);
      case Poll(turns, expiry) =>
        if Due(s) {
          StepSound(s.world, Ticked(turns, expiry));
          NoScheduledTimeIsTheSentinel(s.world, Ticked(turns, expiry));
        }
      case Begin(turns) => StepSound(s.world, TickRenewed(turns));
    }
  }

  /** While a tick is at work, no active row was due or activated before it began. */
  ghost predicate AtWork(s: Timed) {
    !s.world.task.Idle? ==>
      && s.begun <= s.world.now
      && forall id :: id in ActiveIds(s.world.table) && id in s.since ==>
           s.begun <= Deadline(s.world.table, s.since[id], s.world.margin, id, 0)
  }

  lemma {:induction false} BeginAtWork(s: Timed, turns: seq<Turn>)
    requires Sound(s.world) && Enabled(s.world, TickRenewed(turns))
    ensures AtWork(Moved(s, Begin(turns)))
  {
    RenewalExact(s.world.table, s.world.used, Threshold(s.world), turns);
    var t' := Next(s.world, TickRenewed(turns)).table;
    forall id | id in ActiveIds(t') && id in s.since
      ensures s.world.now <= Deadline(t', s.since[id], s.world.margin, id, 0)
    {
      assert id !in ExpiringIds(t', Threshold(s.world));
    }
  }

  lemma {:induction false} MoveAtWork(s: Timed, m: Move, delay: nat)
    requires Sound(s.world) && AtWork(s) && Timely(s, delay) && CanMove(s, m, delay)
    ensures AtWork(Moved(s, m))
  {
    match m {
      case Begin(turns) => BeginAtWork(s, turns);
      case Poll(_, _) =>
      case Do(e) =>
        var t, t', since := s.world.table, Next(s.world, e).table, Activates(s, e);
        if Renews(e) { RenewalExact(t, s.world.used, Threshold(s.world), e.turns); }
        forall id | id in ActiveIds(t') && id in since && !s.world.task.Idle?
          ensures s.begun <= Deadline(t', since[id], s.world.margin, id, 0)
        {
          if !(e.Verified? && id == e.id) && !(e.CommittedLate? && id == e.v.id) {
            assert id in ActiveIds(t) && t'[id] == t[id];
          }
        }
    }
  }

  /** Rows that were active keep their expiry, and the only new one is activated now. */
  lemma {:induction false} StepKeepsTimely(s: Timed, e: Event, delay: nat)
    requires Sound(s.world) && Timely(s, delay) && Enabled(s.world, e) && !e.Advance?
    ensures Timely(s.(world := Next(s.world, e), since := Activates(s, e)), delay)
  {
    var t, t', since := s.world.table, Next(s.world, e).table, Activates(s, e);
    if Renews(e) { RenewalExact(t, s.world.used, Threshold(s.world), e.turns); }
    forall id | id in ActiveIds(t')
      ensures id in since && s.world.now <= Deadline(t', since[id], s.world.margin, id, delay)
    {
      if !(e.Verified? && id == e.id) && !(e.CommittedLate? && id == e.v.id) {
        assert id in ActiveIds(t) && t'[id] == t[id];
      }
    }
  }

  lemma {:induction false} AdvanceKeepsTimely(s: Timed, to: U64, delay: nat)
    requires Sound(s.world) && Covered(s.world) && InStep(s) && AtWork(s) && Timely(s, delay)
    requires CanMove(s, Do(Advance(to)), delay)
    ensures Timely(Moved(s, Do(Advance(to))), delay)
  {
    forall id | id in ActiveIds(s.world.table)
      ensures id in s.since && to <= Deadline(s.world.table, s.since[id], s.world.margin, id, delay)
    {
      assert CoveredRow(s.world.table, s.world.nextTick, s.world.margin, id);
    }
  }

  /** What the move does to the world. */
  function EventOf(s: Timed, m: Move): Event {
    match m
    case Do(e) => e
    case Poll(turns, expiry) => if Due(s) then Ticked(turns, expiry) else Advance(s.world.now)
    case Begin(turns) => TickRenewed(turns)
  }

  lemma {:induction false} MovedWorld(s: Timed, m: Move, delay: nat)
    requires ClockInRange(s.world.now, s.world.margin) && CanMove(s, m, delay)
    ensures Enabled(s.world, EventOf(s, m)) && Moved(s, m).world == Next(s.world, EventOf(s, m))
  {
  }

  /** A timed run as good as its clock: covered, in step with the next tick, and not late for any row. */
  ghost predicate OnTime(s: Timed, delay: nat) {
    && Sound(s.world) && Covered(s.world) && AnswerFits(s.world) && InStep(s) && AtWork(s) && Timely(s, delay)
  }

  lemma {:induction false} InitialOnTime(s: Timed, delay: nat)
    requires InitialTimed(s)
    ensures OnTime(s, delay)
  {
    InitialCovered(s.world);
  }

  lemma {:induction false} MoveOnTime(s: Timed, m: Move, delay: nat)
    requires OnTime(s, delay) && CanMove(s, m, delay) && Guarded(s.world, EventOf(s, m))
    ensures OnTime(Moved(s, m), delay)
  {
    MoveInStep(s, m, delay);
    MovedWorld(s, m, delay);
    StepCoveredIff(s.world, EventOf(s, m));
    MoveAtWork(s, m, delay);
    MoveTimely(s, m, delay);
  }

  lemma {:induction false} MoveTimely(s: Timed, m: Move, delay: nat)
    requires Sound(s.world) && Covered(s.world) && InStep(s) && AtWork(s) && Timely(s, delay) && CanMove(s, m, delay)
    ensures Timely(Moved(s, m), delay)
  {
    MovedWorld(s, m, delay);
    if m.Do? && m.event.Advance? {
      AdvanceKeepsTimely(s, m.event.to, delay);
    } else if !(m.Poll? && !Due(s)) {
      StepKeepsTimely(s, EventOf(s, m), delay);
    }
  }

  /** Every move is guarded, so that coverage is never lost. */
  ghost predicate GuardedMoves(s: Timed, ms: seq<Move>, delay: nat)
    requires LegalMoves(s, ms, delay)
    decreases |ms|
  {
    ms == [] || (Guarded(s.world, EventOf(s, ms[0])) && GuardedMoves(Moved(s, ms[0]), ms[1..], delay))
  }

  /**
   Timely renewal: in every timed run whose steps are guarded, no row is still active more than
   `delay` past the later of its activation and its refresh time. By then it has been renewed, or
   deleted.
   */
  lemma {:induction false} TimelyInEveryRun(s: Timed, ms: seq<Move>, delay: nat)
    requires OnTime(s, delay) && LegalMoves(s, ms, delay) && GuardedMoves(s, ms, delay)
    ensures OnTime(AfterMoves(s, ms, delay), delay)
    ensures AfterMoves(s, ms, delay).world.margin == s.world.margin
    decreases |ms|
  {
    if ms != [] {
      MoveInStep(s, ms[0], delay);
      MoveOnTime(s, ms[0], delay);
      TimelyInEveryRun(Moved(s, ms[0]), ms[1..], delay);
    }
  }

  ghost predicate KeptApartMoves(s: Timed, ms: seq<Move>, delay: nat)
    requires LegalMoves(s, ms, delay)
    decreases |ms|
  {
    ms == [] || (KeepsApart(s.world, EventOf(s, ms[0])) && KeptApartMoves(Moved(s, ms[0]), ms[1..], delay))
  }

  lemma {:induction false} KeptApartMovesAreGuarded(s: Timed, ms: seq<Move>, delay: nat)
    requires Sound(s.world) && Apart(s.world) && InStep(s) && LegalMoves(s, ms, delay) && KeptApartMoves(s, ms, delay)
    ensures GuardedMoves(s, ms, delay)
    decreases |ms|
  {
    if ms != [] {
      MovedWorld(s, ms[0], delay);
      MoveInStep(s, ms[0], delay);
      StepApart(s.world, EventOf(s, ms[0]));
      KeptApartMovesAreGuarded(Moved(s, ms[0]), ms[1..], delay);
    }
  }

  lemma {:induction false} TimelyFromStartUp(s: Timed, ms: seq<Move>, delay: nat)
    requires InitialTimed(s) && LegalMoves(s, ms, delay) && GuardedMoves(s, ms, delay)
    ensures var s' := AfterMoves(s, ms, delay); forall id :: id in ActiveIds(s'.world.table) ==>
      && id in s'.since && s'.world.margin == s.world.margin
      && s'.world.now <= Max(s'.since[id], SaturatingSub(s'.world.table[id].expiresAt.value, s.world.margin)) + delay
  {
    InitialOnTime(s, delay);
    TimelyInEveryRun(s, ms, delay);
  }

  /** From start-up on, verifications and ticks may be split in any way that keeps them from overlapping. */
  lemma {:induction false} TimelyWhenKeptApart(s: Timed, ms: seq<Move>, delay: nat)
    requires InitialTimed(s) && LegalMoves(s, ms, delay) && KeptApartMoves(s, ms, delay)
    ensures var s' := AfterMoves(s, ms, delay); forall id :: id in ActiveIds(s'.world.table) ==>
      && id in s'.since && s'.world.margin == s.world.margin
      && s'.world.now <= Max(s'.since[id], SaturatingSub(s'.world.table[id].expiresAt.value, s.world.margin)) + delay
  {
    InitialOnTime(s, delay);
    InitialCovered(s.world);
    KeptApartMovesAreGuarded(s, ms, delay);
    TimelyFromStartUp(s, ms, delay);
  }

  /** Runs in which nothing is split never overlap. */
  lemma {:induction false} SerialisedMovesAreKeptApart(s: Timed, ms: seq<Move>, delay: nat)
    requires LegalMoves(s, ms, delay) && s.world.inFlight == multiset{} && s.world.task.Idle?
    requires forall m :: m in ms ==> !m.Begin? && (m.Do? ==> Serialised(m.event))
    ensures KeptApartMoves(s, ms, delay)
    decreases |ms|
  {
    if ms != [] {
      assert ms[0] in ms;
      MovedWorld(s, ms[0], delay);
      SerialisedMovesAreKeptApart(Moved(s, ms[0]), ms[1..], delay);
    }
  }

  /** A lease that outlasts the delay is never left to run out while the row counts as active. */
  lemma {:induction false} NoActiveRowExpires(s: Timed, ms: seq<Move>, delay: nat, id: U64)
    requires InitialTimed(s) && LegalMoves(s, ms, delay) && GuardedMoves(s, ms, delay) && delay < s.world.margin
    requires id in ActiveIds(AfterMoves(s, ms, delay).world.table)
    ensures var s' := AfterMoves(s, ms, delay); var expiresAt := s'.world.table[id].expiresAt.value;
      id in s'.since && (s'.since[id] + delay < expiresAt ==> s'.world.now < expiresAt)
  {
    InitialOnTime(s, delay);
    TimelyInEveryRun(s, ms, delay);
  }

  /**
   Without coverage there is no such bound: while the task sleeps past the refresh time of a row,
   as it does for ever after a lost hasten with no other row, time may pass its deadline.
   */
  lemma {:induction false} UncoveredRowCanBeLate(s: Timed, id: U64, to: U64, delay: nat)
    requires Sound(s.world) && InStep(s) && s.world.task.Idle? && !s.woken
    requires id in ActiveIds(s.world.table) && id in s.since
    requires Deadline(s.world.table, s.since[id], s.world.margin, id, delay) < to
    requires s.world.nextTick != U64_MAX ==> to <= s.world.nextTick + delay
    requires s.world.now <= to && ClockInRange(to, s.world.margin)
    ensures !CoveredRow(s.world.table, s.world.nextTick, s.world.margin, id)
    ensures LegalMoves(s, [Do(Advance(to))] + [], delay)
    ensures !Timely(AfterMoves(s, [Do(Advance(to))] + [], delay), delay)
  {
    var m := Do(Advance(to));
    assert ([m] + [])[1..] == [];
    assert CanMove(s, m, delay) && LegalMoves(Moved(s, m), [], delay);
    assert AfterMoves(s, [m] + [], delay) == Moved(s, m);
    assert id in ActiveIds(Moved(s, m).world.table);
  }

  // ----- How often the task ticks -----

  ghost function TickCount(s: Timed, ms: seq<Move>, delay: nat): nat
    requires LegalMoves(s, ms, delay)
    decreases |ms|
  {
    if ms == [] then 0
    else (if ms[0].Poll? && Due(s) then 1 else 0) + TickCount(Moved(s, ms[0]), ms[1..], delay)
  }

  lemma {:induction false} TickIsAfterNextTick(s: Timed)
    requires InStep(s) && Due(s)
    ensures s.world.nextTick <= s.world.now && s.world.nextTick != U64_MAX
  {
    RearmedFollowsNextTick(s.sleep, s.world.nextTick);
  }

  /** Nothing is hastened, and no tick is split. */
  predicate Undisturbed(m: Move) {
    !m.Begin? && (m.Do? ==> !m.event.Verified? && !m.event.Checked?)
  }

  /**
   Tick progress: with nothing hastened, the first tick waits for the stored time and each one
   after it comes at least two seconds later; with no tick stored there is none.
   */
  lemma {:induction false} TicksAreSpaced(s: Timed, ms: seq<Move>, delay: nat)
    requires Sound(s.world) && s.world.task.Idle? && InStep(s) && LegalMoves(s, ms, delay)
    requires forall m :: m in ms ==> Undisturbed(m)
    ensures var n, s' := TickCount(s, ms, delay), AfterMoves(s, ms, delay);
      && s.world.now <= s'.world.now
      && (n > 0 ==> Max(s.world.now, s.world.nextTick) + 2 * (n - 1) <= s'.world.now && s.world.nextTick != U64_MAX)
    decreases |ms|
  {
    if ms != [] {
      var m, s1 := ms[0], Moved(s, ms[0]);
      assert m in ms;
      MoveInStep(s, m, delay);
      TicksAreSpaced(s1, ms[1..], delay);
      if m.Poll? && Due(s) {
        TickIsAfterNextTick(s);
        NoScheduledTimeIsTheSentinel(s.world, Ticked(m.turns, m.expiry));
        assert s1.world.nextTick != U64_MAX ==> s.world.now + 2 <= s1.world.nextTick;
      } else {
        NextTickUnmoved(s, m, delay);
      }
    }
  }

  lemma {:induction false} NextTickUnmoved(s: Timed, m: Move, delay: nat)
    requires ClockInRange(s.world.now, s.world.margin) && s.world.task.Idle? && CanMove(s, m, delay)
    requires Undisturbed(m) && !(m.Poll? && Due(s))
    ensures Moved(s, m).world.nextTick == s.world.nextTick && s.world.now <= Moved(s, m).world.now
    ensures Moved(s, m).world.task.Idle?
  {
  }
}
