/** The scheduler's next tick against the table: no active row is due before it. */
module Coverage {
  import opened Prelude
  import opened Subscriptions
  import opened Protocol
  import opened Db
  import opened Handle
  import opened Service
  import opened Runs

  ghost predicate CoveredRow(t: Table, nextTick: U64, margin: U64, id: U64) {
    id in ActiveIds(t) ==> nextTick <= SaturatingSub(t[id].expiresAt.value, margin)
  }

  ghost predicate Covered(w: World) {
    forall id :: id in ActiveIds(w.table) ==> CoveredRow(w.table, w.nextTick, w.margin, id)
  }

  lemma {:induction false} InitialCovered(w: World)
    requires Initial(w)
    ensures Sound(w) && Covered(w) && AnswerFits(w) && Apart(w)
  {
    var expiry :| IsNextExpiry(w.table, expiry) && w.nextTick == Encode(FirstTick(expiry, w.margin));
    FirstTickCovers(w.table, expiry, w.margin);
  }

  lemma {:induction false} CommitCovers(t: Table, nextTick: U64, margin: U64, id: U64, p: Pair, expiresAt: I64)
    requires forall x :: x in ActiveIds(t) ==> CoveredRow(t, nextTick, margin, x)
    requires margin <= expiresAt && (id in t ==> t[id].At() == p)
    ensures var t' := Committed(t, id, p, expiresAt);
      forall x :: x in ActiveIds(t') ==> CoveredRow(t', Min(nextTick, expiresAt - margin), margin, x)
  {
    var t' := Committed(t, id, p, expiresAt);
    forall x | x in ActiveIds(t') ensures CoveredRow(t', Min(nextTick, expiresAt - margin), margin, x) {
      if x != id { assert x in ActiveIds(t) && t'[x] == t[x]; assert CoveredRow(t, nextTick, margin, x); }
    }
  }

  lemma {:induction false} RenewalCovers(t: Table, used: set<U64>, before: int, turns: seq<Turn>, nextTick: U64, margin: U64)
    requires t.Keys <= used && ValidRenewals(t, used, before, turns)
    requires forall x :: x in ActiveIds(t) ==> CoveredRow(t, nextTick, margin, x)
    ensures DueIds(turns, |turns|) <= t.Keys
    ensures var t' := Renewed(t, before, turns);
      forall x :: x in ActiveIds(t') ==> CoveredRow(t', nextTick, margin, x)
  {
    RenewalExact(t, used, before, turns);
    var t' := Renewed(t, before, turns);
    forall x | x in ActiveIds(t') ensures CoveredRow(t', nextTick, margin, x) {
      assert x in ActiveIds(t) && t'[x] == t[x];
      assert CoveredRow(t, nextTick, margin, x);
    }
  }

  lemma {:induction false} TickCovers(t: Table, used: set<U64>, now: U64, margin: U64, turns: seq<Turn>, expiry: Option<I64>)
    requires t.Keys <= used && ValidRenewals(t, used, now + margin + 1, turns) && DueIds(turns, |turns|) <= t.Keys
    requires IsNextExpiry(Renewed(t, now + margin + 1, turns), expiry)
    ensures var t' := Renewed(t, now + margin + 1, turns);
      forall x :: x in ActiveIds(t') ==> CoveredRow(t', Encode(TickAnswer(expiry, margin)), margin, x)
  {
    RenewedExpiryIsLate(t, used, now, margin, turns, expiry);
  }

  // ----- When a step keeps coverage -----

  /** The row is not due before the answer that the renewal task is about to store. */
  ghost predicate Awaited(w: World, id: U64) {
    w.task.Storing? ==> CoveredRow(w.table, Encode(w.task.answer), w.margin, id)
  }

  /** An answer is right for all rows but those activated since the query it comes from. */
  ghost predicate AnswerFits(w: World) {
    forall id :: id in ActiveIds(w.table) && id !in w.recent ==> Awaited(w, id)
  }

  /**
   What a step has to find for coverage to outlast it. A commit apart from its check has to find
   the next tick still not after the refresh time it hastened to; a store has to hold an answer not
   after the refresh time of any row activated since the query. No other step can go wrong.
   */
  ghost predicate Guarded(w: World, e: Event) {
    match e
    case CommittedLate(v, _) => v.id in w.table ==> w.nextTick <= v.expiresAt - w.margin
    case TickStored => forall id :: id in w.recent && id in ActiveIds(w.table) ==> Awaited(w, id)
    case _ => true
  }

  /** Whatever was covered before, each step keeps the answer of a tick right. */
  lemma {:induction false} StepAnswerFits(w: World, e: Event)
    requires Sound(w) && AnswerFits(w) && Enabled(w, e)
    ensures AnswerFits(Next(w, e))
  {
    var w' := Next(w, e);
    if Renews(e) { RenewalExact(w.table, w.used, Threshold(w), e.turns); }
    forall id | id in ActiveIds(w'.table) && id !in w'.recent ensures Awaited(w', id) {
      if w'.task.Storing? && !e.TickRead? {
        assert id in ActiveIds(w.table) && w'.table[id] == w.table[id] && Awaited(w, id);
      }
    }
  }

  lemma {:induction false} LateCommitCoversIff(w: World, v: Verification, removed: seq<U64>)
    requires Sound(w) && Covered(w) && Enabled(w, CommittedLate(v, removed))
    ensures Covered(Next(w, CommittedLate(v, removed))) <==> Guarded(w, CommittedLate(v, removed))
  {
    var e := CommittedLate(v, removed);
    if Guarded(w, e) {
      if v.id in w.table {
        CommitCovers(w.table, w.nextTick, w.margin, v.id, v.at, v.expiresAt);
      } else {
        CommitRemoves(w, v);
      }
    } else {
      assert v.id in ActiveIds(Next(w, e).table) && !CoveredRow(Next(w, e).table, w.nextTick, w.margin, v.id);
    }
  }

  lemma {:induction false} CommitRemoves(w: World, v: Verification)
    requires Covered(w) && v.id !in w.table
    ensures Covered(w.(table := Committed(w.table, v.id, v.at, v.expiresAt)))
  {
    var t' := Committed(w.table, v.id, v.at, v.expiresAt);
    forall x | x in ActiveIds(t') ensures CoveredRow(t', w.nextTick, w.margin, x) {
      assert x in ActiveIds(w.table) && CoveredRow(w.table, w.nextTick, w.margin, x);
    }
  }

  /** Also where coverage had been lost: a store restores it exactly if its answer allows for the recent rows. */
  lemma {:induction false} StoreCoversIff(w: World)
    requires Sound(w) && AnswerFits(w) && Enabled(w, TickStored)
    ensures Covered(Next(w, TickStored)) <==> Guarded(w, TickStored)
  {
    var w' := Next(w, TickStored);
    forall id | id in ActiveIds(w.table)
      ensures CoveredRow(w'.table, w'.nextTick, w'.margin, id) <==> Awaited(w, id)
    {
    }
    if Guarded(w, TickStored) {
      assert forall id :: id in ActiveIds(w.table) ==> Awaited(w, id);
    }
  }

  /** From any sound world, covered or not, a whole tick leaves every active row covered. */
  lemma {:induction false} TickRestoresCoverage(w: World, turns: seq<Turn>, expiry: Option<I64>)
    requires Sound(w) && Enabled(w, Ticked(turns, expiry))
    ensures Covered(Next(w, Ticked(turns, expiry)))
  {
    TickCovers(w.table, w.used, w.now, w.margin, turns, expiry);
  }

  /** No serialised step uncovers a row: not an insertion, a renewal, a deletion, nor the tick itself. */
  lemma {:induction false} StepCovered(w: World, e: Event)
    requires Sound(w) && Covered(w) && Enabled(w, e) && !e.CommittedLate? && !e.TickStored?
    ensures Covered(Next(w, e))
  {
    match e {
      case Renewal(turns) => RenewalCovers(w.table, w.used, Threshold(w), turns, w.nextTick, w.margin);
      case TickRenewed(turns) => RenewalCovers(w.table, w.used, Threshold(w), turns, w.nextTick, w.margin);
      case Ticked(turns, expiry) => TickRestoresCoverage(w, turns, expiry);
      case Verified(id, p, lease, _) =>
        CommitCovers(w.table, w.nextTick, w.margin, id, p, Expiry(w.now, lease));
      case Subscribed(id, hub, topic, secret) => InsertCovers(w, id, hub, topic, secret);
      case Unsubscribed(id, _, _) => DeleteCovers(w, id);
      case Checked(_, _, _) => HastenCovers(w, Next(w, e).nextTick);
      case TickRead(_) =>
      case Advance(_) =>
    }
  }

  lemma {:induction false} HastenCovers(w: World, earlier: U64)
    requires Covered(w) && earlier <= w.nextTick
    ensures Covered(w.(nextTick := earlier))
  {
    forall x | x in ActiveIds(w.table) ensures CoveredRow(w.table, earlier, w.margin, x) {
      assert CoveredRow(w.table, w.nextTick, w.margin, x);
    }
  }

  /** Any step of any run keeps coverage exactly if it is guarded. */
  lemma {:induction false} StepCoveredIff(w: World, e: Event)
    requires Sound(w) && Covered(w) && AnswerFits(w) && Enabled(w, e)
    ensures Covered(Next(w, e)) <==> Guarded(w, e)
    ensures AnswerFits(Next(w, e))
  {
    StepAnswerFits(w, e);
    match e {
      case CommittedLate(v, removed) => LateCommitCoversIff(w, v, removed);
      case TickStored => StoreCoversIff(w);
      case _ => StepCovered(w, e);
    }
  }

  lemma {:induction false} InsertCovers(w: World, id: U64, hub: string, topic: string, secret: string)
    requires Covered(w) && id !in w.table
    ensures Covered(w.(table := Inserted(w.table, id, hub, topic, secret)))
  {
    var t' := Inserted(w.table, id, hub, topic, secret);
    forall x | x in ActiveIds(t') ensures CoveredRow(t', w.nextTick, w.margin, x) {
      assert x in ActiveIds(w.table) && CoveredRow(w.table, w.nextTick, w.margin, x);
    }
  }

  lemma {:induction false} DeleteCovers(w: World, id: U64)
    requires Covered(w)
    ensures Covered(w.(table := w.table - {id}))
  {
    var t' := w.table - {id};
    forall x | x in ActiveIds(t') ensures CoveredRow(t', w.nextTick, w.margin, x) {
      assert x in ActiveIds(w.table) && CoveredRow(w.table, w.nextTick, w.margin, x);
    }
  }

  // ----- Coverage over runs -----

  /** Every active row is covered in every world of the run. */
  ghost predicate CoveredThroughout(w: World, es: seq<Event>)
    requires Legal(w, es)
    decreases |es|
  {
    Covered(w) && (es == [] || CoveredThroughout(Next(w, es[0]), es[1..]))
  }

  ghost predicate GuardedThroughout(w: World, es: seq<Event>)
    requires Legal(w, es)
    decreases |es|
  {
    es == [] || (Guarded(w, es[0]) && GuardedThroughout(Next(w, es[0]), es[1..]))
  }

  /**
   From start-up on, in every run with whatever interleaving: coverage is never lost exactly if
   every step of the run is guarded.
   */
  lemma {:induction false} CoveredThroughoutIff(w: World, es: seq<Event>)
    requires Sound(w) && Covered(w) && AnswerFits(w) && Legal(w, es)
    ensures CoveredThroughout(w, es) <==> GuardedThroughout(w, es)
    decreases |es|
  {
    if es != [] {
      var w' := Next(w, es[0]);
      StepSound(w, es[0]);
      StepCoveredIff(w, es[0]);
      if Covered(w') {
        CoveredThroughoutIff(w', es[1..]);
      } else {
        assert !CoveredThroughout(w', es[1..]);
      }
    }
  }

  lemma {:induction false} CoveredAtTheEnd(w: World, es: seq<Event>)
    requires Legal(w, es) && CoveredThroughout(w, es)
    ensures Covered(After(w, es))
    ensures After(w, es).nextTick == U64_MAX ==> ActiveIds(After(w, es).table) == {}
    decreases |es|
  {
    if es != [] {
      CoveredAtTheEnd(Next(w, es[0]), es[1..]);
    } else if id :| id in ActiveIds(w.table) {
      assert CoveredRow(w.table, w.nextTick, w.margin, id);
    }
  }

  /** In every serialised run every active row is covered by the next tick. */
  lemma {:induction false} CoveredInEverySerialisedRun(w: World, es: seq<Event>)
    requires Sound(w) && Covered(w) && AnswerFits(w) && Legal(w, es) && forall e :: e in es ==> Serialised(e)
    ensures CoveredThroughout(w, es) && Covered(After(w, es))
    ensures After(w, es).nextTick == U64_MAX ==> ActiveIds(After(w, es).table) == {}
  {
    SerialisedIsGuarded(w, es);
    CoveredThroughoutIff(w, es);
    CoveredAtTheEnd(w, es);
  }

  lemma {:induction false} SerialisedIsGuarded(w: World, es: seq<Event>)
    requires Legal(w, es) && forall e :: e in es ==> Serialised(e)
    ensures GuardedThroughout(w, es)
    decreases |es|
  {
    if es != [] {
      assert es[0] in es;
      SerialisedIsGuarded(Next(w, es[0]), es[1..]);
    }
  }

  /** No commit falls between a tick's query and its store, and no store between a hasten and its commit. */
  predicate KeepsApart(w: World, e: Event) {
    && (e.Verified? || e.CommittedLate? ==> !w.task.Storing?)
    && (e.Ticked? || e.TickStored? ==> w.inFlight == multiset{})
  }

  ghost predicate KeptApart(w: World, es: seq<Event>)
    requires Legal(w, es)
    decreases |es|
  {
    es == [] || (KeepsApart(w, es[0]) && KeptApart(Next(w, es[0]), es[1..]))
  }

  /** The next tick allows for what is hastened but not committed, and nothing was activated since the query. */
  ghost predicate Apart(w: World) {
    && (forall v :: v in w.inFlight ==> w.nextTick <= v.expiresAt - w.margin)
    && (w.task.Storing? ==> w.recent == {})
  }

  lemma {:induction false} StepApart(w: World, e: Event)
    requires Sound(w) && Apart(w) && Enabled(w, e) && KeepsApart(w, e)
    ensures Guarded(w, e) && Apart(Next(w, e))
  {
  }

  lemma {:induction false} KeptApartIsGuarded(w: World, es: seq<Event>)
    requires Sound(w) && Apart(w) && Legal(w, es) && KeptApart(w, es)
    ensures GuardedThroughout(w, es)
    decreases |es|
  {
    if es != [] {
      StepSound(w, es[0]);
      StepApart(w, es[0]);
      KeptApartIsGuarded(Next(w, es[0]), es[1..]);
    }
  }

  /** Split or not, verifications and ticks that do not overlap keep every active row covered. */
  lemma {:induction false} CoveredWhenKeptApart(w: World, es: seq<Event>)
    requires Sound(w) && Covered(w) && AnswerFits(w) && Apart(w) && Legal(w, es) && KeptApart(w, es)
    ensures CoveredThroughout(w, es)
  {
    KeptApartIsGuarded(w, es);
    CoveredThroughoutIff(w, es);
  }

  /** No time that is hastened, answered by a tick or stored is ever the sentinel for no tick. */
  lemma {:induction false} NoScheduledTimeIsTheSentinel(w: World, e: Event)
    requires Sound(w) && Enabled(w, e)
    ensures (e.Verified? || e.Checked?) ==> RefreshOf(w, e.lease) == Expiry(w.now, e.lease) - w.margin < U64_MAX
    ensures (e.Ticked? || e.TickRead?) ==>
      && (e.expiry.Some? ==> TickAnswer(e.expiry, w.margin) == Some(e.expiry.value - w.margin))
      && TickAnswer(e.expiry, w.margin) != Some(U64_MAX)
      && Decode(Encode(TickAnswer(e.expiry, w.margin))) == TickAnswer(e.expiry, w.margin)
    ensures e.Ticked? && e.expiry.Some? ==> w.now + 2 <= e.expiry.value - w.margin
  {
    if e.Ticked? {
      RenewedExpiryIsLate(w.table, w.used, w.now, w.margin, e.turns, e.expiry);
    }
  }

  // ----- One verification and one tick that overlap -----

  /** A verification, and the answer to a tick's query. */
  datatype Race = Race(id: U64, at: Pair, lease: U64, removed: seq<U64>, expiry: Option<I64>)

  datatype Part = Hasten | Commit | Read | Store

  function EventOf(w: World, r: Race, part: Part): Event {
    match part
    case Hasten => Checked(r.id, r.at, r.lease)
    case Commit => CommittedLate(Verification(r.id, r.at, Expiry(w.now, r.lease)), r.removed)
    case Read => TickRead(r.expiry)
    case Store => TickStored
  }

  /** The verified row is inactive and will supersede the rows listed, and the tick is about to query. */
  ghost predicate CanRace(w: World, r: Race) {
    && Inactive(w.table, r.id, r.at) && Lists(r.removed, OldIds(w.table, r.id, r.at))
    && w.task.Querying? && IsNextExpiry(w.table, r.expiry)
  }

  /** The verification has hastened but not committed; the tick has queried but not stored. */
  function UnderWay(w: World, r: Race): World {
    w.(inFlight := w.inFlight + multiset{Verification(r.id, r.at, Expiry(w.now, r.lease))},
       nextTick := Min(w.nextTick, RefreshOf(w, r.lease)),
       task := Storing(TickAnswer(r.expiry, w.margin)), recent := {})
  }

  function BothDone(w: World, r: Race): World {
    w.(table := Committed(w.table, r.id, r.at, Expiry(w.now, r.lease)),
       nextTick := Encode(TickAnswer(r.expiry, w.margin)), task := Idle, recent := {r.id})
  }

  lemma {:induction false} FirstHalf(w: World, r: Race, first: Part, second: Part)
    requires Sound(w) && Covered(w) && CanRace(w, r)
    requires (first == Hasten && second == Read) || (first == Read && second == Hasten)
    ensures Enabled(w, EventOf(w, r, first))
    ensures var w1 := Next(w, EventOf(w, r, first));
      ClockInRange(w1.now, w1.margin) && Enabled(w1, EventOf(w, r, second)) && Next(w1, EventOf(w, r, second)) == UnderWay(w, r)
  {
  }

  lemma {:induction false} SecondHalf(w: World, r: Race, third: Part, last: Part)
    requires Sound(w) && CanRace(w, r)
    requires (third == Commit && last == Store) || (third == Store && last == Commit)
    ensures var w2 := UnderWay(w, r); var w3 := Next(w2, EventOf(w, r, third));
      && ClockInRange(w3.now, w3.margin)
      && Enabled(w2, EventOf(w, r, third)) && Enabled(w3, EventOf(w, r, last))
      && Next(w3, EventOf(w, r, last)) == BothDone(w, r)
  {
    var v := Verification(r.id, r.at, Expiry(w.now, r.lease));
    assert w.inFlight + multiset{v} - multiset{v} == w.inFlight;
  }

  lemma {:induction false} BothDoneCoveredIff(w: World, r: Race)
    requires Sound(w) && CanRace(w, r)
    ensures Sound(UnderWay(w, r)) && AnswerFits(UnderWay(w, r))
    ensures Covered(BothDone(w, r)) <==> Encode(TickAnswer(r.expiry, w.margin)) <= Expiry(w.now, r.lease) - w.margin
  {
    var w1 := Next(w, EventOf(w, r, Read));
    StepSound(w, EventOf(w, r, Read));
    StepSound(w1, EventOf(w, r, Hasten));
    var v := Verification(r.id, r.at, Expiry(w.now, r.lease));
    var stored := UnderWay(w, r).(nextTick := Encode(TickAnswer(r.expiry, w.margin)), task := Idle);
    StoreCoversIff(UnderWay(w, r));
    LateCommitCoversIff(stored, v, r.removed);
    assert Next(stored, CommittedLate(v, r.removed)).table == BothDone(w, r).table;
  }

  /**
   In each of the orders in which one verification and one tick overlap, with nothing else between,
   the run ends covered exactly if the answer queried is not after the verified row's refresh time.
   */
  lemma {:induction false} OverlapOutcome(w: World, r: Race, first: Part, second: Part, third: Part, last: Part)
    requires Sound(w) && Covered(w) && CanRace(w, r)
    requires (first == Hasten && second == Read) || (first == Read && second == Hasten)
    requires (third == Commit && last == Store) || (third == Store && last == Commit)
    ensures var es := [EventOf(w, r, first)] + ([EventOf(w, r, second)] + ([EventOf(w, r, third)] + ([EventOf(w, r, last)] + [])));
      && Legal(w, es) && After(w, es) == BothDone(w, r)
      && (Covered(After(w, es)) <==> Encode(TickAnswer(r.expiry, w.margin)) <= Expiry(w.now, r.lease) - w.margin)
  {
    var a, b, c, d := EventOf(w, r, first), EventOf(w, r, second), EventOf(w, r, third), EventOf(w, r, last);
    var w1, w2 := Next(w, a), UnderWay(w, r);
    var w3 := Next(w2, c);
    FirstHalf(w, r, first, second);
    SecondHalf(w, r, third, last);
    BothDoneCoveredIff(w, r);
    RunCons(w3, d, []);
    RunCons(w2, c, [d] + []);
    RunCons(w1, b, [c] + ([d] + []));
    RunCons(w, a, [b] + ([c] + ([d] + [])));
  }

  /** A lost hasten: with no other active row, the verified row is left with no tick at all. */
  lemma {:induction false} HastenIsLost(w: World, r: Race)
    requires Sound(w) && Covered(w) && w.task.Idle? && ActiveIds(w.table) == {} && r.expiry == None
    requires Inactive(w.table, r.id, r.at) && Lists(r.removed, OldIds(w.table, r.id, r.at))
    ensures var es := [TickRenewed([])] + ([EventOf(w, r, Read)] + ([EventOf(w, r, Hasten)]
        + ([EventOf(w, r, Store)] + ([EventOf(w, r, Commit)] + []))));
      && Legal(w, es) && r.id in ActiveIds(After(w, es).table)
      && After(w, es).nextTick == U64_MAX && !Covered(After(w, es))
  {
    var renewed := TickRenewed([]);
    assert ExpiringIds(w.table, Threshold(w)) == {};
    assert Renewed(w.table, Threshold(w), []) == w.table;
    StepSound(w, renewed);
    StepCovered(w, renewed);
    OverlapOutcome(Next(w, renewed), r, Read, Hasten, Store, Commit);
    RunCons(w, renewed, [EventOf(w, r, Read)] + ([EventOf(w, r, Hasten)] + ([EventOf(w, r, Store)] + ([EventOf(w, r, Commit)] + []))));
  }
}
