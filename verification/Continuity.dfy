/** What runs keep of a subscription: no gap in service, and unsubscriptions that stay final. */
module Continuity {
  import opened Prelude
  import opened Subscriptions
  import opened Protocol
  import opened Runs

  /** The events that take the row of `id`, held for `p`, out of the table. */
  predicate Supersedes(e: Event, id: U64, p: Pair) {
    match e
    case Unsubscribed(other, _, _) => other == id
    case Verified(other, at, _, _) => at == p && other != id
    case CommittedLate(v, _) => v.at == p && v.id != id
    case _ => false
  }

  /** A row leaves the table exactly by those events; otherwise its columns stay as they were. */
  lemma {:induction false} RowLeavesIff(w: World, e: Event, id: U64)
    requires Sound(w) && Enabled(w, e) && id in w.table
    ensures id !in Next(w, e).table <==> Supersedes(e, id, w.table[id].At())
    ensures id in Next(w, e).table ==>
      var row := Next(w, e).table[id]; row.At() == w.table[id].At() && row.secret == w.table[id].secret
  {
    match e {
      case Renewal(turns) => RenewalExact(w.table, w.used, Threshold(w), turns);
      case Ticked(turns, _) => RenewalExact(w.table, w.used, Threshold(w), turns);
      case TickRenewed(turns) => RenewalExact(w.table, w.used, Threshold(w), turns);
      case Verified(_, _, _, _) =>
      case CommittedLate(_, _) =>
      case Checked(_, _, _) =>
      case Advance(_) =>
      case Subscribed(_, _, _, _) =>
      case Unsubscribed(_, _, _) =>
      case TickRead(_) =>
      case TickStored =>
    }
  }

  /**
   An active row stops being active exactly when it is taken out of the table or a renewal finds
   it under the threshold, and that renewal asks the hub for the same pair again.
   */
  lemma {:induction false} RowLapsesIff(w: World, e: Event, id: U64)
    requires Sound(w) && Enabled(w, e) && id in ActiveIds(w.table)
    ensures id !in ActiveIds(Next(w, e).table) <==>
      Supersedes(e, id, w.table[id].At()) || (Renews(e) && w.table[id].expiresAt.value <= Threshold(w))
    ensures Renews(e) && w.table[id].expiresAt.value <= Threshold(w) ==> IsAsked(Sent(w, e), w.table[id].At())
  {
    RowLeavesIff(w, e, id);
    if Renews(e) {
      RenewalExact(w.table, w.used, Threshold(w), e.turns);
      if id in ExpiringIds(w.table, Threshold(w)) {
        DueIsAskedFor(w.table, e.turns, |e.turns|, id);
      }
    }
  }

  /**
   No gap in service: a row once verified answers `get_topic` with the same topic and secret,
   through any number of renewals, until another id of its pair is verified or it is unsubscribed.
   */
  lemma {:induction false} HeldRowStaysServed(w: World, es: seq<Event>, id: U64)
    requires Sound(w) && Legal(w, es) && id in w.table
    requires forall e :: e in es ==> !Supersedes(e, id, w.table[id].At())
    ensures GetTopic(After(w, es).table, id) == GetTopic(w.table, id) == Some((w.table[id].topic, w.table[id].secret))
    ensures After(w, es).table[id].At() == w.table[id].At()
    decreases |es|
  {
    if es != [] {
      StepSound(w, es[0]);
      RowLeavesIff(w, es[0], id);
      assert es[0] in es;
      HeldRowStaysServed(Next(w, es[0]), es[1..], id);
    }
  }

  lemma {:induction false} VerifiedRowStaysServed(w: World, id: U64, p: Pair, lease: U64, removed: seq<U64>, es: seq<Event>)
    requires Sound(w) && Enabled(w, Verified(id, p, lease, removed))
    requires Legal(Next(w, Verified(id, p, lease, removed)), es)
    requires forall e :: e in es ==> !Supersedes(e, id, p)
    ensures var t := After(Next(w, Verified(id, p, lease, removed)), es).table;
      GetTopic(t, id) == Some((p.topic, w.table[id].secret)) && t[id].hub == p.hub
  {
    StepSound(w, Verified(id, p, lease, removed));
    HeldRowStaysServed(Next(w, Verified(id, p, lease, removed)), es, id);
  }

  /** No row of `p` is unsubscribed by a caller anywhere in the run. */
  ghost predicate Spares(w: World, es: seq<Event>, p: Pair)
    requires Legal(w, es)
    decreases |es|
  {
    es == [] || (!(es[0].Unsubscribed? && es[0].id in PairIds(w.table, p)) && Spares(Next(w, es[0]), es[1..], p))
  }

  /** The pair is served by some row in every world of the run. */
  ghost predicate ServedThroughout(w: World, es: seq<Event>, p: Pair)
    requires Legal(w, es)
    decreases |es|
  {
    PairIds(w.table, p) != {} && (es == [] || ServedThroughout(Next(w, es[0]), es[1..], p))
  }

  /** A commit for `p`, apart from its check, finds the row still there. */
  predicate FindsRow(w: World, e: Event, p: Pair) {
    e.CommittedLate? && e.v.at == p ==> e.v.id in w.table
  }

  ghost predicate FindsRowThroughout(w: World, es: seq<Event>, p: Pair)
    requires Legal(w, es)
    decreases |es|
  {
    es == [] || (FindsRow(w, es[0], p) && FindsRowThroughout(Next(w, es[0]), es[1..], p))
  }

  lemma {:induction false} StepServesIff(w: World, e: Event, p: Pair)
    requires Sound(w) && Enabled(w, e) && PairIds(w.table, p) != {}
    requires !(e.Unsubscribed? && e.id in PairIds(w.table, p))
    ensures PairIds(Next(w, e).table, p) != {} <==> FindsRow(w, e, p)
  {
    var w' := Next(w, e);
    var id :| id in PairIds(w.table, p);
    RowLeavesIff(w, e, id);
    if id in w'.table {
      assert id in PairIds(w'.table, p);
    } else if e.Verified? {
      assert e.id in PairIds(w'.table, p);
    }
    if e.CommittedLate? && e.v.at == p {
      CommitExact(w.table, e.v.id, p, e.v.expiresAt);
    }
  }

  /**
   As long as no caller unsubscribes it, a pair that is served stays served by some row, however
   verifications are split and interleaved, exactly if each commit for it finds its row.
   */
  lemma {:induction false} PairStaysServedIff(w: World, es: seq<Event>, p: Pair)
    requires Sound(w) && Legal(w, es) && Spares(w, es, p) && PairIds(w.table, p) != {}
    ensures ServedThroughout(w, es, p) <==> FindsRowThroughout(w, es, p)
    decreases |es|
  {
    if es != [] {
      var e, w' := es[0], Next(w, es[0]);
      StepSound(w, e);
      StepServesIff(w, e, p);
      if PairIds(w'.table, p) != {} {
        PairStaysServedIff(w', es[1..], p);
      } else {
        assert !ServedThroughout(w', es[1..], p);
      }
    }
  }

  /** With verification as one step that is every run. */
  lemma {:induction false} SerialisedFindsRow(w: World, es: seq<Event>, p: Pair)
    requires Legal(w, es) && forall e :: e in es ==> Serialised(e)
    ensures FindsRowThroughout(w, es, p)
    decreases |es|
  {
    if es != [] {
      assert es[0] in es;
      SerialisedFindsRow(Next(w, es[0]), es[1..], p);
    }
  }

  /**
   Split verification can leave a gap. Whenever two inactive rows of one pair are checked
   before either is committed, both hubs get their challenge back and no row is left.
   */
  lemma {:induction false} SplitVerificationLeavesGap(w: World, a: U64, b: U64, p: Pair, leaseA: U64, leaseB: U64)
    requires Sound(w) && PairIds(w.table, p) == {a, b} && a != b
    requires Inactive(w.table, a, p) && Inactive(w.table, b, p)
    ensures var va, vb := Verification(a, p, Expiry(w.now, leaseA)), Verification(b, p, Expiry(w.now, leaseB));
      var es := [Checked(a, p, leaseA)] + ([Checked(b, p, leaseB)] + ([CommittedLate(va, [b])] + ([CommittedLate(vb, [a])] + [])));
      Legal(w, es) && PairIds(After(w, es).table, p) == {}
  {
    var va, vb := Verification(a, p, Expiry(w.now, leaseA)), Verification(b, p, Expiry(w.now, leaseB));
    var checkA, checkB := Checked(a, p, leaseA), Checked(b, p, leaseB);
    var commitA, commitB := CommittedLate(va, [b]), CommittedLate(vb, [a]);
    var w1 := Next(w, checkA);
    var w2 := Next(w1, checkB);
    var w3 := Next(w2, commitA);
    var w4 := Next(w3, commitB);
    CommitExact(w.table, a, p, va.expiresAt);
    CommitExact(w3.table, b, p, vb.expiresAt);
    assert Enabled(w2, commitA) by { assert OldIds(w.table, a, p) == {b}; }
    assert Enabled(w3, commitB) by { assert OldIds(w3.table, b, p) == {a}; }
    assert Legal(w4, []);
    RunCons(w3, commitB, []);
    RunCons(w2, commitA, [commitB] + []);
    RunCons(w1, checkB, [commitA] + ([commitB] + []));
    RunCons(w, checkA, [checkB] + ([commitA] + ([commitB] + [])));
  }

  // ----- Unsubscription -----

  lemma {:induction false} UsedIdStaysGone(w: World, es: seq<Event>, id: U64)
    requires Sound(w) && Legal(w, es) && id in w.used && id !in w.table
    ensures id !in After(w, es).table
    decreases |es|
  {
    if es != [] {
      var e := es[0];
      StepSound(w, e);
      match e {
        case Renewal(turns) => RenewalExact(w.table, w.used, Threshold(w), turns);
        case Ticked(turns, _) => RenewalExact(w.table, w.used, Threshold(w), turns);
        case TickRenewed(turns) => RenewalExact(w.table, w.used, Threshold(w), turns);
        case _ =>
      }
      UsedIdStaysGone(Next(w, e), es[1..], id);
    }
  }

  /** Whoever sends an Unsubscribe form has already removed the row it names. */
  lemma {:induction false} UnsubscribedRowIsGone(w: World, e: Event, form: Protocol.Form)
    requires Sound(w) && Enabled(w, e) && form in Sent(w, e) && form.Unsubscribe?
    ensures form.id !in Next(w, e).table
    ensures !e.Unsubscribed? ==> form.id in w.table && w.table[form.id].At() == Pair(form.hub, form.topic)
  {
    match e {
      case Renewal(turns) => RenewalFormsExact(w.table, w.used, Threshold(w), turns);
      case Ticked(turns, _) => RenewalFormsExact(w.table, w.used, Threshold(w), turns);
      case TickRenewed(turns) => RenewalFormsExact(w.table, w.used, Threshold(w), turns);
      case Verified(id, p, _, removed) =>
        assert form.id in removed;
      case CommittedLate(v, removed) =>
        assert form.id in removed;
      case _ =>
    }
  }

  /**
   The id of an Unsubscribe form is absent in every later world, so that the hub's check of the
   unsubscription is confirmed whenever it comes, exactly when the id had been in use before:
   only a caller's `unsubscribe` of an id never handed out can be followed by a row of that id.
   */
  lemma {:induction false} UnsubscriptionIsFinalIff(w: World, e: Event, form: Protocol.Form)
    requires Sound(w) && Enabled(w, e) && form in Sent(w, e) && form.Unsubscribe?
    ensures StaysGone(Next(w, e), form.id) <==> form.id in w.used
    ensures !e.Unsubscribed? ==> form.id in w.used
  {
    var w' := Next(w, e);
    StepSound(w, e);
    UnsubscribedRowIsGone(w, e, form);
    if form.id in w.used {
      assert form.id in w'.used;
      forall es | Legal(w', es) ensures form.id !in After(w', es).table {
        UsedIdStaysGone(w', es, form.id);
      }
    } else {
      var again := Subscribed(form.id, "", form.topic, "");
      assert Legal(Next(w', again), []);
      RunCons(w', again, []);
      assert form.id in After(w', [again] + []).table;
    }
  }

  /** In no continuation of the run is there a row of `id`: every check of its unsubscription is confirmed. */
  ghost predicate StaysGone(w: World, id: U64) {
    forall es :: Legal(w, es) ==> id !in After(w, es).table
  }
}
