/** What the forms of a run account for: rows that come, go, and stop being active. */
module Conservation {
  import opened Prelude
  import opened Subscriptions
  import opened Protocol
  import opened Db
  import opened Runs

  datatype Quantity =
    | Activation       // a row, old or new, that becomes active
    | ActiveDeletion   // a row deleted while active
    | RenewalForm      // a Subscribe form sent by a renewal
    | SubscribeForm
    | UnsubscribeForm
    | VacuousForm      // an Unsubscribe form for an id that no row has
    | Confirmation     // a subscribe verification answered with its challenge
    | IdleCommit       // a commit whose row is gone, or active already

  function CountForms(forms: seq<Form>, subscribe: bool): nat {
    if forms == [] then 0
    else CountForms(forms[..|forms| - 1], subscribe) + if forms[|forms| - 1].Subscribe? == subscribe then 1 else 0
  }

  function Measure(t: Table, t': Table, sent: seq<Form>, e: Event, q: Quantity): nat {
    match q
    case Activation => |ActiveIds(t') - ActiveIds(t)|
    case ActiveDeletion => |ActiveIds(t) - t'.Keys|
    case RenewalForm => RenewalCount(sent, e)
    case SubscribeForm => CountForms(sent, true)
    case UnsubscribeForm => CountForms(sent, false)
    case VacuousForm => VacuousCount(t, e)
    case Confirmation => if e.Verified? || e.Checked? then 1 else 0
    case IdleCommit => if e.CommittedLate? && !Inactive(t, e.v.id, e.v.at) then 1 else 0
  }

  function RenewalCount(sent: seq<Form>, e: Event): nat {
    if Renews(e) then CountForms(sent, true) else 0
  }

  function VacuousCount(t: Table, e: Event): nat {
    if e.Unsubscribed? && e.id !in t then 1 else 0
  }

  ghost function Tally(w: World, es: seq<Event>, q: Quantity): nat
    decreases |es|
  {
    if es == [] then 0 else
      var w' := Next(w, es[0]);
      Measure(w.table, w'.table, Sent(w, es[0]), es[0], q) + Tally(w', es[1..], q)
  }

  lemma {:induction false} UniformCount(forms: seq<Form>, subscribe: bool)
    requires forall f :: f in forms ==> f.Subscribe? == subscribe
    ensures CountForms(forms, subscribe) == |forms| && CountForms(forms, !subscribe) == 0
  {
    if forms != [] {
      UniformCount(forms[..|forms| - 1], subscribe);
    }
  }

  lemma {:induction false} ListCount(s: seq<U64>, ids: set<U64>)
    requires Lists(s, ids)
    ensures |s| == |ids|
  {
    if s != [] {
      var last := s[|s| - 1];
      assert s == s[..|s| - 1] + [last];
      ListCount(s[..|s| - 1], ids - {last});
      assert last in ids;
    } else {
      assert forall id :: id in ids ==> id in s;
      assert ids == {};
    }
  }

  lemma {:induction false} ActiveBalance(before: set<U64>, after: set<U64>, keys: set<U64>)
    requires after <= keys
    ensures |before| + |after - before| == |after| + |before - keys| + |before * keys - after|
  {
    assert before + (after - before) == after + (before - after);
    assert before - after == (before - keys) + (before * keys - after);
  }

  /** Rows of `t` that are active there, and are still held by `t'` but no longer active. */
  function Lapsed(t: Table, t': Table): set<U64> {
    ActiveIds(t) * t'.Keys - ActiveIds(t')
  }

  lemma {:induction false} SubsetCount(a: set<U64>, b: set<U64>)
    requires a <= b
    ensures |b| == |a| + |b - a|
  {
    assert b == a + (b - a);
  }

  lemma {:induction false} RenewalLapses(t: Table, used: set<U64>, before: int, turns: seq<Turn>)
    requires t.Keys <= used && ValidRenewals(t, used, before, turns)
    ensures DueIds(turns, |turns|) <= t.Keys
    ensures Lapsed(t, Renewed(t, before, turns)) == ExpiringIds(t, before)
  {
    RenewalExact(t, used, before, turns);
    assert ExpiringIds(t, before) <= ActiveIds(t) <= t.Keys;
  }

  /**
   The rows that stop being active without leaving the table are those a renewal asks for anew,
   and the forms sent make up for the change in the number of rows.
   */
  ghost predicate Balanced(t: Table, t': Table, sent: seq<Form>, e: Event) {
    && |Lapsed(t, t')| == RenewalCount(sent, e)
    && |t.Keys| + CountForms(sent, true) + VacuousCount(t, e) == |t'.Keys| + CountForms(sent, false)
  }

  lemma {:induction false} RenewalBalance(t: Table, used: set<U64>, before: int, turns: seq<Turn>, e: Event)
    requires t.Keys <= used && ValidRenewals(t, used, before, turns) && Renews(e)
    ensures DueIds(turns, |turns|) <= t.Keys
    ensures Balanced(t, Renewed(t, before, turns), RenewalForms(t, turns), e)
  {
    RenewalFormsExact(t, used, before, turns);
    RenewalLapses(t, used, before, turns);
    UniformCount(RenewalForms(t, turns), true);
    assert t.Keys <= Renewed(t, before, turns).Keys by { RenewalExact(t, used, before, turns); }
    SubsetCount(t.Keys, Renewed(t, before, turns).Keys);
  }

  lemma {:induction false} CommitLapses(t: Table, id: U64, p: Pair, expiresAt: I64)
    requires id in t ==> t[id].At() == p
    ensures Lapsed(t, Committed(t, id, p, expiresAt)) == {}
  {
  }

  lemma {:induction false} CommitBalance(t: Table, id: U64, p: Pair, expiresAt: I64, removed: seq<U64>, e: Event)
    requires (id in t ==> t[id].At() == p) && Lists(removed, OldIds(t, id, p)) && (e.Verified? || e.CommittedLate?)
    ensures Balanced(t, Committed(t, id, p, expiresAt), UnsubscribeForms(removed, p), e)
  {
    CommitLapses(t, id, p, expiresAt);
    UniformCount(UnsubscribeForms(removed, p), false);
    ListCount(removed, OldIds(t, id, p));
    var t' := Committed(t, id, p, expiresAt);
    assert t'.Keys == t.Keys - OldIds(t, id, p) by { CommitExact(t, id, p, expiresAt); }
    assert OldIds(t, id, p) <= t.Keys;
    SubsetCount(OldIds(t, id, p), t.Keys);
  }

  lemma {:induction false} InsertBalance(t: Table, e: Event)
    requires e.Subscribed? && e.id !in t
    ensures Balanced(t, Inserted(t, e.id, e.hub, e.topic, e.secret), [Form.Subscribe(e.id, e.hub, e.topic, e.secret)], e)
  {
    var t' := Inserted(t, e.id, e.hub, e.topic, e.secret);
    assert t'.Keys == t.Keys + {e.id};
    assert Lapsed(t, t') == {};
    OneForm(Form.Subscribe(e.id, e.hub, e.topic, e.secret));
  }

  lemma {:induction false} DeleteBalance(t: Table, e: Event)
    requires e.Unsubscribed?
    ensures Balanced(t, t - {e.id}, [Form.Unsubscribe(e.id, e.hub, e.topic)], e)
  {
    assert (t - {e.id}).Keys == t.Keys - {e.id};
    assert Lapsed(t, t - {e.id}) == {};
    OneForm(Form.Unsubscribe(e.id, e.hub, e.topic));
  }

  lemma {:induction false} QuietBalance(t: Table, e: Event)
    requires e.Advance? || e.Checked? || e.TickRead? || e.TickStored?
    ensures Balanced(t, t, [], e)
  {
    assert Lapsed(t, t) == {};
  }

  lemma {:induction false} OneForm(form: Form)
    ensures CountForms([form], true) == (if form.Subscribe? then 1 else 0)
    ensures CountForms([form], false) == (if form.Subscribe? then 0 else 1)
  {
    assert [form][..0] == [];
  }

  lemma {:induction false} StepBalance(w: World, e: Event)
    requires Sound(w) && Enabled(w, e)
    ensures Balanced(w.table, Next(w, e).table, Sent(w, e), e)
  {
    match e {
      case Renewal(turns) => RenewalBalance(w.table, w.used, Threshold(w), turns, e);
      case Ticked(turns, _) => RenewalBalance(w.table, w.used, Threshold(w), turns, e);
      case TickRenewed(turns) => RenewalBalance(w.table, w.used, Threshold(w), turns, e);
      case Verified(id, p, lease, removed) => CommitBalance(w.table, id, p, Expiry(w.now, lease), removed, e);
      case CommittedLate(v, removed) => CommitBalance(w.table, v.id, v.at, v.expiresAt, removed, e);
      case Subscribed(_, _, _, _) => InsertBalance(w.table, e);
      case Unsubscribed(_, _, _) => DeleteBalance(w.table, e);
      case Advance(_) => QuietBalance(w.table, e);
      case Checked(_, _, _) => QuietBalance(w.table, e);
      case TickRead(_) => QuietBalance(w.table, e);
      case TickStored => QuietBalance(w.table, e);
    }
  }

  lemma {:induction false} ActiveInTable(t: Table)
    ensures ActiveIds(t) <= t.Keys
  {
  }

  lemma {:induction false} ActiveMeasures(t: Table, t': Table, sent: seq<Form>, e: Event)
    requires Balanced(t, t', sent, e)
    ensures |ActiveIds(t)| + Measure(t, t', sent, e, Activation)
         == Measure(t, t', sent, e, RenewalForm) + |ActiveIds(t')| + Measure(t, t', sent, e, ActiveDeletion)
  {
    ActiveInTable(t');
    ActiveBalance(ActiveIds(t), ActiveIds(t'), t'.Keys);
  }

  /**
   Conservation of active rows over every run: they come from activations, and leave by renewal,
   one Subscribe form each, or by deletion.
   */
  lemma {:induction false} ActiveRowsBalance(w: World, es: seq<Event>)
    requires Sound(w) && Legal(w, es)
    ensures |ActiveIds(w.table)| + Tally(w, es, Activation)
         == Tally(w, es, RenewalForm) + |ActiveIds(After(w, es).table)| + Tally(w, es, ActiveDeletion)
    decreases |es|
  {
    if es != [] {
      var e, w' := es[0], Next(w, es[0]);
      StepSound(w, e);
      StepBalance(w, e);
      ActiveMeasures(w.table, w'.table, Sent(w, e), e);
      ActiveRowsBalance(w', es[1..]);
    }
  }

  lemma {:induction false} RowMeasures(t: Table, t': Table, sent: seq<Form>, e: Event)
    requires Balanced(t, t', sent, e)
    ensures |t.Keys| + Measure(t, t', sent, e, SubscribeForm) + Measure(t, t', sent, e, VacuousForm)
         == |t'.Keys| + Measure(t, t', sent, e, UnsubscribeForm)
  {
  }

  /**
   Conservation of rows over every run: they come with Subscribe forms and leave with Unsubscribe
   forms, but for the forms about ids that had no row.
   */
  lemma {:induction false} RowsBalance(w: World, es: seq<Event>)
    requires Sound(w) && Legal(w, es)
    ensures |w.table.Keys| + Tally(w, es, SubscribeForm) + Tally(w, es, VacuousForm)
         == |After(w, es).table.Keys| + Tally(w, es, UnsubscribeForm)
    decreases |es|
  {
    if es != [] {
      var e, w' := es[0], Next(w, es[0]);
      StepSound(w, e);
      StepBalance(w, e);
      RowMeasures(w.table, w'.table, Sent(w, e), e);
      RowsBalance(w', es[1..]);
    }
  }

  lemma {:induction false} CommitActivates(t: Table, id: U64, p: Pair, expiresAt: I64)
    requires id in t ==> t[id].At() == p
    ensures ActiveIds(Committed(t, id, p, expiresAt)) - ActiveIds(t) == if Inactive(t, id, p) then {id} else {}
  {
  }

  lemma {:induction false} NothingActivated(w: World, e: Event)
    requires Sound(w) && Enabled(w, e) && !e.Verified? && !e.CommittedLate?
    ensures ActiveIds(Next(w, e).table) - ActiveIds(w.table) == {}
  {
    if Renews(e) {
      RenewalExact(w.table, w.used, Threshold(w), e.turns);
    }
  }

  lemma {:induction false} StepConfirms(w: World, e: Event)
    requires Sound(w) && Enabled(w, e)
    ensures var t, t', sent := w.table, Next(w, e).table, Sent(w, e);
      |w.inFlight| + Measure(t, t', sent, e, Confirmation)
        == Measure(t, t', sent, e, Activation) + Measure(t, t', sent, e, IdleCommit) + |Next(w, e).inFlight|
  {
    if e.Verified? {
      CommitActivates(w.table, e.id, e.at, Expiry(w.now, e.lease));
    } else if e.CommittedLate? {
      CommitActivates(w.table, e.v.id, e.v.at, e.v.expiresAt);
    } else {
      NothingActivated(w, e);
    }
  }

  /**
   Conservation of verifications over every run: each confirmed subscription activates its row, or
   is still in flight, or finds when it commits that the row is gone or active already.
   */
  lemma {:induction false} ConfirmationsBalance(w: World, es: seq<Event>)
    requires Sound(w) && Legal(w, es)
    ensures |w.inFlight| + Tally(w, es, Confirmation)
         == Tally(w, es, Activation) + Tally(w, es, IdleCommit) + |After(w, es).inFlight|
    decreases |es|
  {
    if es != [] {
      StepSound(w, es[0]);
      StepConfirms(w, es[0]);
      ConfirmationsBalance(Next(w, es[0]), es[1..]);
    }
  }
}
