/**
 The two transactions of the subscriber as functions on the table, the forms they
 send, and what they mean: renewal and the commit of a verified subscription.
 */
module Protocol {
  import opened Prelude
  import opened Subscriptions

  /** A request to `hub`; its callback URL is the one that names `id`. */
  datatype Form =
    | Subscribe(id: U64, hub: string, topic: string, secret: string)
    | Unsubscribe(id: U64, hub: string, topic: string)

  /** One turn of the renewal loop: the expiring row, and the id and secret drawn for its successor. */
  datatype Turn = Turn(due: U64, born: U64, secret: string)

  function DueIds(rs: seq<Turn>, n: nat): set<U64>
    requires n <= |rs|
  {
    if n == 0 then {} else DueIds(rs, n - 1) + {rs[n - 1].due}
  }

  function BornIds(rs: seq<Turn>, n: nat): set<U64>
    requires n <= |rs|
  {
    if n == 0 then {} else BornIds(rs, n - 1) + {rs[n - 1].born}
  }

  /** The first `n` turns renew distinct expiring rows, under distinct ids never used before. */
  predicate ValidTurns(t: Table, used: set<U64>, before: int, rs: seq<Turn>, n: nat)
    requires n <= |rs|
  {
    n == 0 ||
    (&& ValidTurns(t, used, before, rs, n - 1)
     && rs[n - 1].due in ExpiringIds(t, before) && rs[n - 1].due !in DueIds(rs, n - 1)
     && rs[n - 1].born !in used && rs[n - 1].born !in BornIds(rs, n - 1))
  }

  predicate ValidRenewals(t: Table, used: set<U64>, before: int, rs: seq<Turn>) {
    ValidTurns(t, used, before, rs, |rs|) && DueIds(rs, |rs|) == ExpiringIds(t, before)
  }

  function Birth(t: Table, r: Turn): Row
    requires r.due in t
  {
    Row(t[r.due].hub, t[r.due].topic, r.secret, None)
  }

  /** The table after the first `n` turns of the renewal loop. */
  function WithBirths(t: Table, rs: seq<Turn>, n: nat): Table
    requires n <= |rs| && DueIds(rs, n) <= t.Keys
  {
    if n == 0 then t else WithBirths(t, rs, n - 1)[rs[n - 1].born := Birth(t, rs[n - 1])]
  }

  /** The forms sent by the first `n` turns of the renewal loop. */
  function BirthForms(t: Table, rs: seq<Turn>, n: nat): seq<Form>
    requires n <= |rs| && DueIds(rs, n) <= t.Keys
  {
    if n == 0 then [] else
      var r := rs[n - 1];
      BirthForms(t, rs, n - 1) + [Subscribe(r.born, t[r.due].hub, t[r.due].topic, r.secret)]
  }

  function Renewed(t: Table, before: int, rs: seq<Turn>): Table
    requires DueIds(rs, |rs|) <= t.Keys
  {
    Deactivated(WithBirths(t, rs, |rs|), before)
  }

  function RenewalForms(t: Table, rs: seq<Turn>): seq<Form>
    requires DueIds(rs, |rs|) <= t.Keys
  {
    BirthForms(t, rs, |rs|)
  }

  /** The transaction that follows an accepted subscribe verification. */
  function Committed(t: Table, id: U64, p: Pair, expiresAt: I64): Table {
    Activated(t - OldIds(t, id, p), id, expiresAt)
  }

  function UnsubscribeForms(removed: seq<U64>, p: Pair): seq<Form> {
    seq(|removed|, i requires 0 <= i < |removed| => Unsubscribe(removed[i], p.hub, p.topic))
  }

  /** `now.saturating_add(lease)` forced into an `i64`. */
  function Expiry(now: U64, lease: U64): I64 {
    var sum := if now + lease <= U64_MAX then now + lease else U64_MAX;
    if sum <= I64_MAX then sum else I64_MAX
  }

  /** The inputs for which the unchecked arithmetic of a renewal stays in range. */
  predicate ClockInRange(now: U64, margin: U64) {
    margin <= now && now + margin + 1 <= I64_MAX
  }

  lemma {:induction false} TurnsCount(t: Table, used: set<U64>, before: int, rs: seq<Turn>, n: nat)
    requires n <= |rs| && ValidTurns(t, used, before, rs, n)
    ensures |DueIds(rs, n)| == n && DueIds(rs, n) <= ExpiringIds(t, before)
    ensures |BornIds(rs, n)| == n && BornIds(rs, n) !! used
  {
    if n > 0 { TurnsCount(t, used, before, rs, n - 1); }
  }

  lemma {:induction false} BirthsContents(t: Table, used: set<U64>, before: int, rs: seq<Turn>, n: nat)
    requires t.Keys <= used && n <= |rs| && ValidTurns(t, used, before, rs, n)
    ensures DueIds(rs, n) <= t.Keys
    ensures var mid := WithBirths(t, rs, n);
      && mid.Keys == t.Keys + BornIds(rs, n) && BornIds(rs, n) !! used
      && (forall id :: id in t ==> mid[id] == t[id])
      && (forall id :: id in BornIds(rs, n) ==> !mid[id].Active())
  {
    if n > 0 { BirthsContents(t, used, before, rs, n - 1); }
  }

  lemma {:induction false} BirthsKeepActive(t: Table, used: set<U64>, before: int, rs: seq<Turn>, n: nat)
    requires t.Keys <= used && n <= |rs| && ValidTurns(t, used, before, rs, n)
    ensures DueIds(rs, n) <= t.Keys
    ensures ActiveIds(WithBirths(t, rs, n)) == ActiveIds(t)
    ensures ExpiringIds(WithBirths(t, rs, n), before) == ExpiringIds(t, before)
  {
    BirthsContents(t, used, before, rs, n);
  }

  lemma {:induction false} DeactivatedExact(t: Table, before: int)
    ensures var t' := Deactivated(t, before);
      && t'.Keys == t.Keys && ExpiringIds(t', before) == {}
      && ActiveIds(t') == ActiveIds(t) - ExpiringIds(t, before)
      && (forall id :: id in t && id !in ExpiringIds(t, before) ==> t'[id] == t[id])
      && (forall id :: id in t ==> t'[id].At() == t[id].At() && t'[id].secret == t[id].secret)
  {
  }

  /**
   Renewal is exact: nothing at or under the threshold stays active, every old row
   keeps its hub, topic and secret, rows over the threshold do not change, and what is
   added is inactive and has ids that were never used.
   */
  lemma {:induction false} RenewalExact(t: Table, used: set<U64>, before: int, rs: seq<Turn>)
    requires t.Keys <= used && ValidRenewals(t, used, before, rs)
    ensures DueIds(rs, |rs|) <= t.Keys
    ensures var t' := Renewed(t, before, rs);
      && ExpiringIds(t', before) == {}
      && ActiveIds(t') == ActiveIds(t) - ExpiringIds(t, before)
      && t'.Keys == t.Keys + BornIds(rs, |rs|) && BornIds(rs, |rs|) !! used
      && (forall id :: id in t ==> id in t' && t'[id].At() == t[id].At() && t'[id].secret == t[id].secret)
      && (forall id :: id in t && id !in ExpiringIds(t, before) ==> t'[id] == t[id])
  {
    BirthsContents(t, used, before, rs, |rs|);
    BirthsKeepActive(t, used, before, rs, |rs|);
    DeactivatedExact(WithBirths(t, rs, |rs|), before);
  }

  /** Each form sent announces a row that is in the table, inactive, with the form's columns. */
  lemma {:induction false} RenewalFormsExact(t: Table, used: set<U64>, before: int, rs: seq<Turn>)
    requires t.Keys <= used && ValidRenewals(t, used, before, rs)
    ensures DueIds(rs, |rs|) <= t.Keys
    ensures var forms := RenewalForms(t, rs); var t' := Renewed(t, before, rs);
      && |forms| == |ExpiringIds(t, before)| == |t'.Keys - t.Keys|
      && (forall f :: f in forms ==>
            f.Subscribe? && f.id in t' && f.id !in used && t'[f.id] == Row(f.hub, f.topic, f.secret, None))
      && (forall id :: id in t' && id !in t ==> IsAnnounced(forms, id))
  {
    RenewalExact(t, used, before, rs);
    TurnsCount(t, used, before, rs, |rs|);
    FormsAnnounce(t, used, before, rs, |rs|);
    BirthsKeepActive(t, used, before, rs, |rs|);
    assert Renewed(t, before, rs).Keys - t.Keys == BornIds(rs, |rs|);
    forall id | id in BornIds(rs, |rs|) ensures IsAnnounced(RenewalForms(t, rs), id) {
      BornIsAnnounced(t, rs, |rs|, id);
    }
  }

  ghost predicate IsAnnounced(forms: seq<Form>, id: U64) {
    exists f :: f in forms && f.Subscribe? && f.id == id
  }

  lemma {:induction false} BornIsAnnounced(t: Table, rs: seq<Turn>, n: nat, id: U64)
    requires n <= |rs| && DueIds(rs, n) <= t.Keys && id in BornIds(rs, n)
    ensures IsAnnounced(BirthForms(t, rs, n), id)
  {
    var r, forms := rs[n - 1], BirthForms(t, rs, n);
    if id == r.born {
      var f := Subscribe(r.born, t[r.due].hub, t[r.due].topic, r.secret);
      assert f in forms;
    } else {
      BornIsAnnounced(t, rs, n - 1, id);
      var f :| f in BirthForms(t, rs, n - 1) && f.Subscribe? && f.id == id;
      assert f in forms;
    }
  }

  /** The row added in a turn has the hub and topic of the row that was due, and the secret drawn in that turn. */
  lemma {:induction false} BornRow(t: Table, used: set<U64>, before: int, rs: seq<Turn>, n: nat, i: nat)
    requires t.Keys <= used && i < n <= |rs| && ValidTurns(t, used, before, rs, n)
    ensures rs[i].born in BornIds(rs, n) && rs[i].due in t && DueIds(rs, n) <= t.Keys
    ensures var mid := WithBirths(t, rs, n);
      rs[i].born in mid && mid[rs[i].born] == Row(t[rs[i].due].hub, t[rs[i].due].topic, rs[i].secret, None)
  {
    BirthsContents(t, used, before, rs, n);
    if i < n - 1 {
      BornRow(t, used, before, rs, n - 1, i);
    }
  }

  lemma {:induction false} FormsAnnounce(t: Table, used: set<U64>, before: int, rs: seq<Turn>, n: nat)
    requires t.Keys <= used && n <= |rs| && ValidTurns(t, used, before, rs, n)
    ensures DueIds(rs, n) <= t.Keys && |BirthForms(t, rs, n)| == n
    ensures forall f :: f in BirthForms(t, rs, n) ==>
      f.Subscribe? && f.id in BornIds(rs, n) && f.id in WithBirths(t, rs, n) && f.id !in used
      && WithBirths(t, rs, n)[f.id] == Row(f.hub, f.topic, f.secret, None)
  {
    if n > 0 {
      FormsAnnounce(t, used, before, rs, n - 1);
      BirthsContents(t, used, before, rs, n);
    }
  }

  /** Which row each expiring row is succeeded by, after the first `n` turns. */
  function Successors(rs: seq<Turn>, n: nat): map<U64, U64>
    requires n <= |rs|
  {
    if n == 0 then map[] else Successors(rs, n - 1)[rs[n - 1].due := rs[n - 1].born]
  }

  ghost predicate Injective(m: map<U64, U64>) {
    forall a, b :: a in m && b in m && m[a] == m[b] ==> a == b
  }

  ghost predicate Onto(m: map<U64, U64>, ids: set<U64>) {
    forall id :: id in ids ==> exists a :: a in m && m[a] == id
  }

  ghost predicate KeepsPairs(t: Table, t': Table, m: map<U64, U64>) {
    forall a :: a in m ==> a in t && m[a] in t' && t'[m[a]].At() == t[a].At()
  }

  /** The expiring rows correspond one to one to the rows added, each to one of its own hub and topic. */
  lemma {:induction false} RenewalSucceeds(t: Table, used: set<U64>, before: int, rs: seq<Turn>)
    requires t.Keys <= used && ValidRenewals(t, used, before, rs)
    ensures DueIds(rs, |rs|) <= t.Keys
    ensures var t', m := Renewed(t, before, rs), Successors(rs, |rs|);
      m.Keys == ExpiringIds(t, before) && Injective(m) && Onto(m, t'.Keys - t.Keys) && KeepsPairs(t, t', m)
  {
    RenewalExact(t, used, before, rs);
    SuccessorsMatch(t, used, before, rs, |rs|);
    SuccessorsKeepPairs(t, used, before, rs, |rs|);
    DeactivatedExact(WithBirths(t, rs, |rs|), before);
  }

  lemma {:induction false} SuccessorsMatch(t: Table, used: set<U64>, before: int, rs: seq<Turn>, n: nat)
    requires t.Keys <= used && n <= |rs| && ValidTurns(t, used, before, rs, n)
    ensures var m := Successors(rs, n);
      && m.Keys == DueIds(rs, n) && Injective(m) && Onto(m, BornIds(rs, n))
      && (forall a :: a in m ==> m[a] in BornIds(rs, n))
  {
    if n > 0 {
      SuccessorsMatch(t, used, before, rs, n - 1);
      var r, m := rs[n - 1], Successors(rs, n - 1);
      SuccessionGrows(m, BornIds(rs, n - 1), r.due, r.born);
    }
  }

  lemma {:induction false} SuccessorsKeepPairs(t: Table, used: set<U64>, before: int, rs: seq<Turn>, n: nat)
    requires t.Keys <= used && n <= |rs| && ValidTurns(t, used, before, rs, n)
    ensures DueIds(rs, n) <= t.Keys && KeepsPairs(t, WithBirths(t, rs, n), Successors(rs, n))
  {
    if n > 0 {
      SuccessorsKeepPairs(t, used, before, rs, n - 1);
      SuccessorsMatch(t, used, before, rs, n - 1);
    }
  }

  lemma {:induction false} SuccessionGrows(m: map<U64, U64>, born: set<U64>, due: U64, id: U64)
    requires Injective(m) && Onto(m, born) && (forall a :: a in m ==> m[a] in born) && due !in m && id !in born
    ensures var m' := m[due := id];
      Injective(m') && Onto(m', born + {id}) && (forall a :: a in m' ==> m'[a] in born + {id})
  {
    var m' := m[due := id];
    forall x | x in born + {id} ensures exists a :: a in m' && m'[a] == x {
      if x == id {
        assert m'[due] == x;
      } else {
        var a :| a in m && m[a] == x;
        assert m'[a] == x;
      }
    }
  }

  function FormPair(f: Form): Pair {
    Pair(f.hub, f.topic)
  }

  ghost predicate AsksFor(t: Table, ids: set<U64>, f: Form)
    requires ids <= t.Keys
  {
    exists id :: id in ids && t[id].At() == FormPair(f)
  }

  lemma {:induction false} FormsAskForDue(t: Table, used: set<U64>, before: int, rs: seq<Turn>, n: nat)
    requires t.Keys <= used && n <= |rs| && ValidTurns(t, used, before, rs, n)
    ensures DueIds(rs, n) <= t.Keys && |BirthForms(t, rs, n)| == n
    ensures forall f :: f in BirthForms(t, rs, n) ==> AsksFor(t, DueIds(rs, n), f)
  {
    if n > 0 {
      FormsAskForDue(t, used, before, rs, n - 1);
      var due := rs[n - 1].due;
      forall f | f in BirthForms(t, rs, n) ensures AsksFor(t, DueIds(rs, n), f) {
        if f in BirthForms(t, rs, n - 1) {
          var id :| id in DueIds(rs, n - 1) && t[id].At() == FormPair(f);
          assert id in DueIds(rs, n);
        } else {
          assert due in DueIds(rs, n) && t[due].At() == FormPair(f);
        }
      }
    }
  }

  ghost predicate IsAsked(forms: seq<Form>, p: Pair) {
    exists f :: f in forms && f.Subscribe? && FormPair(f) == p
  }

  /** No expiring row is passed over. */
  lemma {:induction false} DueIsAskedFor(t: Table, rs: seq<Turn>, n: nat, id: U64)
    requires n <= |rs| && DueIds(rs, n) <= t.Keys && id in DueIds(rs, n)
    ensures IsAsked(BirthForms(t, rs, n), t[id].At())
  {
    var r, forms := rs[n - 1], BirthForms(t, rs, n);
    if id == r.due {
      var f := Subscribe(r.born, t[r.due].hub, t[r.due].topic, r.secret);
      assert f in forms && FormPair(f) == t[id].At();
    } else {
      DueIsAskedFor(t, rs, n - 1, id);
      var f :| f in BirthForms(t, rs, n - 1) && f.Subscribe? && FormPair(f) == t[id].At();
      assert f in forms;
    }
  }

  ghost predicate DistinctPairs(forms: seq<Form>) {
    forall i, j :: 0 <= i < j < |forms| ==> FormPair(forms[i]) != FormPair(forms[j])
  }

  lemma {:induction false} DistinctPairsGrow(forms: seq<Form>, f: Form)
    requires DistinctPairs(forms) && forall g :: g in forms ==> FormPair(g) != FormPair(f)
    ensures DistinctPairs(forms + [f])
  {
  }

  /** With one active row a pair, no pair is asked for twice in one renewal. */
  lemma {:induction false} RenewalAsksOncePerPair(t: Table, used: set<U64>, before: int, rs: seq<Turn>, n: nat)
    requires OneActive(t) && t.Keys <= used && n <= |rs| && ValidTurns(t, used, before, rs, n)
    ensures DueIds(rs, n) <= t.Keys && DistinctPairs(BirthForms(t, rs, n))
  {
    FormsAskForDue(t, used, before, rs, n);
    if n > 0 {
      RenewalAsksOncePerPair(t, used, before, rs, n - 1);
      FormsAskForDue(t, used, before, rs, n - 1);
      TurnsCount(t, used, before, rs, n - 1);
      var forms, r := BirthForms(t, rs, n - 1), rs[n - 1];
      forall f | f in forms ensures FormPair(f) != t[r.due].At() {
        var id :| id in DueIds(rs, n - 1) && t[id].At() == FormPair(f);
        assert id in ActiveIds(t) && r.due in ActiveIds(t);
        assert OneActiveAt(t, t[r.due].At());
      }
      DistinctPairsGrow(forms, Subscribe(r.born, t[r.due].hub, t[r.due].topic, r.secret));
    }
  }

  /**
   A commit leaves its pair with one row, active until the computed expiry, exactly when
   the verified row is still there; otherwise it leaves none. Other pairs do not change.
   */
  lemma {:induction false} CommitExact(t: Table, id: U64, p: Pair, expiresAt: I64)
    requires id in t ==> t[id].At() == p
    ensures var t' := Committed(t, id, p, expiresAt);
      && PairIds(t', p) == (if id in t then {id} else {})
      && (PairIds(t', p) * ActiveIds(t') != {} <==> id in t)
      && (id in t ==> t'[id] == t[id].(expiresAt := Some(expiresAt)))
      && (forall other :: other in t && t[other].At() != p ==> other in t' && t'[other] == t[other])
      && t'.Keys == t.Keys - OldIds(t, id, p)
  {
    var t' := Committed(t, id, p, expiresAt);
    if id in t { assert id in PairIds(t', p) * ActiveIds(t'); }
  }

  /** The stored expiry over all of u64, and when a refresh time exists for every lease. */
  lemma {:induction false} ExpiryInRange(now: U64, lease: U64)
    ensures Expiry(now, lease) == Min(now + lease, I64_MAX)
    ensures 0 <= Expiry(now, lease) <= U64_MAX
  {
  }

  lemma {:induction false} RefreshNeverUnderflowsIff(now: U64, margin: U64)
    ensures (forall lease: U64 :: margin <= Expiry(now, lease)) <==> margin <= Min(now, I64_MAX)
    ensures margin <= now <= I64_MAX ==> forall lease: U64 :: 0 <= Expiry(now, lease) - margin < U64_MAX
  {
    if !(margin <= Min(now, I64_MAX)) {
      var none: U64 := 0;
      assert Expiry(now, none) < margin;
    }
  }
}
