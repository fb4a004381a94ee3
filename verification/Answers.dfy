/**
 What hubs are answered, said of the rows alone, and how it stays so over runs. A snapshot is what
 one request finds and leaves; a world shows it when it has the same table.
 */
module Answers {
  import opened Prelude
  import opened Subscriptions
  import opened Protocol
  import opened Db
  import opened Signatures
  import opened Service
  import opened Runs
  import opened Continuity

  // ----- One verification -----

  /** An unsubscription is confirmed exactly if no row of that id has that topic, and changes nothing either way. */
  lemma {:induction false} UnsubscribeAnswer(before: Snapshot, after: Snapshot, now: U64, margin: U64, id: U64,
                                             topic: string, challenge: string, response: Response, removed: seq<U64>)
    requires Verifies(before, after, now, margin, id, VerifyUnsubscribe(topic, challenge), response, removed)
    ensures response == Success(challenge) <==> !(id in before.table && before.table[id].topic == topic)
    ensures response == NotFound <==> id in before.table && before.table[id].topic == topic
    ensures after == before
  {
  }

  /** What a confirmed subscription leaves: one row of its pair, and an Unsubscribe form for each other row there was. */
  ghost predicate Supplants(before: Snapshot, after: Snapshot, id: U64, expiresAt: I64)
    requires id in before.table
  {
    before.spawned <= after.spawned &&
    var row, forms := before.table[id], after.spawned[|before.spawned|..];
    && id in after.table && after.table[id] == Row(row.hub, row.topic, row.secret, Some(expiresAt))
    && (forall other :: other in before.table && other != id ==>
          if before.table[other].hub == row.hub && before.table[other].topic == row.topic
          then other !in after.table && Form.Unsubscribe(other, row.hub, row.topic) in forms
          else other in after.table && after.table[other] == before.table[other])
    && (forall other :: other in after.table ==> other in before.table)
    && (forall i, j :: 0 <= i < j < |forms| ==> forms[i] != forms[j])
    && (forall f :: f in forms ==> f.Unsubscribe? && f.hub == row.hub && f.topic == row.topic && f.id in before.table && f.id != id)
  }

  /** A subscription is confirmed exactly if the row of that id has that topic and is not active; else nothing changes. */
  lemma {:induction false} SubscribeAnswer(before: Snapshot, after: Snapshot, now: U64, margin: U64, id: U64, topic: string,
                                           challenge: string, lease: U64, response: Response, removed: seq<U64>)
    requires Verifies(before, after, now, margin, id, VerifySubscribe(topic, challenge, lease), response, removed)
    ensures response == Success(challenge) <==>
      id in before.table && before.table[id].topic == topic && before.table[id].expiresAt.None?
    ensures response == Success(challenge) ==> Supplants(before, after, id, Min(now + lease, I64_MAX))
    ensures response != Success(challenge) ==> response == NotFound && after == before
  {
    if response == Success(challenge) {
      var p, expiresAt := before.table[id].At(), Expiry(now, lease);
      ExpiryInRange(now, lease);
      CommitExact(before.table, id, p, expiresAt);
      FormsOfRemoved(before, after, id, p, removed);
      forall other | other in before.table && other != id
        ensures before.table[other].At() == p ==> other !in after.table
      {
        if before.table[other].At() == p { assert other in OldIds(before.table, id, p); }
      }
    }
  }

  lemma {:induction false} FormsOfRemoved(before: Snapshot, after: Snapshot, id: U64, p: Pair, removed: seq<U64>)
    requires Lists(removed, OldIds(before.table, id, p)) && after.spawned == before.spawned + UnsubscribeForms(removed, p)
    ensures var forms := after.spawned[|before.spawned|..];
      && before.spawned <= after.spawned
      && (forall other :: other in OldIds(before.table, id, p) ==> Form.Unsubscribe(other, p.hub, p.topic) in forms)
      && (forall i, j :: 0 <= i < j < |forms| ==> forms[i] != forms[j])
      && (forall f :: f in forms ==>
            f.Unsubscribe? && f.hub == p.hub && f.topic == p.topic && f.id in OldIds(before.table, id, p))
  {
    var forms := after.spawned[|before.spawned|..];
    assert forms == UnsubscribeForms(removed, p);
    forall other | other in OldIds(before.table, id, p) ensures Form.Unsubscribe(other, p.hub, p.topic) in forms {
      assert other in removed;
      var i :| 0 <= i < |removed| && removed[i] == other;
      assert forms[i] == Form.Unsubscribe(other, p.hub, p.topic);
    }
    forall f | f in forms
      ensures f.Unsubscribe? && f.hub == p.hub && f.topic == p.topic && f.id in OldIds(before.table, id, p)
    {
      var i :| 0 <= i < |forms| && forms[i] == f;
      assert removed[i] in removed;
    }
  }

  // ----- Over runs -----

  /** No unsubscription is ever confirmed for a row that is still held with its topic. */
  lemma {:induction false} HeldRowRefusesUnsubscription(w: World, es: seq<Event>, id: U64, before: Snapshot, after: Snapshot,
                                                        challenge: string, response: Response, removed: seq<U64>)
    requires Sound(w) && Legal(w, es) && id in w.table
    requires forall e :: e in es ==> !Supersedes(e, id, w.table[id].At())
    requires before.table == After(w, es).table
    requires Verifies(before, after, After(w, es).now, After(w, es).margin, id, VerifyUnsubscribe(w.table[id].topic, challenge), response, removed)
    ensures response == NotFound && after == before
  {
    HeldRowStaysServed(w, es, id);
    UnsubscribeAnswer(before, after, After(w, es).now, After(w, es).margin, id, w.table[id].topic, challenge, response, removed);
  }

  /** Once an Unsubscribe form was sent for an id that had been in use, every later check of it is confirmed. */
  lemma {:induction false} SentUnsubscriptionIsConfirmed(w: World, e: Event, form: Protocol.Form, es: seq<Event>, before: Snapshot,
                                                         after: Snapshot, topic: string, challenge: string, response: Response, removed: seq<U64>)
    requires Sound(w) && Enabled(w, e) && form in Sent(w, e) && form.Unsubscribe? && form.id in w.used
    requires Legal(Next(w, e), es)
    requires before.table == After(Next(w, e), es).table
    requires var w' := After(Next(w, e), es);
      Verifies(before, after, w'.now, w'.margin, form.id, VerifyUnsubscribe(topic, challenge), response, removed)
    ensures response == Success(challenge)
  {
    var w' := After(Next(w, e), es);
    UnsubscriptionIsFinalIff(w, e, form);
    assert form.id !in w'.table;
    UnsubscribeAnswer(before, after, w'.now, w'.margin, form.id, topic, challenge, response, removed);
  }

  /** Content for a held row is passed on, under the row's own topic and secret and with the signature chosen. */
  lemma {:induction false} HeldRowIsDelivered(w: World, es: seq<Event>, id: U64, headers: seq<string>, signature: Option<Signature>,
                                              before: seq<Update>, after: seq<Update>, response: Response)
    requires Sound(w) && Legal(w, es) && id in w.table
    requires forall e :: e in es ==> !Supersedes(e, id, w.table[id].At())
    requires IsArgmax(headers, signature) && Delivers(After(w, es).table, id, signature, before, after, response)
    ensures response == Success("")
    ensures after == if exists i :: 0 <= i < |headers| && Parse(headers[i]).Ok?
      then before + [Update(w.table[id].topic, signature.value, w.table[id].secret)] else before
  {
    HeldRowStaysServed(w, es, id);
    if signature.Some? {
      var i: nat :| IsBest(Ranks(headers), i) && Parse(headers[i]) == Ok(signature.value);
      assert Parse(headers[i]).Ok?;
      assert after == before + [after[|before|]];
    }
  }

  /** Signed content for an id that was unsubscribed is answered as gone, and passed on to no one. */
  lemma {:induction false} UnsubscribedIsGone(w: World, e: Event, form: Protocol.Form, es: seq<Event>, headers: seq<string>,
                                              signature: Option<Signature>, before: seq<Update>, after: seq<Update>, response: Response)
    requires Sound(w) && Enabled(w, e) && form in Sent(w, e) && form.Unsubscribe? && form.id in w.used
    requires Legal(Next(w, e), es) && IsArgmax(headers, signature)
    requires Delivers(After(Next(w, e), es).table, form.id, signature, before, after, response)
    ensures after == before
    ensures response == if exists i :: 0 <= i < |headers| && Parse(headers[i]).Ok? then Gone else Success("")
  {
    UnsubscriptionIsFinalIff(w, e, form);
    assert form.id !in After(Next(w, e), es).table;
    if signature.Some? {
      var i: nat :| IsBest(Ranks(headers), i) && Parse(headers[i]) == Ok(signature.value);
      assert Parse(headers[i]).Ok?;
    }
  }
}
