/** `subscriber::Service`: renewal of expiring rows and verification of intent. */
module Service {
  import opened Prelude
  import opened Subscriptions
  import opened Protocol
  import opened Random
  import opened Db
  import opened Handle
  import opened Signatures
  import CallbackId
  import CallbackUrl
  import Hub

  /** A query string that a hub sends to a callback, already deserialised. */
  datatype Query =
    | VerifySubscribe(topic: string, challenge: string, leaseSeconds: U64)
    | VerifyUnsubscribe(topic: string, challenge: string)
    | Unrecognised

  /** A request to the subscriber: its path, its query if any, and its `X-Hub-Signature` values. */
  datatype Request = Request(path: string, query: Option<Query>, signatures: seq<string>)

  datatype Response = Success(body: string) | NotFound | Gone

  /** What is passed on for a delivered update; its body is verified with the signature and the secret. */
  datatype Update = Update(topic: string, signature: Signature, secret: string)

  /** The part of a service that a verification or a poll of the renewal task can change. */
  datatype Snapshot = Snapshot(table: Table, spawned: seq<Form>, nextTick: U64, registered: bool, woken: bool)

  /** Everything the answer to one intent verification promises. */
  ghost predicate Verifies(before: Snapshot, after: Snapshot, now: U64, margin: U64, id: U64, query: Query,
                           response: Response, removed: seq<U64>)
  {
    if Accepts(before.table, id, query) then
      var p, expiresAt := Pair(before.table[id].hub, query.topic), Expiry(now, query.leaseSeconds);
      && response == Success(query.challenge)
      && Lists(removed, OldIds(before.table, id, p))
      && after.table == Committed(before.table, id, p, expiresAt)
      && after.spawned == before.spawned + UnsubscribeForms(removed, p)
      && after.nextTick == Min(before.nextTick, expiresAt - margin)
      && after.registered == (before.registered && before.nextTick <= expiresAt - margin)
      && after.woken == (before.woken || (before.registered && after.nextTick < before.nextTick))
    else
      && after == before && removed == []
      && response == if query.VerifyUnsubscribe? && !SubscriptionExists(before.table, id, query.topic)
                     then Success(query.challenge) else NotFound
  }

  class Service {
    /** Path and query of the callback prefix. */
    const callback: string
    const renewalMargin: U64
    const conn: Connection
    const rng: Rng
    const handle: Handle
    /** Requests given to the executor, in order. */
    var spawned: seq<Form>
    /** Updates sent to the stream of the subscriber, in order. */
    var updates: seq<Update>

    constructor (callback: string, renewalMargin: U64, conn: Connection, rng: Rng)
      ensures this.callback == CallbackUrl.Prepare(callback)
      ensures this.renewalMargin == renewalMargin && this.conn == conn && this.rng == rng
      ensures fresh(handle) && spawned == [] && updates == []
      ensures handle.woken && !handle.registered
      ensures exists expiry ::
        IsNextExpiry(conn.table, expiry) && handle.nextTick == Encode(FirstTick(expiry, renewalMargin))
    {
      var expiry := conn.GetNextExpiry();
      var firstTick := match expiry {
        case None => None
        case Some(expiresAt) =>
          Some((var unsigned := if expiresAt < 0 then 0 else expiresAt;
                if unsigned < renewalMargin then 0 else unsigned - renewalMargin) as U64)
      };
      this.callback, this.renewalMargin := CallbackUrl.Prepare(callback), renewalMargin;
      this.conn, this.rng, this.spawned, this.updates := conn, rng, [], [];
      this.handle := new Handle(firstTick);
    }

    ghost function View(): Snapshot
      reads this, conn, handle
    {
      Snapshot(conn.table, spawned, handle.nextTick, handle.registered, handle.woken)
    }

    function RefreshTime(expiresAt: U64): (r: U64)
      requires renewalMargin <= expiresAt
    {
      expiresAt - renewalMargin
    }

    method RenewSubscriptions(now: U64) returns (ghost renewals: seq<Turn>)
      requires ClockInRange(now, renewalMargin)
      requires rng.Fair() && 2 * |conn.table.Keys| < U64_COUNT
      modifies this`spawned, conn`table, rng`position
      ensures ValidRenewals(old(conn.table), old(conn.table).Keys, now + renewalMargin + 1, renewals)
      ensures DueIds(renewals, |renewals|) <= old(conn.table).Keys
      ensures conn.table == Renewed(old(conn.table), now + renewalMargin + 1, renewals)
      ensures spawned == old(spawned) + RenewalForms(old(conn.table), renewals)
      ensures exists at :: Drawn(rng, renewals, at, old(rng.position), rng.position)
    {
      var threshold: I64 := now + renewalMargin + 1;
      ghost var before := conn.table;
      ghost var at: seq<(nat, nat)> := [];
      renewals := [];
      assert Drawn(rng, renewals, at, rng.position, rng.position);
      var expiring := conn.GetSubscriptionsExpireBefore(threshold);
      if expiring == [] {
        NothingExpires(before, threshold);
        return;
      }
      var i := 0;
      while i < |expiring|
        invariant 0 <= i == |renewals| <= |expiring|
        invariant Renewing(before, threshold, expiring, renewals, conn.table)
        invariant spawned == old(spawned) + RenewalForms(before, renewals)
        invariant Drawn(rng, renewals, at, old(rng.position), rng.position)
      {
        var form;
        form, renewals, at := SubscribeNext(expiring, i, before, threshold, renewals, at, old(rng.position));
        i := i + 1;
      }
      RenewingDone(before, threshold, expiring, renewals, conn.table);
      conn.DeactivateSubscriptionsExpireBefore(threshold);
    }

    /** One turn of the renewal loop; what is ghost says how far the loop has come. */
    method SubscribeNext(expiring: seq<Expiring>, i: nat, ghost t: Table, ghost before: I64,
                         ghost done: seq<Turn>, ghost places: seq<(nat, nat)>, ghost from: nat)
      returns (form: Form, ghost renewals: seq<Turn>, ghost at: seq<(nat, nat)>)
      requires ListsExpiring(expiring, t, before) && i == |done| < |expiring|
      requires Renewing(t, before, expiring, done, conn.table) && Drawn(rng, done, places, from, rng.position)
      requires rng.Fair() && 2 * |t.Keys| < U64_COUNT
      modifies this`spawned, conn`table, rng`position
      ensures |renewals| == i + 1 && Renewing(t, before, expiring, renewals, conn.table)
      ensures spawned == old(spawned) + [form] && RenewalForms(t, renewals) == RenewalForms(t, done) + [form]
      ensures Drawn(rng, renewals, at, from, rng.position)
    {
      RenewingLeavesRoom(t, before, expiring, done, conn.table);
      ghost var prev, start := conn.table, rng.position;
      form := Hub.Subscribe(conn, rng, expiring[i].hub, expiring[i].topic);
      spawned := spawned + [form];
      ghost var turn := Turn(expiring[i].id, form.id, form.secret);
      RenewingStep(t, before, expiring, done, form, prev);
      DrawnGrows(rng, done, places, from, start, turn, rng.position);
      renewals, at := done + [turn], places + [(start, rng.position - 1)];
    }

    method VerifyIntent(now: U64, id: U64, query: Query) returns (response: Response, ghost removed: seq<U64>)
      requires ClockInRange(now, renewalMargin)
      modifies this`spawned, conn`table, handle
      ensures Verifies(old(View()), View(), now, renewalMargin, id, query, response, removed)
    {
      removed := [];
      match query {
        case VerifySubscribe(topic, challenge, leaseSeconds) =>
          var hub := HubOfInactive(conn.table, id, topic);
          if hub.Some? {
            var sum := if now + leaseSeconds <= U64_MAX then now + leaseSeconds else U64_MAX;
            var expiresAt: I64 := if sum <= I64_MAX then sum else I64_MAX;
            handle.Hasten(RefreshTime(expiresAt));
            var olds := conn.GetOldSubscriptions(id, hub.value, topic);
            removed := olds;
            ghost var p := Pair(hub.value, topic);
            ghost var before := conn.table;
            var i := 0;
            while i < |olds|
              invariant 0 <= i <= |olds|
              invariant conn.table == before - Taken(olds, i)
              invariant spawned == old(spawned) + UnsubscribeForms(olds[..i], p)
              modifies this`spawned, conn`table
            {
              var form := Hub.Unsubscribe(conn, olds[i], hub.value, topic);
              spawned := spawned + [form];
              assert UnsubscribeForms(olds[..i + 1], p) == UnsubscribeForms(olds[..i], p) + [form];
              i := i + 1;
            }
            TakenMembers(olds, |olds|);
            assert Taken(olds, |olds|) == OldIds(before, id, p);
            assert olds[..|olds|] == olds;
            var _ := conn.ActivateSubscription(id, expiresAt);
            return Success(challenge), removed;
          }
        case VerifyUnsubscribe(topic, challenge) =>
          if !SubscriptionExists(conn.table, id, topic) {
            return Success(challenge), removed;
          }
        case Unrecognised =>
      }
      response := NotFound;
    }

    /** Answers a request: by its path, then by its query or its signatures. */
    method Call(now: U64, req: Request) returns (response: Response, ghost removed: seq<U64>)
      requires ClockInRange(now, renewalMargin)
      modifies this`spawned, this`updates, conn`table, handle
      ensures match CallbackUrl.RouteOf(callback, req.path)
        case Elsewhere => response == NotFound && View() == old(View()) && updates == old(updates)
        case Undecodable(tail) =>
          && View() == old(View()) && updates == old(updates)
          && response == if '/' in tail || req.query.Some? then NotFound else Gone
        case Callback(id) =>
          if req.query.Some? then
            && Verifies(old(View()), View(), now, renewalMargin, id, req.query.value, response, removed)
            && updates == old(updates)
          else
            && View() == old(View())
            && exists signature: Option<Signature> :: IsArgmax(req.signatures, signature)
                 && Delivers(old(conn.table), id, signature, old(updates), updates, response)
    {
      removed := [];
      var prefix := CallbackUrl.PathOf(callback);
      if !(prefix <= req.path) {
        return NotFound, removed;
      }
      var tail := req.path[|prefix|..];
      var decoded := CallbackId.Decode(tail);
      if decoded.None? {
        return if '/' in tail || req.query.Some? then NotFound else Gone, removed;
      }
      var id := decoded.value;
      if req.query.Some? {
        response, removed := VerifyIntent(now, id, req.query.value);
        return;
      }
      var signature := SelectSignature(req.signatures);
      if signature.None? {
        return Success(""), removed;
      }
      var cols := GetTopic(conn.table, id);
      if cols.None? {
        return Gone, removed;
      }
      updates := updates + [Update(cols.value.0, signature.value, cols.value.1)];
      response := Success("");
    }

    /** One turn of the renewal task: renew, then ask when to come back. */
    method Tick(now: U64) returns (next: Option<U64>, ghost renewals: seq<Turn>, ghost expiry: Option<I64>)
      requires ClockInRange(now, renewalMargin)
      requires rng.Fair() && 2 * |conn.table.Keys| < U64_COUNT
      modifies this`spawned, conn`table, rng`position
      ensures ValidRenewals(old(conn.table), old(conn.table).Keys, now + renewalMargin + 1, renewals)
      ensures DueIds(renewals, |renewals|) <= old(conn.table).Keys
      ensures conn.table == Renewed(old(conn.table), now + renewalMargin + 1, renewals)
      ensures spawned == old(spawned) + RenewalForms(old(conn.table), renewals)
      ensures exists at :: Drawn(rng, renewals, at, old(rng.position), rng.position)
      ensures IsNextExpiry(conn.table, expiry) && next == TickAnswer(expiry, renewalMargin)
      ensures next.Some? ==> now + 2 <= next.value < U64_MAX
    {
      renewals := RenewSubscriptions(now);
      var r := conn.GetNextExpiry();
      expiry := r;
      match r {
        case None => next := None;
        case Some(expiresAt) =>
          if expiresAt < 0 {
            next := Some(0);
          } else {
            RenewedExpiryIsLate(old(conn.table), old(conn.table).Keys, now, renewalMargin, renewals, r);
            next := Some(RefreshTime(expiresAt));
          }
      }
      RenewedExpiryIsLate(old(conn.table), old(conn.table).Keys, now, renewalMargin, renewals, r);
    }
  }

  predicate Accepts(t: Table, id: U64, query: Query) {
    query.VerifySubscribe? && HubOfInactive(t, id, query.topic).Some?
  }

  /** What becomes of content for `id`, given the signature chosen: one update at most, under the row's topic and secret. */
  ghost predicate Delivers(t: Table, id: U64, signature: Option<Signature>, before: seq<Update>, after: seq<Update>,
                           response: Response)
  {
    if signature.None? then
      response == Success("") && after == before
    else if id !in t then
      response == Gone && after == before
    else
      && response == Success("") && |after| == |before| + 1 && before <= after
      && after[|before|].topic == t[id].topic && after[|before|].secret == t[id].secret
      && after[|before|].signature == signature.value
  }

  /** The first tick, computed from the rows found at start-up. */
  function FirstTick(expiry: Option<I64>, margin: U64): Option<U64> {
    match expiry
    case None => None
    case Some(expiresAt) => Some(SaturatingSub(Max(expiresAt, 0), margin))
  }

  /** What `Tick::tick` answers; the fallback to 0 is for an expiry before the epoch. */
  function TickAnswer(expiry: Option<I64>, margin: U64): Option<U64> {
    match expiry
    case None => None
    case Some(expiresAt) =>
      if expiresAt < 0 then Some(0)
      else if margin <= expiresAt then Some(expiresAt - margin)
      else Some((expiresAt - margin) + U64_COUNT)
  }

  /** After a renewal the least expiry is late enough: no fallback, no underflow, no sentinel. */
  lemma {:induction false} RenewedExpiryIsLate(t: Table, used: set<U64>, now: U64, margin: U64, rs: seq<Turn>, expiry: Option<I64>)
    requires t.Keys <= used && ValidRenewals(t, used, now + margin + 1, rs)
    requires DueIds(rs, |rs|) <= t.Keys && IsNextExpiry(Renewed(t, now + margin + 1, rs), expiry)
    ensures expiry.Some? ==>
      && TickAnswer(expiry, margin) == Some(expiry.value - margin)
      && now + 2 <= expiry.value - margin < U64_MAX
    ensures TickAnswer(expiry, margin).None? <==> ActiveIds(Renewed(t, now + margin + 1, rs)) == {}
  {
    var before := now + margin + 1;
    RenewalExact(t, used, before, rs);
    var t' := Renewed(t, before, rs);
    if expiry.Some? {
      var id :| id in ActiveIds(t') && t'[id].expiresAt.value == expiry.value;
      assert id !in ExpiringIds(t', before);
    }
  }

  /** A start-up tick is never after the refresh time of a row it was computed from. */
  lemma {:induction false} FirstTickCovers(t: Table, expiry: Option<I64>, margin: U64)
    requires IsNextExpiry(t, expiry)
    ensures FirstTick(expiry, margin).None? <==> ActiveIds(t) == {}
    ensures FirstTick(expiry, margin) != Some(U64_MAX)
    ensures forall id :: id in ActiveIds(t) ==>
      FirstTick(expiry, margin).value <= SaturatingSub(t[id].expiresAt.value, margin)
    ensures FirstTick(expiry, margin).Some? ==> exists id ::
      id in ActiveIds(t) && FirstTick(expiry, margin).value == SaturatingSub(t[id].expiresAt.value, margin)
  {
  }

  ghost predicate DrawnAt(rng: Rng, r: Turn, at: (nat, nat)) {
    r.secret == rng.secrets(at.0) && r.born == rng.draws(at.1)
  }

  /** The secret and the id of each turn come from places in the generator's stream past those of the turns before it. */
  ghost predicate Drawn(rng: Rng, rs: seq<Turn>, at: seq<(nat, nat)>, from: nat, to: nat) {
    |at| == |rs| &&
    if rs == [] then from <= to
    else
      var last := |rs| - 1;
      && DrawnAt(rng, rs[last], at[last]) && at[last].0 < at[last].1 < to
      && Drawn(rng, rs[..last], at[..last], from, at[last].0)
  }

  lemma {:induction false} NothingDrawn(rng: Rng, from: nat)
    ensures exists at :: Drawn(rng, [], at, from, from)
  {
    assert Drawn(rng, [], [], from, from);
  }

  lemma {:induction false} DrawnGrows(rng: Rng, rs: seq<Turn>, at: seq<(nat, nat)>, from: nat, to: nat, r: Turn, to': nat)
    requires Drawn(rng, rs, at, from, to) && to + 1 < to' && DrawnAt(rng, r, (to, to' - 1))
    ensures Drawn(rng, rs + [r], at + [(to, to' - 1)], from, to')
  {
    assert (rs + [r])[..|rs|] == rs && (at + [(to, to' - 1)])[..|rs|] == at;
  }

  /** No place is used twice. */
  lemma {:induction false} DrawnPlaces(rng: Rng, rs: seq<Turn>, at: seq<(nat, nat)>, from: nat, to: nat)
    requires Drawn(rng, rs, at, from, to)
    ensures forall i :: 0 <= i < |rs| ==> DrawnAt(rng, rs[i], at[i]) && from <= at[i].0 < at[i].1 < to
    ensures forall i, j :: 0 <= i < j < |rs| ==> at[i].1 < at[j].0
    ensures from <= to
  {
    if rs != [] {
      var last := |rs| - 1;
      DrawnPlaces(rng, rs[..last], at[..last], from, at[last].0);
      forall i | 0 <= i < |rs| ensures DrawnAt(rng, rs[i], at[i]) && from <= at[i].0 < at[i].1 < to {
        if i < last { assert rs[..last][i] == rs[i] && at[..last][i] == at[i]; }
      }
      forall i, j | 0 <= i < j < |rs| ensures at[i].1 < at[j].0 {
        assert at[..last][i] == at[i];
        if j < last { assert at[..last][j] == at[j]; }
      }
    }
  }

  /** After a renewal each row added has a secret of its own from the generator, drawn for that row and no other. */
  lemma {:induction false} SuccessorSecret(t: Table, used: set<U64>, before: int, rs: seq<Turn>,
                                           rng: Rng, at: seq<(nat, nat)>, from: nat, to: nat, i: nat)
    requires t.Keys <= used && ValidRenewals(t, used, before, rs) && Drawn(rng, rs, at, from, to) && i < |rs|
    ensures DueIds(rs, |rs|) <= t.Keys && rs[i].due in t
    ensures var t' := Renewed(t, before, rs); var id := rng.draws(at[i].1);
      id in t' && id !in t && t'[id] == Row(t[rs[i].due].hub, t[rs[i].due].topic, rng.secrets(at[i].0), None)
    ensures from <= at[i].0 < to && forall j :: 0 <= j < |rs| && j != i ==> at[j].0 != at[i].0 && at[j].1 != at[i].0
  {
    DrawnPlaces(rng, rs, at, from, to);
    assert DrawnAt(rng, rs[i], at[i]);
    BornRow(t, used, before, rs, |rs|, i);
    BirthsContents(t, used, before, rs, |rs|);
    forall j | 0 <= j < |rs| && j != i ensures at[j].0 != at[i].0 && at[j].1 != at[i].0 {
      if j < i { assert at[j].1 < at[i].0; } else { assert at[i].1 < at[j].0; }
    }
  }

  lemma {:induction false} NothingExpires(t: Table, before: I64)
    requires ListsExpiring([], t, before)
    ensures ValidRenewals(t, t.Keys, before, []) && Renewed(t, before, []) == t && RenewalForms(t, []) == []
  {
    assert forall id :: id in ExpiringIds(t, before) ==> false;
  }

  lemma {:induction false} ExpiringListCount(s: seq<Expiring>, t: Table, before: int)
    requires ListsExpiring(s, t, before)
    ensures |s| <= |t.Keys|
  {
    var ids := seq(|s|, i requires 0 <= i < |s| => s[i].id);
    DistinctCount(ids, t.Keys);
  }

  lemma {:induction false} DistinctCount(ids: seq<U64>, within: set<U64>)
    requires forall i, j :: 0 <= i < j < |ids| ==> ids[i] != ids[j]
    requires forall i :: 0 <= i < |ids| ==> ids[i] in within
    ensures |ids| <= |within|
  {
    if ids != [] {
      DistinctCount(ids[1..], within - {ids[0]});
    }
  }

  function ListedIds(s: seq<Expiring>, n: nat): set<U64>
    requires n <= |s|
  {
    if n == 0 then {} else ListedIds(s, n - 1) + {s[n - 1].id}
  }

  lemma {:induction false} ListedIdsMembers(s: seq<Expiring>, n: nat)
    requires n <= |s|
    ensures forall id :: id in ListedIds(s, n) <==> exists i :: 0 <= i < n && s[i].id == id
  {
    if n > 0 { ListedIdsMembers(s, n - 1); }
  }

  /** The renewals so far are valid and are those of the first rows of the list. */
  ghost predicate Renewing(t: Table, before: int, s: seq<Expiring>, rs: seq<Turn>, now: Table) {
    && |rs| <= |s|
    && ValidTurns(t, t.Keys, before, rs, |rs|)
    && DueIds(rs, |rs|) == ListedIds(s, |rs|) && DueIds(rs, |rs|) <= t.Keys
    && now == WithBirths(t, rs, |rs|)
  }

  lemma {:induction false} PrefixTurns(t: Table, before: int, rs: seq<Turn>, r: Turn, n: nat)
    requires n <= |rs| && ValidTurns(t, t.Keys, before, rs, n)
    ensures var more := rs + [r];
      && ValidTurns(t, t.Keys, before, more, n)
      && DueIds(more, n) == DueIds(rs, n) <= t.Keys && BornIds(more, n) == BornIds(rs, n)
      && WithBirths(t, more, n) == WithBirths(t, rs, n) && BirthForms(t, more, n) == BirthForms(t, rs, n)
  {
    if n > 0 {
      PrefixTurns(t, before, rs, r, n - 1);
      assert (rs + [r])[n - 1] == rs[n - 1];
    }
  }

  lemma {:induction false} RenewingStep(t: Table, before: int, s: seq<Expiring>, rs: seq<Turn>, form: Form, prev: Table)
    requires ListsExpiring(s, t, before) && |rs| < |s| && Renewing(t, before, s, rs, prev)
    requires form.Subscribe? && form.hub == s[|rs|].hub && form.topic == s[|rs|].topic && form.id !in prev
    ensures var more := rs + [Turn(s[|rs|].id, form.id, form.secret)];
      && Renewing(t, before, s, more, Inserted(prev, form.id, form.hub, form.topic, form.secret))
      && RenewalForms(t, more) == RenewalForms(t, rs) + [form]
  {
    var n, r := |rs|, Turn(s[|rs|].id, form.id, form.secret);
    PrefixTurns(t, before, rs, r, n);
    BirthsContents(t, t.Keys, before, rs, n);
    ListedIdsMembers(s, n);
    assert (rs + [r])[n] == r && r.due in ExpiringIds(t, before);
  }

  lemma {:induction false} RenewingLeavesRoom(t: Table, before: int, s: seq<Expiring>, rs: seq<Turn>, now: Table)
    requires ListsExpiring(s, t, before) && Renewing(t, before, s, rs, now) && 2 * |t.Keys| < U64_COUNT
    ensures |now.Keys| < U64_COUNT
  {
    BirthsContents(t, t.Keys, before, rs, |rs|);
    TurnsCount(t, t.Keys, before, rs, |rs|);
    ExpiringListCount(s, t, before);
  }

  lemma {:induction false} RenewingDone(t: Table, before: int, s: seq<Expiring>, rs: seq<Turn>, now: Table)
    requires ListsExpiring(s, t, before) && Renewing(t, before, s, rs, now) && |rs| == |s|
    ensures ValidRenewals(t, t.Keys, before, rs)
  {
    ListedIdsMembers(s, |s|);
  }

  function Taken(ids: seq<U64>, n: nat): set<U64>
    requires n <= |ids|
  {
    if n == 0 then {} else Taken(ids, n - 1) + {ids[n - 1]}
  }

  lemma {:induction false} TakenMembers(ids: seq<U64>, n: nat)
    requires n <= |ids|
    ensures forall id :: id in Taken(ids, n) <==> id in ids[..n]
  {
    if n > 0 {
      TakenMembers(ids, n - 1);
      assert ids[..n] == ids[..n - 1] + [ids[n - 1]];
    }
  }
}
