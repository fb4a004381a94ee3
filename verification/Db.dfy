/** `ConnectionRef`: the SQL operations on the `subscriptions` table, in place. */
module Db {
  import opened Prelude
  import opened Subscriptions
  import opened Random

  datatype Expiring = Expiring(id: U64, hub: string, topic: string)

  /** The result of a SELECT: every id of `ids` once, in some order. */
  ghost predicate Lists(s: seq<U64>, ids: set<U64>) {
    && (forall i, j :: 0 <= i < j < |s| ==> s[i] != s[j])
    && (forall id :: id in s <==> id in ids)
  }

  ghost predicate ListsExpiring(s: seq<Expiring>, t: Table, before: int) {
    && (forall i :: 0 <= i < |s| ==>
          s[i].id in ExpiringIds(t, before) && s[i].hub == t[s[i].id].hub && s[i].topic == t[s[i].id].topic)
    && (forall i, j :: 0 <= i < j < |s| ==> s[i].id != s[j].id)
    && (forall id :: id in ExpiringIds(t, before) ==> exists i :: 0 <= i < |s| && s[i].id == id)
  }

  method ListIds(ids: set<U64>) returns (s: seq<U64>)
    ensures Lists(s, ids)
  {
    s := [];
    var rest := ids;
    while rest != {}
      invariant rest <= ids
      invariant Lists(s, ids - rest)
      decreases rest
    {
      var id :| id in rest;
      s := s + [id];
      rest := rest - {id};
    }
  }

  class Connection {
    var table: Table

    constructor (table: Table)
      ensures this.table == table
    {
      this.table := table;
    }

    /** Draws ids until the insertion meets no uniqueness violation. */
    method CreateSubscription(rng: Rng, hub: string, topic: string, secret: string) returns (id: U64)
      requires rng.Fair() && |table.Keys| < U64_COUNT
      modifies this`table, rng`position
      ensures id !in old(table) && table == Inserted(old(table), id, hub, topic, secret)
      ensures old(rng.position) < rng.position && id == rng.draws(rng.position - 1)
      ensures forall k :: old(rng.position) <= k < rng.position - 1 ==> rng.draws(k) in old(table)
    {
      assert rng.Offers(rng.position, table.Keys);
      ghost var free: nat :| rng.position <= free && rng.draws(free) !in table.Keys;
      id := rng.NextU64();
      while id in table
        invariant table == old(table)
        invariant old(rng.position) < rng.position && id == rng.draws(rng.position - 1)
        invariant rng.position - 1 <= free
        invariant forall k :: old(rng.position) <= k < rng.position - 1 ==> rng.draws(k) in old(table)
        decreases free - rng.position
      {
        id := rng.NextU64();
      }
      table := table[id := Row(hub, topic, secret, None)];
    }

    method GetSubscriptionsExpireBefore(before: I64) returns (s: seq<Expiring>)
      ensures ListsExpiring(s, table, before)
    {
      var t := table;
      var ids := ListIds(set id | id in t && t[id].Active() && t[id].expiresAt.value <= before);
      assert forall i :: 0 <= i < |ids| ==> ids[i] in ids;
      s := seq(|ids|, i requires 0 <= i < |ids| => Expiring(ids[i], t[ids[i]].hub, t[ids[i]].topic));
      forall id | id in ExpiringIds(table, before)
        ensures exists i :: 0 <= i < |s| && s[i].id == id
      {
        assert id in ids;
        var i :| 0 <= i < |ids| && ids[i] == id;
        assert s[i].id == id;
      }
    }

    method GetOldSubscriptions(id: U64, hub: string, topic: string) returns (s: seq<U64>)
      ensures Lists(s, OldIds(table, id, Pair(hub, topic)))
    {
      s := ListIds(set other | other in table && table[other].hub == hub && table[other].topic == topic && other != id);
      assert (set other | other in table && table[other].hub == hub && table[other].topic == topic && other != id)
          == OldIds(table, id, Pair(hub, topic));
    }

    method ActivateSubscription(id: U64, expiresAt: I64) returns (found: bool)
      modifies this`table
      ensures found == (id in old(table)) && table == Activated(old(table), id, expiresAt)
    {
      found := id in table;
      if found {
        table := table[id := table[id].(expiresAt := Some(expiresAt))];
      }
    }

    method DeactivateSubscriptionsExpireBefore(before: I64)
      modifies this`table
      ensures table == Deactivated(old(table), before)
    {
      table := map id | id in table ::
        if table[id].Active() && table[id].expiresAt.value <= before then table[id].(expiresAt := None) else table[id];
    }

    method DeleteSubscriptions(id: U64) returns (found: bool)
      modifies this`table
      ensures found == (id in old(table)) && table == old(table) - {id}
    {
      found := id in table;
      table := table - {id};
    }

    /** The first row in ascending order of expiry, NULLs excluded. */
    method GetNextExpiry() returns (r: Option<I64>)
      ensures IsNextExpiry(table, r)
    {
      var ids := ListIds(set id | id in table && table[id].Active());
      assert forall i :: 0 <= i < |ids| ==> ids[i] in ids;
      r := None;
      var i := 0;
      while i < |ids|
        invariant 0 <= i <= |ids|
        invariant r.None? <==> i == 0
        invariant r.Some? ==> exists j :: 0 <= j < i && table[ids[j]].expiresAt.value == r.value
        invariant r.Some? ==> forall j :: 0 <= j < i ==> r.value <= table[ids[j]].expiresAt.value
      {
        var expiresAt := table[ids[i]].expiresAt.value;
        if r.None? || expiresAt < r.value {
          r := Some(expiresAt);
        }
        i := i + 1;
      }
      if ids != [] {
        assert ids[0] in ActiveIds(table);
      }
    }
  }
}
