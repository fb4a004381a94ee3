/**
 The `subscriptions` table as a value: what each SQL query selects and what each
 SQL statement leaves behind.
 */
module Subscriptions {
  import opened Prelude

  datatype Pair = Pair(hub: string, topic: string)

  datatype Row = Row(hub: string, topic: string, secret: string, expiresAt: Option<I64>) {
    predicate Active() {
      expiresAt.Some?
    }

    function At(): Pair {
      Pair(hub, topic)
    }
  }

  type Table = map<U64, Row>

  function ActiveIds(t: Table): set<U64> {
    set id | id in t && t[id].Active()
  }

  function PairIds(t: Table, p: Pair): set<U64> {
    set id | id in t && t[id].At() == p
  }

  /** Rows whose expiry is at or before `before`; a NULL expiry never compares. */
  function ExpiringIds(t: Table, before: int): set<U64> {
    set id | id in t && t[id].Active() && t[id].expiresAt.value <= before
  }

  function OldIds(t: Table, id: U64, p: Pair): set<U64> {
    PairIds(t, p) - {id}
  }

  function GetTopic(t: Table, id: U64): Option<(string, string)> {
    if id in t then Some((t[id].topic, t[id].secret)) else None
  }

  predicate SubscriptionExists(t: Table, id: U64, topic: string) {
    id in t && t[id].topic == topic
  }

  function HubOfInactive(t: Table, id: U64, topic: string): Option<string> {
    if id in t && t[id].topic == topic && !t[id].Active() then Some(t[id].hub) else None
  }

  function Inserted(t: Table, id: U64, hub: string, topic: string, secret: string): Table {
    t[id := Row(hub, topic, secret, None)]
  }

  function Activated(t: Table, id: U64, expiresAt: I64): Table {
    if id in t then t[id := t[id].(expiresAt := Some(expiresAt))] else t
  }

  function Deactivated(t: Table, before: int): Table {
    map id | id in t :: if id in ExpiringIds(t, before) then t[id].(expiresAt := None) else t[id]
  }

  /** `r` is the least expiry of an active row, or none when no row is active. */
  ghost predicate IsNextExpiry(t: Table, r: Option<I64>) {
    match r
    case None => ActiveIds(t) == {}
    case Some(least) =>
      && (exists id :: id in ActiveIds(t) && t[id].expiresAt.value == least)
      && (forall id :: id in ActiveIds(t) ==> least <= t[id].expiresAt.value)
  }

  /** At most one row of the pair is active. */
  ghost predicate OneActiveAt(t: Table, p: Pair) {
    forall a, b :: a in ActiveIds(t) && b in ActiveIds(t) && t[a].At() == p == t[b].At() ==> a == b
  }

  /** At most one row of each (hub, topic) is active. */
  ghost predicate OneActive(t: Table) {
    forall p :: OneActiveAt(t, p)
  }
}
