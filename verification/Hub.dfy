/** Requests to the hub: each changes the table and hands out one form. */
module Hub {
  import opened Prelude
  import opened Subscriptions
  import opened Protocol
  import opened Random
  import opened Db

  method CreateSubscription(conn: Connection, rng: Rng, hub: string, topic: string)
    returns (id: U64, secret: string)
    requires rng.Fair() && |conn.table.Keys| < U64_COUNT
    modifies conn`table, rng`position
    ensures id !in old(conn.table) && conn.table == Inserted(old(conn.table), id, hub, topic, secret)
    ensures old(rng.position) + 1 < rng.position
    ensures secret == rng.secrets(old(rng.position)) && id == rng.draws(rng.position - 1)
  {
    secret := rng.GenSecret();
    id := conn.CreateSubscription(rng, hub, topic, secret);
  }

  method Subscribe(conn: Connection, rng: Rng, hub: string, topic: string) returns (form: Form)
    requires rng.Fair() && |conn.table.Keys| < U64_COUNT
    modifies conn`table, rng`position
    ensures form.Subscribe? && form.hub == hub && form.topic == topic && form.id !in old(conn.table)
    ensures conn.table == Inserted(old(conn.table), form.id, hub, topic, form.secret)
    ensures old(rng.position) + 1 < rng.position
    ensures form.secret == rng.secrets(old(rng.position)) && form.id == rng.draws(rng.position - 1)
  {
    var id, secret := CreateSubscription(conn, rng, hub, topic);
    form := Form.Subscribe(id, hub, topic, secret);
  }

  method Unsubscribe(conn: Connection, id: U64, hub: string, topic: string) returns (form: Form)
    modifies conn`table
    ensures form == Form.Unsubscribe(id, hub, topic)
    ensures conn.table == old(conn.table) - {id}
  {
    var _ := conn.DeleteSubscriptions(id);
    form := Form.Unsubscribe(id, hub, topic);
  }
}
