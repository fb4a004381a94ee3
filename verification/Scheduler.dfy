/** The renewal task: sleeps until the next tick, ticks, and sleeps again. */
module Scheduler {
  import opened Prelude
  import opened Subscriptions
  import opened Protocol
  import opened Handle
  import opened Service

  /** The deadline `poll` waits for, from the armed sleep and the shared next tick. */
  function Rearmed(sleep: Option<U64>, nextTick: U64): Option<U64> {
    match sleep
    case Some(deadline) => if nextTick != U64_MAX && nextTick < deadline then Some(nextTick) else sleep
    case None => Decode(nextTick)
  }

  /** The next tick is never behind an armed sleep; `hasten` and `poll` both keep it so. */
  predicate Ahead(sleep: Option<U64>, nextTick: U64) {
    sleep.Some? ==> nextTick <= sleep.value && nextTick != U64_MAX
  }

  lemma {:induction false} RearmedFollowsNextTick(sleep: Option<U64>, nextTick: U64)
    ensures Rearmed(sleep, nextTick) == Decode(nextTick) <==> Ahead(sleep, nextTick)
  {
  }

  /** In any state the deadline is the earlier of the armed sleep and the next tick, where no sleep and no tick count as latest. */
  lemma {:induction false} RearmedIsEarlier(sleep: Option<U64>, nextTick: U64)
    requires sleep != Some(U64_MAX)
    ensures Encode(Rearmed(sleep, nextTick)) == Min(Encode(sleep), nextTick)
    ensures Rearmed(sleep, nextTick).None? <==> sleep.None? && nextTick == U64_MAX
  {
  }

  /** Everything one poll of the task promises, with the waker taken and registered anew. */
  ghost predicate Polls(alive: bool, before: Snapshot, after: Snapshot, sleep: Option<U64>, sleep': Option<U64>,
                        now: U64, margin: U64, turns: seq<Turn>, expiry: Option<I64>)
  {
    var armed := Rearmed(sleep, before.nextTick);
    if !alive then
      after == before.(woken := false) && sleep' == sleep
    else if armed.Some? && armed.value <= now then
      && ValidRenewals(before.table, before.table.Keys, now + margin + 1, turns)
      && DueIds(turns, |turns|) <= before.table.Keys
      && after.table == Renewed(before.table, now + margin + 1, turns)
      && after.spawned == before.spawned + RenewalForms(before.table, turns)
      && IsNextExpiry(after.table, expiry)
      && sleep' == TickAnswer(expiry, margin) == Decode(after.nextTick)
      && (sleep'.Some? ==> now + 2 <= sleep'.value)
      && after.registered && !after.woken
    else
      after == before.(registered := true, woken := false) && sleep' == armed
  }

  class Scheduler {
    const service: Service
    /** The weak reference to the service still upgrades. */
    var alive: bool
    var sleep: Option<U64>

    constructor (service: Service)
      ensures this.service == service && alive && sleep == Decode(service.handle.nextTick)
    {
      this.service, alive, sleep := service, true, Decode(service.handle.nextTick);
    }

    /** One poll of the task, at second `now`, with no other thread in between. */
    method Poll(now: U64) returns (done: bool, ghost turns: seq<Turn>, ghost expiry: Option<I64>)
      requires ClockInRange(now, service.renewalMargin)
      requires service.rng.Fair() && 2 * |service.conn.table.Keys| < U64_COUNT
      modifies this`sleep, service`spawned, service.conn`table, service.rng`position, service.handle
      ensures done == !alive
      ensures Polls(alive, old(service.View()), service.View(), old(sleep), sleep, now, service.renewalMargin, turns, expiry)
      ensures exists at :: Drawn(service.rng, turns, at, old(service.rng.position), service.rng.position)
      ensures alive && Ahead(old(sleep), old(service.handle.nextTick)) ==> sleep == Decode(service.handle.nextTick)
    {
      turns, expiry := [], None;
      NothingDrawn(service.rng, service.rng.position);
      // The executor takes the wake-up before it polls the task.
      service.handle.woken := false;
      if !alive {
        return true, turns, expiry;
      }
      done := false;
      service.handle.Register();
      var nextTick := service.handle.DecodeNextTick();
      if sleep.Some? {
        if nextTick.Some? && nextTick.value < sleep.value {
          sleep := nextTick;
        }
      } else if nextTick.Some? {
        sleep := nextTick;
      } else {
        return;
      }
      if now < sleep.value {
        return;
      }
      var next;
      next, turns, expiry := service.Tick(now);
      if next.Some? {
        service.handle.nextTick := next.value;
        sleep := next;
      } else {
        service.handle.nextTick := U64_MAX;
        sleep := None;
      }
    }
  }
}
