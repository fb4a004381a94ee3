/** The methods of the service and the scheduler take the steps of the run machines. */
module Refinement {
  import opened Prelude
  import opened Subscriptions
  import opened Protocol
  import opened Handle
  import opened Service
  import opened Scheduler
  import opened Runs
  import opened Timed
  import Coverage
  import Interleaving

  /** Ids that no row has are enough for the table; runs ask in addition that no id comes back. */
  lemma {:induction false} NeverReused(t: Table, used: set<U64>, before: int, turns: seq<Turn>, n: nat)
    requires n <= |turns| && ValidTurns(t, t.Keys, before, turns, n) && BornIds(turns, n) !! used
    ensures ValidTurns(t, used, before, turns, n)
  {
    if n > 0 { NeverReused(t, used, before, turns, n - 1); }
  }

  ghost predicate Shows(w: World, s: Snapshot) {
    w.table == s.table && w.nextTick == s.nextTick
  }

  /** A timed state shows a running service: its wake flag is the task's, whose waker is registered or was used. */
  ghost predicate ShowsTimed(s: Timed, snapshot: Snapshot) {
    && Shows(s.world, snapshot) && s.woken == snapshot.woken
    && (snapshot.registered || snapshot.woken)
  }

  /** What `VerifyIntent` promises on acceptance is the step `Verified`; otherwise there is no step at all. */
  lemma {:induction false} VerifyIntentIsAStep(w: World, before: Snapshot, after: Snapshot, id: U64, query: Query, response: Response, removed: seq<U64>)
    requires Sound(w) && Shows(w, before) && Verifies(before, after, w.now, w.margin, id, query, response, removed)
    ensures if Accepts(before.table, id, query) then
        var e := Verified(id, Pair(before.table[id].hub, query.topic), query.leaseSeconds, removed);
        && Enabled(w, e) && Shows(Next(w, e), after)
        && after.spawned == before.spawned + Sent(w, e)
      else after == before
  {
  }

  /** In a timed run it is a move, which wakes the task whenever its tick gets earlier. */
  lemma {:induction false} VerifyIntentIsAMove(s: Timed, before: Snapshot, after: Snapshot, id: U64, query: Query,
                                               response: Response, removed: seq<U64>, delay: nat)
    requires Sound(s.world) && ShowsTimed(s, before)
    requires Verifies(before, after, s.world.now, s.world.margin, id, query, response, removed)
    ensures if Accepts(before.table, id, query) then
        var m := Do(Verified(id, Pair(before.table[id].hub, query.topic), query.leaseSeconds, removed));
        CanMove(s, m, delay) && ShowsTimed(Moved(s, m), after)
      else ShowsTimed(s, after)
  {
    VerifyIntentIsAStep(s.world, before, after, id, query, response, removed);
  }

  /** What `Scheduler.Poll` promises is the move `Poll`, given that the ids drawn were never used before. */
  lemma {:induction false} PollIsAMove(s: Timed, before: Snapshot, after: Snapshot, sleep: Option<U64>,
                                       turns: seq<Turn>, expiry: Option<I64>, delay: nat)
    requires Sound(s.world) && s.world.task.Idle? && Shows(s.world, before) && BornIds(turns, |turns|) !! s.world.used
    requires Polls(true, before, after, s.sleep, sleep, s.world.now, s.world.margin, turns, expiry)
    ensures CanMove(s, Poll(turns, expiry), delay)
    ensures var s' := Moved(s, Poll(turns, expiry)); ShowsTimed(s', after) && s'.sleep == sleep
    ensures after.spawned == before.spawned + if Due(s) then Sent(s.world, Ticked(turns, expiry)) else []
  {
    if Due(s) {
      NeverReused(before.table, s.world.used, s.world.now + s.world.margin + 1, turns, |turns|);
    } else {
      assert before.spawned + [] == before.spawned;
    }
  }

  /** What `Hub.Subscribe` promises is the step `Subscribed`, given that the id was never used before. */
  lemma {:induction false} SubscribeIsAStep(w: World, t': Table, form: Form)
    requires form.Subscribe? && form.id !in w.used
    requires t' == Inserted(w.table, form.id, form.hub, form.topic, form.secret)
    ensures var e := Subscribed(form.id, form.hub, form.topic, form.secret);
      Enabled(w, e) && Next(w, e).table == t' && Sent(w, e) == [form]
  {
  }

  /** What `Hub.Unsubscribe` promises is the step `Unsubscribed`, of whatever id. */
  lemma {:induction false} UnsubscribeIsAStep(w: World, t': Table, form: Form, id: U64, hub: string, topic: string)
    requires form == Form.Unsubscribe(id, hub, topic) && t' == w.table - {id}
    ensures var e := Unsubscribed(id, hub, topic); Enabled(w, e) && Next(w, e).table == t' && Sent(w, e) == [form]
  {
  }

  /** What `RenewSubscriptions` promises is the step `Renewal`, given that the ids drawn were never used before. */
  lemma {:induction false} RenewSubscriptionsIsAStep(w: World, before: Snapshot, after: Snapshot, turns: seq<Turn>)
    requires Sound(w) && Shows(w, before) && BornIds(turns, |turns|) !! w.used
    requires ValidRenewals(before.table, before.table.Keys, w.now + w.margin + 1, turns) && DueIds(turns, |turns|) <= before.table.Keys
    requires after == before.(table := Renewed(before.table, w.now + w.margin + 1, turns),
                              spawned := before.spawned + RenewalForms(before.table, turns))
    ensures Enabled(w, Renewal(turns)) && Shows(Next(w, Renewal(turns)), after)
    ensures after.spawned == before.spawned + Sent(w, Renewal(turns))
  {
    NeverReused(before.table, w.used, w.now + w.margin + 1, turns, |turns|);
  }

  // ----- The accesses of one task, with no other in between -----

  /** The scheduler's state access by access, with the task parked, agrees with a timed state. */
  predicate Agrees(s: Interleaving.State, t: Timed) {
    && s.now == t.world.now && s.nextTick == t.world.nextTick && s.sleep == t.sleep && s.woken == t.woken
    && s.pc.Parked? && (s.registered || s.woken)
  }

  /** The accesses of one poll, together, are the timed move `Poll`. */
  lemma {:induction false} PollAccessesAreAMove(s: Interleaving.State, t: Timed, turns: seq<Turn>, expiry: Option<I64>, delay: nat)
    requires Sound(t.world) && Agrees(s, t) && !s.dropped && CanMove(t, Poll(turns, expiry), delay)
    ensures var answer := if Due(t) then TickAnswer(expiry, t.world.margin) else None;
      var steps := Interleaving.PollSteps(s, answer);
      Interleaving.Legal(s, steps) && Agrees(Interleaving.After(s, steps), Moved(t, Poll(turns, expiry)))
  {
    var answer := if Due(t) then TickAnswer(expiry, t.world.margin) else None;
    if Due(t) {
      Coverage.NoScheduledTimeIsTheSentinel(t.world, Ticked(turns, expiry));
    }
    Interleaving.UninterruptedPoll(s, answer);
  }

  /** The accesses of one `hasten`, together, do to the next tick and the task what a verification's move does. */
  lemma {:induction false} HastenAccessesAreAMove(s: Interleaving.State, t: Timed, thread: nat, e: Event)
    requires ClockInRange(t.world.now, t.world.margin) && Agrees(s, t) && !s.dropped && thread !in s.waking
    requires e.Verified? || e.Checked?
    ensures var steps := Interleaving.HastenSteps(s, thread, RefreshOf(t.world, e.lease));
      Interleaving.Legal(s, steps) && Agrees(Interleaving.After(s, steps), Moved(t, Do(e)))
  {
    Interleaving.UninterruptedHasten(s, thread, RefreshOf(t.world, e.lease));
  }
}
