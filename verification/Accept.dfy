/** Accepting connections, with a pause after each error of the listener. */
module Accept {
  import opened Prelude
  import opened Backoff

  const MAX_BACKOFF := 2 * 64

  /** What the listener answers when polled. */
  datatype Incoming = NotReady | Closed | Failed(error: string) | Accepted(sock: nat)

  datatype Outcome = Pending | Finished | Error(error: string)

  /** An answer of the listener, and the second at which it was given. */
  datatype Polled = Polled(answer: Incoming, at: nat)

  /** The acceptor as a value, with the whole history of its polls of the listener. */
  datatype Acceptor = Acceptor(
    inner: Option<Inner>,
    incoming: seq<Incoming>,
    served: seq<nat>,
    history: seq<Polled>)

  function PollIncoming(s: Acceptor, now: nat): (Acceptor, Incoming) {
    var answer := if s.incoming == [] then NotReady else s.incoming[0];
    (s.(incoming := if s.incoming == [] then [] else s.incoming[1..], history := s.history + [Polled(answer, now)]), answer)
  }

  /** One turn of the accept loop; without an outcome the loop goes on. */
  function Handled(s: Acceptor, now: nat): (Acceptor, Option<Outcome>) {
    var (s1, answer) := PollIncoming(s, now);
    match answer
    case NotReady => (s1, Some(Pending))
    case Closed => (s1, Some(Finished))
    case Failed(error) =>
      if Wait(s.inner) >= MAX_BACKOFF then (s1, Some(Error(error)))
      else (s1.(inner := Some(Increased(s.inner, now))), Some(Pending))
    case Accepted(sock) => (s1.(inner := WasReset(s.inner), served := s.served + [sock]), None)
  }

  /** What one call does once the backoff has elapsed. */
  function Drained(s: Acceptor, now: nat): (Acceptor, Outcome)
    decreases |s.incoming|
  {
    var (s1, outcome) := Handled(s, now);
    match outcome
    case Some(o) => (s1, o)
    case None => Drained(s1, now)
  }

  function Called(s: Acceptor, now: nat): (Acceptor, Outcome) {
    if Elapsed(s.inner, now) then Drained(s, now) else (s, Pending)
  }

  class Subscriber {
    const backoff: Backoff
    /** The answers the listener has ready; with none left it is not ready. */
    var incoming: seq<Incoming>
    /** Connections given to the executor. */
    var served: seq<nat>
    ghost var history: seq<Polled>

    constructor (incoming: seq<Incoming>)
      ensures View() == Acceptor(None, incoming, [], []) && fresh(backoff)
    {
      this.incoming, this.served, this.history := incoming, [], [];
      this.backoff := new Backoff();
    }

    ghost function View(): Acceptor
      reads this, backoff
    {
      Acceptor(backoff.inner, incoming, served, history)
    }

    method TryPollNext(now: nat) returns (answer: Incoming)
      modifies this`incoming, this`history
      ensures (View(), answer) == PollIncoming(old(View()), now)
    {
      answer := NotReady;
      if incoming != [] {
        answer := incoming[0];
        incoming := incoming[1..];
      }
      history := history + [Polled(answer, now)];
    }

    method AcceptAll(now: nat) returns (outcome: Outcome)
      modifies this`incoming, this`served, this`history, backoff
      ensures (View(), outcome) == Called(old(View()), now)
    {
      var ready := backoff.Poll(now);
      if !ready {
        return Pending;
      }
      while true
        invariant Drained(View(), now) == Called(old(View()), now)
        decreases |incoming|
      {
        var answer := TryPollNext(now);
        match answer {
          case NotReady => return Pending;
          case Closed => return Finished;
          case Failed(error) =>
            if backoff.WaitSecs() >= MAX_BACKOFF {
              return Error(error);
            }
            backoff.Increase(now);
            return Pending;
          case Accepted(sock) =>
            backoff.Reset();
            served := served + [sock];
        }
      }
    }
  }

  // ----- What one call does -----

  /** The first `n` answers ready are connections, and no more. */
  predicate Leads(incoming: seq<Incoming>, n: nat) {
    && n <= |incoming| && (forall i :: 0 <= i < n ==> incoming[i].Accepted?)
    && (n < |incoming| ==> !incoming[n].Accepted?)
  }

  function Sockets(incoming: seq<Incoming>, n: nat): seq<nat>
    requires n <= |incoming| && forall i :: 0 <= i < n ==> incoming[i].Accepted?
  {
    seq(n, i requires 0 <= i < n => incoming[i].sock)
  }

  /** The answer that ends the loop: the first that is no connection. */
  function LastAnswerOf(incoming: seq<Incoming>, n: nat): Incoming {
    if n < |incoming| then incoming[n] else NotReady
  }

  /** The answers of the listener that are ready are taken in order, at `now`, up to the first that is no connection. */
  predicate Asked(s: Acceptor, s': Acceptor, now: nat, n: nat)
    requires Leads(s.incoming, n)
  {
    && s'.incoming == s.incoming[Min(n + 1, |s.incoming|)..]
    && s'.served == s.served + Sockets(s.incoming, n)
    && |s'.history| == |s.history| + n + 1 && s'.history[..|s.history|] == s.history
    && (forall i :: 0 <= i < n ==> s'.history[|s.history| + i] == Polled(s.incoming[i], now))
    && s'.history[|s.history| + n] == Polled(LastAnswerOf(s.incoming, n), now)
  }

  /** What follows from that answer, when the wait before it is `wait`. */
  predicate Follows(answer: Incoming, wait: nat, outcome: Outcome) {
    && (outcome.Finished? <==> answer.Closed?)
    && (outcome.Error? <==> answer.Failed? && wait >= 128)
    && (outcome.Error? ==> outcome.error == answer.error)
  }

  /** Once the backoff has elapsed, one call serves every connection that is ready, and ends with the answer behind them. */
  lemma {:induction false} DrainedExact(s: Acceptor, now: nat, n: nat)
    requires Leads(s.incoming, n)
    ensures var (s', outcome) := Drained(s, now);
      var wait := if n > 0 then 0 else Wait(s.inner);
      var answer := LastAnswerOf(s.incoming, n);
      && Asked(s, s', now, n) && Follows(answer, wait, outcome)
      && Wait(s'.inner) == (if answer.Failed? && wait < 128 then (if wait == 0 then 1 else 2 * wait) else wait)
    decreases n
  {
    if n > 0 {
      var s1 := Handled(s, now).0;
      assert s1.incoming == s.incoming[1..];
      DrainedExact(s1, now, n - 1);
      AskedFirst(s, s1, Drained(s1, now).0, now, n);
    } else {
      AskedLast(s, now);
    }
  }

  lemma {:induction false} AskedFirst(s: Acceptor, s1: Acceptor, s': Acceptor, now: nat, n: nat)
    requires 0 < n && Leads(s.incoming, n) && Leads(s.incoming[1..], n - 1)
    requires s1.incoming == s.incoming[1..] && s1.served == s.served + [s.incoming[0].sock]
    requires s1.history == s.history + [Polled(s.incoming[0], now)] && Asked(s1, s', now, n - 1)
    ensures Asked(s, s', now, n)
  {
    SocketsHead(s.incoming, n);
    assert s1.history[..|s.history|] == s.history;
    assert s'.history[..|s1.history|][..|s.history|] == s'.history[..|s.history|];
    forall i | 0 <= i < n ensures s'.history[|s.history| + i] == Polled(s.incoming[i], now) {
      if i > 0 {
        assert s'.history[|s1.history| + (i - 1)] == Polled(s1.incoming[i - 1], now);
      } else {
        assert s'.history[|s.history|] == s'.history[..|s1.history|][|s.history|];
      }
    }
  }

  lemma {:induction false} AskedLast(s: Acceptor, now: nat)
    requires Leads(s.incoming, 0)
    ensures Asked(s, Handled(s, now).0, now, 0) && Handled(s, now).1.Some?
  {
    assert Sockets(s.incoming, 0) == [];
  }

  lemma {:induction false} SocketsHead(incoming: seq<Incoming>, n: nat)
    requires 0 < n && Leads(incoming, n)
    ensures Leads(incoming[1..], n - 1)
    ensures Sockets(incoming, n) == [incoming[0].sock] + Sockets(incoming[1..], n - 1)
  {
  }

  /** The sockets of all connections the listener has answered with, in order. */
  function Connections(h: seq<Polled>): seq<nat> {
    if h == [] then []
    else Connections(h[..|h| - 1]) + if h[|h| - 1].answer.Accepted? then [h[|h| - 1].answer.sock] else []
  }

  ghost predicate Serves(s: Acceptor, before: seq<nat>) {
    s.served == before + Connections(s.history)
  }

  lemma {:induction false} HandledServes(s: Acceptor, now: nat, before: seq<nat>)
    requires Serves(s, before)
    ensures Serves(Handled(s, now).0, before)
  {
    var s1 := PollIncoming(s, now).0;
    assert s1.history[..|s.history|] == s.history;
  }

  lemma {:induction false} DrainedServes(s: Acceptor, now: nat, before: seq<nat>)
    requires Serves(s, before)
    ensures Serves(Drained(s, now).0, before)
    decreases |s.incoming|
  {
    HandledServes(s, now, before);
    var (s1, outcome) := Handled(s, now);
    if outcome.None? { DrainedServes(s1, now, before); }
  }

  /** A call before the deadline of the backoff does nothing; any other is as `DrainedExact` says. */
  lemma {:induction false} CalledExact(s: Acceptor, now: nat, n: nat)
    requires Leads(s.incoming, n)
    ensures var (s', outcome) := Called(s, now);
      if Wait(s.inner) > 0 && now < s.inner.value.deadline then s' == s && outcome == Pending
      else Asked(s, s', now, n) && Follows(LastAnswerOf(s.incoming, n), if n > 0 then 0 else Wait(s.inner), outcome)
  {
    DrainedExact(s, now, n);
  }

  // ----- The pauses between consecutive errors -----

  function Pow2(n: nat): (r: nat)
    ensures r >= 1
  {
    if n == 0 then 1 else 2 * Pow2(n - 1)
  }

  /** Errors since the last accepted connection. */
  function Streak(h: seq<Polled>): nat {
    if h == [] then 0
    else match h[|h| - 1].answer
      case Failed(_) => Streak(h[..|h| - 1]) + 1
      case Accepted(_) => 0
      case _ => Streak(h[..|h| - 1])
  }

  /** When the first of them came. */
  function StreakStart(h: seq<Polled>): nat
    requires Streak(h) > 0
  {
    if h[|h| - 1].answer.Failed? && Streak(h[..|h| - 1]) == 0 then h[|h| - 1].at else StreakStart(h[..|h| - 1])
  }

  /** The earliest time for the next poll of the listener: 2^k - 1 seconds after the first of k errors. */
  function NotBefore(h: seq<Polled>): nat {
    if Streak(h) == 0 then 0 else StreakStart(h) + Pow2(Min(Streak(h), 8)) - 1
  }

  predicate Paced(inner: Option<Inner>, h: seq<Polled>) {
    var k := Min(Streak(h), 8);
    && Wait(inner) == (if k == 0 then 0 else Pow2(k - 1))
    && (k > 0 ==> inner.Some? && inner.value.deadline == NotBefore(h))
  }

  /** Every answer was asked for no earlier than the errors before it allow. */
  predicate NeverEarly(h: seq<Polled>) {
    h == [] || (NeverEarly(h[..|h| - 1]) && NotBefore(h[..|h| - 1]) <= h[|h| - 1].at)
  }

  lemma {:induction false} Pow2Values()
    ensures Pow2(0) == 1 && Pow2(1) == 2 && Pow2(2) == 4 && Pow2(3) == 8 && Pow2(4) == 16
    ensures Pow2(5) == 32 && Pow2(6) == 64 && Pow2(7) == 128 && Pow2(8) == 256
  {
    assert Pow2(4) == 16;
  }

  lemma {:induction false} WaitIsBounded(inner: Option<Inner>, h: seq<Polled>)
    requires Paced(inner, h)
    ensures Wait(inner) <= MAX_BACKOFF
    ensures Wait(inner) >= MAX_BACKOFF <==> Streak(h) >= 8
    ensures forall now :: Elapsed(inner, now) <==> NotBefore(h) <= now
  {
    Pow2Values();
  }

  lemma {:induction false} ErrorPaces(inner: Option<Inner>, h: seq<Polled>, error: string, now: nat)
    requires Paced(inner, h)
    ensures Paced(if Wait(inner) >= MAX_BACKOFF then inner else Some(Increased(inner, now)), h + [Polled(Failed(error), now)])
  {
    Pow2Values();
    WaitIsBounded(inner, h);
    var h' := h + [Polled(Failed(error), now)];
    assert h'[..|h|] == h;
  }

  lemma {:induction false} OtherPaces(inner: Option<Inner>, h: seq<Polled>, answer: Incoming, now: nat)
    requires Paced(inner, h) && !answer.Failed?
    ensures Paced(if answer.Accepted? then WasReset(inner) else inner, h + [Polled(answer, now)])
  {
    var h' := h + [Polled(answer, now)];
    assert h'[..|h|] == h;
  }

  lemma {:induction false} NeverEarlyGrows(h: seq<Polled>, answer: Incoming, now: nat)
    requires NeverEarly(h) && NotBefore(h) <= now
    ensures NeverEarly(h + [Polled(answer, now)])
  {
    assert (h + [Polled(answer, now)])[..|h|] == h;
  }

  lemma {:induction false} StreakGrows(h: seq<Polled>, error: string, now: nat)
    ensures Streak(h + [Polled(Failed(error), now)]) == Streak(h) + 1
  {
    assert (h + [Polled(Failed(error), now)])[..|h|] == h;
  }

  ghost predicate Good(s: Acceptor) {
    Paced(s.inner, s.history) && NeverEarly(s.history)
  }

  /** The listener was polled, and its last answer is an error that the streak makes final. */
  predicate GivesUp(h: seq<Polled>) {
    h != [] && h[|h| - 1].answer.Failed? && Streak(h) >= 9
  }

  lemma {:induction false} LastAnswer(h: seq<Polled>, answer: Incoming, now: nat)
    ensures var h' := h + [Polled(answer, now)];
      GivesUp(h') <==> answer.Failed? && Streak(h) >= 8
  {
    if answer.Failed? { StreakGrows(h, answer.error, now); }
  }

  lemma {:induction false} HandledPaces(s: Acceptor, now: nat)
    requires Good(s) && Elapsed(s.inner, now)
    ensures var (s1, outcome) := Handled(s, now);
      && Good(s1) && |s1.history| > |s.history|
      && (outcome.None? ==> Elapsed(s1.inner, now))
      && ((outcome.Some? && outcome.value.Error?) <==> GivesUp(s1.history))
  {
    var (s1, answer) := PollIncoming(s, now);
    WaitIsBounded(s.inner, s.history);
    NeverEarlyGrows(s.history, answer, now);
    LastAnswer(s.history, answer, now);
    if answer.Failed? {
      ErrorPaces(s.inner, s.history, answer.error, now);
    } else {
      OtherPaces(s.inner, s.history, answer, now);
    }
  }

  lemma {:induction false} DrainedPaces(s: Acceptor, now: nat)
    requires Good(s) && Elapsed(s.inner, now)
    ensures var (s', outcome) := Drained(s, now);
      Good(s') && |s'.history| > |s.history| && (outcome.Error? <==> GivesUp(s'.history))
    decreases |s.incoming|
  {
    var (s1, outcome) := Handled(s, now);
    HandledPaces(s, now);
    if outcome.None? {
      DrainedPaces(s1, now);
    }
  }

  /** A call, and what has arrived at the listener since the last one. */
  datatype Call = Call(now: nat, arrivals: seq<Incoming>)

  function AfterCall(s: Acceptor, call: Call): (Acceptor, Outcome) {
    Called(s.(incoming := s.incoming + call.arrivals), call.now)
  }

  function AfterCalls(s: Acceptor, calls: seq<Call>): Acceptor
    decreases |calls|
  {
    if calls == [] then s else AfterCalls(AfterCall(s, calls[0]).0, calls[1..])
  }

  /** A call fails exactly when the listener has answered it with the ninth consecutive error, or a later one. */
  lemma {:induction false} CallPaces(s: Acceptor, call: Call)
    requires Good(s)
    ensures var (s', outcome) := AfterCall(s, call);
      && Good(s')
      && (outcome.Error? <==> |s'.history| > |s.history| && GivesUp(s'.history))
      && (call.now < NotBefore(s.history) ==> s'.history == s.history && outcome == Pending)
      && (NotBefore(s.history) <= call.now ==> |s'.history| > |s.history|)
  {
    var before := s.(incoming := s.incoming + call.arrivals);
    WaitIsBounded(s.inner, s.history);
    if Elapsed(s.inner, call.now) {
      DrainedPaces(before, call.now);
    }
  }

  /**
   In every run: after k consecutive errors the wait is 2^(k-1) seconds and the deadline 2^k - 1
   seconds after the first, both standing still from the eighth error on; the wait never exceeds
   128; and the listener is never polled before such a deadline.
   */
  lemma {:induction false} PacedInEveryRun(s: Acceptor, calls: seq<Call>)
    requires Good(s)
    ensures var s' := AfterCalls(s, calls);
      Paced(s'.inner, s'.history) && NeverEarly(s'.history) && Wait(s'.inner) <= 128
    decreases |calls|
  {
    if calls == [] {
      WaitIsBounded(s.inner, s.history);
    } else {
      CallPaces(s, calls[0]);
      PacedInEveryRun(AfterCall(s, calls[0]).0, calls[1..]);
    }
  }

  /** In every run from the start, every connection the listener gives is served, once and in order. */
  lemma {:induction false} EveryConnectionIsServed(incoming: seq<Incoming>, calls: seq<Call>)
    ensures var s' := AfterCalls(Acceptor(None, incoming, [], []), calls);
      s'.served == Connections(s'.history)
  {
    CallsServe(Acceptor(None, incoming, [], []), calls, []);
  }

  lemma {:induction false} CallsServe(s: Acceptor, calls: seq<Call>, before: seq<nat>)
    requires Serves(s, before)
    ensures Serves(AfterCalls(s, calls), before)
    decreases |calls|
  {
    if calls != [] {
      DrainedServes(s.(incoming := s.incoming + calls[0].arrivals), calls[0].now, before);
      CallsServe(AfterCall(s, calls[0]).0, calls[1..], before);
    }
  }

  lemma {:induction false} PacedFromTheStart(incoming: seq<Incoming>, calls: seq<Call>)
    ensures var s' := AfterCalls(Acceptor(None, incoming, [], []), calls);
      Paced(s'.inner, s'.history) && NeverEarly(s'.history) && Wait(s'.inner) <= 128
  {
    PacedInEveryRun(Acceptor(None, incoming, [], []), calls);
  }
}
