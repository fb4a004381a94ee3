/** Exponential backoff: a sleep whose deadline moves by ever longer waits. */
module Backoff {
  import opened Prelude

  const INITIAL_WAIT := 1

  datatype Inner = Inner(deadline: nat, wait: nat)

  function Wait(inner: Option<Inner>): nat {
    match inner
    case Some(i) => i.wait
    case None => 0
  }

  function Increased(inner: Option<Inner>, now: nat): Inner {
    if inner.None? || inner.value.wait == 0 then Inner(now + INITIAL_WAIT, INITIAL_WAIT)
    else Inner(inner.value.deadline + 2 * inner.value.wait, 2 * inner.value.wait)
  }

  function WasReset(inner: Option<Inner>): Option<Inner> {
    match inner
    case Some(i) => Some(i.(wait := 0))
    case None => None
  }

  predicate Elapsed(inner: Option<Inner>, now: nat) {
    Wait(inner) > 0 ==> inner.value.deadline <= now
  }

  class Backoff {
    var inner: Option<Inner>

    constructor ()
      ensures inner == None
    {
      inner := None;
    }

    function WaitSecs(): nat
      reads this
    {
      Wait(inner)
    }

    /** The doubled wait must still be a `u64`. */
    method Increase(now: nat)
      requires 2 * Wait(inner) <= U64_MAX
      modifies this
      ensures inner == Some(Increased(old(inner), now))
      ensures Wait(inner) == if Wait(old(inner)) == 0 then 1 else 2 * Wait(old(inner))
    {
      if inner.Some? {
        var wait, currentDeadline := inner.value.wait, inner.value.deadline;
        if wait == 0 {
          wait, currentDeadline := INITIAL_WAIT, now;
        } else {
          wait := 2 * wait;
        }
        inner := Some(Inner(currentDeadline + wait, wait));
      } else {
        inner := Some(Inner(now + INITIAL_WAIT, INITIAL_WAIT));
      }
    }

    /** After it nothing is waited for, and the next error starts over as if it were the first. */
    method Reset()
      modifies this
      ensures inner == WasReset(old(inner))
      ensures forall now :: Elapsed(inner, now)
      ensures forall now :: Increased(inner, now) == Increased(None, now)
    {
      if inner.Some? {
        inner := Some(inner.value.(wait := 0));
      }
    }

    method Poll(now: nat) returns (ready: bool)
      ensures ready == Elapsed(inner, now)
    {
      ready := !(inner.Some? && inner.value.wait > 0) || inner.value.deadline <= now;
    }
  }
}
