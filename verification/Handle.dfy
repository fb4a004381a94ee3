/** The shared half of the renewal scheduler: the next tick and the task's waker. */
module Handle {
  import opened Prelude

  class Handle {
    /** Seconds since the epoch; `U64_MAX` stands for no tick. */
    var nextTick: U64
    /** A waker is registered with the `AtomicWaker`. */
    var registered: bool
    /** The task has been woken since it was last polled. */
    var woken: bool

    constructor (firstTick: Option<U64>)
      ensures nextTick == Encode(firstTick) && !registered && woken
    {
      nextTick := match firstTick case Some(t) => t case None => U64_MAX;
      // The executor polls a spawned task once without being asked to.
      registered, woken := false, true;
    }

    method Register()
      modifies this`registered
      ensures registered
    {
      registered := true;
    }

    method Wake()
      modifies this`registered, this`woken
      ensures !registered && woken == (old(woken) || old(registered))
    {
      if registered {
        registered, woken := false, true;
      }
    }

    method Hasten(tick: U64)
      modifies this
      ensures nextTick == Min(old(nextTick), tick)
      ensures woken == (old(woken) || (old(registered) && tick < old(nextTick)))
      ensures registered == (old(registered) && old(nextTick) <= tick)
    {
      var prev := nextTick;
      nextTick := if tick < prev then tick else prev;
      if tick < prev {
        Wake();
      }
    }

    function DecodeNextTick(): (r: Option<U64>)
      reads this`nextTick
      ensures Encode(r) == nextTick
    {
      Decode(nextTick)
    }
  }

  function Encode(tick: Option<U64>): U64 {
    match tick
    case Some(t) => t
    case None => U64_MAX
  }

  function Decode(raw: U64): Option<U64> {
    if raw == U64_MAX then None else Some(raw)
  }
}
