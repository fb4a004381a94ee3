/** The thread-local random generator, as the streams of values it will draw. */
module Random {
  import opened Prelude

  class Rng {
    const draws: nat -> U64
    const secrets: nat -> string
    var position: nat

    constructor (draws: nat -> U64, secrets: nat -> string)
      ensures this.draws == draws && this.secrets == secrets && position == 0
    {
      this.draws, this.secrets, position := draws, secrets, 0;
    }

    ghost predicate Offers(from: nat, taken: set<U64>) {
      exists k: nat :: from <= k && draws(k) !in taken
    }

    /** From any point on, the stream leaves every set that is not all of u64. */
    ghost predicate Fair() {
      forall from: nat, taken: set<U64> {:trigger Offers(from, taken)} ::
        |taken| < U64_COUNT ==> Offers(from, taken)
    }

    method NextU64() returns (x: U64)
      modifies this`position
      ensures x == draws(old(position)) && position == old(position) + 1
    {
      x := draws(position);
      position := position + 1;
    }

    method GenSecret() returns (s: string)
      modifies this`position
      ensures s == secrets(old(position)) && position == old(position) + 1
    {
      s := secrets(position);
      position := position + 1;
    }
  }
}
