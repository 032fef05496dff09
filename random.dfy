/**
 * The pseudo-random generator the game draws food positions from
 * (java.util.Random). Its output is not modelled bit for bit: the generator
 * is an arbitrary, fixed stream of raw values, and the k-th call of
 * nextInt(bound) returns the k-th raw value reduced into [0, bound).
 */
module JavaRandom {

  class Random {
    /** The raw value behind each call, in call order. */
    const source: nat -> int

    /** How many values have been drawn so far. */
    var calls: nat

    constructor (source: nat -> int)
      ensures this.source == source && calls == 0
    {
      this.source := source;
      calls := 0;
    }

    /** What the k-th call of nextInt(bound) returns. */
    function Value(k: nat, bound: int): (r: int)
      requires bound > 0
      ensures 0 <= r < bound
    {
      source(k) % bound
    }

    /** nextInt(bound): a value in [0, bound); the stream advances by one. */
    method NextInt(bound: int) returns (r: int)
      requires bound > 0
      modifies this
      ensures 0 <= r < bound
      ensures r == Value(old(calls), bound)
      ensures calls == old(calls) + 1
    {
      r := Value(calls, bound);
      calls := calls + 1;
    }
  }
}
