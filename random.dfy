/**
 * The random number generator both backtrackers draw from. The generator
 * itself is not modelled: it replays a stream of draws fixed when it is
 * created (standing in for the time-based seed), and all that the maze
 * relies on is that every draw lands in the requested range.
 */
module RandomNumbers {

  /**
   * The index in [0, n) that the draw number `used` of the stream `draws`
   * selects; once the stream is used up every draw selects 0.
   */
  function Draw(draws: seq<nat>, used: nat, n: nat): (k: nat)
    requires 0 < n
    ensures k < n
    ensures used < |draws| ==> k == draws[used] % n
  {
    if used < |draws| then draws[used] % n else 0
  }

  class Random {
    /** The draws, consumed in order; past the end every draw is the lower bound. */
    const draws: seq<nat>
    /** How many draws have been made. */
    var used: nat

    constructor (draws: seq<nat>)
      ensures this.draws == draws && used == 0
    {
      this.draws := draws;
      used := 0;
    }

    /** A draw in [minValue, maxValue), as `Random.Next(minValue, maxValue)` returns. */
    method Next(minValue: int, maxValue: int) returns (k: int)
      requires minValue < maxValue
      modifies this`used
      ensures minValue <= k < maxValue
      ensures used == old(used) + 1
      ensures k == minValue + Draw(draws, old(used), maxValue - minValue)
    {
      if used < |draws| {
        k := minValue + draws[used] % (maxValue - minValue);
      } else {
        k := minValue;
      }
      used := used + 1;
    }
  }
}
