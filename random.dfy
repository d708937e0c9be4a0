/** `System.Random` as an oracle.  The generator's internal algorithm is not
    modelled: a `Rng` replays a fixed stream of raw draws (the stream stands
    for the seed), and each call consumes the next draw and maps it into the
    range the call promises. */
module Random {

  /** `2^53`: `NextDouble` answers a multiple of `2^-53` in `[0, 1)`. */
  const DoubleSteps: nat := 0x20_0000_0000_0000

  class Rng {
    /** The raw draws, in order. */
    const stream: nat -> nat
    /** How many draws have been consumed. */
    var drawn: nat

    constructor (stream: nat -> nat)
      ensures this.stream == stream && drawn == 0
    {
      this.stream := stream;
      drawn := 0;
    }

    /** `Next(maxValue)`: a value in `[0, maxValue)`, and `0` for a
        `maxValue` of `0`. */
    method Next(maxValue: int) returns (x: int)
      requires maxValue >= 0
      modifies this
      ensures maxValue == 0 ==> x == 0
      ensures maxValue > 0 ==> 0 <= x < maxValue
      ensures maxValue > 0 ==> x == stream(old(drawn)) % maxValue
      ensures drawn == old(drawn) + 1
    {
      x := if maxValue == 0 then 0 else stream(drawn) % maxValue;
      drawn := drawn + 1;
    }

    /** `Next(minValue, maxValue)`: a value in `[minValue, maxValue)`, and
        `minValue` when the range is empty. */
    method NextInRange(minValue: int, maxValue: int) returns (x: int)
      requires minValue <= maxValue
      modifies this
      ensures minValue == maxValue ==> x == minValue
      ensures minValue < maxValue ==> minValue <= x < maxValue
      ensures drawn == old(drawn) + 1
    {
      x := if minValue == maxValue then minValue else minValue + stream(drawn) % (maxValue - minValue);
      drawn := drawn + 1;
    }

    /** `NextDouble()`: a value in `[0, 1)`. */
    method NextDouble() returns (x: real)
      modifies this
      ensures 0.0 <= x < 1.0
      ensures drawn == old(drawn) + 1
    {
      x := (stream(drawn) % DoubleSteps) as real / DoubleSteps as real;
      drawn := drawn + 1;
    }
  }
}
