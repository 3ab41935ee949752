/** The source of randomness both the engine and the generator draw from. */
module Oracle {

  /**
   * Stands for System.Random. The body is a plain linear congruential step;
   * callers rely on nothing but the range promised by `Next`, so every
   * proof about a caller holds for any sequence of draws.
   */
  class Random {
    var seed: nat

    constructor (seed: nat)
      ensures this.seed == seed
    {
      this.seed := seed;
    }

    /** Random.Next(minValue, maxValue): a value in [minValue, maxValue), or minValue when the bounds are equal. */
    method Next(minValue: int, maxValue: int) returns (r: int)
      requires minValue <= maxValue
      modifies this
      ensures minValue == maxValue ==> r == minValue
      ensures minValue < maxValue ==> minValue <= r < maxValue
    {
      seed := (seed * 1103515245 + 12345) % 0x8000_0000;
      r := if minValue == maxValue then minValue else minValue + seed % (maxValue - minValue);
    }
  }
}
