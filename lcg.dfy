/** The board's seeded pseudo-random sequence: a linear congruential
    generator whose state is one integer seed, advanced on every draw. */
module Lcg {

  const Multiplier: int := 9301
  const Increment: int := 49297
  const Modulus: int := 233280

  /** JavaScript's `%`: the remainder truncates toward zero, so it takes the
      sign of the dividend (Dafny's `%` is Euclidean and never negative). */
  function JsRem(a: int, m: int): (r: int)
    requires m > 0
    ensures a >= 0 ==> 0 <= r < m
    ensures a < 0 ==> -m < r <= 0
    ensures a - r == m * JsQuot(a, m)
  {
    if a >= 0 then a % m else -((-a) % m)
  }

  /** JavaScript's truncating quotient, the partner of JsRem. */
  function JsQuot(a: int, m: int): int
    requires m > 0
  {
    if a >= 0 then a / m else -((-a) / m)
  }

  /** One step of `random`: seed' = (seed * 9301 + 49297) % 233280. */
  function NextSeed(seed: int): (next: int)
    ensures seed >= 0 ==> 0 <= next < Modulus
    ensures seed >= 0 ==> next == (seed * Multiplier + Increment) % Modulus
  {
    JsRem(seed * Multiplier + Increment, Modulus)
  }

  /** The seed after `k` draws. */
  function SeedAfter(seed: int, k: nat): int
  {
    if k == 0 then seed else NextSeed(SeedAfter(seed, k - 1))
  }

  /** A non-negative seed stays in [0, 233280) after any positive number of draws. */
  lemma {:induction false} SeedAfterInRange(seed: int, k: nat)
    requires seed >= 0
    ensures SeedAfter(seed, k) >= 0
    ensures k > 0 ==> SeedAfter(seed, k) < Modulus
  {
    if k > 0 {
      SeedAfterInRange(seed, k - 1);
    }
  }

  /** Draws compose: k draws followed by j more are k + j draws. */
  lemma {:induction false} SeedAfterAdd(seed: int, k: nat, j: nat)
    ensures SeedAfter(SeedAfter(seed, k), j) == SeedAfter(seed, k + j)
  {
    if j > 0 {
      SeedAfterAdd(seed, k, j - 1);
    }
  }

  /** `randomTileValue(min, max)` applied to the fresh seed: the uniform value
      seed / 233280 scaled to 1 + max - min buckets, floored, shifted by min.
      Exactly: floor(seed * (1 + max - min) / 233280) + min, computed on integers. */
  function ScaledValue(seed: int, min: int, max: int): (v: int)
    ensures min <= max && 0 <= seed < Modulus ==> min <= v <= max
  {
    var buckets := 1 + max - min;
    assert min <= max && 0 <= seed < Modulus ==> 0 <= seed * buckets < Modulus * buckets by {
      if min <= max && 0 <= seed < Modulus {
        assert seed * buckets >= 0;
        assert Modulus * buckets - seed * buckets == (Modulus - seed) * buckets;
      }
    }
    seed * buckets / Modulus + min
  }
}
