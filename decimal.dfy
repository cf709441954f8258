/** Eloquent's `decimal:<n>` attribute cast: a value is presented with exactly
    `n` digits after the point, rounded half away from zero (the cast goes
    through an arbitrary-precision decimal rounded with HALF_UP). */
module Decimal {

  function Pow10(n: nat): (r: nat)
    ensures r >= 1
  {
    if n == 0 then 1 else 10 * Pow10(n - 1)
  }

  /** `x` counted in units of 10^-places. */
  function Scaled(x: real, places: nat): real {
    x * Pow10(places) as real
  }

  predicate IsWhole(y: real) {
    y.Floor as real == y
  }

  /** `x` is representable with `places` digits after the decimal point. */
  predicate HasScale(x: real, places: nat) {
    IsWhole(Scaled(x, places))
  }

  lemma WholePlusHalf(n: int)
    ensures (n as real + 0.5).Floor == n
  {
  }

  /** Rounding a non-negative value half up to a whole number. */
  function RoundUnitsUp(y: real): (k: int)
    requires y >= 0.0
    ensures k >= 0
    ensures -0.5 < k as real - y <= 0.5
    ensures IsWhole(y) ==> k as real == y
  {
    var k := (y + 0.5).Floor;
    if IsWhole(y) then WholePlusHalf(y.Floor); k else k
  }

  /** HALF_UP rounding to a whole number: a tie goes away from zero. */
  function RoundUnits(y: real): (k: int)
    ensures y >= 0.0 ==> -0.5 < k as real - y <= 0.5
    ensures y <= 0.0 ==> -0.5 <= k as real - y < 0.5
    ensures y >= 0.0 ==> k >= 0
    ensures y <= 0.0 ==> k <= 0
    ensures IsWhole(y) ==> k as real == y
  {
    if y >= 0.0 then RoundUnitsUp(y)
    else
      assert IsWhole(y) ==> IsWhole(-y) by {
        if IsWhole(y) { assert (-y).Floor == -y.Floor; }
      }
      -RoundUnitsUp(-y)
  }

  /** A whole number `k` of units of 10^-places, as a value. */
  lemma UnitsValue(k: int, places: nat)
    ensures Scaled(k as real / Pow10(places) as real, places) == k as real
    ensures HasScale(k as real / Pow10(places) as real, places)
    ensures k >= 0 ==> k as real / Pow10(places) as real >= 0.0
    ensures k <= 0 ==> k as real / Pow10(places) as real <= 0.0
  {
    assert Scaled(k as real / Pow10(places) as real, places) == k as real;
    assert (k as real).Floor == k;
  }

  /** Scaling by a positive factor keeps the sign. */
  lemma ScaledSign(x: real, places: nat)
    ensures x >= 0.0 ==> Scaled(x, places) >= 0.0
    ensures x <= 0.0 ==> Scaled(x, places) <= 0.0
  {
  }

  /** Scaling up and back down is the identity. */
  lemma UnscaleScaled(x: real, places: nat)
    ensures Scaled(x, places) / Pow10(places) as real == x
  {
  }

  /** The cast of `x` to `places` digits: the nearest value with that scale,
      ties away from zero, of the same sign as `x`, and `x` itself when `x`
      already has that scale. */
  function RoundHalfUp(x: real, places: nat): (r: real)
    ensures HasScale(r, places)
    ensures x >= 0.0 ==> -0.5 < Scaled(r, places) - Scaled(x, places) <= 0.5
    ensures x <= 0.0 ==> -0.5 <= Scaled(r, places) - Scaled(x, places) < 0.5
    ensures x >= 0.0 ==> r >= 0.0
    ensures x <= 0.0 ==> r <= 0.0
    ensures HasScale(x, places) ==> r == x
  {
    var k := RoundUnits(Scaled(x, places));
    UnitsValue(k, places);
    ScaledSign(x, places);
    UnscaleScaled(x, places);
    k as real / Pow10(places) as real
  }
}
