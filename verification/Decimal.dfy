/** `sdk.Dec`: an integer counting units of the 18th decimal. Only the operations
    that the modelled code uses are here. Bit-length panics are not part of the model. */
module Decimal {
  import opened Prelude

  type Dec = int

  const ONE: Dec := 1_000_000_000_000_000_000
  const HALF: int := 500_000_000_000_000_000

  /** Drops 18 digits and rounds half to even (x/common/dec.go). */
  function ChopPrecisionAndRound(d: int): (r: int)
    ensures -ONE <= 2 * (d - r * ONE) <= ONE
    ensures (d - r * ONE == HALF || d - r * ONE == -HALF) ==> r % 2 == 0
    decreases d < 0
  {
    if d < 0 then -ChopPrecisionAndRound(-d)
    else
      var quo, rem := d / ONE, d % ONE;
      if rem == 0 then quo
      else if rem < HALF then quo
      else if HALF < rem then quo + 1
      else if quo % 2 == 0 then quo
      else quo + 1
  }

  /** Nearest with ties to even leaves one candidate: any such `r` is the result. */
  lemma ChopIsTheNearestEven(d: int, r: int)
    requires -ONE <= 2 * (d - r * ONE) <= ONE
    requires d - r * ONE == HALF || d - r * ONE == -HALF ==> r % 2 == 0
    ensures r == ChopPrecisionAndRound(d)
  {
    var c := ChopPrecisionAndRound(d);
    assert -2 * ONE <= 2 * ((r - c) * ONE) <= 2 * ONE;
  }

  lemma ChopIsOdd(d: int)
    ensures ChopPrecisionAndRound(-d) == -ChopPrecisionAndRound(d)
  {
    ChopIsTheNearestEven(-d, -ChopPrecisionAndRound(d));
  }

  lemma ChopIsMonotone(d: int, e: int)
    requires d <= e
    ensures ChopPrecisionAndRound(d) <= ChopPrecisionAndRound(e)
  {
    var c, f := ChopPrecisionAndRound(d), ChopPrecisionAndRound(e);
    assert c * ONE <= f * ONE + ONE;
    assert c == f + 1 ==> d == e;
  }

  function Mul(a: Dec, b: Dec): Dec { ChopPrecisionAndRound(a * b) }

  function Quo(a: Dec, b: Dec): Dec
    requires b != 0
  {
    ChopPrecisionAndRound(TruncDiv(a * ONE * ONE, b))
  }

  function QuoInt(a: Dec, n: int): Dec
    requires n != 0
  {
    TruncDiv(a, n)
  }

  function TruncateInt(a: Dec): int { TruncDiv(a, ONE) }

  function FromInt(n: int): Dec { n * ONE }

  /** Scaling an integer amount by a fraction and truncating: `Mul` does not round here. */
  lemma ScaledCoinIsExact(n: nat, d: nat)
    ensures Mul(FromInt(n), d) == n * d
    ensures TruncateInt(Mul(FromInt(n), d)) == n * d / ONE
  {
    assert FromInt(n) * d == (n * d) * ONE;
    ChopIsTheNearestEven(FromInt(n) * d, n * d);
  }

  /** An integer divided as a decimal and truncated is the integer quotient. */
  lemma TruncatedQuotient(a: nat, d: nat)
    requires 1 <= d
    ensures TruncateInt(QuoInt(FromInt(a), d)) == a / d
  {
    var q, scaled := a / d, a * ONE / d;
    DivisionBounds(a, d);
    DivisionBounds(a * ONE, d);
    ScaledBounds(a, d, q);
    CancelFactor(q * ONE, scaled + 1, d);
    CancelFactor(scaled, (q + 1) * ONE, d);
    QuotientIs(scaled, ONE, q);
  }

  lemma ScaledBounds(a: int, d: int, q: int)
    requires IsFloor(a, d, q)
    ensures (q * ONE) * d <= a * ONE < ((q + 1) * ONE) * d
  {
    assert (q * ONE) * d == (q * d) * ONE;
    assert ((q + 1) * ONE) * d == ((q + 1) * d) * ONE;
  }
}
