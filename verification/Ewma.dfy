/** The exponentially weighted moving average of x/common/ewma/ewma.go. */
module Ewma {
  import opened Prelude
  import opened Decimal

  /** One input folded into the average. */
  function Next(value: Dec, decay: Dec, x: Dec): Dec {
    if value == 0 then x else Mul(value, ONE - decay) + Mul(x, decay)
  }

  function Decay(span: Dec): Dec
    requires span + ONE != 0
  {
    Quo(2 * ONE, span + ONE)
  }

  class VariableEWMA {
    var decay: Dec
    var value: Dec

    constructor (span: Dec)
      requires span + ONE != 0
      ensures value == 0 && decay == Decay(span)
    {
      value := 0;
      decay := Quo(FromInt(2), span + ONE);
    }

    method Add(x: Dec)
      modifies this`value
      ensures value == Next(old(value), decay, x)
    {
      if value == 0 {
        value := x;
        return;
      }
      value := Mul(value, ONE - decay) + Mul(x, decay);
    }

    method Set(x: Dec)
      modifies this`value
      ensures value == x
    {
      value := x;
    }

    /** A new average fed the inputs of `xs` one after the other. */
    method AddAll(xs: seq<Dec>)
      requires value == 0
      modifies this`value
      ensures value == Fold(decay, xs)
    {
      for i := 0 to |xs|
        invariant value == Fold(decay, xs[..i])
      {
        Add(xs[i]);
        assert xs[..i + 1][..i] == xs[..i];
      }
      assert xs[..|xs|] == xs;
    }
  }

  /** `NewMovingAverage`; `None` is the panic on a zero divisor, that is, on span -1. */
  method NewMovingAverage(span: Dec) returns (r: Option<VariableEWMA>)
    ensures r.None? <==> span == -ONE
    ensures r.Some? ==> fresh(r.value) && r.value.value == 0 && r.value.decay == Decay(span)
  {
    if span + ONE == 0 {
      return None;
    }
    var average := new VariableEWMA(span);
    return Some(average);
  }

  /** The value after adding every input of `xs` to a new average. */
  ghost function Fold(decay: Dec, xs: seq<Dec>): Dec {
    if xs == [] then 0 else Next(Fold(decay, xs[..|xs| - 1]), decay, xs[|xs| - 1])
  }

  /** The decay is 2 / (span + 1), rounded at the 18th decimal: half a unit, and less than one of the 36th. */
  lemma DecayOfSpan(span: Dec)
    requires span + ONE != 0
    ensures Distance(2 * Decay(span) * ONE * (span + ONE), 4 * ONE * ONE * ONE) <= (ONE + 2) * Distance(span + ONE, 0)
  {
    var b := span + ONE;
    var q := TruncDiv(2 * ONE * ONE * ONE, b);
    Truncated(2 * ONE * ONE * ONE, b);
    RoundedQuotient(Decay(span), q, b, 2 * ONE * ONE * ONE);
  }

  lemma RoundedQuotient(r: int, q: int, b: int, a: int)
    requires -ONE <= 2 * (q - r * ONE) <= ONE && Distance(q * b, a) <= Distance(b, 0)
    ensures Distance(2 * r * ONE * b, 2 * a) <= (ONE + 2) * Distance(b, 0)
  {
    var error := 2 * (r * ONE - q);
    assert 2 * r * ONE * b == error * b + 2 * (q * b);
    ErrorTimes(error, b, ONE);
  }

  lemma Truncated(a: int, b: int)
    requires 0 <= a && b != 0
    ensures Distance(TruncDiv(a, b) * b, a) < Distance(b, 0)
  {
    var q := a / b;
    assert a == q * b + a % b;
  }

  lemma ErrorTimes(e: int, b: int, bound: int)
    requires -bound <= e <= bound
    ensures Distance(e * b, 0) <= bound * Distance(b, 0)
  {
    var size := Distance(b, 0);
    TimesMonotone(size, e, bound);
    TimesMonotone(size, -bound, e);
    assert e * b == Times(size, e) || e * b == -Times(size, e);
    assert bound * size == Times(size, bound) && Times(size, -bound) == -Times(size, bound);
    hide Times;
  }

  /** A step is within one unit of the 18th decimal of value * (1 - decay) + input * decay, or the input if the value
      was zero. */
  lemma NextIsTheCombination(v: Dec, decay: Dec, x: Dec)
    ensures v == 0 ==> Next(v, decay, x) == x
    ensures v != 0 ==> Distance(Next(v, decay, x) * ONE, v * (ONE - decay) + x * decay) <= ONE
  {
  }

  lemma DecayInUnitInterval(span: Dec)
    requires ONE <= span
    ensures 0 <= Decay(span) <= ONE
  {
    var q := TruncDiv(2 * ONE * ONE * ONE, span + ONE);
    assert q * (2 * ONE) <= q * (span + ONE) <= (ONE * ONE) * (2 * ONE);
    ChopIsMonotone(q, ONE * ONE);
    ChopIsMonotone(0, q);
    ChopIsTheNearestEven(ONE * ONE, ONE);
  }

  /** The two products before rounding form a convex combination. */
  lemma ConvexCombination(decay: Dec, v: Dec, x: Dec, hi: Dec, e: nat)
    requires 0 <= decay <= ONE
    requires v <= hi + e && x <= hi
    ensures v * (ONE - decay) + x * decay <= hi * ONE + e * (ONE - decay)
  {
    assert v * (ONE - decay) <= (hi + e) * (ONE - decay);
    assert x * decay <= hi * decay;
  }

  /** One rounded step moves the upper drift by at most one unit, and not at all once
      the drift times the decay covers one whole unit. */
  lemma StepStaysBelow(decay: Dec, v: Dec, x: Dec, hi: Dec, e: nat, f: nat)
    requires 0 <= decay <= ONE
    requires v <= hi + e && x <= hi && v != 0
    requires e + 1 <= f || (e == f && ONE <= e * decay)
    ensures Next(v, decay, x) <= hi + f
  {
    ConvexCombination(decay, v, x, hi, e);
    assert 2 * ONE * Next(v, decay, x) <= 2 * (v * (ONE - decay) + x * decay) + 2 * ONE;
    assert e * (ONE - decay) == e * ONE - e * decay;
    assert 0 <= e * decay;
    assert ONE * Next(v, decay, x) <= ONE * (hi + f);
  }

  /** Negating the value and the input negates the step. */
  lemma NextIsOdd(v: Dec, decay: Dec, x: Dec)
    ensures Next(-v, decay, -x) == -Next(v, decay, x)
  {
    ChopIsOdd(v * (ONE - decay));
    ChopIsOdd(x * decay);
    assert (-v) * (ONE - decay) == -(v * (ONE - decay));
    assert (-x) * decay == -(x * decay);
  }

  /** After k >= 1 inputs in [lo, hi] the average lies in [lo - (k-1), hi + (k-1)]; and
      however many inputs follow, the drift never exceeds any `e` with e * decay >= 1.
      The reset on a zero value is included: it discards the drift. */
  lemma {:induction false} AverageStaysNearItsInputs(decay: Dec, xs: seq<Dec>, lo: Dec, hi: Dec, e: nat)
    requires 0 <= decay <= ONE
    requires xs != []
    requires forall i | 0 <= i < |xs| :: lo <= xs[i] <= hi
    requires |xs| - 1 <= e || ONE <= e * decay
    ensures lo - e <= Fold(decay, xs) <= hi + e
  {
    var before, x := xs[..|xs| - 1], xs[|xs| - 1];
    var v := Fold(decay, before);
    if v != 0 {
      var e' := if ONE <= e * decay then e else e - 1;
      AverageStaysNearItsInputs(decay, before, lo, hi, e');
      StepStaysBelow(decay, v, x, hi, e', e);
      NextIsOdd(v, decay, x);
      StepStaysBelow(decay, -v, -x, -lo, e', e);
    }
  }

  /** The same in terms of the span the average was made with. */
  lemma AverageOfSpan(span: Dec, xs: seq<Dec>, lo: Dec, hi: Dec)
    requires ONE <= span
    requires xs != []
    requires forall i | 0 <= i < |xs| :: lo <= xs[i] <= hi
    ensures lo - |xs| + 1 <= Fold(Decay(span), xs) <= hi + |xs| - 1
  {
    DecayInUnitInterval(span);
    AverageStaysNearItsInputs(Decay(span), xs, lo, hi, |xs| - 1);
  }
}
