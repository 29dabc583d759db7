/** The integer Newton iteration of contrib/scripts/testing/stableswap_model.py.
    Python integers are unbounded and `//` floors; every divisor below is positive,
    where Dafny's `/` floors too. */
module Stableswap {
  import opened Prelude

  const PRECISION: int := 1_000_000_000_000_000_000
  const FEE_DENOMINATOR: int := 10_000_000_000

  function Pow(base: int, exponent: nat): (r: int)
    ensures 0 < base ==> 0 < r
  {
    if exponent == 0 then 1 else base * Pow(base, exponent - 1)
  }

  function Sum(xs: seq<int>): int {
    if xs == [] then 0 else Sum(xs[..|xs| - 1]) + xs[|xs| - 1]
  }

  ghost predicate AllPositive(xs: seq<int>) {
    forall i | 0 <= i < |xs| :: 0 < xs[i]
  }

  /** All balances but the one at `j`. */
  function Without(xs: seq<int>, j: nat): seq<int>
    requires j < |xs|
  {
    xs[..j] + xs[j + 1..]
  }

  lemma {:induction false} SumIsPositive(xs: seq<int>)
    requires AllPositive(xs)
    ensures 0 <= Sum(xs) && (xs != [] ==> 0 < Sum(xs))
  {
    if xs != [] {
      SumIsPositive(xs[..|xs| - 1]);
    }
  }

  /** The floored product D * D/(x_1 n) * D/(x_2 n) * ..., in the order of the loop. */
  function Product(xs: seq<int>, d: nat, n: int): (r: nat)
    requires 0 < n && AllPositive(xs)
  {
    if xs == [] then d else
      var last := xs[|xs| - 1];
      assert 0 < last * n;
      Product(xs[..|xs| - 1], d, n) * d / (last * n)
  }

  /** The quadratic whose positive root the iteration looks for. */
  function Quadratic(b: int, c: int, y: int): int { y * y + b * y - c }

  /** `y` is at most one unit of the quadratic above its root, and `y + 1` is past the root. */
  ghost predicate SolvesQuadratic(b: int, c: int, y: int) {
    0 <= y && Quadratic(b, c, y) <= 1 && 0 < Quadratic(b, c, y + 1)
  }

  /** The greatest natural number at which the quadratic is not positive. */
  ghost predicate IsFloorRoot(b: int, c: int, y: int) {
    && 0 <= y && Quadratic(b, c, y) <= 0
    && forall z | y < z :: 0 < Quadratic(b, c, z)
  }

  /** Past a positive value at a natural number the quadratic stays positive. */
  lemma PositiveFromHereOn(b: int, c: nat, y: nat, z: int)
    requires y <= z && 0 < Quadratic(b, c, y)
    ensures 0 < Quadratic(b, c, z)
  {
    assert Quadratic(b, c, y) == y * (y + b) - c;
    assert y + b < 0 ==> y * (y + b) <= 0;
    assert Quadratic(b, c, z) - Quadratic(b, c, y) == (z - y) * (z + (y + b));
    assert 0 <= (z - y) * (z + (y + b));
  }

  /** A solution is the floor of the exact root, or one more when the quadratic is exactly 1 there. */
  lemma SolutionIsTheFloorRoot(b: int, c: nat, y: int)
    requires SolvesQuadratic(b, c, y)
    ensures Quadratic(b, c, y) <= 0 ==> IsFloorRoot(b, c, y)
    ensures Quadratic(b, c, y) == 1 ==> 0 < y && IsFloorRoot(b, c, y - 1)
  {
    forall z | y < z
      ensures 0 < Quadratic(b, c, z)
    {
      PositiveFromHereOn(b, c, y + 1, z);
    }
    if Quadratic(b, c, y) == 1 {
      OneStepBelow(b, c, y);
    }
  }

  /** Where the quadratic is 1 at a natural number it is not positive one step below. */
  lemma OneStepBelow(b: int, c: nat, y: nat)
    requires Quadratic(b, c, y) == 1
    ensures 0 < y && Quadratic(b, c, y - 1) <= 0
  {
    assert y * (y + b) == 1 + c;
    assert y + b <= 0 ==> y * (y + b) <= 0;
    assert Quadratic(b, c, y - 1) == 1 - y - (y + b) + 1;
  }

  function Square(x: int): nat {
    assert 0 <= x * x;
    x * x
  }

  /** `q` is the floor of `m / d`. */
  ghost predicate IsQuotient(m: int, d: int, q: int) {
    0 <= q && Times(q, d) <= m < Times(q + 1, d)
  }

  lemma QuotientOf(m: nat, d: int)
    requires 0 < d
    ensures IsQuotient(m, d, m / d)
  {
    DivisionBounds(m, d);
  }

  /** What one Newton step from `y` to `q` gives, for any divisor that is positive. */
  lemma NewtonStep(b: int, c: nat, y: int, q: int)
    requires 0 <= y && 0 < 2 * y + b
    requires IsQuotient(y * y + c, 2 * y + b, q)
    ensures 0 <= q
    ensures 0 < Quadratic(b, c, q + 1)
    ensures Quadratic(b, c, q) <= Square(q - y)
  {
    hide Quadratic, Times, Square;
    QuadraticAround(b, c, y, q);
    QuadraticAround(b, c, y, q + 1);
  }

  /** The quadratic at `z`, seen from `y`. */
  lemma QuadraticAround(b: int, c: int, y: int, z: int)
    ensures Quadratic(b, c, z) == Square(z - y) + Times(z, 2 * y + b) - (y * y + c)
  {
    assert (z - y) * (z - y) == z * z - 2 * z * y + y * y;
    assert z * (2 * y + b) == 2 * z * y + z * b;
  }

  /** Above the root a step goes down; at the floor of the root it moves by at most one. */
  lemma NewtonDescends(b: int, c: nat, y: int, q: int)
    requires 0 <= y && 0 < 2 * y + b
    requires IsQuotient(y * y + c, 2 * y + b, q)
    ensures 0 < Quadratic(b, c, y) ==> q < y
    ensures Quadratic(b, c, y) <= 0 && 0 < Quadratic(b, c, y + 1) ==> y <= q <= y + 1
  {
    var d, m := 2 * y + b, y * y + c;
    assert y * d == m + Quadratic(b, c, y);
    assert Quadratic(b, c, y + 1) == Quadratic(b, c, y) + d + 1;
    if 0 < Quadratic(b, c, y) {
      CancelFactor(q, y, d);
    } else if 0 < Quadratic(b, c, y + 1) {
      assert (y + 2) * d == y * d + 2 * d;
      CancelFactor(q, y + 2, d);
      CancelFactor(y, q + 1, d);
    }
  }

  /** After a step of two or more the next divisor is positive. */
  lemma NextDivisorIsPositive(b: int, c: nat, y: int, q: int)
    requires 0 <= y && 0 < 2 * y + b
    requires IsQuotient(y * y + c, 2 * y + b, q)
    requires q - y < -1 || 1 < q - y
    ensures 0 < 2 * q + b
  {
    if q < y {
      SquareCoversStep(q, y - q);
      CancelFactor(2 * (y - q), 2 * y + b, q + 1);
    }
  }

  /** After a step of `k` down to `q` the square of the value before covers twice the step times `q + 1`. */
  lemma SquareCoversStep(q: int, k: int)
    requires 2 <= k
    ensures (2 * k) * (q + 1) <= (q + k) * (q + k)
  {
    assert (q + k) * (q + k) - (2 * k) * (q + 1) == q * q + k * (k - 2);
    assert 0 <= q * q && 0 <= k * (k - 2);
  }

  function Abs(x: int): nat { if x < 0 then -x else x }

  /** The while loop shared by `y` and `y_D`: from `start`, iterate until two values in a
      row differ by at most 1. It ends, its divisor is never zero, and from a start of 2
      or more its result solves the quadratic; below that the loop body does not run. */
  method Iterate(b: int, c: nat, start: nat) returns (y: int)
    requires 0 < 2 * start + b
    ensures start <= 1 ==> y == start
    ensures 2 <= start ==> SolvesQuadratic(b, c, y)
  {
    hide Quadratic;
    var previous := 0;
    y := start;
    ghost var stepped := false;
    while 1 < Abs(y - previous)
      invariant 0 <= y
      invariant 1 < Abs(y - previous) ==> 0 < 2 * y + b
      invariant !stepped ==> y == start && previous == 0
      invariant stepped ==> 0 < Quadratic(b, c, y + 1)
      invariant stepped ==> Quadratic(b, c, y) <= Square(y - previous)
      invariant stepped ==> 2 <= start
      decreases !stepped, if 1 < Abs(y - previous) then y + 1 else 0
    {
      previous := y;
      QuotientOf(y * y + c, 2 * y + b);
      y := (y * y + c) / (2 * y + b);
      NewtonStep(b, c, previous, y);
      NewtonDescends(b, c, previous, y);
      if 1 < Abs(y - previous) {
        NextDivisorIsPositive(b, c, previous, y);
      }
      stepped := true;
    }
    if 2 <= start {
      assert Square(y - previous) <= 1 by {
        assert y - previous == -1 || y - previous == 0 || y - previous == 1;
      }
    }
  }

  /** `c` and `b` of `y`: the other balances are `others`. */
  function CoefficientC(others: seq<int>, d: nat, n: int, ann: int): nat
    requires 0 < n && 0 < ann && AllPositive(others)
  {
    assert 0 < n * ann;
    Product(others, d, n) * d / (n * ann)
  }

  function CoefficientB(others: seq<int>, d: nat, ann: int): int
    requires 0 < ann
  {
    Sum(others) + d / ann - d
  }

  lemma StartDivisorIsPositive(others: seq<int>, d: nat, ann: int)
    requires 0 < ann && AllPositive(others) && others != []
    ensures 0 < 2 * d + CoefficientB(others, d, ann)
  {
    SumIsPositive(others);
  }

  // ---- the equation of the pool

  function Prod(xs: seq<int>): int {
    if xs == [] then 1 else Prod(xs[..|xs| - 1]) * xs[|xs| - 1]
  }

  lemma {:induction false} ProdIsPositive(xs: seq<int>)
    requires AllPositive(xs)
    ensures 0 < Prod(xs)
  {
    if xs != [] {
      ProdIsPositive(xs[..|xs| - 1]);
    }
  }

  /** Leaving out one balance takes it from the sum and from the product. */
  lemma {:induction false} SumAndProdWithout(xs: seq<int>, j: nat)
    requires j < |xs|
    ensures Sum(Without(xs, j)) + xs[j] == Sum(xs)
    ensures Prod(Without(xs, j)) * xs[j] == Prod(xs)
    ensures |Without(xs, j)| == |xs| - 1
  {
    var n := |xs| - 1;
    var front, last := xs[..n], xs[n];
    if j == n {
      assert Without(xs, j) == front;
    } else {
      SumAndProdWithout(front, j);
      var rest := Without(front, j);
      assert Without(xs, j) == rest + [last];
      assert (rest + [last])[..n - 1] == rest;
      assert (Prod(rest) * last) * front[j] == (Prod(rest) * front[j]) * last;
    }
  }

  function Denominators(xs: seq<int>, n: int): (r: nat)
    requires 0 < n && AllPositive(xs)
    ensures 0 < r
  {
    if xs == [] then 1 else
      assert 0 < xs[|xs| - 1] * n;
      Denominators(xs[..|xs| - 1], n) * (xs[|xs| - 1] * n)
  }

  lemma {:induction false} DenominatorsMultiplied(xs: seq<int>, n: int)
    requires 0 < n && AllPositive(xs)
    ensures Denominators(xs, n) == Pow(n, |xs|) * Prod(xs)
  {
    if xs != [] {
      var front, last := xs[..|xs| - 1], xs[|xs| - 1];
      DenominatorsMultiplied(front, n);
      Regroup(Pow(n, |front|), Prod(front), last, n);
    }
  }

  lemma Regroup(a: int, b: int, c: int, d: int)
    ensures (a * b) * (c * d) == (d * a) * (b * c)
  {
    assert (a * b) * (c * d) == a * (b * (c * d));
    assert b * (c * d) == (b * c) * d;
    assert a * ((b * c) * d) == (a * d) * (b * c);
  }

  /** What the divisions of the loop can lose, in units of the exact product: each loses less than one of its divisor,
      and the later factors carry it on. */
  function FloorError(xs: seq<int>, d: nat, n: int): nat
    requires 0 < n && AllPositive(xs)
  {
    if xs == [] then 0 else FloorError(xs[..|xs| - 1], d, n) * d + Denominators(xs, n)
  }

  /** The floored product never exceeds the exact one. */
  lemma {:induction false} ProductRoundsDown(xs: seq<int>, d: nat, n: int)
    requires 0 < n && AllPositive(xs)
    ensures Product(xs, d, n) * Denominators(xs, n) <= Pow(d, |xs| + 1)
  {
    if xs != [] {
      var rest, last := xs[..|xs| - 1], xs[|xs| - 1];
      var q, e := Product(rest, d, n), last * n;
      assert 0 < e;
      ProductRoundsDown(rest, d, n);
      QuotientOf(q * d, e);
      OneMoreFactor(q, d, e, q * d / e, Denominators(rest, n), Pow(d, |xs|));
    }
  }

  lemma OneMoreFactor(q: nat, d: nat, e: int, r: int, w: nat, power: int)
    requires r * e <= q * d && q * w <= power
    ensures r * (w * e) <= d * power
  {
    MulLe(r * e, q * d, w);
    MulLe(q * w, power, d);
    assert r * (w * e) == (r * e) * w && (q * d) * w == d * (q * w);
  }

  lemma MulLe(a: int, b: int, k: nat)
    requires a <= b
    ensures a * k <= b * k && k * a <= k * b
  {
  }

  /** And it falls short of it by no more than the error of the floors. */
  lemma {:induction false} ProductLosesLittle(xs: seq<int>, d: nat, n: int)
    requires 0 < n && AllPositive(xs)
    ensures Pow(d, |xs| + 1) <= Product(xs, d, n) * Denominators(xs, n) + FloorError(xs, d, n)
  {
    if xs != [] {
      var rest, last := xs[..|xs| - 1], xs[|xs| - 1];
      var q, e := Product(rest, d, n), last * n;
      assert 0 < e;
      ProductLosesLittle(rest, d, n);
      QuotientOf(q * d, e);
      OneMoreLoss(q, d, e, q * d / e, Denominators(rest, n), FloorError(rest, d, n), Pow(d, |xs|));
    }
  }

  lemma OneMoreLoss(q: nat, d: nat, e: int, r: int, w: nat, error: nat, power: int)
    requires q * d < (r + 1) * e && power <= q * w + error
    ensures d * power <= r * (w * e) + (error * d + w * e)
  {
    MulLe(q * d, (r + 1) * e, w);
    MulLe(power, q * w + error, d);
    assert d * (q * w + error) == (q * d) * w + error * d;
    assert ((r + 1) * e) * w == r * (w * e) + w * e;
  }

  /** The two sides of the equation of the pool differ by this, once it is multiplied by the balance `y`:
      A n^n (S + y) y + D y - A n^n D y, which should be D^(n+1) / (n^n P). */
  function PoolSide(ann: int, s: int, d: int, y: int): int {
    ann * ((s + y) * y) + d * y - ann * (d * y)
  }

  /** `y` is the balance that completes the others, of sum `s` and product `p`, to the equation of a pool of `n` coins
      with amplification `A` and invariant `d`: from above up to the remainder of one division and one unit of the
      quadratic, and with `y + 1` from below up to the error of the floors. */
  ghost predicate CompletesPool(A: int, n: int, s: int, p: int, d: nat, error: nat, y: int)
    requires 0 <= n
  {
    var ann, w := A * Pow(n, n), Pow(n, n) * p;
    && w * PoolSide(ann, s, d, y) <= Pow(d, n + 1) + w * (ann + (ann - 1) * y)
    && Pow(d, n + 1) < w * PoolSide(ann, s, d, y + 1) + d * error
  }

  /** A solution of the quadratic completes the pool. */
  lemma SolutionCompletesPool(A: int, n: int, others: seq<int>, d: nat, y: int)
    requires 1 <= A && 1 <= n && |others| == n - 1 && AllPositive(others) && 0 < A * Pow(n, n)
    requires var ann := A * Pow(n, n);
             SolvesQuadratic(CoefficientB(others, d, ann), CoefficientC(others, d, n, ann), y)
    ensures CompletesPool(A, n, Sum(others), Prod(others), d, FloorError(others, d, n), y)
  {
    var ann := A * Pow(n, n);
    var c, b, s := CoefficientC(others, d, n, ann), CoefficientB(others, d, ann), Sum(others);
    var product, w := Product(others, d, n), Denominators(others, n);
    assert 0 < n * ann;
    ProductRoundsDown(others, d, n);
    ProductLosesLittle(others, d, n);
    QuotientOf(product * d, n * ann);
    DenominatorsMultiplied(others, n);
    WholeDenominator(n, Pow(n, n - 1), Prod(others), w);
    SideFromQuadratic(ann, s, d, y, b);
    SideFromQuadratic(ann, s, d, y + 1, b);
    var above, below := y * y + b * y, (y + 1) * (y + 1) + b * (y + 1);
    hide *;
    FromAbove(ann, n, w, c, above, d % ann, y, PoolSide(ann, s, d, y), product, d, Pow(d, n));
    FromBelow(ann, n, w, c, below, d % ann, y + 1, PoolSide(ann, s, d, y + 1), product, d, Pow(d, n),
        FloorError(others, d, n));
    PowNext(d, n);
    CompletesPoolFrom(A, n, s, Prod(others), d, FloorError(others, d, n), y, n * w);
  }

  lemma PowNext(d: int, n: nat)
    ensures Pow(d, n + 1) == d * Pow(d, n)
  {
  }

  lemma CompletesPoolFrom(A: int, n: int, s: int, p: int, d: nat, error: nat, y: int, w: int)
    requires 0 <= n && w == Pow(n, n) * p
    requires var ann := A * Pow(n, n);
             && w * PoolSide(ann, s, d, y) <= Pow(d, n + 1) + w * (ann + (ann - 1) * y)
             && Pow(d, n + 1) < w * PoolSide(ann, s, d, y + 1) + d * error
    ensures CompletesPool(A, n, s, p, d, error, y)
  {
  }

  lemma WholeDenominator(n: int, power: int, p: int, w: int)
    requires 1 <= n && power == Pow(n, n - 1) && w == power * p
    ensures n * w == Pow(n, n) * p
  {
    assert Pow(n, n) == n * power;
    assert n * (power * p) == (n * power) * p;
  }

  /** The side of the equation in terms of the quadratic: the division of `d` by `ann` leaves its remainder. */
  lemma SideFromQuadratic(ann: int, s: int, d: nat, y: int, b: int)
    requires 0 < ann && b == s + d / ann - d
    ensures PoolSide(ann, s, d, y) == ann * (y * y + b * y) + (d % ann) * y
  {
    var q, rem := d / ann, d % ann;
    assert d == ann * q + rem;
    assert (s + y) * y == y * y + s * y;
    assert b * y == s * y + q * y - d * y;
    assert ann * (y * y + b * y) == ann * (y * y) + ann * (s * y) + ann * (q * y) - ann * (d * y);
    assert d * y == (ann * q) * y + rem * y;
    assert (ann * q) * y == ann * (q * y);
  }

  lemma FromAbove(ann: int, n: int, w: nat, c: int, quadratic: int, rem: int, y: int, side: int, product: nat, d: nat,
      power: int)
    requires 1 <= ann && 1 <= n && 0 <= y && 0 <= rem < ann
    requires quadratic <= c + 1 && side == ann * quadratic + rem * y
    requires c * (n * ann) <= product * d && product * w <= power
    ensures (n * w) * side <= d * power + (n * w) * (ann + (ann - 1) * y)
  {
    MulLe(quadratic, c + 1, ann);
    MulLe(rem, ann - 1, y);
    assert side <= ann * c + (ann + (ann - 1) * y);
    MulLe(side, ann * c + (ann + (ann - 1) * y), n * w);
    assert (n * w) * (ann * c + (ann + (ann - 1) * y)) == (n * w) * (ann * c) + (n * w) * (ann + (ann - 1) * y);
    assert (n * w) * (ann * c) == (c * (n * ann)) * w by {
      Regroup4(n, w, ann, c);
    }
    MulLe(c * (n * ann), product * d, w);
    MulLe(product * w, power, d);
    assert (product * d) * w == d * (product * w);
  }

  lemma Regroup4(n: int, w: int, ann: int, c: int)
    ensures (n * w) * (ann * c) == (c * (n * ann)) * w
  {
    Regroup(w, n, ann, c);
    assert (w * n) * (ann * c) == (c * w) * (n * ann);
    assert (c * w) * (n * ann) == (c * (n * ann)) * w;
  }

  lemma FromBelow(ann: int, n: int, w: int, c: int, quadratic: int, rem: int, y: int, side: int, product: nat, d: nat,
      power: int, error: nat)
    requires 1 <= ann && 1 <= n && 1 <= w && 0 <= y && 0 <= rem
    requires c + 1 <= quadratic && side == ann * quadratic + rem * y
    requires product * d < (c + 1) * (n * ann) && power <= product * w + error
    ensures d * power < (n * w) * side + d * error
  {
    MulLe(c + 1, quadratic, ann);
    assert 0 <= rem * y;
    assert ann * (c + 1) <= side;
    assert 0 < n * w;
    MulLe(ann * (c + 1), side, n * w);
    Regroup4(n, w, ann, c + 1);
    MulLess(product * d, (c + 1) * (n * ann), w);
    MulLe(power, product * w + error, d);
    assert d * (product * w + error) == (product * d) * w + d * error;
  }

  lemma MulLess(a: int, b: int, k: int)
    requires a < b && 0 < k
    ensures a * k < b * k
  {
  }

  /** The pool. `D`, the fixed point of another loop, is a parameter of the methods. */
  class Curve {
    const A: int
    const n: int
    const fee: int
    const p: seq<int>
    var x: seq<int>

    constructor (A: int, n: int, fee: int, p: seq<int>, balances: seq<int>)
      requires 1 <= A && 2 <= n && 0 <= fee
      requires |p| == n && |balances| == n && AllPositive(p)
      ensures Valid() && x == balances
      ensures this.A == A && this.n == n && this.fee == fee && this.p == p
    {
      this.A, this.n, this.fee, this.p := A, n, fee, p;
      x := balances;
    }

    ghost predicate Valid()
      reads this
    {
      1 <= A && 2 <= n && 0 <= fee && |p| == n && |x| == n && AllPositive(p)
    }

    function Xp(): (r: seq<int>)
      requires Valid()
      reads this
      ensures |r| == n
      ensures forall k | 0 <= k < n :: r[k] * PRECISION <= x[k] * p[k] < (r[k] + 1) * PRECISION
    {
      seq(n, k requires 0 <= k < n reads this requires Valid() => x[k] * p[k] / PRECISION)
    }

    function Ann(): (r: int)
      requires Valid()
      reads this
      ensures 0 < r
    {
      A * Pow(n, n)
    }

    /** The balance of `j` once the balance of `i` is `newX`. */
    method Y(i: nat, j: nat, newX: int, D: nat) returns (y: int)
      requires Valid()
      requires i < n && j < n
      requires AllPositive(Without(Xp()[i := newX], j))
      ensures var others := Without(Xp()[i := newX], j);
              && (2 <= D ==> SolvesQuadratic(CoefficientB(others, D, Ann()), CoefficientC(others, D, n, Ann()), y))
              && (2 <= D ==> CompletesPool(A, n, Sum(others), Prod(others), D, FloorError(others, D, n), y))
      ensures D <= 1 ==> y == D
    {
      hide Product, CompletesPool, SolvesQuadratic, Prod, FloorError;
      var others := Without(Xp()[i := newX], j);
      var ann := Ann();
      var c := Multiply(others, D, n, ann);
      StartDivisorIsPositive(others, D, ann);
      y := Iterate(Sum(others) + D / ann - D, c, D);
      if 2 <= D {
        SolutionCompletesPool(A, n, others, D, y);
      }
    }

    /** The balance of `i` at which the invariant is `D`; here the loop divides by `2y + b - D`. */
    method YD(i: nat, D: nat) returns (y: int)
      requires Valid()
      requires i < n
      requires AllPositive(Without(Xp(), i))
      ensures var others := Without(Xp(), i);
              && (2 <= D ==> SolvesQuadratic(CoefficientB(others, D, Ann()), CoefficientC(others, D, n, Ann()), y))
              && (2 <= D ==> CompletesPool(A, n, Sum(others), Prod(others), D, FloorError(others, D, n), y))
      ensures D <= 1 ==> y == D
    {
      hide Product, CompletesPool, SolvesQuadratic, Prod, FloorError;
      var others := Without(Xp(), i);
      var ann := Ann();
      var c := Multiply(others, D, n, ann);
      var b := Sum(others) + D / ann;
      StartDivisorIsPositive(others, D, ann);
      y := Iterate(b - D, c, D);
      if 2 <= D {
        SolutionCompletesPool(A, n, others, D, y);
      }
    }

    /** A swap; the assertion of the script is the result `ok`, and `y` the balance that the iteration finds. */
    method Exchange(i: nat, j: nat, dx: int, D: nat) returns (ok: bool, received: int, ghost y: int)
      requires Valid()
      requires i < n && j < n
      requires AllPositive(Without(Xp()[i := Xp()[i] + dx], j))
      modifies this`x
      ensures Valid()
      ensures var others := Without(old(Xp())[i := old(Xp()[i]) + dx], j);
              2 <= D ==>
                && SolvesQuadratic(CoefficientB(others, D, old(Ann())), CoefficientC(others, D, n, old(Ann())), y)
                && CompletesPool(A, n, Sum(others), Prod(others), D, FloorError(others, D, n), y)
      ensures D <= 1 ==> y == D
      ensures ok <==> y < old(Xp()[j])
      ensures !ok ==> x == old(x)
      ensures ok ==>
                var dy := old(Xp()[j]) - y;
                var charged := dy * fee / FEE_DENOMINATOR;
                && received == dy - charged
                && x == old(x)[i := (old(Xp()[i]) + dx) * PRECISION / p[i]][j := (y + charged) * PRECISION / p[j]]
    {
      hide SolvesQuadratic, CoefficientB, CoefficientC, Pow, CompletesPool, Prod, FloorError;
      var xp := Xp();
      var newX := xp[i] + dx;
      var found := Y(i, j, newX, D);
      y := found;
      var dy := xp[j] - found;
      var charged := dy * fee / FEE_DENOMINATOR;
      if dy <= 0 {
        return false, 0, y;
      }
      x := x[i := newX * PRECISION / p[i]][j := (found + charged) * PRECISION / p[j]];
      return true, dy - charged, y;
    }

    /** With the default precisions and no fee the pool holds what was paid in and what the iteration found. */
    lemma BalancesAfter(before: seq<int>, i: nat, j: nat, dx: int, y: int)
      requires Valid() && |before| == n && i < n && j < n && p[i] == PRECISION && p[j] == PRECISION
      requires x == before[i := (before[i] * p[i] / PRECISION + dx) * PRECISION / p[i]][j := y * PRECISION / p[j]]
      ensures Xp()[j] == y
      ensures i != j ==> Xp()[i] == before[i] + dx
      ensures forall k | 0 <= k < n && k != i && k != j :: Xp()[k] == before[k] * p[k] / PRECISION
    {
    }
  }

  lemma ProductNext(xs: seq<int>, d: nat, n: int, k: nat)
    requires 0 < n && AllPositive(xs) && k < |xs|
    ensures AllPositive(xs[..k]) && AllPositive(xs[..k + 1]) && 0 < xs[k] * n
    ensures Product(xs[..k + 1], d, n) == Product(xs[..k], d, n) * d / (xs[k] * n)
  {
    assert xs[..k + 1][..k] == xs[..k];
  }

  /** The multiplication loop over the other balances, and the last factor. */
  method Multiply(others: seq<int>, d: nat, n: int, ann: int) returns (c: nat)
    requires 0 < n && 0 < ann && AllPositive(others)
    ensures c == CoefficientC(others, d, n, ann)
  {
    hide Product;
    c := d;
    assert others[..0] == [] && Product([], d, n) == d by {
      EmptyProduct(d, n);
    }
    for k := 0 to |others|
      invariant AllPositive(others[..k]) && c == Product(others[..k], d, n)
    {
      ProductNext(others, d, n, k);
      c := c * d / (others[k] * n);
    }
    assert others[..|others|] == others;
    assert 0 < n * ann;
    c := c * d / (n * ann);
  }

  lemma EmptyProduct(d: nat, n: int)
    requires 0 < n
    ensures Product([], d, n) == d
  {
  }
}
