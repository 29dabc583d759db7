/** Values shared by every module: optional values, results and the fixed-width
    conversions that Go performs silently. */
module Prelude {
  datatype Option<+T> = None | Some(value: T)

  datatype Result<+T, +E> = Ok(value: T) | Err(error: E)

  const TWO63: int := 0x8000_0000_0000_0000
  const TWO64: int := 0x1_0000_0000_0000_0000

  /** Go's conversion of an integer to `uint64`: reduction modulo 2^64. */
  function U64(x: int): (r: int)
    ensures 0 <= r < TWO64
    ensures 0 <= x < TWO64 ==> r == x
  {
    x % TWO64
  }

  /** Go's conversion of an integer to `int64`: two's complement wrap-around. */
  function I64(x: int): (r: int)
    ensures -TWO63 <= r < TWO63
    ensures -TWO63 <= x < TWO63 ==> r == x
  {
    (x + TWO63) % TWO64 - TWO63
  }

  function Distance(a: int, b: int): (d: nat)
    ensures d == a - b || d == b - a
  {
    if a < b then b - a else a - b
  }

  /** The quotient of `big.Int.Quo`: truncation toward zero. */
  function TruncDiv(a: int, b: int): (q: int)
    requires b != 0
    ensures 0 <= a && 0 < b ==> 0 <= q && q * b <= a < q * b + b
    ensures a <= 0 && 0 < b ==> q <= 0 && q * b - b < a <= q * b
  {
    if 0 <= a then a / b else -((-a) / b)
  }

  /** A product under a name, which a proof can hide from the solver. */
  function Times(a: int, b: int): (r: int)
    ensures 0 <= a && 0 <= b ==> 0 <= r
  {
    a * b
  }

  lemma TimesDistributes(a: int, b: int, c: int)
    ensures Times(a, b + c) == Times(a, b) + Times(a, c)
    ensures Times(b + c, a) == Times(b, a) + Times(c, a)
  {
  }

  lemma TimesOne(a: int)
    ensures Times(a, 1) == a && Times(a, 0) == 0
  {
  }

  lemma TimesMonotone(k: nat, a: int, b: int)
    requires a <= b
    ensures Times(k, a) <= Times(k, b)
  {
  }

  lemma CancelFactor(p: int, q: int, d: int)
    requires 0 < d && p * d < q * d
    ensures p < q
  {
    assert (q - p) * d > 0;
  }

  lemma CancelLe(p: int, q: int, d: int)
    requires 0 < d && p * d <= q * d
    ensures p <= q
  {
    assert (q + 1) * d == q * d + d;
    CancelFactor(p, q + 1, d);
  }

  /** `q` is `a / d` rounded down. */
  ghost predicate IsFloor(a: int, d: int, q: int) {
    q * d <= a < (q + 1) * d
  }

  lemma DivisionBounds(a: int, d: int)
    requires 0 < d
    ensures IsFloor(a, d, a / d)
    ensures 0 <= a ==> 0 <= a / d
  {
  }

  lemma QuotientIs(a: int, d: int, q: int)
    requires 0 < d && q * d <= a < (q + 1) * d
    ensures a / d == q
  {
    DivisionBounds(a, d);
    CancelFactor(a / d, q + 1, d);
    CancelFactor(q, a / d + 1, d);
  }

  lemma QuotientAtLeast(a: int, d: int, q: int)
    requires 0 < d && q * d <= a
    ensures q <= a / d
  {
    DivisionBounds(a, d);
    CancelFactor(q, a / d + 1, d);
  }

  lemma ExactMultiple(a: nat, d: nat)
    requires 1 <= d
    ensures a % d == 0 <==> a == (a / d) * d
  {
  }

  lemma MultipleRemainder(q: nat, d: nat)
    requires 1 <= d
    ensures (q * d) % d == 0
  {
    QuotientIs(q * d, d, q);
    ExactMultiple(q * d, d);
  }

  lemma QuotientMonotone(a: nat, b: nat, d: nat)
    requires 1 <= d && a <= b
    ensures a / d <= b / d
  {
    DivisionBounds(a, d);
    QuotientAtLeast(b, d, a / d);
  }

  lemma QuotientAtMost(a: nat, d: nat)
    requires 1 <= d
    ensures a / d <= a
  {
    DivisionBounds(a, d);
    assert (a / d) * 1 <= (a / d) * d;
  }

  /** An element of a non-empty set. */
  lemma Pick<T>(s: set<T>) returns (t: T)
    requires s != {}
    ensures t in s
  {
    t :| t in s;
  }

  lemma {:induction false} Least(s: set<int>) returns (t: int)
    requires s != {}
    ensures t in s && forall u | u in s :: t <= u
    decreases |s|
  {
    var one := Pick(s);
    var rest := s - {one};
    t := one;
    if rest != {} {
      var other := Least(rest);
      t := if one < other then one else other;
    }
    forall u | u in s
      ensures t <= u
    {
      assert u == one || u in rest;
    }
  }

  lemma {:induction false} Greatest(s: set<int>) returns (t: int)
    requires s != {}
    ensures t in s && forall u | u in s :: u <= t
    decreases |s|
  {
    var one := Pick(s);
    var rest := s - {one};
    t := one;
    if rest != {} {
      var other := Greatest(rest);
      t := if one < other then other else one;
    }
    forall u | u in s
      ensures u <= t
    {
      assert u == one || u in rest;
    }
  }
}

/** Sums over the values of a finite map. Go iterates maps in an unspecified
    order; a sum over the map does not mention one. */
module MapSum {
  ghost function SumBy<K, V>(m: map<K, V>, f: V -> int): int
    decreases |m|
  {
    if m == map[] then 0 else
      var k :| k in m;
      f(m[k]) + SumBy(m - {k}, f)
  }

  /** Any key may be taken out first. */
  lemma {:induction false} SumByRemove<K, V>(m: map<K, V>, f: V -> int, k: K)
    requires k in m
    ensures SumBy(m, f) == f(m[k]) + SumBy(m - {k}, f)
    decreases |m|
  {
    var j :| j in m && SumBy(m, f) == f(m[j]) + SumBy(m - {j}, f);
    if j != k {
      SumByRemove(m - {j}, f, k);
      SumByRemove(m - {k}, f, j);
      assert m - {j} - {k} == m - {k} - {j};
    }
  }

  lemma SumByInsert<K, V>(m: map<K, V>, f: V -> int, k: K, v: V)
    requires k !in m
    ensures SumBy(m[k := v], f) == SumBy(m, f) + f(v)
  {
    SumByRemove(m[k := v], f, k);
    assert m[k := v] - {k} == m;
  }

  lemma SumByReplace<K, V>(m: map<K, V>, f: V -> int, k: K, v: V)
    ensures SumBy(m[k := v], f) == SumBy(m, f) + f(v) - if k in m then f(m[k]) else 0
  {
    SumByRemove(m[k := v], f, k);
    if k in m {
      SumByRemove(m, f, k);
      assert m[k := v] - {k} == m - {k};
    } else {
      assert m[k := v] - {k} == m;
    }
  }

  /** Pointwise order is kept by the sum, across different value types. */
  lemma {:induction false} SumByLe<K, V, W>(m: map<K, V>, f: V -> int, n: map<K, W>, g: W -> int)
    requires m.Keys == n.Keys
    requires forall k | k in m :: f(m[k]) <= g(n[k])
    ensures SumBy(m, f) <= SumBy(n, g)
    decreases |m|
  {
    if m == map[] {
      assert n == map[];
    } else {
      var k :| k in m;
      SumByRemove(m, f, k);
      SumByRemove(n, g, k);
      SumByLe(m - {k}, f, n - {k}, g);
    }
  }

  lemma SumByEq<K, V, W>(m: map<K, V>, f: V -> int, n: map<K, W>, g: W -> int)
    requires m.Keys == n.Keys
    requires forall k | k in m :: f(m[k]) == g(n[k])
    ensures SumBy(m, f) == SumBy(n, g)
  {
    SumByLe(m, f, n, g);
    SumByLe(n, g, m, f);
  }

  lemma {:induction false} SumByNonNegative<K, V>(m: map<K, V>, f: V -> int)
    requires forall k | k in m :: 0 <= f(m[k])
    ensures 0 <= SumBy(m, f)
    ensures forall k | k in m :: f(m[k]) <= SumBy(m, f)
    decreases |m|
  {
    forall k | k in m
      ensures f(m[k]) <= SumBy(m, f)
    {
      SumByRemove(m, f, k);
      SumByNonNegative(m - {k}, f);
    }
  }

  /** Leaving keys out does not raise a sum of natural numbers. */
  lemma {:induction false} SumByPart<K, V>(part: map<K, V>, m: map<K, V>, f: V -> int)
    requires forall k | k in part :: k in m && part[k] == m[k]
    requires forall k | k in m :: 0 <= f(m[k])
    ensures SumBy(part, f) <= SumBy(m, f)
    decreases |m|
  {
    if part == map[] {
      SumByNonNegative(m, f);
    } else {
      var k :| k in part;
      SumByRemove(part, f, k);
      SumByRemove(m, f, k);
      SumByPart(part - {k}, m - {k}, f);
    }
  }

  lemma {:induction false} SumByAdditive<K, V>(m: map<K, V>, f: V -> int, g: V -> int, h: V -> int)
    requires forall k | k in m :: h(m[k]) == f(m[k]) + g(m[k])
    ensures SumBy(m, h) == SumBy(m, f) + SumBy(m, g)
    decreases |m|
  {
    if m != map[] {
      var k :| k in m;
      SumByRemove(m, f, k);
      SumByRemove(m, g, k);
      SumByRemove(m, h, k);
      SumByAdditive(m - {k}, f, g, h);
    }
  }

  lemma SumByZero<K, V>(m: map<K, V>, f: V -> int)
    requires forall k | k in m :: f(m[k]) == 0
    ensures SumBy(m, f) == 0
  {
    SumByLe(m, f, m, (v: V) => 0);
    SumByNonNegative(m, f);
    ConstantZero(m);
  }

  lemma {:induction false} ConstantZero<K, V>(m: map<K, V>)
    ensures SumBy(m, (v: V) => 0) == 0
    decreases |m|
  {
    if m != map[] {
      var k :| k in m;
      SumByRemove(m, (v: V) => 0, k);
      ConstantZero(m - {k});
    }
  }
}
