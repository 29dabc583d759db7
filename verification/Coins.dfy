/** Amounts of coins by denomination, as `sdk.Coins` adds and subtracts them. */
module Coins {
  import opened MapSum

  type Denom = string
  type Coins = map<Denom, nat>

  function Amount(c: Coins, d: Denom): nat {
    if d in c then c[d] else 0
  }

  /** Without zero amounts, as the SDK keeps coins. */
  ghost predicate Normal(c: Coins) {
    forall d | d in c :: 0 < c[d]
  }

  function Plus(a: Coins, b: Coins): (r: Coins)
    ensures Normal(r)
    ensures forall d: Denom :: Amount(r, d) == Amount(a, d) + Amount(b, d)
  {
    map d | d in a.Keys + b.Keys && 0 < Amount(a, d) + Amount(b, d) :: Amount(a, d) + Amount(b, d)
  }

  predicate Covers(a: Coins, b: Coins) {
    forall d | d in b :: b[d] <= Amount(a, d)
  }

  function Minus(a: Coins, b: Coins): (r: Coins)
    requires Covers(a, b)
    ensures Normal(r)
    ensures forall d: Denom :: Amount(r, d) == Amount(a, d) - Amount(b, d)
  {
    map d | d in a && Amount(b, d) < a[d] :: a[d] - Amount(b, d)
  }

  /** Normal coins are equal when all amounts are. */
  lemma SameAmountsSameCoins(a: Coins, b: Coins)
    requires Normal(a) && Normal(b)
    requires forall d: Denom :: Amount(a, d) == Amount(b, d)
    ensures a == b
  {
    forall d: Denom
      ensures d in a <==> d in b
      ensures d in a ==> a[d] == b[d]
    {
      assert Amount(a, d) == Amount(b, d);
    }
  }

  function AmountOf(d: Denom): Coins -> int { (c: Coins) => Amount(c, d) }

  ghost function Denoms<K>(m: map<K, Coins>): set<Denom> {
    set k, d | k in m && d in m[k] :: d
  }

  /** The sum of all coins in a map, denomination by denomination. */
  ghost function Total<K(!new)>(m: map<K, Coins>): (r: Coins)
    ensures Normal(r)
  {
    map d | d in Denoms(m) && 0 < SumBy(m, AmountOf(d)) :: SumBy(m, AmountOf(d))
  }

  lemma TotalAmount<K(!new)>(m: map<K, Coins>, d: Denom)
    ensures Amount(Total(m), d) == SumBy(m, AmountOf(d))
  {
    SumByNonNegative(m, AmountOf(d));
    if d !in Denoms(m) {
      SumByZero(m, AmountOf(d));
    }
  }

  lemma TotalOfNothing<K(!new)>()
    ensures Total<K>(map[]) == map[]
  {
  }

  lemma TotalInsert<K(!new)>(m: map<K, Coins>, k: K, c: Coins)
    requires k !in m
    ensures Total(m[k := c]) == Plus(Total(m), c)
  {
    forall d: Denom
      ensures Amount(Total(m[k := c]), d) == Amount(Plus(Total(m), c), d)
    {
      TotalAmount(m, d);
      TotalAmount(m[k := c], d);
      SumByInsert(m, AmountOf(d), k, c);
    }
    SameAmountsSameCoins(Total(m[k := c]), Plus(Total(m), c));
  }
}
