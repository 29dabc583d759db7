/** Rewards paid out over vote periods: what a period gathers, what remains owed, and how a
    total is divided by weight (x/oracle/keeper/reward.go). */
module Rewards {
  import opened Prelude
  import opened MapSum
  import opened Decimal
  import opened Coins

  datatype Reward = Reward(id: nat, votePeriods: nat, coins: Coins)

  type RewardStore = map<nat, Reward>

  // ---- allocating

  /** The division does not panic, and `NewCoin` accepts the quotient. */
  predicate PaysOut(amount: nat, divisor: int) {
    divisor != 0 && 0 <= TruncDiv(amount, divisor)
  }

  function PerCoin(amount: nat, divisor: int): nat {
    if PaysOut(amount, divisor) then TruncDiv(amount, divisor) else 0
  }

  /** What each vote period gets of `total`, or `None` for a panic. Zero amounts stay. */
  function PerPeriod(total: Coins, votePeriods: nat): Option<Coins> {
    var divisor := I64(votePeriods);
    if forall d | d in total :: PaysOut(total[d], divisor)
    then Some(map d | d in total :: PerCoin(total[d], divisor))
    else None
  }

  /** The division panics, or gives a negative amount that is refused, for no period and for numbers of periods that are
      negative as `int64`s unless every amount is smaller; otherwise each period gets the amount divided by the number
      of periods, rounded down. */
  lemma PerPeriodExactly(total: Coins, votePeriods: nat)
    requires votePeriods < TWO64
    ensures PerPeriod(total, votePeriods).Some? <==>
              forall d | d in total ::
                votePeriods != 0 && (votePeriods < TWO63 || total[d] < TWO64 - votePeriods)
    ensures PerPeriod(total, votePeriods).Some? ==>
              var c := PerPeriod(total, votePeriods).value;
              && c.Keys == total.Keys
              && forall d | d in total ::
                   if votePeriods < TWO63 then IsFloor(total[d], votePeriods, c[d]) else c[d] == 0
  {
    hide PaysOut, PerCoin, IsFloor;
    forall d | d in total
      ensures PaysOut(total[d], I64(votePeriods)) <==>
                votePeriods != 0 && (votePeriods < TWO63 || total[d] < TWO64 - votePeriods)
      ensures PaysOut(total[d], I64(votePeriods)) ==>
                if votePeriods < TWO63 then IsFloor(total[d], votePeriods, PerCoin(total[d], I64(votePeriods)))
                else PerCoin(total[d], I64(votePeriods)) == 0
    {
      OneCoinExactly(total[d], votePeriods);
    }
  }

  lemma OneCoinExactly(amount: nat, votePeriods: nat)
    requires votePeriods < TWO64
    ensures PaysOut(amount, I64(votePeriods)) <==>
              votePeriods != 0 && (votePeriods < TWO63 || amount < TWO64 - votePeriods)
    ensures PaysOut(amount, I64(votePeriods)) ==>
              if votePeriods < TWO63 then IsFloor(amount, votePeriods, PerCoin(amount, I64(votePeriods)))
              else PerCoin(amount, I64(votePeriods)) == 0
  {
    if votePeriods < TWO63 {
      if votePeriods != 0 {
        DivisionBounds(amount, votePeriods);
      }
    } else {
      var divisor := TWO64 - votePeriods;
      assert I64(votePeriods) == -divisor;
      DivisionBounds(amount, divisor);
      NegatedDivisor(amount, divisor);
      if amount < divisor {
        QuotientIs(amount, divisor, 0);
      } else {
        QuotientAtLeast(amount, divisor, 1);
      }
    }
  }

  lemma NegatedDivisor(a: nat, d: int)
    requires 0 < d
    ensures a / (-d) == -(a / d)
  {
    assert (-(a / d)) * (-d) == (a / d) * d;
  }

  // ---- gathering

  ghost function CoinsIn(rewards: RewardStore): map<nat, Coins> {
    map id | id in rewards :: rewards[id].coins
  }

  ghost function Gathered(rewards: RewardStore): Coins {
    Total(CoinsIn(rewards))
  }

  /** The counter is a `uint64`. */
  function NextPeriods(r: Reward): nat { U64(r.votePeriods - 1) }

  /** One period less for every reward; those at zero are gone. */
  function Decremented(rewards: RewardStore): RewardStore {
    map id | id in rewards && NextPeriods(rewards[id]) != 0 ::
      rewards[id].(votePeriods := NextPeriods(rewards[id]))
  }

  lemma GatheredInsert(rewards: RewardStore, id: nat, r: Reward)
    requires id !in rewards
    ensures Gathered(rewards[id := r]) == Plus(Gathered(rewards), r.coins)
  {
    assert CoinsIn(rewards[id := r]) == CoinsIn(rewards)[id := r.coins];
    TotalInsert(CoinsIn(rewards), id, r.coins);
  }

  function OwedOf(d: Denom): Reward -> int {
    (r: Reward) => r.votePeriods * Amount(r.coins, d)
  }

  /** What the stored rewards still promise. */
  ghost function Owed(rewards: RewardStore, d: Denom): int {
    SumBy(rewards, OwedOf(d))
  }

  /** A reward stored for no period holds no coins, and counters fit their type. */
  ghost predicate WellStored(rewards: RewardStore) {
    forall id | id in rewards ::
      rewards[id].votePeriods < TWO64 &&
          (rewards[id].votePeriods == 0 ==> forall d: Denom :: Amount(rewards[id].coins, d) == 0)
  }

  lemma OwedIsNotNegative(rewards: RewardStore, d: Denom)
    ensures 0 <= Owed(rewards, d)
  {
    forall id | id in rewards
      ensures 0 <= OwedOf(d)(rewards[id])
    {
      assert 0 <= rewards[id].votePeriods * Amount(rewards[id].coins, d);
    }
    SumByNonNegative(rewards, OwedOf(d));
  }

  lemma OneRewardLess(r: Reward, d: Denom)
    requires r.votePeriods < TWO64 && (r.votePeriods == 0 ==> Amount(r.coins, d) == 0)
    ensures var next := NextPeriods(r);
            && OwedOf(d)(r.(votePeriods := next)) + Amount(r.coins, d) == OwedOf(d)(r)
            && (next == 0 ==> OwedOf(d)(r.(votePeriods := next)) == 0)
  {
    if r.votePeriods != 0 {
      var n := r.votePeriods - 1;
      assert n * Amount(r.coins, d) + Amount(r.coins, d) == (n + 1) * Amount(r.coins, d);
    }
  }

  /** Gathering pays exactly what the stored promises go down by. */
  lemma {:induction false} GatheringReducesOwed(rewards: RewardStore, d: Denom)
    requires WellStored(rewards)
    ensures WellStored(Decremented(rewards))
    ensures Owed(Decremented(rewards), d) + Amount(Gathered(rewards), d) == Owed(rewards, d)
    decreases |rewards|
  {
    TotalAmount(CoinsIn(rewards), d);
    if rewards != map[] {
      var id :| id in rewards;
      GatheringReducesOwed(rewards - {id}, d);
      GatheringOneReward(rewards, id, d);
    }
  }

  /** What is left of the rewards after some periods have been paid. */
  function AfterPeriods(rewards: RewardStore, periods: nat): RewardStore
    decreases periods
  {
    if periods == 0 then rewards else AfterPeriods(Decremented(rewards), periods - 1)
  }

  /** A reward for n periods is paid in exactly n periods: it is stored, with one period less each time, until then. */
  lemma {:induction false} RewardLastsItsPeriods(rewards: RewardStore, id: nat, periods: nat)
    requires id in rewards ==> 1 <= rewards[id].votePeriods < TWO64
    ensures var left := AfterPeriods(rewards, periods);
            && (id in left <==> id in rewards && periods < rewards[id].votePeriods)
            && (id in left ==> left[id] == rewards[id].(votePeriods := rewards[id].votePeriods - periods))
    decreases periods
  {
    if periods != 0 {
      RewardLastsItsPeriods(Decremented(rewards), id, periods - 1);
    }
  }

  lemma GatheringOneReward(rewards: RewardStore, id: nat, d: Denom)
    requires WellStored(rewards) && id in rewards
    ensures Owed(Decremented(rewards), d) + Amount(Gathered(rewards), d) - Owed(rewards, d)
         == Owed(Decremented(rewards - {id}), d) + Amount(Gathered(rewards - {id}), d) - Owed(rewards - {id}, d)
  {
    hide SumBy, OwedOf, AmountOf;
    var rest, r := rewards - {id}, rewards[id];
    var next := r.(votePeriods := NextPeriods(r));
    TotalAmount(CoinsIn(rewards), d);
    TotalAmount(CoinsIn(rest), d);
    assert CoinsIn(rest) == CoinsIn(rewards) - {id};
    SumByRemove(CoinsIn(rewards), AmountOf(d), id);
    AmountOfIsAmount(r.coins, d);
    SumByRemove(rewards, OwedOf(d), id);
    OneRewardLess(r, d);
    DecrementedWithout(rewards, id);
    if next.votePeriods != 0 {
      SumByInsert(Decremented(rest), OwedOf(d), id, next);
    }
  }

  lemma AmountOfIsAmount(c: Coins, d: Denom)
    ensures AmountOf(d)(c) == Amount(c, d)
  {
  }

  lemma DecrementedWithout(rewards: RewardStore, id: nat)
    requires id in rewards
    ensures id !in Decremented(rewards - {id})
    ensures var next := NextPeriods(rewards[id]);
            Decremented(rewards) == if next == 0 then Decremented(rewards - {id})
                                    else Decremented(rewards - {id})[id := rewards[id].(votePeriods := next)]
  {
    hide NextPeriods;
  }

  // ---- dividing by weight

  /** `weight / total` as a decimal, rounded down. */
  function Fraction(weight: nat, totalWeight: int): nat
    requires 0 < totalWeight
  {
    var scaled := weight * ONE;
    DivisionBounds(scaled, totalWeight);
    scaled / totalWeight
  }

  lemma FractionIsFloor(weight: nat, totalWeight: int)
    requires 0 < totalWeight
    ensures IsFloor(weight * ONE, totalWeight, Fraction(weight, totalWeight))
  {
    DivisionBounds(weight * ONE, totalWeight);
  }

  function Scale(amount: nat, fraction: nat): nat { amount * fraction / ONE }

  /** The share of `weight` in the total: each amount scaled by the fraction, rounded down. */
  function Portion(total: Coins, weight: nat, totalWeight: int): Coins
    requires 0 < totalWeight
  {
    var f := Fraction(weight, totalWeight);
    map d | d in total && 0 < Scale(total[d], f) :: Scale(total[d], f)
  }

  lemma PortionAmount(total: Coins, weight: nat, totalWeight: int, d: Denom)
    requires 0 < totalWeight
    ensures Normal(Portion(total, weight, totalWeight))
    ensures Amount(Portion(total, weight, totalWeight), d) == Scale(Amount(total, d), Fraction(weight, totalWeight))
  {
  }

  /** The decimal arithmetic of the code: `MulDec` of the fraction, then `TruncateDecimal`. */
  function PortionByDec(total: Coins, weight: nat, totalWeight: int): Coins
    requires 0 < totalWeight
  {
    var f := QuoInt(FromInt(weight), totalWeight);
    map d | d in total && 0 < TruncateInt(Mul(FromInt(total[d]), f)) :: TruncateInt(Mul(FromInt(total[d]), f))
  }

  lemma PortionByDecIsPortion(total: Coins, weight: nat, totalWeight: int)
    requires 0 < totalWeight
    ensures PortionByDec(total, weight, totalWeight) == Portion(total, weight, totalWeight)
  {
    var f := QuoInt(FromInt(weight), totalWeight);
    assert f == Fraction(weight, totalWeight);
    forall d | d in total
      ensures TruncateInt(Mul(FromInt(total[d]), f)) == Scale(total[d], f)
    {
      ScaledCoinIsExact(total[d], f);
    }
  }

  function WeightOf(): nat -> int { (w: nat) => w }

  function FractionOf(totalWeight: int): nat -> int
    requires 0 < totalWeight
  {
    (w: nat) => Fraction(w, totalWeight)
  }

  ghost function Portions<K>(total: Coins, weights: map<K, nat>, totalWeight: int): map<K, Coins>
    requires 0 < totalWeight
  {
    map k | k in weights :: Portion(total, weights[k], totalWeight)
  }

  /** `n` fractions that sum to `fs` against weights that sum to `ws`: each lost less than one unit. */
  ghost predicate FractionsBounded(fs: int, ws: int, n: nat, totalWeight: int) {
    Times(fs, totalWeight) <= ws * ONE <= Times(fs + n, totalWeight)
  }

  lemma {:induction false} FractionsAddUp<K>(weights: map<K, nat>, totalWeight: int)
    requires 0 < totalWeight
    ensures FractionsBounded(SumBy(weights, FractionOf(totalWeight)), SumBy(weights, WeightOf()), |weights|,
        totalWeight)
    decreases |weights|
  {
    if weights == map[] {
    } else {
      hide Times, SumBy, IsFloor;
      var k :| k in weights;
      FractionsAddUp(weights - {k}, totalWeight);
      SumByRemove(weights, FractionOf(totalWeight), k);
      SumByRemove(weights, WeightOf(), k);
      SizeMinusOne(weights, k);
      FractionIsFloor(weights[k], totalWeight);
      FractionStep(weights[k], Fraction(weights[k], totalWeight), SumBy(weights - {k}, WeightOf()),
                   SumBy(weights - {k}, FractionOf(totalWeight)), |weights - {k}|, totalWeight);
    }
  }

  lemma FractionStep(w: nat, f: int, ws: int, fs: int, n: nat, totalWeight: int)
    requires IsFloor(w * ONE, totalWeight, f)
    requires FractionsBounded(fs, ws, n, totalWeight)
    ensures FractionsBounded(f + fs, w + ws, n + 1, totalWeight)
  {
    TimesDistributes(totalWeight, f, fs);
    TimesDistributes(totalWeight, f + 1, fs + n);
  }

  lemma SizeMinusOne<K, V>(m: map<K, V>, k: K)
    requires k in m
    ensures |m| == |m - {k}| + 1
  {
    assert m == (m - {k})[k := m[k]];
  }

  /** `n` portions of `t` that sum to `paid` against fractions that sum to `fs`. */
  ghost predicate PortionsBounded(paid: int, t: nat, fs: int, n: nat) {
    paid * ONE <= Times(t, fs) <= (paid + n) * ONE
  }

  lemma {:induction false} PortionsAddUp<K>(total: Coins, weights: map<K, nat>, totalWeight: int, d: Denom)
    requires 0 < totalWeight
    ensures PortionsBounded(SumBy(Portions(total, weights, totalWeight), AmountOf(d)), Amount(total, d),
                            SumBy(weights, FractionOf(totalWeight)), |weights|)
    decreases |weights|
  {
    if weights == map[] {
      NoPortions(total, weights, totalWeight, d);
    } else {
      var k :| k in weights;
      PortionsAddUp(total, weights - {k}, totalWeight, d);
      OneMorePortion(total, weights, totalWeight, k, d);
    }
  }

  lemma NoPortions<K>(total: Coins, weights: map<K, nat>, totalWeight: int, d: Denom)
    requires 0 < totalWeight && weights == map[]
    ensures PortionsBounded(SumBy(Portions(total, weights, totalWeight), AmountOf(d)), Amount(total, d),
                            SumBy(weights, FractionOf(totalWeight)), |weights|)
  {
    assert Portions(total, weights, totalWeight) == map[];
  }

  lemma OneMorePortion<K>(total: Coins, weights: map<K, nat>, totalWeight: int, k: K, d: Denom)
    requires 0 < totalWeight && k in weights
    requires PortionsBounded(SumBy(Portions(total, weights - {k}, totalWeight), AmountOf(d)), Amount(total, d),
                             SumBy(weights - {k}, FractionOf(totalWeight)), |weights - {k}|)
    ensures PortionsBounded(SumBy(Portions(total, weights, totalWeight), AmountOf(d)), Amount(total, d),
                            SumBy(weights, FractionOf(totalWeight)), |weights|)
  {
    hide *;
    PortionSums(total, weights, totalWeight, k, d);
    SizeMinusOne(weights, k);
    PortionStep(Amount(total, d), Fraction(weights[k], totalWeight), SumBy(weights - {k}, FractionOf(totalWeight)),
                SumBy(Portions(total, weights - {k}, totalWeight), AmountOf(d)), |weights - {k}|);
  }

  lemma PortionSums<K>(total: Coins, weights: map<K, nat>, totalWeight: int, k: K, d: Denom)
    requires 0 < totalWeight && k in weights
    ensures SumBy(Portions(total, weights, totalWeight), AmountOf(d))
         == Scale(Amount(total, d), Fraction(weights[k], totalWeight)) +
             SumBy(Portions(total, weights - {k}, totalWeight), AmountOf(d))
    ensures SumBy(weights, FractionOf(totalWeight))
         == Fraction(weights[k], totalWeight) + SumBy(weights - {k}, FractionOf(totalWeight))
  {
    var portions := Portions(total, weights, totalWeight);
    assert portions - {k} == Portions(total, weights - {k}, totalWeight);
    PortionAmount(total, weights[k], totalWeight, d);
    SumByRemove(portions, AmountOf(d), k);
    SumByRemove(weights, FractionOf(totalWeight), k);
  }

  lemma PortionStep(t: nat, f: nat, fs: int, paid: int, n: nat)
    requires PortionsBounded(paid, t, fs, n)
    ensures PortionsBounded(Scale(t, f) + paid, t, f + fs, n + 1)
  {
    DivisionBounds(t * f, ONE);
    TimesDistributes(t, f, fs);
  }

  /** Of a total T divided among n validators by weight, at most T is paid, and at least T - n - nT/10^18
      if their weights are all of the total weight. */
  lemma PayoutBounds<K(!new)>(total: Coins, weights: map<K, nat>, totalWeight: int, d: Denom)
    requires 0 < totalWeight && SumBy(weights, WeightOf()) <= totalWeight
    ensures var paid, t, n := Amount(Total(Portions(total, weights, totalWeight)), d), Amount(total, d), |weights|;
            && paid <= t
            && (SumBy(weights, WeightOf()) == totalWeight ==> t * ONE - n * ONE - n * t <= paid * ONE)
  {
    var paid, t, n := Amount(Total(Portions(total, weights, totalWeight)), d), Amount(total, d), |weights|;
    var fractions := SumBy(weights, FractionOf(totalWeight));
    hide SumBy, Times;
    TotalAmount(Portions(total, weights, totalWeight), d);
    FractionsAddUp(weights, totalWeight);
    PortionsAddUp(total, weights, totalWeight, d);
    FractionsNearOne(fractions, SumBy(weights, WeightOf()), n, totalWeight);
    PaidNearTotal(t, fractions, n, paid);
  }

  lemma PaidNearTotal(t: nat, fractions: int, n: nat, paid: int)
    requires fractions <= ONE
    requires PortionsBounded(paid, t, fractions, n)
    ensures paid <= t
    ensures ONE - n <= fractions ==> t * ONE - n * ONE - n * t <= paid * ONE
  {
    assert Times(t, ONE) == t * ONE && Times(t, n) == n * t;
    TimesDistributes(t, ONE - n, n);
    TimesMonotone(t, fractions, ONE);
    if ONE - n <= fractions {
      TimesMonotone(t, ONE - n, fractions);
    }
    hide Times;
  }

  lemma FractionsNearOne(fractions: int, weights: int, n: nat, totalWeight: int)
    requires 0 < totalWeight && weights <= totalWeight
    requires FractionsBounded(fractions, weights, n, totalWeight)
    ensures fractions <= ONE
    ensures weights == totalWeight ==> ONE - n <= fractions
  {
    CancelLe(fractions, ONE, totalWeight);
    if weights == totalWeight {
      CancelLe(ONE, fractions + n, totalWeight);
    }
  }
}
