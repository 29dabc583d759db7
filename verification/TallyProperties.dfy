/** What one tally means for misses, rewards and the whitelist. */
module TallyProperties {
  import opened Prelude
  import opened MapSum
  import opened Decimal
  import opened Assets
  import opened VoteText
  import opened Ballots
  import opened Coins
  import opened Rewards
  import opened OracleState

  // ---- misses

  /** Every pair won is one of the required pairs, and a required pair that is not tallied has no ballots. */
  lemma WonPairsAreRequired(params: Params, st: Staking, s: State, powers: Powers, v: Address)
    ensures WonPairs(params, s.votes, powers, PassingPairs(params, st, s, powers), v) ==
              set p | p in RequiredPairs(params, st, s, powers) && Wins(params, PairBallots(s.votes, powers, p), v)
  {
    hide Passes, PairBallots, RewardSpread, Median;
  }

  /** An active validator's counter goes up by one exactly when some required pair, whitelisted and not
      failed, has no ballot of its in the spread or abstaining; otherwise it stays. */
  lemma MissesExactlyWithoutAWin(params: Params, st: Staking, s: State, powers: Powers, v: Address)
    requires v in powers
    ensures var passing, required := PassingPairs(params, st, s, powers), RequiredPairs(params, st, s, powers);
            var counters := WithMisses(s.missCounters, Scores(params, s.votes, powers, passing), |required|);
            CounterOf(counters, v) == CounterOf(s.missCounters, v) +
              if exists p :: p in required && !Wins(params, PairBallots(s.votes, powers, p), v) then 1 else 0
  {
    var passing, required := PassingPairs(params, st, s, powers), RequiredPairs(params, st, s, powers);
    var won := WonPairs(params, s.votes, powers, passing, v);
    WonPairsAreRequired(params, st, s, powers, v);
    hide PassingPairs, RequiredPairs, WonPairs, Wins, PairBallots, RatedPairs;
    assert won <= required;
    SubsetOfSameSize(won, required);
  }

  lemma TalliedCounters(params: Params, s: State, st: Staking, time: int)
    requires Consistent(st) && Tallied(params, s, st, time).Some?
    ensures var powers := ActivePowers(st);
            Tallied(params, s, st, time).value.missCounters ==
              WithMisses(s.missCounters, Scores(params, s.votes, powers, PassingPairs(params, st, s, powers)),
                         |RequiredPairs(params, st, s, powers)|)
  {
    hide Paid, Scores, PassingPairs, RequiredPairs, NewPrices, NewSnapshots, WithMisses, Cleared, NextWhitelist,
         ActivePowers;
  }

  /** The same of a whole tally, for every validator: only active ones can miss. */
  lemma TallyMisses(params: Params, s: State, st: Staking, time: int, v: Address)
    requires Consistent(st) && Tallied(params, s, st, time).Some?
    ensures var powers := ActivePowers(st);
            CounterOf(Tallied(params, s, st, time).value.missCounters, v) == CounterOf(s.missCounters, v) +
              if v in powers && exists p ::
                  p in RequiredPairs(params, st, s, powers) && !Wins(params, PairBallots(s.votes, powers, p), v)
              then 1 else 0
  {
    hide Tallied, Scores, PassingPairs, RequiredPairs, WithMisses, ActivePowers, Wins, PairBallots, CounterOf;
    var powers := ActivePowers(st);
    TalliedCounters(params, s, st, time);
    if v in powers {
      MissesExactlyWithoutAWin(params, st, s, powers, v);
    } else {
      InactiveDoNotMiss(params, s.votes, s.missCounters, powers, PassingPairs(params, st, s, powers),
                        |RequiredPairs(params, st, s, powers)|, v);
    }
  }

  /** Everybody else's counter stays. */
  lemma InactiveDoNotMiss(params: Params, votes: Votes, counters: map<Address, nat>, powers: Powers, pairs: set<Pair>,
      required: nat, v: Address)
    requires v !in powers
    ensures CounterOf(WithMisses(counters, Scores(params, votes, powers, pairs), required), v) == CounterOf(counters, v)
  {
  }

  lemma SubsetOfSameSize<T>(a: set<T>, b: set<T>)
    requires a <= b
    ensures |a| == |b| <==> a == b
  {
    assert b == a + (b - a);
    assert |b| == |a| + |b - a|;
  }

  // ---- rewards

  lemma SpreadIsNotNegative(params: Params, b: BallotMap)
    ensures 0 <= RewardSpread(params, b)
  {
    hide Variance, Median;
  }

  lemma BallotsAbstainWithoutPower(votes: Votes, powers: Powers, pair: Pair)
    ensures AbstainWithoutPower(PairBallots(votes, powers, pair))
    ensures forall v | v in PairBallots(votes, powers, pair) :: v in powers &&
              PairBallots(votes, powers, pair)[v].power == if 0 < PairBallots(votes, powers, pair)[v].rate
                  then powers[v] else 0
  {
  }

  /** The ballot has one unit of power, and it voted a rate above the spread. */
  ghost predicate LonePowerOutvoted(params: Params, b: BallotMap) {
    && SumBy(b, PowerOf()) == 1
    && forall v | v in b && 0 < b[v].power :: Median(b) + RewardSpread(params, b) < b[v].rate
  }

  /** A winner that is paid: with power, and not abstaining. */
  ghost predicate PaidWinner(params: Params, b: BallotMap, v: Address) {
    Wins(params, b, v) && 0 < b[v].rate && 0 < b[v].power
  }

  /** A ballot with power has a paid winner unless its one unit of power is outvoted. */
  lemma BallotHasAPaidWinner(params: Params, b: BallotMap)
    requires AbstainWithoutPower(b) && SumBy(b, PowerOf()) != 0
    ensures (exists v :: PaidWinner(params, b, v)) <==> !LonePowerOutvoted(params, b)
  {
    SumByNonNegative(b, PowerOf());
    if b == map[] {
      SumByZero(b, PowerOf());
    }
    MedianExists(b);
    SpreadIsNotNegative(params, b);
    hide RewardSpread, Median;
    var r := Median(b);
    if 2 <= SumBy(b, PowerOf()) {
      MedianIsPositive(b, r);
      var v := MedianHasPower(b, r);
      assert PaidWinner(params, b, v);
    } else {
      LeastRateAtPowerOne(b, r);
      if !LonePowerOutvoted(params, b) {
        var v :| v in b && 0 < b[v].power && b[v].rate <= r + RewardSpread(params, b);
        assert PaidWinner(params, b, v);
      }
    }
  }

  /** At total power 1 the median is the least rate. */
  lemma LeastRateAtPowerOne(b: BallotMap, r: Dec)
    requires IsMedian(b, r) && SumBy(b, PowerOf()) == 1
    ensures forall v | v in b :: r <= b[v].rate
  {
    SumByNonNegative(b, PowerBelow(r));
  }

  lemma RatedWinnerIsPaid(params: Params, votes: Votes, powers: Powers, pairs: set<Pair>, p: Pair, v: Address)
    requires p in pairs && v in powers && 0 < powers[v]
    requires Wins(params, PairBallots(votes, powers, p), v) && 0 < PairBallots(votes, powers, p)[v].rate
    ensures 0 < TotalWeight(Scores(params, votes, powers, pairs))
  {
    hide Wins, PairBallots;
    var scores, rated := Scores(params, votes, powers, pairs), RatedPairs(params, votes, powers, pairs, v);
    assert p in rated;
    assert rated == (rated - {p}) + {p} && 1 <= |rated|;
    TimesMonotone(powers[v], 1, |rated|);
    TimesOne(powers[v]);
    hide RatedPairs, Times;
    SumByNonNegative(Weights(scores), WeightOf());
    assert v in Weights(scores) && 0 < WeightOf()(Weights(scores)[v]);
  }

  /** A tally pays somebody exactly if one of its pairs has a paid winner. */
  lemma PaidIfWon(params: Params, votes: Votes, powers: Powers, pairs: set<Pair>)
    ensures 0 < TotalWeight(Scores(params, votes, powers, pairs)) <==>
              exists p, v :: p in pairs && PaidWinner(params, PairBallots(votes, powers, p), v)
  {
    var scores := Scores(params, votes, powers, pairs);
    hide Wins, PairBallots;
    if exists p, v :: p in pairs && PaidWinner(params, PairBallots(votes, powers, p), v) {
      var p, v :| p in pairs && PaidWinner(params, PairBallots(votes, powers, p), v);
      BallotsAbstainWithoutPower(votes, powers, p);
      WinnersVoted(params, PairBallots(votes, powers, p), v);
      RatedWinnerIsPaid(params, votes, powers, pairs, p, v);
    } else {
      forall v | v in powers
        ensures scores[v].rewardWeight == 0
      {
        UnpaidWithoutAWin(params, votes, powers, pairs, v);
      }
      SumByZero(Weights(scores), WeightOf());
    }
  }

  lemma WinnersVoted(params: Params, b: BallotMap, v: Address)
    requires Wins(params, b, v)
    ensures v in b
  {
  }

  lemma UnpaidWithoutAWin(params: Params, votes: Votes, powers: Powers, pairs: set<Pair>, v: Address)
    requires v in powers
    requires forall p | p in pairs :: !PaidWinner(params, PairBallots(votes, powers, p), v)
    ensures Scores(params, votes, powers, pairs)[v].rewardWeight == 0
  {
    hide Wins, PairBallots;
    if powers[v] != 0 {
      forall p | p in pairs
        ensures p !in RatedPairs(params, votes, powers, pairs, v)
      {
        BallotsAbstainWithoutPower(votes, powers, p);
        if Wins(params, PairBallots(votes, powers, p), v) {
          WinnersVoted(params, PairBallots(votes, powers, p), v);
        }
      }
      assert RatedPairs(params, votes, powers, pairs, v) == {};
    }
    TimesOne(powers[v]);
  }

  /** A tally pays somebody exactly if some ballot that passed has more than one unit of power, or has one that
      voted a rate within the spread. */
  lemma TallyPaysUnlessOutvoted(params: Params, st: Staking, s: State, powers: Powers)
    ensures var passing := PassingPairs(params, st, s, powers);
            0 < TotalWeight(Scores(params, s.votes, powers, passing)) <==>
              exists p :: p in passing && !LonePowerOutvoted(params, PairBallots(s.votes, powers, p))
  {
    var passing := PassingPairs(params, st, s, powers);
    hide Scores, TotalWeight;
    PaidIfWon(params, s.votes, powers, passing);
    forall p | p in passing
      ensures (exists v :: PaidWinner(params, PairBallots(s.votes, powers, p), v)) <==>
                !LonePowerOutvoted(params, PairBallots(s.votes, powers, p))
    {
      BallotsAbstainWithoutPower(s.votes, powers, p);
      BallotHasAPaidWinner(params, PairBallots(s.votes, powers, p));
    }
    hide *;
  }

  /** In particular if one of them has total power of at least 2, and its price is then positive. */
  lemma PassingBallotHasAPaidWinner(params: Params, st: Staking, s: State, powers: Powers, pair: Pair)
    requires pair in PassingPairs(params, st, s, powers)
    requires 2 <= SumBy(PairBallots(s.votes, powers, pair), PowerOf())
    ensures 0 < Median(PairBallots(s.votes, powers, pair))
    ensures 0 < TotalWeight(Scores(params, s.votes, powers, PassingPairs(params, st, s, powers)))
  {
    var b := PairBallots(s.votes, powers, pair);
    MedianExists(b);
    BallotsAbstainWithoutPower(s.votes, powers, pair);
    MedianIsPositive(b, Median(b));
    hide PassingPairs, PairBallots, Median, Scores, TotalWeight;
    TallyPaysUnlessOutvoted(params, st, s, powers);
  }

  const LONE_VOTES: Votes := map[
    "a" := Vote([ExchangeRateTuple("p:q", 0)], "a"),
    "b" := Vote([ExchangeRateTuple("p:q", 7)], "b")]

  const LONE_POWERS: Powers := map["a" := 1, "b" := 1]

  const LONE_BALLOTS: BallotMap := map["a" := Ballot(0, "p:q", "a", 0), "b" := Ballot(7, "p:q", "b", 1)]

  lemma LoneBallots()
    ensures PairBallots(LONE_VOTES, LONE_POWERS, "p:q") == LONE_BALLOTS
  {
    var a, b := [ExchangeRateTuple("p:q", 0)], [ExchangeRateTuple("p:q", 7)];
    assert a[..0] == [] && b[..0] == [];
    assert ToMap(a) == map["p:q" := 0] && ToMap(b) == map["p:q" := 7];
  }

  lemma LoneSpread(params: Params)
    requires params.root(0) == 0 && Median(LONE_BALLOTS) == 0
    ensures RewardSpread(params, LONE_BALLOTS) == 0
  {
    var b := LONE_BALLOTS;
    assert "a" in b;
    assert Mul(7, 7) == 0 && Mul(0, 0) == 0;
    SumByZero(b, SquaredDeviation(0));
    hide SumBy, Median;
  }

  /** One validator abstains and the only other one, of power 1, votes a rate: the price is 0 and nobody is paid.
      The rate is 7 units of the 18th decimal; the root of zero is zero. */
  lemma NobodyPaidAtPowerOne(params: Params)
    requires params.root(0) == 0
    ensures var b := PairBallots(LONE_VOTES, LONE_POWERS, "p:q");
            && SumBy(b, PowerOf()) == 1 && Median(b) == 0 && LonePowerOutvoted(params, b)
            && TotalWeight(Scores(params, LONE_VOTES, LONE_POWERS, {"p:q"})) == 0
  {
    hide PairBallots, RewardSpread, Median, Scores, TotalWeight, Wins, SumBy, IsMedian;
    LoneBallots();
    AbstainerAtPowerOne();
    var b := LONE_BALLOTS;
    assert "a" in b;
    MedianExists(b);
    MedianIsUnique(b, Median(b), 0);
    LoneSpread(params);
    BallotHasAPaidWinner(params, b);
    PaidIfWon(params, LONE_VOTES, LONE_POWERS, {"p:q"});
    WeightIsNotNegative(Scores(params, LONE_VOTES, LONE_POWERS, {"p:q"}));
  }

  /** Validators that staking no longer knows only lower the weight that is paid. */
  lemma KnownWeight(st: Staking, scores: Performances)
    ensures TotalWeight(Known(st, scores)) <= TotalWeight(scores)
    ensures scores.Keys <= st.validators.Keys ==> Known(st, scores) == scores
  {
    SumByPart(Weights(Known(st, scores)), Weights(scores), WeightOf());
  }

  /** What a tally pays: of the total T gathered in a denomination, with n scores, at most T leaves the module
      account, and at least T - n - nT/10^18 if staking knows all the validators; exactly that is credited. */
  lemma TallyPayout(s: State, st: Staking, scores: Performances, d: Denom)
    requires 0 < TotalWeight(scores) && Paid(s, st, scores).Some?
    ensures var p, t, n := Paid(s, st, scores).value, Amount(Gathered(s.rewards), d), |scores|;
            var moved := Amount(s.balance, d) - Amount(p.balance, d);
            && moved == Amount(p.distributed, d) - Amount(s.distributed, d)
            && moved == SumBy(Portions(Gathered(s.rewards), Weights(Known(st, scores)), TotalWeight(scores)),
                AmountOf(d))
            && moved <= t
            && (scores.Keys <= st.validators.Keys ==> t * ONE - n * ONE - n * t <= moved * ONE)
  {
    hide Gathered, Portions;
    KnownWeight(st, scores);
    var weights, weight := Weights(Known(st, scores)), TotalWeight(scores);
    var portions := Portions(Gathered(s.rewards), weights, weight);
    PayoutBounds(Gathered(s.rewards), weights, weight, d);
    TotalAmount(portions, d);
    if scores.Keys <= st.validators.Keys {
      SameKeysSameSize(weights, scores);
    }
    hide TotalWeight, SumBy, Total;
  }

  lemma SameKeysSameSize<K, V, W>(m: map<K, V>, n: map<K, W>)
    requires m.Keys == n.Keys
    ensures |m| == |n|
  {
    assert |m| == |m.Keys| && |n| == |n.Keys|;
  }

  // ---- the whitelist

  ghost predicate NoDuplicates(pairs: seq<Pair>) {
    forall i, j | 0 <= i < j < |pairs| :: pairs[i] != pairs[j]
  }

  lemma {:induction false} SizeOfPairSet(pairs: seq<Pair>)
    ensures |PairSet(pairs)| <= |pairs|
    ensures |PairSet(pairs)| == |pairs| <==> NoDuplicates(pairs)
  {
    if pairs != [] {
      var n := |pairs| - 1;
      var front, last := pairs[..n], pairs[n];
      SizeOfPairSet(front);
      assert forall i | 0 <= i < n :: front[i] == pairs[i];
      assert PairSet(pairs) == PairSet(front) + {last};
      assert last in PairSet(front) <==> exists i :: 0 <= i < n && pairs[i] == last;
      if last in PairSet(front) {
        assert PairSet(pairs) == PairSet(front);
      }
      assert NoDuplicates(pairs) <==> NoDuplicates(front) && last !in PairSet(front);
    } else {
      assert PairSet(pairs) == {};
    }
  }

  /** Besides the pairs of the parameter only pairs whose ballot failed are stored. */
  ghost predicate StaysClose(stored: set<Pair>, next: seq<Pair>, required: set<Pair>) {
    NextWhitelist(stored, next, required) <= PairSet(next) + (stored - required)
  }

  /** After a tally the stored whitelist holds all pairs of the parameter; and besides them only pairs
      whose ballot failed in this tally, exactly if the whitelist was rewritten or the parameter has no
      pair twice. */
  lemma WhitelistAfterTally(stored: set<Pair>, next: seq<Pair>, required: set<Pair>)
    requires required <= stored
    ensures PairSet(next) <= NextWhitelist(stored, next, required)
    ensures StaysClose(stored, next, required) <==>
              |required| != |next| || !(PairSet(next) <= required) || NoDuplicates(next)
  {
    assert PairSet(next) <= required <==> forall i | 0 <= i < |next| :: next[i] in required;
    SizeOfPairSet(next);
    if PairSet(next) <= required {
      SubsetOfSameSize(PairSet(next), required);
    }
    hide PairSet, NoDuplicates;
  }

  /** Without duplicates in the parameter that is always so. */
  lemma WhitelistWithoutDuplicates(stored: set<Pair>, next: seq<Pair>, required: set<Pair>)
    requires required <= stored && NoDuplicates(next)
    ensures var after := NextWhitelist(stored, next, required);
            PairSet(next) <= after <= PairSet(next) + (stored - required)
  {
    WhitelistAfterTally(stored, next, required);
  }

  /** The parameters for which that is so after every tally are exactly those without duplicates. */
  lemma ExactParameters(next: seq<Pair>)
    ensures (forall stored, required | required <= stored :: StaysClose(stored, next, required)) <==> NoDuplicates(next)
  {
    if NoDuplicates(next) {
      forall stored, required | required <= stored
        ensures StaysClose(stored, next, required)
      {
        WhitelistAfterTally(stored, next, required);
      }
    } else {
      SizeOfPairSet(next);
      var stale := OtherPairs(PairSet(next), |next| - |PairSet(next)|);
      var stored := PairSet(next) + stale;
      WhitelistAfterTally(stored, next, stored);
      assert !StaysClose(stored, next, stored);
    }
  }

  /** There are as many other pairs as one likes. */
  lemma {:induction false} OtherPairs(pairs: set<Pair>, k: nat) returns (others: set<Pair>)
    ensures |others| == k && others !! pairs
  {
    if k == 0 {
      others := {};
    } else {
      others := OtherPairs(pairs, k - 1);
      var p := LongerPair(pairs + others);
      others := others + {p};
    }
  }

  lemma LongerPair(pairs: set<Pair>) returns (p: Pair)
    ensures p !in pairs
  {
    var lengths := {0} + set q | q in pairs :: |q|;
    assert 0 in lengths;
    var longest := Greatest(lengths);
    p := seq(longest + 1, _ => 'p');
    assert p in pairs ==> |p| in lengths;
  }

  /** So after every tally the stored whitelist is that of the parameter, up to pairs whose ballot failed just now. */
  lemma TallyWhitelist(params: Params, s: State, st: Staking, time: int)
    requires Consistent(st) && Tallied(params, s, st, time).Some? && NoDuplicates(s.paramsWhitelist)
    ensures PairSet(s.paramsWhitelist) <= Tallied(params, s, st, time).value.whitelistedPairs
    ensures Tallied(params, s, st, time).value.whitelistedPairs
         <= PairSet(s.paramsWhitelist) + FailedPairs(params, st, s, ActivePowers(st))
  {
    hide Paid, Scores, PassingPairs, FailedPairs, NewPrices, NewSnapshots, WithMisses, Cleared, NextWhitelist,
         ActivePowers, NoDuplicates, PairSet;
    var required := RequiredPairs(params, st, s, ActivePowers(st));
    WhitelistWithoutDuplicates(s.whitelistedPairs, s.paramsWhitelist, required);
  }

  /** With a duplicate it may not be: the parameter [a, a] leaves a stored {a, b} as it is. */
  lemma DuplicateKeepsAStalePair()
    ensures NextWhitelist({"a:x", "b:x"}, ["a:x", "a:x"], {"a:x", "b:x"}) == {"a:x", "b:x"}
    ensures "b:x" !in PairSet(["a:x", "a:x"])
  {
    assert |{"a:x", "b:x"}| == 2;
  }
}
