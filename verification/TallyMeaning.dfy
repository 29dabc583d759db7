/** What a tally leaves behind, said in terms of the staking order, the ballots and their median alone: who is
    active, which pairs get a price, who misses, what everybody is paid. */
module TallyMeaning {
  import opened Prelude
  import opened MapSum
  import opened Decimal
  import opened Assets
  import opened Ballots
  import opened Coins
  import opened Rewards
  import opened Twap
  import opened OracleState
  import opened Tally
  import opened TallyProperties

  // ---- the active validators

  /** How many entries of a power order are bonded. */
  function BondedAmong(validators: map<Address, Validator>, order: seq<Address>): nat {
    if order == [] then 0
    else
      (if order[0] in validators && validators[order[0]].bonded then 1 else 0) + BondedAmong(validators, order[1..])
  }

  /** `v` stands at place `i` of the order, bonded, behind fewer than `limit` bonded ones. */
  ghost predicate RankedAt(validators: map<Address, Validator>, order: seq<Address>, limit: nat, v: Address, i: int) {
    && 0 <= i < |order| && order[i] == v && v in validators && validators[v].bonded
    && BondedAmong(validators, order[..i]) < limit
  }

  /** Unbonded validators do not use up the limit: the active ones are those with fewer than the maximum number of
      bonded ones in front of them. */
  lemma ActiveExactly(st: Staking, v: Address)
    requires Consistent(st)
    ensures v in ActivePowers(st) <==> exists i :: RankedAt(st.validators, st.byPower, st.maxValidators, v, i)
    ensures v in ActivePowers(st) ==> ActivePowers(st)[v] == st.validators[v].power
  {
    ActiveByRank(st.validators, st.byPower, st.maxValidators, v);
  }

  lemma {:induction false} ActiveByRank(validators: map<Address, Validator>, order: seq<Address>, limit: nat,
      v: Address)
    requires forall i | 0 <= i < |order| :: order[i] in validators
    ensures v in ActiveSet(validators, order, limit) <==> exists i :: RankedAt(validators, order, limit, v, i)
    decreases |order|
  {
    if order != [] && limit != 0 {
      var bonded := validators[order[0]].bonded;
      var rest := if bonded then limit - 1 else limit;
      ActiveByRank(validators, order[1..], rest, v);
      if exists i :: RankedAt(validators, order[1..], rest, v, i) {
        var i :| RankedAt(validators, order[1..], rest, v, i);
        RankShifts(validators, order, limit, v, i);
      }
      if exists i :: RankedAt(validators, order, limit, v, i) {
        var i :| RankedAt(validators, order, limit, v, i);
        if i != 0 {
          RankShifts(validators, order, limit, v, i - 1);
        }
      }
      if bonded && v == order[0] {
        assert order[..0] == [];
        assert RankedAt(validators, order, limit, v, 0);
      }
    }
  }

  lemma RankShifts(validators: map<Address, Validator>, order: seq<Address>, limit: nat, v: Address, i: nat)
    requires order != [] && order[0] in validators && limit != 0
    ensures RankedAt(validators, order, limit, v, i + 1) <==>
              RankedAt(validators, order[1..], if validators[order[0]].bonded then limit - 1 else limit, v, i)
  {
    if i + 1 < |order| {
      assert order[..i + 1][1..] == order[1..][..i];
    }
  }

  // ---- prices

  /** The ballots of an active validator set for a pair, at a tally. */
  ghost function BallotsFor(s: State, st: Staking, p: Pair): BallotMap
    requires Consistent(st)
  {
    PairBallots(s.votes, ActivePowers(st), p)
  }

  /** Some power, at least the vote threshold of the bonded power, from enough voters who did not abstain. */
  ghost predicate Passed(params: Params, st: Staking, b: BallotMap) {
    var power := SumBy(b, PowerOf());
    && power != 0 && ChopPrecisionAndRound(params.voteThreshold * st.bondedPower) <= power
    && params.minVoters <= |set v | v in b && 0 < b[v].rate|
  }

  lemma {:induction false} VotersAreCounted(b: BallotMap)
    ensures SumBy(b, ValidVoter()) == |set v | v in b && 0 < b[v].rate|
    decreases |b|
  {
    var voters := set v | v in b && 0 < b[v].rate;
    if b == map[] {
      assert voters == {};
    } else {
      var u :| u in b;
      VotersAreCounted(b - {u});
      SumByRemove(b, ValidVoter(), u);
      OneVoterLess(b, u);
      hide SumBy;
    }
  }

  lemma OneVoterLess(b: BallotMap, u: Address)
    requires u in b
    ensures var rest := b - {u};
            |set v | v in b && 0 < b[v].rate| ==
              |set v | v in rest && 0 < rest[v].rate| + if 0 < b[u].rate then 1 else 0
  {
    var rest := b - {u};
    var voters, others := set v | v in b && 0 < b[v].rate, set v | v in rest && 0 < rest[v].rate;
    if 0 < b[u].rate {
      assert voters == others + {u};
    } else {
      assert voters == others;
    }
  }

  lemma PassedExactly(params: Params, st: Staking, b: BallotMap)
    ensures Passes(params, st, b) <==> Passed(params, st, b)
    ensures Passed(params, st, b) ==> b != map[]
  {
    VotersAreCounted(b);
    if b == map[] {
      SumByZero(b, PowerOf());
    }
    hide ChopPrecisionAndRound, SumBy;
  }

  /** After a tally exactly the whitelisted pairs that passed have a price, the median of their ballots. */
  lemma PricesExactly(params: Params, s: State, st: Staking, time: int, p: Pair)
    requires Consistent(st) && Tallied(params, s, st, time).Some?
    ensures var rates := Tallied(params, s, st, time).value.exchangeRates;
            && (p in rates <==> p in s.whitelistedPairs && Passed(params, st, BallotsFor(s, st, p)))
            && (p in rates ==> IsMedian(BallotsFor(s, st, p), rates[p]))
  {
    hide IsMedian, Passes, Passed, PairBallots, ActivePowers, Median, Tallied;
    TalliedPrices(params, s, st, time);
    var b := BallotsFor(s, st, p);
    PassedExactly(params, st, b);
    if Passed(params, st, b) {
      MedianExists(b);
    }
  }

  lemma TalliedPrices(params: Params, s: State, st: Staking, time: int)
    requires Consistent(st) && Tallied(params, s, st, time).Some?
    ensures var passing := PassingPairs(params, st, s, ActivePowers(st));
            var t := Tallied(params, s, st, time).value;
            && t.exchangeRates == NewPrices(s.votes, ActivePowers(st), passing)
            && t.priceSnapshots == s.priceSnapshots + NewSnapshots(s.votes, ActivePowers(st), passing, time)
  {
    hide Paid, Scores, PassingPairs, RequiredPairs, NewPrices, NewSnapshots, WithMisses, Cleared, NextWhitelist,
         ActivePowers;
  }

  /** It writes a snapshot of every price under the time of the block, in whole milliseconds, and keeps all others. */
  lemma SnapshotsExactly(params: Params, s: State, st: Staking, time: int, p: Pair, u: int)
    requires Consistent(st) && Tallied(params, s, st, time).Some?
    ensures var t := Tallied(params, s, st, time).value;
            if u == time && p in t.exchangeRates
            then (p, u) in t.priceSnapshots &&
                 t.priceSnapshots[(p, u)] == Snapshot(p, t.exchangeRates[p], time / MILLISECOND)
            else ((p, u) in t.priceSnapshots <==> (p, u) in s.priceSnapshots) &&
                 ((p, u) in t.priceSnapshots ==> t.priceSnapshots[(p, u)] == s.priceSnapshots[(p, u)])
  {
    hide Tallied, PassingPairs, ActivePowers;
    TalliedPrices(params, s, st, time);
    NewSnapshotAt(s.votes, ActivePowers(st), PassingPairs(params, st, s, ActivePowers(st)), time, p, u);
    hide NewPrices, NewSnapshots;
  }

  lemma NewSnapshotAt(votes: Votes, powers: Powers, passing: set<Pair>, time: int, p: Pair, u: int)
    ensures var prices, snapshots := NewPrices(votes, powers, passing), NewSnapshots(votes, powers, passing, time);
            && ((p, u) in snapshots <==> u == time && p in prices)
            && ((p, u) in snapshots ==> snapshots[(p, u)] == Snapshot(p, prices[p], time / MILLISECOND))
  {
    hide Median, PairBallots;
  }

  // ---- misses

  /** No vote on the pair, or a positive rate farther from the median than both half the reward band of it and the
      deviation of the ballots. */
  ghost predicate FallsShort(params: Params, b: BallotMap, v: Address) {
    v !in b || (0 < b[v].rate && exists m :: IsMedian(b, m) && OutOfReach(params, b, m, Distance(b[v].rate, m)))
  }

  ghost predicate OutOfReach(params: Params, b: BallotMap, median: Dec, distance: nat)
    requires b != map[]
  {
    && Mul(median, QuoInt(params.rewardBand, 2)) < distance
    && params.root(QuoInt(SumBy(b, SquaredDeviation(median)), |b|)) < distance
  }

  lemma WinsOrFallsShort(params: Params, b: BallotMap, v: Address)
    ensures FallsShort(params, b, v) <==> !Wins(params, b, v)
  {
    hide Wins, Median, IsMedian, SumBy, Mul, QuoInt;
    if v in b {
      WinsExactly(params, b, v);
      MedianExists(b);
      forall m | IsMedian(b, m)
        ensures m == Median(b)
      {
        MedianIsUnique(b, m, Median(b));
      }
    } else {
      WinsAreBallots(params, b, v);
    }
  }

  /** A whitelisted pair, without ballots or with ballots that passed, on which `v` falls short. */
  ghost predicate FallsShortOn(params: Params, s: State, st: Staking, p: Pair, v: Address)
    requires Consistent(st)
  {
    var b := BallotsFor(s, st, p);
    p in s.whitelistedPairs && (b == map[] || Passed(params, st, b)) && FallsShort(params, b, v)
  }

  /** A tally adds a miss to an active validator exactly if it fell short on some whitelisted pair without ballots or
      with ballots that passed; and to nobody else. */
  lemma MissesExactly(params: Params, s: State, st: Staking, time: int, v: Address)
    requires Consistent(st) && Tallied(params, s, st, time).Some?
    ensures CounterOf(Tallied(params, s, st, time).value.missCounters, v) == CounterOf(s.missCounters, v) +
              if v in ActivePowers(st) && (exists p :: FallsShortOn(params, s, st, p, v)) then 1 else 0
  {
    hide Tallied, ActivePowers, CounterOf, Wins, FallsShort, Passes, Passed, PairBallots;
    TallyMisses(params, s, st, time, v);
    forall p
      ensures p in RequiredPairs(params, st, s, ActivePowers(st)) && !Wins(params, BallotsFor(s, st, p), v) <==>
                FallsShortOn(params, s, st, p, v)
    {
      PassedExactly(params, st, BallotsFor(s, st, p));
      WinsOrFallsShort(params, BallotsFor(s, st, p), v);
    }
    hide RequiredPairs;
  }

  // ---- rewards

  /** The reward weight of an active validator is its power for every pair on which it voted a positive rate and did
      not fall short. */
  lemma WeightExactly(params: Params, votes: Votes, powers: Powers, pairs: set<Pair>, v: Address)
    requires v in powers
    ensures v in Scores(params, votes, powers, pairs)
    ensures Scores(params, votes, powers, pairs)[v].rewardWeight ==
              powers[v] * |set p | p in pairs && !FallsShort(params, PairBallots(votes, powers, p), v) &&
                                   v in PairBallots(votes, powers, p) && 0 < PairBallots(votes, powers, p)[v].rate|
  {
    hide Wins, FallsShort, PairBallots;
    forall p | p in pairs
      ensures FallsShort(params, PairBallots(votes, powers, p), v) <==> !Wins(params, PairBallots(votes, powers, p), v)
      ensures Wins(params, PairBallots(votes, powers, p), v) ==> v in PairBallots(votes, powers, p)
    {
      WinsOrFallsShort(params, PairBallots(votes, powers, p), v);
      WinsAreBallots(params, PairBallots(votes, powers, p), v);
    }
    var rated := set p | p in pairs && !FallsShort(params, PairBallots(votes, powers, p), v) &&
                         v in PairBallots(votes, powers, p) && 0 < PairBallots(votes, powers, p)[v].rate;
    assert rated == RatedPairs(params, votes, powers, pairs, v);
  }

  /** `share` of the total goes to a weight: the total times the fraction of the weight, each rounded down. */
  ghost predicate IsShare(share: int, total: int, weight: int, totalWeight: int) {
    exists f :: IsFloor(weight * ONE, totalWeight, f) && IsFloor(total * f, ONE, share)
  }

  /** Every validator that staking knows is credited its own share of what was gathered, by its own weight, and nobody
      else anything. */
  lemma CreditsExactly(s: State, st: Staking, scores: Performances, v: Address, d: Denom)
    requires 0 < TotalWeight(scores) && Paid(s, st, scores).Some?
    ensures var p := Paid(s, st, scores).value;
            var before, after := OutstandingOf(s, v, d), OutstandingOf(p, v, d);
            if v in scores && v in st.validators
            then IsShare(after - before, Amount(Gathered(s.rewards), d), scores[v].rewardWeight, TotalWeight(scores))
            else after == before
  {
    hide Gathered, TotalWeight, Total, Decremented, Covers, Minus;
    if v in scores && v in st.validators {
      var weight, total := scores[v].rewardWeight, TotalWeight(scores);
      var f := Fraction(weight, total);
      FractionIsFloor(weight, total);
      PortionAmount(Gathered(s.rewards), weight, total, d);
      DivisionBounds(Amount(Gathered(s.rewards), d) * f, ONE);
      hide Fraction, Portion;
      assert IsFloor(Amount(Gathered(s.rewards), d) * f, ONE, Scale(Amount(Gathered(s.rewards), d), f));
      hide Scale, IsFloor;
    }
  }

  function OutstandingOf(s: State, v: Address, d: Denom): int {
    if v in s.outstanding then Amount(s.outstanding[v], d) else 0
  }
}
