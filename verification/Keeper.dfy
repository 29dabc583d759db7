/** The oracle keeper: its stores are fields, its methods update them step by step as x/oracle/keeper
    does, and each is proved to reach the state that OracleState defines. */
module OracleKeeper {
  import opened Prelude
  import opened MapSum
  import opened Decimal
  import opened Assets
  import opened VoteText
  import opened Ballots
  import opened Coins
  import opened Rewards
  import opened Twap
  import opened OracleState
  import opened Tally
  import opened Slashing

  /** How `AllocateRewards` ends. Its caller gives up the whole transaction unless it is `Allocated`. */
  datatype AllocateResult = Allocated | NotFunded | Panicked

  class Keeper {
    const params: Params
    var exchangeRates: map<Pair, Dec>
    var priceSnapshots: SnapshotStore
    var feederDelegations: map<Address, Address>
    var missCounters: map<Address, nat>
    var prevotes: map<Address, Prevote>
    var votes: map<Address, Vote>
    var whitelistedPairs: set<Pair>
    var paramsWhitelist: seq<Pair>
    var rewards: RewardStore
    var rewardsID: nat
    var balance: Coins
    var distributed: Coins
    var outstanding: map<Address, Coins>

    /** Empty stores; ids start at 1. */
    constructor (params: Params, whitelist: seq<Pair>)
      ensures this.params == params
      ensures forall height: nat :: View(height) ==
                State(height, map[], map[], map[], map[], map[], map[], PairSet(whitelist), whitelist, map[], 1, map[],
                    map[], map[])
    {
      this.params := params;
      exchangeRates, priceSnapshots, feederDelegations, missCounters := map[], map[], map[], map[];
      prevotes, votes := map[], map[];
      whitelistedPairs, paramsWhitelist := PairSet(whitelist), whitelist;
      rewards, rewardsID := map[], 1;
      balance, distributed, outstanding := map[], map[], map[];
    }

    /** The stores, at a block height. */
    ghost function View(height: nat): State
      reads this
    {
      State(height, exchangeRates, priceSnapshots, feederDelegations, missCounters, prevotes, votes,
            whitelistedPairs, paramsWhitelist, rewards, rewardsID, balance, distributed, outstanding)
    }

    // ---- messages

    method ValidateFeeder(st: Staking, feeder: Address, validator: Address) returns (error: Option<MsgError>)
      ensures error == FeederError(feederDelegations, st, feeder, validator)
      ensures var delegate := if validator in feederDelegations then feederDelegations[validator] else validator;
              && (error == Some(NoVotingPermission) <==> feeder != validator && feeder != delegate)
              && (error.None? <==>
                    && (feeder == validator || feeder == delegate)
                    && validator in st.validators && st.validators[validator].bonded)
    {
      if feeder != validator {
        var delegate := if validator in feederDelegations then feederDelegations[validator] else validator;
        if delegate != feeder {
          return Some(NoVotingPermission);
        }
      }
      if validator !in st.validators || !st.validators[validator].bonded {
        return Some(NoValidatorFound);
      }
      return None;
    }

    method AggregateExchangeRatePrevote(height: nat, st: Staking, feeder: Address, validator: Address, hash: string)
      returns (error: Option<MsgError>)
      modifies this`prevotes
      ensures error == PrevoteError(old(View(height)), st, feeder, validator, hash)
      ensures View(height) == if error.None? then WithPrevote(old(View(height)), validator, hash) else old(View(height))
    {
      error := ValidateFeeder(st, feeder, validator);
      if error.Some? {
        return;
      }
      if !IsHex(hash) {
        return Some(InvalidHash);
      }
      prevotes := prevotes[validator := Prevote(Lower(hash), validator, height)];
    }

    /** The first pair of the vote that is not whitelisted. */
    method CheckPairs(tuples: seq<ExchangeRateTuple>) returns (unknown: Option<Pair>)
      ensures unknown == UnknownPairIn(whitelistedPairs, tuples)
    {
      for i := 0 to |tuples|
        invariant UnknownPairIn(whitelistedPairs, tuples) == UnknownPairIn(whitelistedPairs, tuples[i..])
      {
        if tuples[i].pair !in whitelistedPairs {
          return Some(tuples[i].pair);
        }
        assert tuples[i..][1..] == tuples[i + 1..];
      }
      return None;
    }

    method AggregateExchangeRateVote(height: nat, st: Staking, feeder: Address, validator: Address, salt: string,
        rates: string)
      returns (error: Option<MsgError>)
      requires 1 <= params.votePeriod
      modifies this`votes, this`prevotes
      ensures error == RevealError(params, old(View(height)), st, feeder, validator, salt, rates)
      ensures error.None? ==> ParseTuples(params.sdk, rates).Ok?
      ensures View(height) == if error.None?
          then WithVote(old(View(height)), validator, ParseTuples(params.sdk, rates).value)
                              else old(View(height))
    {
      error := ValidateFeeder(st, feeder, validator);
      if error.Some? {
        return;
      }
      if validator !in prevotes {
        return Some(NoAggregatePrevote);
      }
      var prevote := prevotes[validator];
      if U64(height / params.votePeriod - prevote.submitBlock / params.votePeriod) != 1 {
        return Some(RevealPeriodMissMatch);
      }
      var tuples := ParseExchangeRateTuples(params.sdk, rates);
      if tuples.Err? {
        return Some(InvalidRates(tuples.error));
      }
      var unknown := CheckPairs(tuples.value);
      if unknown.Some? {
        return Some(UnknownPair(unknown.value));
      }
      if prevote.hash != params.voteHash(salt, rates, validator) {
        return Some(VerificationFailed);
      }
      votes := votes[validator := Vote(tuples.value, validator)];
      prevotes := prevotes - {validator};
      return None;
    }

    method DelegateFeedConsent(st: Staking, operator: Address, delegate: Address) returns (ok: bool)
      modifies this`feederDelegations
      ensures ok == (operator in st.validators)
      ensures feederDelegations == if ok then old(feederDelegations)[operator := delegate] else old(feederDelegations)
    {
      if operator !in st.validators {
        return false;
      }
      feederDelegations := feederDelegations[operator := delegate];
      return true;
    }

    // ---- rewards

    /** `funded` is whether the bank can move the coins from the funder. */
    method AllocateRewards(total: Coins, votePeriods: nat, funded: bool) returns (r: AllocateResult)
      requires votePeriods < TWO64
      modifies this`rewards, this`rewardsID, this`balance
      ensures r == if PerPeriod(total, votePeriods).None? then Panicked else if funded then Allocated else NotFunded
      ensures forall height: nat :: View(height) ==
                match PerPeriod(total, votePeriods)
                case None => old(View(height))
                case Some(c) =>
                  var s := WithReward(old(View(height)), votePeriods, c);
                  if funded then s.(balance := Plus(s.balance, total)) else s
      ensures r != Panicked ==>
                var id := old(rewardsID);
                && PerPeriod(total, votePeriods).Some? && rewardsID == id + 1
                && rewards == old(rewards)[id := Reward(id, votePeriods, PerPeriod(total, votePeriods).value)]
      ensures forall d: Denom ::
          Amount(balance, d) == Amount(old(balance), d) + if r == Allocated then Amount(total, d) else 0
    {
      var perPeriod := SplitByPeriods(total, votePeriods);
      if perPeriod.None? {
        return Panicked;
      }
      var id := rewardsID;
      rewardsID := rewardsID + 1;
      rewards := rewards[id := Reward(id, votePeriods, perPeriod.value)];
      if !funded {
        return NotFunded;
      }
      balance := Plus(balance, total);
      return Allocated;
    }

    method SplitByPeriods(total: Coins, votePeriods: nat) returns (c: Option<Coins>)
      ensures c == PerPeriod(total, votePeriods)
    {
      hide PaysOut, PerCoin, I64;
      var divisor := I64(votePeriods);
      var coins: Coins := map[];
      var rest := total.Keys;
      while rest != {}
        invariant rest <= total.Keys
        invariant forall d | d in total && d !in rest :: PaysOut(total[d], divisor)
        invariant coins == map d | d in total && d !in rest :: PerCoin(total[d], divisor)
        decreases rest
      {
        var d :| d in rest;
        if !PaysOut(total[d], divisor) {
          return None;
        }
        coins := coins[d := PerCoin(total[d], divisor)];
        rest := rest - {d};
      }
      assert coins == map d | d in total :: PerCoin(total[d], divisor);
      return Some(coins);
    }

    /** `GatherRewardsForVotePeriod`. */
    method GatherRewards() returns (coins: Coins)
      requires forall id | id in rewards :: rewards[id].votePeriods < TWO64
      modifies this`rewards
      ensures coins == Gathered(old(rewards))
      ensures rewards == Decremented(old(rewards))
    {
      hide Gathered, Decremented, NextPeriods, Plus, HalfGathered;
      coins := map[];
      ghost var before, done: RewardStore := rewards, map[];
      var rest := rewards.Keys;
      NothingGathered();
      GatherEnds(rewards);
      while rest != {}
        invariant rest <= before.Keys
        invariant done == map id | id in before && id !in rest :: before[id]
        invariant coins == Gathered(done)
        invariant rewards == HalfGathered(before, rest, done)
        decreases rest
      {
        var id := PickKey(rest);
        GatherStep(before, rest, done, id);
        var reward := rewards[id];
        GatheredInsert(done, id, reward);
        rest := rest - {id};
        done := done[id := reward];
        coins := Plus(coins, reward.coins);
        var periods := NextPeriods(reward);
        if periods == 0 {
          rewards := rewards - {id};
        } else {
          rewards := rewards[id := reward.(votePeriods := periods)];
        }
      }
      assert done == before;
    }

    /** The loop over the performances: each validator's portion, and their sum. */
    method DistributeRewards(st: Staking, performances: Performances, totalRewards: Coins, totalWeight: int)
        returns (sum: Coins)
      requires 0 < totalWeight
      requires forall v | v in performances :: performances[v].valAddress == v
      modifies this`outstanding
      ensures var portions := Portions(totalRewards, Weights(Known(st, performances)), totalWeight);
              sum == Total(portions) && outstanding == AddAll(old(outstanding), portions)
    {
      hide Total, Portion, PortionByDec, AddAll, Plus;
      sum := map[];
      ghost var outstanding0, portions: map<Address, Coins> := outstanding, map[];
      var rest := performances.Keys;
      TotalOfNothing<Address>();
      AddNothing(outstanding);
      while rest != {}
        invariant rest <= performances.Keys
        invariant portions == map v | v in performances && v in st.validators && v !in rest ::
            Portion(totalRewards, performances[v].rewardWeight, totalWeight)
        invariant sum == Total(portions)
        invariant outstanding == AddAll(outstanding0, portions)
        decreases rest
      {
        var v :| v in rest;
        rest := rest - {v};
        var performance := performances[v];
        if performance.valAddress !in st.validators {
          continue;
        }
        var portion := PortionByDec(totalRewards, performance.rewardWeight, totalWeight);
        PortionByDecIsPortion(totalRewards, performance.rewardWeight, totalWeight);
        TotalInsert(portions, v, portion);
        AddOneMore(outstanding0, portions, v, portion);
        portions := portions[v := portion];
        outstanding := outstanding[v := Plus(if v in outstanding then outstanding[v] else map[], portion)];
        sum := Plus(sum, portion);
      }
      assert portions == Portions(totalRewards, Weights(Known(st, performances)), totalWeight);
    }

    /** `rewardBallotWinners`; the panic is the failed transfer. */
    method RewardBallotWinners(st: Staking, performances: Performances, ghost height: nat) returns (panicked: bool)
      requires forall id | id in rewards :: rewards[id].votePeriods < TWO64
      requires forall v | v in performances :: performances[v].valAddress == v
      modifies this`rewards, this`balance, this`distributed, this`outstanding
      ensures panicked == Paid(old(View(height)), st, performances).None?
      ensures !panicked ==> Paid(old(View(height)), st, performances) == Some(View(height))
    {
      hide Gathered, Decremented, Total, Portions, AddAll, Weights, Paid, Plus, Minus, Covers, TotalWeight;
      PaidEnds(View(height), st, performances);
      WeightIsNotNegative(performances);
      var totalWeight := TotalRewardWeight(performances);
      if totalWeight == 0 {
        return false;
      }
      var totalRewards := GatherRewards();
      var sum := DistributeRewards(st, performances, totalRewards, totalWeight);
      if !Covers(balance, sum) {
        return true;
      }
      balance := Minus(balance, sum);
      distributed := Plus(distributed, sum);
      return false;
    }

    // ---- the tally

    method ResetExchangeRates()
      modifies this`exchangeRates
      ensures exchangeRates == map[]
    {
      var rest := exchangeRates.Keys;
      while rest != {}
        invariant exchangeRates.Keys == rest
        decreases rest
      {
        var p :| p in rest;
        rest := rest - {p};
        exchangeRates := exchangeRates - {p};
      }
    }

    /** `newValidatorPerformances`: bonded validators by power, up to the maximum. */
    method NewValidatorPerformances(st: Staking) returns (performances: Performances)
      requires Consistent(st)
      ensures performances == map v | v in ActivePowers(st) :: Performance(ActivePowers(st)[v], 0, 0, v)
    {
      performances := map[];
      var i, k := 0, 0;
      ghost var seen: set<Address> := {};
      ghost var active := ActiveSet(st.validators, st.byPower, st.maxValidators);
      while k < |st.byPower| && i < st.maxValidators
        invariant 0 <= k <= |st.byPower| && 0 <= i <= st.maxValidators
        invariant seen <= st.validators.Keys
        invariant active == seen + ActiveSet(st.validators, st.byPower[k..], st.maxValidators - i)
        invariant performances == map v | v in seen :: Performance(st.validators[v].power, 0, 0, v)
        decreases |st.byPower| - k
      {
        assert st.byPower[k..][1..] == st.byPower[k + 1..];
        var operator := st.byPower[k];
        var validator := st.validators[operator];
        k := k + 1;
        if !validator.bonded {
          continue;
        }
        performances := performances[operator := Performance(validator.power, 0, 0, operator)];
        seen := seen + {operator};
        i := i + 1;
      }
    }

    /** `SetPrice`. */
    method SetPrice(pair: Pair, price: Dec, time: int)
      modifies this`exchangeRates, this`priceSnapshots
      ensures exchangeRates == old(exchangeRates)[pair := price]
      ensures priceSnapshots == old(priceSnapshots)[(pair, time) := Snapshot(pair, price, time / MILLISECOND)]
    {
      exchangeRates := exchangeRates[pair := price];
      priceSnapshots := priceSnapshots[(pair, time) := Snapshot(pair, price, time / MILLISECOND)];
    }

    /** `countVotesAndUpdateExchangeRates`, over the passing ballots in any order. */
    method CountVotes(passing: Grouped, performances: Performances, time: int, ghost powers: Powers)
        returns (scores: Performances)
      requires exchangeRates == map[]
      requires forall p | p in passing :: Lists(passing[p], PairBallots(votes, powers, p)) && passing[p] != []
      requires performances == Scores(params, votes, powers, {})
      modifies this`exchangeRates, this`priceSnapshots
      ensures scores == Scores(params, votes, powers, passing.Keys)
      ensures exchangeRates == NewPrices(votes, powers, passing.Keys)
      ensures priceSnapshots == old(priceSnapshots) + NewSnapshots(votes, powers, passing.Keys, time)
    {
      hide Scores, PairBallots, Median, Lists, NewSnapshots, NewPrices;
      scores := performances;
      var rest := passing.Keys;
      ghost var done: set<Pair> := {};
      ghost var snapshots0 := priceSnapshots;
      NothingPriced(votes, powers, time);
      assert snapshots0 + map[] == snapshots0;
      while rest != {}
        invariant rest <= passing.Keys && done == passing.Keys - rest
        invariant scores == Scores(params, votes, powers, done)
        invariant exchangeRates == NewPrices(votes, powers, done)
        invariant priceSnapshots == snapshots0 + NewSnapshots(votes, powers, done, time)
        decreases rest
      {
        var pair :| pair in rest;
        rest := rest - {pair};
        ghost var b := PairBallots(votes, powers, pair);
        ScoreKeys(params, votes, powers, done);
        VotersAreActive(votes, powers, pair);
        var median, updated := TallyPair(params, passing[pair], scores, b);
        ScoresWithOneMore(params, votes, powers, done, pair);
        PricesWithOneMore(votes, powers, done, pair, time, snapshots0);
        done := done + {pair};
        scores := updated;
        SetPrice(pair, median, time);
      }
      assert done == passing.Keys;
    }

    /** `registerMissedVotes`. */
    method RegisterMissedVotes(required: nat, performances: Performances)
      requires forall v | v in performances :: performances[v].valAddress == v
      modifies this`missCounters
      ensures missCounters == WithMisses(old(missCounters), performances, required)
    {
      ghost var before, done: Performances := missCounters, map[];
      hide WithMisses;
      NoMisses(before, required);
      var rest := performances.Keys;
      while rest != {}
        invariant rest <= performances.Keys
        invariant done == map v | v in performances && v !in rest :: performances[v]
        invariant missCounters == WithMisses(before, done, required)
        decreases rest
      {
        var v :| v in rest;
        rest := rest - {v};
        var performance := performances[v];
        MissesWithOneMore(before, done, required, v, performance);
        done := done[v := performance];
        if performance.winCount != required {
          missCounters := missCounters[performance.valAddress := CounterOf(missCounters, performance.valAddress) + 1];
        }
      }
      assert done == performances;
    }

    method ClearVotesAndPrevotes(height: nat)
      modifies this`prevotes, this`votes
      ensures prevotes == Cleared(old(prevotes), height, params.votePeriod)
      ensures votes == map[]
    {
      ghost var before := prevotes;
      var rest := prevotes.Keys;
      while rest != {}
        invariant rest <= before.Keys
        invariant prevotes == map v | v in before &&
            (v in rest || height < before[v].submitBlock + params.votePeriod) :: before[v]
        decreases rest
      {
        var v :| v in rest;
        rest := rest - {v};
        if prevotes[v].submitBlock + params.votePeriod <= height {
          prevotes := prevotes - {v};
        }
      }
      ghost var kept := prevotes;
      var voters := votes.Keys;
      while voters != {}
        invariant votes.Keys == voters && prevotes == kept
        decreases voters
      {
        var v :| v in voters;
        voters := voters - {v};
        votes := votes - {v};
      }
    }

    method UpdateWhitelist(next: seq<Pair>, current: set<Pair>)
      modifies this`whitelistedPairs
      ensures whitelistedPairs == NextWhitelist(old(whitelistedPairs), next, current)
    {
      var updateRequired := false;
      if |current| != |next| {
        updateRequired := true;
      } else {
        for i := 0 to |next|
          invariant !updateRequired && forall k | 0 <= k < i :: next[k] in current
        {
          if next[i] !in current {
            updateRequired := true;
            break;
          }
        }
      }
      if updateRequired {
        var rest := whitelistedPairs;
        while rest != {}
          invariant whitelistedPairs == rest
          decreases rest
        {
          var p :| p in rest;
          rest := rest - {p};
          whitelistedPairs := whitelistedPairs - {p};
        }
        for i := 0 to |next|
          invariant whitelistedPairs == PairSet(next[..i])
        {
          whitelistedPairs := whitelistedPairs + {next[i]};
          assert forall k | 0 <= k < i :: next[..i + 1][k] == next[..i][k];
          assert next[..i + 1][i] == next[i];
        }
        assert next[..|next|] == next;
      }
    }

    /** The first half of a tally: from the votes to prices and scores. */
    method CountBallots(height: nat, st: Staking, time: int) returns (scores: Performances, required: set<Pair>)
      requires Consistent(st) && WellFormedVotes(votes)
      modifies this`exchangeRates, this`priceSnapshots
      ensures var s, powers := old(View(height)), ActivePowers(st);
              var passing := PassingPairs(params, st, s, powers);
              && required == RequiredPairs(params, st, s, powers)
              && scores == Scores(params, votes, powers, passing)
              && exchangeRates == NewPrices(votes, powers, passing)
              && priceSnapshots == old(priceSnapshots) + NewSnapshots(votes, powers, passing, time)
    {
      hide Scores, PassingPairs, RequiredPairs, PairBallots, GroupsAll, Lists, NewSnapshots, NewPrices, ActivePowers;
      ghost var s := View(height);
      ghost var powers := ActivePowers(st);
      ResetExchangeRates();
      var performances := NewValidatorPerformances(st);
      var grouped := GroupBallotsByPair(votes, performances, powers);
      var passing, remaining := RemoveInvalidBallots(params, st, s, powers, whitelistedPairs, grouped);
      required := remaining;
      NoScores(params, votes, powers);
      scores := CountVotes(passing, performances, time, powers);
    }

    /** One tally. Whatever order the maps are visited in, the state is the one that `Tallied` defines. */
    method UpdateExchangeRates(height: nat, st: Staking, time: int) returns (panicked: bool)
      requires Consistent(st) && WellFormedVotes(votes)
      requires forall id | id in rewards :: rewards[id].votePeriods < TWO64
      modifies this
      ensures panicked == Tallied(params, old(View(height)), st, time).None?
      ensures !panicked ==> Tallied(params, old(View(height)), st, time) == Some(View(height))
    {
      hide Scores, PassingPairs, RequiredPairs, Paid, NewSnapshots, NewPrices, WithMisses, Tallied, ActivePowers,
           Cleared, NextWhitelist;
      ghost var s := View(height);
      var scores, required := CountBallots(height, st, time);
      ScoresAreKeyed(params, votes, ActivePowers(st), PassingPairs(params, st, s, ActivePowers(st)));
      RegisterMissedVotes(|required|, scores);
      PaidDependsOnRewardsOnly(s, View(height), st, scores);
      panicked := RewardBallotWinners(st, scores, height);
      TallyEnds(params, s, st, time, scores);
      if panicked {
        return;
      }
      CloseVotePeriod(height, required);
    }

    /** The last part of a tally: votes and old prevotes go, and the whitelist follows the parameter. */
    method CloseVotePeriod(height: nat, required: set<Pair>)
      modifies this`prevotes, this`votes, this`whitelistedPairs
      ensures View(height) ==
                old(View(height)).(prevotes := Cleared(old(prevotes), height, params.votePeriod),
                                   votes := map[],
                                   whitelistedPairs := NextWhitelist(old(whitelistedPairs), paramsWhitelist, required))
    {
      hide Cleared, NextWhitelist;
      ClearVotesAndPrevotes(height);
      UpdateWhitelist(paramsWhitelist, required);
    }

    /** `SlashAndResetMissCounters`: who is slashed and jailed, and whether a missing validator panics. */
    method SlashAndResetMissCounters(st: Staking) returns (panicked: bool, slashed: set<Address>)
      requires ValidPeriods(params)
      modifies this`missCounters
      ensures panicked == SlashPanics(params, old(missCounters), st)
      ensures !panicked ==> slashed == SlashedOperators(params, old(missCounters), st)
      ensures !panicked ==> slashed <= old(missCounters).Keys && missCounters == map[]
      ensures !panicked && params.slashWindow < TWO63 ==>
                forall v | v in old(missCounters) && old(missCounters)[v] < TWO63 ::
                  var periods, misses := params.slashWindow / params.votePeriod, old(missCounters)[v];
                  v in slashed <==>
                    && v in st.validators && st.validators[v].bonded && !st.validators[v].jailed
                    && 0 < periods && TruncDiv((periods - misses) * ONE, periods) < params.minValidPerWindow
    {
      ghost var before, done: map<Address, nat> := missCounters, map[];
      hide VotePeriodsPerWindow, SlashedOperators, SlashPanics;
      var periods := VotePeriodsPerWindow(params);
      var rest := missCounters.Keys;
      slashed := {};
      NobodyToSlash(params, st);
      while rest != {}
        invariant rest <= before.Keys
        invariant done == map v | v in before && v !in rest :: before[v]
        invariant missCounters == map v | v in rest :: before[v]
        invariant !SlashPanics(params, done, st)
        invariant slashed == SlashedOperators(params, done, st)
        decreases rest
      {
        var operator :| operator in rest;
        var misses := missCounters[operator];
        if I64(periods) == 0 {
          PanicStops(params, before, st, operator);
          return true, slashed;
        }
        var rate := QuoInt(FromInt(I64(U64(periods as int - misses))), I64(periods));
        assert IsBelowMinimum(params, misses) <==> rate < params.minValidPerWindow;
        hide IsBelowMinimum;
        SlashOneMore(params, done, st, operator, misses);
        if rate < params.minValidPerWindow {
          if operator !in st.validators {
            PanicStops(params, before, st, operator);
            return true, slashed;
          }
          var validator := st.validators[operator];
          if validator.bonded && !validator.jailed {
            slashed := slashed + {operator};
          }
        }
        rest := rest - {operator};
        done := done[operator := misses];
        missCounters := missCounters - {operator};
      }
      assert done == before;
      SlashedFromCounters(params, before, st);
      return false, slashed;
    }

    /** `EndBlocker`. */
    method EndBlocker(height: nat, st: Staking, time: int) returns (panicked: bool, slashed: set<Address>)
      requires ValidPeriods(params) && Consistent(st) && WellFormedVotes(votes)
      requires forall id | id in rewards :: rewards[id].votePeriods < TWO64
      modifies this
      ensures match EndBlock(params, old(View(height)), st, time)
              case Halted => panicked
              case Block(s, who) => !panicked && View(height) == s && slashed == who
    {
      hide Tallied, SlashPanics, SlashedOperators;
      panicked, slashed := false, {};
      if IsPeriodLastBlock(height, params.votePeriod) {
        panicked := UpdateExchangeRates(height, st, time);
        if panicked {
          return;
        }
      }
      if IsPeriodLastBlock(height, params.slashWindow) {
        panicked, slashed := SlashAndResetMissCounters(st);
      }
    }
  }

  // ---- steps of the loops

  method PickKey(s: set<nat>) returns (k: nat)
    requires s != {}
    ensures k in s
  {
    ghost var w := Pick(s);
    k :| k in s;
  }

  lemma NothingGathered()
    ensures Gathered(map[]) == map[]
    ensures Decremented(map[]) == map[]
  {
    assert CoinsIn(map[]) == map[];
    TotalOfNothing<nat>();
  }

  /** The store while it is gathered: visited rewards are one period down. */
  ghost function HalfGathered(before: RewardStore, rest: set<nat>, done: RewardStore): RewardStore
    requires rest <= before.Keys
  {
    Decremented(done) + map id | id in rest :: before[id]
  }

  lemma GatherEnds(before: RewardStore)
    ensures HalfGathered(before, before.Keys, map[]) == before
    ensures HalfGathered(before, {}, before) == Decremented(before)
  {
    hide NextPeriods;
  }

  lemma GatherStep(before: RewardStore, rest: set<nat>, done: RewardStore, id: nat)
    requires rest <= before.Keys && id in rest
    requires done == map i | i in before && i !in rest :: before[i]
    ensures id in HalfGathered(before, rest, done) && HalfGathered(before, rest, done)[id] == before[id]
    ensures var next, now := NextPeriods(before[id]), HalfGathered(before, rest, done);
            HalfGathered(before, rest - {id}, done[id := before[id]]) ==
              if next == 0 then now - {id} else now[id := before[id].(votePeriods := next)]
  {
    DecrementedInsert(done, id, before[id]);
    hide Decremented, NextPeriods;
  }

  lemma DecrementedInsert(done: RewardStore, id: nat, r: Reward)
    requires id !in done
    ensures Decremented(done).Keys <= done.Keys
    ensures var next := NextPeriods(r);
            Decremented(done[id := r]) == if next == 0 then Decremented(done)
                else Decremented(done)[id := r.(votePeriods := next)]
  {
    hide NextPeriods;
  }

  method TotalRewardWeight(performances: Performances) returns (total: int)
    ensures total == TotalWeight(performances)
  {
    hide SumBy;
    total := 0;
    ghost var done: map<Address, nat> := map[];
    SumByZero(done, WeightOf());
    var rest := performances.Keys;
    while rest != {}
      invariant rest <= performances.Keys
      invariant done == map v | v in performances && v !in rest :: performances[v].rewardWeight
      invariant total == SumBy(done, WeightOf())
      decreases rest
    {
      var v :| v in rest;
      rest := rest - {v};
      SumByInsert(done, WeightOf(), v, performances[v].rewardWeight);
      done := done[v := performances[v].rewardWeight];
      total := total + performances[v].rewardWeight;
    }
    assert done == Weights(performances);
  }

  lemma PaidEnds(s: State, st: Staking, scores: Performances)
    ensures Paid(s, st, scores) ==
              if TotalWeight(scores) <= 0 then Some(s)
              else
                var portions := Portions(Gathered(s.rewards), Weights(Known(st, scores)), TotalWeight(scores));
                if !Covers(s.balance, Total(portions)) then None
                else Some(s.(rewards := Decremented(s.rewards),
                             balance := Minus(s.balance, Total(portions)),
                             distributed := Plus(s.distributed, Total(portions)),
                             outstanding := AddAll(s.outstanding, portions)))
  {
  }

  lemma NoMisses(counters: map<Address, nat>, required: nat)
    ensures WithMisses(counters, map[], required) == counters
  {
  }

  lemma MissesWithOneMore(before: map<Address, nat>, done: Performances, required: nat, v: Address,
      performance: Performance)
    requires v !in done
    ensures var now := WithMisses(before, done, required);
            WithMisses(before, done[v := performance], required) ==
              if performance.winCount != required then now[v := CounterOf(now, v) + 1] else now
  {
  }

  lemma NobodyToSlash(params: Params, st: Staking)
    requires ValidPeriods(params)
    ensures SlashedOperators(params, map[], st) == {} && !SlashPanics(params, map[], st)
  {
    hide IsSlashed, PanicsAt;
  }

  lemma PanicStops(params: Params, counters: map<Address, nat>, st: Staking, v: Address)
    requires ValidPeriods(params) && v in counters && PanicsAt(params, counters[v], st, v)
    ensures SlashPanics(params, counters, st)
  {
    hide PanicsAt;
  }

  lemma SlashedFromCounters(params: Params, counters: map<Address, nat>, st: Staking)
    requires ValidPeriods(params)
    ensures SlashedOperators(params, counters, st) <= counters.Keys
    ensures params.slashWindow < TWO63 ==>
              forall v | v in counters && counters[v] < TWO63 ::
                var periods := params.slashWindow / params.votePeriod;
                v in SlashedOperators(params, counters, st) <==>
                  && v in st.validators && st.validators[v].bonded && !st.validators[v].jailed
                  && 0 < periods && TruncDiv((periods - counters[v]) * ONE, periods) < params.minValidPerWindow
  {
    hide IsSlashed, TruncDiv;
    if params.slashWindow < TWO63 {
      forall v | v in counters && counters[v] < TWO63
        ensures v in SlashedOperators(params, counters, st) <==>
                  && v in st.validators && st.validators[v].bonded && !st.validators[v].jailed
                  && RateBelow(params.slashWindow / params.votePeriod, counters[v], params.minValidPerWindow)
      {
        SlashedExactly(params, counters, st, v);
      }
    }
  }

  lemma SlashOneMore(params: Params, done: map<Address, nat>, st: Staking, v: Address, misses: nat)
    requires ValidPeriods(params) && v !in done
    ensures SlashedOperators(params, done[v := misses], st) ==
              SlashedOperators(params, done, st) + if IsSlashed(params, misses, st, v) then {v} else {}
    ensures !SlashPanics(params, done, st) && !PanicsAt(params, misses, st, v) ==>
        !SlashPanics(params, done[v := misses], st)
  {
    hide IsBelowMinimum, PanicsAt;
  }

  lemma NothingPriced(votes: Votes, powers: Powers, time: int)
    ensures NewPrices(votes, powers, {}) == map[]
    ensures NewSnapshots(votes, powers, {}, time) == map[]
  {
  }

  lemma VotersAreActive(votes: Votes, powers: Powers, p: Pair)
    ensures forall v | v in PairBallots(votes, powers, p) :: v in powers
  {
  }

  lemma PricesWithOneMore(votes: Votes, powers: Powers, done: set<Pair>, p: Pair, time: int, before: SnapshotStore)
    requires p !in done
    ensures var median := Median(PairBallots(votes, powers, p));
            && NewPrices(votes, powers, done + {p}) == NewPrices(votes, powers, done)[p := median]
            && before + NewSnapshots(votes, powers, done + {p}, time) ==
                 (before + NewSnapshots(votes, powers, done, time))
                   [(p, time) := Snapshot(p, median, time / MILLISECOND)]
  {
    hide PairBallots, Median;
    KeysWithOneMore(done, p, time);
    hide SnapshotKeys;
    var median := Median(PairBallots(votes, powers, p));
    assert NewSnapshots(votes, powers, done + {p}, time) ==
             NewSnapshots(votes, powers, done, time)[(p, time) := Snapshot(p, median, time / MILLISECOND)];
    hide NewSnapshots;
  }

  lemma KeysWithOneMore(done: set<Pair>, p: Pair, time: int)
    ensures SnapshotKeys(done + {p}, time) == SnapshotKeys(done, time) + {(p, time)}
  {
  }

  lemma ScoresAreKeyed(params: Params, votes: Votes, powers: Powers, pairs: set<Pair>)
    ensures Scores(params, votes, powers, pairs).Keys == powers.Keys
    ensures forall v | v in powers :: Scores(params, votes, powers, pairs)[v].valAddress == v
  {
  }

  /** Payment looks only at the rewards and the balances. */
  lemma PaidDependsOnRewardsOnly(s: State, t: State, st: Staking, scores: Performances)
    requires t.rewards == s.rewards && t.balance == s.balance && t.distributed == s.distributed &&
        t.outstanding == s.outstanding
    ensures match Paid(s, st, scores)
            case None => Paid(t, st, scores) == None
            case Some(p) => Paid(t, st, scores) == Some(t.(rewards := p.rewards, balance := p.balance,
                                                     distributed := p.distributed, outstanding := p.outstanding))
    ensures match Paid(s, st, scores)
            case None => true
            case Some(p) =>
              p == s.(rewards := p.rewards, balance := p.balance, distributed := p.distributed,
                      outstanding := p.outstanding)
  {
  }

  /** The tally put together from its parts. */
  lemma TallyEnds(params: Params, s: State, st: Staking, time: int, scores: Performances)
    requires Consistent(st)
    requires var powers := ActivePowers(st);
        scores == Scores(params, s.votes, powers, PassingPairs(params, st, s, powers))
    ensures var powers := ActivePowers(st);
            var passing, required := PassingPairs(params, st, s, powers), RequiredPairs(params, st, s, powers);
            Tallied(params, s, st, time) ==
              match Paid(s, st, scores)
              case None => None
              case Some(paid) =>
                Some(paid.(exchangeRates := NewPrices(s.votes, powers, passing),
                           priceSnapshots := s.priceSnapshots + NewSnapshots(s.votes, powers, passing, time),
                           missCounters := WithMisses(s.missCounters, scores, |required|),
                           prevotes := Cleared(s.prevotes, s.height, params.votePeriod),
                           votes := map[],
                           whitelistedPairs := NextWhitelist(s.whitelistedPairs, s.paramsWhitelist, required)))
  {
  }
}
