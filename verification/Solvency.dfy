/** The reward pool over whole runs: the module account always covers what the stored rewards promise,
    so the payout of a tally never fails, and every coin that leaves is credited to a validator. */
module Solvency {
  import opened Prelude
  import opened MapSum
  import opened VoteText
  import opened Ballots
  import opened Coins
  import opened Rewards
  import opened OracleState
  import opened OracleRuns
  import opened TallyProperties

  /** Denomination by denomination, the balance covers the remaining vote periods of every reward. */
  ghost predicate Covered(s: State) {
    forall d: Denom :: Owed(s.rewards, d) <= Amount(s.balance, d)
  }

  /** What was moved to the distribution module is what its validators were credited with. */
  ghost predicate Credited(s: State) {
    forall d: Denom :: SumBy(s.outstanding, AmountOf(d)) == Amount(s.distributed, d)
  }

  // ---- funding

  /** The periods of a new reward never promise more than was funded. */
  lemma PerPeriodPromise(total: Coins, votePeriods: nat, d: Denom)
    requires votePeriods < TWO64 && PerPeriod(total, votePeriods).Some?
    ensures votePeriods * Amount(PerPeriod(total, votePeriods).value, d) <= Amount(total, d)
  {
    var c := PerPeriod(total, votePeriods).value;
    if d in total {
      assert PaysOut(total[d], I64(votePeriods));
      PromiseOfOneCoin(total[d], votePeriods);
    }
  }

  lemma PromiseOfOneCoin(amount: nat, votePeriods: nat)
    requires votePeriods < TWO64 && PaysOut(amount, I64(votePeriods))
    ensures votePeriods * PerCoin(amount, I64(votePeriods)) <= amount
  {
    if votePeriods < TWO63 {
      var q := TruncDiv(amount, votePeriods);
      assert q * votePeriods == votePeriods * q;
    } else {
      NegativeDivisorPaysNothing(amount, I64(votePeriods));
    }
  }

  lemma NegativeDivisorPaysNothing(amount: nat, divisor: int)
    requires divisor < 0 && PaysOut(amount, divisor)
    ensures PerCoin(amount, divisor) == 0
  {
    var q := amount / divisor;
    assert amount == q * divisor + amount % divisor && 0 <= amount % divisor < -divisor;
    assert 0 < q ==> q * divisor <= divisor;
  }

  lemma FundingKeepsCovered(s: State, coins: Coins, votePeriods: nat)
    requires Covered(s) && IdsBelow(s.rewards, s.nextRewardId)
    requires votePeriods < TWO64 && PerPeriod(coins, votePeriods).Some?
    ensures Covered(WithReward(s, votePeriods, PerPeriod(coins, votePeriods).value).(balance := Plus(s.balance, coins)))
  {
    var c := PerPeriod(coins, votePeriods).value;
    var t := WithReward(s, votePeriods, c).(balance := Plus(s.balance, coins));
    var reward := Reward(s.nextRewardId, votePeriods, c);
    assert s.nextRewardId !in s.rewards;
    forall d: Denom
      ensures Owed(t.rewards, d) <= Amount(t.balance, d)
    {
      PerPeriodPromise(coins, votePeriods, d);
      SumByInsert(s.rewards, OwedOf(d), s.nextRewardId, reward);
      assert OwedOf(d)(reward) == votePeriods * Amount(c, d);
    }
  }

  // ---- paying

  /** A covered pool pays every period, whatever the scores and whichever validators staking still knows. */
  lemma PayoutNeverFails(s: State, st: Staking, scores: Performances)
    requires Covered(s) && WellStored(s.rewards)
    ensures Paid(s, st, scores).Some?
  {
    if 0 < TotalWeight(scores) {
      var total, weight := Gathered(s.rewards), TotalWeight(scores);
      var sum := Total(Portions(total, Weights(Known(st, scores)), weight));
      KnownWeight(st, scores);
      forall d | d in sum
        ensures sum[d] <= Amount(s.balance, d)
      {
        PayoutBounds(total, Weights(Known(st, scores)), weight, d);
        GatheringReducesOwed(s.rewards, d);
        OwedIsNotNegative(Decremented(s.rewards), d);
        assert Owed(s.rewards, d) <= Amount(s.balance, d);
        hide Owed, Gathered, Total, Portions, TotalWeight, Decremented, Weights;
        assert sum[d] == Amount(sum, d);
      }
    }
  }

  lemma PayingKeepsCovered(s: State, st: Staking, scores: Performances)
    requires Covered(s) && WellStored(s.rewards) && Paid(s, st, scores).Some?
    ensures Covered(Paid(s, st, scores).value)
  {
    var p := Paid(s, st, scores).value;
    if 0 < TotalWeight(scores) {
      forall d: Denom
        ensures Owed(p.rewards, d) <= Amount(p.balance, d)
      {
        TallyPayout(s, st, scores, d);
        GatheringReducesOwed(s.rewards, d);
        assert Owed(s.rewards, d) <= Amount(s.balance, d);
        hide Owed, Gathered, Total, Portions, TotalWeight, Weights, AddAll;
      }
    }
  }

  /** Adding portions adds their sums. */
  lemma {:induction false} SumOfAddAll(outstanding: map<Address, Coins>, portions: map<Address, Coins>, d: Denom)
    ensures SumBy(AddAll(outstanding, portions), AmountOf(d)) ==
        SumBy(outstanding, AmountOf(d)) + SumBy(portions, AmountOf(d))
    decreases |portions|
  {
    hide SumBy, AddAll, AmountOf;
    if portions == map[] {
      AddNothing(outstanding);
      SumByZero(portions, AmountOf(d));
    } else {
      var v :| v in portions;
      SumOfAddAll(outstanding, portions - {v}, d);
      SumOfOneMore(outstanding, portions, v, d);
    }
  }

  lemma SumOfOneMore(outstanding: map<Address, Coins>, portions: map<Address, Coins>, v: Address, d: Denom)
    requires v in portions
    ensures SumBy(AddAll(outstanding, portions), AmountOf(d)) - SumBy(portions, AmountOf(d))
         == SumBy(AddAll(outstanding, portions - {v}), AmountOf(d)) - SumBy(portions - {v}, AmountOf(d))
  {
    var rest, c := portions - {v}, portions[v];
    var now := AddAll(outstanding, rest);
    assert portions == rest[v := c];
    AddOneMore(outstanding, rest, v, c);
    SumByReplace(now, AmountOf(d), v, Plus(if v in now then now[v] else map[], c));
    SumByRemove(portions, AmountOf(d), v);
    hide SumBy, AddAll;
  }

  lemma PayingKeepsCredited(s: State, st: Staking, scores: Performances)
    requires Credited(s) && Paid(s, st, scores).Some?
    ensures Credited(Paid(s, st, scores).value)
  {
    var p := Paid(s, st, scores).value;
    if 0 < TotalWeight(scores) {
      var portions := Portions(Gathered(s.rewards), Weights(Known(st, scores)), TotalWeight(scores));
      forall d: Denom
        ensures SumBy(p.outstanding, AmountOf(d)) == Amount(p.distributed, d)
      {
        SumOfAddAll(s.outstanding, portions, d);
        TotalAmount(portions, d);
        assert SumBy(s.outstanding, AmountOf(d)) == Amount(s.distributed, d);
      }
    }
  }

  // ---- runs

  ghost predicate Solvent(s: State) {
    Covered(s) && Credited(s)
  }

  /** A tally changes the pool by paying and not otherwise. */
  lemma TallyPays(params: Params, s: State, st: Staking, time: int)
    requires Consistent(st)
    ensures var powers := ActivePowers(st);
            var paid := Paid(s, st, Scores(params, s.votes, powers, PassingPairs(params, st, s, powers)));
            match Tallied(params, s, st, time)
            case None => paid.None?
            case Some(t) =>
              paid.Some? && t.rewards == paid.value.rewards && t.balance == paid.value.balance &&
              t.distributed == paid.value.distributed && t.outstanding == paid.value.outstanding
  {
    hide Paid, Scores, PassingPairs, RequiredPairs, NewPrices, NewSnapshots, WithMisses, Cleared, NextWhitelist,
         ActivePowers;
  }

  lemma TallyKeepsSolvent(params: Params, s: State, st: Staking, time: int)
    requires Consistent(st) && Solvent(s) && WellStored(s.rewards)
    ensures Tallied(params, s, st, time).Some? && Solvent(Tallied(params, s, st, time).value)
  {
    var powers := ActivePowers(st);
    var scores := Scores(params, s.votes, powers, PassingPairs(params, st, s, powers));
    TallyPays(params, s, st, time);
    PayoutNeverFails(s, st, scores);
    PayingKeepsCovered(s, st, scores);
    PayingKeepsCredited(s, st, scores);
    hide Tallied, Paid, Scores, PassingPairs, ActivePowers, Owed;
  }

  lemma MessageKeepsPool(params: Params, s: State, step: Step, t: State)
    requires ValidPeriods(params) && Possible(step) && Exec(params, s, step) == Some(t)
    requires !step.FundRewards? && !step.EndOfBlock?
    ensures Solvent(s) ==> Solvent(t)
  {
    hide EndBlock, PrevoteError, RevealError, ParseTuples, Lower, Owed;
  }

  lemma StepKeepsSolvent(params: Params, s: State, step: Step, t: State)
    requires ValidPeriods(params) && Possible(step) && Exec(params, s, step) == Some(t)
    requires WellFormed(s) && Solvent(s)
    ensures Solvent(t)
  {
    match step
    case FundRewards(coins, votePeriods, funded) =>
      hide PerPeriod, Owed;
      if PerPeriod(coins, votePeriods).Some? && funded {
        FundingKeepsCovered(s, coins, votePeriods);
      }
    case EndOfBlock(st, time) =>
      BlockIsTally(params, s, st, time, t);
      hide Exec, EndBlock, Tallied, Owed, IsPeriodLastBlock;
      if IsPeriodLastBlock(s.height, params.votePeriod) {
        TallyKeepsSolvent(params, s, st, time);
      }
    case _ =>
      hide Exec, Solvent;
      MessageKeepsPool(params, s, step, t);
  }

  lemma InitialIsSolvent(s: State)
    requires Initial(s)
    ensures Solvent(s)
  {
  }

  /** In every reachable state the pool covers all promises, and all that was paid out is credited. */
  lemma {:induction false} ReachableIsSolvent(params: Params, r: Run, k: nat)
    requires ValidPeriods(params) && IsRun(params, r) && k < |r.states|
    ensures Solvent(r.states[k])
  {
    hide Solvent, Exec, WellFormed;
    if k == 0 {
      InitialIsSolvent(r.states[0]);
    } else {
      ReachableIsSolvent(params, r, k - 1);
      ReachableIsWellFormed(params, r, k - 1);
      StepKeepsSolvent(params, r.states[k - 1], r.steps[k - 1], r.states[k]);
    }
  }

  /** The end of a block halts the chain exactly where slashing dereferences a validator that staking no longer has,
      because its counter is above the limit: never in the payout, and never for want of a period. */
  lemma OnlyVanishedValidatorsHalt(params: Params, r: Run, k: nat, st: Staking, time: int)
    requires ValidPeriods(params) && IsRun(params, r) && k < |r.states| && Consistent(st)
    ensures AfterTally(params, r.states[k], st, time).Some?
    ensures Exec(params, r.states[k], EndOfBlock(st, time)).None? <==>
              IsPeriodLastBlock(r.states[k].height, params.slashWindow) &&
              var counters := AfterTally(params, r.states[k], st, time).value.missCounters;
              exists v :: v in counters && IsBelowMinimum(params, counters[v]) && v !in st.validators
  {
    hide Tallied, Solvent, SlashPanics, SlashedOperators, IsPeriodLastBlock, IsBelowMinimum;
    ReachableIsSolvent(params, r, k);
    ReachableIsWellFormed(params, r, k);
    var s := r.states[k];
    if IsPeriodLastBlock(s.height, params.votePeriod) {
      TallyKeepsSolvent(params, s, st, time);
    }
    if IsPeriodLastBlock(s.height, params.slashWindow) {
      WindowHasPeriods(params, s.height);
      PanicIsVanished(params, AfterTally(params, s, st, time).value.missCounters, st);
    }
  }

  lemma PanicIsVanished(params: Params, counters: map<Address, nat>, st: Staking)
    requires ValidPeriods(params) && !NoPeriods(params)
    ensures SlashPanics(params, counters, st) <==>
              exists v :: v in counters && IsBelowMinimum(params, counters[v]) && v !in st.validators
  {
    hide NoPeriods, IsBelowMinimum;
  }

  /** A window that ends at a height that is an `int64` has a period in it. */
  lemma WindowHasPeriods(params: Params, height: nat)
    requires ValidPeriods(params) && height < TWO63 && IsPeriodLastBlock(height, params.slashWindow)
    ensures !NoPeriods(params)
  {
    hide VotePeriodsPerWindow;
    PeriodsPerWindow(params);
    if TWO63 < params.slashWindow {
      QuotientIs(height + 1, params.slashWindow, 0);
      ExactMultiple(height + 1, params.slashWindow);
    }
  }
}
