/** Runs of x/oracle: any sequence of messages, fundings, whitelist changes and blocks from empty
    stores, with staking free to change before every step. */
module OracleRuns {
  import opened Prelude
  import opened Decimal
  import opened Assets
  import opened VoteText
  import opened Ballots
  import opened Coins
  import opened Rewards
  import opened Twap
  import opened OracleState
  import opened Tally

  datatype Step =
    | SubmitPrevote(st: Staking, feeder: Address, validator: Address, hash: string)
    | RevealVote(st: Staking, feeder: Address, validator: Address, salt: string, rates: string)
    | DelegateFeed(st: Staking, operator: Address, delegate: Address)
    | FundRewards(coins: Coins, votePeriods: nat, funded: bool)
    | SetWhitelist(pairs: seq<Pair>)
    | EndOfBlock(st: Staking, time: int)

  /** What Go's types and the staking module guarantee. */
  ghost predicate Possible(step: Step) {
    match step
    case FundRewards(_, votePeriods, _) => votePeriods < TWO64
    case EndOfBlock(st, _) => Consistent(st)
    case _ => true
  }

  /** A rejected message, or a funding that fails or panics, leaves no trace; `None` is a halted chain. */
  ghost function Exec(params: Params, s: State, step: Step): Option<State>
    requires ValidPeriods(params) && Possible(step)
  {
    match step
    case SubmitPrevote(st, feeder, validator, hash) =>
      Some(if PrevoteError(s, st, feeder, validator, hash).None? then WithPrevote(s, validator, hash) else s)
    case RevealVote(st, feeder, validator, salt, rates) =>
      Some(if RevealError(params, s, st, feeder, validator, salt, rates).None?
           then WithVote(s, validator, ParseTuples(params.sdk, rates).value) else s)
    case DelegateFeed(st, operator, delegate) =>
      Some(if operator in st.validators then s.(feederDelegations := s.feederDelegations[operator := delegate]) else s)
    case FundRewards(coins, votePeriods, funded) =>
      (match PerPeriod(coins, votePeriods)
       case None => Some(s)
       case Some(c) =>
         Some(if funded then WithReward(s, votePeriods, c).(balance := Plus(s.balance, coins)) else s))
    case SetWhitelist(pairs) => Some(s.(paramsWhitelist := pairs))
    case EndOfBlock(st, time) =>
      (match EndBlock(params, s, st, time)
       case Halted => None
       case Block(t, _) => Some(t.(height := s.height + 1)))
  }

  /** Empty stores at any height, with any whitelist and any feeders. */
  ghost predicate Initial(s: State) {
    && s.prevotes == map[] && s.votes == map[] && s.missCounters == map[]
    && s.rewards == map[] && s.distributed == map[] && s.outstanding == map[] && s.priceSnapshots == map[]
  }

  datatype Run = Run(states: seq<State>, steps: seq<Step>)

  /** Block heights are `int64`s. */
  ghost predicate IsRun(params: Params, r: Run)
    requires ValidPeriods(params)
  {
    && |r.states| == |r.steps| + 1
    && Initial(r.states[0])
    && (forall k | 0 <= k < |r.states| :: r.states[k].height < TWO63)
    && (forall k | 0 <= k < |r.steps| ::
        Possible(r.steps[k]) && Exec(params, r.states[k], r.steps[k]) == Some(r.states[k + 1]))
  }

  // ---- what a step does to each store

  lemma TalliedFields(params: Params, s: State, st: Staking, time: int)
    requires Consistent(st) && Tallied(params, s, st, time).Some?
    ensures var t := Tallied(params, s, st, time).value;
            && t.height == s.height && t.votes == map[] &&
                t.prevotes == Cleared(s.prevotes, s.height, params.votePeriod)
            && t.feederDelegations == s.feederDelegations && t.paramsWhitelist == s.paramsWhitelist
            && t.nextRewardId == s.nextRewardId
            && (t.rewards == s.rewards || t.rewards == Decremented(s.rewards))
            && t.priceSnapshots == s.priceSnapshots +
                 NewSnapshots(s.votes, ActivePowers(st), PassingPairs(params, st, s, ActivePowers(st)), time)
  {
    hide PassingPairs, RequiredPairs, Scores, NewPrices, NewSnapshots, WithMisses, NextWhitelist, Cleared, ActivePowers,
         Decremented, Paid;
    var powers := ActivePowers(st);
    PaidKeeps(s, st, Scores(params, s.votes, powers, PassingPairs(params, st, s, powers)));
  }

  lemma PaidKeeps(s: State, st: Staking, scores: Performances)
    ensures match Paid(s, st, scores)
            case None => true
            case Some(p) =>
              && p == s.(rewards := p.rewards, balance := p.balance, distributed := p.distributed,
                  outstanding := p.outstanding)
              && (p.rewards == s.rewards || p.rewards == Decremented(s.rewards))
  {
    hide TotalWeight, Portions, Total, Gathered, Decremented, AddAll, Weights, Known, Covers, Plus, Minus;
  }

  /** The end of a block: the tally, if it is due; then the counters, if the window ends; then the height. */
  lemma BlockIsTally(params: Params, s: State, st: Staking, time: int, t: State)
    requires ValidPeriods(params) && Consistent(st)
    requires Exec(params, s, EndOfBlock(st, time)) == Some(t)
    ensures var after := AfterTally(params, s, st, time);
            after.Some? && t == after.value.(height := s.height + 1,
              missCounters := if IsPeriodLastBlock(s.height, params.slashWindow) then map[]
                  else after.value.missCounters)
  {
    hide AfterTally, SlashPanics, SlashedOperators, IsPeriodLastBlock;
  }

  lemma BlockFields(params: Params, s: State, st: Staking, time: int, t: State)
    requires ValidPeriods(params) && Consistent(st)
    requires Exec(params, s, EndOfBlock(st, time)) == Some(t)
    ensures t.height == s.height + 1 && t.feederDelegations == s.feederDelegations
    ensures if IsPeriodLastBlock(s.height, params.votePeriod)
            then t.votes == map[] && t.prevotes == Cleared(s.prevotes, s.height, params.votePeriod)
            else t.votes == s.votes && t.prevotes == s.prevotes
  {
    BlockIsTally(params, s, st, time, t);
    hide Exec, EndBlock, Tallied, Cleared, IsPeriodLastBlock;
    if IsPeriodLastBlock(s.height, params.votePeriod) {
      TalliedFields(params, s, st, time);
    }
  }

  lemma HeightGrows(params: Params, s: State, step: Step, t: State)
    requires ValidPeriods(params) && Possible(step) && Exec(params, s, step) == Some(t)
    ensures t.height == if step.EndOfBlock? then s.height + 1 else s.height
  {
    hide EndBlock, PrevoteError, RevealError, PerPeriod;
    if step.EndOfBlock? {
      BlockFields(params, s, step.st, step.time, t);
    }
  }

  lemma MessageKeepsCounters(params: Params, s: State, step: Step, t: State)
    requires ValidPeriods(params) && Possible(step) && Exec(params, s, step) == Some(t) && !step.EndOfBlock?
    ensures t.missCounters == s.missCounters && t.height == s.height
  {
    hide EndBlock, PrevoteError, RevealError, ParseTuples, Lower, PerPeriod;
  }

  lemma {:induction false} HeightsAreMonotone(params: Params, r: Run, i: nat, k: nat)
    requires ValidPeriods(params) && IsRun(params, r) && i <= k < |r.states|
    ensures r.states[i].height <= r.states[k].height
    decreases k
  {
    if i < k {
      HeightsAreMonotone(params, r, i, k - 1);
      HeightGrows(params, r.states[k - 1], r.steps[k - 1], r.states[k]);
    }
  }

  // ---- invariants of every reachable state

  /** Every prevote is stored under its voter and was submitted in the past. */
  ghost predicate WellFormedPrevotes(prevotes: map<Address, Prevote>, height: nat) {
    forall v | v in prevotes :: prevotes[v].voter == v && prevotes[v].submitBlock <= height
  }

  ghost predicate IdsBelow(rewards: RewardStore, next: nat) {
    forall id | id in rewards :: id < next
  }

  ghost predicate WellFormed(s: State) {
    && WellFormedVotes(s.votes)
    && WellStored(s.rewards)
    && IdsBelow(s.rewards, s.nextRewardId)
    && Keyed(s.priceSnapshots)
    && WellFormedPrevotes(s.prevotes, s.height)
  }

  lemma PerPeriodIsWellStored(total: Coins, votePeriods: nat)
    requires votePeriods < TWO64 && PerPeriod(total, votePeriods).Some?
    ensures votePeriods == 0 ==> PerPeriod(total, votePeriods).value == map[]
  {
    assert forall n: nat :: !PaysOut(n, 0);
  }

  lemma TalliedIsWellFormed(params: Params, s: State, st: Staking, time: int)
    requires Consistent(st) && WellFormed(s) && Tallied(params, s, st, time).Some?
    ensures WellFormed(Tallied(params, s, st, time).value)
  {
    hide Tallied, NewSnapshots, PassingPairs, ActivePowers, WellStored, IdsBelow, WellFormedPrevotes, Decremented,
         Cleared, Keyed;
    var powers := ActivePowers(st);
    TalliedFields(params, s, st, time);
    GatheringReducesOwed(s.rewards, "");
    GatheringKeepsIds(s.rewards, s.nextRewardId);
    ClearingKeepsWellFormed(s.prevotes, s.height, params.votePeriod);
    SnapshotsAreKeyed(s.votes, powers, PassingPairs(params, st, s, powers), time);
    KeyedUnion(s.priceSnapshots, NewSnapshots(s.votes, powers, PassingPairs(params, st, s, powers), time));
    NoVotesAreWellFormed();
  }

  lemma NoVotesAreWellFormed()
    ensures WellFormedVotes(map[])
  {
  }

  lemma GatheringKeepsIds(rewards: RewardStore, next: nat)
    requires IdsBelow(rewards, next)
    ensures IdsBelow(Decremented(rewards), next)
  {
  }

  lemma ClearingKeepsWellFormed(prevotes: map<Address, Prevote>, height: nat, votePeriod: nat)
    requires WellFormedPrevotes(prevotes, height)
    ensures WellFormedPrevotes(Cleared(prevotes, height, votePeriod), height)
  {
  }

  lemma KeyedUnion(a: SnapshotStore, b: SnapshotStore)
    requires Keyed(a) && Keyed(b)
    ensures Keyed(a + b)
  {
  }

  lemma SnapshotsAreKeyed(votes: Votes, powers: Powers, passing: set<Pair>, time: int)
    ensures Keyed(NewSnapshots(votes, powers, passing, time))
  {
  }

  lemma VoteKeepsWellFormed(params: Params, s: State, validator: Address, rates: string)
    requires WellFormed(s) && ParseTuples(params.sdk, rates).Ok?
    ensures WellFormed(WithVote(s, validator, ParseTuples(params.sdk, rates).value))
  {
    ParsedPartsAreDistinct(params.sdk, Split(rates, '|'));
    hide ParseParts, WellStored;
  }

  lemma FundingKeepsWellFormed(s: State, coins: Coins, votePeriods: nat)
    requires WellFormed(s) && votePeriods < TWO64 && PerPeriod(coins, votePeriods).Some?
    ensures WellFormed(WithReward(s, votePeriods,
        PerPeriod(coins, votePeriods).value).(balance := Plus(s.balance, coins)))
  {
    PerPeriodIsWellStored(coins, votePeriods);
    hide PerPeriod;
  }

  lemma BlockKeepsWellFormed(params: Params, s: State, st: Staking, time: int, t: State)
    requires ValidPeriods(params) && Consistent(st) && WellFormed(s)
    requires Exec(params, s, EndOfBlock(st, time)) == Some(t)
    ensures WellFormed(t)
  {
    BlockIsTally(params, s, st, time, t);
    hide Exec, EndBlock, Tallied, WellStored, Keyed, IdsBelow;
    if IsPeriodLastBlock(s.height, params.votePeriod) {
      TalliedIsWellFormed(params, s, st, time);
    }
  }

  lemma StepKeepsWellFormed(params: Params, s: State, step: Step, t: State)
    requires ValidPeriods(params) && Possible(step) && Exec(params, s, step) == Some(t)
    requires WellFormed(s)
    ensures WellFormed(t)
  {
    hide EndBlock, PrevoteError, PerPeriod, WellStored, ParseTuples;
    match step
    case RevealVote(st, feeder, validator, salt, rates) =>
      if RevealError(params, s, st, feeder, validator, salt, rates).None? {
        VoteKeepsWellFormed(params, s, validator, rates);
      }
    case FundRewards(coins, votePeriods, funded) =>
      if PerPeriod(coins, votePeriods).Some? {
        FundingKeepsWellFormed(s, coins, votePeriods);
      }
    case EndOfBlock(st, time) => BlockKeepsWellFormed(params, s, st, time, t);
    case _ =>
  }

  /** In every reachable state the keeper's methods may be called, and the stores are keyed as they should be. */
  lemma {:induction false} ReachableIsWellFormed(params: Params, r: Run, k: nat)
    requires ValidPeriods(params) && IsRun(params, r) && k < |r.states|
    ensures WellFormed(r.states[k])
  {
    if k != 0 {
      ReachableIsWellFormed(params, r, k - 1);
      StepKeepsWellFormed(params, r.states[k - 1], r.steps[k - 1], r.states[k]);
    }
  }

  /** The whitelist parameter is what the last change of it said. */
  lemma ParameterStep(params: Params, r: Run, k: nat)
    requires ValidPeriods(params) && IsRun(params, r) && k < |r.steps|
    ensures k + 1 < |r.states|
    ensures r.states[k + 1].paramsWhitelist ==
              if r.steps[k].SetWhitelist? then r.steps[k].pairs else r.states[k].paramsWhitelist
  {
    assert Exec(params, r.states[k], r.steps[k]) == Some(r.states[k + 1]);
    ParameterAfter(params, r.states[k], r.steps[k], r.states[k + 1]);
    hide Exec, Possible;
  }

  lemma ParameterAfter(params: Params, s: State, step: Step, t: State)
    requires ValidPeriods(params) && Possible(step) && Exec(params, s, step) == Some(t)
    ensures t.paramsWhitelist == if step.SetWhitelist? then step.pairs else s.paramsWhitelist
  {
    hide PrevoteError, RevealError, PerPeriod, Plus, Lower, ParseTuples, Tallied;
    if step.EndOfBlock? {
      BlockIsTally(params, s, step.st, step.time, t);
      hide Exec, EndBlock, IsPeriodLastBlock;
      if IsPeriodLastBlock(s.height, params.votePeriod) {
        TalliedFields(params, s, step.st, step.time);
      }
    } else {
      hide EndBlock;
    }
  }

  // ---- prices over a run

  /** Blocks end at least a millisecond apart. */
  ghost predicate BlocksApart(r: Run) {
    forall i, j | 0 <= i < j < |r.steps| && r.steps[i].EndOfBlock? && r.steps[j].EndOfBlock? ::
      r.steps[i].time + MILLISECOND <= r.steps[j].time
  }

  /** `time` is that of a block which ended before state `k`. */
  ghost predicate BlockTime(r: Run, k: nat, time: int) {
    exists i :: 0 <= i < k && i < |r.steps| && r.steps[i].EndOfBlock? && r.steps[i].time == time
  }

  /** Every snapshot was taken at the end of a block. */
  ghost predicate TakenAtBlocks(r: Run, k: nat, store: SnapshotStore) {
    forall p, t | (p, t) in store :: BlockTime(r, k, t)
  }

  lemma {:induction false} SnapshotsOfBlocks(params: Params, r: Run, k: nat)
    requires ValidPeriods(params) && IsRun(params, r) && k < |r.states|
    ensures TakenAtBlocks(r, k, r.states[k].priceSnapshots)
  {
    if k != 0 {
      SnapshotsOfBlocks(params, r, k - 1);
      hide IsRun, Exec;
      SnapshotsOfStep(params, r, k - 1);
    }
  }

  lemma SnapshotsOfStep(params: Params, r: Run, k: nat)
    requires ValidPeriods(params) && IsRun(params, r) && k < |r.steps|
    ensures k + 1 < |r.states|
    ensures forall p, t | (p, t) in r.states[k + 1].priceSnapshots ::
              (p, t) in r.states[k].priceSnapshots || (r.steps[k].EndOfBlock? && r.steps[k].time == t)
  {
    var s, step, t := r.states[k], r.steps[k], r.states[k + 1];
    hide Exec;
    assert Exec(params, s, step) == Some(t);
    if step.EndOfBlock? {
      SnapshotsOfBlock(params, s, step.st, step.time, t);
    } else {
      MessageKeepsSnapshots(params, s, step, t);
    }
  }

  lemma MessageKeepsSnapshots(params: Params, s: State, step: Step, t: State)
    requires ValidPeriods(params) && Possible(step) && Exec(params, s, step) == Some(t) && !step.EndOfBlock?
    ensures t.priceSnapshots == s.priceSnapshots
  {
    hide EndBlock, PrevoteError, RevealError, ParseTuples, Lower, PerPeriod;
  }

  lemma SnapshotsOfBlock(params: Params, s: State, st: Staking, time: int, t: State)
    requires ValidPeriods(params) && Consistent(st) && Exec(params, s, EndOfBlock(st, time)) == Some(t)
    ensures forall p, u | (p, u) in t.priceSnapshots :: (p, u) in s.priceSnapshots || u == time
  {
    hide Exec, Tallied, IsPeriodLastBlock, PassingPairs, ActivePowers, NewSnapshots, SlashPanics, SlashedOperators;
    BlockIsTally(params, s, st, time, t);
    if IsPeriodLastBlock(s.height, params.votePeriod) {
      TalliedFields(params, s, st, time);
      SnapshotTimes(s.votes, ActivePowers(st), PassingPairs(params, st, s, ActivePowers(st)), time);
    }
  }

  lemma SnapshotTimes(votes: Votes, powers: Powers, passing: set<Pair>, time: int)
    ensures forall k | k in NewSnapshots(votes, powers, passing, time) :: k.1 == time
  {
  }

  lemma WindowOfBlocks(r: Run, k: nat, store: SnapshotStore, pair: Pair, t: int, u: int)
    requires TakenAtBlocks(r, k, store) && BlocksApart(r) && (pair, t) in store && (pair, u) in store && t < u
    ensures t + MILLISECOND <= u
  {
    assert BlockTime(r, k, t) && BlockTime(r, k, u);
    var i :| 0 <= i < k && i < |r.steps| && r.steps[i].EndOfBlock? && r.steps[i].time == t;
    var j :| 0 <= j < k && j < |r.steps| && r.steps[j].EndOfBlock? && r.steps[j].time == u;
    assert i < j;
  }

  /** The TWAP query on any reachable state with two or more snapshots in the window: if blocks are a millisecond apart,
      or the look-back exceeds whole milliseconds by a nanosecond at most, it is the average over time and lies between
      the extreme prices. */
  lemma ReachableTwap(params: Params, r: Run, k: nat, pair: Pair, blockTime: int, lookBack: nat, times: seq<int>,
      lo: Dec, hi: Dec)
    requires ValidPeriods(params) && IsRun(params, r) && k < |r.states|
    requires BlocksApart(r) || lookBack % MILLISECOND <= 1
    requires ListsTimes(r.states[k].priceSnapshots, pair, blockTime - lookBack, blockTime, times) && 2 <= |times|
    requires PricesWithin(ValuesAt(r.states[k].priceSnapshots, pair, times), lo, hi)
    ensures var s, now := ValuesAt(r.states[k].priceSnapshots, pair, times), blockTime / MILLISECOND;
            var first := FirstTimestamp(s, now, lookBack / MILLISECOND);
            && s[0].timestampMs <= first <= now
            && (first == now ==> TwapOf(s, now, lookBack / MILLISECOND) == Err(DivisionByZero))
            && (first < now ==>
                  && TwapOf(s, now, lookBack / MILLISECOND) == Ok(TruncDiv(Area(s, first, now), now - first))
                  && lo <= TwapOf(s, now, lookBack / MILLISECOND).value <= hi)
  {
    hide Area, Cumulative, IsRun;
    var store := r.states[k].priceSnapshots;
    ReachableIsWellFormed(params, r, k);
    var s, now := ValuesAt(store, pair, times), blockTime / MILLISECOND;
    assert s[0] == store[(pair, times[0])];
    if BlocksApart(r) {
      SnapshotsOfBlocks(params, r, k);
      WindowOfBlocks(r, k, store, pair, times[0], times[1]);
    }
    if FirstTimestamp(s, now, lookBack / MILLISECOND) < now {
      WindowIsWellPlaced(store, pair, blockTime, lookBack, times);
      TwapIsTheTimeAverage(s, now, lookBack / MILLISECOND, lo, hi);
    }
  }
}
