/** The state of x/oracle and what each message and each block does to it. Everything here is a value:
    the keeper's methods are proved to compute exactly these states, in whatever order Go iterates
    its maps and leaves equal rates after sorting. */
module OracleState {
  import opened Prelude
  import opened MapSum
  import opened Decimal
  import opened Assets
  import opened VoteText
  import opened Ballots
  import opened Coins
  import opened Rewards
  import opened Twap

  datatype Prevote = Prevote(hash: string, voter: Address, submitBlock: nat)

  datatype Vote = Vote(tuples: seq<ExchangeRateTuple>, voter: Address)

  datatype Validator = Validator(bonded: bool, jailed: bool, power: nat)

  /** What the staking module answers: validators by operator, their order by power, the maximum
      number of validators and the total bonded power. */
  datatype Staking = Staking(
    validators: map<Address, Validator>,
    byPower: seq<Address>,
    maxValidators: nat,
    bondedPower: nat)

  /** The power index refers to existing validators. */
  ghost predicate Consistent(st: Staking) {
    forall i | 0 <= i < |st.byPower| :: st.byPower[i] in st.validators
  }

  /** The parameters that stay constant, with the functions the module calls: `root` is the square
      root of a variance, `voteHash` the hex text of the vote hash. */
  datatype Params = Params(
    votePeriod: nat,
    slashWindow: nat,
    voteThreshold: Dec,
    minVoters: nat,
    rewardBand: Dec,
    minValidPerWindow: Dec,
    sdk: Sdk,
    root: Dec -> nat,
    voteHash: (string, string, Address) -> string)

  /** `Params.Validate` on the two periods, which are `uint64`s. */
  ghost predicate ValidPeriods(params: Params) {
    1 <= params.votePeriod <= params.slashWindow < TWO64
  }

  datatype State = State(
    height: nat,
    exchangeRates: map<Pair, Dec>,
    priceSnapshots: SnapshotStore,
    feederDelegations: map<Address, Address>,
    missCounters: map<Address, nat>,
    prevotes: map<Address, Prevote>,
    votes: map<Address, Vote>,
    whitelistedPairs: set<Pair>,
    paramsWhitelist: seq<Pair>,
    rewards: RewardStore,
    nextRewardId: nat,
    balance: Coins,
    distributed: Coins,
    outstanding: map<Address, Coins>)

  // ---- messages

  datatype MsgError =
    | NoVotingPermission
    | NoValidatorFound
    | InvalidHash
    | NoAggregatePrevote
    | RevealPeriodMissMatch
    | InvalidRates(e: TuplesError)
    | UnknownPair(pair: Pair)
    | VerificationFailed

  function FeederError(delegations: map<Address, Address>, st: Staking, feeder: Address, validator: Address)
    : Option<MsgError>
  {
    if feeder != validator && (if validator in delegations then delegations[validator] else validator) != feeder
    then Some(NoVotingPermission)
    else if validator !in st.validators || !st.validators[validator].bonded then Some(NoValidatorFound)
    else None
  }

  predicate IsHexDigit(c: char) {
    '0' <= c <= '9' || 'a' <= c <= 'f' || 'A' <= c <= 'F'
  }

  predicate IsHex(s: string) {
    |s| % 2 == 0 && forall i | 0 <= i < |s| :: IsHexDigit(s[i])
  }

  /** Decoding hex text and encoding it again: the lower-case text. */
  function Lower(s: string): string {
    seq(|s|, i requires 0 <= i < |s| => if 'A' <= s[i] <= 'F' then (s[i] - 'A') + 'a' else s[i])
  }

  function PrevoteError(s: State, st: Staking, feeder: Address, validator: Address, hash: string): Option<MsgError> {
    match FeederError(s.feederDelegations, st, feeder, validator)
    case Some(e) => Some(e)
    case None => if IsHex(hash) then None else Some(InvalidHash)
  }

  /** The `uint64` difference of periods that the reveal compares with 1. */
  function PeriodsSince(params: Params, height: nat, submitBlock: nat): int
    requires 1 <= params.votePeriod
  {
    U64(height / params.votePeriod - submitBlock / params.votePeriod)
  }

  /** The first pair that is not whitelisted. */
  function UnknownPairIn(whitelist: set<Pair>, ts: seq<ExchangeRateTuple>): Option<Pair> {
    if ts == [] then None
    else if ts[0].pair !in whitelist then Some(ts[0].pair)
    else UnknownPairIn(whitelist, ts[1..])
  }

  function RevealError(params: Params, s: State, st: Staking, feeder: Address, validator: Address, salt: string,
      rates: string)
    : Option<MsgError>
    requires 1 <= params.votePeriod
  {
    match FeederError(s.feederDelegations, st, feeder, validator)
    case Some(e) => Some(e)
    case None =>
      if validator !in s.prevotes then Some(NoAggregatePrevote)
      else
        var prevote := s.prevotes[validator];
        if PeriodsSince(params, s.height, prevote.submitBlock) != 1 then Some(RevealPeriodMissMatch)
        else
          match ParseTuples(params.sdk, rates)
          case Err(e) => Some(InvalidRates(e))
          case Ok(tuples) =>
            match UnknownPairIn(s.whitelistedPairs, tuples)
            case Some(pair) => Some(UnknownPair(pair))
            case None =>
              if prevote.hash != params.voteHash(salt, rates, validator) then Some(VerificationFailed) else None
  }

  function WithPrevote(s: State, validator: Address, hash: string): State {
    s.(prevotes := s.prevotes[validator := Prevote(Lower(hash), validator, s.height)])
  }

  function WithVote(s: State, validator: Address, tuples: seq<ExchangeRateTuple>): State {
    s.(votes := s.votes[validator := Vote(tuples, validator)], prevotes := s.prevotes - {validator})
  }

  /** A new reward under the next id. */
  function WithReward(s: State, votePeriods: nat, perPeriod: Coins): State {
    s.(rewards := s.rewards[s.nextRewardId := Reward(s.nextRewardId, votePeriods, perPeriod)],
       nextRewardId := s.nextRewardId + 1)
  }

  // ---- ballots of a tally

  function ToMap(ts: seq<ExchangeRateTuple>): map<Pair, Dec> {
    if ts == [] then map[] else ToMap(ts[..|ts| - 1])[ts[|ts| - 1].pair := ts[|ts| - 1].rate]
  }

  /** The first `limit` bonded validators of the power order. */
  function ActiveSet(validators: map<Address, Validator>, order: seq<Address>, limit: nat): (r: set<Address>)
    requires forall i | 0 <= i < |order| :: order[i] in validators
    ensures r <= validators.Keys
  {
    if order == [] || limit == 0 then {}
    else if validators[order[0]].bonded then {order[0]} + ActiveSet(validators, order[1..], limit - 1)
    else ActiveSet(validators, order[1..], limit)
  }

  /** The consensus power of each active validator. */
  type Powers = map<Address, nat>

  function ActivePowers(st: Staking): Powers
    requires Consistent(st)
  {
    map v | v in ActiveSet(st.validators, st.byPower, st.maxValidators) :: st.validators[v].power
  }

  type Votes = map<Address, Vote>

  /** The ballots of active validators for a pair; abstentions carry no power. */
  ghost function PairBallots(votes: Votes, powers: Powers, pair: Pair): BallotMap {
    map v | v in votes && v in powers && pair in ToMap(votes[v].tuples) ::
      var rate := ToMap(votes[v].tuples)[pair];
      Ballot(rate, pair, v, if 0 < rate then powers[v] else 0)
  }

  function Threshold(params: Params, st: Staking): int {
    ChopPrecisionAndRound(params.voteThreshold * st.bondedPower)
  }

  ghost predicate Passes(params: Params, st: Staking, b: BallotMap) {
    && SumBy(b, PowerOf()) != 0
    && Threshold(params, st) <= SumBy(b, PowerOf())
    && params.minVoters <= SumBy(b, ValidVoter())
  }

  /** Whitelisted pairs whose ballot passed, and those whose ballot failed. A pair without ballots is neither. */
  ghost function PassingPairs(params: Params, st: Staking, s: State, powers: Powers): set<Pair> {
    set p | p in s.whitelistedPairs && PairBallots(s.votes, powers, p) != map[] &&
        Passes(params, st, PairBallots(s.votes, powers, p))
  }

  ghost function FailedPairs(params: Params, st: Staking, s: State, powers: Powers): set<Pair> {
    set p | p in s.whitelistedPairs && PairBallots(s.votes, powers, p) != map[] &&
        !Passes(params, st, PairBallots(s.votes, powers, p))
  }

  /** The pairs that a validator must win not to miss. */
  ghost function RequiredPairs(params: Params, st: Staking, s: State, powers: Powers): set<Pair> {
    s.whitelistedPairs - FailedPairs(params, st, s, powers)
  }

  ghost function RewardSpread(params: Params, b: BallotMap): Dec {
    var half := Mul(Median(b), QuoInt(params.rewardBand, 2));
    var deviation := if b == map[] then 0 else params.root(Variance(b, Median(b)));
    if half < deviation then deviation else half
  }

  /** In the spread around the median, or abstaining. */
  ghost predicate Wins(params: Params, b: BallotMap, v: Address) {
    && v in b
    && (Median(b) - RewardSpread(params, b) <= b[v].rate <= Median(b) + RewardSpread(params, b) || b[v].rate <= 0)
  }

  datatype Performance = Performance(power: nat, rewardWeight: nat, winCount: nat, valAddress: Address)

  type Performances = map<Address, Performance>

  ghost function WonPairs(params: Params, votes: Votes, powers: Powers, pairs: set<Pair>, v: Address): set<Pair> {
    set p | p in pairs && Wins(params, PairBallots(votes, powers, p), v)
  }

  /** The pairs won with a rate rather than an abstention. */
  ghost function RatedPairs(params: Params, votes: Votes, powers: Powers, pairs: set<Pair>, v: Address): set<Pair> {
    set p | p in pairs && Wins(params, PairBallots(votes, powers, p), v) && 0 < PairBallots(votes, powers, p)[v].rate
  }

  /** What every active validator has scored once the given pairs are tallied. */
  ghost function Scores(params: Params, votes: Votes, powers: Powers, pairs: set<Pair>): Performances {
    map v | v in powers ::
      Performance(powers[v],
                  Times(powers[v], |RatedPairs(params, votes, powers, pairs, v)|),
                  |WonPairs(params, votes, powers, pairs, v)|,
                  v)
  }

  // ---- the end of a vote period

  ghost function NewPrices(votes: Votes, powers: Powers, passing: set<Pair>): map<Pair, Dec> {
    map p | p in passing :: Median(PairBallots(votes, powers, p))
  }

  function SnapshotKeys(pairs: set<Pair>, time: int): set<(Pair, int)> {
    set p | p in pairs :: (p, time)
  }

  ghost function NewSnapshots(votes: Votes, powers: Powers, passing: set<Pair>, time: int): SnapshotStore {
    map k | k in SnapshotKeys(passing, time) ::
      Snapshot(k.0, Median(PairBallots(votes, powers, k.0)), time / MILLISECOND)
  }

  function CounterOf(counters: map<Address, nat>, v: Address): nat {
    if v in counters then counters[v] else 0
  }

  /** One more miss for everybody who did not win all required pairs. */
  function WithMisses(counters: map<Address, nat>, scores: Performances, required: nat): map<Address, nat> {
    map v | v in counters.Keys + scores.Keys && (v in counters || scores[v].winCount != required) ::
      if v in scores && scores[v].winCount != required then CounterOf(counters, v) + 1 else counters[v]
  }

  ghost function Weights(scores: Performances): map<Address, nat> {
    map v | v in scores :: scores[v].rewardWeight
  }

  ghost function TotalWeight(scores: Performances): int {
    SumBy(Weights(scores), WeightOf())
  }

  lemma WeightIsNotNegative(scores: Performances)
    ensures 0 <= TotalWeight(scores)
  {
    SumByNonNegative(Weights(scores), WeightOf());
  }

  function AddAll(outstanding: map<Address, Coins>, portions: map<Address, Coins>): map<Address, Coins> {
    map v | v in outstanding.Keys + portions.Keys ::
      if v in portions then Plus(if v in outstanding then outstanding[v] else map[], portions[v]) else outstanding[v]
  }

  lemma AddNothing(outstanding: map<Address, Coins>)
    ensures AddAll(outstanding, map[]) == outstanding
  {
  }

  lemma AddOneMore(outstanding: map<Address, Coins>, portions: map<Address, Coins>, v: Address, portion: Coins)
    requires v !in portions
    ensures var now := AddAll(outstanding, portions);
            AddAll(outstanding, portions[v := portion]) == now[v := Plus(if v in now then now[v] else map[], portion)]
  {
    hide Plus;
  }

  /** The scores of validators that staking still knows. */
  function Known(st: Staking, scores: Performances): Performances {
    map v | v in scores && v in st.validators :: scores[v]
  }

  /** Paying the winners of a period; `None` is the panic on a transfer that is not covered. Unknown validators
      count towards the total weight but get nothing. */
  ghost function Paid(s: State, st: Staking, scores: Performances): Option<State> {
    var weight := TotalWeight(scores);
    if weight <= 0 then Some(s)
    else
      var portions := Portions(Gathered(s.rewards), Weights(Known(st, scores)), weight);
      var sum := Total(portions);
      if !Covers(s.balance, sum) then None
      else Some(s.(rewards := Decremented(s.rewards),
                   balance := Minus(s.balance, sum),
                   distributed := Plus(s.distributed, sum),
                   outstanding := AddAll(s.outstanding, portions)))
  }

  function Cleared(prevotes: map<Address, Prevote>, height: nat, votePeriod: nat): map<Address, Prevote> {
    map v | v in prevotes && height < prevotes[v].submitBlock + votePeriod :: prevotes[v]
  }

  function PairSet(pairs: seq<Pair>): set<Pair> {
    set i | 0 <= i < |pairs| :: pairs[i]
  }

  /** The stored whitelist after comparing the pairs left by the tally with the parameter. */
  function NextWhitelist(stored: set<Pair>, next: seq<Pair>, current: set<Pair>): set<Pair> {
    if |current| != |next| || exists i :: 0 <= i < |next| && next[i] !in current then PairSet(next) else stored
  }

  /** `UpdateExchangeRates`. */
  ghost function Tallied(params: Params, s: State, st: Staking, time: int): Option<State>
    requires Consistent(st)
  {
    var powers := ActivePowers(st);
    var passing := PassingPairs(params, st, s, powers);
    var required := RequiredPairs(params, st, s, powers);
    var scores := Scores(params, s.votes, powers, passing);
    match Paid(s, st, scores)
    case None => None
    case Some(paid) =>
      Some(paid.(exchangeRates := NewPrices(s.votes, powers, passing),
                 priceSnapshots := s.priceSnapshots + NewSnapshots(s.votes, powers, passing, time),
                 missCounters := WithMisses(s.missCounters, scores, |required|),
                 prevotes := Cleared(s.prevotes, s.height, params.votePeriod),
                 votes := map[],
                 whitelistedPairs := NextWhitelist(s.whitelistedPairs, s.paramsWhitelist, required)))
  }

  // ---- the end of a slash window

  /** The quotient of the two periods converted to `int64`s, as a decimal, truncated and converted back. */
  function VotePeriodsPerWindow(params: Params): nat
    requires ValidPeriods(params)
  {
    assert I64(params.votePeriod) != 0;
    U64(TruncateInt(QuoInt(FromInt(I64(params.slashWindow)), I64(params.votePeriod))))
  }

  /** The divisor of the vote rate is zero. */
  predicate NoPeriods(params: Params)
    requires ValidPeriods(params)
  {
    I64(VotePeriodsPerWindow(params)) == 0
  }

  /** `(periods - misses) / periods`; the difference is of `uint64`s and converted to `int64`. */
  function ValidVoteRate(params: Params, misses: nat): Dec
    requires ValidPeriods(params) && !NoPeriods(params)
  {
    QuoInt(FromInt(I64(U64(VotePeriodsPerWindow(params) - misses))), I64(VotePeriodsPerWindow(params)))
  }

  /** The conversions are harmless for a slash window that is an `int64`; among the others, only for a vote period of 1
      or of the whole window. They can leave no period at all. */
  lemma PeriodsPerWindow(params: Params)
    requires ValidPeriods(params)
    ensures var vp, sw, periods := params.votePeriod, params.slashWindow, VotePeriodsPerWindow(params);
            && (periods == sw / vp <==> sw < TWO63 || vp == 1 || vp == sw)
            && (sw < TWO63 ==> 1 <= periods < TWO63)
            && (NoPeriods(params) <==> TWO63 <= sw && TWO64 - sw < if vp < TWO63 then vp else TWO64 - vp)
  {
    hide VotePeriodsPerWindow;
    var vp, sw := params.votePeriod, params.slashWindow;
    if sw < TWO63 {
      ShortWindow(params);
    } else if vp < TWO63 {
      LongWindow(params);
      WindowQuotients(sw, vp);
      WrappedQuotient(sw, vp, (TWO64 - sw) / vp, sw / vp);
    } else {
      LongPeriod(params);
      QuotientIs(sw, vp, 1);
    }
  }

  lemma ShortWindow(params: Params)
    requires ValidPeriods(params) && params.slashWindow < TWO63
    ensures VotePeriodsPerWindow(params) == params.slashWindow / params.votePeriod
    ensures 1 <= VotePeriodsPerWindow(params) < TWO63
  {
    hide TruncateInt, QuoInt, FromInt;
    TruncatedQuotient(params.slashWindow, params.votePeriod);
    QuotientAtLeast(params.slashWindow, params.votePeriod, 1);
    QuotientAtMost(params.slashWindow, params.votePeriod);
  }

  lemma LongWindow(params: Params)
    requires ValidPeriods(params) && params.votePeriod < TWO63 <= params.slashWindow
    ensures VotePeriodsPerWindow(params) == U64(-((TWO64 - params.slashWindow) / params.votePeriod))
  {
    hide TruncateInt, QuoInt, FromInt, U64;
    assert I64(params.slashWindow) == -(TWO64 - params.slashWindow);
    NegativeWindow(TWO64 - params.slashWindow, params.votePeriod);
  }

  lemma LongPeriod(params: Params)
    requires ValidPeriods(params) && TWO63 <= params.votePeriod
    ensures VotePeriodsPerWindow(params) == if params.votePeriod == params.slashWindow then 1 else 0
  {
    hide TruncateInt, QuoInt, FromInt;
    assert I64(params.slashWindow) == -(TWO64 - params.slashWindow);
    assert I64(params.votePeriod) == -(TWO64 - params.votePeriod);
    NegativePeriods(TWO64 - params.slashWindow, TWO64 - params.votePeriod);
  }

  lemma WindowQuotients(sw: nat, vp: nat)
    requires 1 <= vp < TWO63 <= sw < TWO64
    ensures var k, q := (TWO64 - sw) / vp, sw / vp;
            && 0 <= k && (k == 0 <==> TWO64 - sw < vp) && 1 <= q
            && (if vp == 1 then k == TWO64 - sw && q == sw else 2 * k <= TWO64 - sw && 2 * q <= sw)
  {
    NegativeWindow(TWO64 - sw, vp);
    QuotientAtLeast(sw, vp, 1);
    DivisionBounds(TWO64 - sw, vp);
    if vp != 1 {
      SmallQuotient(TWO64 - sw, vp);
      SmallQuotient(sw, vp);
    }
  }

  lemma WrappedQuotient(sw: int, vp: int, k: int, q: int)
    requires 1 <= vp < TWO63 <= sw < TWO64 && 0 <= k && 1 <= q
    requires if vp == 1 then k == TWO64 - sw && q == sw else 2 * k <= TWO64 - sw && 2 * q <= sw
    ensures U64(-k) == q <==> vp == 1
    ensures I64(U64(-k)) == 0 <==> k == 0
  {
    assert k != 0 ==> U64(-k) == TWO64 - k;
  }

  /** A window converted to a negative number. */
  lemma NegativeWindow(a: int, d: int)
    requires 0 <= a && 1 <= d
    ensures TruncateInt(QuoInt(FromInt(-a), d)) == -(a / d)
    ensures a / d == 0 <==> a < d
  {
    TruncatedQuotient(a, d);
    assert FromInt(-a) == -FromInt(a);
    DivisionBounds(a, d);
  }

  /** Both periods converted to negative numbers. */
  lemma NegativePeriods(a: int, d: int)
    requires 1 <= a <= d
    ensures TruncateInt(QuoInt(FromInt(-a), -d)) == if a < d then 0 else 1
  {
    TruncatedQuotient(a, d);
    assert FromInt(-a) == -FromInt(a);
    NegativeDivisor(FromInt(a), d);
    QuotientIs(a, d, if a < d then 0 else 1);
  }

  lemma NegativeDivisor(a: int, d: int)
    requires 0 <= a && 1 <= d
    ensures TruncDiv(-a, -d) == TruncDiv(a, d)
  {
    var q := a / d;
    DivisionBounds(a, d);
    assert (-q) * (-d) == q * d;
    assert a / (-d) == -q;
  }

  lemma SmallQuotient(a: nat, d: nat)
    requires 2 <= d
    ensures 2 * (a / d) <= a
  {
    DivisionBounds(a, d);
    assert 2 * (a / d) <= (a / d) * d;
  }

  ghost predicate IsBelowMinimum(params: Params, misses: nat)
    requires ValidPeriods(params)
  {
    !NoPeriods(params) && ValidVoteRate(params, misses) < params.minValidPerWindow
  }

  /** A counter at which slashing panics: the rate divides by zero, or the rate is too low and the validator, which
      the code dereferences, is unknown. */
  ghost predicate PanicsAt(params: Params, misses: nat, st: Staking, v: Address)
    requires ValidPeriods(params)
  {
    NoPeriods(params) || (IsBelowMinimum(params, misses) && v !in st.validators)
  }

  ghost predicate SlashPanics(params: Params, counters: map<Address, nat>, st: Staking)
    requires ValidPeriods(params)
  {
    exists v :: v in counters && PanicsAt(params, counters[v], st, v)
  }

  ghost predicate IsSlashed(params: Params, misses: nat, st: Staking, v: Address)
    requires ValidPeriods(params)
  {
    IsBelowMinimum(params, misses) && v in st.validators && st.validators[v].bonded && !st.validators[v].jailed
  }

  ghost function SlashedOperators(params: Params, counters: map<Address, nat>, st: Staking): set<Address>
    requires ValidPeriods(params)
  {
    set v | v in counters && IsSlashed(params, counters[v], st, v)
  }

  // ---- blocks

  predicate IsPeriodLastBlock(height: nat, blocksPerPeriod: nat)
    requires 1 <= blocksPerPeriod
  {
    (height + 1) % blocksPerPeriod == 0
  }

  /** `Halted` is a panic in the end blocker. */
  datatype BlockResult = Halted | Block(state: State, slashed: set<Address>)

  ghost function AfterTally(params: Params, s: State, st: Staking, time: int): Option<State>
    requires ValidPeriods(params) && Consistent(st)
  {
    if IsPeriodLastBlock(s.height, params.votePeriod) then Tallied(params, s, st, time) else Some(s)
  }

  /** `EndBlocker`: tally, then slash. */
  ghost function EndBlock(params: Params, s: State, st: Staking, time: int): BlockResult
    requires ValidPeriods(params) && Consistent(st)
  {
    match AfterTally(params, s, st, time)
    case None => Halted
    case Some(t) =>
      if !IsPeriodLastBlock(s.height, params.slashWindow) then Block(t, {})
      else if SlashPanics(params, t.missCounters, st) then Halted
      else Block(t.(missCounters := map[]), SlashedOperators(params, t.missCounters, st))
  }
}
