# A verified model of Nibiru's price oracle and its neighbours

The project models, in Dafny, the price oracle of the Nibiru chain (`x/oracle`) and the parts of the
repository beside it that compute something delicate, and proves what they promise.

- **The oracle as a step machine.** Validators commit to prices in one vote period, reveal them in the
  next, and the end of a period tallies them: ballots per pair, the weighted median, winners, misses,
  payouts, the whitelist. The end of a slash window slashes who missed too much. `OracleState` defines
  every message and block on values. `OracleKeeper.Keeper` is the keeper as the code has it, an object
  with one field per store whose methods update it step by step; each method is proved to reach the
  state that `OracleState` defines. Wherever Go iterates a map, the method takes an arbitrary remaining
  key; wherever Go sorts, the order of equal rates is arbitrary. One tally is therefore proved to have
  the same outcome for every map order and every unstable sort.
- **Whole runs.** `OracleRuns` defines runs from empty stores: messages, fundings, changes of the
  whitelist and blocks in any order, with staking free to change before every step. `CommitReveal`,
  `Solvency` and `MissCounters` prove what holds in every reachable state, `Feeders` who may feed for
  whom, and `Abstainer` what a diligent feeder is granted. `TallyMeaning` and `Slashing` say what a tally
  and the end of a window do in terms of ballots, distances to the median and shares of periods alone.
- **Stableswap.** The integer Newton iteration of the stableswap script: termination, no division by
  zero, a two-sided bound of the result, and the equation of the pool that the result completes.
- **The codec.** Marshal, Size and Unmarshal of `MissCounter` and `FeederDelegation`, with the varints
  and the skipping of unknown fields (Protocol Buffers Encoding, sections "Base 128 Varints" and
  "Message Structure").
- **Smaller parts.** The vote text, time-weighted prices, banker's rounding and the moving average, the
  epoch scheduler composed with the periods of inflation.

`dafny verify dfyconfig.toml` checks everything.

## Layout

| files | content |
|---|---|
| `Prelude` (with `MapSum`), `Decimal`, `Coins` | fixed-width conversions, sums over maps, `sdk.Dec`, coins |
| `Assets`, `VoteText` | pairs and the text of a vote |
| `Ballots`, `Rewards`, `Twap` | the median, the reward pool, time-weighted prices |
| `OracleState`, `Tally`, `TallyMeaning`, `Slashing`, `Keeper` | the specification of every step, the loops of a tally, what they mean, the keeper |
| `OracleRuns`, `CommitReveal`, `TallyProperties`, `Solvency`, `MissCounters`, `Feeders`, `Abstainer` | runs and what they keep |
| `Wire`, `Skip`, `GenesisCodec` | varints, unknown fields, the two messages |
| `Stableswap`, `Ewma`, `Epochs`, `Inflation` | the other machines |

## Where the code is not what one may expect

- The median test is `pivot >= totalPower / 2` with the division rounding down: at total power 1 an
  abstainer of power zero sorted first is the median (`Ballots.AbstainerAtPowerOne`). For a ballot with
  any power this is the only case in which the median is not positive (`Ballots.MedianIsPositive`). Nobody
  may be paid then (`TallyProperties.NobodyPaidAtPowerOne`, with the exact condition in
  `TallyProperties.TallyPaysUnlessOutvoted`).
- A whitelisted pair without any ballot is still required of every validator: only pairs whose ballot
  failed are forgiven (`TallyProperties.TallyMisses`).
- If the vote period does not divide the slash window, a window can hold one tally more than there are
  periods in it. The unsigned difference in the slash rate then wraps, and the conversion to a signed
  number undoes it (`MissCounters.TheBoundIsReached`, `Slashing.WrappedRateIsExact`).
- The comment of `updateWhitelist` promises an update on every possible change; a parameter that lists
  a pair twice can keep a stale pair (`TallyProperties.WhitelistAfterTally` has the exact condition).
- The window of a TWAP starts at a nanosecond, its weights are milliseconds: with a look-back that is not
  of whole milliseconds a weight can be negative and the average leave the range of its prices
  (`Twap.ExactLookBacks` has the exact condition). The store in which it does has two snapshots of a pair
  a nanosecond apart; with blocks at least a millisecond apart every look-back is fine
  (`OracleRuns.ReachableTwap`).
- A slash window of 2^63 or more passes validation, and the number of periods computed from it can be zero
  or negative (`OracleState.PeriodsPerWindow` has the exact conditions). No such window ends at a height
  that is an `int64` (`MissCounters.EndedWindowFits`).
- Inflation period 0 has one mint more than the others (`Inflation.PeriodAdvances`).
- The empty list of tuples prints as a text that does not parse (`VoteText.TuplesRoundTrip`).

## Model

| member | source | states |
|---|---|---|
| OracleState.PeriodsPerWindow | x/oracle/keeper/slash.go:14-19 | For every pair of periods that `Params.Validate` accepts: the decimals and the conversions to signed and back give floor(SW/VP) if and only if SW is below 2^63, or VP is 1 or SW; and they leave zero periods, by which the rate is divided, exactly under the stated condition on the two numbers |
| OracleKeeper.Keeper.constructor | x/oracle/keeper/keeper.go:23-80 | Runs begin with empty stores, reward ids at 1, and the stored whitelist equal to the parameter |
| OracleKeeper.Keeper.ValidateFeeder | x/oracle/keeper/keeper.go:88-112 | No voting permission exactly for a sender that is neither the validator nor its delegate, which is the validator by default; no error exactly if also the validator is bonded |
| OracleKeeper.Keeper.AggregateExchangeRatePrevote | x/oracle/keeper/msg_server.go:23-64 | A rejected prevote changes nothing; an accepted one stores the lower-case hash with the height and changes nothing else |
| OracleKeeper.Keeper.AggregateExchangeRateVote | x/oracle/keeper/msg_server.go:66-140 | The first failing check decides the error and leaves every store as it was; an accepted reveal moves the prevote to a vote with the parsed tuples |
| OracleKeeper.Keeper.DelegateFeedConsent | x/oracle/keeper/msg_server.go:142-177 | Consent is stored exactly for operators known to staking |
| OracleKeeper.Keeper.AllocateRewards | x/oracle/keeper/reward.go:13-30 | Unless it panics a reward with the given number of periods is stored under the next id; the pool gets the whole amount exactly if the transfer succeeds |
| OracleKeeper.Keeper.GatherRewards | x/oracle/keeper/reward.go:65-89 | Whatever order rewards are visited in: the coins of all of them are gathered, and every counter goes down by one with those at zero deleted |
| OracleKeeper.Keeper.DistributeRewards | x/oracle/keeper/reward.go:46-55 | Whatever order the performances are visited in: every known validator is credited its exact floored share, and the sum of the shares is returned |
| OracleKeeper.Keeper.RewardBallotWinners | x/oracle/keeper/reward.go:32-62 | Paying a period ends in the state `Paid` defines for any map order, and panics exactly when the pool does not cover the sum |
| OracleKeeper.Keeper.ResetExchangeRates | x/oracle/keeper/update_exchange_rates.go:76-83 | No exchange rate is left |
| OracleKeeper.Keeper.NewValidatorPerformances | x/oracle/keeper/update_exchange_rates.go:87-112 | The performances are those of the first `MaxValidators` bonded validators of the power order: validators that are not bonded are passed over without being counted |
| OracleKeeper.Keeper.SetPrice | x/oracle/keeper/keeper.go:190-207 | A price and a snapshot under (pair, block time), its timestamp in whole milliseconds |
| OracleKeeper.Keeper.CountVotes | x/oracle/keeper/update_exchange_rates.go:43-62 | For every order in which passing pairs are tallied: prices and snapshots are the medians of the ballots, and the scores are those of the order-free definition |
| OracleKeeper.Keeper.RegisterMissedVotes | x/oracle/keeper/update_exchange_rates.go:31-40 | For every map order: exactly those whose win count is not the number of required pairs get one more miss |
| OracleKeeper.Keeper.ClearVotesAndPrevotes | x/oracle/keeper/ballot.go:53-72 | All votes go; a prevote stays exactly while fewer than `VotePeriod` blocks have passed since it was submitted |
| OracleKeeper.Keeper.UpdateWhitelist | x/oracle/keeper/whitelist.go:24-47 | The stored whitelist is rewritten from the parameter exactly when the sizes differ or a pair of the parameter is missing from the pairs left by the tally |
| OracleKeeper.Keeper.CountBallots | x/oracle/keeper/update_exchange_rates.go:14-22 | From the votes to prices, snapshots, scores and required pairs, for every map order and every outcome of the unstable sort |
| OracleKeeper.Keeper.CloseVotePeriod | x/oracle/keeper/update_exchange_rates.go:25-27 | The last part of a tally touches prevotes, votes and whitelist and nothing else |
| OracleKeeper.Keeper.UpdateExchangeRates | x/oracle/keeper/update_exchange_rates.go:14-28 | One tally is a function of the state: prices, snapshots, performances, counters, payouts, prevotes, votes and whitelist do not depend on map order or on how equal rates were sorted |
| OracleKeeper.Keeper.SlashAndResetMissCounters | x/oracle/keeper/slash.go:10-55 | For every order of the counters: a validator with a counter is slashed if and only if it is bonded, not jailed, and the truncated share of its good periods is below the minimum; all counters are cleared; and it panics exactly on a division by zero periods or on an unknown validator below the minimum |
| OracleKeeper.Keeper.EndBlocker | x/oracle/abci.go:14-30 | The block ends in the state that `EndBlock` defines: tally first, slash after, each only on its last block |
| OracleRuns.ReachableIsWellFormed | x/oracle/types/vote.go:137-154 | In every reachable state every stored vote has distinct pairs under its own voter, prevotes are not from the future, reward ids are below the next one, and snapshots sit under their pair and time |
| OracleRuns.BlockIsTally | x/oracle/abci.go:21-29 | A block that does not halt the chain is the tally, if it is due, and then the clearing of the counters at the end of a window |
| OracleRuns.ParameterStep | x/oracle/keeper/update_exchange_rates.go:25-27 | Along a run the whitelist parameter is what its last change said; no tally and no other message touches it |
| OracleRuns.HeightsAreMonotone | x/oracle/types/core.go:6-8 | Heights never go down along a run |
| OracleRuns.SnapshotsOfBlocks | x/oracle/keeper/keeper.go:193-199 | Every snapshot in a reachable state was taken at the end of a block of the run, under the time of that block |
| OracleRuns.ReachableTwap | x/oracle/keeper/keeper.go:161-183 | On every reachable state, if blocks are a millisecond apart or the look-back exceeds whole milliseconds by at most a nanosecond, the TWAP of two or more snapshots is the truncated average over each millisecond of the price then in force and lies between the extreme prices; it panics exactly when no millisecond has passed |
| CommitReveal.NextPeriod | x/oracle/types/core.go:6-8 | The last block of a period is the only one behind which height / VotePeriod changes |
| CommitReveal.ClearedByPeriod | x/oracle/keeper/ballot.go:57-63 | At the last block of a period the age test keeps exactly the prevotes of that period |
| CommitReveal.StoredPrevote | x/oracle/keeper/msg_server.go:49 | Every stored prevote is the last one its feeder submitted in the run, not revealed since |
| CommitReveal.StoredVote | x/oracle/keeper/msg_server.go:123-124 | Every stored vote was revealed in the running period, is the last reveal of its validator and holds the tuples of its text |
| CommitReveal.NoUnderflow | x/oracle/keeper/msg_server.go:96 | In every reachable state the unsigned difference of periods in the reveal check is the true difference |
| CommitReveal.RevealMatchesCommit | x/oracle/keeper/msg_server.go:88-120 | Every accepted reveal opens a prevote that the feeder of that validator submitted in the period before, with nothing of that validator in between, and whose hash is that of salt, rates and validator |
| CommitReveal.OneRevealPerPeriod | x/oracle/keeper/msg_server.go:88-124 | Two accepted reveals of a validator lie in different periods, so a vote is written at most once a period |
| CommitReveal.BallotsAreCommittedAndRevealed | x/oracle/keeper/ballot.go:19-50 | Every ballot of a tally carries a rate revealed in this period and committed to in the period before, in every run from empty stores |
| CommitReveal.PrevoteOfThePeriodStays | x/oracle/keeper/ballot.go:55-63 | A prevote of the running period is never dropped |
| CommitReveal.AfterThePeriod | x/oracle/keeper/ballot.go:53-72 | Right after the last block of a period no vote is stored, and a validator has a prevote if and only if its feeder submitted one in that period: the last one |
| Feeders.DelegationInForce | x/oracle/keeper/msg_server.go:142-162 | In every run the stored delegate is the one that the last accepted delegation named, or else the initial one, or else the validator itself |
| Feeders.AllowedExactly | x/oracle/keeper/keeper.go:88-112 | In every run a sender passes the permission check if and only if the validator is bonded and the sender is the validator or the delegate it named last; and lacks permission exactly if it is neither |
| Feeders.PrevoteStoredExactly | x/oracle/keeper/msg_server.go:23-64 | A prevote is stored if and only if its sender may feed and its text encodes bytes in hex; it then holds these bytes in lower-case digits and the height, and otherwise nothing changes |
| Feeders.VoteStoredExactly | x/oracle/keeper/msg_server.go:66-140 | A vote is stored if and only if its sender may feed, it opens the commitment of the period before, and its text is readable |
| Feeders.OnlyAllowedFeeders | x/oracle/keeper/keeper.go:88-112 | Every message of a run that changes the prevote or the vote of a validator was sent, while the validator was bonded, by itself or by the delegate it named last |
| Abstainer.PrevoteWaits | x/oracle/keeper/ballot.go:53-63 | A prevote that is neither replaced nor revealed is stored to the end of the period after its own |
| Abstainer.RevealAcceptedExactly | x/oracle/keeper/msg_server.go:66-140 | In every run a reveal is accepted if and only if its feeder is allowed, it opens the commitment of the period before with nothing in between, and its text parses and names whitelisted pairs only |
| Abstainer.RevealErrorsExactly | x/oracle/keeper/msg_server.go:79-120 | Each error of a reveal is returned exactly when its check fails and all checks before it pass |
| Abstainer.VoteOfThePeriodStays | x/oracle/keeper/msg_server.go:123 | An accepted reveal is the stored vote, and the whitelist it was checked against stays, to the end of the period |
| Abstainer.AbstentionWins | x/oracle/keeper/ballot.go:145-149 | A tally that finds a vote abstaining on every whitelisted pair adds no miss |
| Abstainer.AbstainerNeverMisses | x/oracle/keeper/update_exchange_rates.go:31-40 | A validator whose feeder opens a commitment that abstains on every whitelisted pair in the period of each tally gets no miss from any state of a run on |
| Tally.GroupBallotsByPair | x/oracle/keeper/ballot.go:19-50 | For every order of the votes each pair has exactly one ballot from each active voter on it, with power zero for abstentions, and pairs without ballots have no entry |
| Tally.AddVote | x/oracle/keeper/ballot.go:29-46 | The tuples of one more vote extend the ballots of its pairs and of no other pair |
| Tally.IsPassingVoteThreshold | x/oracle/keeper/ballot.go:75-90 | A ballot passes if and only if its power is not zero and reaches the threshold, and enough voters did not abstain |
| Tally.RemoveInvalidBallots | x/oracle/keeper/ballot.go:98-126 | Deleting while iterating, in any order, leaves the ballots of exactly the whitelisted passing pairs and takes exactly the failed pairs off the whitelist; a pair without ballots stays on it |
| Tally.TallyPair | x/oracle/keeper/ballot.go:132-160 | The panic on unsorted ballots cannot happen. The result is the order-free median, and exactly the voters who abstain or whose distance from the median is at most half the reward band of it, or at most the deviation of the ballots, get their power and one win |
| Tally.CreditWinners | x/oracle/keeper/ballot.go:143-157 | Each voter in the spread or abstaining is credited its power and one win, once |
| Tally.WinsExactly | x/oracle/keeper/ballot.go:137-149 | Being in the spread is a matter of the distance to the median: at most half the reward band of it, or at most the deviation |
| Tally.NearerWins | x/oracle/keeper/ballot.go:145-149 | Winning is monotone: whoever is at least as near to the median as a winner with a positive rate wins too |
| Tally.ScoresWithOneMore | x/oracle/keeper/update_exchange_rates.go:50-51 | Tallying one more pair takes the scores of the pairs so far to the scores of all of them, which mention no order: weight is power times the pairs won with a rate, wins are the pairs won |
| TallyProperties.MissesExactlyWithoutAWin | x/oracle/keeper/update_exchange_rates.go:31-40 | The counter of an active validator rises exactly when some whitelisted pair that did not fail has no ballot of its in the spread or abstaining |
| TallyProperties.TallyMisses | x/oracle/keeper/update_exchange_rates.go:14-40 | The same for the state after a whole tally and for every address: nobody outside the active set gets a miss |
| TallyMeaning.ActiveExactly | x/oracle/keeper/update_exchange_rates.go:87-112 | A validator is active if and only if it is bonded with fewer than the maximum number of bonded ones in front of it: unbonded ones do not use up the limit |
| TallyMeaning.PricesExactly | x/oracle/keeper/ballot.go:75-126 | After a tally a pair has a price if and only if it is whitelisted and its ballots have some power, at least the rounded threshold of the bonded power, and enough voters with a positive rate; the price is their median |
| TallyMeaning.SnapshotsExactly | x/oracle/keeper/keeper.go:190-199 | A tally adds a snapshot of every price under the time of the block and keeps all others |
| TallyMeaning.MissesExactly | x/oracle/keeper/update_exchange_rates.go:31-40 | A tally adds a miss exactly to the active validators that, on some whitelisted pair without ballots or with ballots that passed, did not vote or voted a positive rate farther from the median than both half the reward band of it and the deviation |
| TallyMeaning.WeightExactly | x/oracle/keeper/ballot.go:149-155 | The reward weight is the power times the pairs with a positive rate not too far from the median |
| TallyMeaning.CreditsExactly | x/oracle/keeper/reward.go:46-55 | Every validator known to staking is credited the floored share of what was gathered that its own weight gives it; all other credits stay |
| TallyProperties.BallotHasAPaidWinner | x/oracle/keeper/ballot.go:143-157 | A ballot with any power has a winner with power and a positive rate if and only if its power is not a single unit voted above the spread |
| TallyProperties.PaidIfWon | x/oracle/types/ballot.go:193-200 | The total reward weight is positive if and only if somebody with power won a pair with a positive rate |
| TallyProperties.TallyPaysUnlessOutvoted | x/oracle/keeper/ballot.go:132-160 | The total reward weight of a tally is positive if and only if some passing ballot has more than one unit of power, or its one unit voted a rate that is not above the spread |
| TallyProperties.PassingBallotHasAPaidWinner | x/oracle/keeper/ballot.go:132-160 | In particular every passing ballot of power 2 or more has a positive median and leaves a positive total reward weight |
| TallyProperties.NobodyPaidAtPowerOne | x/oracle/keeper/ballot.go:132-160 | Votes at total power 1 with an abstaining median of zero after which nobody is paid |
| TallyProperties.TallyPayout | x/oracle/keeper/reward.go:32-62 | Of a total T gathered at most T leaves the pool, and at least T - n - nT/10^18 for n performances known to staking; what leaves the pool is what is credited |
| TallyProperties.WhitelistAfterTally | x/oracle/keeper/whitelist.go:24-47 | After the update the stored whitelist holds the parameter; it holds nothing else but failed pairs if and only if it was rewritten or the parameter has no pair twice |
| TallyProperties.ExactParameters | x/oracle/keeper/whitelist.go:24-47 | The parameters for which that is so whatever is stored and required are exactly those without a pair twice |
| TallyProperties.WhitelistWithoutDuplicates | x/oracle/keeper/whitelist.go:24-47 | Without duplicates in the parameter the stored whitelist lies between the parameter and the parameter with the failed pairs |
| TallyProperties.TallyWhitelist | x/oracle/keeper/update_exchange_rates.go:14-28 | The same for the state after a whole tally |
| TallyProperties.DuplicateKeepsAStalePair | x/oracle/keeper/whitelist.go:27-37 | A parameter with a pair twice can keep a pair that it no longer lists |
| Ballots.Power | x/oracle/types/ballot.go:81-89 | The loop adds the power of every ballot |
| Ballots.NumValidVoters | x/oracle/types/ballot.go:70-78 | The loop counts the ballots with a positive rate |
| Ballots.Sort | x/oracle/types/ballot.go:157-170 | Sorting in place by the three interface methods gives an ordered permutation; which one is left open where rates are equal |
| Ballots.WeightedMedianWithAssertion | x/oracle/types/ballot.go:109-127 | It panics exactly on ballots out of order; else it returns the rate of the first ballot whose prefix reaches half the power rounded down, and zero without ballots |
| Ballots.CrossingIsMedian | x/oracle/types/ballot.go:114-125 | Where the pivot loop stops on sorted ballots is the order-free median of what they list |
| Ballots.MedianIsUnique | x/oracle/types/ballot.go:109-127 | There is one such median, so the order of equal rates does not matter |
| Ballots.MedianExists | x/oracle/types/ballot.go:109-127 | Every non-empty ballot has one |
| Ballots.MedianIsPositive | x/oracle/types/ballot.go:109-127 | With abstainers at power zero and some power voted, the median is positive if and only if the total power is at least 2 or nobody abstained |
| Ballots.AbstainerAtPowerOne | x/oracle/types/ballot.go:121 | At total power 1 an abstainer of power zero wins the median |
| Ballots.MedianAtLeast | x/oracle/types/ballot.go:109-127 | The median is at least lo if and only if nobody voted less or the power below lo is less than half the power rounded down |
| Ballots.MedianAtMost | x/oracle/types/ballot.go:109-127 | The median is at most hi if and only if somebody voted at most hi and the power up to hi is at least half the power rounded down |
| Ballots.MedianWithin | x/oracle/types/ballot.go:109-127 | If the ballots outside [lo, hi] hold less than half the power rounded down, the median lies in [lo, hi]: a consequence of the two exact bounds |
| Ballots.HalfThePowerMovesTheMedian | x/oracle/types/ballot.go:121 | At exactly half the power outside it need not: of two voters of power 1 the lower rate wins |
| Ballots.SquareIsNearest | x/oracle/types/ballot.go:143-144 | A squared deviation is the nearest decimal of the square |
| Ballots.MedianHasPower | x/oracle/types/ballot.go:109-127 | With total power 2 or more somebody with power voted exactly the median |
| Ballots.StandardDeviation | x/oracle/types/ballot.go:130-154 | The root is taken of the mean squared deviation of the ballots as decimals, in whatever order they come |
| Coins.TotalInsert | x/oracle/keeper/reward.go:52-54 | Adding the coins of one more owner to a sum is the sum over one owner more |
| Rewards.GatheringReducesOwed | x/oracle/keeper/reward.go:65-89 | What a period gathers is exactly what the stored promises, periods times coins, go down by, in every denomination |
| Rewards.PerPeriodExactly | x/oracle/keeper/reward.go:14-18 | Funding panics for no period, and for numbers of periods that are negative as signed integers unless every amount is smaller; else each period gets the amount divided by the number of periods, rounded down |
| Rewards.RewardLastsItsPeriods | x/oracle/keeper/reward.go:75-85 | A reward for n periods is stored, one period less each time, until it was paid exactly n times |
| Rewards.PortionByDecIsPortion | x/oracle/keeper/reward.go:52 | The decimal arithmetic of a share, with its rounding product and truncation, is the exact floor of the amount times the fraction |
| Rewards.PayoutBounds | x/oracle/keeper/reward.go:46-55 | Shares by weight never exceed the total, and lose at most one unit and one rounding of the fraction each |
| Solvency.FundingKeepsCovered | x/oracle/keeper/reward.go:13-30 | A funding brings at least what it promises |
| Solvency.PayoutNeverFails | x/oracle/keeper/reward.go:56-61 | A pool that covers its promises pays every period, whatever the scores and whichever validators staking still knows |
| Solvency.PayingKeepsCovered | x/oracle/keeper/reward.go:32-89 | After the payment it covers what is still promised |
| Solvency.ReachableIsSolvent | x/oracle/keeper/reward.go:13-89 | In every reachable state the balance of each denomination is at least the sum of periods times coins over the stored rewards, and the credits of all validators add up to what was moved to distribution |
| Solvency.OnlyVanishedValidatorsHalt | x/oracle/abci.go:21-29 | From a reachable state the end of a block halts the chain if and only if a window ends with a counter below the minimum rate whose validator is unknown to staking: neither the tally nor a division by zero periods ever does |
| MissCounters.MissesAreBounded | x/oracle/keeper/slash.go:14-19 | In every reachable state a counter is at most floor(SW/VP) + 1, and at most SW/VP if VP divides SW |
| MissCounters.SlashReadsBoundedCounters | x/oracle/keeper/slash.go:24-30 | The counters that slashing reads have the same bounds, all are cleared at the end of the window, and if VP divides SW the unsigned difference does not wrap |
| MissCounters.EndedWindowFits | x/oracle/keeper/slash.go:14-19 | Every slash window that ends in a run is an `int64` and has at least one period |
| Slashing.WrappedRateIsExact | x/oracle/keeper/slash.go:28-30 | For a window that is an `int64` the unsigned difference wraps exactly when there are more misses than periods, and converting it back gives the true negative rate all the same |
| Slashing.RateBelowMultipliedOut | x/oracle/keeper/slash.go:28-33 | With a positive minimum the rounding of the rate does not matter: a validator is below it exactly if its good periods are fewer than the minimum share of all |
| Slashing.EndBlockSlashesExactly | x/oracle/keeper/slash.go:24-48 | The end of a block slashes a validator if and only if a window ends, it has a counter, is bonded and not jailed, and the truncated share of its good periods is below the minimum |
| Slashing.SlashingLaws | x/oracle/keeper/slash.go:24-48 | More misses are never slashed less; with a positive minimum missing every period is always slashed, and reaching the minimum never is |
| MissCounters.ReachableSlashing | x/oracle/keeper/slash.go:24-48 | Whom the end of a block slashes from any reachable state, with no bound asked of the counters |
| MissCounters.HaltsExactly | x/oracle/keeper/slash.go:33-35 | From a reachable state the end of a block halts the chain if and only if a window ends with a counter whose share of good periods is below the minimum and whose validator is unknown to staking |
| MissCounters.CrowdedWindow | x/oracle/keeper/slash.go:14-19 | If VP does not divide SW, one of the first VP windows holds floor(SW/VP) + 1 ends of vote periods |
| MissCounters.TheBoundIsReached | x/oracle/keeper/slash.go:24-30 | If VP does not divide SW there is a run from height 0, over several windows, in which slashing reads floor(SW/VP) + 1 misses and the unsigned difference wraps: the bound is tight |
| Twap.CalcTwap | x/oracle/keeper/keeper.go:121-159 | The loop computes the weighted sum and its truncated quotient, with the errors of the code and the panic on a zero divisor; a single snapshot is its own average |
| Twap.GetExchangeRateTwap | x/oracle/keeper/keeper.go:161-183 | The query averages exactly the snapshots of the pair from look-back to now, in order of time; it returns the price of the only one there is, and has an error of its own when there is none |
| Twap.TimesInRange | x/oracle/keeper/keeper.go:167-175 | Exactly the times in the window at which the pair has a snapshot, in increasing order |
| Twap.ListingIsUnique | x/oracle/keeper/keeper.go:167-175 | There is one such listing, so the query has one result |
| Twap.CumulativeIsArea | x/oracle/keeper/keeper.go:138-157 | The weights telescope: the sum is the price in force summed over every millisecond from the start |
| Twap.TwapIsTheTimeAverage | x/oracle/keeper/keeper.go:121-159 | For well placed snapshots the result is the truncated average over time and lies between the extreme prices, negative ones included |
| Twap.StoreWindowIsWellPlaced | x/oracle/keeper/keeper.go:132-136 | A window of whole milliseconds read from the store is always well placed, and its average starts at the first snapshot |
| Twap.WindowIsWellPlaced | x/oracle/keeper/keeper.go:132-136 | So is every window whose look-back exceeds whole milliseconds by a nanosecond at most, or whose first two snapshots are a millisecond apart |
| Twap.ExactLookBacks | x/oracle/keeper/keeper.go:132-136 | The average stays between the extreme prices of its window for every store and block time if and only if the look-back is below one millisecond or exceeds whole milliseconds by at most one nanosecond |
| Twap.FractionalLookBackLeavesTheRange | x/oracle/keeper/keeper.go:132-136 | For one: a look-back of 5.5 ms, prices 0 and 10, average 12 |
| Assets.SplitOfJoin | x/common/asset/pair.go:29-32 | Splitting joined parts that do not hold the separator gives the parts back |
| Assets.TryNewPairIsValidation | x/common/asset/pair.go:29-51 | The constructor accepts exactly the valid pairs and returns them unchanged |
| Assets.ValidExactly | x/common/asset/pair.go:87-100 | The valid pairs are exactly two valid denominations with a colon between them |
| Assets.InverseIsAnInvolution | x/common/asset/pair.go:72-84 | For valid pairs `Inverse` swaps base and quote, stays valid and undoes itself |
| VoteText.TupleRoundTrip | x/oracle/types/vote.go:66-113 | A printed tuple with a valid pair is read back |
| VoteText.TupleAcceptsExactly | x/oracle/types/vote.go:83-113 | A text is read as a tuple if and only if it is a valid pair and the text of its rate in brackets, separated by the only comma |
| VoteText.ParseExchangeRateTuples | x/oracle/types/vote.go:132-157 | The parser with its set of pairs seen returns the tuples, or the error of the first part that is malformed or repeats a pair |
| VoteText.TuplesToString | x/oracle/types/vote.go:159-171 | The printer joins the tuples, or returns the error of the first invalid pair |
| VoteText.TuplesRoundTrip | x/oracle/types/vote.go:132-171 | Of the lists with valid pairs, exactly those that are not empty and have no duplicate are read back as they were printed |
| VoteText.EmptyListIsNotReadBack | x/oracle/types/vote.go:85-87 | The empty list prints as the empty text, which is rejected |
| VoteText.ParsedTuplesAreDistinct | x/oracle/types/vote.go:137-154 | What parses is not empty, has valid pairs and no pair twice |
| VoteText.ReprintedTextMeansTheSame | x/oracle/types/vote.go:132-171 | Every text that parses is reprinted to one that parses to the same tuples |
| Wire.EncodeVarint | x/oracle/types/genesis.pb.go:481-491 | The varint ends just before the offset, takes exactly its computed size and nothing else in the buffer changes |
| Wire.SovIsTheLength | x/oracle/types/genesis.pb.go:578-580 | The size by bit length is the number of bytes written |
| Wire.ReadVarintAt | x/oracle/types/genesis.pb.go:1024-1040 | The shift loop reads what the recursive reader reads, with both errors |
| Wire.VarintRoundTrip | x/oracle/types/genesis.pb.go:481-491 | Every 64-bit value is read back, whatever follows it |
| Wire.VarintIsInGroups | x/oracle/types/genesis.pb.go:481-491 | A varint is the value in groups of seven bits, the lowest first, all but the last marked with the high bit, and no longer than needed |
| Skip.SkipGenesis | x/oracle/types/genesis.pb.go:1122-1199 | The loop with its depth counter is the recursive skip, error by error |
| Skip.SkipsField | x/oracle/types/genesis.pb.go:1122-1199 | A well-formed field, nested groups included, is skipped to its last byte at every depth |
| Skip.SkipConsumesTheField | x/oracle/types/genesis.pb.go:1122-1199 | At the top level exactly the field is consumed, whatever follows it |
| Skip.SkipAcceptsExactlyFields | x/oracle/types/genesis.pb.go:1122-1199 | The skip succeeds within the data if and only if the data starts with a well-formed field, which it consumes |
| Skip.SkipIsLocal | x/oracle/types/genesis.pb.go:1122-1199 | Bytes behind what was skipped do not matter |
| GenesisCodec.SizeIsTheLength | x/oracle/types/genesis.pb.go:545-576 | `Size` is the number of bytes of the encoding |
| GenesisCodec.WriteBytesField | x/oracle/types/genesis.pb.go:429-442 | Written backwards, a non-empty field fills exactly its size before the index, and the rest of the buffer is kept |
| GenesisCodec.MissCounterMessage.MarshalToSizedBuffer | x/oracle/types/genesis.pb.go:461-479 | The end of the buffer is the encoding, without a gap, and the front is kept |
| GenesisCodec.MissCounterMessage.Marshal | x/oracle/types/genesis.pb.go:446-454 | The allocated buffer is filled exactly |
| GenesisCodec.MissCounterMessage.Unmarshal | x/oracle/types/genesis.pb.go:1021-1121 | The index loop decodes as the recursive decoder does, with the same error, and ends on every input; on an error too the message is the stated one, a counter that is cut short keeping the bits collected |
| GenesisCodec.FeederDelegationMessage.MarshalToSizedBuffer | x/oracle/types/genesis.pb.go:424-444 | The end of the buffer is the encoding, without a gap, and the front is kept |
| GenesisCodec.FeederDelegationMessage.Marshal | x/oracle/types/genesis.pb.go:409-417 | The allocated buffer is filled exactly |
| GenesisCodec.FeederDelegationMessage.Unmarshal | x/oracle/types/genesis.pb.go:907-1020 | The index loop decodes as the recursive decoder does, with the same error, and ends on every input; on an error too the message is the stated one |
| GenesisCodec.DecodeConcatenation | x/oracle/types/genesis.pb.go:1021-1121 | Decoding two complete parts one behind the other is decoding the second into the message of the first |
| GenesisCodec.LeftAfterFields | x/oracle/types/genesis.pb.go:1021-1121 | An error keeps all fields read before it: what decoding leaves of complete fields and a rest is what it leaves of the rest, starting from the message of the fields |
| GenesisCodec.RoundTrip | x/oracle/types/genesis.pb.go:409-479 | Unmarshal of Marshal is the message, for both messages and all their values |
| GenesisCodec.UnknownFieldsAreInvisible | x/oracle/types/genesis.pb.go:1101-1114 | A well-formed unknown field between fields changes neither the decoded message nor whether there is an error |
| GenesisCodec.FieldNumberIsConverted | x/oracle/types/genesis.pb.go:1041 | The field number is the signed 32-bit integer that the tag without its wire type converts to |
| GenesisCodec.TagHasNumber | x/oracle/types/genesis.pb.go:1041-1042 | For all field numbers of the standard the tag gives back the number and the wire type it was made from |
| Stableswap.Iterate | contrib/scripts/testing/stableswap_model.py:101-106 | The Newton loop ends, never divides by zero and, from 2 or more, returns y with y^2 + by - c <= 1 and (y+1)^2 + b(y+1) - c > 0 |
| Stableswap.NewtonStep | contrib/scripts/testing/stableswap_model.py:105 | One floored step lands where the next number is past the root, and overshoots by at most the square of the step |
| Stableswap.NewtonDescends | contrib/scripts/testing/stableswap_model.py:103-105 | Above the root a step goes down; at the floor of the root it stays or goes up by one |
| Stableswap.NextDivisorIsPositive | contrib/scripts/testing/stableswap_model.py:105 | After a step of 2 or more the next divisor is positive |
| Stableswap.SolutionIsTheFloorRoot | contrib/scripts/testing/stableswap_model.py:101-106 | The returned y is the floor of the exact root, or one more when the quadratic is exactly 1 there |
| Stableswap.ProductRoundsDown | contrib/scripts/testing/stableswap_model.py:96-99 | The floored product of the loop times the denominators never exceeds the power of D |
| Stableswap.ProductLosesLittle | contrib/scripts/testing/stableswap_model.py:96-99 | And it falls short of it by no more than the stated error: less than one of each divisor, carried on by the later factors |
| Stableswap.DenominatorsMultiplied | contrib/scripts/testing/stableswap_model.py:97-98 | The divisors of the loop multiply to n^k times the product of the balances |
| Stableswap.SolutionCompletesPool | contrib/scripts/testing/stableswap_model.py:86-89 | Whatever solves the quadratic of the code completes the pool equation of its comment, from both sides, with explicit errors |
| Stableswap.SumAndProdWithout | contrib/scripts/testing/stableswap_model.py:94 | Leaving out a balance takes it from the sum and from the product |
| Stableswap.Multiply | contrib/scripts/testing/stableswap_model.py:96-99 | The loop over the other balances computes the coefficient c |
| Stableswap.Curve.Xp | contrib/scripts/testing/stableswap_model.py:52-53 | Each balance is scaled by its precision, rounded down |
| Stableswap.Curve.Y | contrib/scripts/testing/stableswap_model.py:81-106 | For every D of 2 or more and positive balances the returned y solves the quadratic and completes the pool: with S and P the sum and product of the others, A n^n (S+y) y + D y - A n^n D y times n^n P exceeds D^(n+1) by no more than the stated multiple of n^n P, and at y + 1 falls short of it by less than D times the error of the floors |
| Stableswap.Curve.YD | contrib/scripts/testing/stableswap_model.py:108-132 | The same for a given invariant, the loop dividing by 2y + b - D |
| Stableswap.Curve.Exchange | contrib/scripts/testing/stableswap_model.py:139-148 | The assertion fails exactly if the balance found is not below the old one, and then nothing changes; otherwise the balances are set from what was paid in and from the balance that completes the pool, and the fee is kept back |
| Stableswap.Curve.BalancesAfter | contrib/scripts/testing/stableswap_model.py:52-53 | At default precision without a fee the pool reads back the amount paid in and the balance found, and the others as before |
| Decimal.ChopPrecisionAndRound | x/common/dec.go:126-156 | The result is a nearest integer, and even at a tie |
| Decimal.ChopIsTheNearestEven | x/common/dec.go:126-156 | Nothing else is nearest and even at a tie |
| Decimal.ChopIsOdd | x/common/dec.go:126-134 | Rounding commutes with negation |
| Decimal.ChopIsMonotone | x/common/dec.go:126-156 | Rounding keeps the order |
| Decimal.ScaledCoinIsExact | x/oracle/keeper/reward.go:52 | An integer amount times a fraction does not round before it is truncated |
| Decimal.TruncatedQuotient | x/oracle/keeper/slash.go:14-19 | An integer divided as a decimal and truncated is the integer quotient |
| Ewma.VariableEWMA.constructor | x/common/ewma/ewma.go:12-15 | A new average has value zero and decay 2 / (span + 1) |
| Ewma.NewMovingAverage | x/common/ewma/ewma.go:11-16 | It panics, by a division by zero, exactly at span -1; else it returns a new average |
| Ewma.VariableEWMA.Add | x/common/ewma/ewma.go:23-32 | One input takes the value to the rounded combination, or replaces a zero value |
| Ewma.VariableEWMA.AddAll | x/common/ewma/ewma.go:23-32 | Feeding inputs one by one is folding them |
| Ewma.DecayOfSpan | x/common/ewma/ewma.go:14 | The decay is 2 / (span + 1) up to half a unit of the 18th decimal and one of the 36th |
| Ewma.NextIsTheCombination | x/common/ewma/ewma.go:24-31 | A step replaces a zero value by the input, and is else within one unit of value * (1 - decay) + input * decay |
| Ewma.DecayInUnitInterval | x/common/ewma/ewma.go:14 | For a span of at least 1 the decay lies in [0, 1] |
| Ewma.AverageStaysNearItsInputs | x/common/ewma/ewma.go:23-32 | After k inputs in [lo, hi] the average is at most k - 1 units of the 18th decimal outside, resets included, and however many follow the drift stays below any e with e times decay at least 1 |
| Ewma.AverageOfSpan | x/common/ewma/ewma.go:11-32 | The first bound, for every span of at least 1 |
| Epochs.EpochsKeeper.AddEpochInfo | x/epochs/keeper/epoch.go:40-59 | Invalid or known epochs are rejected with the first error and nothing changes; others are stored with the block height and, if unset, the block time |
| Epochs.EpochsKeeper.BeginBlocker | x/epochs/abci.go:15-57 | Every stored epoch ticks once, each identifier sees exactly the hooks of its own boundary in order, and inflation sees those of the day epoch, whatever the iteration order; afterwards no epoch whose start time has come is overdue |
| Epochs.EpochsKeeper.BeginBlocks | x/epochs/abci.go:15-57 | Block after block every stored epoch goes through its own run with its own trace, and inflation through that of the day epoch |
| Epochs.EpochsKeeper.Visit | x/epochs/abci.go:17-72 | An epoch starts exactly if its start time has come and it was not counting yet or its duration is over; it ends the old epoch before it starts the next, and nothing else changes |
| Epochs.TraceAlternates | x/epochs/abci.go:15-72 | From a fresh epoch the trace is Start 1, End 1, Start 2, ... without a gap, the starts are block times at least one duration apart, and the current epoch counts them |
| Epochs.EpochsFitInTheTime | x/epochs/abci.go:63-72 | With block times that do not decrease the current epoch is at most 1 + (now - first start) / duration |
| Epochs.NothingIsOverdue | x/epochs/abci.go:63-72 | After a block every epoch of positive duration whose start time has come is counting and not over |
| Epochs.EpochsKeepUp | x/epochs/abci.go:63-72 | With block gaps of at most g, counting starts with the first block at or after the start time, every later start comes less than a duration and g after the one before, and the current epoch is at least 1 + floor((now - first start) / (duration + g)) |
| Epochs.StoreKeepsUp | x/epochs/abci.go:15-72 | So it is for every fresh epoch of a store |
| Epochs.DayEpochDrivesInflation | x/inflation/keeper/hooks.go:19-81 | Composed with the scheduler and inflation toggled at will, for any provisions: after m mints the period is floor((m-1)/E), the m-th mint used period floor((m-2)/E) for m of 2 or more with a positive provision, and an epoch neither minted nor skipped means the period has no positive provision |
| Epochs.FreshStoreRun | x/epochs/abci.go:15-72 | Over a store of fresh epochs the recorded trace of every identifier alternates with spaced starts, and inflation is on the schedule of the day epoch |
| Inflation.InflationKeeper.AfterEpochEnd | x/inflation/keeper/hooks.go:19-81 | Only the day epoch counts; a disabled epoch is counted as skipped, and otherwise the mint comes before the test for the next period |
| Inflation.PeriodAdvances | x/inflation/keeper/hooks.go:77-81 | The strict test advances the period exactly where the closed form does: period 0 has E + 1 mints, later ones E |
| Inflation.EpochKeepsSchedule | x/inflation/keeper/hooks.go:19-81 | One more epoch, on or off, keeps the closed forms of periods and mints, for any provisions |
| Inflation.MintsUpToPeriod | x/inflation/keeper/hooks.go:44-81 | On schedule there are at most E * p + 1 mints if period p has no positive provision |
| Inflation.NoProvisionNoProgress | x/inflation/keeper/hooks.go:49-55 | Without a positive provision no number of epochs, with inflation on or off, mints or moves the period: only the skipped ones are counted |
| Inflation.MintsAreTheEnabledEpochs | x/inflation/keeper/hooks.go:26-62 | Over any list of ended epochs the skipped ones are exactly the disabled ones, disabled epochs never mint or move the period, and with positive provisions every enabled one mints |
| Inflation.MintingEndsExactly | x/inflation/keeper/hooks.go:49-55 | Nothing is ever minted again if and only if the current period has no positive provision |

## Left out

- The fixed point `D` of the stableswap script, its fees on imbalanced removals and the removal of liquidity: `D` is a parameter of the methods, so termination of its own loop is not claimed.
- Balances that are zero or negative in the stableswap script: there the divisions of the loop can fail; the methods ask for positive ones.
- Cosmos SDK internals: staking, bank and distribution are validator records, amounts and credits; bech32, key encoders and store errors do not occur.
- Staking's power index is taken to refer to existing validators; a validator that vanishes before it is slashed is modelled, as a halt.
- The vote hash, `ValidateDenom` and the text of decimals are parameters: an arbitrary function, a predicate whose names hold no separator, and a printer with a left inverse whose texts hold none.
- `StandardDeviation`: the square root by way of `float64` and text is an arbitrary non-negative function of the variance; the decimal panics it recovers from do not occur.
- Panics of `sdk.Dec` and `sdk.Int` on too many bits, and overflow of `int64` powers, prices times milliseconds, epochs and provisions; heights, and sums of a height and a vote period, are assumed to fit an `int64`.
- Changes of parameters other than the whitelist during a run; `Params.Get` failing.
- Genesis import and export: runs start from empty stores (any height, whitelist and feeders).
- What slashing and jailing do to staking: the model says who is slashed and jailed, and staking may change arbitrarily before the next step.
- Slashing.WrappedRateIsExact: stated, like the other results on the rate, for slash windows below 2^63, as no other window ends in a run.
- MissCounters.TheBoundIsReached: asks that VP windows fit below the greatest height, as the run takes up to that many.
- Events, logs, telemetry, queries, commands, the ante gas decorator and app wiring: plumbing.
- `GenesisState` and the other generated messages, `MarshalTo`, JSON of pairs: repeats of the same code, or easy.
- Strings are sequences of characters and message fields sequences of bytes; UTF-8 is not modelled.
- `MintAndAllocateInflation` and the provision polynomial: a provision per period is a parameter and a mint is recorded.
- Hooks other than inflation's: the trace of hooks is recorded, receivers other than inflation are not called; `DeleteEpochInfo` does not occur in a run.
- `ToCrossRate`, `WeightedMedian` without the assertion and the square roots of `x/common/dec.go`: unused by the tally, or easy.
