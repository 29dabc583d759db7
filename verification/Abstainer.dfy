/** What the protocol grants a diligent feeder: its reveal is accepted, and abstaining on every pair is no miss. */
module Abstainer {
  import opened Prelude
  import opened Assets
  import opened VoteText
  import opened Ballots
  import opened Rewards
  import opened OracleState
  import opened OracleRuns
  import opened CommitReveal
  import opened TallyProperties

  // ---- a reveal is accepted

  /** A prevote waits, unless the feeder replaces or reveals it, to the end of the period after its own. */
  lemma {:induction false} PrevoteWaits(params: Params, r: Run, i: nat, k: nat, v: Address)
    requires ValidPeriods(params) && IsRun(params, r) && i < k <= |r.steps|
    requires Commits(r, i, v) && Quiet(params, r, v, i, k)
    requires PeriodOf(params, r.states[k]) <= PeriodOf(params, r.states[i]) + 1
    ensures r.steps[i].SubmitPrevote?
    ensures v in r.states[k].prevotes
    ensures r.states[k].prevotes[v] == Prevote(Lower(r.steps[i].hash), v, r.states[i].height)
    decreases k
  {
    hide Exec, Commits, Reveals, Lower, IsPeriodLastBlock;
    CommitIsNoBlock(r, i, v);
    PrevoteStep(params, r, k - 1, v);
    if i < k - 1 {
      var before := r.states[k - 1];
      HeightGrows(params, before, r.steps[k - 1], r.states[k]);
      HeightsAreMonotone(params, r, i, k - 1);
      QuotientMonotone(r.states[i].height, before.height, params.votePeriod);
      QuotientMonotone(before.height, r.states[k].height, params.votePeriod);
      PrevoteWaits(params, r, i, k - 1, v);
      if r.steps[k - 1].EndOfBlock? && IsPeriodLastBlock(before.height, params.votePeriod) {
        NextPeriod(before.height, params.votePeriod);
        ClearedByPeriod(r.states[i].height, before.height, params.votePeriod);
      }
    }
  }

  /** Step `j` shows what the feeder of `v` committed to at step `i`, one period before, with nothing in between. */
  ghost predicate Opens(params: Params, r: Run, i: nat, j: nat, v: Address)
    requires ValidPeriods(params) && j < |r.steps| && j < |r.states|
  {
    && i < j && Commits(r, i, v) && Quiet(params, r, v, i, j)
    && r.steps[i].SubmitPrevote? && r.steps[j].RevealVote?
    && PeriodOf(params, r.states[j]) == PeriodOf(params, r.states[i]) + 1
    && Lower(r.steps[i].hash) == params.voteHash(r.steps[j].salt, r.steps[j].rates, v)
  }

  ghost predicate AllListed(whitelist: set<Pair>, ts: seq<ExchangeRateTuple>) {
    forall k | 0 <= k < |ts| :: ts[k].pair in whitelist
  }

  lemma {:induction false} UnknownPairIsFound(whitelist: set<Pair>, ts: seq<ExchangeRateTuple>)
    ensures UnknownPairIn(whitelist, ts).None? <==> AllListed(whitelist, ts)
    ensures UnknownPairIn(whitelist, ts).Some? ==>
              exists k :: 0 <= k < |ts| && AllListed(whitelist, ts[..k]) && ts[k].pair !in whitelist &&
                          UnknownPairIn(whitelist, ts).value == ts[k].pair
  {
    if ts != [] {
      UnknownPairIsFound(whitelist, ts[1..]);
      assert forall k | 0 < k < |ts| :: ts[k] == ts[1..][k - 1];
      if ts[0].pair !in whitelist {
        assert AllListed(whitelist, ts[..0]);
      } else if UnknownPairIn(whitelist, ts[1..]).Some? {
        var k :| 0 <= k < |ts[1..]| && AllListed(whitelist, ts[1..][..k]) && ts[1..][k].pair !in whitelist &&
                 UnknownPairIn(whitelist, ts[1..]).value == ts[1..][k].pair;
        var front := ts[..k + 1];
        forall j | 0 <= j < |front|
          ensures front[j].pair in whitelist
        {
          assert 0 < j ==> front[j] == ts[1..][..k][j - 1];
        }
        assert AllListed(whitelist, front) && ts[k + 1] == ts[1..][k];
      }
    }
  }

  /** The text parses and names only whitelisted pairs. */
  ghost predicate Readable(params: Params, s: State, rates: string) {
    ParseTuples(params.sdk, rates).Ok? && AllListed(s.whitelistedPairs, ParseTuples(params.sdk, rates).value)
  }

  /** A reveal in a run is accepted if and only if it comes from an allowed feeder, opens the commitment of the period
      before, and its text is readable. */
  lemma RevealAcceptedExactly(params: Params, r: Run, j: nat, v: Address)
    requires ValidPeriods(params) && IsRun(params, r) && j < |r.steps|
    requires r.steps[j].RevealVote? && r.steps[j].validator == v
    ensures Reveals(params, r, j, v) <==>
              && FeederError(r.states[j].feederDelegations, r.steps[j].st, r.steps[j].feeder, v).None?
              && (exists i :: Opens(params, r, i, j, v))
              && Readable(params, r.states[j], r.steps[j].rates)
  {
    if Reveals(params, r, j, v) {
      RevealIsAllowed(params, r, j, v);
      hide Exec, Reveals, Lower, Readable, FeederError;
      var i := RevealMatchesCommit(params, r, j, v);
      CommitIsNoBlock(r, i, v);
      assert Opens(params, r, i, j, v);
    } else if FeederError(r.states[j].feederDelegations, r.steps[j].st, r.steps[j].feeder, v).None? &&
              (exists i :: Opens(params, r, i, j, v)) && Readable(params, r.states[j], r.steps[j].rates) {
      var i :| Opens(params, r, i, j, v);
      OpeningIsAccepted(params, r, i, j, v);
    }
  }

  /** Which check of a reveal fails first. */
  lemma RevealErrorsExactly(params: Params, s: State, st: Staking, feeder: Address, v: Address, salt: string,
      rates: string)
    requires 1 <= params.votePeriod
    ensures var error := RevealError(params, s, st, feeder, v, salt, rates);
            var allowed := FeederError(s.feederDelegations, st, feeder, v).None?;
            var late := v in s.prevotes && PeriodsSince(params, s.height, s.prevotes[v].submitBlock) != 1;
            var parsed := ParseTuples(params.sdk, rates);
            && (!allowed ==> error == FeederError(s.feederDelegations, st, feeder, v))
            && (error == Some(NoAggregatePrevote) <==> allowed && v !in s.prevotes)
            && (error == Some(RevealPeriodMissMatch) <==> allowed && late)
            && ((exists e :: error == Some(InvalidRates(e))) <==>
                  allowed && v in s.prevotes && !late && parsed.Err?)
            && ((exists p :: error == Some(UnknownPair(p))) <==>
                  allowed && v in s.prevotes && !late && parsed.Ok? && !AllListed(s.whitelistedPairs, parsed.value))
            && (error == Some(VerificationFailed) <==>
                  allowed && v in s.prevotes && !late && Readable(params, s, rates) &&
                  s.prevotes[v].hash != params.voteHash(salt, rates, v))
  {
    hide ParseTuples, PeriodsSince, UnknownPairIn, AllListed;
    if ParseTuples(params.sdk, rates).Ok? {
      UnknownPairIsFound(s.whitelistedPairs, ParseTuples(params.sdk, rates).value);
    }
    FeederErrors(s.feederDelegations, st, feeder, v);
    hide FeederError;
  }

  lemma FeederErrors(delegations: map<Address, Address>, st: Staking, feeder: Address, v: Address)
    ensures FeederError(delegations, st, feeder, v) in [None, Some(NoVotingPermission), Some(NoValidatorFound)]
  {
  }

  lemma RevealIsAllowed(params: Params, r: Run, j: nat, v: Address)
    requires ValidPeriods(params) && j < |r.steps| && j < |r.states| && Reveals(params, r, j, v)
    ensures r.steps[j].RevealVote?
    ensures FeederError(r.states[j].feederDelegations, r.steps[j].st, r.steps[j].feeder, v).None?
    ensures Readable(params, r.states[j], r.steps[j].rates)
  {
    hide FeederError, ParseTuples, PeriodsSince, UnknownPairIn;
    if ParseTuples(params.sdk, r.steps[j].rates).Ok? {
      UnknownPairIsFound(r.states[j].whitelistedPairs, ParseTuples(params.sdk, r.steps[j].rates).value);
    }
  }

  lemma OpeningIsAccepted(params: Params, r: Run, i: nat, j: nat, v: Address)
    requires ValidPeriods(params) && IsRun(params, r) && j < |r.steps|
    requires r.steps[j].RevealVote? && r.steps[j].validator == v && Opens(params, r, i, j, v)
    requires FeederError(r.states[j].feederDelegations, r.steps[j].st, r.steps[j].feeder, v).None?
    requires Readable(params, r.states[j], r.steps[j].rates)
    ensures Reveals(params, r, j, v)
  {
    hide Exec, Commits, FeederError, ParseTuples, PeriodsSince, UnknownPairIn, Lower;
    PrevoteWaits(params, r, i, j, v);
    NoUnderflow(params, r, j, v);
    UnknownPairIsFound(r.states[j].whitelistedPairs, ParseTuples(params.sdk, r.steps[j].rates).value);
  }

  // ---- the vote is counted

  /** An accepted reveal is the stored vote to the end of its period. */
  lemma {:induction false} VoteOfThePeriodStays(params: Params, r: Run, j: nat, k: nat, v: Address)
    requires ValidPeriods(params) && IsRun(params, r) && j < k <= |r.steps|
    requires Reveals(params, r, j, v) && PeriodOf(params, r.states[j]) == PeriodOf(params, r.states[k])
    ensures r.steps[j].RevealVote?
    ensures v in r.states[k].votes
    ensures r.states[k].votes[v] == Vote(ParseTuples(params.sdk, r.steps[j].rates).value, v)
    ensures r.states[k].whitelistedPairs == r.states[j].whitelistedPairs
    decreases k
  {
    hide Exec, Commits, Reveals, Lower, IsPeriodLastBlock, ParseTuples;
    RevealIsNoBlock(params, r, j, v);
    VoteStep(params, r, k - 1, v);
    var before := r.states[k - 1];
    HeightGrows(params, before, r.steps[k - 1], r.states[k]);
    HeightsAreMonotone(params, r, j, k - 1);
    QuotientMonotone(r.states[j].height, before.height, params.votePeriod);
    NextPeriod(before.height, params.votePeriod);
    WhitelistStep(params, r, k - 1);
    if j < k - 1 {
      VoteOfThePeriodStays(params, r, j, k - 1, v);
      if Reveals(params, r, k - 1, v) {
        OneRevealPerPeriod(params, r, j, k - 1, v);
        assert false;
      }
    }
  }

  /** The stored whitelist changes in a tally only. */
  lemma WhitelistStep(params: Params, r: Run, k: nat)
    requires ValidPeriods(params) && IsRun(params, r) && k < |r.steps|
    ensures k + 1 < |r.states|
    ensures !(r.steps[k].EndOfBlock? && IsPeriodLastBlock(r.states[k].height, params.votePeriod)) ==>
              r.states[k + 1].whitelistedPairs == r.states[k].whitelistedPairs
  {
    hide EndBlock, PrevoteError, RevealError, PerPeriod, Lower, ParseTuples, IsPeriodLastBlock;
    match r.steps[k]
    case EndOfBlock(st, time) => BlockIsTally(params, r.states[k], st, time, r.states[k + 1]);
    case _ =>
  }

  // ---- abstaining is no miss

  /** The tuples abstain on every one of the pairs. */
  ghost predicate AbstainsOn(ts: seq<ExchangeRateTuple>, pairs: set<Pair>) {
    forall p | p in pairs :: p in ToMap(ts) && ToMap(ts)[p] <= 0
  }

  /** In the period of state `e` an allowed feeder of `v` opened its commitment with a readable text that abstains on
      every whitelisted pair. */
  ghost predicate Abstained(params: Params, r: Run, e: nat, v: Address, i: nat, j: nat)
    requires ValidPeriods(params) && e < |r.steps| && e < |r.states|
  {
    && j < e && Opens(params, r, i, j, v) && PeriodOf(params, r.states[j]) == PeriodOf(params, r.states[e])
    && r.steps[j].validator == v
    && FeederError(r.states[j].feederDelegations, r.steps[j].st, r.steps[j].feeder, v).None?
    && Readable(params, r.states[j], r.steps[j].rates)
    && AbstainsOn(ParseTuples(params.sdk, r.steps[j].rates).value, r.states[j].whitelistedPairs)
  }

  lemma AbstainerVotes(params: Params, r: Run, e: nat, v: Address, i: nat, j: nat)
    requires ValidPeriods(params) && IsRun(params, r) && e < |r.steps| && Abstained(params, r, e, v, i, j)
    ensures v in r.states[e].votes && AbstainsOn(r.states[e].votes[v].tuples, r.states[e].whitelistedPairs)
  {
    hide Exec, Opens, Readable, FeederError, Commits, Reveals, ParseTuples, AbstainsOn;
    OpensIsReveal(params, r, i, j, v);
    OpeningIsAccepted(params, r, i, j, v);
    VoteOfThePeriodStays(params, r, j, e, v);
  }

  lemma OpensIsReveal(params: Params, r: Run, i: nat, j: nat, v: Address)
    requires ValidPeriods(params) && j < |r.steps| && j < |r.states| && Opens(params, r, i, j, v)
    ensures r.steps[j].RevealVote?
  {
  }

  /** A tally that finds such a vote adds no miss. */
  lemma AbstentionWins(params: Params, s: State, st: Staking, time: int, v: Address)
    requires Consistent(st) && Tallied(params, s, st, time).Some?
    requires v in s.votes && AbstainsOn(s.votes[v].tuples, s.whitelistedPairs)
    ensures CounterOf(Tallied(params, s, st, time).value.missCounters, v) == CounterOf(s.missCounters, v)
  {
    hide Tallied, ActivePowers, CounterOf;
    var powers := ActivePowers(st);
    TallyMisses(params, s, st, time, v);
    hide FailedPairs;
    if v in powers {
      forall p | p in RequiredPairs(params, st, s, powers)
        ensures Wins(params, PairBallots(s.votes, powers, p), v)
      {
        AbstainerWins(params, s.votes, powers, p, v);
      }
    }
    hide Wins, PairBallots;
  }

  lemma AbstainerWins(params: Params, votes: Votes, powers: Powers, p: Pair, v: Address)
    requires v in votes && v in powers && p in ToMap(votes[v].tuples) && ToMap(votes[v].tuples)[p] <= 0
    ensures Wins(params, PairBallots(votes, powers, p), v)
  {
    hide RewardSpread, Median, ToMap;
  }

  /** Step `e` ends a vote period. */
  ghost predicate EndsPeriod(params: Params, r: Run, e: nat)
    requires ValidPeriods(params) && e < |r.steps| && e < |r.states|
  {
    r.steps[e].EndOfBlock? && IsPeriodLastBlock(r.states[e].height, params.votePeriod)
  }

  ghost predicate AbstainedIn(params: Params, r: Run, e: nat, v: Address)
    requires ValidPeriods(params) && e < |r.steps| && e < |r.states|
  {
    exists i, j :: Abstained(params, r, e, v, i, j)
  }

  /** The feeder of `v` abstained in the period of every tally from step `a` up to before `k`. */
  ghost predicate AlwaysAbstains(params: Params, r: Run, v: Address, a: nat, k: nat)
    requires ValidPeriods(params) && k <= |r.steps| && k <= |r.states|
  {
    forall e | a <= e < k && EndsPeriod(params, r, e) :: AbstainedIn(params, r, e, v)
  }

  /** A validator whose feeder abstains on every whitelisted pair in the period of every tally gets no miss from any
      state of a run on, however many other validators vote and whatever they vote. */
  lemma {:induction false} AbstainerNeverMisses(params: Params, r: Run, a: nat, k: nat, v: Address)
    requires ValidPeriods(params) && IsRun(params, r) && a <= k <= |r.steps| && AlwaysAbstains(params, r, v, a, k)
    ensures CounterOf(r.states[k].missCounters, v) <= CounterOf(r.states[a].missCounters, v)
    decreases k
  {
    hide IsRun, CounterOf, EndsPeriod, AbstainedIn, ValidPeriods;
    if a < k {
      AbstainerNeverMisses(params, r, a, k - 1, v);
      CountersStep(params, r, k - 1, v);
    }
  }

  lemma CountersStep(params: Params, r: Run, e: nat, v: Address)
    requires ValidPeriods(params) && IsRun(params, r) && e < |r.steps|
    requires EndsPeriod(params, r, e) ==> AbstainedIn(params, r, e, v)
    ensures e + 1 < |r.states|
    ensures CounterOf(r.states[e + 1].missCounters, v) <= CounterOf(r.states[e].missCounters, v)
  {
    var s, step, t := r.states[e], r.steps[e], r.states[e + 1];
    hide Exec, Abstained, IsPeriodLastBlock, Tallied;
    assert Exec(params, s, step) == Some(t);
    if step.EndOfBlock? {
      BlockIsTally(params, s, step.st, step.time, t);
      if IsPeriodLastBlock(s.height, params.votePeriod) {
        var i, j :| Abstained(params, r, e, v, i, j);
        AbstainerVotes(params, r, e, v, i, j);
        AbstentionWins(params, s, step.st, step.time, v);
      }
    } else {
      MessageKeepsCounters(params, s, step, t);
    }
  }
}
