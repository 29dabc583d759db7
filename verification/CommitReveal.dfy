/** The commit-reveal scheme over whole runs: what is tallied was revealed in its period, and what is
    revealed was committed to in the period before. */
module CommitReveal {
  import opened Prelude
  import opened Assets
  import opened VoteText
  import opened Ballots
  import opened Rewards
  import opened OracleState
  import opened OracleRuns

  /** Step `k` stored a prevote of `v`. */
  ghost predicate Commits(r: Run, k: nat, v: Address)
    requires k < |r.steps| && k < |r.states|
  {
    match r.steps[k]
    case SubmitPrevote(st, feeder, validator, hash) =>
      validator == v && PrevoteError(r.states[k], st, feeder, validator, hash).None?
    case _ => false
  }

  /** Step `k` stored a vote of `v`. */
  ghost predicate Reveals(params: Params, r: Run, k: nat, v: Address)
    requires ValidPeriods(params) && k < |r.steps| && k < |r.states|
  {
    match r.steps[k]
    case RevealVote(st, feeder, validator, salt, rates) =>
      validator == v && RevealError(params, r.states[k], st, feeder, validator, salt, rates).None?
    case _ => false
  }

  function PeriodOf(params: Params, s: State): nat
    requires ValidPeriods(params)
  {
    s.height / params.votePeriod
  }

  // ---- arithmetic of periods

  /** The last block of a period is the only one behind which the period number changes. */
  lemma NextPeriod(height: nat, period: nat)
    requires 1 <= period
    ensures (height + 1) / period == height / period + if IsPeriodLastBlock(height, period) then 1 else 0
  {
    var q := height / period;
    DivisionBounds(height, period);
    DivisionBounds(height + 1, period);
    ExactMultiple(height + 1, period);
    assert (q + 2) * period == (q + 1) * period + period;
    if height + 1 == (q + 1) * period {
      MultipleRemainder(q + 1, period);
      QuotientIs(height + 1, period, q + 1);
    } else {
      QuotientIs(height + 1, period, q);
    }
  }

  /** At the last block of a period exactly the prevotes of that period are kept. */
  lemma ClearedByPeriod(submitBlock: nat, height: nat, period: nat)
    requires 1 <= period && submitBlock <= height && IsPeriodLastBlock(height, period)
    ensures height < submitBlock + period <==> submitBlock / period == height / period
  {
    var q := height / period;
    NextPeriod(height, period);
    ExactMultiple(height + 1, period);
    assert height + 1 == (q + 1) * period == q * period + period;
    QuotientMonotone(submitBlock, height, period);
    DivisionBounds(submitBlock, period);
    if q * period <= submitBlock {
      QuotientAtLeast(submitBlock, period, q);
    } else {
      DivisionBounds(submitBlock, period);
      if submitBlock / period == q {
        assert false;
      }
    }
  }

  // ---- where stored prevotes and votes come from

  /** Prevotes of `v` change by commits, reveals and clearing only. */
  lemma PrevoteStep(params: Params, r: Run, k: nat, v: Address)
    requires ValidPeriods(params) && IsRun(params, r) && k < |r.steps|
    ensures var s, t := r.states[k], r.states[k + 1];
            if Commits(r, k, v) then
              v in t.prevotes && t.prevotes[v] == Prevote(Lower(r.steps[k].hash), v, s.height)
            else if Reveals(params, r, k, v) then v !in t.prevotes
            else if r.steps[k].EndOfBlock? && IsPeriodLastBlock(s.height, params.votePeriod) then
              (v in t.prevotes <==> v in s.prevotes && s.height < s.prevotes[v].submitBlock + params.votePeriod) &&
              (v in t.prevotes ==> t.prevotes[v] == s.prevotes[v])
            else (v in t.prevotes <==> v in s.prevotes) && (v in t.prevotes ==> t.prevotes[v] == s.prevotes[v])
  {
    hide EndBlock, PrevoteError, RevealError, PerPeriod, Lower, ParseTuples, IsPeriodLastBlock;
    match r.steps[k]
    case EndOfBlock(st, time) => BlockFields(params, r.states[k], st, time, r.states[k + 1]);
    case _ =>
  }

  /** Votes of `v` change by reveals and by the tally only. */
  lemma VoteStep(params: Params, r: Run, k: nat, v: Address)
    requires ValidPeriods(params) && IsRun(params, r) && k < |r.steps|
    ensures var s, t := r.states[k], r.states[k + 1];
            if Reveals(params, r, k, v) then
              v in t.votes && t.votes[v] == Vote(ParseTuples(params.sdk, r.steps[k].rates).value, v)
            else if r.steps[k].EndOfBlock? && IsPeriodLastBlock(s.height, params.votePeriod) then v !in t.votes
            else (v in t.votes <==> v in s.votes) && (v in t.votes ==> t.votes[v] == s.votes[v])
  {
    hide EndBlock, PrevoteError, RevealError, PerPeriod, Lower, ParseTuples, IsPeriodLastBlock;
    match r.steps[k]
    case EndOfBlock(st, time) => BlockFields(params, r.states[k], st, time, r.states[k + 1]);
    case _ =>
  }

  /** Between `i` and `k` the validator neither committed nor revealed. */
  ghost predicate Quiet(params: Params, r: Run, v: Address, i: nat, k: nat)
    requires ValidPeriods(params) && k <= |r.steps| && k <= |r.states|
  {
    forall j | i < j < k :: !Commits(r, j, v) && !Reveals(params, r, j, v)
  }

  /** Step `i` committed to the prevote `p`, and `v` did nothing since. */
  ghost predicate CommittedAt(params: Params, r: Run, v: Address, i: nat, k: nat, p: Prevote)
    requires ValidPeriods(params) && k <= |r.steps| && k <= |r.states|
  {
    i < k && Commits(r, i, v) && p == Prevote(Lower(r.steps[i].hash), v, r.states[i].height) &&
        Quiet(params, r, v, i, k)
  }

  /** Every stored prevote is the last one its validator's feeder submitted, unrevealed since. */
  lemma {:induction false} StoredPrevote(params: Params, r: Run, k: nat, v: Address) returns (i: nat)
    requires ValidPeriods(params) && IsRun(params, r) && k <= |r.steps|
    requires v in r.states[k].prevotes
    ensures CommittedAt(params, r, v, i, k, r.states[k].prevotes[v])
  {
    hide Commits, Reveals, Lower, IsPeriodLastBlock, Exec;
    PrevoteStep(params, r, k - 1, v);
    if Commits(r, k - 1, v) {
      i := k - 1;
    } else {
      i := StoredPrevote(params, r, k - 1, v);
    }
  }

  /** Every stored vote is a reveal of the current period, its validator's last, with the tuples of its text. */
  lemma {:induction false} StoredVote(params: Params, r: Run, k: nat, v: Address) returns (j: nat)
    requires ValidPeriods(params) && IsRun(params, r) && k <= |r.steps|
    requires v in r.states[k].votes
    ensures j < k && Reveals(params, r, j, v)
    ensures r.states[k].votes[v] == Vote(ParseTuples(params.sdk, r.steps[j].rates).value, v)
    ensures PeriodOf(params, r.states[j]) == PeriodOf(params, r.states[k])
    ensures forall m | j < m < k :: !Reveals(params, r, m, v)
  {
    hide Commits, Reveals, Lower, IsPeriodLastBlock, Exec, ParseTuples;
    VoteStep(params, r, k - 1, v);
    HeightGrows(params, r.states[k - 1], r.steps[k - 1], r.states[k]);
    NextPeriod(r.states[k - 1].height, params.votePeriod);
    if Reveals(params, r, k - 1, v) {
      j := k - 1;
      RevealIsNoBlock(params, r, j, v);
    } else {
      j := StoredVote(params, r, k - 1, v);
    }
  }

  lemma RevealIsNoBlock(params: Params, r: Run, k: nat, v: Address)
    requires ValidPeriods(params) && k < |r.steps| && k < |r.states| && Reveals(params, r, k, v)
    ensures r.steps[k].RevealVote? && r.steps[k].validator == v
  {
  }

  /** In a reachable state the difference of periods never underflows: its `uint64` is the difference itself. */
  lemma NoUnderflow(params: Params, r: Run, k: nat, v: Address)
    requires ValidPeriods(params) && IsRun(params, r) && k <= |r.steps|
    requires v in r.states[k].prevotes
    ensures r.states[k].prevotes[v].submitBlock <= r.states[k].height
    ensures PeriodsSince(params, r.states[k].height, r.states[k].prevotes[v].submitBlock)
         == PeriodOf(params, r.states[k]) - r.states[k].prevotes[v].submitBlock / params.votePeriod
  {
    hide Exec, IsRun;
    HeightsFit(params, r, k);
    var s := r.states[k];
    ReachableIsWellFormed(params, r, k);
    assert WellFormedPrevotes(s.prevotes, s.height);
    DifferenceOfPeriods(params, s.height, s.prevotes[v].submitBlock);
  }

  lemma HeightsFit(params: Params, r: Run, k: nat)
    requires ValidPeriods(params) && IsRun(params, r) && k <= |r.steps|
    ensures k < |r.states| && r.states[k].height < TWO63
  {
    hide Exec;
  }

  lemma DifferenceOfPeriods(params: Params, height: nat, submitBlock: nat)
    requires ValidPeriods(params) && submitBlock <= height < TWO63
    ensures PeriodsSince(params, height, submitBlock) == height / params.votePeriod - submitBlock / params.votePeriod
  {
    QuotientMonotone(submitBlock, height, params.votePeriod);
    QuotientAtMost(height, params.votePeriod);
    DivisionBounds(submitBlock, params.votePeriod);
  }

  /** A reveal opens the last thing its validator's feeder did: a prevote of the period before, whose
      hash is that of the revealed salt, rates and validator. */
  lemma RevealMatchesCommit(params: Params, r: Run, j: nat, v: Address) returns (i: nat)
    requires ValidPeriods(params) && IsRun(params, r) && j < |r.steps| && Reveals(params, r, j, v)
    ensures i < j && Commits(r, i, v) && Quiet(params, r, v, i, j)
    ensures Lower(r.steps[i].hash) == params.voteHash(r.steps[j].salt, r.steps[j].rates, v)
    ensures PeriodOf(params, r.states[j]) == PeriodOf(params, r.states[i]) + 1
  {
    RevealNeedsPrevote(params, r, j, v);
    hide Exec, Reveals, Lower;
    i := StoredPrevote(params, r, j, v);
    NoUnderflow(params, r, j, v);
  }

  lemma RevealNeedsPrevote(params: Params, r: Run, j: nat, v: Address)
    requires ValidPeriods(params) && j < |r.steps| && j < |r.states| && Reveals(params, r, j, v)
    ensures r.steps[j].RevealVote? && v in r.states[j].prevotes
    ensures var p := r.states[j].prevotes[v];
            && PeriodsSince(params, r.states[j].height, p.submitBlock) == 1
            && p.hash == params.voteHash(r.steps[j].salt, r.steps[j].rates, v)
  {
    hide ParseTuples, FeederError, PeriodsSince, UnknownPairIn;
  }

  /** Two reveals of one validator are in different periods, so its vote is written at most once a
      period; and since a reveal follows its own prevote with nothing between, no prevote is revealed twice. */
  lemma OneRevealPerPeriod(params: Params, r: Run, j: nat, k: nat, v: Address)
    requires ValidPeriods(params) && IsRun(params, r) && j < k < |r.steps|
    requires Reveals(params, r, j, v) && Reveals(params, r, k, v)
    ensures PeriodOf(params, r.states[j]) < PeriodOf(params, r.states[k])
  {
    var i := RevealMatchesCommit(params, r, k, v);
    assert j <= i;
    HeightsAreMonotone(params, r, j, i);
    QuotientMonotone(r.states[j].height, r.states[i].height, params.votePeriod);
  }

  /** Every ballot of a tally: the rate its voter revealed in this period, to which the voter's feeder
      had committed in the period before. */
  lemma BallotsAreCommittedAndRevealed(params: Params, r: Run, e: nat, powers: Powers, pair: Pair, v: Address)
    returns (i: nat, j: nat)
    requires ValidPeriods(params) && IsRun(params, r) && e < |r.steps|
    requires v in PairBallots(r.states[e].votes, powers, pair)
    ensures i < j < e && Commits(r, i, v) && Reveals(params, r, j, v)
    ensures PeriodOf(params, r.states[j]) == PeriodOf(params, r.states[e]) == PeriodOf(params, r.states[i]) + 1
    ensures Lower(r.steps[i].hash) == params.voteHash(r.steps[j].salt, r.steps[j].rates, v)
    ensures var rates := ToMap(ParseTuples(params.sdk, r.steps[j].rates).value);
            pair in rates && PairBallots(r.states[e].votes, powers, pair)[v].rate == rates[pair]
  {
    hide Exec, Commits, Reveals, Lower;
    j := StoredVote(params, r, e, v);
    i := RevealMatchesCommit(params, r, j, v);
  }

  // ---- after the last block of a period

  /** A prevote of the running period is there: nothing but a newer one of the same period replaces it. */
  lemma {:induction false} PrevoteOfThePeriodStays(params: Params, r: Run, i: nat, k: nat, v: Address)
    requires ValidPeriods(params) && IsRun(params, r) && i < k <= |r.steps|
    requires Commits(r, i, v) && PeriodOf(params, r.states[i]) == PeriodOf(params, r.states[k])
    ensures v in r.states[k].prevotes &&
        r.states[k].prevotes[v].submitBlock / params.votePeriod == PeriodOf(params, r.states[k])
    decreases k
  {
    hide Exec, Commits, Reveals, Lower, IsPeriodLastBlock;
    PrevoteStep(params, r, k - 1, v);
    var before := r.states[k - 1];
    HeightGrows(params, before, r.steps[k - 1], r.states[k]);
    NextPeriod(before.height, params.votePeriod);
    HeightsAreMonotone(params, r, i, k - 1);
    QuotientMonotone(r.states[i].height, before.height, params.votePeriod);
    if Commits(r, k - 1, v) {
      CommitIsNoBlock(r, k - 1, v);
    } else {
      PrevoteOfThePeriodStays(params, r, i, k - 1, v);
      if Reveals(params, r, k - 1, v) {
        var c := RevealMatchesCommit(params, r, k - 1, v);
        assert i <= c;
        HeightsAreMonotone(params, r, i, c);
        QuotientMonotone(r.states[i].height, r.states[c].height, params.votePeriod);
        assert false;
      }
    }
  }

  lemma CommitIsNoBlock(r: Run, k: nat, v: Address)
    requires k < |r.steps| && k < |r.states| && Commits(r, k, v)
    ensures r.steps[k].SubmitPrevote?
  {
  }

  /** Right after the last block of a period no vote is stored, and a validator has a prevote exactly
      if its feeder submitted one in that period: the last one. */
  lemma AfterThePeriod(params: Params, r: Run, e: nat, v: Address)
    requires ValidPeriods(params) && IsRun(params, r) && e < |r.steps|
    requires r.steps[e].EndOfBlock? && IsPeriodLastBlock(r.states[e].height, params.votePeriod)
    ensures v !in r.states[e + 1].votes
    ensures v in r.states[e + 1].prevotes <==>
              exists i :: 0 <= i < e && Commits(r, i, v) &&
                  PeriodOf(params, r.states[i]) == PeriodOf(params, r.states[e])
    ensures v in r.states[e + 1].prevotes ==>
              exists i :: 0 <= i < e && CommittedAt(params, r, v, i, e, r.states[e + 1].prevotes[v]) &&
                          PeriodOf(params, r.states[i]) == PeriodOf(params, r.states[e])
  {
    BlockIsNoMessage(params, r, e, v);
    hide Exec, Commits, Reveals, Lower, IsPeriodLastBlock;
    VoteStep(params, r, e, v);
    PrevoteStep(params, r, e, v);
    var s := r.states[e];
    if v in s.prevotes {
      NoUnderflow(params, r, e, v);
      ClearedByPeriod(s.prevotes[v].submitBlock, s.height, params.votePeriod);
      var i := StoredPrevote(params, r, e, v);
      if v in r.states[e + 1].prevotes {
        assert 0 <= i < e && CommittedAt(params, r, v, i, e, r.states[e + 1].prevotes[v]);
      }
    }
    forall i | 0 <= i < e && Commits(r, i, v) && PeriodOf(params, r.states[i]) == PeriodOf(params, s)
      ensures v in r.states[e + 1].prevotes
    {
      PrevoteOfThePeriodStays(params, r, i, e, v);
    }
  }

  lemma BlockIsNoMessage(params: Params, r: Run, k: nat, v: Address)
    requires ValidPeriods(params) && k < |r.steps| && k < |r.states| && r.steps[k].EndOfBlock?
    ensures !Commits(r, k, v) && !Reveals(params, r, k, v)
  {
  }
}
