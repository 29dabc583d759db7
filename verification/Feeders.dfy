/** Who may feed for whom: over whole runs, only the validator itself or the delegate it named last, and only while the
    validator is bonded (x/oracle/keeper/keeper.go, x/oracle/keeper/msg_server.go). */
module Feeders {
  import opened Prelude
  import opened VoteText
  import opened Ballots
  import opened Rewards
  import opened OracleState
  import opened OracleRuns
  import opened CommitReveal
  import opened Abstainer

  // ---- delegations

  /** Step `k` is a delegation of operator `v` to `who`, accepted because staking knows the operator. */
  ghost predicate Names(r: Run, k: int, v: Address, who: Address) {
    && 0 <= k < |r.steps| && r.steps[k].DelegateFeed? && r.steps[k].operator == v && r.steps[k].delegate == who
    && v in r.steps[k].st.validators
  }

  /** No delegation of `v` was accepted in the steps from `a` up to before `k`. */
  ghost predicate NamesNobody(r: Run, v: Address, a: int, k: int) {
    forall j | a <= j < k :: !NamesSomebody(r, j, v)
  }

  ghost predicate NamesSomebody(r: Run, k: int, v: Address) {
    exists who :: Names(r, k, v, who)
  }

  /** The delegate of `v` at state `k`: the one named last, or the initial one, which is `v` unless stored otherwise. */
  ghost predicate DelegatedTo(r: Run, k: nat, v: Address, who: Address)
    requires k < |r.states|
  {
    || (exists i :: 0 <= i < k && Names(r, i, v, who) && NamesNobody(r, v, i + 1, k))
    || (NamesNobody(r, v, 0, k) &&
        who == if v in r.states[0].feederDelegations then r.states[0].feederDelegations[v] else v)
  }

  function DelegateOf(s: State, v: Address): Address {
    if v in s.feederDelegations then s.feederDelegations[v] else v
  }

  lemma DelegationStep(params: Params, r: Run, k: nat, v: Address)
    requires ValidPeriods(params) && IsRun(params, r) && k < |r.steps|
    ensures k + 1 < |r.states|
    ensures !NamesSomebody(r, k, v) ==> DelegateOf(r.states[k + 1], v) == DelegateOf(r.states[k], v)
    ensures forall who | Names(r, k, v, who) :: DelegateOf(r.states[k + 1], v) == who
  {
    var s, step, t := r.states[k], r.steps[k], r.states[k + 1];
    assert Exec(params, s, step) == Some(t);
    match step
    case EndOfBlock(st, time) =>
      BlockFields(params, s, st, time, t);
      hide Exec;
    case DelegateFeed(st, operator, delegate) =>
      if operator == v && v in st.validators {
        assert Names(r, k, v, delegate);
      }
    case _ =>
      hide EndBlock, PrevoteError, RevealError, PerPeriod, Lower, ParseTuples;
  }

  /** The stored delegation is the one in force, and there is one delegate at a time. */
  lemma {:induction false} DelegationInForce(params: Params, r: Run, k: nat, v: Address, who: Address)
    requires ValidPeriods(params) && IsRun(params, r) && k <= |r.steps|
    ensures DelegatedTo(r, k, v, who) <==> who == DelegateOf(r.states[k], v)
  {
    hide Exec;
    if k != 0 {
      hide IsRun;
      DelegationInForce(params, r, k - 1, v, who);
      DelegationStep(params, r, k - 1, v);
      hide DelegateOf;
      var last := k - 1;
      if NamesSomebody(r, last, v) {
        var u :| Names(r, last, v, u);
        LastNamed(r, last, v, u, who);
      } else {
        NobodyNamed(r, last, v, who);
      }
    }
  }

  lemma LastNamed(r: Run, last: nat, v: Address, u: Address, who: Address)
    requires last + 1 < |r.states| && Names(r, last, v, u)
    ensures DelegatedTo(r, last + 1, v, who) <==> who == u
  {
    assert NamesSomebody(r, last, v);
    var k := last + 1;
    if DelegatedTo(r, k, v, who) {
      if exists i :: 0 <= i < k && Names(r, i, v, who) && NamesNobody(r, v, i + 1, k) {
        var i :| 0 <= i < k && Names(r, i, v, who) && NamesNobody(r, v, i + 1, k);
        assert i == last;
      }
    } else {
      assert NamesNobody(r, v, last + 1, k);
    }
  }

  lemma NobodyNamed(r: Run, last: nat, v: Address, who: Address)
    requires last + 1 < |r.states| && !NamesSomebody(r, last, v)
    ensures DelegatedTo(r, last + 1, v, who) <==> DelegatedTo(r, last, v, who)
  {
    assert forall u :: !Names(r, last, v, u);
    forall a | a <= last
      ensures NamesNobody(r, v, a, last + 1) <==> NamesNobody(r, v, a, last)
    {
      hide Names, NamesSomebody;
    }
  }

  // ---- permission

  /** The sender may feed for `v` at state `k`: `v` is bonded, and it is `v` itself or the delegate of `v`. */
  ghost predicate MayFeed(r: Run, k: nat, st: Staking, feeder: Address, v: Address)
    requires k < |r.states|
  {
    v in st.validators && st.validators[v].bonded && (feeder == v || DelegatedTo(r, k, v, feeder))
  }

  lemma AllowedExactly(params: Params, r: Run, k: nat, st: Staking, feeder: Address, v: Address)
    requires ValidPeriods(params) && IsRun(params, r) && k <= |r.steps|
    ensures k < |r.states|
    ensures FeederError(r.states[k].feederDelegations, st, feeder, v).None? <==> MayFeed(r, k, st, feeder, v)
    ensures FeederError(r.states[k].feederDelegations, st, feeder, v) == Some(NoVotingPermission) <==>
              feeder != v && !DelegatedTo(r, k, v, feeder)
  {
    hide DelegatedTo, Exec;
    DelegationInForce(params, r, k, v, feeder);
  }

  /** Two hex digits mean the same. */
  function HexValue(c: char): int {
    if '0' <= c <= '9' then c as int - '0' as int
    else if 'a' <= c <= 'f' then c as int - 'a' as int + 10
    else if 'A' <= c <= 'F' then c as int - 'A' as int + 10
    else -1
  }

  /** An even number of hex digits, so that they encode bytes. */
  ghost predicate HexText(s: string) {
    |s| % 2 == 0 && forall i | 0 <= i < |s| :: 0 <= HexValue(s[i])
  }

  /** `t` writes the bytes of `s` with lower-case digits. */
  ghost predicate SameBytes(s: string, t: string) {
    |t| == |s| && forall i | 0 <= i < |s| ::
        HexValue(t[i]) == HexValue(s[i]) && ('0' <= t[i] <= '9' || 'a' <= t[i] <= 'f')
  }

  lemma HexIsKept(s: string)
    ensures IsHex(s) <==> HexText(s)
    ensures HexText(s) ==> SameBytes(s, Lower(s))
  {
    forall i | 0 <= i < |s| && 0 <= HexValue(s[i])
      ensures HexValue(Lower(s)[i]) == HexValue(s[i]) && ('0' <= Lower(s)[i] <= '9' || 'a' <= Lower(s)[i] <= 'f')
    {
      if 'A' <= s[i] <= 'F' {
        assert Lower(s)[i] as int == s[i] as int - 'A' as int + 'a' as int;
      }
    }
  }

  // ---- prevotes and votes

  /** A prevote is stored exactly if its sender may feed and its text is hex; and then with the bytes of the text. */
  lemma PrevoteStoredExactly(params: Params, r: Run, k: nat, v: Address)
    requires ValidPeriods(params) && IsRun(params, r) && k < |r.steps|
    requires r.steps[k].SubmitPrevote? && r.steps[k].validator == v
    ensures k + 1 < |r.states|
    ensures Commits(r, k, v) <==> MayFeed(r, k, r.steps[k].st, r.steps[k].feeder, v) && HexText(r.steps[k].hash)
    ensures if Commits(r, k, v)
            then v in r.states[k + 1].prevotes && r.states[k + 1].prevotes[v].submitBlock == r.states[k].height &&
                 SameBytes(r.steps[k].hash, r.states[k + 1].prevotes[v].hash)
            else r.states[k + 1] == r.states[k]
  {
    hide MayFeed, IsHex, HexText, SameBytes, Lower, FeederError;
    AllowedExactly(params, r, k, r.steps[k].st, r.steps[k].feeder, v);
    HexIsKept(r.steps[k].hash);
    assert Exec(params, r.states[k], r.steps[k]) == Some(r.states[k + 1]);
  }

  /** A vote is stored exactly if its sender may feed, it opens the commitment of the period before, and its text is
      readable. */
  lemma VoteStoredExactly(params: Params, r: Run, k: nat, v: Address)
    requires ValidPeriods(params) && IsRun(params, r) && k < |r.steps|
    requires r.steps[k].RevealVote? && r.steps[k].validator == v
    ensures k + 1 < |r.states|
    ensures Reveals(params, r, k, v) <==>
              && MayFeed(r, k, r.steps[k].st, r.steps[k].feeder, v)
              && (exists i :: Opens(params, r, i, k, v))
              && Readable(params, r.states[k], r.steps[k].rates)
    ensures !Reveals(params, r, k, v) ==> r.states[k + 1] == r.states[k]
  {
    assert Exec(params, r.states[k], r.steps[k]) == Some(r.states[k + 1]);
    hide MayFeed, Opens, Readable, FeederError, ParseTuples, UnknownPairIn, PeriodsSince;
    AllowedExactly(params, r, k, r.steps[k].st, r.steps[k].feeder, v);
    RevealAcceptedExactly(params, r, k, v);
  }

  /** The prevote or the vote of `v` differs between two states. */
  ghost predicate Touched(s: State, t: State, v: Address) {
    || (v in s.prevotes <==> v !in t.prevotes) || (v in s.prevotes && v in t.prevotes && s.prevotes[v] != t.prevotes[v])
    || (v in s.votes <==> v !in t.votes) || (v in s.votes && v in t.votes && s.votes[v] != t.votes[v])
  }

  /** Every message of a run that changes the prevote or the vote of a validator was sent, while the validator was
      bonded, by the validator itself or by the delegate it named last. */
  lemma OnlyAllowedFeeders(params: Params, r: Run, k: nat, v: Address)
    requires ValidPeriods(params) && IsRun(params, r) && k < |r.steps| && !r.steps[k].EndOfBlock?
    requires k + 1 < |r.states| && Touched(r.states[k], r.states[k + 1], v)
    ensures r.steps[k].SubmitPrevote? || r.steps[k].RevealVote?
    ensures r.steps[k].validator == v && MayFeed(r, k, r.steps[k].st, r.steps[k].feeder, v)
  {
    hide Exec, MayFeed, Commits, Reveals, Lower, ParseTuples;
    PrevoteStep(params, r, k, v);
    VoteStep(params, r, k, v);
    if Commits(r, k, v) {
      CommitsAsSent(r, k, v);
      PrevoteStoredExactly(params, r, k, v);
    } else {
      RevealIsNoBlock(params, r, k, v);
      VoteStoredExactly(params, r, k, v);
    }
  }

  lemma CommitsAsSent(r: Run, k: nat, v: Address)
    requires k < |r.steps| && k < |r.states| && Commits(r, k, v)
    ensures r.steps[k].SubmitPrevote? && r.steps[k].validator == v
  {
  }
}
