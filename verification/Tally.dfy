/** Grouping votes into ballots and counting them (x/oracle/keeper/ballot.go): the loops, over maps in
    any order, against the order-free scores. */
module Tally {
  import opened Prelude
  import opened MapSum
  import opened Decimal
  import opened Assets
  import opened VoteText
  import opened Ballots
  import opened OracleState

  // ---- grouping

  type Grouped = map<Pair, seq<Ballot>>

  /** The slice kept for `p`, if any, lists exactly the ballots `b`. */
  ghost predicate Keeps(m: Grouped, p: Pair, b: BallotMap) {
    if p in m then m[p] != [] && Lists(m[p], b) else b == map[]
  }

  ghost predicate GroupsAll(m: Grouped, votes: Votes, powers: Powers) {
    forall p: Pair :: Keeps(m, p, PairBallots(votes, powers, p))
  }

  /** Votes are stored under their voter and, as parsed text, have no pair twice. */
  ghost predicate WellFormedVotes(votes: Votes) {
    forall v | v in votes :: votes[v].voter == v && DistinctPairs(votes[v].tuples)
  }

  lemma ToMapNext(ts: seq<ExchangeRateTuple>, i: nat)
    requires i < |ts|
    ensures ToMap(ts[..i + 1]) == ToMap(ts[..i])[ts[i].pair := ts[i].rate]
  {
    assert ts[..i + 1][..i] == ts[..i];
  }

  lemma {:induction false} ToMapKeys(ts: seq<ExchangeRateTuple>, p: Pair)
    ensures p in ToMap(ts) <==> exists i :: 0 <= i < |ts| && ts[i].pair == p
  {
    if ts != [] {
      var n := |ts| - 1;
      ToMapKeys(ts[..n], p);
      assert forall i | 0 <= i < n :: ts[..n][i] == ts[i];
      if ts[n].pair != p && p in ToMap(ts) {
        var i :| 0 <= i < n && ts[..n][i].pair == p;
        assert ts[i].pair == p;
      }
    }
  }

  lemma ListsAppend(s: seq<Ballot>, b: BallotMap, x: Ballot)
    requires Lists(s, b) && x.voter !in b
    ensures Lists(s + [x], b[x.voter := x])
  {
    var t, c := s + [x], b[x.voter := x];
    forall v | v in c
      ensures exists i :: 0 <= i < |t| && t[i].voter == v
    {
      if v == x.voter {
        assert t[|s|].voter == v;
      } else {
        var i :| 0 <= i < |s| && s[i].voter == v;
        assert t[i].voter == v;
      }
    }
  }

  function BallotFor(t: ExchangeRateTuple, v: Address, power: nat): Ballot {
    Ballot(t.rate, t.pair, v, if 0 < t.rate then power else 0)
  }

  function AppendBallot(m: Grouped, x: Ballot): Grouped {
    m[x.pair := (if x.pair in m then m[x.pair] else []) + [x]]
  }

  /** Only the ballots of the tuple's own pair grow. */
  lemma BallotsWithOneMore(done: Votes, powers: Powers, v: Address, ts: seq<ExchangeRateTuple>, i: nat, p: Pair)
    requires v !in done && v in powers && DistinctPairs(ts) && i < |ts|
    ensures var before, after := done[v := Vote(ts[..i], v)], done[v := Vote(ts[..i + 1], v)];
            && v !in PairBallots(before, powers, ts[i].pair)
            && PairBallots(after, powers, p) ==
                 if p == ts[i].pair then PairBallots(before, powers, p)[v := BallotFor(ts[i], v, powers[v])]
                 else PairBallots(before, powers, p)
  {
    var before, after := done[v := Vote(ts[..i], v)], done[v := Vote(ts[..i + 1], v)];
    ToMapNext(ts, i);
    ToMapKeys(ts[..i], ts[i].pair);
    hide ToMap;
    BallotsOfOthers(done, powers, v, before[v], p);
    BallotsOfOthers(done, powers, v, after[v], p);
    BallotsOfOthers(done, powers, v, before[v], ts[i].pair);
    hide PairBallots;
    if p != ts[i].pair {
      assert p in ToMap(ts[..i + 1]) <==> p in ToMap(ts[..i]);
    }
  }

  /** The ballots with the vote of `v` are the ballots without it and its own, if it votes on the pair. */
  lemma BallotsOfOthers(done: Votes, powers: Powers, v: Address, vote: Vote, p: Pair)
    requires v !in done && v in powers
    ensures v !in PairBallots(done, powers, p)
    ensures PairBallots(done[v := vote], powers, p) ==
              if p in ToMap(vote.tuples)
              then PairBallots(done, powers, p)
                     [v := BallotFor(ExchangeRateTuple(p, ToMap(vote.tuples)[p]), v, powers[v])]
              else PairBallots(done, powers, p)
  {
    hide ToMap;
  }

  lemma GroupOneMore(m: Grouped, done: Votes, powers: Powers, v: Address, ts: seq<ExchangeRateTuple>, i: nat)
    requires v !in done && v in powers && DistinctPairs(ts) && i < |ts|
    requires GroupsAll(m, done[v := Vote(ts[..i], v)], powers)
    ensures GroupsAll(AppendBallot(m, BallotFor(ts[i], v, powers[v])), done[v := Vote(ts[..i + 1], v)], powers)
  {
    var before, after := done[v := Vote(ts[..i], v)], done[v := Vote(ts[..i + 1], v)];
    var x := BallotFor(ts[i], v, powers[v]);
    hide PairBallots, Lists;
    forall p: Pair
      ensures Keeps(AppendBallot(m, x), p, PairBallots(after, powers, p))
    {
      BallotsWithOneMore(done, powers, v, ts, i, p);
      assert Keeps(m, p, PairBallots(before, powers, p));
      if p == x.pair {
        if p in m {
          ListsAppend(m[p], PairBallots(before, powers, p), x);
        } else {
          ListsOne(x);
          assert [] + [x] == [x];
        }
      }
    }
  }

  lemma ListsOne(x: Ballot)
    ensures Lists([x], map[x.voter := x])
  {
    assert [x][0].voter == x.voter;
  }

  /** The votes of inactive validators, and votes without tuples, give no ballots. */
  lemma NoBallotsFrom(done: Votes, powers: Powers, v: Address, vote: Vote, p: Pair)
    requires v !in done && (v !in powers || vote.tuples == [])
    ensures PairBallots(done[v := vote], powers, p) == PairBallots(done, powers, p)
  {
  }

  lemma GroupUnchanged(m: Grouped, done: Votes, powers: Powers, v: Address, vote: Vote)
    requires GroupsAll(m, done, powers) && v !in done && (v !in powers || vote.tuples == [])
    ensures GroupsAll(m, done[v := vote], powers)
  {
    hide PairBallots;
    var after := done[v := vote];
    forall p: Pair
      ensures Keeps(m, p, PairBallots(after, powers, p))
    {
      NoBallotsFrom(done, powers, v, vote, p);
      assert Keeps(m, p, PairBallots(done, powers, p));
    }
  }

  lemma NothingGrouped(powers: Powers)
    ensures GroupsAll(map[], map[], powers)
  {
  }

  /** `groupBallotsByPair`. The powers are those in the performances. */
  method GroupBallotsByPair(votes: Votes, performances: Performances, ghost powers: Powers) returns (m: Grouped)
    requires WellFormedVotes(votes)
    requires performances.Keys == powers.Keys && forall v | v in powers :: performances[v].power == powers[v]
    ensures GroupsAll(m, votes, powers)
  {
    hide GroupsAll;
    m := map[];
    var rest := votes.Keys;
    ghost var done: Votes := map[];
    NothingGrouped(powers);
    while rest != {}
      invariant rest <= votes.Keys
      invariant done == map v | v in votes && v !in rest :: votes[v]
      invariant GroupsAll(m, done, powers)
      decreases rest
    {
      var v :| v in rest;
      rest := rest - {v};
      var vote := votes[v];
      if vote.voter in performances {
        m := AddVote(m, vote, v, performances[vote.voter].power, done, powers);
      } else {
        GroupUnchanged(m, done, powers, v, vote);
      }
      done := done[v := vote];
    }
    assert done == votes;
  }

  /** The inner loop, over the tuples of one vote. */
  method AddVote(m0: Grouped, vote: Vote, v: Address, power: nat, ghost done: Votes, ghost powers: Powers)
      returns (m: Grouped)
    requires v !in done && v in powers && powers[v] == power && vote.voter == v && DistinctPairs(vote.tuples)
    requires GroupsAll(m0, done, powers)
    ensures GroupsAll(m, done[v := vote], powers)
  {
    hide GroupsAll;
    m := m0;
    ghost var ts := vote.tuples;
    assert ts[..0] == [];
    GroupUnchanged(m, done, powers, v, Vote([], v));
    for i := 0 to |vote.tuples|
      invariant GroupsAll(m, done[v := Vote(ts[..i], v)], powers)
    {
      var t := vote.tuples[i];
      var p := power;
      if !(0 < t.rate) {
        p := 0;
      }
      GroupOneMore(m, done, powers, v, ts, i);
      m := AppendBallot(m, Ballot(t.rate, t.pair, v, p));
    }
    assert ts[..|ts|] == ts && Vote(ts, v) == vote;
  }

  // ---- passing ballots

  /** `isPassingVoteThreshold`. */
  method IsPassingVoteThreshold(ballots: seq<Ballot>, threshold: int, minVoters: nat, ghost b: BallotMap)
      returns (passing: bool)
    requires Lists(ballots, b)
    ensures passing <==>
        SumBy(b, PowerOf()) != 0 && threshold <= SumBy(b, PowerOf()) && minVoters <= SumBy(b, ValidVoter())
  {
    SumSeqIsSumBy(ballots, b, PowerOf());
    SumSeqIsSumBy(ballots, b, ValidVoter());
    var power := Power(ballots);
    if power == 0 {
      return false;
    }
    if power < threshold {
      return false;
    }
    var voters := NumValidVoters(ballots);
    if voters < minVoters {
      return false;
    }
    return true;
  }

  /** `removeInvalidBallots`: the grouped ballots that remain, and the whitelist without failed pairs. */
  method RemoveInvalidBallots(params: Params, st: Staking, ghost s: State, ghost powers: Powers, whitelist: set<Pair>,
      m: Grouped)
    returns (passing: Grouped, required: set<Pair>)
    requires whitelist == s.whitelistedPairs && GroupsAll(m, s.votes, powers)
    ensures passing.Keys == PassingPairs(params, st, s, powers)
    ensures forall p | p in passing :: Lists(passing[p], PairBallots(s.votes, powers, p)) && passing[p] != []
    ensures required == RequiredPairs(params, st, s, powers)
  {
    passing, required := m, whitelist;
    var threshold := ChopPrecisionAndRound(params.voteThreshold * st.bondedPower);
    var rest := m.Keys;
    hide Lists, PairBallots, SumBy;
    while rest != {}
      invariant rest <= m.Keys && passing.Keys <= m.Keys
      invariant forall p | p in passing :: passing[p] == m[p]
      invariant forall p | p in m :: p in passing <==>
          p in rest || (p in whitelist && Passes(params, st, PairBallots(s.votes, powers, p)))
      invariant forall p :: p in required <==>
          p in whitelist && (p !in m || p in rest || Passes(params, st, PairBallots(s.votes, powers, p)))
      decreases rest
    {
      var pair :| pair in rest;
      rest := rest - {pair};
      assert Keeps(m, pair, PairBallots(s.votes, powers, pair));
      if pair !in whitelist {
        passing := passing - {pair};
      } else {
        var ok := IsPassingVoteThreshold(m[pair], threshold, params.minVoters, PairBallots(s.votes, powers, pair));
        if !ok {
          required := required - {pair};
          passing := passing - {pair};
        }
      }
    }
    forall p
      ensures p in m <==> PairBallots(s.votes, powers, p) != map[]
      ensures p in m ==> Lists(m[p], PairBallots(s.votes, powers, p)) && m[p] != []
    {
      assert Keeps(m, p, PairBallots(s.votes, powers, p));
      if p in m {
        ListsSomething(m[p], PairBallots(s.votes, powers, p));
      }
    }
  }

  lemma ListsSomething(s: seq<Ballot>, b: BallotMap)
    requires Lists(s, b) && s != []
    ensures b != map[]
  {
    assert s[0].voter in b;
  }

  // ---- counting

  /** Winners of one pair are credited. */
  ghost function Credited(params: Params, b: BallotMap, performances: Performances): Performances {
    map v | v in performances ::
      if Wins(params, b, v)
      then performances[v].(rewardWeight := performances[v].rewardWeight + b[v].power,
          winCount := performances[v].winCount + 1)
      else performances[v]
  }

  /** A rate is no farther from the median than half the reward band of it, or than the deviation of the ballots. */
  ghost predicate Reaches(params: Params, b: BallotMap, median: Dec, rate: Dec)
    requires b != map[]
  {
    var d := Distance(rate, median);
    d <= Mul(median, QuoInt(params.rewardBand, 2)) || d <= params.root(QuoInt(SumBy(b, SquaredDeviation(median)), |b|))
  }

  /** A ballot wins exactly if it abstains or reaches the median. */
  lemma WinsExactly(params: Params, b: BallotMap, v: Address)
    requires v in b
    ensures Wins(params, b, v) <==> b[v].rate <= 0 || Reaches(params, b, Median(b), b[v].rate)
  {
    hide Median, SumBy, Mul, QuoInt;
  }

  /** Winning is monotone: whoever is at least as near to the median as a winner with a positive rate wins too. */
  lemma NearerWins(params: Params, b: BallotMap, u: Address, v: Address)
    requires u in b && v in b && 0 < b[v].rate && Wins(params, b, v)
    requires Distance(b[u].rate, Median(b)) <= Distance(b[v].rate, Median(b))
    ensures Wins(params, b, u)
  {
    hide Wins, Median;
    WinsExactly(params, b, v);
    WinsExactly(params, b, u);
  }

  /** The same for the voters of the first `n` ballots only. */
  ghost function CreditedUpTo(params: Params, b: BallotMap, s: seq<Ballot>, n: nat, performances: Performances)
    : Performances
    requires n <= |s|
  {
    map v | v in performances ::
      if Wins(params, b, v) && exists i :: 0 <= i < n && s[i].voter == v
      then performances[v].(rewardWeight := performances[v].rewardWeight + b[v].power,
          winCount := performances[v].winCount + 1)
      else performances[v]
  }

  lemma CreditOneMore(params: Params, b: BallotMap, s: seq<Ballot>, n: nat, performances: Performances)
    requires Lists(s, b) && n < |s| && s[n].voter in performances
    ensures var before := CreditedUpTo(params, b, s, n, performances);
            var after, v := CreditedUpTo(params, b, s, n + 1, performances), s[n].voter;
            && before[v] == performances[v]
            && after == if Wins(params, b, v)
                        then before[v := before[v].(rewardWeight := before[v].rewardWeight + s[n].power,
                            winCount := before[v].winCount + 1)]
                        else before
  {
    hide Wins;
    var v := s[n].voter;
    assert b[v] == s[n];
  }

  lemma CreditEverybody(params: Params, b: BallotMap, s: seq<Ballot>, performances: Performances)
    requires Lists(s, b)
    ensures CreditedUpTo(params, b, s, |s|, performances) == Credited(params, b, performances)
    ensures CreditedUpTo(params, b, s, 0, performances) == performances
  {
    assert forall v | Wins(params, b, v) :: exists i :: 0 <= i < |s| && s[i].voter == v;
  }

  /** `Tally`: the ballots are sorted in place, and the panic on unsorted ballots cannot happen. */
  method TallyPair(params: Params, ballots: seq<Ballot>, performances: Performances, ghost b: BallotMap)
    returns (median: Dec, updated: Performances)
    requires Lists(ballots, b) && ballots != []
    requires forall v | v in b :: v in performances
    ensures median == Median(b) && IsMedian(b, median)
    ensures updated == Credited(params, b, performances)
    ensures updated.Keys == performances.Keys
    ensures forall v | v in performances && v !in b :: updated[v] == performances[v]
    ensures forall v | v in b ::
              var p, d := performances[v], Distance(b[v].rate, median);
              updated[v] ==
                if b[v].rate <= 0 || d <= Mul(median, QuoInt(params.rewardBand, 2)) ||
                   d <= params.root(QuoInt(SumBy(b, SquaredDeviation(median)), |b|))
                then p.(rewardWeight := p.rewardWeight + b[v].power, winCount := p.winCount + 1)
                else p
  {
    var a := new Ballot[|ballots|](i requires 0 <= i < |ballots| => ballots[i]);
    assert a[..] == ballots;
    Sort(a);
    var s := a[..];
    PermutationLists(ballots, s, b);
    var m, k := WeightedMedianWithAssertion(s);
    assert m.Some?;
    median := m.value;
    CrossingIsMedian(s, b, k);
    MedianIsUnique(b, median, Median(b));
    var deviation := StandardDeviation(s, median, params.root, b);
    var spread := Mul(median, QuoInt(params.rewardBand, 2));
    if spread < deviation {
      spread := deviation;
    }
    updated := CreditWinners(params, s, median, spread, performances, b);
    CreditedExactly(params, b, median, performances);
    hide Credited, IsMedian, Median, SumBy, Mul, QuoInt;
  }

  /** Who is credited, and what, in terms of distances to the median. */
  lemma CreditedExactly(params: Params, b: BallotMap, median: Dec, performances: Performances)
    requires b != map[] && median == Median(b)
    requires forall v | v in b :: v in performances
    ensures var updated := Credited(params, b, performances);
            && updated.Keys == performances.Keys
            && (forall v | v in performances && v !in b :: updated[v] == performances[v])
            && forall v | v in b ::
                 var p, d := performances[v], Distance(b[v].rate, median);
                 updated[v] ==
                   if b[v].rate <= 0 || d <= Mul(median, QuoInt(params.rewardBand, 2)) ||
                      d <= params.root(QuoInt(SumBy(b, SquaredDeviation(median)), |b|))
                   then p.(rewardWeight := p.rewardWeight + b[v].power, winCount := p.winCount + 1)
                   else p
  {
    hide Wins, Median, SumBy, Mul, QuoInt;
    forall v | v in b
      ensures Wins(params, b, v) <==> b[v].rate <= 0 || Reaches(params, b, median, b[v].rate)
    {
      WinsExactly(params, b, v);
    }
    forall v | v in performances && v !in b
      ensures !Wins(params, b, v)
    {
      WinsAreBallots(params, b, v);
    }
  }

  method CreditWinners(params: Params, s: seq<Ballot>, median: Dec, spread: Dec, performances: Performances,
      ghost b: BallotMap)
    returns (updated: Performances)
    requires Lists(s, b)
    requires forall v | v in b :: v in performances
    requires median == Median(b) && spread == RewardSpread(params, b)
    ensures updated == Credited(params, b, performances)
  {
    hide Median, RewardSpread, CreditedUpTo, Credited;
    updated := performances;
    CreditEverybody(params, b, s, performances);
    for i := 0 to |s|
      invariant updated == CreditedUpTo(params, b, s, i, performances)
    {
      var ballot := s[i];
      CreditOneMore(params, b, s, i, performances);
      UpToKeepsVoters(params, b, s, i, performances);
      var insideSpread := median - spread <= ballot.rate && ballot.rate <= median + spread;
      var abstain := !(0 < ballot.rate);
      if insideSpread || abstain {
        var p := updated[ballot.voter];
        updated := updated[ballot.voter := p.(rewardWeight := p.rewardWeight + ballot.power,
            winCount := p.winCount + 1)];
      }
    }
  }

  lemma UpToKeepsVoters(params: Params, b: BallotMap, s: seq<Ballot>, n: nat, performances: Performances)
    requires n <= |s|
    ensures CreditedUpTo(params, b, s, n, performances).Keys == performances.Keys
  {
  }

  /** Tallying one more pair takes the scores from the pairs before to the pairs with it. */
  lemma ScoresWithOneMore(params: Params, votes: Votes, powers: Powers, pairs: set<Pair>, p: Pair)
    requires p !in pairs
    ensures Credited(params, PairBallots(votes, powers, p), Scores(params, votes, powers, pairs))
         == Scores(params, votes, powers, pairs + {p})
  {
    hide Scores, Credited, PairBallots;
    var before, after := Scores(params, votes, powers, pairs), Scores(params, votes, powers, pairs + {p});
    var credited := Credited(params, PairBallots(votes, powers, p), before);
    ScoreKeys(params, votes, powers, pairs);
    ScoreKeys(params, votes, powers, pairs + {p});
    CreditedKeys(params, PairBallots(votes, powers, p), before);
    forall v | v in powers
      ensures credited[v] == after[v]
    {
      ScoreOfOneMore(params, votes, powers, pairs, p, v);
    }
  }

  lemma ScoreKeys(params: Params, votes: Votes, powers: Powers, pairs: set<Pair>)
    ensures Scores(params, votes, powers, pairs).Keys == powers.Keys
  {
  }

  lemma CreditedKeys(params: Params, b: BallotMap, performances: Performances)
    ensures Credited(params, b, performances).Keys == performances.Keys
  {
  }

  lemma ScoreOfOneMore(params: Params, votes: Votes, powers: Powers, pairs: set<Pair>, p: Pair, v: Address)
    requires p !in pairs && v in powers
    ensures Credited(params, PairBallots(votes, powers, p), Scores(params, votes, powers, pairs))[v]
         == Scores(params, votes, powers, pairs + {p})[v]
  {
    hide *;
    ScoreAt(params, votes, powers, pairs, v);
    ScoreAt(params, votes, powers, pairs + {p}, v);
    CreditedAt(params, PairBallots(votes, powers, p), Scores(params, votes, powers, pairs), v);
    WonOneMore(params, votes, powers, pairs, p, v);
    WeightOfOneMore(params, votes, powers, pairs, p, v);
  }

  lemma WeightOfOneMore(params: Params, votes: Votes, powers: Powers, pairs: set<Pair>, p: Pair, v: Address)
    requires p !in pairs && v in powers
    ensures var b := PairBallots(votes, powers, p);
            && (Wins(params, b, v) ==> v in b)
            && Times(powers[v], |RatedPairs(params, votes, powers, pairs + {p}, v)|) ==
               Times(powers[v], |RatedPairs(params, votes, powers, pairs, v)|) + if Wins(params, b, v) then b[v].power
                   else 0
  {
    hide *;
    WinsAreBallots(params, PairBallots(votes, powers, p), v);
    RatedOneMore(params, votes, powers, pairs, p, v);
    BallotPower(votes, powers, p, v);
    TimesDistributes(powers[v], |RatedPairs(params, votes, powers, pairs, v)|, 1);
    TimesOne(powers[v]);
  }

  lemma ScoreAt(params: Params, votes: Votes, powers: Powers, pairs: set<Pair>, v: Address)
    requires v in powers
    ensures v in Scores(params, votes, powers, pairs)
    ensures Scores(params, votes, powers, pairs)[v] ==
              Performance(powers[v], Times(powers[v], |RatedPairs(params, votes, powers, pairs, v)|),
                          |WonPairs(params, votes, powers, pairs, v)|, v)
  {
  }

  lemma CreditedAt(params: Params, b: BallotMap, performances: Performances, v: Address)
    requires v in performances
    ensures v in Credited(params, b, performances)
    ensures Wins(params, b, v) ==> v in b
    ensures Credited(params, b, performances)[v] ==
              if Wins(params, b, v)
              then performances[v].(rewardWeight := performances[v].rewardWeight + b[v].power,
                  winCount := performances[v].winCount + 1)
              else performances[v]
  {
  }

  lemma BallotPower(votes: Votes, powers: Powers, p: Pair, v: Address)
    ensures var b := PairBallots(votes, powers, p);
            v in b ==> v in powers && b[v].power == if 0 < b[v].rate then powers[v] else 0
  {
  }

  lemma WonOneMore(params: Params, votes: Votes, powers: Powers, pairs: set<Pair>, p: Pair, v: Address)
    requires p !in pairs
    ensures |WonPairs(params, votes, powers, pairs + {p}, v)| == |WonPairs(params, votes, powers, pairs, v)| +
              if Wins(params, PairBallots(votes, powers, p), v) then 1 else 0
  {
    hide Wins, PairBallots;
    var won := WonPairs(params, votes, powers, pairs, v);
    assert WonPairs(params, votes, powers, pairs + {p}, v) ==
             if Wins(params, PairBallots(votes, powers, p), v) then won + {p} else won;
  }

  lemma RatedOneMore(params: Params, votes: Votes, powers: Powers, pairs: set<Pair>, p: Pair, v: Address)
    requires p !in pairs
    ensures var b := PairBallots(votes, powers, p);
            |RatedPairs(params, votes, powers, pairs + {p}, v)| == |RatedPairs(params, votes, powers, pairs, v)| +
              if Wins(params, b, v) && 0 < b[v].rate then 1 else 0
  {
    hide PairBallots, RewardSpread, Median;
    var b := PairBallots(votes, powers, p);
    WinsAreBallots(params, b, v);
    hide Wins;
    var rated := RatedPairs(params, votes, powers, pairs, v);
    assert RatedPairs(params, votes, powers, pairs + {p}, v) ==
             if Wins(params, b, v) && 0 < b[v].rate then rated + {p} else rated;
  }

  lemma WinsAreBallots(params: Params, b: BallotMap, v: Address)
    ensures Wins(params, b, v) ==> v in b
  {
  }

  lemma NoScores(params: Params, votes: Votes, powers: Powers)
    ensures Scores(params, votes, powers, {}) == map v | v in powers :: Performance(powers[v], 0, 0, v)
  {
    forall v | v in powers
      ensures WonPairs(params, votes, powers, {}, v) == {} && RatedPairs(params, votes, powers, {}, v) == {}
    {
    }
  }
}
