/** Miss counters over whole runs: bounded by the tallies of a slash window, cleared at its end, and the
    unsigned difference that slashing computes. */
module MissCounters {
  import opened Prelude
  import opened MapSum
  import opened Decimal
  import opened Assets
  import opened Ballots
  import opened Coins
  import opened Rewards
  import opened OracleState
  import opened Slashing
  import opened OracleRuns
  import opened CommitReveal
  import opened TallyProperties
  import opened Solvency

  // ---- tallies in a window

  function WindowStart(params: Params, height: nat): nat
    requires ValidPeriods(params)
  {
    Times(height / params.slashWindow, params.slashWindow)
  }

  /** How many blocks from the start of the window up to before `height` end a vote period. */
  function TalliesSince(params: Params, start: nat, height: nat): int
    requires ValidPeriods(params)
  {
    height / params.votePeriod - start / params.votePeriod
  }

  lemma QuotientOfDifference(a: nat, b: nat, d: nat)
    requires 1 <= d && a <= b
    ensures b / d - a / d <= (b - a) / d + 1
    ensures a % d == 0 ==> b / d - a / d == (b - a) / d
  {
    var q, p := b / d, a / d;
    DivisionBounds(b, d);
    DivisionBounds(a, d);
    QuotientMonotone(a, b, d);
    assert (q - p) * d == q * d - p * d;
    assert (q - p - 1) * d == q * d - (p + 1) * d;
    QuotientAtLeast(b - a, d, q - p - 1);
    if a % d == 0 {
      ExactMultiple(a, d);
      assert (q - p + 1) * d == (q + 1) * d - p * d;
      QuotientIs(b - a, d, q - p);
    }
  }

  lemma WindowBounds(params: Params, height: nat)
    requires ValidPeriods(params)
    ensures WindowStart(params, height) <= height < WindowStart(params, height) + params.slashWindow
    ensures params.slashWindow % params.votePeriod == 0 ==> WindowStart(params, height) % params.votePeriod == 0
    ensures IsPeriodLastBlock(height, params.slashWindow) ==>
        height + 1 == WindowStart(params, height) + params.slashWindow
  {
    var sw, vp := params.slashWindow, params.votePeriod;
    var w := height / sw;
    DivisionBounds(height, sw);
    assert (w + 1) * sw == w * sw + sw;
    if sw % vp == 0 {
      ExactMultiple(sw, vp);
      var k := sw / vp;
      assert w * sw == (w * k) * vp;
      MultipleRemainder(w * k, vp);
    }
    if IsPeriodLastBlock(height, sw) {
      NextPeriod(height, sw);
      ExactMultiple(height + 1, sw);
    }
  }

  /** A window holds at most floor(SW/VP) + 1 tallies, and at most SW/VP if VP divides SW. */
  lemma TalliesInWindow(params: Params, height: nat, upTo: nat)
    requires ValidPeriods(params)
    requires WindowStart(params, height) <= upTo <= WindowStart(params, height) + params.slashWindow
    ensures TalliesSince(params, WindowStart(params, height), upTo) <= params.slashWindow / params.votePeriod + 1
    ensures params.slashWindow % params.votePeriod == 0 ==>
              TalliesSince(params, WindowStart(params, height), upTo) <= params.slashWindow / params.votePeriod
  {
    var start := WindowStart(params, height);
    WindowBounds(params, height);
    QuotientOfDifference(start, upTo, params.votePeriod);
    QuotientMonotone(upTo - start, params.slashWindow, params.votePeriod);
  }

  // ---- counters

  /** No counter exceeds the tallies since the start of the window. */
  ghost predicate Counted(params: Params, counters: map<Address, nat>, start: nat, height: nat)
    requires ValidPeriods(params)
  {
    forall v | v in counters :: counters[v] <= TalliesSince(params, start, height)
  }

  lemma MissesGrowByOne(counters: map<Address, nat>, scores: Performances, required: nat, v: Address)
    requires v in WithMisses(counters, scores, required)
    ensures WithMisses(counters, scores, required)[v] <= CounterOf(counters, v) + 1
  {
  }

  lemma TallyCounts(params: Params, s: State, st: Staking, time: int, start: nat)
    requires ValidPeriods(params) && Consistent(st) && AfterTally(params, s, st, time).Some?
    requires start <= s.height && Counted(params, s.missCounters, start, s.height)
    ensures Counted(params, AfterTally(params, s, st, time).value.missCounters, start, s.height + 1)
  {
    NextPeriod(s.height, params.votePeriod);
    QuotientMonotone(start, s.height, params.votePeriod);
    hide Tallied, IsPeriodLastBlock;
    if IsPeriodLastBlock(s.height, params.votePeriod) {
      TalliedCounters(params, s, st, time);
      hide Scores, PassingPairs, RequiredPairs, ActivePowers;
      var after := AfterTally(params, s, st, time).value.missCounters;
      var powers := ActivePowers(st);
      forall v | v in after
        ensures after[v] <= TalliesSince(params, start, s.height + 1)
      {
        MissesGrowByOne(s.missCounters, Scores(params, s.votes, powers, PassingPairs(params, st, s, powers)),
                        |RequiredPairs(params, st, s, powers)|, v);
      }
    }
  }

  ghost predicate CountedInWindow(params: Params, s: State)
    requires ValidPeriods(params)
  {
    Counted(params, s.missCounters, WindowStart(params, s.height), s.height)
  }

  lemma BlockKeepsCounted(params: Params, s: State, st: Staking, time: int, t: State)
    requires ValidPeriods(params) && Consistent(st) && Exec(params, s, EndOfBlock(st, time)) == Some(t)
    requires CountedInWindow(params, s)
    ensures CountedInWindow(params, t)
  {
    BlockIsTally(params, s, st, time, t);
    WindowBounds(params, s.height);
    TallyCounts(params, s, st, time, WindowStart(params, s.height));
    NextPeriod(s.height, params.slashWindow);
    hide Exec, AfterTally, IsPeriodLastBlock, Times;
  }

  lemma {:induction false} ReachableIsCounted(params: Params, r: Run, k: nat)
    requires ValidPeriods(params) && IsRun(params, r) && k < |r.states|
    ensures CountedInWindow(params, r.states[k])
  {
    if k != 0 {
      ReachableIsCounted(params, r, k - 1);
      var step := r.steps[k - 1];
      hide Exec, CountedInWindow;
      if step.EndOfBlock? {
        BlockKeepsCounted(params, r.states[k - 1], step.st, step.time, r.states[k]);
      } else {
        MessageKeepsCounters(params, r.states[k - 1], step, r.states[k]);
        SameCounters(params, r.states[k - 1], r.states[k]);
      }
    }
  }

  lemma SameCounters(params: Params, s: State, t: State)
    requires ValidPeriods(params) && CountedInWindow(params, s)
    requires t.missCounters == s.missCounters && t.height == s.height
    ensures CountedInWindow(params, t)
  {
  }

  /** In every reachable state a counter is at most floor(SW/VP) + 1, and at most SW/VP if VP divides SW. */
  lemma MissesAreBounded(params: Params, r: Run, k: nat, v: Address)
    requires ValidPeriods(params) && IsRun(params, r) && k < |r.states|
    requires v in r.states[k].missCounters
    ensures r.states[k].missCounters[v] <= params.slashWindow / params.votePeriod + 1
    ensures params.slashWindow % params.votePeriod == 0 ==>
              r.states[k].missCounters[v] <= params.slashWindow / params.votePeriod
  {
    ReachableIsCounted(params, r, k);
    WindowBounds(params, r.states[k].height);
    TalliesInWindow(params, r.states[k].height, r.states[k].height);
  }

  // ---- the end of a window

  /** The counters that slashing reads have the same bounds; afterwards there are none. If VP divides SW
      the unsigned difference of periods and misses does not wrap. */
  lemma SlashReadsBoundedCounters(params: Params, r: Run, e: nat, v: Address)
    requires ValidPeriods(params) && IsRun(params, r) && e < |r.steps|
    requires r.steps[e].EndOfBlock? && IsPeriodLastBlock(r.states[e].height, params.slashWindow)
    ensures r.states[e + 1].missCounters == map[]
    ensures var after := AfterTally(params, r.states[e], r.steps[e].st, r.steps[e].time);
            && after.Some?
            && (v in after.value.missCounters ==>
                  var misses, periods := after.value.missCounters[v], VotePeriodsPerWindow(params);
                  && misses <= periods + 1
                  && (params.slashWindow % params.votePeriod == 0 ==>
                      misses <= periods && U64(periods - misses) == periods - misses))
  {
    var s, st, time := r.states[e], r.steps[e].st, r.steps[e].time;
    BlockIsTally(params, s, st, time, r.states[e + 1]);
    ReachableIsCounted(params, r, e);
    WindowBounds(params, s.height);
    TallyCounts(params, s, st, time, WindowStart(params, s.height));
    TalliesInWindow(params, s.height, s.height + 1);
    PeriodsPerWindow(params);
    hide Exec, AfterTally, IsPeriodLastBlock, WindowStart, VotePeriodsPerWindow;
  }

  /** A window that ends in a run is an `int64`, and so there is a period in it. */
  lemma EndedWindowFits(params: Params, r: Run, e: nat)
    requires ValidPeriods(params) && IsRun(params, r) && e < |r.steps|
    requires r.steps[e].EndOfBlock? && IsPeriodLastBlock(r.states[e].height, params.slashWindow)
    ensures params.slashWindow < TWO63 && !NoPeriods(params)
  {
    HeightGrows(params, r.states[e], r.steps[e], r.states[e + 1]);
    WindowBounds(params, r.states[e].height);
    PeriodsPerWindow(params);
    hide Exec, VotePeriodsPerWindow;
  }

  /** The counters that a reachable end of a window reads fit an `int64`. */
  lemma WindowCountersFit(params: Params, r: Run, k: nat, st: Staking, time: int)
    requires ValidPeriods(params) && IsRun(params, r) && k < |r.states| && Consistent(st)
    requires params.slashWindow < TWO63
    ensures AfterTally(params, r.states[k], st, time).Some?
    ensures forall v | v in AfterTally(params, r.states[k], st, time).value.missCounters ::
              AfterTally(params, r.states[k], st, time).value.missCounters[v] < TWO63
  {
    hide Exec, AfterTally, IsPeriodLastBlock, WindowStart, IsBelowMinimum;
    var s := r.states[k];
    OnlyVanishedValidatorsHalt(params, r, k, st, time);
    ReachableIsCounted(params, r, k);
    WindowBounds(params, s.height);
    TallyCounts(params, s, st, time, WindowStart(params, s.height));
    TalliesInWindow(params, s.height, s.height + 1);
    FewPeriods(params);
  }

  lemma FewPeriods(params: Params)
    requires ValidPeriods(params) && params.slashWindow < TWO63
    ensures params.slashWindow / params.votePeriod < TWO63
    ensures params.slashWindow % params.votePeriod != 0 ==> params.slashWindow / params.votePeriod + 1 < TWO63
  {
    QuotientAtMost(params.slashWindow, params.votePeriod);
    if params.votePeriod != 1 {
      SmallQuotient(params.slashWindow, params.votePeriod);
    }
  }

  /** Whom the end of a block slashes, from every reachable state. */
  lemma ReachableSlashing(params: Params, r: Run, k: nat, st: Staking, time: int, v: Address)
    requires ValidPeriods(params) && IsRun(params, r) && k < |r.states| && Consistent(st)
    requires params.slashWindow < TWO63 && EndBlock(params, r.states[k], st, time).Block?
    ensures AfterTally(params, r.states[k], st, time).Some?
    ensures var counters := AfterTally(params, r.states[k], st, time).value.missCounters;
            var periods := params.slashWindow / params.votePeriod;
            v in EndBlock(params, r.states[k], st, time).slashed <==>
              && (r.states[k].height + 1) % params.slashWindow == 0 && 0 < periods
              && v in counters && v in st.validators && st.validators[v].bonded && !st.validators[v].jailed
              && TruncDiv((periods - counters[v]) * ONE, periods) < params.minValidPerWindow
  {
    hide EndBlock, AfterTally, IsRun, TruncDiv;
    WindowCountersFit(params, r, k, st, time);
    EndBlockSlashesExactly(params, r.states[k], st, time, v);
  }

  /** When the chain halts, from every reachable state. */
  lemma HaltsExactly(params: Params, r: Run, k: nat, st: Staking, time: int)
    requires ValidPeriods(params) && IsRun(params, r) && k < |r.states| && Consistent(st)
    requires params.slashWindow < TWO63
    ensures AfterTally(params, r.states[k], st, time).Some?
    ensures var counters := AfterTally(params, r.states[k], st, time).value.missCounters;
            EndBlock(params, r.states[k], st, time).Halted? <==>
              && (r.states[k].height + 1) % params.slashWindow == 0
              && exists v :: v in counters && v !in st.validators &&
                   RateBelow(params.slashWindow / params.votePeriod, counters[v], params.minValidPerWindow)
  {
    hide AfterTally, IsRun, SlashPanics, SlashedOperators, RateBelow;
    WindowCountersFit(params, r, k, st, time);
    PanicsExactly(params, AfterTally(params, r.states[k], st, time).value.missCounters, st);
  }

  // ---- the bound is reached

  const V: Address := "v"
  const P: Pair := "a:b"

  /** One bonded validator. */
  const ALONE: Staking := Staking(map[V := Validator(true, false, 1)], [V], 1, 1)

  /** One whitelisted pair and nobody voting. */
  ghost predicate Silent(s: State) {
    s.votes == map[] && s.whitelistedPairs == {P} && s.paramsWhitelist == [P] && s.missCounters.Keys <= {V}
  }

  lemma AloneIsActive()
    ensures Consistent(ALONE) && ActivePowers(ALONE) == map[V := 1]
  {
    assert ALONE.byPower[0] == V;
    assert ActiveSet(ALONE.validators, ALONE.byPower, 1) == {V};
  }

  lemma SilentPairs(params: Params, s: State)
    requires Silent(s)
    ensures PassingPairs(params, ALONE, s, map[V := 1]) == {}
    ensures RequiredPairs(params, ALONE, s, map[V := 1]) == {P}
  {
    assert PairBallots(map[], map[V := 1], P) == map[];
    hide Passes;
  }

  lemma SilentScores(params: Params)
    ensures Scores(params, map[], map[V := 1], {}) == map[V := Performance(1, 0, 0, V)]
    ensures TotalWeight(Scores(params, map[], map[V := 1], {})) == 0
  {
    assert WonPairs(params, map[], map[V := 1], {}, V) == {};
    assert RatedPairs(params, map[], map[V := 1], {}, V) == {};
    assert Times(1, 0) == 0;
    var scores := Scores(params, map[], map[V := 1], {});
    assert scores == map[V := Performance(1, 0, 0, V)];
    SumByZero(Weights(scores), WeightOf());
  }

  /** A silent tally adds a miss and leaves the silence. */
  lemma SilentTally(params: Params, s: State, time: int)
    requires Silent(s)
    ensures Consistent(ALONE) && Tallied(params, s, ALONE, time).Some?
    ensures var t := Tallied(params, s, ALONE, time).value;
            Silent(t) && t.height == s.height && t.missCounters == s.missCounters[V := CounterOf(s.missCounters, V) + 1]
  {
    hide Scores, PassingPairs, RequiredPairs, PairBallots, TotalWeight, NewPrices, NewSnapshots, SnapshotKeys, Cleared,
         ActivePowers;
    hide Portions, Total, Gathered, Decremented, AddAll, Plus, Minus, Covers, WithMisses, NextWhitelist;
    AloneIsActive();
    SilentPairs(params, s);
    SilentScores(params);
    OnePair();
    OneMiss(s.missCounters);
  }

  lemma OneMiss(counters: map<Address, nat>)
    ensures WithMisses(counters, map[V := Performance(1, 0, 0, V)], |{P}|) == counters[V := CounterOf(counters, V) + 1]
  {
  }

  lemma OnePair()
    ensures NextWhitelist({P}, [P], {P}) == {P}
  {
  }

  /** A silence in which every tally of the running window has been missed. */
  ghost predicate SilentCounted(params: Params, s: State)
    requires ValidPeriods(params)
  {
    Silent(s) && CounterOf(s.missCounters, V) == TalliesSince(params, WindowStart(params, s.height), s.height)
  }

  function Genesis(): State {
    State(0, map[], map[], map[], map[], map[], map[], {P}, [P], map[], 1, map[], map[], map[])
  }

  /** The first `n` blocks of a chain, over as many windows as they take, with a miss at every tally. */
  lemma {:induction false} SilentRun(params: Params, n: nat) returns (r: Run)
    requires ValidPeriods(params) && params.slashWindow < TWO63 && n < TWO63
    ensures IsRun(params, r) && |r.steps| == n && r.states[0] == Genesis()
    ensures SilentCounted(params, r.states[n]) && r.states[n].height == n
  {
    if n == 0 {
      r := Run([Genesis()], []);
      assert WindowStart(params, 0) == 0;
    } else {
      var before := SilentRun(params, n - 1);
      var t := SilentBlock(params, before.states[n - 1]);
      r := ExtendRun(params, before, EndOfBlock(ALONE, 0), t);
      hide IsRun, SilentCounted;
    }
  }

  lemma ExtendRun(params: Params, before: Run, step: Step, t: State) returns (r: Run)
    requires ValidPeriods(params) && IsRun(params, before) && Possible(step)
    requires Exec(params, before.states[|before.steps|], step) == Some(t) && t.height < TWO63
    ensures IsRun(params, r) && |r.steps| == |before.steps| + 1
    ensures r.states[0] == before.states[0] && r.states[|r.steps|] == t
  {
    hide Exec;
    r := Run(before.states + [t], before.steps + [step]);
    var n := |before.steps|;
    forall k | 0 <= k < |r.steps|
      ensures Possible(r.steps[k]) && Exec(params, r.states[k], r.steps[k]) == Some(r.states[k + 1])
    {
      if k < n {
        assert r.states[k] == before.states[k] && r.states[k + 1] == before.states[k + 1] &&
            r.steps[k] == before.steps[k];
      }
    }
  }

  lemma SilentBlock(params: Params, s: State) returns (t: State)
    requires ValidPeriods(params) && params.slashWindow < TWO63 && SilentCounted(params, s)
    ensures Possible(EndOfBlock(ALONE, 0)) && Exec(params, s, EndOfBlock(ALONE, 0)) == Some(t)
    ensures SilentCounted(params, t) && t.height == s.height + 1
  {
    hide AfterTally, IsPeriodLastBlock, Silent, ActivePowers, SlashPanics, SlashedOperators, WindowStart, CounterOf;
    AloneIsActive();
    SilentAfterTally(params, s);
    NextWindow(params, s.height);
    var after := AfterTally(params, s, ALONE, 0).value;
    if IsPeriodLastBlock(s.height, params.slashWindow) {
      NobodyPanics(params, after);
      t := after.(missCounters := map[], height := s.height + 1);
    } else {
      t := after.(height := s.height + 1);
    }
    SilentAfterwards(after, s.height + 1);
  }

  lemma SilentAfterTally(params: Params, s: State)
    requires ValidPeriods(params) && SilentCounted(params, s)
    ensures Consistent(ALONE) && AfterTally(params, s, ALONE, 0).Some?
    ensures var after := AfterTally(params, s, ALONE, 0).value;
            && Silent(after) && after.height == s.height
            && CounterOf(after.missCounters, V) == TalliesSince(params, WindowStart(params, s.height), s.height + 1)
  {
    hide Tallied, IsPeriodLastBlock, Silent, ActivePowers, WindowStart;
    AloneIsActive();
    NextPeriod(s.height, params.votePeriod);
    if IsPeriodLastBlock(s.height, params.votePeriod) {
      SilentTally(params, s, 0);
    }
  }

  lemma SilentAfterwards(s: State, height: nat)
    requires Silent(s)
    ensures Silent(s.(height := height)) && Silent(s.(missCounters := map[], height := height))
    ensures CounterOf(map[], V) == 0
  {
  }

  lemma NobodyPanics(params: Params, s: State)
    requires ValidPeriods(params) && params.slashWindow < TWO63 && Silent(s)
    ensures !SlashPanics(params, s.missCounters, ALONE)
  {
    hide VotePeriodsPerWindow, IsBelowMinimum;
    PeriodsPerWindow(params);
  }

  /** A new window starts behind the last block of one, and nowhere else. */
  lemma NextWindow(params: Params, height: nat)
    requires ValidPeriods(params)
    ensures WindowStart(params, height + 1) ==
              if IsPeriodLastBlock(height, params.slashWindow) then height + 1 else WindowStart(params, height)
  {
    NextPeriod(height, params.slashWindow);
    ExactMultiple(height + 1, params.slashWindow);
  }

  /** Some window holds one tally more: the w-th, where the remainders of w + 1 windows first pass a period. */
  lemma CrowdedWindow(params: Params) returns (w: nat)
    requires ValidPeriods(params) && params.slashWindow % params.votePeriod != 0
    ensures w < params.votePeriod
    ensures (w + 1) * params.slashWindow / params.votePeriod - w * params.slashWindow / params.votePeriod
         == params.slashWindow / params.votePeriod + 1
  {
    var sw, vp := params.slashWindow, params.votePeriod;
    var q, rem := sw / vp, sw % vp;
    w := (vp - 1) / rem;
    DivisionBounds(vp - 1, rem);
    QuotientAtMost(vp - 1, rem);
    assert (w + 1) * rem == w * rem + rem;
    SplitWindow(sw, vp, w);
    SplitWindow(sw, vp, w + 1);
    CrowdedQuotients(w, q, rem, vp);
  }

  lemma SplitWindow(sw: nat, vp: nat, w: nat)
    requires 1 <= vp
    ensures w * sw == (w * (sw / vp)) * vp + w * (sw % vp)
  {
    var q, rem := sw / vp, sw % vp;
    assert sw == q * vp + rem;
    assert w * (q * vp + rem) == (w * q) * vp + w * rem;
  }

  lemma CrowdedQuotients(w: nat, q: nat, rem: nat, vp: nat)
    requires 1 <= rem < vp && w * rem < vp <= (w + 1) * rem && (w + 1) * rem < 2 * vp
    ensures ((w * q) * vp + w * rem) / vp == w * q
    ensures (((w + 1) * q) * vp + (w + 1) * rem) / vp == (w * q) + q + 1
  {
    assert (w + 1) * q == w * q + q;
    assert (w * q + 1) * vp == (w * q) * vp + vp;
    assert ((w + 1) * q + 1) * vp == ((w + 1) * q) * vp + vp;
    assert ((w + 1) * q + 2) * vp == ((w + 1) * q) * vp + 2 * vp;
    QuotientIs((w * q) * vp + w * rem, vp, w * q);
    QuotientIs(((w + 1) * q) * vp + (w + 1) * rem, vp, (w + 1) * q + 1);
  }

  /** If VP does not divide SW the bound is reached: there is a run from height 0 in which slashing reads a counter of
      floor(SW/VP) + 1, one more than there are periods, so that the unsigned difference wraps. */
  lemma TheBoundIsReached(params: Params) returns (r: Run, e: nat)
    requires ValidPeriods(params) && params.slashWindow % params.votePeriod != 0
    requires params.votePeriod * params.slashWindow < TWO63
    ensures IsRun(params, r) && r.states[0].height == 0 && e < |r.states| && Consistent(ALONE)
    ensures IsPeriodLastBlock(r.states[e].height, params.slashWindow)
    ensures var after := AfterTally(params, r.states[e], ALONE, 0);
            && after.Some? && V in after.value.missCounters
            && after.value.missCounters[V] == params.slashWindow / params.votePeriod + 1
            && U64(VotePeriodsPerWindow(params) - after.value.missCounters[V]) == TWO64 - 1
  {
    var w := CrowdedWindow(params);
    e := EndOfWindow(params, w);
    r := SilentRun(params, e);
    LastMiss(params, r.states[e]);
    hide IsRun;
  }

  lemma EndOfWindow(params: Params, w: nat) returns (e: nat)
    requires ValidPeriods(params) && w < params.votePeriod && params.votePeriod * params.slashWindow < TWO63
    requires (w + 1) * params.slashWindow / params.votePeriod - w * params.slashWindow / params.votePeriod
          == params.slashWindow / params.votePeriod + 1
    ensures params.slashWindow < TWO63 && e < TWO63 && IsPeriodLastBlock(e, params.slashWindow)
    ensures TalliesSince(params, WindowStart(params, e), e + 1) == params.slashWindow / params.votePeriod + 1
  {
    var sw, vp := params.slashWindow, params.votePeriod;
    hide WindowStart, IsPeriodLastBlock;
    NextMultiple(w, sw);
    MultipleAtMost(w + 1, sw, vp);
    MultipleAtMost(1, sw, vp);
    var start := w * sw;
    e := start + sw - 1;
    assert e + 1 == (w + 1) * sw;
    QuotientIs(e, sw, w);
    StartOfWindow(params, e, w);
    MultipleRemainder(w + 1, sw);
    LastOfPeriod(e + 1, sw);
  }

  lemma NextMultiple(w: nat, d: nat)
    ensures w * d + d == (w + 1) * d && 0 <= w * d
  {
  }

  lemma MultipleAtMost(a: nat, d: nat, b: nat)
    requires a <= b
    ensures a * d <= b * d
  {
  }

  /** What slashing reads at the end of a silent window. */
  lemma LastMiss(params: Params, s: State)
    requires ValidPeriods(params) && params.slashWindow < TWO63 && SilentCounted(params, s)
    requires TalliesSince(params, WindowStart(params, s.height), s.height + 1) ==
        params.slashWindow / params.votePeriod + 1
    ensures Consistent(ALONE)
    ensures var after := AfterTally(params, s, ALONE, 0);
            && after.Some? && V in after.value.missCounters
            && after.value.missCounters[V] == params.slashWindow / params.votePeriod + 1
            && U64(VotePeriodsPerWindow(params) - after.value.missCounters[V]) == TWO64 - 1
  {
    hide VotePeriodsPerWindow, AfterTally, Silent, WindowStart;
    SilentAfterTally(params, s);
    PeriodsPerWindow(params);
    QuotientAtLeast(params.slashWindow, params.votePeriod, 1);
    hide TalliesSince;
  }

  lemma StartOfWindow(params: Params, height: nat, w: nat)
    requires ValidPeriods(params) && height / params.slashWindow == w
    ensures WindowStart(params, height) == w * params.slashWindow
  {
  }

  lemma LastOfPeriod(a: nat, d: nat)
    requires 1 <= d <= a && a % d == 0
    ensures IsPeriodLastBlock(a - 1, d)
  {
  }
}
