/** Who is slashed at the end of a window (x/oracle/keeper/slash.go), in terms of misses and periods. */
module Slashing {
  import opened Prelude
  import opened Decimal
  import opened Ballots
  import opened OracleState

  /** For a window that is an `int64` the unsigned difference wraps exactly when there are more misses than periods;
      converted back
      to a signed number it is the true difference all the same, so the rate is the true, negative one. */
  lemma WrappedRateIsExact(params: Params, misses: nat)
    requires ValidPeriods(params) && params.slashWindow < TWO63 && misses < TWO63
    ensures var periods := params.slashWindow / params.votePeriod;
            && 1 <= periods && !NoPeriods(params)
            && (U64(periods - misses) == periods - misses <==> misses <= periods)
            && ValidVoteRate(params, misses) == TruncDiv((periods - misses) * ONE, periods)
  {
    hide VotePeriodsPerWindow, TruncDiv, U64, I64;
    PeriodsPerWindow(params);
    WrapsOnce(VotePeriodsPerWindow(params), misses);
  }

  lemma WrapsOnce(periods: nat, misses: nat)
    requires periods < TWO63 && misses < TWO63
    ensures I64(periods) == periods
    ensures I64(U64(periods as int - misses)) == periods - misses
    ensures U64(periods as int - misses) == periods - misses <==> misses <= periods
  {
  }

  // ---- the rate against the minimum

  /** The share of periods without a miss, as a decimal, is below `minimum`. */
  ghost predicate RateBelow(periods: nat, misses: nat, minimum: Dec) {
    0 < periods && TruncDiv((periods - misses) * ONE, periods) < minimum
  }

  lemma BelowMinimumExactly(params: Params, misses: nat)
    requires ValidPeriods(params) && params.slashWindow < TWO63 && misses < TWO63
    ensures IsBelowMinimum(params, misses) <==>
              RateBelow(params.slashWindow / params.votePeriod, misses, params.minValidPerWindow)
  {
    hide ValidVoteRate, NoPeriods, TruncDiv;
    WrappedRateIsExact(params, misses);
  }

  /** With a positive minimum no rounding matters. */
  lemma RateBelowMultipliedOut(periods: nat, misses: nat, minimum: Dec)
    requires 0 < periods && 0 < minimum
    ensures RateBelow(periods, misses, minimum) <==> (periods - misses) * ONE < minimum * periods
  {
    var good := (periods - misses) * ONE;
    if 0 <= good {
      DivisionBounds(good, periods);
      if good < minimum * periods {
        CancelFactor(good / periods, minimum, periods);
      } else {
        QuotientAtLeast(good, periods, minimum);
      }
    } else {
      assert TruncDiv(good, periods) <= 0;
      assert 0 <= minimum * periods;
    }
  }

  /** More misses never raise the rate. */
  lemma RateFalls(periods: nat, misses: nat, more: nat, minimum: Dec)
    requires misses <= more && RateBelow(periods, misses, minimum)
    ensures RateBelow(periods, more, minimum)
  {
    TruncatedMonotone((periods - more) * ONE, (periods - misses) * ONE, periods);
  }

  lemma TruncatedMonotone(a: int, b: int, d: int)
    requires 0 < d && a <= b
    ensures TruncDiv(a, d) <= TruncDiv(b, d)
  {
    hide *;
    if 0 <= a {
      TruncatesDown(a, d);
      TruncatesDown(b, d);
      QuotientMonotone(a, b, d);
    } else if b <= 0 {
      TruncatesUp(a, d);
      TruncatesUp(b, d);
      QuotientMonotone(-b, -a, d);
    } else {
      TruncatesUp(a, d);
      TruncatesDown(b, d);
      DivisionBounds(-a, d);
      DivisionBounds(b, d);
    }
  }

  lemma TruncatesDown(a: int, d: int)
    requires 0 <= a && 0 < d
    ensures TruncDiv(a, d) == a / d
  {
  }

  lemma TruncatesUp(a: int, d: int)
    requires a <= 0 && 0 < d
    ensures TruncDiv(a, d) == -((-a) / d)
  {
  }

  // ---- who is slashed

  /** The validator can be slashed: it is bonded and not jailed. */
  predicate Slashable(st: Staking, v: Address) {
    v in st.validators && st.validators[v].bonded && !st.validators[v].jailed
  }

  lemma SlashedExactly(params: Params, counters: map<Address, nat>, st: Staking, v: Address)
    requires ValidPeriods(params) && params.slashWindow < TWO63 && (v in counters ==> counters[v] < TWO63)
    ensures v in SlashedOperators(params, counters, st) <==>
              && v in counters && v in st.validators && st.validators[v].bonded && !st.validators[v].jailed
              && RateBelow(params.slashWindow / params.votePeriod, counters[v], params.minValidPerWindow)
  {
    hide IsBelowMinimum, RateBelow;
    if v in counters {
      BelowMinimumExactly(params, counters[v]);
    }
  }

  lemma PanicsExactly(params: Params, counters: map<Address, nat>, st: Staking)
    requires ValidPeriods(params) && params.slashWindow < TWO63 && (forall v | v in counters :: counters[v] < TWO63)
    ensures SlashPanics(params, counters, st) <==>
              exists v :: v in counters && v !in st.validators &&
                RateBelow(params.slashWindow / params.votePeriod, counters[v], params.minValidPerWindow)
  {
    hide IsBelowMinimum, RateBelow, NoPeriods;
    PeriodsPerWindow(params);
    forall v | v in counters
      ensures IsBelowMinimum(params, counters[v]) <==>
                RateBelow(params.slashWindow / params.votePeriod, counters[v], params.minValidPerWindow)
    {
      BelowMinimumExactly(params, counters[v]);
    }
  }

  /** The end of a block slashes at the end of a window only, and then exactly the bonded and unjailed validators with
      a counter whose rate is below the minimum. */
  lemma EndBlockSlashesExactly(params: Params, s: State, st: Staking, time: int, v: Address)
    requires ValidPeriods(params) && Consistent(st) && EndBlock(params, s, st, time).Block?
    requires params.slashWindow < TWO63
    requires var counters := AfterTally(params, s, st, time).value.missCounters;
             v in counters ==> counters[v] < TWO63
    ensures var counters, periods := AfterTally(params, s, st, time).value.missCounters,
        params.slashWindow / params.votePeriod;
            v in EndBlock(params, s, st, time).slashed <==>
              && (s.height + 1) % params.slashWindow == 0 && 0 < periods
              && v in counters && v in st.validators && st.validators[v].bonded && !st.validators[v].jailed
              && TruncDiv((periods - counters[v]) * ONE, periods) < params.minValidPerWindow
  {
    hide AfterTally, SlashPanics, SlashedOperators, TruncDiv;
    SlashedExactly(params, AfterTally(params, s, st, time).value.missCounters, st, v);
  }

  /** At the end of a window, of two bonded and unjailed validators with counters, the one with more misses is
      slashed if
      the other is; with a positive minimum whoever missed every period is; and whoever reaches the minimum is not. */
  lemma SlashingLaws(params: Params, s: State, st: Staking, time: int, u: Address, v: Address)
    requires ValidPeriods(params) && Consistent(st) && EndBlock(params, s, st, time).Block?
    requires params.slashWindow < TWO63 && (s.height + 1) % params.slashWindow == 0
    requires var counters := AfterTally(params, s, st, time).value.missCounters;
             u in counters && counters[u] < TWO63 && v in counters && counters[v] < TWO63
    requires Slashable(st, u) && Slashable(st, v)
    ensures var counters, who := AfterTally(params, s, st, time).value.missCounters,
        EndBlock(params, s, st, time).slashed;
            var minimum, periods := params.minValidPerWindow, params.slashWindow / params.votePeriod;
            && (u in who && counters[u] <= counters[v] ==> v in who)
            && (0 < minimum && periods <= counters[v] ==> v in who)
            && (0 < minimum && minimum * periods <= (periods - counters[v]) * ONE ==> v !in who)
  {
    hide AfterTally, SlashedOperators, SlashPanics;
    CounterLaws(params, AfterTally(params, s, st, time).value.missCounters, st, u, v);
  }

  lemma CounterLaws(params: Params, counters: map<Address, nat>, st: Staking, u: Address, v: Address)
    requires ValidPeriods(params) && params.slashWindow < TWO63
    requires u in counters && counters[u] < TWO63 && v in counters && counters[v] < TWO63
    requires Slashable(st, u) && Slashable(st, v)
    ensures var slashed, periods := SlashedOperators(params, counters, st), params.slashWindow / params.votePeriod;
            && (u in slashed && counters[u] <= counters[v] ==> v in slashed)
            && (0 < params.minValidPerWindow && periods <= counters[v] ==> v in slashed)
            && (0 < params.minValidPerWindow && params.minValidPerWindow * periods <= (periods - counters[v]) * ONE ==>
                  v !in slashed)
  {
    hide SlashedOperators, RateBelow;
    var minimum, periods := params.minValidPerWindow, params.slashWindow / params.votePeriod;
    SlashedExactly(params, counters, st, u);
    SlashedExactly(params, counters, st, v);
    QuotientAtLeast(params.slashWindow, params.votePeriod, 1);
    if RateBelow(periods, counters[u], minimum) && counters[u] <= counters[v] {
      RateFalls(periods, counters[u], counters[v], minimum);
    }
    if 0 < minimum {
      RateBelowMultipliedOut(periods, counters[v], minimum);
      assert 0 < minimum * periods;
    }
  }
}
