/** The inflation hook on the day epoch (x/inflation/keeper/hooks.go). */
module Inflation {
  import opened Prelude

  const DAY_EPOCH_ID := "day"

  /** `minted` records, mint by mint, the period whose provision was used. */
  datatype State = State(currentPeriod: nat, numSkippedEpochs: nat, minted: seq<nat>)

  const FRESH := State(0, 0, [])

  /** What stays constant: the epochs per period and the provision of each period. */
  datatype Schedule = Schedule(epochsPerPeriod: nat, provision: nat -> int)

  /** The effect of the end of day epoch number `epoch`. */
  function EpochEnded(c: Schedule, s: State, epoch: nat, enabled: bool): State {
    if !enabled then s.(numSkippedEpochs := s.numSkippedEpochs + 1)
    else if c.epochsPerPeriod == 0 || c.provision(s.currentPeriod) <= 0 then s
    else
      var t := s.(minted := s.minted + [s.currentPeriod]);
      if epoch - c.epochsPerPeriod * s.currentPeriod - s.numSkippedEpochs > c.epochsPerPeriod
      then t.(currentPeriod := s.currentPeriod + 1)
      else t
  }

  class InflationKeeper {
    const schedule: Schedule
    var currentPeriod: nat
    var numSkippedEpochs: nat
    var minted: seq<nat>

    constructor (schedule: Schedule)
      ensures this.schedule == schedule && View() == FRESH
    {
      this.schedule := schedule;
      currentPeriod, numSkippedEpochs, minted := 0, 0, [];
    }

    ghost function View(): State
      reads this
    {
      State(currentPeriod, numSkippedEpochs, minted)
    }

    method AfterEpochEnd(identifier: string, epoch: nat, enabled: bool)
      modifies this
      ensures View() == if identifier == DAY_EPOCH_ID then EpochEnded(schedule, old(View()), epoch, enabled)
                        else old(View())
    {
      if identifier != DAY_EPOCH_ID {
        return;
      }
      if !enabled {
        numSkippedEpochs := numSkippedEpochs + 1;
        return;
      }
      var period := currentPeriod;
      var provision := if schedule.epochsPerPeriod == 0 then 0 else schedule.provision(period);
      if provision <= 0 {
        return;
      }
      minted := minted + [period];
      if epoch - schedule.epochsPerPeriod * period - numSkippedEpochs > schedule.epochsPerPeriod {
        currentPeriod := currentPeriod + 1;
      }
    }
  }

  // ---- periods in closed form

  /** The period after `m` mints: period 0 lasts one mint longer than the others. */
  function PeriodAfter(m: nat, epochsPerPeriod: nat): nat
    requires 1 <= epochsPerPeriod
  {
    if m == 0 then 0 else (m - 1) / epochsPerPeriod
  }

  /** After `ended` day epochs: the period is the closed form of the number of mints, the k-th mint (from 0) used the
      closed form of k, with a provision that was positive, and an epoch that was neither skipped nor minted means
      that the period has no positive provision. */
  ghost predicate OnSchedule(c: Schedule, s: State, ended: nat)
    requires 1 <= c.epochsPerPeriod
  {
    && s.numSkippedEpochs + |s.minted| <= ended
    && (s.numSkippedEpochs + |s.minted| < ended ==> c.provision(s.currentPeriod) <= 0)
    && s.currentPeriod == PeriodAfter(|s.minted|, c.epochsPerPeriod)
    && forall k | 0 <= k < |s.minted| ::
        s.minted[k] == PeriodAfter(k, c.epochsPerPeriod) && 0 < c.provision(s.minted[k])
  }

  lemma PeriodAdvances(m: nat, e: nat)
    requires 1 <= e
    ensures var p := PeriodAfter(m, e);
            PeriodAfter(m + 1, e) == if m + 1 - e * p > e then p + 1 else p
  {
    if m != 0 {
      var p := (m - 1) / e;
      DivisionBounds(m - 1, e);
      if m == p * e + e {
        QuotientIs(m, e, p + 1);
      } else {
        QuotientIs(m, e, p);
      }
    }
  }

  lemma EpochKeepsSchedule(c: Schedule, s: State, ended: nat, enabled: bool)
    requires 1 <= c.epochsPerPeriod && OnSchedule(c, s, ended)
    ensures OnSchedule(c, EpochEnded(c, s, ended + 1, enabled), ended + 1)
  {
    PeriodAdvances(|s.minted|, c.epochsPerPeriod);
    hide PeriodAfter;
  }

  /** On schedule there are at most E * p + 1 mints for the first period `p` without a positive provision. */
  lemma MintsUpToPeriod(c: Schedule, s: State, ended: nat, p: nat)
    requires 1 <= c.epochsPerPeriod && OnSchedule(c, s, ended) && c.provision(p) <= 0
    ensures |s.minted| <= c.epochsPerPeriod * p + 1
  {
    var k := c.epochsPerPeriod * p + 1;
    QuotientIs(k - 1, c.epochsPerPeriod, p);
    assert PeriodAfter(k, c.epochsPerPeriod) == p;
    forall i | 0 <= i < |s.minted|
      ensures PeriodAfter(i, c.epochsPerPeriod) != p
    {
      assert s.minted[i] == PeriodAfter(i, c.epochsPerPeriod);
    }
  }

  // ---- the end of minting

  /** The state after day epochs end one by one from number `first` on, with inflation on or off for each. */
  function AfterEpochs(c: Schedule, s: State, first: nat, enabled: seq<bool>): State
    decreases |enabled|
  {
    if enabled == [] then s else AfterEpochs(c, EpochEnded(c, s, first, enabled[0]), first + 1, enabled[1..])
  }

  function Disabled(enabled: seq<bool>): nat {
    if enabled == [] then 0 else (if enabled[0] then 0 else 1) + Disabled(enabled[1..])
  }

  /** Skipped epochs are exactly the disabled ones; a disabled epoch never mints and never moves the period; and every
      enabled one mints as long as provisions are positive. */
  lemma {:induction false} MintsAreTheEnabledEpochs(c: Schedule, s: State, first: nat, enabled: seq<bool>)
    ensures var t := AfterEpochs(c, s, first, enabled);
            && t.numSkippedEpochs == s.numSkippedEpochs + Disabled(enabled)
            && s.minted <= t.minted && |t.minted| <= |s.minted| + |enabled| - Disabled(enabled)
            && (Disabled(enabled) == |enabled| ==> t.minted == s.minted && t.currentPeriod == s.currentPeriod)
            && (c.epochsPerPeriod != 0 && (forall p: nat :: 0 < c.provision(p)) ==>
                  |t.minted| == |s.minted| + |enabled| - Disabled(enabled))
    ensures Disabled(enabled) <= |enabled|
    decreases |enabled|
  {
    if enabled != [] {
      MintsAreTheEnabledEpochs(c, EpochEnded(c, s, first, enabled[0]), first + 1, enabled[1..]);
    }
  }

  predicate HasProvision(c: Schedule, period: nat) {
    c.epochsPerPeriod != 0 && 0 < c.provision(period)
  }

  /** Without a positive provision the period stands still for ever and nothing is minted; only skipped epochs count
      on. */
  lemma {:induction false} NoProvisionNoProgress(c: Schedule, s: State, first: nat, enabled: seq<bool>)
    requires !HasProvision(c, s.currentPeriod)
    ensures AfterEpochs(c, s, first, enabled) == s.(numSkippedEpochs := s.numSkippedEpochs + Disabled(enabled))
    decreases |enabled|
  {
    if enabled != [] {
      NoProvisionNoProgress(c, EpochEnded(c, s, first, enabled[0]), first + 1, enabled[1..]);
    }
  }

  ghost predicate NeverMintsAgain(c: Schedule, s: State) {
    forall first: nat, enabled :: AfterEpochs(c, s, first, enabled).minted == s.minted
  }

  /** Minting is over exactly when the current period has no positive provision. */
  lemma MintingEndsExactly(c: Schedule, s: State)
    ensures NeverMintsAgain(c, s) <==> !HasProvision(c, s.currentPeriod)
  {
    if HasProvision(c, s.currentPeriod) {
      var one := AfterEpochs(c, s, 1, [true]);
      assert one == AfterEpochs(c, EpochEnded(c, s, 1, true), 2, []);
      assert |one.minted| == |s.minted| + 1;
    } else {
      forall first: nat, enabled
        ensures AfterEpochs(c, s, first, enabled).minted == s.minted
      {
        NoProvisionNoProgress(c, s, first, enabled);
      }
    }
  }
}
