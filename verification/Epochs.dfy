/** The epoch scheduler (x/epochs/abci.go, x/epochs/keeper/epoch.go) and the hooks it fires. */
module Epochs {
  import opened Prelude
  import opened Inflation

  /** Times are in nanoseconds; this one is the zero value of Go's `time.Time`. */
  const ZERO_TIME: int := -62_135_596_800_000_000_000

  datatype EpochInfo = EpochInfo(
    identifier: string,
    startTime: int,
    duration: int,
    currentEpoch: nat,
    currentEpochStartTime: int,
    epochCountingStarted: bool,
    currentEpochStartHeight: int)

  datatype Hook =
    | AfterEpochEnd(identifier: string, epoch: nat)
    | BeforeEpochStart(identifier: string, epoch: nat, time: int)

  datatype EpochError = EmptyIdentifier | ZeroDuration | NegativeHeight | AlreadyExists

  predicate ShouldEpochStart(info: EpochInfo, now: int) {
    !info.epochCountingStarted || info.currentEpochStartTime + info.duration <= now
  }

  /** Whether this block is a boundary for `info`. */
  predicate IsBoundary(info: EpochInfo, now: int) {
    info.startTime <= now && ShouldEpochStart(info, now)
  }

  function Tick(info: EpochInfo, height: int, now: int): EpochInfo {
    if !IsBoundary(info, now) then info
    else info.(
      currentEpochStartHeight := height,
      currentEpochStartTime := now,
      epochCountingStarted := true,
      currentEpoch := if info.epochCountingStarted then info.currentEpoch + 1 else 1)
  }

  function HooksOf(info: EpochInfo, now: int): seq<Hook> {
    if !IsBoundary(info, now) then []
    else if !info.epochCountingStarted then [BeforeEpochStart(info.identifier, 1, now)]
    else [AfterEpochEnd(info.identifier, info.currentEpoch),
          BeforeEpochStart(info.identifier, info.currentEpoch + 1, now)]
  }

  /** After a block no epoch whose start time has come is overdue. */
  lemma NothingIsOverdue(info: EpochInfo, height: int, now: int)
    ensures var e := Tick(info, height, now);
            0 < e.duration && e.startTime <= now ==>
                e.epochCountingStarted && now < e.currentEpochStartTime + e.duration
  {
  }

  /** What one block does to the inflation state, given the day epoch before it. */
  function InflationTick(c: Schedule, s: State, day: EpochInfo, now: int, enabled: bool): State {
    if IsBoundary(day, now) && day.epochCountingStarted
    then EpochEnded(c, s, day.currentEpoch, enabled)
    else s
  }

  /** The hooks of one identifier, in order. */
  function Project(hooks: seq<Hook>, id: string): seq<Hook> {
    if hooks == [] then [] else
      var last := hooks[|hooks| - 1];
      Project(hooks[..|hooks| - 1], id) + if last.identifier == id then [last] else []
  }

  lemma ProjectAppend(hooks: seq<Hook>, h: Hook, id: string)
    ensures Project(hooks + [h], id) == Project(hooks, id) + if h.identifier == id then [h] else []
  {
    assert (hooks + [h])[..|hooks|] == hooks;
  }

  /** For every identifier the trace grew by the hooks of its boundary, if it was visited. */
  ghost predicate HooksGrew(hooks0: seq<Hook>, hooks: seq<Hook>, before: map<string, EpochInfo>,
                            unvisited: set<string>, now: int)
  {
    forall id: string :: Project(hooks, id) ==
      (Project(hooks0, id) + if id in before && id !in unvisited then HooksOf(before[id], now) else [])
  }

  /** One more identifier visited: its own boundary is added to its own trace. */
  lemma HooksGrewStep(hooks0: seq<Hook>, h1: seq<Hook>, h2: seq<Hook>, before: map<string, EpochInfo>,
                      unvisited: set<string>, id: string, now: int)
    requires HooksGrew(hooks0, h1, before, unvisited, now)
    requires id in before && id in unvisited
    requires forall i: string :: Project(h2, i) == Project(h1, i) + if i == id then HooksOf(before[id], now) else []
    ensures HooksGrew(hooks0, h2, before, unvisited - {id}, now)
  {
    forall i: string
      ensures Project(h2, i) ==
              Project(hooks0, i) + if i in before && i !in unvisited - {id} then HooksOf(before[i], now) else []
    {
      assert Project(h1, i) == Project(hooks0, i) + if i in before && i !in unvisited then HooksOf(before[i], now)
          else [];
    }
  }

  /** The stored epochs once all but `unvisited` have been visited. */
  function TickAllBut(before: map<string, EpochInfo>, unvisited: set<string>, height: int, now: int)
    : map<string, EpochInfo>
  {
    map id | id in before :: if id in unvisited then before[id] else Tick(before[id], height, now)
  }

  lemma TickOneMore(before: map<string, EpochInfo>, unvisited: set<string>, id: string, height: int, now: int)
    requires id in before && id in unvisited
    ensures TickAllBut(before, unvisited, height, now)[id := Tick(before[id], height, now)]
         == TickAllBut(before, unvisited - {id}, height, now)
  {
  }

  class EpochsKeeper {
    const inflation: InflationKeeper
    var epochs: map<string, EpochInfo>
    var hooks: seq<Hook>

    constructor (inflation: InflationKeeper)
      ensures this.inflation == inflation && epochs == map[] && hooks == []
      ensures Valid()
    {
      this.inflation := inflation;
      epochs, hooks := map[], [];
    }

    ghost predicate Valid()
      reads this
    {
      forall id | id in epochs :: epochs[id].identifier == id
    }

    method AddEpochInfo(epoch: EpochInfo, height: int, now: int) returns (error: Option<EpochError>)
      requires Valid()
      modifies this`epochs
      ensures Valid()
      ensures error == if epoch.identifier == "" then Some(EmptyIdentifier)
                       else if epoch.duration == 0 then Some(ZeroDuration)
                       else if epoch.currentEpochStartHeight < 0 then Some(NegativeHeight)
                       else if epoch.identifier in old(epochs) then Some(AlreadyExists)
                       else None
      ensures error.Some? ==> epochs == old(epochs)
      ensures error.None? ==> epochs == old(epochs)[epoch.identifier := epoch.(
                  startTime := if epoch.startTime == ZERO_TIME then now else epoch.startTime,
                  currentEpochStartHeight := height)]
    {
      if epoch.identifier == "" { return Some(EmptyIdentifier); }
      if epoch.duration == 0 { return Some(ZeroDuration); }
      if epoch.currentEpochStartHeight < 0 { return Some(NegativeHeight); }
      if epoch.identifier in epochs { return Some(AlreadyExists); }
      var e := epoch;
      if e.startTime == ZERO_TIME {
        e := e.(startTime := now);
      }
      e := e.(currentEpochStartHeight := height);
      epochs := epochs[e.identifier := e];
      return None;
    }

    /** The stored epochs are visited in some order; each identifier sees only its own boundary. */
    method BeginBlocker(height: int, now: int, inflationEnabled: bool)
      requires Valid()
      modifies this, inflation
      ensures Valid()
      ensures forall id | id in epochs && 0 < epochs[id].duration && epochs[id].startTime <= now ::
                epochs[id].epochCountingStarted && now < epochs[id].currentEpochStartTime + epochs[id].duration
      ensures epochs == TickAllBut(old(epochs), {}, height, now)
      ensures HooksGrew(old(hooks), hooks, old(epochs), {}, now)
      ensures inflation.View() ==
                if DAY_EPOCH_ID in old(epochs)
                then InflationTick(inflation.schedule, old(inflation.View()), old(epochs)[DAY_EPOCH_ID], now,
                    inflationEnabled)
                else old(inflation.View())
    {
      ghost var before := epochs;
      ghost var hooks0 := hooks;
      ghost var view0 := inflation.View();
      var rest := epochs.Keys;
      while rest != {}
        invariant rest <= before.Keys
        invariant epochs == TickAllBut(before, rest, height, now)
        invariant HooksGrew(hooks0, hooks, before, rest, now)
        invariant inflation.View() ==
            if DAY_EPOCH_ID in before && DAY_EPOCH_ID !in rest
            then InflationTick(inflation.schedule, view0, before[DAY_EPOCH_ID], now, inflationEnabled)
            else view0
        decreases rest
      {
        var id :| id in rest;
        ghost var hooks1 := hooks;
        Visit(id, epochs[id], height, now, inflationEnabled);
        HooksGrewStep(hooks0, hooks1, hooks, before, rest, id, now);
        TickOneMore(before, rest, id, height, now);
        rest := rest - {id};
      }
      forall id | id in epochs && 0 < epochs[id].duration && epochs[id].startTime <= now
        ensures epochs[id].epochCountingStarted && now < epochs[id].currentEpochStartTime + epochs[id].duration
      {
        NothingIsOverdue(before[id], height, now);
      }
    }

    /** The begin blockers of one block after the other: every stored epoch goes through its own run, with its own
        trace of hooks, and inflation through that of the day epoch. */
    method BeginBlocks(blocks: seq<Block>)
      requires Valid()
      modifies this, inflation
      ensures Valid()
      ensures epochs == RunOf(old(epochs), blocks)
      ensures HooksRan(old(hooks), hooks, old(epochs), blocks)
      ensures inflation.View() == InflationRan(inflation.schedule, old(inflation.View()), old(epochs), blocks)
    {
      hide RunOf, HooksRan, InflationRan, HooksGrew, TickAllBut, InflationTick;
      ghost var before, hooks0, view0 := epochs, hooks, inflation.View();
      RunStarts(before, hooks0, inflation.schedule, view0);
      assert blocks[..0] == [];
      for k := 0 to |blocks|
        invariant Valid()
        invariant epochs == RunOf(before, blocks[..k])
        invariant HooksRan(hooks0, hooks, before, blocks[..k])
        invariant inflation.View() == InflationRan(inflation.schedule, view0, before, blocks[..k])
      {
        ghost var hooks1, view1 := hooks, inflation.View();
        BeginBlocker(blocks[k].height, blocks[k].time, blocks[k].inflationEnabled);
        RunStep(before, blocks, k);
        HooksRunStep(before, hooks0, hooks1, hooks, blocks, k);
        InflationRunStep(inflation.schedule, view0, before, blocks, k);
      }
      assert blocks[..|blocks|] == blocks;
    }

    /** The body of the iteration. */
    method Visit(id: string, info: EpochInfo, height: int, now: int, inflationEnabled: bool)
      requires id in epochs && info == epochs[id] && info.identifier == id
      modifies this, inflation
      ensures epochs == old(epochs)[id := Tick(info, height, now)]
      ensures forall i :: Project(hooks, i) == old(Project(hooks, i)) + if i == id then HooksOf(info, now) else []
      ensures if info.startTime <= now &&
                 (!info.epochCountingStarted || info.currentEpochStartTime + info.duration <= now)
              then
                var next := if info.epochCountingStarted then info.currentEpoch + 1 else 1;
                epochs[id] == info.(currentEpoch := next, epochCountingStarted := true,
                                    currentEpochStartTime := now, currentEpochStartHeight := height) &&
                hooks == old(hooks) + (if info.epochCountingStarted then [AfterEpochEnd(id, info.currentEpoch)] else [])
                           + [BeforeEpochStart(id, next, now)]
              else
                epochs == old(epochs) && hooks == old(hooks)
      ensures inflation.View() ==
                if id == DAY_EPOCH_ID
                then InflationTick(inflation.schedule, old(inflation.View()), info, now, inflationEnabled)
                else old(inflation.View())
    {
      if now < info.startTime {
        return;
      }
      if !ShouldEpochStart(info, now) {
        return;
      }
      var e := info.(currentEpochStartHeight := height, currentEpochStartTime := now);
      if !e.epochCountingStarted {
        e := e.(epochCountingStarted := true, currentEpoch := 1);
      } else {
        Fire(AfterEpochEnd(e.identifier, e.currentEpoch));
        inflation.AfterEpochEnd(e.identifier, e.currentEpoch, inflationEnabled);
        e := e.(currentEpoch := e.currentEpoch + 1);
      }
      epochs := epochs[e.identifier := e];
      Fire(BeforeEpochStart(e.identifier, e.currentEpoch, now));
    }

    method Fire(h: Hook)
      modifies this`hooks
      ensures hooks == old(hooks) + [h]
      ensures forall i :: Project(hooks, i) == old(Project(hooks, i)) + if h.identifier == i then [h] else []
    {
      hooks := hooks + [h];
      forall i
        ensures Project(hooks, i) == old(Project(hooks, i)) + if h.identifier == i then [h] else []
      {
        ProjectAppend(old(hooks), h, i);
      }
    }
  }

  // ---- runs of the store

  /** The stored epochs after the blocks. */
  function RunOf(before: map<string, EpochInfo>, blocks: seq<Block>): map<string, EpochInfo> {
    map id | id in before :: After(before[id], blocks)
  }

  /** For every identifier the trace grew by the hooks of its own run. */
  ghost predicate HooksRan(hooks0: seq<Hook>, hooks: seq<Hook>, before: map<string, EpochInfo>, blocks: seq<Block>) {
    forall id: string :: Project(hooks, id) ==
      (Project(hooks0, id) + if id in before then HooksAfter(before[id], blocks) else [])
  }

  function InflationRan(c: Schedule, s: State, before: map<string, EpochInfo>, blocks: seq<Block>): State {
    if DAY_EPOCH_ID in before then InflationAfter(c, s, before[DAY_EPOCH_ID], blocks) else s
  }

  lemma RunStarts(before: map<string, EpochInfo>, hooks0: seq<Hook>, c: Schedule, s: State)
    ensures RunOf(before, []) == before && HooksRan(hooks0, hooks0, before, []) && InflationRan(c, s, before, []) == s
  {
  }

  lemma RunStep(before: map<string, EpochInfo>, blocks: seq<Block>, k: nat)
    requires k < |blocks|
    ensures RunOf(before, blocks[..k]).Keys == before.Keys
    ensures TickAllBut(RunOf(before, blocks[..k]), {}, blocks[k].height, blocks[k].time) ==
        RunOf(before, blocks[..k + 1])
  {
    hide Tick, After;
    forall id | id in before
      ensures After(before[id], blocks[..k + 1]) ==
          Tick(After(before[id], blocks[..k]), blocks[k].height, blocks[k].time)
    {
      RunOneMore(before[id], blocks, k);
    }
  }

  lemma HooksRunStep(before: map<string, EpochInfo>, hooks0: seq<Hook>, hooks1: seq<Hook>, hooks2: seq<Hook>,
      blocks: seq<Block>, k: nat)
    requires k < |blocks| && HooksRan(hooks0, hooks1, before, blocks[..k])
    requires HooksGrew(hooks1, hooks2, RunOf(before, blocks[..k]), {}, blocks[k].time)
    ensures HooksRan(hooks0, hooks2, before, blocks[..k + 1])
  {
    hide Project, HooksOf, After, HooksAfter;
    forall id: string
      ensures Project(hooks2, id) ==
              Project(hooks0, id) + if id in before then HooksAfter(before[id], blocks[..k + 1]) else []
    {
      if id in before {
        RunOneMore(before[id], blocks, k);
        assert Project(hooks1, id) == Project(hooks0, id) + HooksAfter(before[id], blocks[..k]);
        Concatenate(Project(hooks0, id), HooksAfter(before[id], blocks[..k]),
            HooksOf(After(before[id], blocks[..k]), blocks[k].time));
      } else {
        assert Project(hooks1, id) == Project(hooks0, id) + [];
      }
    }
  }

  lemma Concatenate(a: seq<Hook>, b: seq<Hook>, c: seq<Hook>)
    ensures (a + b) + c == a + (b + c)
  {
  }

  lemma InflationRunStep(c: Schedule, s: State, before: map<string, EpochInfo>, blocks: seq<Block>, k: nat)
    requires k < |blocks|
    ensures var running := RunOf(before, blocks[..k]);
            InflationRan(c, s, before, blocks[..k + 1]) ==
              if DAY_EPOCH_ID in running
              then InflationTick(c, InflationRan(c, s, before, blocks[..k]), running[DAY_EPOCH_ID],
                                 blocks[k].time, blocks[k].inflationEnabled)
              else InflationRan(c, s, before, blocks[..k])
  {
    hide InflationTick, After;
    assert blocks[..k + 1][..k] == blocks[..k];
  }

  lemma RunOneMore(info: EpochInfo, blocks: seq<Block>, k: nat)
    requires k < |blocks|
    ensures After(info, blocks[..k + 1]) == Tick(After(info, blocks[..k]), blocks[k].height, blocks[k].time)
    ensures HooksAfter(info, blocks[..k + 1]) ==
        HooksAfter(info, blocks[..k]) + HooksOf(After(info, blocks[..k]), blocks[k].time)
  {
    hide *;
    assert blocks[..k + 1] == blocks[..k] + [blocks[k]];
    AfterStep(info, blocks[..k], blocks[k]);
  }

  /** The begin blockers of a run over a store of fresh epochs: the trace of each identifier alternates, and inflation
      is on the schedule of the day epoch. */
  lemma FreshStoreRun(c: Schedule, before: map<string, EpochInfo>, hooks: seq<Hook>, blocks: seq<Block>, id: string)
    returns (starts: seq<int>)
    requires id in before && before[id].identifier == id && Fresh(before[id])
    requires HooksRan([], hooks, before, blocks)
    ensures Project(hooks, id) == Alternating(id, starts) && TraceOf(before[id], blocks, starts)
    ensures RunOf(before, blocks)[id].currentEpoch == |starts|
    ensures id == DAY_EPOCH_ID && 1 <= c.epochsPerPeriod ==>
              OnSchedule(c, InflationRan(c, FRESH, before, blocks), if starts == [] then 0 else |starts| - 1)
  {
    starts := TraceAlternates(before[id], blocks);
    RunOfOne(before, hooks, blocks, id);
    if id == DAY_EPOCH_ID && 1 <= c.epochsPerPeriod {
      DayEpochDrivesInflation(c, before[id], blocks);
    }
    hide Project, HooksAfter, After, Alternating, InflationAfter, OnSchedule;
  }

  // ---- runs of one identifier

  datatype Block = Block(height: int, time: int, inflationEnabled: bool)

  /** The epoch after the blocks, from `info`. */
  function After(info: EpochInfo, blocks: seq<Block>): EpochInfo {
    if blocks == [] then info else
      var last := blocks[|blocks| - 1];
      Tick(After(info, blocks[..|blocks| - 1]), last.height, last.time)
  }

  function HooksAfter(info: EpochInfo, blocks: seq<Block>): seq<Hook> {
    if blocks == [] then [] else
      var last := blocks[|blocks| - 1];
      HooksAfter(info, blocks[..|blocks| - 1]) + HooksOf(After(info, blocks[..|blocks| - 1]), last.time)
  }

  /** How many epochs of a fresh `info` have ended after the blocks. */
  function EndedBy(info: EpochInfo, blocks: seq<Block>): nat {
    var n := After(info, blocks).currentEpoch;
    if n == 0 then 0 else n - 1
  }

  /** The state of inflation after the blocks, when `info` is the day epoch. */
  function InflationAfter(c: Schedule, s: State, info: EpochInfo, blocks: seq<Block>): State {
    if blocks == [] then s else
      var last, before := blocks[|blocks| - 1], blocks[..|blocks| - 1];
      InflationTick(c, InflationAfter(c, s, info, before), After(info, before), last.time, last.inflationEnabled)
  }

  /** Start 1, End 1, Start 2, End 2, ..., Start n at the given times. */
  function Alternating(id: string, starts: seq<int>): seq<Hook> {
    var n := |starts|;
    if n == 0 then []
    else if n == 1 then [BeforeEpochStart(id, 1, starts[0])]
    else Alternating(id, starts[..n - 1]) + [AfterEpochEnd(id, n - 1), BeforeEpochStart(id, n, starts[n - 1])]
  }

  ghost predicate Spaced(starts: seq<int>, duration: int) {
    forall i | 0 < i < |starts| :: starts[i - 1] + duration <= starts[i]
  }

  ghost predicate Fresh(info: EpochInfo) {
    info.currentEpoch == 0 && !info.epochCountingStarted
  }

  /** Every start is the time of a block of the run that is not before the start time. */
  ghost predicate StartsAtBlocks(starts: seq<int>, info: EpochInfo, blocks: seq<Block>) {
    forall i | 0 <= i < |starts| ::
      info.startTime <= starts[i] && exists k :: 0 <= k < |blocks| && blocks[k].time == starts[i]
  }

  /** The hook trace of the blocks alternates starts and ends, numbered without gaps; the current
      epoch counts the starts; the starts are block times at least one duration apart. */
  ghost predicate TraceOf(info: EpochInfo, blocks: seq<Block>, starts: seq<int>) {
    var now := After(info, blocks);
    && HooksAfter(info, blocks) == Alternating(info.identifier, starts)
    && Spaced(starts, info.duration) && StartsAtBlocks(starts, info, blocks)
    && now.identifier == info.identifier && now.duration == info.duration && now.startTime == info.startTime
    && now.currentEpoch == |starts| && now.epochCountingStarted == (starts != [])
    && (starts != [] ==> now.currentEpochStartTime == starts[|starts| - 1])
  }

  /** Every run from a fresh epoch has such a trace. */
  lemma {:induction false} TraceAlternates(info: EpochInfo, blocks: seq<Block>) returns (starts: seq<int>)
    requires Fresh(info)
    ensures TraceOf(info, blocks, starts)
  {
    if blocks == [] {
      starts := [];
    } else {
      var before, last := blocks[..|blocks| - 1], blocks[|blocks| - 1];
      assert blocks == before + [last];
      starts := TraceAlternates(info, before);
      var added := if IsBoundary(After(info, before), last.time) then [last.time] else [];
      TraceStep(info, before, last, starts, added);
      starts := starts + added;
    }
  }

  lemma TraceStep(info: EpochInfo, before: seq<Block>, last: Block, starts: seq<int>, added: seq<int>)
    requires Fresh(info) && TraceOf(info, before, starts)
    requires added == if IsBoundary(After(info, before), last.time) then [last.time] else []
    ensures TraceOf(info, before + [last], starts + added)
  {
    var blocks, e := before + [last], After(info, before);
    hide HooksAfter, Alternating, StartsAtBlocks;
    assert blocks[..|before|] == before;
    AfterStep(info, before, last);
    StartsStep(info, before, last, starts, added);
    AlternatingStep(info.identifier, starts, added);
    if added == [] {
      assert starts + added == starts;
    }
  }

  lemma AfterStep(info: EpochInfo, before: seq<Block>, last: Block)
    ensures After(info, before + [last]) == Tick(After(info, before), last.height, last.time)
    ensures HooksAfter(info, before + [last]) == HooksAfter(info, before) + HooksOf(After(info, before), last.time)
  {
    assert (before + [last])[..|before|] == before;
  }

  lemma StartsStep(info: EpochInfo, before: seq<Block>, last: Block, starts: seq<int>, added: seq<int>)
    requires StartsAtBlocks(starts, info, before)
    requires added == [] || (added == [last.time] && info.startTime <= last.time)
    ensures StartsAtBlocks(starts + added, info, before + [last])
  {
    var blocks, all := before + [last], starts + added;
    forall i | 0 <= i < |all|
      ensures info.startTime <= all[i] && exists k :: 0 <= k < |blocks| && blocks[k].time == all[i]
    {
      if i < |starts| {
        var k :| 0 <= k < |before| && before[k].time == starts[i];
        assert blocks[k].time == all[i];
      } else {
        assert blocks[|before|].time == all[i];
      }
    }
  }

  lemma AlternatingStep(id: string, starts: seq<int>, added: seq<int>)
    requires |added| <= 1
    ensures Alternating(id, starts + added) == Alternating(id, starts) +
              if added == [] then []
              else if starts == [] then [BeforeEpochStart(id, 1, added[0])]
              else [AfterEpochEnd(id, |starts|), BeforeEpochStart(id, |starts| + 1, added[0])]
  {
    if added == [] {
      assert starts + added == starts;
    } else {
      assert (starts + added)[..|starts|] == starts;
    }
  }

  ghost predicate TimesDoNotDecrease(blocks: seq<Block>) {
    forall i, j | 0 <= i < j < |blocks| :: blocks[i].time <= blocks[j].time
  }

  lemma {:induction false} SpacedSpan(starts: seq<int>, duration: int)
    requires Spaced(starts, duration) && starts != []
    ensures starts[0] + (|starts| - 1) * duration <= starts[|starts| - 1]
  {
    if 1 < |starts| {
      SpacedSpan(starts[..|starts| - 1], duration);
      assert (|starts| - 1) * duration == (|starts| - 2) * duration + duration;
    }
  }

  /** The number of epochs is bounded by the time since the first start. */
  lemma EpochsFitInTheTime(info: EpochInfo, blocks: seq<Block>) returns (starts: seq<int>)
    requires Fresh(info) && 0 < info.duration
    requires blocks != [] && TimesDoNotDecrease(blocks)
    ensures HooksAfter(info, blocks) == Alternating(info.identifier, starts)
    ensures starts != [] ==>
              After(info, blocks).currentEpoch <= 1 + (blocks[|blocks| - 1].time - starts[0]) / info.duration
  {
    starts := TraceAlternates(info, blocks);
    if starts != [] {
      SpacedSpan(starts, info.duration);
      assert starts[|starts| - 1] <= blocks[|blocks| - 1].time;
      QuotientAtLeast(blocks[|blocks| - 1].time - starts[0], info.duration, |starts| - 1);
    }
  }

  /** From the start time on no two blocks in a row are more than `gap` apart. */
  ghost predicate GapsAtMost(blocks: seq<Block>, startTime: int, gap: nat) {
    forall k | 0 < k < |blocks| && startTime <= blocks[k - 1].time :: blocks[k].time <= blocks[k - 1].time + gap
  }

  /** Counting starts with the first block at or after the start time; every later start comes less than a duration and
      a gap after the one before; and the running epoch is not over. */
  ghost predicate OnTime(info: EpochInfo, blocks: seq<Block>, starts: seq<int>, gap: nat) {
    && (starts == [] <==> forall k | 0 <= k < |blocks| :: blocks[k].time < info.startTime)
    && (starts != [] ==> exists k :: 0 <= k < |blocks| && FirstBlock(info, blocks, k) && blocks[k].time == starts[0])
    && (forall i | 0 < i < |starts| :: starts[i] < starts[i - 1] + info.duration + gap)
    && (starts != [] ==> blocks != [] && blocks[|blocks| - 1].time < starts[|starts| - 1] + info.duration)
  }

  ghost predicate FirstBlock(info: EpochInfo, blocks: seq<Block>, k: nat) {
    k < |blocks| && info.startTime <= blocks[k].time && forall j | 0 <= j < k :: blocks[j].time < info.startTime
  }

  lemma {:induction false} TraceIsOnTime(info: EpochInfo, blocks: seq<Block>, gap: nat) returns (starts: seq<int>)
    requires Fresh(info) && 0 < info.duration && TimesDoNotDecrease(blocks) && GapsAtMost(blocks, info.startTime, gap)
    ensures TraceOf(info, blocks, starts) && OnTime(info, blocks, starts, gap)
  {
    if blocks == [] {
      starts := [];
    } else {
      var before, last := blocks[..|blocks| - 1], blocks[|blocks| - 1];
      assert blocks == before + [last];
      starts := TraceIsOnTime(info, before, gap);
      var added := if IsBoundary(After(info, before), last.time) then [last.time] else [];
      TraceStep(info, before, last, starts, added);
      OnTimeStep(info, before, last, starts, added, gap);
      starts := starts + added;
    }
  }

  lemma OnTimeStep(info: EpochInfo, before: seq<Block>, last: Block, starts: seq<int>, added: seq<int>, gap: nat)
    requires Fresh(info) && 0 < info.duration && TraceOf(info, before, starts) && OnTime(info, before, starts, gap)
    requires TimesDoNotDecrease(before + [last]) && GapsAtMost(before + [last], info.startTime, gap)
    requires added == if IsBoundary(After(info, before), last.time) then [last.time] else []
    ensures OnTime(info, before + [last], starts + added, gap)
  {
    hide After, HooksAfter, Alternating;
    if starts == [] {
      hide OnTime;
      NothingStarted(info, before, gap);
      if info.startTime <= last.time {
        assert added == [last.time];
        FirstStart(info, before, last, gap);
      } else {
        assert added == [];
        StillNothing(info, before, last, gap);
      }
      assert starts + added == added;
    } else {
      hide OnTime;
      LaterStart(info, before, last, starts, added, gap);
    }
  }

  lemma NothingStarted(info: EpochInfo, before: seq<Block>, gap: nat)
    requires OnTime(info, before, [], gap)
    ensures forall k | 0 <= k < |before| :: before[k].time < info.startTime
  {
  }

  lemma FirstStart(info: EpochInfo, before: seq<Block>, last: Block, gap: nat)
    requires 0 < info.duration && info.startTime <= last.time
    requires forall k | 0 <= k < |before| :: before[k].time < info.startTime
    ensures OnTime(info, before + [last], [last.time], gap)
  {
    var blocks, n := before + [last], |before|;
    assert blocks[n] == last;
    assert forall j | 0 <= j < n :: blocks[j] == before[j];
    assert FirstBlock(info, blocks, n);
  }

  lemma StillNothing(info: EpochInfo, before: seq<Block>, last: Block, gap: nat)
    requires last.time < info.startTime
    requires forall k | 0 <= k < |before| :: before[k].time < info.startTime
    ensures OnTime(info, before + [last], [], gap)
  {
  }

  lemma LaterStart(info: EpochInfo, before: seq<Block>, last: Block, starts: seq<int>, added: seq<int>, gap: nat)
    requires starts != [] && 0 < info.duration && OnTime(info, before, starts, gap)
    requires TimesDoNotDecrease(before + [last]) && GapsAtMost(before + [last], info.startTime, gap)
    requires added == if starts[|starts| - 1] + info.duration <= last.time then [last.time] else []
    ensures OnTime(info, before + [last], starts + added, gap)
  {
    var blocks, all, n := before + [last], starts + added, |before|;
    var k :| 0 <= k < n && FirstBlock(info, before, k) && before[k].time == starts[0];
    assert blocks[k] == before[k] && blocks[n] == last && blocks[n - 1] == before[n - 1];
    assert forall j | 0 <= j < k :: blocks[j] == before[j];
    assert FirstBlock(info, blocks, k) && all[0] == starts[0];
    assert k < n - 1 ==> blocks[k].time <= blocks[n - 1].time;
    assert last.time <= before[n - 1].time + gap;
  }

  lemma {:induction false} StartsWithin(starts: seq<int>, step: int)
    requires starts != [] && forall i | 0 < i < |starts| :: starts[i] < starts[i - 1] + step
    ensures starts[|starts| - 1] <= starts[0] + (|starts| - 1) * step
  {
    var m := |starts| - 1;
    if m != 0 {
      StartsWithin(starts[..m], step);
      assert (m - 1) * step + step == m * step;
    }
  }

  /** With block gaps of at most `gap` epochs keep up with the time: at least one starts in every duration and gap. */
  lemma EpochsKeepUp(info: EpochInfo, blocks: seq<Block>, gap: nat) returns (starts: seq<int>)
    requires Fresh(info) && 0 < info.duration && blocks != []
    requires TimesDoNotDecrease(blocks) && GapsAtMost(blocks, info.startTime, gap)
    ensures HooksAfter(info, blocks) == Alternating(info.identifier, starts) && OnTime(info, blocks, starts, gap)
    ensures starts != [] ==>
              1 + (blocks[|blocks| - 1].time - starts[0]) / (info.duration + gap) <= After(info, blocks).currentEpoch
  {
    starts := TraceIsOnTime(info, blocks, gap);
    if starts != [] {
      StartsWithin(starts, info.duration + gap);
      ElapsedEpochs(blocks[|blocks| - 1].time - starts[0], |starts|, info.duration + gap);
    }
    hide After, HooksAfter, Alternating;
  }

  /** What a store that ran from no hooks holds for one identifier. */
  lemma RunOfOne(before: map<string, EpochInfo>, hooks: seq<Hook>, blocks: seq<Block>, id: string)
    requires id in before && HooksRan([], hooks, before, blocks)
    ensures Project(hooks, id) == HooksAfter(before[id], blocks)
    ensures id in RunOf(before, blocks) && RunOf(before, blocks)[id] == After(before[id], blocks)
  {
    assert Project([], id) == [];
    hide Project, HooksAfter, After;
  }

  /** So does every fresh epoch of a store. */
  lemma StoreKeepsUp(before: map<string, EpochInfo>, hooks: seq<Hook>, blocks: seq<Block>, id: string, gap: nat)
    returns (starts: seq<int>)
    requires id in before && before[id].identifier == id && Fresh(before[id]) && 0 < before[id].duration
    requires HooksRan([], hooks, before, blocks) && blocks != []
    requires TimesDoNotDecrease(blocks) && GapsAtMost(blocks, before[id].startTime, gap)
    ensures Project(hooks, id) == Alternating(id, starts) && OnTime(before[id], blocks, starts, gap)
    ensures starts != [] ==>
              1 + (blocks[|blocks| - 1].time - starts[0]) / (before[id].duration + gap)
                <= RunOf(before, blocks)[id].currentEpoch
  {
    RunOfOne(before, hooks, blocks, id);
    hide *;
    starts := EpochsKeepUp(before[id], blocks, gap);
  }

  lemma ElapsedEpochs(elapsed: int, m: nat, step: int)
    requires 1 <= m && 0 < step && elapsed < (m - 1) * step + step
    ensures 1 + elapsed / step <= m
  {
    assert (m - 1) * step + step == m * step;
    DivisionBounds(elapsed, step);
    CancelFactor(elapsed / step, m, step);
  }

  /** The scheduler composed with inflation: after any run of the fresh day epoch, with inflation
      switched on and off at will, the period is the closed form of the number of mints; and while no
      period without a positive provision is reached, every ended epoch was minted or skipped. */
  lemma {:induction false} DayEpochDrivesInflation(c: Schedule, info: EpochInfo, blocks: seq<Block>)
    requires Fresh(info) && 1 <= c.epochsPerPeriod
    ensures OnSchedule(c, InflationAfter(c, FRESH, info, blocks), EndedBy(info, blocks))
  {
    if blocks != [] {
      var last, before := blocks[|blocks| - 1], blocks[..|blocks| - 1];
      DayEpochDrivesInflation(c, info, before);
      var starts := TraceAlternates(info, before);
      var e := After(info, before);
      if IsBoundary(e, last.time) && e.epochCountingStarted {
        EpochKeepsSchedule(c, InflationAfter(c, FRESH, info, before), e.currentEpoch - 1, last.inflationEnabled);
      }
    }
  }
}
