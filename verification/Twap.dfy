/** Time-weighted average price (x/oracle/keeper/keeper.go, `calcTwap` and its caller). */
module Twap {
  import opened Prelude
  import opened Decimal
  import opened Assets

  datatype Snapshot = Snapshot(pair: Pair, price: Dec, timestampMs: int)

  /** `EmptySlice` and `NoValidTwap` are the errors of the code, `DivisionByZero` its panic. */
  datatype TwapError = EmptySlice | NoValidTwap | DivisionByZero

  function Max(a: int, b: int): int { if a < b then b else a }

  // ---- the computation

  function StartOf(s: seq<Snapshot>, first: int, i: nat): int
    requires i < |s|
  {
    if i == 0 then first else s[i].timestampMs
  }

  function EndOf(s: seq<Snapshot>, now: int, i: nat): int
    requires i < |s|
  {
    if i == |s| - 1 then now else s[i + 1].timestampMs
  }

  /** The weighted prices of the first `k` snapshots. */
  function Cumulative(s: seq<Snapshot>, first: int, now: int, k: nat): Dec
    requires k <= |s|
  {
    if k == 0 then 0 else
      Cumulative(s, first, now, k - 1) + s[k - 1].price * (EndOf(s, now, k - 1) - StartOf(s, first, k - 1))
  }

  function FirstTimestamp(s: seq<Snapshot>, now: int, lookBack: int): int
    requires s != []
  {
    Max(s[0].timestampMs, now - lookBack)
  }

  function TwapOf(s: seq<Snapshot>, now: int, lookBack: int): Result<Dec, TwapError> {
    if |s| == 0 then Err(EmptySlice)
    else if |s| == 1 then Ok(s[0].price)
    else
      var first := FirstTimestamp(s, now, lookBack);
      if now == first then Err(DivisionByZero)
      else Ok(TruncDiv(Cumulative(s, first, now, |s|), now - first))
  }

  method CalcTwap(snapshots: seq<Snapshot>, now: int, lookBack: int) returns (r: Result<Dec, TwapError>)
    ensures r == TwapOf(snapshots, now, lookBack)
    ensures |snapshots| == 1 ==> r == Ok(snapshots[0].price)
  {
    if |snapshots| == 0 {
      return Err(EmptySlice);
    } else if |snapshots| == 1 {
      return Ok(snapshots[0].price);
    }
    var first := Max(snapshots[0].timestampMs, now - lookBack);
    var cumulative := 0;
    for i := 0 to |snapshots|
      invariant cumulative == Cumulative(snapshots, first, now, i)
    {
      var start := if i == 0 then first else snapshots[i].timestampMs;
      var next := if i == |snapshots| - 1 then now else snapshots[i + 1].timestampMs;
      cumulative := cumulative + snapshots[i].price * (next - start);
    }
    if now == first {
      return Err(DivisionByZero);
    }
    return Ok(TruncDiv(cumulative, now - first));
  }

  // ---- what it means

  /** The price in force at millisecond `t`: that of the last snapshot not after `t`. */
  function PriceAt(s: seq<Snapshot>, t: int): Dec
    requires s != [] && s[0].timestampMs <= t
  {
    var last := s[|s| - 1];
    if last.timestampMs <= t then last.price else PriceAt(s[..|s| - 1], t)
  }

  /** The sum over every millisecond in [from, until) of the price then in force. */
  function Area(s: seq<Snapshot>, from: int, until: int): Dec
    requires s != [] && s[0].timestampMs <= from <= until
    decreases until - from
  {
    if from == until then 0 else Area(s, from, until - 1) + PriceAt(s, until - 1)
  }

  ghost predicate Sorted(s: seq<Snapshot>) {
    forall i, j | 0 <= i < j < |s| :: s[i].timestampMs <= s[j].timestampMs
  }

  /** Sorted snapshots of which the second is not before the start of the average. */
  ghost predicate WellPlaced(s: seq<Snapshot>, first: int, now: int) {
    && 2 <= |s| && Sorted(s)
    && s[0].timestampMs <= first <= s[1].timestampMs
    && s[|s| - 1].timestampMs <= now
  }

  lemma {:induction false} PriceAtSegment(s: seq<Snapshot>, i: nat, t: int)
    requires Sorted(s) && i < |s|
    requires s[0].timestampMs <= s[i].timestampMs <= t
    requires i == |s| - 1 || t < s[i + 1].timestampMs
    ensures PriceAt(s, t) == s[i].price
  {
    if i < |s| - 1 {
      assert s[i + 1].timestampMs <= s[|s| - 1].timestampMs;
      var rest := s[..|s| - 1];
      PriceAtSegment(rest, i, t);
    }
  }

  lemma {:induction false} AreaOfConstant(s: seq<Snapshot>, from: int, mid: int, until: int, price: Dec)
    requires s != [] && s[0].timestampMs <= from <= mid <= until
    requires forall t | mid <= t < until :: PriceAt(s, t) == price
    ensures Area(s, from, until) == Area(s, from, mid) + price * (until - mid)
    decreases until - mid
  {
    if mid < until {
      AreaOfConstant(s, from, mid, until - 1, price);
    }
  }

  /** The weights telescope: `k` terms cover exactly the time up to the end of snapshot k-1. */
  lemma {:induction false} CumulativeIsArea(s: seq<Snapshot>, first: int, now: int, k: nat)
    requires WellPlaced(s, first, now) && 1 <= k <= |s|
    ensures first <= EndOf(s, now, k - 1)
    ensures Cumulative(s, first, now, k) == Area(s, first, EndOf(s, now, k - 1))
  {
    var i := k - 1;
    var start, end := StartOf(s, first, i), EndOf(s, now, i);
    if i == 0 {
      assert Cumulative(s, first, now, 0) == 0;
    } else {
      CumulativeIsArea(s, first, now, i);
      assert EndOf(s, now, i - 1) == start;
    }
    assert first <= start <= end;
    forall t | start <= t < end
      ensures PriceAt(s, t) == s[i].price
    {
      PriceAtSegment(s, i, t);
    }
    AreaOfConstant(s, first, start, end, s[i].price);
  }

  lemma {:induction false} AreaWithin(s: seq<Snapshot>, from: int, until: int, lo: Dec, hi: Dec)
    requires s != [] && s[0].timestampMs <= from <= until
    requires forall i | 0 <= i < |s| :: lo <= s[i].price <= hi
    ensures lo * (until - from) <= Area(s, from, until) <= hi * (until - from)
    decreases until - from
  {
    if from < until {
      AreaWithin(s, from, until - 1, lo, hi);
      PriceWithin(s, until - 1, lo, hi);
    }
  }

  lemma {:induction false} PriceWithin(s: seq<Snapshot>, t: int, lo: Dec, hi: Dec)
    requires s != [] && s[0].timestampMs <= t
    requires forall i | 0 <= i < |s| :: lo <= s[i].price <= hi
    ensures lo <= PriceAt(s, t) <= hi
  {
    if t < s[|s| - 1].timestampMs {
      PriceWithin(s[..|s| - 1], t, lo, hi);
    }
  }

  /** The TWAP is the average over time, truncated, and lies between the extreme prices. */
  lemma TwapIsTheTimeAverage(s: seq<Snapshot>, now: int, lookBack: int, lo: Dec, hi: Dec)
    requires 2 <= |s|
    requires WellPlaced(s, FirstTimestamp(s, now, lookBack), now)
    requires FirstTimestamp(s, now, lookBack) < now
    requires forall i | 0 <= i < |s| :: lo <= s[i].price <= hi
    ensures var first := FirstTimestamp(s, now, lookBack);
            TwapOf(s, now, lookBack) == Ok(TruncDiv(Area(s, first, now), now - first))
    ensures lo <= TwapOf(s, now, lookBack).value <= hi
  {
    var first := FirstTimestamp(s, now, lookBack);
    CumulativeIsArea(s, first, now, |s|);
    AreaWithin(s, first, now, lo, hi);
    TruncatedQuotientWithin(Area(s, first, now), now - first, lo, hi);
  }

  lemma ScaleLe(p: int, q: int, n: int)
    requires 0 < n
    ensures p <= q ==> p * n <= q * n
  {
  }

  lemma TruncatedQuotientWithin(a: int, n: int, lo: int, hi: int)
    requires 0 < n && lo * n <= a <= hi * n
    ensures lo <= TruncDiv(a, n) <= hi
  {
    var q := TruncDiv(a, n);
    ScaleLe(q, lo - 1, n);
    ScaleLe(hi + 1, q, n);
  }

  /** With a look-back of 5.5 ms the window [4.7 ms, 10.2 ms] holds snapshots at 4.75 ms and 4.95 ms,
      both in millisecond 4; the average starts at millisecond 5, the first weight is -1, and
      prices 0 and 10 average to 12. */
  lemma FractionalLookBackLeavesTheRange()
    ensures var s := [Snapshot("a:b", 0, 4_750_000 / MILLISECOND), Snapshot("a:b", 10, 4_950_000 / MILLISECOND)];
            TwapOf(s, 10_200_000 / MILLISECOND, 5_500_000 / MILLISECOND) == Ok(12)
  {
    var s := [Snapshot("a:b", 0, 4), Snapshot("a:b", 10, 4)];
    assert Cumulative(s, 5, 10, 0) == 0;
    assert Cumulative(s, 5, 10, 1) == 0;
    assert Cumulative(s, 5, 10, 2) == 60;
  }

  // ---- reading the snapshot store

  /** Nanoseconds in a millisecond; block times and the look-back are in nanoseconds. */
  const MILLISECOND: int := 1_000_000

  type SnapshotStore = map<(Pair, int), Snapshot>

  /** Every snapshot is stored under its pair and time, as `SetPrice` does. */
  ghost predicate Keyed(store: SnapshotStore) {
    forall k | k in store :: store[k].pair == k.0 && store[k].timestampMs == k.1 / MILLISECOND
  }

  /** `times` lists, in increasing order, the times in [from, until] at which `pair` has a snapshot. */
  ghost predicate ListsTimes(store: SnapshotStore, pair: Pair, from: int, until: int, times: seq<int>) {
    && (forall i, j | 0 <= i < j < |times| :: times[i] < times[j])
    && (forall i | 0 <= i < |times| :: from <= times[i] <= until && (pair, times[i]) in store)
    && (forall t | from <= t <= until && (pair, t) in store :: t in times)
  }

  function ValuesAt(store: SnapshotStore, pair: Pair, times: seq<int>): (r: seq<Snapshot>)
    requires forall i | 0 <= i < |times| :: (pair, times[i]) in store
    ensures |r| == |times|
  {
    seq(|times|, i requires 0 <= i < |times| => store[(pair, times[i])])
  }

  /** The store iterates its keys in order; here the least remaining key is taken each time. */
  method TimesInRange(store: SnapshotStore, pair: Pair, from: int, until: int) returns (times: seq<int>)
    ensures ListsTimes(store, pair, from, until, times)
  {
    times := [];
    var rest := set k | k in store && k.0 == pair && from <= k.1 <= until :: k.1;
    while rest != {}
      invariant forall i, j | 0 <= i < j < |times| :: times[i] < times[j]
      invariant forall i | 0 <= i < |times| :: from <= times[i] <= until && (pair, times[i]) in store
      invariant forall t | t in rest :: from <= t <= until && (pair, t) in store
      invariant forall i, u | 0 <= i < |times| && u in rest :: times[i] < u
      invariant forall t | from <= t <= until && (pair, t) in store :: t in times || t in rest
      decreases rest
    {
      ghost var least := Least(rest);
      var t :| t in rest && forall u | u in rest :: t <= u;
      times := times + [t];
      rest := rest - {t};
    }
  }

  method GetExchangeRateTwap(store: SnapshotStore, pair: Pair, blockTime: int, lookBack: nat)
      returns (r: Result<Dec, TwapError>)
    ensures exists times :: ListsTimes(store, pair, blockTime - lookBack, blockTime, times) &&
              r == if times == [] then Err(NoValidTwap)
                   else TwapOf(ValuesAt(store, pair, times), blockTime / MILLISECOND, lookBack / MILLISECOND)
    ensures forall t | blockTime - lookBack <= t <= blockTime && (pair, t) in store &&
              (forall u | blockTime - lookBack <= u <= blockTime && (pair, u) in store :: u == t) ::
              r == Ok(store[(pair, t)].price)
  {
    var times := TimesInRange(store, pair, blockTime - lookBack, blockTime);
    if |times| == 0 {
      return Err(NoValidTwap);
    }
    r := CalcTwap(ValuesAt(store, pair, times), blockTime / MILLISECOND, lookBack / MILLISECOND);
    forall t | blockTime - lookBack <= t <= blockTime && (pair, t) in store &&
      (forall u | blockTime - lookBack <= u <= blockTime && (pair, u) in store :: u == t)
      ensures r == Ok(store[(pair, t)].price)
    {
      assert t in times;
      assert times[0] == t && times[|times| - 1] == t;
    }
  }

  /** There is one such listing, so the query has one result. */
  lemma ListingIsUnique(store: SnapshotStore, pair: Pair, from: int, until: int, s: seq<int>, t: seq<int>)
    requires ListsTimes(store, pair, from, until, s) && ListsTimes(store, pair, from, until, t)
    ensures s == t
  {
    var elements := set x | x in s;
    forall x
      ensures x in s <==> x in t
    {
      assert x in s <==> from <= x <= until && (pair, x) in store;
    }
    OneIncreasingOrder(s, t, elements);
  }

  /** `s` lists the elements in increasing order. */
  ghost predicate Orders(s: seq<int>, elements: set<int>) {
    (forall i, j | 0 <= i < j < |s| :: s[i] < s[j]) && forall x :: x in elements <==> x in s
  }

  lemma {:induction false} OneIncreasingOrder(s: seq<int>, t: seq<int>, elements: set<int>)
    requires Orders(s, elements) && Orders(t, elements)
    ensures s == t
    decreases |s|
  {
    OrdersGreatest(s, elements);
    OrdersGreatest(t, elements);
    hide Orders;
    if s != [] && t != [] {
      var n, m := |s| - 1, |t| - 1;
      OneIncreasingOrder(s[..n], t[..m], elements - {s[n]});
      assert s == s[..n] + [s[n]] && t == t[..m] + [t[m]];
    }
  }

  lemma OrdersGreatest(s: seq<int>, elements: set<int>)
    requires Orders(s, elements)
    ensures s == [] <==> elements == {}
    ensures s != [] ==>
              var n := |s| - 1;
              && s[n] in elements && (forall x | x in elements :: x <= s[n])
              && Orders(s[..n], elements - {s[n]})
  {
    if s == [] {
      assert forall x | x in elements :: x in s;
      assert elements == {};
    } else {
      assert s[|s| - 1] in s;
    }
  }

  /** For a look-back of whole milliseconds every window read from the store is well placed,
      so the query returns the time average from the first snapshot of the window on. */
  lemma StoreWindowIsWellPlaced(store: SnapshotStore, pair: Pair, blockTime: int, lookBack: nat, times: seq<int>)
    requires Keyed(store) && lookBack % MILLISECOND == 0
    requires ListsTimes(store, pair, blockTime - lookBack, blockTime, times) && 2 <= |times|
    ensures var s, now := ValuesAt(store, pair, times), blockTime / MILLISECOND;
            && FirstTimestamp(s, now, lookBack / MILLISECOND) == times[0] / MILLISECOND
            && WellPlaced(s, times[0] / MILLISECOND, now)
  {
    var s := ValuesAt(store, pair, times);
    assert forall i | 0 <= i < |times| :: s[i] == store[(pair, times[i])];
    assert (blockTime - lookBack) / MILLISECOND == blockTime / MILLISECOND - lookBack / MILLISECOND;
  }

  // ---- which look-backs keep the average in range

  /** What the query reads: two or more snapshots of a pair in the window. */
  ghost predicate WindowOf(store: SnapshotStore, pair: Pair, blockTime: int, lookBack: nat, times: seq<int>) {
    Keyed(store) && ListsTimes(store, pair, blockTime - lookBack, blockTime, times) && 2 <= |times|
  }

  /** A window is well placed if the look-back exceeds whole milliseconds by a nanosecond at most, or if its first two
      snapshots are a millisecond apart. */
  lemma WindowIsWellPlaced(store: SnapshotStore, pair: Pair, blockTime: int, lookBack: nat, times: seq<int>)
    requires WindowOf(store, pair, blockTime, lookBack, times)
    requires lookBack % MILLISECOND <= 1 || times[0] + MILLISECOND <= times[1]
    ensures var s, now := ValuesAt(store, pair, times), blockTime / MILLISECOND;
            FirstTimestamp(s, now, lookBack / MILLISECOND) < now ==>
              WellPlaced(s, FirstTimestamp(s, now, lookBack / MILLISECOND), now)
  {
    var s, now := ValuesAt(store, pair, times), blockTime / MILLISECOND;
    assert forall i | 0 <= i < |times| :: s[i] == store[(pair, times[i])];
    assert times[0] < times[1];
    assert now - lookBack / MILLISECOND <= times[1] / MILLISECOND;
  }

  ghost predicate PricesWithin(s: seq<Snapshot>, lo: Dec, hi: Dec) {
    forall i | 0 <= i < |s| :: lo <= s[i].price <= hi
  }

  /** Whatever is stored, an average lies between the extreme prices of its window. */
  ghost predicate StaysInRange(lookBack: nat) {
    forall store, pair, blockTime, times, lo, hi
      | WindowOf(store, pair, blockTime, lookBack, times) && PricesWithin(ValuesAt(store, pair, times), lo, hi) ::
      var r := TwapOf(ValuesAt(store, pair, times), blockTime / MILLISECOND, lookBack / MILLISECOND);
      r.Ok? ==> lo <= r.value <= hi
  }

  /** The window begins in nanoseconds and the weights in milliseconds: a second snapshot may lie in the window but
      before the start of the average as soon as the look-back exceeds whole milliseconds by 2 nanoseconds. A
      look-back below one millisecond never yields an average of two snapshots. */
  lemma ExactLookBacks(lookBack: nat)
    ensures StaysInRange(lookBack) <==> lookBack < MILLISECOND || lookBack % MILLISECOND <= 1
  {
    if lookBack < MILLISECOND || lookBack % MILLISECOND <= 1 {
      forall store, pair, blockTime, times, lo, hi
        | WindowOf(store, pair, blockTime, lookBack, times) && PricesWithin(ValuesAt(store, pair, times), lo, hi)
        ensures var r := TwapOf(ValuesAt(store, pair, times), blockTime / MILLISECOND, lookBack / MILLISECOND);
                r.Ok? ==> lo <= r.value <= hi
      {
        WindowStaysInRange(store, pair, blockTime, lookBack, times, lo, hi);
      }
    } else {
      FractionLeavesTheRange(lookBack);
    }
  }

  lemma WindowStaysInRange(store: SnapshotStore, pair: Pair, blockTime: int, lookBack: nat, times: seq<int>, lo: Dec,
      hi: Dec)
    requires lookBack < MILLISECOND || lookBack % MILLISECOND <= 1
    requires WindowOf(store, pair, blockTime, lookBack, times) && PricesWithin(ValuesAt(store, pair, times), lo, hi)
    ensures var r := TwapOf(ValuesAt(store, pair, times), blockTime / MILLISECOND, lookBack / MILLISECOND);
            r.Ok? ==> lo <= r.value <= hi
  {
    var s, now := ValuesAt(store, pair, times), blockTime / MILLISECOND;
    assert s[0] == store[(pair, times[0])];
    hide Cumulative;
    if FirstTimestamp(s, now, lookBack / MILLISECOND) != now {
      WindowIsWellPlaced(store, pair, blockTime, lookBack, times);
      TwapIsTheTimeAverage(s, now, lookBack / MILLISECOND, lo, hi);
    }
  }

  /** Two snapshots in the millisecond before the average starts, at prices 0 and q for a look-back of q ms and a
      fraction: the average is q + 1. */
  lemma FractionLeavesTheRange(lookBack: nat)
    requires MILLISECOND <= lookBack && 2 <= lookBack % MILLISECOND
    ensures !StaysInRange(lookBack)
  {
    var q, f := lookBack / MILLISECOND, lookBack % MILLISECOND;
    var blockTime := (q + 1) * MILLISECOND;
    var times := [MILLISECOND - f, MILLISECOND - f + 1];
    var s := [Snapshot("a:b", 0, 0), Snapshot("a:b", q, 0)];
    var store: SnapshotStore := map[("a:b", times[0]) := s[0], ("a:b", times[1]) := s[1]];
    assert times[0] / MILLISECOND == 0 && times[1] / MILLISECOND == 0 && blockTime / MILLISECOND == q + 1;
    assert WindowOf(store, "a:b", blockTime, lookBack, times);
    assert ValuesAt(store, "a:b", times) == s;
    assert PricesWithin(s, 0, q);
    AverageOfTwo(s, q);
  }

  lemma AverageOfTwo(s: seq<Snapshot>, q: nat)
    requires 1 <= q && s == [Snapshot("a:b", 0, 0), Snapshot("a:b", q, 0)]
    ensures TwapOf(s, q + 1, q) == Ok(q + 1)
  {
    assert Cumulative(s, 1, q + 1, 0) == 0;
    assert Cumulative(s, 1, q + 1, 1) == 0;
    assert Cumulative(s, 1, q + 1, 2) == q * (q + 1);
    QuotientIs(q * (q + 1), q, q + 1);
  }
}
