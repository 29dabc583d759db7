/** Ballots for one pair: power, in-place sort, weighted median and deviation
    (x/oracle/types/ballot.go). */
module Ballots {
  import opened Prelude
  import opened MapSum
  import opened Decimal
  import opened Assets

  type Address = string

  /** Consensus power is never negative. */
  datatype Ballot = Ballot(rate: Dec, pair: Pair, voter: Address, power: nat)

  /** The ballots of a pair by voter: what a slice of ballots holds, without its order. */
  type BallotMap = map<Address, Ballot>

  ghost predicate Lists(s: seq<Ballot>, b: BallotMap) {
    && (forall i | 0 <= i < |s| :: s[i].voter in b && b[s[i].voter] == s[i])
    && (forall i, j | 0 <= i < j < |s| :: s[i].voter != s[j].voter)
    && (forall v | v in b :: exists i :: 0 <= i < |s| && s[i].voter == v)
  }

  // ---- sums over ballots

  function PowerOf(): Ballot -> int { (b: Ballot) => b.power }

  function ValidVoter(): Ballot -> int { (b: Ballot) => if 0 < b.rate then 1 else 0 }

  function PowerUpTo(r: Dec): Ballot -> int { (b: Ballot) => if b.rate <= r then b.power else 0 }

  function PowerBelow(r: Dec): Ballot -> int { (b: Ballot) => if b.rate < r then b.power else 0 }

  function PowerAt(r: Dec): Ballot -> int { (b: Ballot) => if b.rate == r then b.power else 0 }

  function PowerOutside(lo: Dec, hi: Dec): Ballot -> int {
    (b: Ballot) => if b.rate < lo || hi < b.rate then b.power else 0
  }

  function PowerInside(lo: Dec, hi: Dec): Ballot -> int {
    (b: Ballot) => if lo <= b.rate <= hi then b.power else 0
  }

  function SquaredDeviation(median: Dec): Ballot -> int {
    (b: Ballot) => Mul(b.rate - median, b.rate - median)
  }

  function SumSeq(s: seq<Ballot>, f: Ballot -> int): int {
    if s == [] then 0 else SumSeq(s[..|s| - 1], f) + f(s[|s| - 1])
  }

  lemma SumSeqNext(s: seq<Ballot>, f: Ballot -> int, i: nat)
    requires i < |s|
    ensures SumSeq(s[..i + 1], f) == SumSeq(s[..i], f) + f(s[i])
  {
    assert s[..i + 1][..i] == s[..i];
  }

  lemma ListsDropLast(s: seq<Ballot>, b: BallotMap)
    requires Lists(s, b) && s != []
    ensures Lists(s[..|s| - 1], b - {s[|s| - 1].voter})
  {
    var n := |s| - 1;
    forall u | u in b - {s[n].voter}
      ensures exists i :: 0 <= i < n && s[..n][i].voter == u
    {
      var i :| 0 <= i < |s| && s[i].voter == u;
      assert s[..n][i].voter == u;
    }
  }

  /** A slice and the ballots it lists have the same sums. */
  lemma {:induction false} SumSeqIsSumBy(s: seq<Ballot>, b: BallotMap, f: Ballot -> int)
    requires Lists(s, b)
    ensures SumSeq(s, f) == SumBy(b, f)
  {
    if s == [] {
      assert b == map[];
    } else {
      var v := s[|s| - 1].voter;
      ListsDropLast(s, b);
      SumSeqIsSumBy(s[..|s| - 1], b - {v}, f);
      SumByRemove(b, f, v);
    }
  }

  lemma {:induction false} ListsLength(s: seq<Ballot>, b: BallotMap)
    requires Lists(s, b)
    ensures |s| == |b|
  {
    if s == [] {
      assert b == map[];
    } else {
      var v := s[|s| - 1].voter;
      ListsDropLast(s, b);
      ListsLength(s[..|s| - 1], b - {v});
      SizeWithout(b, v);
    }
  }

  lemma SizeWithout(b: BallotMap, v: Address)
    requires v in b
    ensures |b - {v}| == |b| - 1
  {
    assert b == (b - {v})[v := b[v]];
  }

  function TotalPower(s: seq<Ballot>): int { SumSeq(s, PowerOf()) }

  function PrefixPower(s: seq<Ballot>, n: nat): int
    requires n <= |s|
  {
    TotalPower(s[..n])
  }

  method Power(s: seq<Ballot>) returns (total: int)
    ensures total == TotalPower(s)
  {
    total := 0;
    for i := 0 to |s|
      invariant total == PrefixPower(s, i)
    {
      SumSeqNext(s, PowerOf(), i);
      total := total + s[i].power;
    }
    assert s[..|s|] == s;
  }

  method NumValidVoters(s: seq<Ballot>) returns (count: int)
    ensures count == SumSeq(s, ValidVoter())
  {
    count := 0;
    for i := 0 to |s|
      invariant count == SumSeq(s[..i], ValidVoter())
    {
      SumSeqNext(s, ValidVoter(), i);
      if 0 < s[i].rate {
        count := count + 1;
      }
    }
    assert s[..|s|] == s;
  }

  // ---- sorting

  predicate Sorted(s: seq<Ballot>) {
    forall i, j | 0 <= i < j < |s| :: s[i].rate <= s[j].rate
  }

  predicate Less(a: Ballot, b: Ballot) { a.rate < b.rate }

  method Swap(a: array<Ballot>, i: nat, j: nat)
    requires i < a.Length && j < a.Length
    modifies a
    ensures a[i] == old(a[j]) && a[j] == old(a[i])
    ensures forall m | 0 <= m < a.Length && m != i && m != j :: a[m] == old(a[m])
    ensures multiset(a[..]) == multiset(old(a[..]))
  {
    a[i], a[j] := a[j], a[i];
  }

  /** No ballot from index `i` on is less than the one at `k`. */
  predicate IsMinimal(s: seq<Ballot>, i: nat, k: nat) {
    i <= k < |s| && forall m | i <= m < |s| :: !Less(s[m], s[k])
  }

  lemma {:induction false} MinimalExists(s: seq<Ballot>, i: nat)
    requires i < |s|
    ensures exists k: nat :: IsMinimal(s, i, k)
    decreases |s| - i
  {
    if i + 1 < |s| {
      MinimalExists(s, i + 1);
      var k: nat :| IsMinimal(s, i + 1, k);
      assert IsMinimal(s, i, if Less(s[k], s[i]) then k else i);
    } else {
      assert IsMinimal(s, i, i);
    }
  }

  /** Any least ballot from index `i` on. */
  method ChooseMinimal(s: seq<Ballot>, i: nat) returns (k: nat)
    requires i < |s|
    ensures IsMinimal(s, i, k)
  {
    MinimalExists(s, i);
    var least :| 0 <= least < |s| && IsMinimal(s, i, least);
    k := least;
  }

  /** `sort.Sort` in terms of the interface: any least remaining ballot may come next, so every
      order of equal rates that an unstable sort may leave is a possible outcome. */
  method Sort(a: array<Ballot>)
    modifies a
    ensures Sorted(a[..])
    ensures multiset(a[..]) == multiset(old(a[..]))
  {
    for i := 0 to a.Length
      invariant multiset(a[..]) == multiset(old(a[..]))
      invariant forall k, m | 0 <= k < i && k < m < a.Length :: a[k].rate <= a[m].rate
    {
      var k := ChooseMinimal(a[..], i);
      assert forall m | i <= m < a.Length :: !Less(a[..][m], a[..][k]);
      Swap(a, i, k);
    }
  }

  /** Reordering ballots does not change what they list. */
  lemma PermutationLists(s: seq<Ballot>, t: seq<Ballot>, b: BallotMap)
    requires Lists(s, b) && multiset(s) == multiset(t)
    ensures Lists(t, b)
  {
    forall i | 0 <= i < |t|
      ensures t[i].voter in b && b[t[i].voter] == t[i]
    {
      assert t[i] in multiset(s);
      assert t[i] in s;
    }
    forall v | v in b
      ensures exists i :: 0 <= i < |t| && t[i].voter == v
    {
      var i :| 0 <= i < |s| && s[i].voter == v;
      assert s[i] in multiset(t);
      assert s[i] in t;
    }
    forall i, j | 0 <= i < j < |t|
      ensures t[i].voter != t[j].voter
    {
      if t[i].voter == t[j].voter {
        OccursTwice(t, i, j);
        AtMostOnce(s, t[i]);
        assert false;
      }
    }
  }

  lemma OccursTwice(t: seq<Ballot>, i: nat, j: nat)
    requires i < j < |t| && t[i] == t[j]
    ensures 2 <= multiset(t)[t[i]]
  {
    assert t == t[..i] + [t[i]] + t[i + 1..j] + [t[j]] + t[j + 1..];
  }

  lemma {:induction false} AtMostOnce(s: seq<Ballot>, x: Ballot)
    requires forall i, j | 0 <= i < j < |s| :: s[i].voter != s[j].voter
    ensures multiset(s)[x] <= 1
  {
    if s != [] {
      var n := |s| - 1;
      AtMostOnce(s[..n], x);
      assert s == s[..n] + [s[n]];
      if s[n] == x {
        assert x !in s[..n];
      }
    }
  }

  // ---- the weighted median

  /** The pivot loop stops at the first ballot whose prefix holds at least half the total power. */
  ghost predicate FirstCrossing(s: seq<Ballot>, k: nat) {
    && k < |s|
    && TotalPower(s) / 2 <= PrefixPower(s, k + 1)
    && forall n | 0 < n <= k :: PrefixPower(s, n) < TotalPower(s) / 2
  }

  /** `None` is the panic on ballots out of order. */
  method WeightedMedianWithAssertion(s: seq<Ballot>) returns (r: Option<Dec>, ghost k: nat)
    ensures r.None? <==> !Sorted(s)
    ensures s == [] ==> r == Some(0)
    ensures s != [] && r.Some? ==> FirstCrossing(s, k) && r.value == s[k].rate
  {
    k := 0;
    if !Sorted(s) {
      return None, k;
    }
    var totalPower := Power(s);
    if |s| > 0 {
      assert s[..|s|] == s && PrefixPower(s, |s|) == totalPower;
      TotalPowerIsNotNegative(s);
      var pivot := 0;
      for i := 0 to |s|
        invariant pivot == PrefixPower(s, i)
        invariant forall n | 0 < n <= i :: PrefixPower(s, n) < totalPower / 2
      {
        SumSeqNext(s, PowerOf(), i);
        pivot := pivot + s[i].power;
        if totalPower / 2 <= pivot {
          return Some(s[i].rate), i;
        }
      }
      assert false;
    }
    return Some(0), k;
  }

  lemma {:induction false} SumSeqIsNotNegative(s: seq<Ballot>, f: Ballot -> int)
    requires forall i | 0 <= i < |s| :: 0 <= f(s[i])
    ensures 0 <= SumSeq(s, f)
  {
    if s != [] {
      SumSeqIsNotNegative(s[..|s| - 1], f);
    }
  }

  lemma TotalPowerIsNotNegative(s: seq<Ballot>)
    ensures 0 <= TotalPower(s)
  {
    SumSeqIsNotNegative(s, PowerOf());
  }

  /** The median without an order: a voted rate up to which at least half the power (rounded down)
      lies, while the power strictly below it, if there are ballots below, is less than that half. */
  ghost predicate IsMedian(b: BallotMap, r: Dec) {
    var half := SumBy(b, PowerOf()) / 2;
    && (exists v :: v in b && b[v].rate == r)
    && half <= SumBy(b, PowerUpTo(r))
    && ((exists v :: v in b && b[v].rate < r) ==> SumBy(b, PowerBelow(r)) < half)
  }

  /** Sorted: the prefix up to `k` holds no more than the power up to the rate of `k`. */
  lemma {:induction false} PrefixIsUpTo(s: seq<Ballot>, k: nat, n: nat)
    requires Sorted(s) && k < n <= |s|
    ensures PrefixPower(s, k + 1) <= SumSeq(s[..n], PowerUpTo(s[k].rate))
    decreases n
  {
    var f := PowerUpTo(s[k].rate);
    if n == k + 1 {
      SumSeqLe(s[..n], PowerOf(), f);
    } else {
      PrefixIsUpTo(s, k, n - 1);
      SumSeqNext(s, f, n - 1);
    }
  }

  /** Sorted: all power strictly below the rate of `k` is in front of `k`. */
  lemma {:induction false} BelowIsInFront(s: seq<Ballot>, k: nat, n: nat)
    requires Sorted(s) && k <= n <= |s| && k < |s|
    ensures SumSeq(s[..n], PowerBelow(s[k].rate)) <= PrefixPower(s, k)
    decreases n
  {
    var f := PowerBelow(s[k].rate);
    if n == k {
      SumSeqLe(s[..n], f, PowerOf());
    } else {
      BelowIsInFront(s, k, n - 1);
      SumSeqNext(s, f, n - 1);
    }
  }

  lemma {:induction false} SumSeqLe(s: seq<Ballot>, f: Ballot -> int, g: Ballot -> int)
    requires forall i | 0 <= i < |s| :: f(s[i]) <= g(s[i])
    ensures SumSeq(s, f) <= SumSeq(s, g)
  {
    if s != [] {
      SumSeqLe(s[..|s| - 1], f, g);
    }
  }

  /** Where the pivot loop stops on sorted ballots is the median of what they list. */
  lemma CrossingIsMedian(s: seq<Ballot>, b: BallotMap, k: nat)
    requires Sorted(s) && Lists(s, b) && FirstCrossing(s, k)
    ensures IsMedian(b, s[k].rate)
  {
    hide SumBy, SumSeq;
    var r := s[k].rate;
    assert s[..|s|] == s;
    PrefixIsUpTo(s, k, |s|);
    BelowIsInFront(s, k, |s|);
    SumSeqIsSumBy(s, b, PowerOf());
    SumSeqIsSumBy(s, b, PowerUpTo(r));
    SumSeqIsSumBy(s, b, PowerBelow(r));
    assert s[k].voter in b && b[s[k].voter].rate == r;
    if exists v :: v in b && b[v].rate < r {
      var v :| v in b && b[v].rate < r;
      var i :| 0 <= i < |s| && s[i].voter == v;
      assert i < k;
      assert PrefixPower(s, k) < TotalPower(s) / 2;
    }
  }

  /** There is one median, whatever order equal rates were left in. */
  lemma MedianIsUnique(b: BallotMap, r: Dec, q: Dec)
    requires IsMedian(b, r) && IsMedian(b, q)
    ensures r == q
  {
    SumByLe(b, PowerUpTo(r), b, if r < q then PowerBelow(q) else PowerUpTo(r));
    SumByLe(b, PowerUpTo(q), b, if q < r then PowerBelow(r) else PowerUpTo(q));
  }

  ghost function Rates(b: BallotMap): set<Dec> {
    set v | v in b :: b[v].rate
  }

  lemma RateIsVoted(b: BallotMap, r: Dec)
    ensures r in Rates(b) <==> exists v :: v in b && b[v].rate == r
  {
  }

  /** All power lies up to the greatest rate. */
  lemma EnoughPowerSomewhere(b: BallotMap) returns (top: Dec)
    requires b != map[]
    ensures top in Rates(b) && SumBy(b, PowerOf()) / 2 <= SumBy(b, PowerUpTo(top))
  {
    var v :| v in b;
    RateIsVoted(b, b[v].rate);
    top := Greatest(Rates(b));
    forall u | u in b
      ensures b[u].rate <= top
    {
      RateIsVoted(b, b[u].rate);
    }
    SumByEq(b, PowerOf(), b, PowerUpTo(top));
    SumByNonNegative(b, PowerOf());
  }

  /** Ballots have a median: the least rate up to which half the power lies. */
  lemma MedianExists(b: BallotMap)
    requires b != map[]
    ensures IsMedian(b, Median(b))
  {
    var half := SumBy(b, PowerOf()) / 2;
    var top := EnoughPowerSomewhere(b);
    var enough := set r | r in Rates(b) && half <= SumBy(b, PowerUpTo(r));
    assert top in enough;
    var r := Least(enough);
    RateIsVoted(b, r);
    forall u | u in Rates(b) && half <= SumBy(b, PowerUpTo(u))
      ensures r <= u
    {
      assert u in enough;
    }
    hide SumBy, Rates;
    if exists u :: u in b && b[u].rate < r {
      LeastIsMedian(b, r, half);
    }
    assert IsMedian(b, r);
    hide IsMedian;
  }

  /** The power below `r` is the power up to the next lower rate. */
  lemma LeastIsMedian(b: BallotMap, r: Dec, half: int)
    requires forall u | u in Rates(b) && half <= SumBy(b, PowerUpTo(u)) :: r <= u
    requires exists u :: u in b && b[u].rate < r
    ensures SumBy(b, PowerBelow(r)) < half
  {
    var lower := set u | u in Rates(b) && u < r;
    var v :| v in b && b[v].rate < r;
    RateIsVoted(b, b[v].rate);
    assert b[v].rate in lower;
    var q := Greatest(lower);
    forall u | u in b
      ensures b[u].rate < r <==> b[u].rate <= q
    {
      RateIsVoted(b, b[u].rate);
      assert b[u].rate < r ==> b[u].rate in lower;
    }
    SumByEq(b, PowerBelow(r), b, PowerUpTo(q));
  }

  ghost function Median(b: BallotMap): Dec {
    if r :| IsMedian(b, r) then r else 0
  }

  /** Non-positive rates carry no power. */
  ghost predicate AbstainWithoutPower(b: BallotMap) {
    forall v | v in b :: b[v].rate <= 0 ==> b[v].power == 0
  }

  /** With power to count, the median is positive exactly when the total power is at least 2 or
      nobody abstained: at total power 1 the half is 0 and the least rate is returned. */
  lemma MedianIsPositive(b: BallotMap, r: Dec)
    requires AbstainWithoutPower(b) && IsMedian(b, r) && 1 <= SumBy(b, PowerOf())
    ensures 0 < r <==> 2 <= SumBy(b, PowerOf()) || forall v | v in b :: 0 < b[v].rate
  {
    if r <= 0 {
      SumByZero(b, PowerUpTo(r));
    } else if SumBy(b, PowerOf()) == 1 {
      SumByNonNegative(b, PowerBelow(r));
      assert !(exists v :: v in b && b[v].rate < r);
    }
  }

  /** At total power 1 an abstainer wins the median. */
  lemma AbstainerAtPowerOne()
    ensures var b: BallotMap := map["a" := Ballot(0, "p:q", "a", 0), "b" := Ballot(7, "p:q", "b", 1)];
            AbstainWithoutPower(b) && SumBy(b, PowerOf()) == 1 && IsMedian(b, 0)
  {
    var b: BallotMap := map["a" := Ballot(0, "p:q", "a", 0), "b" := Ballot(7, "p:q", "b", 1)];
    SumByRemove(b, PowerOf(), "a");
    SumByRemove(b - {"a"}, PowerOf(), "b");
    assert b - {"a"} - {"b"} == map[];
    SumByNonNegative(b, PowerUpTo(0));
    assert b["a"].rate == 0;
  }

  /** The median is at least `lo` exactly if nobody voted less, or the power below `lo` is less than half. */
  lemma MedianAtLeast(b: BallotMap, r: Dec, lo: Dec)
    requires IsMedian(b, r)
    ensures lo <= r <==> (forall v | v in b :: lo <= b[v].rate) || SumBy(b, PowerBelow(lo)) < SumBy(b, PowerOf()) / 2
  {
    if lo <= r {
      SumByLe(b, PowerBelow(lo), b, PowerBelow(r));
    } else {
      SumByLe(b, PowerUpTo(r), b, PowerBelow(lo));
    }
  }

  /** The median is at most `hi` exactly if somebody voted at most that, and the power up to `hi` is at least half. */
  lemma MedianAtMost(b: BallotMap, r: Dec, hi: Dec)
    requires IsMedian(b, r)
    ensures r <= hi <==> (exists v :: v in b && b[v].rate <= hi) && SumBy(b, PowerOf()) / 2 <= SumBy(b, PowerUpTo(hi))
  {
    if r <= hi {
      SumByLe(b, PowerUpTo(r), b, PowerUpTo(hi));
    } else if exists v :: v in b && b[v].rate <= hi {
      SumByLe(b, PowerUpTo(hi), b, PowerBelow(r));
    }
  }

  /** If the ballots outside [lo, hi] hold less than half the power, the median is inside. */
  lemma MedianWithin(b: BallotMap, r: Dec, lo: Dec, hi: Dec)
    requires IsMedian(b, r)
    requires SumBy(b, PowerOutside(lo, hi)) < SumBy(b, PowerOf()) / 2
    ensures lo <= r <= hi
  {
    var half := SumBy(b, PowerOf()) / 2;
    SumByAdditive(b, PowerInside(lo, hi), PowerOutside(lo, hi), PowerOf());
    SumByLe(b, PowerBelow(lo), b, PowerOutside(lo, hi));
    SumByLe(b, PowerInside(lo, hi), b, PowerUpTo(hi));
    SumByNonNegative(b, PowerOutside(lo, hi));
    if forall v | v in b :: hi < b[v].rate {
      SumByZero(b, PowerInside(lo, hi));
    }
    hide SumBy;
    MedianAtLeast(b, r, lo);
    MedianAtMost(b, r, hi);
  }

  /** Half the power outside is too much already: of two voters of power 1 the lower rate wins. */
  lemma HalfThePowerMovesTheMedian()
    ensures var b: BallotMap := map["a" := Ballot(1, "p:q", "a", 1), "b" := Ballot(9, "p:q", "b", 1)];
            SumBy(b, PowerOutside(5, 10)) == SumBy(b, PowerOf()) / 2 && IsMedian(b, 1)
  {
    var b: BallotMap := map["a" := Ballot(1, "p:q", "a", 1), "b" := Ballot(9, "p:q", "b", 1)];
    assert b - {"a"} - {"b"} == map[];
    SumByRemove(b, PowerOf(), "a");
    SumByRemove(b - {"a"}, PowerOf(), "b");
    SumByRemove(b, PowerOutside(5, 10), "a");
    SumByRemove(b - {"a"}, PowerOutside(5, 10), "b");
    SumByRemove(b, PowerUpTo(1), "a");
    SumByRemove(b - {"a"}, PowerUpTo(1), "b");
    assert b["a"].rate == 1;
  }

  /** With total power of at least 2 somebody with power voted exactly the median. */
  lemma MedianHasPower(b: BallotMap, r: Dec) returns (v: Address)
    requires IsMedian(b, r) && 2 <= SumBy(b, PowerOf())
    ensures v in b && b[v].rate == r && 0 < b[v].power
  {
    SumByAdditive(b, PowerBelow(r), PowerAt(r), PowerUpTo(r));
    if !(exists v :: v in b && b[v].rate < r) {
      SumByZero(b, PowerBelow(r));
    }
    if forall v | v in b :: PowerAt(r)(b[v]) == 0 {
      SumByZero(b, PowerAt(r));
    }
    v :| v in b && PowerAt(r)(b[v]) != 0;
  }

  // ---- deviation

  /** A squared deviation is the nearest decimal of the square. */
  lemma SquareIsNearest(median: Dec, b: Ballot)
    ensures var d := b.rate - median;
            -ONE <= 2 * (d * d - SquaredDeviation(median)(b) * ONE) <= ONE
  {
  }

  /** The variance that `StandardDeviation` takes the root of. */
  ghost function Variance(b: BallotMap, median: Dec): Dec
    requires b != map[]
  {
    QuoInt(SumBy(b, SquaredDeviation(median)), |b|)
  }

  /** `root` stands for the square root by way of floating point and text. */
  method StandardDeviation(s: seq<Ballot>, median: Dec, root: Dec -> nat, ghost b: BallotMap) returns (r: nat)
    requires Lists(s, b)
    ensures r == if b == map[] then 0 else root(Variance(b, median))
  {
    ListsLength(s, b);
    if |s| == 0 {
      return 0;
    }
    var sum := 0;
    for i := 0 to |s|
      invariant sum == SumSeq(s[..i], SquaredDeviation(median))
    {
      SumSeqNext(s, SquaredDeviation(median), i);
      var deviation := s[i].rate - median;
      sum := sum + Mul(deviation, deviation);
    }
    assert s[..|s|] == s;
    SumSeqIsSumBy(s, b, SquaredDeviation(median));
    return root(QuoInt(sum, |s|));
  }
}
