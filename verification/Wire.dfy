/** Base-128 varints as oracle/types/genesis.pb.go writes, measures and reads them
    (Protocol Buffers Encoding, "Base 128 Varints"). */
module Wire {
  import opened Prelude

  type Byte = b: int | 0 <= b < 0x100
  type Bytes = seq<Byte>

  datatype DecodeError =
    | IntOverflow
    | UnexpectedEOF
    | InvalidLength
    | EndGroup
    | IllegalTag
    | WrongWireType
    | IllegalWireType

  // ---- writing

  function Varint(v: nat): (s: Bytes)
    ensures 1 <= |s|
  {
    if v < 0x80 then [v] else [v % 0x80 + 0x80] + Varint(v / 0x80)
  }

  /** `bits.Len64`. */
  function BitLen(x: nat): nat {
    if x == 0 then 0 else 1 + BitLen(x / 2)
  }

  /** `x | 1`. */
  function SetLowBit(x: nat): nat { x - x % 2 + 1 }

  /** The size of a varint, by the bit length. */
  function Sov(x: nat): nat { (BitLen(SetLowBit(x)) + 6) / 7 }

  lemma SevenBits(x: nat)
    requires 0x80 <= x
    ensures BitLen(x) == 7 + BitLen(x / 0x80)
  {
    var x1 := x / 2;
    var x2 := x1 / 2;
    var x3 := x2 / 2;
    var x4 := x3 / 2;
    var x5 := x4 / 2;
    var x6 := x5 / 2;
    assert x6 / 2 == x / 0x80;
    assert BitLen(x) == 1 + BitLen(x1) && BitLen(x1) == 1 + BitLen(x2);
    assert BitLen(x2) == 1 + BitLen(x3) && BitLen(x3) == 1 + BitLen(x4);
    assert BitLen(x4) == 1 + BitLen(x5) && BitLen(x5) == 1 + BitLen(x6);
  }

  lemma {:induction false} FewBits(x: nat, k: nat)
    requires x < Pow2(k)
    ensures BitLen(x) <= k
  {
    if x != 0 {
      FewBits(x / 2, k - 1);
    }
  }

  lemma LowBitKeepsLength(x: nat)
    requires 1 <= x
    ensures BitLen(SetLowBit(x)) == BitLen(x)
  {
    assert SetLowBit(x) / 2 == x / 2;
  }

  /** The size computed from the bit length is the number of bytes written. */
  lemma {:induction false} SovIsTheLength(v: nat)
    ensures |Varint(v)| == Sov(v)
  {
    if v < 0x80 {
      assert Pow2(7) == 0x80;
      FewBits(SetLowBit(v), 7);
    } else {
      SovIsTheLength(v / 0x80);
      LowBitKeepsLength(v);
      LowBitKeepsLength(v / 0x80);
      SevenBits(v);
    }
  }

  /** Overwriting the element behind `done`. */
  lemma PutNext(done: Bytes, was: Bytes, i: nat, x: Byte)
    requires i == |done| && i < |was|
    ensures (done + was[i..])[i := x] == (done + [x]) + was[i + 1..]
  {
  }

  /** Writes `v` so that it ends just before `offset`; everything else stays. A buffer too
      short is an index panic in Go. */
  method EncodeVarint(a: array<Byte>, offset: nat, v: nat) returns (base: nat)
    requires Sov(v) <= offset <= a.Length
    modifies a
    ensures base == offset - Sov(v)
    ensures a[..] == old(a[..])[..base] + (Varint(v) + old(a[..])[offset..])
  {
    base := offset - Sov(v);
    SovIsTheLength(v);
    hide Sov, BitLen;
    ghost var was: Bytes := a[..];
    ghost var front := was[..base];
    ghost var done: Bytes := front;
    var i, w := base, v;
    assert front + Varint(w) == front + Varint(v);
    while 0x80 <= w
      invariant i == |done| && i + |Varint(w)| == offset
      invariant a[..] == done + was[i..] && done + Varint(w) == front + Varint(v)
      decreases w
    {
      a[i] := w % 0x80 + 0x80;
      PutNext(done, was, i, w % 0x80 + 0x80);
      MoveOver(done, w % 0x80 + 0x80, Varint(w / 0x80));
      done := done + [w % 0x80 + 0x80];
      w := w / 0x80;
      i := i + 1;
    }
    a[i] := w;
    PutNext(done, was, i, w);
    Associate(front, Varint(v), was[offset..]);
  }

  lemma MoveOver(a: Bytes, x: Byte, b: Bytes)
    ensures a + ([x] + b) == (a + [x]) + b
  {
  }

  lemma Associate(a: Bytes, b: Bytes, c: Bytes)
    ensures (a + b) + c == a + (b + c)
  {
  }

  // ---- reading

  function Pow2(n: nat): (r: nat)
    ensures 0 < r
  {
    if n == 0 then 1 else 2 * Pow2(n - 1)
  }

  lemma {:induction false} Pow2Adds(m: nat, n: nat)
    ensures Pow2(m + n) == Pow2(m) * Pow2(n)
  {
    if n != 0 {
      Pow2Adds(m, n - 1);
      assert Pow2(m) * (2 * Pow2(n - 1)) == 2 * (Pow2(m) * Pow2(n - 1));
    }
  }

  /** The read loop from the front of `data`: the value, and how many bytes it took. The bits of
      `acc` lie below `shift`, so Go's `|=` of the shifted group adds; 64 bits are kept. */
  function ReadFrom(data: Bytes, shift: nat, acc: nat): (r: Result<(nat, nat), DecodeError>)
    ensures r.Ok? ==> 1 <= r.value.1 <= |data| && r.value.0 < TWO64
    decreases |data|
  {
    if 64 <= shift then Err(IntOverflow)
    else if data == [] then Err(UnexpectedEOF)
    else
      var acc' := U64(acc + data[0] % 0x80 * Pow2(shift));
      if data[0] < 0x80 then Ok((acc', 1))
      else match ReadFrom(data[1..], shift + 7, acc')
        case Ok((v, n)) => Ok((v, n + 1))
        case Err(e) => Err(e)
  }

  function ReadVarint(data: Bytes): (r: Result<(nat, nat), DecodeError>)
    ensures r.Ok? ==> 1 <= r.value.1 <= |data| && r.value.0 < TWO64
  {
    ReadFrom(data, 0, 0)
  }

  /** The bits collected when the read loop stops, on an error too. */
  function Collected(data: Bytes, shift: nat, acc: nat): nat
    decreases |data|
  {
    if 64 <= shift || data == [] then acc
    else
      var acc' := U64(acc + data[0] % 0x80 * Pow2(shift));
      if data[0] < 0x80 then acc' else Collected(data[1..], shift + 7, acc')
  }

  /** Reads at index `start`; the index after the varint is `next`, the variable of the loop holds `wire`. */
  method ReadVarintAt(data: Bytes, start: nat) returns (r: Result<nat, DecodeError>, next: nat, wire: nat)
    requires start <= |data|
    ensures match ReadVarint(data[start..])
            case Ok((v, n)) => r == Ok(v) && next == start + n && wire == v
            case Err(e) => r == Err(e)
    ensures wire == Collected(data[start..], 0, 0)
  {
    var shift: nat := 0;
    wire := 0;
    next := start;
    while true
      invariant start <= next <= |data|
      invariant match ReadFrom(data[next..], shift, wire)
                case Ok((v, n)) => ReadVarint(data[start..]) == Ok((v, next - start + n))
                case Err(e) => ReadVarint(data[start..]) == Err(e)
      invariant Collected(data[next..], shift, wire) == Collected(data[start..], 0, 0)
      decreases |data| - next
    {
      if 64 <= shift {
        return Err(IntOverflow), next, wire;
      }
      if |data| <= next {
        return Err(UnexpectedEOF), next, wire;
      }
      var b := data[next];
      assert data[next..][1..] == data[next + 1..];
      next := next + 1;
      wire := U64(wire + b % 0x80 * Pow2(shift));
      if b < 0x80 {
        return Ok(wire), next, wire;
      }
      shift := shift + 7;
    }
  }

  /** The value of groups of seven bits, the lowest first. */
  function GroupValue(s: Bytes): nat {
    if s == [] then 0 else s[0] % 0x80 + 0x80 * GroupValue(s[1..])
  }

  /** All bytes but the last are marked with the high bit. */
  ghost predicate Marked(s: Bytes) {
    1 <= |s| && s[|s| - 1] < 0x80 && forall i | 0 <= i < |s| - 1 :: 0x80 <= s[i]
  }

  /** A varint is the value in groups of seven bits, the lowest first, all but the last marked, and no longer than it
      needs to be. */
  lemma {:induction false} VarintIsInGroups(v: nat)
    ensures Marked(Varint(v)) && GroupValue(Varint(v)) == v
    ensures 1 < |Varint(v)| ==> Varint(v)[|Varint(v)| - 1] != 0
  {
    hide Varint, GroupValue, Marked;
    VarintUnrolls(v);
    if v < 0x80 {
      OneGroup(v);
    } else {
      var high, low := v / 0x80, v % 0x80;
      VarintIsInGroups(high);
      LastGroup(high);
      PrependGroup(low + 0x80, Varint(high));
      assert v == low + 0x80 * high;
    }
  }

  lemma VarintUnrolls(v: nat)
    ensures Varint(v) == if v < 0x80 then [v] else [v % 0x80 + 0x80] + Varint(v / 0x80)
  {
  }

  lemma OneGroup(v: nat)
    requires v < 0x80
    ensures Marked([v]) && GroupValue([v]) == v
  {
    assert [v][1..] == [];
  }

  lemma LastGroup(v: nat)
    requires 1 <= v
    ensures |Varint(v)| == 1 ==> Varint(v)[0] != 0
  {
  }

  lemma PrependGroup(group: Byte, rest: Bytes)
    requires 0x80 <= group && Marked(rest)
    ensures var s := [group] + rest;
            && Marked(s) && GroupValue(s) == group - 0x80 + 0x80 * GroupValue(rest)
            && s[|s| - 1] == rest[|rest| - 1]
  {
    assert ([group] + rest)[1..] == rest;
  }

  /** Bytes after a varint do not change how it is read. */
  lemma {:induction false} ReadFromIsLocal(s: Bytes, rest: Bytes, shift: nat, acc: nat)
    requires ReadFrom(s, shift, acc).Ok?
    ensures ReadFrom(s + rest, shift, acc) == ReadFrom(s, shift, acc)
    decreases |s|
  {
    if 0x80 <= s[0] {
      assert (s + rest)[1..] == s[1..] + rest;
      ReadFromIsLocal(s[1..], rest, shift + 7, U64(acc + s[0] % 0x80 * Pow2(shift)));
    }
  }

  /** A varint of up to ten bytes, in the shortest form or not. */
  ghost predicate IsVarint(s: Bytes) {
    && 1 <= |s| <= 10
    && s[|s| - 1] < 0x80
    && forall i | 0 <= i < |s| - 1 :: 0x80 <= s[i]
  }

  lemma {:induction false} ReadsAllOf(s: Bytes, shift: nat, acc: nat)
    requires IsVarint(s) && shift + 7 * (|s| - 1) < 64
    ensures ReadFrom(s, shift, acc).Ok? && ReadFrom(s, shift, acc).value.1 == |s|
    decreases |s|
  {
    if 1 < |s| {
      ReadsAllOf(s[1..], shift + 7, U64(acc + s[0] % 0x80 * Pow2(shift)));
    }
  }

  /** What is read is a varint. */
  lemma {:induction false} ReadIsVarint(data: Bytes, shift: nat, acc: nat)
    requires ReadFrom(data, shift, acc).Ok?
    ensures var n := ReadFrom(data, shift, acc).value.1;
            shift + 7 * (n - 1) < 64 && data[n - 1] < 0x80 && forall i | 0 <= i < n - 1 :: 0x80 <= data[i]
    decreases |data|
  {
    if 0x80 <= data[0] {
      ReadIsVarint(data[1..], shift + 7, U64(acc + data[0] % 0x80 * Pow2(shift)));
      var n := ReadFrom(data, shift, acc).value.1;
      assert forall i | 0 < i < n - 1 :: data[i] == data[1..][i - 1];
      assert data[n - 1] == data[1..][n - 2];
    }
  }

  function Scaled(v: nat, shift: nat): nat { v * Pow2(shift) }

  /** Reading back the groups of `v` from bit `shift` on. */
  lemma {:induction false} ReadsBackFrom(v: nat, rest: Bytes, shift: nat, acc: nat)
    requires shift < 64 && acc + Scaled(v, shift) < TWO64
    ensures ReadFrom(Varint(v) + rest, shift, acc) == Ok((acc + Scaled(v, shift), |Varint(v)|))
    decreases v
  {
    hide Scaled, ReadFrom;
    var q, low := v / 0x80, v % 0x80;
    SplitLowGroup(v, shift);
    if v < 0x80 {
      ReadGroup(v, rest, shift, acc);
    } else {
      HighGroupFits(q, shift);
      ReadsBackFrom(q, rest, shift + 7, acc + Scaled(low, shift));
      ReadGroup(low + 0x80, Varint(q) + rest, shift, acc);
      Associate([low + 0x80], Varint(q), rest);
    }
  }

  /** One turn of the read loop, when the 64 bits do not overflow. */
  lemma ReadGroup(b: Byte, rest: Bytes, shift: nat, acc: nat)
    requires shift < 64 && acc + Scaled(b % 0x80, shift) < TWO64
    ensures var next := acc + Scaled(b % 0x80, shift);
            ReadFrom([b] + rest, shift, acc) ==
              if b < 0x80 then Ok((next, 1))
              else match ReadFrom(rest, shift + 7, next)
                case Ok((v, n)) => Ok((v, n + 1))
                case Err(e) => Err(e)
  {
    hide Pow2;
    assert ([b] + rest)[1..] == rest;
  }

  lemma SplitLowGroup(v: nat, shift: nat)
    ensures Scaled(v, shift) == Scaled(v / 0x80, shift + 7) + Scaled(v % 0x80, shift)
    ensures v < 0x80 ==> Scaled(v / 0x80, shift + 7) == 0
  {
    var p, q, low := Pow2(shift), v / 0x80, v % 0x80;
    Pow2Adds(7, shift);
    assert Pow2(7) == 0x80;
    Distribute(q, low, p);
  }

  lemma Distribute(q: nat, low: nat, p: nat)
    ensures (q * 0x80 + low) * p == q * (0x80 * p) + low * p
    ensures 0 <= q * (0x80 * p) && 0 <= low * p
  {
  }

  lemma HighGroupFits(q: nat, shift: nat)
    requires 1 <= q && Scaled(q, shift + 7) < TWO64
    ensures shift + 7 < 64
  {
    assert 1 * Pow2(shift + 7) <= q * Pow2(shift + 7);
    SixtyFourBits();
    if 64 <= shift + 7 {
      Pow2Monotone(64, shift + 7);
    }
  }

  lemma SixtyFourBits()
    ensures Pow2(64) == TWO64
  {
    assert Pow2(8) == 0x100;
    Pow2Adds(8, 8);
    hide Pow2;
    Pow2Adds(16, 16);
    Pow2Adds(32, 32);
  }

  lemma {:induction false} Pow2Monotone(m: nat, n: nat)
    requires m <= n
    ensures Pow2(m) <= Pow2(n)
  {
    if m < n {
      Pow2Monotone(m, n - 1);
    }
  }

  /** Every 64-bit value is read back, whatever follows it. */
  lemma VarintRoundTrip(v: nat, rest: Bytes)
    requires v < TWO64
    ensures ReadVarint(Varint(v) + rest) == Ok((v, Sov(v)))
  {
    SovIsTheLength(v);
    assert Scaled(v, 0) == v;
    ReadsBackFrom(v, rest, 0, 0);
  }
}
