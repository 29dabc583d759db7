/** Encoding and decoding of `MissCounter` and `FeederDelegation` (x/oracle/types/genesis.pb.go). */
module GenesisCodec {
  import opened Prelude
  import opened Wire
  import opened Skip

  /** A message value. Address strings are their bytes. */
  datatype Message =
    | MissCounter(validatorAddress: Bytes, missCounter: nat)
    | FeederDelegation(feederAddress: Bytes, operatorAddress: Bytes)

  /** Go's slices have an `int` length and the counter is a `uint64`. */
  ghost predicate Fits(m: Message) {
    match m
    case MissCounter(address, counter) => |address| < TWO63 && counter < TWO64
    case FeederDelegation(feeder, operator) => |feeder| < TWO63 && |operator| < TWO63
  }

  /** The message before anything was read. */
  function Zero(m: Message): Message {
    match m
    case MissCounter(_, _) => MissCounter([], 0)
    case FeederDelegation(_, _) => FeederDelegation([], [])
  }

  // ---- the encoding

  const TAG_1_BYTES: Byte := 0x0a
  const TAG_2_BYTES: Byte := 0x12
  const TAG_2_VARINT: Byte := 0x10

  function BytesField(tag: Byte, s: Bytes): Bytes {
    if s == [] then [] else [tag] + Varint(|s|) + s
  }

  function CounterField(v: nat): Bytes {
    if v == 0 then [] else [TAG_2_VARINT] + Varint(v)
  }

  function Encoding(m: Message): Bytes {
    match m
    case MissCounter(address, counter) => BytesField(TAG_1_BYTES, address) + CounterField(counter)
    case FeederDelegation(feeder, operator) => BytesField(TAG_1_BYTES, feeder) + BytesField(TAG_2_BYTES, operator)
  }

  function BytesFieldSize(s: Bytes): nat {
    var l := |s|;
    if 0 < l then 1 + l + Sov(l) else 0
  }

  /** The size by which `Marshal` allocates. */
  function Size(m: Message): nat {
    match m
    case MissCounter(address, counter) =>
      BytesFieldSize(address) + if counter != 0 then 1 + Sov(counter) else 0
    case FeederDelegation(feeder, operator) => BytesFieldSize(feeder) + BytesFieldSize(operator)
  }

  lemma SizeIsTheLength(m: Message)
    ensures |Encoding(m)| == Size(m)
  {
    match m
    case MissCounter(address, counter) =>
      SovIsTheLength(|address|);
      SovIsTheLength(counter);
    case FeederDelegation(feeder, operator) =>
      SovIsTheLength(|feeder|);
      SovIsTheLength(|operator|);
  }

  /** A buffer rewritten from `i` on, cut at an earlier index and at `i`. */
  lemma CutRewritten(was: Bytes, base: nat, i: nat, tail: Bytes)
    requires base <= i <= |was|
    ensures (was[..i] + tail)[..base] == was[..base]
    ensures (was[..i] + tail)[i..] == tail
  {
  }

  /** A tag put in front of what was written. */
  lemma PutTag(was: Bytes, base: nat, tail: Bytes, tag: Byte)
    requires 1 <= base <= |was|
    ensures (was[..base] + tail)[base - 1 := tag] == was[..base - 1] + ([tag] + tail)
  {
  }

  /** Go's `copy`. */
  method Copy(a: array<Byte>, i: nat, s: Bytes)
    requires i + |s| <= a.Length
    modifies a
    ensures a[..] == old(a[..])[..i] + (s + old(a[..])[i + |s|..])
  {
    forall k | 0 <= k < |s| {
      a[i + k] := s[k];
    }
  }

  lemma TagVarintTail(tag: Byte, s: Bytes, tail: Bytes)
    requires s != []
    ensures [tag] + (Varint(|s|) + (s + tail)) == BytesField(tag, s) + tail
  {
    hide Varint;
    Associate(Varint(|s|), s, tail);
    Associate([tag], Varint(|s|) + s, tail);
    Associate([tag], Varint(|s|), s);
  }

  /** Writes `s` with its length and tag so that it ends before `end`, if it is not empty. */
  method WriteBytesField(a: array<Byte>, end: nat, tag: Byte, s: Bytes) returns (i: nat)
    requires BytesFieldSize(s) <= end <= a.Length
    modifies a
    ensures i == end - BytesFieldSize(s)
    ensures a[..] == old(a[..])[..i] + (BytesField(tag, s) + old(a[..])[end..])
  {
    ghost var was: Bytes := a[..];
    i := end;
    if |s| == 0 {
      assert was == was[..i] + ([] + was[end..]);
      return;
    }
    hide Varint, BytesField, Sov, BitLen;
    i := i - |s|;
    ghost var start, tail := i, s + was[end..];
    Copy(a, i, s);
    assert a[..] == was[..start] + tail;
    i := EncodeVarint(a, i, |s|);
    CutRewritten(was, i, start, tail);
    assert a[..] == was[..i] + (Varint(|s|) + tail);
    PutTag(was, i, Varint(|s|) + tail, tag);
    i := i - 1;
    a[i] := tag;
    TagVarintTail(tag, s, was[end..]);
  }

  method WriteCounterField(a: array<Byte>, end: nat, v: nat) returns (i: nat)
    requires (if v != 0 then 1 + Sov(v) else 0) <= end <= a.Length
    modifies a
    ensures i == end - if v != 0 then 1 + Sov(v) else 0
    ensures a[..] == old(a[..])[..i] + (CounterField(v) + old(a[..])[end..])
  {
    ghost var was: Bytes := a[..];
    i := end;
    if v == 0 {
      assert was == was[..i] + ([] + was[end..]);
      return;
    }
    hide Varint, Sov, BitLen;
    i := EncodeVarint(a, i, v);
    PutTag(was, i, Varint(v) + was[end..], TAG_2_VARINT);
    i := i - 1;
    a[i] := TAG_2_VARINT;
    Associate([TAG_2_VARINT], Varint(v), was[end..]);
  }

  // ---- the decoding

  /** The content of a length-delimited field whose tag took `n` bytes: the content and the bytes
      consumed. `off` is the index of the tag in the whole buffer, where additions wrap. */
  function ReadBytes(data: Bytes, off: nat, n: nat): (r: Result<(Bytes, nat), DecodeError>)
    requires n <= |data| && off + |data| < TWO63
    ensures r.Ok? ==> n < r.value.1 <= |data|
  {
    match ReadVarint(data[n..])
    case Err(e) => Err(e)
    case Ok((v, k)) =>
      var length := I64(v);
      if length < 0 then Err(InvalidLength)
      else if I64(off + n + k + length) < 0 then Err(InvalidLength)
      else if off + |data| < I64(off + n + k + length) then Err(UnexpectedEOF)
      else Ok((data[n + k..n + k + length], n + k + length))
  }

  /** An unknown field, skipped from its tag on. */
  function SkipUnknown(data: Bytes, off: nat): (r: Result<nat, DecodeError>)
    requires off + |data| < TWO63
    ensures r.Ok? ==> 1 <= r.value <= |data|
  {
    match SkipFrom(data, 0, 0)
    case Err(e) => Err(e)
    case Ok(n) =>
      if I64(off + n) < 0 then Err(InvalidLength)
      else if |data| < n then Err(UnexpectedEOF)
      else Ok(n)
  }

  function FieldNumber(wire: nat): int {
    (wire / 8 + 0x8000_0000) % 0x1_0000_0000 - 0x8000_0000
  }

  /** The number is the `int32` that the tag without its wire type converts to. */
  lemma FieldNumberIsConverted(wire: nat)
    ensures -0x8000_0000 <= FieldNumber(wire) < 0x8000_0000
    ensures (FieldNumber(wire) - wire / 8) % 0x1_0000_0000 == 0
  {
  }

  /** For the numbers of the standard, those up to 2^29 - 1, it is the number that the tag was made from. */
  lemma TagHasNumber(number: nat, wireType: nat)
    requires 1 <= number < 0x2000_0000 && wireType < 8
    ensures FieldNumber(8 * number + wireType) == number && (8 * number + wireType) % 8 == wireType
  {
  }

  /** The wire type a known field must have; fields of other numbers are unknown. */
  function ExpectedWireType(m: Message, fieldNumber: int): Option<nat> {
    if fieldNumber == 1 then Some(2)
    else if fieldNumber == 2 then Some(if m.MissCounter? then 0 else 2)
    else None
  }

  function SetBytes(m: Message, fieldNumber: int, s: Bytes): Message {
    match m
    case MissCounter(_, _) => m.(validatorAddress := s)
    case FeederDelegation(_, _) => if fieldNumber == 1 then m.(feederAddress := s) else m.(operatorAddress := s)
  }

  /** One field at the front of the data: the message after it and the bytes consumed. */
  function ReadField(data: Bytes, off: nat, m: Message): (r: Result<(Message, nat), DecodeError>)
    requires off + |data| < TWO63
    ensures r.Ok? ==> 1 <= r.value.1 <= |data|
  {
    match ReadVarint(data)
    case Err(e) => Err(e)
    case Ok((wire, n)) =>
      var fieldNumber, wireType := FieldNumber(wire), wire % 8;
      if wireType == 4 then Err(EndGroup)
      else if fieldNumber <= 0 then Err(IllegalTag)
      else
        match ExpectedWireType(m, fieldNumber)
        case None =>
          (match SkipUnknown(data, off)
           case Ok(k) => Ok((m, k))
           case Err(e) => Err(e))
        case Some(t) =>
          if wireType != t then Err(WrongWireType)
          else if t == 2 then
            match ReadBytes(data, off, n)
            case Ok((s, k)) => Ok((SetBytes(m, fieldNumber, s), k))
            case Err(e) => Err(e)
          else
            match ReadVarint(data[n..])
            case Ok((v, k)) => Ok((MissCounter(m.validatorAddress, v), n + k))
            case Err(e) => Err(e)
  }

  /** All of `data`, merged into `m`; `off` is its index in the buffer. */
  function Decode(data: Bytes, off: nat, m: Message): Result<Message, DecodeError>
    requires off + |data| < TWO63
    decreases |data|
  {
    if data == [] then Ok(m)
    else match ReadField(data, off, m)
      case Ok((m', n)) => Decode(data[n..], off + n, m')
      case Err(e) => Err(e)
  }

  /** What a field that cannot be read leaves behind: the counter is collected in place. */
  function CutShort(data: Bytes, m: Message): Message {
    match ReadVarint(data)
    case Ok((wire, n)) =>
      if m.MissCounter? && FieldNumber(wire) == 2 && wire % 8 == 0
      then MissCounter(m.validatorAddress, Collected(data[n..], 0, 0))
      else m
    case Err(_) => m
  }

  /** The message when decoding stops, at the end or at the first field that cannot be read. */
  function Left(data: Bytes, off: nat, m: Message): Message
    requires off + |data| < TWO63
    decreases |data|
  {
    if data == [] then m
    else match ReadField(data, off, m)
      case Ok((m', n)) => Left(data[n..], off + n, m')
      case Err(_) => CutShort(data, m)
  }

  // ---- decoding field by field

  lemma ReadBytesIsLocal(data: Bytes, rest: Bytes, off: nat, n: nat)
    requires n <= |data| && off + |data + rest| < TWO63
    requires ReadBytes(data, off, n).Ok?
    ensures ReadBytes(data + rest, off, n) == ReadBytes(data, off, n)
  {
    hide ReadVarint, ReadFrom;
    assert (data + rest)[n..] == data[n..] + rest;
    ReadVarintIsLocal(data[n..], rest);
    var (v, k) := ReadVarint(data[n..]).value;
    assert (data + rest)[n + k..n + k + v] == data[n + k..n + k + v];
  }

  lemma ReadVarintIsLocal(data: Bytes, rest: Bytes)
    requires ReadVarint(data).Ok?
    ensures ReadVarint(data + rest) == ReadVarint(data)
  {
    ReadFromIsLocal(data, rest, 0, 0);
  }

  /** A field read within the data is read the same with more data behind it. */
  lemma ReadFieldIsLocal(data: Bytes, rest: Bytes, off: nat, m: Message)
    requires off + |data + rest| < TWO63
    requires ReadField(data, off, m).Ok?
    ensures ReadField(data + rest, off, m) == ReadField(data, off, m)
  {
    hide ReadVarint, ReadFrom, SkipFrom;
    ReadVarintIsLocal(data, rest);
    var (wire, n) := ReadVarint(data).value;
    assert (data + rest)[n..] == data[n..] + rest;
    match ExpectedWireType(m, FieldNumber(wire))
    case None => SkipIsLocal(data, rest, 0, 0);
    case Some(t) =>
      if t == 2 {
        ReadBytesIsLocal(data, rest, off, n);
      } else {
        ReadVarintIsLocal(data[n..], rest);
      }
  }

  lemma DecodeUnrolls(data: Bytes, off: nat, m: Message)
    requires off + |data| < TWO63 && data != []
    ensures Decode(data, off, m) ==
              match ReadField(data, off, m)
              case Ok((m', n)) => Decode(data[n..], off + n, m')
              case Err(e) => Err(e)
  {
  }

  lemma LeftUnrolls(data: Bytes, off: nat, m: Message)
    requires off + |data| < TWO63 && data != []
    ensures Left(data, off, m) ==
              match ReadField(data, off, m)
              case Ok((m', n)) => Left(data[n..], off + n, m')
              case Err(_) => CutShort(data, m)
  {
  }

  lemma DecodeNothing(off: nat, m: Message)
    requires off < TWO63
    ensures Decode([], off, m) == Ok(m)
  {
  }

  /** Decoding is compositional: complete fields first, then what is behind them. */
  lemma {:induction false} DecodeConcatenation(a: Bytes, b: Bytes, off: nat, m: Message)
    requires off + |a + b| < TWO63
    requires Decode(a, off, m).Ok?
    ensures Decode(a + b, off, m) == Decode(b, off + |a|, Decode(a, off, m).value)
    decreases |a|
  {
    hide Decode, ReadField;
    if a == [] {
      assert a + b == b;
      DecodeNothing(off, m);
    } else {
      DecodeUnrolls(a, off, m);
      DecodeUnrolls(a + b, off, m);
      ReadFieldIsLocal(a, b, off, m);
      var (m', n) := ReadField(a, off, m).value;
      assert (a + b)[n..] == a[n..] + b;
      DecodeConcatenation(a[n..], b, off + n, m');
    }
  }

  /** The same message, or an error both times; only the kind of error may depend on the offset. */
  /** A complete decoding leaves its message, and an error keeps all the fields that were read before it. */
  lemma {:induction false} LeftAfterFields(a: Bytes, b: Bytes, off: nat, m: Message)
    requires off + |a + b| < TWO63 && Decode(a, off, m).Ok?
    ensures Left(a + b, off, m) == Left(b, off + |a|, Decode(a, off, m).value)
    decreases |a|
  {
    hide Decode, ReadField, Left, CutShort;
    if a == [] {
      DecodeNothing(off, m);
      assert a + b == b;
    } else {
      DecodeUnrolls(a, off, m);
      var (m', n) := ReadField(a, off, m).value;
      ReadFieldIsLocal(a, b, off, m);
      LeftUnrolls(a + b, off, m);
      assert (a + b)[n..] == a[n..] + b;
      LeftAfterFields(a[n..], b, off + n, m');
    }
  }

  ghost predicate SameOutcome<T, E>(r: Result<T, E>, q: Result<T, E>) {
    (r.Ok? && r == q) || (r.Err? && q.Err?)
  }

  lemma ReadFieldAtAnyOffset(data: Bytes, off: nat, off': nat, m: Message)
    requires off + |data| < TWO63 && off' + |data| < TWO63
    ensures SameOutcome(ReadField(data, off, m), ReadField(data, off', m))
  {
    hide ReadVarint, ReadFrom, SkipFrom;
  }

  lemma {:induction false} DecodeAtAnyOffset(data: Bytes, off: nat, off': nat, m: Message)
    requires off + |data| < TWO63 && off' + |data| < TWO63
    ensures SameOutcome(Decode(data, off, m), Decode(data, off', m))
    decreases |data|
  {
    hide Decode, ReadField;
    if data == [] {
      DecodeNothing(off, m);
      DecodeNothing(off', m);
    } else {
      DecodeUnrolls(data, off, m);
      DecodeUnrolls(data, off', m);
      ReadFieldAtAnyOffset(data, off, off', m);
      match ReadField(data, off, m)
      case Ok((m', n)) => DecodeAtAnyOffset(data[n..], off + n, off' + n, m');
      case Err(_) =>
    }
  }

  // ---- the round trip

  lemma ReadsOneByteTag(tag: Byte, rest: Bytes)
    requires tag < 0x80
    ensures ReadVarint([tag] + rest) == Ok((tag as nat, 1))
    ensures ([tag] + rest)[1..] == rest
  {
    assert Pow2(0) == 1;
  }

  lemma BytesFieldIsRead(m: Message, number: nat, tag: Byte, s: Bytes, off: nat)
    requires (number == 1 && tag == TAG_1_BYTES) || (number == 2 && tag == TAG_2_BYTES && m.FeederDelegation?)
    requires s != [] && off + |BytesField(tag, s)| < TWO63
    ensures ReadField(BytesField(tag, s), off, m) == Ok((SetBytes(m, number, s), |BytesField(tag, s)|))
  {
    hide ReadVarint, ReadFrom, Varint, Sov;
    var data := BytesField(tag, s);
    var behind := Varint(|s|) + s;
    assert data == [tag] + behind;
    ReadsOneByteTag(tag, behind);
    SovIsTheLength(|s|);
    VarintRoundTrip(|s|, s);
    assert FieldNumber(tag) == number && tag % 8 == 2;
    var k := Sov(|s|);
    assert data[1 + k..1 + k + |s|] == s;
  }

  lemma CounterFieldIsRead(m: Message, v: nat, off: nat)
    requires m.MissCounter? && 0 < v < TWO64 && off + |CounterField(v)| < TWO63
    ensures ReadField(CounterField(v), off, m) == Ok((m.(missCounter := v), |CounterField(v)|))
  {
    hide ReadVarint, ReadFrom, Varint, Sov;
    var data := CounterField(v);
    assert data == [TAG_2_VARINT] + Varint(v);
    ReadsOneByteTag(TAG_2_VARINT, Varint(v));
    SovIsTheLength(v);
    VarintRoundTrip(v, []);
    assert Varint(v) + [] == Varint(v);
    assert FieldNumber(0x10) == 2;
  }

  lemma DecodesOneField(data: Bytes, off: nat, m: Message, m': Message)
    requires off + |data| < TWO63 && ReadField(data, off, m) == Ok((m', |data|))
    ensures Decode(data, off, m) == Ok(m')
  {
    hide ReadField;
    assert data[|data|..] == [];
  }

  /** Empty strings and a zero counter are not written; the zero message has them already. */
  lemma DecodeBytesField(m: Message, number: nat, tag: Byte, s: Bytes, off: nat)
    requires (number == 1 && tag == TAG_1_BYTES) || (number == 2 && tag == TAG_2_BYTES && m.FeederDelegation?)
    requires off + |BytesField(tag, s)| < TWO63
    ensures Decode(BytesField(tag, s), off, m) == Ok(if s == [] then m else SetBytes(m, number, s))
  {
    if s != [] {
      BytesFieldIsRead(m, number, tag, s, off);
      hide BytesField;
      DecodesOneField(BytesField(tag, s), off, m, SetBytes(m, number, s));
    }
  }

  lemma DecodeCounterField(m: Message, v: nat, off: nat)
    requires m.MissCounter? && v < TWO64 && off + |CounterField(v)| < TWO63
    ensures Decode(CounterField(v), off, m) == Ok(if v == 0 then m else m.(missCounter := v))
  {
    if v != 0 {
      CounterFieldIsRead(m, v, off);
      hide CounterField;
      DecodesOneField(CounterField(v), off, m, m.(missCounter := v));
    }
  }

  /** Unmarshal(Marshal(m)) = m, for every message. */
  lemma RoundTrip(m: Message)
    requires Fits(m) && Size(m) < TWO63
    ensures |Encoding(m)| == Size(m)
    ensures Decode(Encoding(m), 0, Zero(m)) == Ok(m)
  {
    SizeIsTheLength(m);
    hide Decode, ReadField, BytesField, CounterField, Size;
    match m
    case MissCounter(address, counter) =>
      var a, b := BytesField(TAG_1_BYTES, address), CounterField(counter);
      DecodeBytesField(Zero(m), 1, TAG_1_BYTES, address, 0);
      DecodeCounterField(MissCounter(address, 0), counter, |a|);
      DecodeConcatenation(a, b, 0, Zero(m));
    case FeederDelegation(feeder, operator) =>
      var a, b := BytesField(TAG_1_BYTES, feeder), BytesField(TAG_2_BYTES, operator);
      DecodeBytesField(Zero(m), 1, TAG_1_BYTES, feeder, 0);
      DecodeBytesField(FeederDelegation(feeder, []), 2, TAG_2_BYTES, operator, |a|);
      DecodeConcatenation(a, b, 0, Zero(m));
  }

  // ---- unknown fields

  ghost function TagOf(f: Field): Bytes { f.tag }

  /** A well-formed field whose number is positive and not one of the message's. */
  ghost predicate Unknown(m: Message, f: Field) {
    && WellFormed(f)
    && var tag := ReadVarint(TagOf(f));
       tag.Ok? && 0 < FieldNumber(tag.value.0) && ExpectedWireType(m, FieldNumber(tag.value.0)).None?
  }

  lemma TagInFront(f: Field) returns (behind: Bytes)
    requires WellFormed(f)
    ensures Written(f) == TagOf(f) + behind
    ensures IsVarint(TagOf(f)) && TagOf(f)[0] % 8 != 4
  {
    match f
    case VarintField(tag, value) => behind := value;
    case Fixed64(tag, bits) => behind := bits;
    case Delimited(tag, length, content) => behind := length + content;
    case Group(tag, members, close) => behind := AllWritten(members) + close;
    case Fixed32(tag, bits) => behind := bits;
  }

  lemma UnknownFieldIsRead(f: Field, off: nat, m: Message)
    requires Unknown(m, f) && off + |Written(f)| < TWO63
    ensures ReadField(Written(f), off, m) == Ok((m, |Written(f)|))
  {
    hide ReadVarint, ReadFrom, SkipFrom;
    var behind := TagInFront(f);
    ReadPrefix(TagOf(f), behind);
    SkipConsumesTheField(f, []);
    assert Written(f) + [] == Written(f);
  }

  /** A well-formed unknown field between fields changes nothing: the message decoded with it is the
      message decoded without it, and there is an error with it exactly when there is one without. */
  lemma UnknownFieldsAreInvisible(a: Bytes, f: Field, b: Bytes, m: Message)
    requires |a + Written(f) + b| < TWO63
    requires Decode(a, 0, m).Ok? && Unknown(m, f)
    ensures SameOutcome(Decode(a + Written(f) + b, 0, m), Decode(a + b, 0, m))
  {
    hide Decode, ReadField;
    var u, m' := Written(f), Decode(a, 0, m).value;
    DecodeKeepsKind(a, 0, m);
    DecodeConcatenation(a, b, 0, m);
    UnknownFieldIsRead(f, |a|, m');
    DecodesOneField(u, |a|, m', m');
    DecodeConcatenation(u, b, |a|, m');
    DecodeConcatenation(a, u + b, 0, m);
    assert a + u + b == a + (u + b);
    DecodeAtAnyOffset(b, |a|, |a| + |u|, m');
  }

  lemma {:induction false} DecodeKeepsKind(data: Bytes, off: nat, m: Message)
    requires off + |data| < TWO63
    ensures var r := Decode(data, off, m); r.Ok? ==> r.value.MissCounter? == m.MissCounter?
    decreases |data|
  {
    hide Decode, ReadField;
    if data == [] {
      DecodeNothing(off, m);
    } else {
      DecodeUnrolls(data, off, m);
      ReadFieldKeepsKind(data, off, m);
      if ReadField(data, off, m).Ok? {
        var (m', n) := ReadField(data, off, m).value;
        DecodeKeepsKind(data[n..], off + n, m');
      }
    }
  }

  lemma ReadFieldKeepsKind(data: Bytes, off: nat, m: Message)
    requires off + |data| < TWO63
    ensures var r := ReadField(data, off, m); r.Ok? ==> r.value.0.MissCounter? == m.MissCounter?
  {
  }

  // ---- the messages as Go's structs

  /** The tag of the field at `i` and the index behind it. */
  method ReadHeader(data: Bytes, i: nat) returns (r: Result<(int, nat), DecodeError>, next: nat)
    requires i < |data| < TWO63
    ensures match ReadVarint(data[i..])
            case Err(e) => r == Err(e)
            case Ok((wire, n)) =>
              && i < next <= |data| && next == i + n
              && r == if wire % 8 == 4 then Err(EndGroup)
                      else if FieldNumber(wire) <= 0 then Err(IllegalTag)
                      else Ok((FieldNumber(wire), wire % 8))
  {
    var wire, n, _ := ReadVarintAt(data, i);
    next := n;
    if wire.Err? {
      return Err(wire.error), next;
    }
    var fieldNumber, wireType := FieldNumber(wire.value), wire.value % 8;
    if wireType == 4 {
      return Err(EndGroup), next;
    }
    if fieldNumber <= 0 {
      return Err(IllegalTag), next;
    }
    return Ok((fieldNumber, wireType)), next;
  }

  /** The content of the bytes field whose tag is at `i` and ends before `next`; the index behind it. */
  method ReadBytesAt(data: Bytes, i: nat, next: nat) returns (r: Result<(Bytes, nat), DecodeError>)
    requires i < next <= |data| < TWO63
    ensures match ReadBytes(data[i..], i, next - i)
            case Ok((s, k)) => r == Ok((s, i + k)) && i + k <= |data|
            case Err(e) => r == Err(e)
  {
    hide ReadVarint, ReadFrom;
    assert data[i..][next - i..] == data[next..];
    var stringLen, start, _ := ReadVarintAt(data, next);
    if stringLen.Err? {
      return Err(stringLen.error);
    }
    var intStringLen := I64(stringLen.value);
    if intStringLen < 0 {
      return Err(InvalidLength);
    }
    var postIndex := I64(start + intStringLen);
    if postIndex < 0 {
      return Err(InvalidLength);
    }
    if |data| < postIndex {
      return Err(UnexpectedEOF);
    }
    assert data[i..][start - i..postIndex - i] == data[start..postIndex];
    return Ok((data[start..postIndex], postIndex));
  }

  method SkipUnknownAt(data: Bytes, i: nat) returns (r: Result<nat, DecodeError>)
    requires i < |data| < TWO63
    ensures match SkipUnknown(data[i..], i)
            case Ok(k) => r == Ok(i + k) && i + k <= |data|
            case Err(e) => r == Err(e)
  {
    var skippy := SkipGenesis(data[i..]);
    if skippy.Err? {
      return Err(skippy.error);
    }
    if I64(i + skippy.value) < 0 {
      return Err(InvalidLength);
    }
    if |data| < i + skippy.value {
      return Err(UnexpectedEOF);
    }
    return Ok(i + skippy.value);
  }

  /** `whole` and `left` are the outcome of the decoding that has reached index `i` with message `m`. */
  ghost predicate Decoding(data: Bytes, i: nat, m: Message, whole: Result<Message, DecodeError>, left: Message)
    requires i <= |data| < TWO63
  {
    whole == Decode(data[i..], i, m) && left == Left(data[i..], i, m)
  }

  lemma DecodingAdvances(data: Bytes, i: nat, m: Message, whole: Result<Message, DecodeError>, left: Message)
    requires i < |data| < TWO63 && Decoding(data, i, m, whole, left)
    ensures match ReadField(data[i..], i, m)
            case Ok((m', n)) => Decoding(data, i + n, m', whole, left)
            case Err(e) => whole == Err(e) && left == CutShort(data[i..], m)
  {
    hide ReadField, Decode, Left, CutShort;
    DecodeUnrolls(data[i..], i, m);
    LeftUnrolls(data[i..], i, m);
    match ReadField(data[i..], i, m)
    case Ok((m', n)) => assert data[i..][n..] == data[i + n..];
    case Err(e) =>
  }

  lemma DecodingEnds(data: Bytes, m: Message, whole: Result<Message, DecodeError>, left: Message)
    requires |data| < TWO63 && Decoding(data, |data|, m, whole, left)
    ensures whole == Ok(m) && left == m
  {
    assert data[|data|..] == [];
  }

  class MissCounterMessage {
    var validatorAddress: Bytes
    var counter: nat

    constructor ()
      ensures Value() == MissCounter([], 0)
    {
      validatorAddress, counter := [], 0;
    }

    ghost function Value(): Message
      reads this
    {
      MissCounter(validatorAddress, counter)
    }

    method MarshalToSizedBuffer(a: array<Byte>) returns (n: nat)
      requires Size(Value()) <= a.Length
      modifies a
      ensures n == Size(Value())
      ensures a[..] == old(a[..])[..a.Length - n] + Encoding(Value())
    {
      hide Varint, Sov, BitLen;
      ghost var was: Bytes := a[..];
      var i := WriteCounterField(a, a.Length, counter);
      ghost var middle, tail := i, CounterField(counter);
      assert a[..] == was[..i] + tail;
      i := WriteBytesField(a, i, TAG_1_BYTES, validatorAddress);
      CutRewritten(was, i, middle, tail);
      n := a.Length - i;
    }

    /** The buffer is allocated by `Size` and filled exactly. */
    method Marshal() returns (data: Bytes)
      ensures data == Encoding(Value())
    {
      var size := Size(MissCounter(validatorAddress, counter));
      var a := new Byte[size](_ => 0);
      hide Encoding, Size;
      ghost var blank: Bytes := a[..];
      var n := MarshalToSizedBuffer(a);
      assert blank[..0] + Encoding(Value()) == Encoding(Value());
      data := a[..n];
    }

    /** Merges `data` into the message; on an error the fields before it stay, and a counter that is cut short keeps the
        bits collected. */
    method Unmarshal(data: Bytes) returns (error: Option<DecodeError>)
      requires |data| < TWO63
      modifies this
      ensures match Decode(data, 0, old(Value()))
              case Ok(m) => error == None && Value() == m
              case Err(e) => error == Some(e)
      ensures Value() == Left(data, 0, old(Value()))
    {
      hide Decode, Left, ReadVarint, ReadFrom, SkipFrom, Collected;
      ghost var whole, left := Decode(data, 0, Value()), Left(data, 0, Value());
      assert data[0..] == data;
      var i := 0;
      while i < |data|
        invariant 0 <= i <= |data|
        invariant Decoding(data, i, Value(), whole, left)
        decreases |data| - i
      {
        DecodingAdvances(data, i, Value(), whole, left);
        var header, next := ReadHeader(data, i);
        if header.Err? {
          return Some(header.error);
        }
        var (fieldNumber, wireType) := header.value;
        assert data[i..][next - i..] == data[next..];
        if fieldNumber == 1 {
          if wireType != 2 {
            return Some(WrongWireType);
          }
          var content := ReadBytesAt(data, i, next);
          if content.Err? {
            return Some(content.error);
          }
          validatorAddress := content.value.0;
          i := content.value.1;
        } else if fieldNumber == 2 {
          if wireType != 0 {
            return Some(WrongWireType);
          }
          var read, after, bits := ReadVarintAt(data, next);
          counter := bits;
          if read.Err? {
            return Some(read.error);
          }
          i := after;
        } else {
          var after := SkipUnknownAt(data, i);
          if after.Err? {
            return Some(after.error);
          }
          i := after.value;
        }
      }
      DecodingEnds(data, Value(), whole, left);
      return None;
    }
  }

  class FeederDelegationMessage {
    var feederAddress: Bytes
    var validatorAddress: Bytes

    constructor ()
      ensures Value() == FeederDelegation([], [])
    {
      feederAddress, validatorAddress := [], [];
    }

    ghost function Value(): Message
      reads this
    {
      FeederDelegation(feederAddress, validatorAddress)
    }

    method MarshalToSizedBuffer(a: array<Byte>) returns (n: nat)
      requires Size(Value()) <= a.Length
      modifies a
      ensures n == Size(Value())
      ensures a[..] == old(a[..])[..a.Length - n] + Encoding(Value())
    {
      hide Varint, Sov, BitLen;
      ghost var was: Bytes := a[..];
      var i := WriteBytesField(a, a.Length, TAG_2_BYTES, validatorAddress);
      ghost var middle, tail := i, BytesField(TAG_2_BYTES, validatorAddress);
      assert a[..] == was[..i] + tail;
      i := WriteBytesField(a, i, TAG_1_BYTES, feederAddress);
      CutRewritten(was, i, middle, tail);
      n := a.Length - i;
    }

    method Marshal() returns (data: Bytes)
      ensures data == Encoding(Value())
    {
      var size := Size(FeederDelegation(feederAddress, validatorAddress));
      var a := new Byte[size](_ => 0);
      hide Encoding, Size;
      ghost var blank: Bytes := a[..];
      var n := MarshalToSizedBuffer(a);
      assert blank[..0] + Encoding(Value()) == Encoding(Value());
      data := a[..n];
    }

    method Unmarshal(data: Bytes) returns (error: Option<DecodeError>)
      requires |data| < TWO63
      modifies this
      ensures match Decode(data, 0, old(Value()))
              case Ok(m) => error == None && Value() == m
              case Err(e) => error == Some(e)
      ensures Value() == Left(data, 0, old(Value()))
    {
      hide Decode, Left, ReadVarint, ReadFrom, SkipFrom, Collected;
      ghost var whole, left := Decode(data, 0, Value()), Left(data, 0, Value());
      assert data[0..] == data;
      var i := 0;
      while i < |data|
        invariant 0 <= i <= |data|
        invariant Decoding(data, i, Value(), whole, left)
        decreases |data| - i
      {
        DecodingAdvances(data, i, Value(), whole, left);
        var header, next := ReadHeader(data, i);
        if header.Err? {
          return Some(header.error);
        }
        var (fieldNumber, wireType) := header.value;
        assert data[i..][next - i..] == data[next..];
        if fieldNumber == 1 || fieldNumber == 2 {
          if wireType != 2 {
            return Some(WrongWireType);
          }
          var content := ReadBytesAt(data, i, next);
          if content.Err? {
            return Some(content.error);
          }
          if fieldNumber == 1 {
            feederAddress := content.value.0;
          } else {
            validatorAddress := content.value.0;
          }
          i := content.value.1;
        } else {
          var after := SkipUnknownAt(data, i);
          if after.Err? {
            return Some(after.error);
          }
          i := after.value;
        }
      }
      DecodingEnds(data, Value(), whole, left);
      return None;
    }
  }
}
