/** Skipping a field of unknown number (`skipGenesis` in x/oracle/types/genesis.pb.go), against the
    grammar of fields (Protocol Buffers Encoding, "Message Structure"). */
module Skip {
  import opened Prelude
  import opened Wire

  /** One turn of the loop: bytes consumed and the group depth after it. `pos` is the index in the
      slice, where additions wrap. */
  function SkipOne(data: Bytes, pos: nat, depth: nat): (r: Result<(nat, nat), DecodeError>)
    ensures r.Ok? ==> 1 <= r.value.0 && pos + r.value.0 < TWO63
  {
    match ReadVarint(data)
    case Err(e) => Err(e)
    case Ok((wire, k)) =>
      var wireType := wire % 8;
      if wireType == 0 then
        match ReadVarint(data[k..])
        case Err(e) => Err(e)
        case Ok((v, j)) => InRange(pos, k + j, depth)
      else if wireType == 1 then InRange(pos, k + 8, depth)
      else if wireType == 2 then
        match ReadVarint(data[k..])
        case Err(e) => Err(e)
        case Ok((v, j)) =>
          var length := I64(v);
          if length < 0 then Err(InvalidLength) else InRange(pos, k + j + length, depth)
      else if wireType == 3 then InRange(pos, k, depth + 1)
      else if wireType == 4 then if depth == 0 then Err(EndGroup) else InRange(pos, k, depth - 1)
      else if wireType == 5 then InRange(pos, k + 4, depth)
      else Err(IllegalWireType)
  }

  /** The test for a wrapped index. */
  function InRange(pos: nat, n: nat, depth: nat): (r: Result<(nat, nat), DecodeError>)
    ensures r.Ok? ==> r.value == (n, depth) && pos + n < TWO63
    ensures pos + n < TWO63 ==> r.Ok?
    ensures r.Err? ==> r.error == InvalidLength
  {
    if TWO63 <= pos + n then Err(InvalidLength) else Ok((n, depth))
  }

  /** The whole loop from the front of `data`, inside `depth` groups: the bytes skipped, which may
      reach past the data when the last step is not inside a group. */
  function SkipFrom(data: Bytes, pos: nat, depth: nat): (r: Result<nat, DecodeError>)
    ensures r.Ok? ==> 1 <= r.value && pos + r.value < TWO63
    decreases |data|
  {
    if data == [] then Err(UnexpectedEOF)
    else match SkipOne(data, pos, depth)
      case Err(e) => Err(e)
      case Ok((n, d)) =>
        if d == 0 then Ok(n)
        else if |data| <= n then Err(UnexpectedEOF)
        else match SkipFrom(data[n..], pos + n, d)
          case Ok(m) => Ok(n + m)
          case Err(e) => Err(e)
  }

  /** The body of the loop, at index `i`. */
  method SkipOneAt(data: Bytes, i: nat, depth: nat) returns (r: Result<(nat, nat), DecodeError>)
    requires i < |data| < TWO63
    ensures match SkipOne(data[i..], i, depth)
            case Ok((n, d)) => r == Ok((i + n, d))
            case Err(e) => r == Err(e)
  {
    hide ReadFrom, ReadVarint, Collected;
    var tag, k, _ := ReadVarintAt(data, i);
    if tag.Err? {
      return Err(tag.error);
    }
    assert data[i..][k - i..] == data[k..];
    var next, open := k, depth;
    var wireType := tag.value % 8;
    if wireType == 0 {
      var value, j, _ := ReadVarintAt(data, k);
      if value.Err? {
        return Err(value.error);
      }
      next := j;
    } else if wireType == 1 {
      next := I64(k + 8);
    } else if wireType == 2 {
      var value, j, _ := ReadVarintAt(data, k);
      if value.Err? {
        return Err(value.error);
      }
      var length := I64(value.value);
      if length < 0 {
        return Err(InvalidLength);
      }
      next := I64(j + length);
    } else if wireType == 3 {
      open := depth + 1;
    } else if wireType == 4 {
      if depth == 0 {
        return Err(EndGroup);
      }
      open := depth - 1;
    } else if wireType == 5 {
      next := I64(k + 4);
    } else {
      return Err(IllegalWireType);
    }
    if next < 0 {
      return Err(InvalidLength);
    }
    return Ok((next, open));
  }

  function Shift(n: nat, r: Result<nat, DecodeError>): Result<nat, DecodeError> {
    match r
    case Ok(m) => Ok(n + m)
    case Err(e) => Err(e)
  }

  /** The loop after `n` bytes that left `d` groups open. */
  function Continue(n: nat, rest: Bytes, pos: nat, d: nat): Result<nat, DecodeError> {
    if d == 0 then Ok(n) else Shift(n, SkipFrom(rest, pos, d))
  }

  lemma SkipStep(data: Bytes, pos: nat, depth: nat, n: nat, d: nat)
    requires SkipOne(data, pos, depth) == Ok((n, d)) && n <= |data|
    ensures SkipFrom(data, pos, depth) == Continue(n, data[n..], pos + n, d)
  {
  }

  /** A step past the end leaves nothing to close an open group with. */
  lemma SkipRunsOut(data: Bytes, pos: nat, depth: nat, n: nat, d: nat)
    requires data != [] && SkipOne(data, pos, depth) == Ok((n, d)) && |data| < n
    ensures SkipFrom(data, pos, depth) == if d == 0 then Ok(n) else Err(UnexpectedEOF)
  {
  }

  /** `whole` is the skip of `data` of which the loop has reached index `i`. */
  ghost predicate Reached(data: Bytes, i: nat, depth: nat, whole: Result<nat, DecodeError>) {
    if |data| <= i then whole == Err(UnexpectedEOF)
    else whole == Shift(i, SkipFrom(data[i..], i, depth))
  }

  lemma SkipAdvances(data: Bytes, i: nat, depth: nat, n: nat, d: nat, whole: Result<nat, DecodeError>)
    requires i < |data| && Reached(data, i, depth, whole)
    requires SkipOne(data[i..], i, depth) == Ok((n, d))
    ensures if d == 0 then whole == Ok(i + n) else Reached(data, i + n, d, whole)
  {
    if i + n <= |data| {
      assert data[i..][n..] == data[i + n..];
      SkipStep(data[i..], i, depth, n, d);
    } else {
      SkipRunsOut(data[i..], i, depth, n, d);
    }
  }

  lemma SkipFails(data: Bytes, i: nat, depth: nat, whole: Result<nat, DecodeError>)
    requires i < |data| && Reached(data, i, depth, whole) && SkipOne(data[i..], i, depth).Err?
    ensures whole == Err(SkipOne(data[i..], i, depth).error)
  {
  }

  lemma ReachedStart(data: Bytes)
    ensures Reached(data, 0, 0, SkipFrom(data, 0, 0))
  {
    assert data[0..] == data;
  }

  method SkipGenesis(data: Bytes) returns (r: Result<nat, DecodeError>)
    requires |data| < TWO63
    ensures r == SkipFrom(data, 0, 0)
  {
    var i: nat, depth: nat := 0, 0;
    ghost var whole := SkipFrom(data, 0, 0);
    hide SkipFrom, SkipOne;
    ReachedStart(data);
    while i < |data|
      invariant Reached(data, i, depth, whole)
      decreases |data| - i
    {
      var step := SkipOneAt(data, i, depth);
      if step.Err? {
        SkipFails(data, i, depth, whole);
        return Err(step.error);
      }
      var (next, open) := step.value;
      SkipAdvances(data, i, depth, next - i, open, whole);
      if open == 0 {
        return Ok(next);
      }
      i, depth := next, open;
    }
    return Err(UnexpectedEOF);
  }

  // ---- the grammar of fields

  datatype Field =
    | VarintField(tag: Bytes, value: Bytes)
    | Fixed64(tag: Bytes, bits: Bytes)
    | Delimited(tag: Bytes, length: Bytes, content: Bytes)
    | Group(tag: Bytes, members: Fields, close: Bytes)
    | Fixed32(tag: Bytes, bits: Bytes)

  datatype Fields = NoFields | More(first: Field, rest: Fields)

  /** A varint that ends in one of the wire types. */
  ghost predicate IsTag(s: Bytes, wireType: nat) {
    IsVarint(s) && s[0] % 8 == wireType
  }

  ghost predicate WellFormed(f: Field) {
    match f
    case VarintField(tag, value) => IsTag(tag, 0) && IsVarint(value)
    case Fixed64(tag, bits) => IsTag(tag, 1) && |bits| == 8
    case Delimited(tag, length, content) =>
      IsTag(tag, 2) && IsVarint(length) && ReadVarint(length) == Ok((|content|, |length|))
    case Group(tag, members, close) => IsTag(tag, 3) && AllWellFormed(members) && IsTag(close, 4)
    case Fixed32(tag, bits) => IsTag(tag, 5) && |bits| == 4
  }

  ghost predicate AllWellFormed(fs: Fields) {
    match fs
    case NoFields => true
    case More(f, rest) => WellFormed(f) && AllWellFormed(rest)
  }

  ghost function Written(f: Field): Bytes {
    match f
    case VarintField(tag, value) => tag + value
    case Fixed64(tag, bits) => tag + bits
    case Delimited(tag, length, content) => tag + length + content
    case Group(tag, members, close) => tag + (AllWritten(members) + close)
    case Fixed32(tag, bits) => tag + bits
  }

  ghost function AllWritten(fs: Fields): Bytes {
    match fs
    case NoFields => []
    case More(f, rest) => Written(f) + AllWritten(rest)
  }

  // ---- a varint at the front of longer data

  lemma ReadPrefix(s: Bytes, rest: Bytes)
    requires IsVarint(s)
    ensures ReadVarint(s + rest).Ok? && ReadVarint(s + rest) == ReadVarint(s)
    ensures ReadVarint(s).value.1 == |s|
    ensures ReadVarint(s).value.0 % 8 == s[0] % 8
    ensures (s + rest)[|s|..] == rest
  {
    ReadsAllOf(s, 0, 0);
    ReadFromIsLocal(s, rest, 0, 0);
    LowBitsOfRead(s, 0, 0);
  }

  /** The lowest three bits of the value are those of the first byte. */
  lemma LowBitsOfRead(s: Bytes, shift: nat, acc: nat)
    requires shift == 0 && acc == 0 && ReadFrom(s, shift, acc).Ok?
    ensures ReadFrom(s, shift, acc).value.0 % 8 == s[0] % 8
  {
    assert Pow2(0) == 1;
    assert s[0] % 0x80 % 8 == s[0] % 8;
    if 0x80 <= s[0] {
      HigherGroupsKeepLowBits(s[1..], 7, U64(s[0] % 0x80));
    }
  }

  lemma {:induction false} HigherGroupsKeepLowBits(s: Bytes, shift: nat, acc: nat)
    requires 3 <= shift && ReadFrom(s, shift, acc).Ok?
    ensures ReadFrom(s, shift, acc).value.0 % 8 == acc % 8
    decreases |s|
  {
    var group := s[0] % 0x80;
    ShiftedGroup(group, shift);
    WrapKeepsLowBits(acc, group * Pow2(shift - 3));
    if 0x80 <= s[0] {
      HigherGroupsKeepLowBits(s[1..], shift + 7, U64(acc + group * Pow2(shift)));
    }
  }

  lemma ShiftedGroup(group: nat, shift: nat)
    requires 3 <= shift
    ensures group * Pow2(shift) == (group * Pow2(shift - 3)) * 8
  {
    Pow2Adds(shift - 3, 3);
    assert Pow2(3) == 8;
  }

  lemma WrapKeepsLowBits(acc: nat, high: int)
    ensures U64(acc + high * 8) % 8 == acc % 8
  {
    var x := acc + high * 8;
    var q := x / TWO64;
    assert U64(x) == acc + (high - q * (TWO64 / 8)) * 8;
  }

  // ---- the skip consumes exactly one field

  lemma StepOfVarintField(tag: Bytes, value: Bytes, rest: Bytes, pos: nat, depth: nat)
    requires IsTag(tag, 0) && IsVarint(value) && pos + |tag + value| < TWO63
    ensures SkipOne(tag + value + rest, pos, depth) == Ok((|tag + value|, depth))
  {
    assert tag + value + rest == tag + (value + rest);
    ReadPrefix(tag, value + rest);
    ReadPrefix(value, rest);
  }

  lemma StepOfFixed(tag: Bytes, wireType: nat, bits: Bytes, rest: Bytes, pos: nat, depth: nat)
    requires IsTag(tag, wireType) && pos + |tag + bits| < TWO63
    requires (wireType == 1 && |bits| == 8) || (wireType == 5 && |bits| == 4)
    ensures SkipOne(tag + bits + rest, pos, depth) == Ok((|tag + bits|, depth))
  {
    assert tag + bits + rest == tag + (bits + rest);
    ReadPrefix(tag, bits + rest);
  }

  lemma StepOfDelimited(tag: Bytes, length: Bytes, content: Bytes, rest: Bytes, pos: nat, depth: nat)
    requires IsTag(tag, 2) && IsVarint(length) && ReadVarint(length) == Ok((|content|, |length|))
    requires pos + |tag + length + content| < TWO63
    ensures SkipOne(tag + length + content + rest, pos, depth) == Ok((|tag + length + content|, depth))
  {
    assert tag + length + content + rest == tag + (length + (content + rest));
    ReadPrefix(tag, length + (content + rest));
    ReadPrefix(length, content + rest);
  }

  /** A tag that opens a group goes one deeper, one that closes a group goes one up. */
  lemma StepOfGroupTag(tag: Bytes, wireType: nat, rest: Bytes, pos: nat, depth: nat)
    requires IsTag(tag, wireType) && pos + |tag| < TWO63
    requires wireType == 3 || (wireType == 4 && 0 < depth)
    ensures SkipOne(tag + rest, pos, depth) == Ok((|tag|, if wireType == 3 then depth + 1 else depth - 1))
  {
    ReadPrefix(tag, rest);
  }

  /** A field that is not a group is one step of the loop. */
  lemma StepOfScalar(f: Field, rest: Bytes, pos: nat, depth: nat)
    requires WellFormed(f) && !f.Group?
    requires pos + |Written(f)| < TWO63
    ensures SkipOne(Written(f) + rest, pos, depth) == Ok((|Written(f)|, depth))
  {
    match f
    case VarintField(tag, value) => StepOfVarintField(tag, value, rest, pos, depth);
    case Fixed64(tag, bits) => StepOfFixed(tag, 1, bits, rest, pos, depth);
    case Delimited(tag, length, content) => StepOfDelimited(tag, length, content, rest, pos, depth);
    case Fixed32(tag, bits) => StepOfFixed(tag, 5, bits, rest, pos, depth);
  }

  /** The loop goes on behind `front` at depth `d`. */
  ghost predicate Skips(front: Bytes, rest: Bytes, pos: nat, depth: nat, d: nat) {
    SkipFrom(front + rest, pos, depth) == Continue(|front|, rest, pos + |front|, d)
  }

  lemma StepSkips(front: Bytes, rest: Bytes, pos: nat, depth: nat, d: nat)
    requires SkipOne(front + rest, pos, depth) == Ok((|front|, d))
    ensures Skips(front, rest, pos, depth, d)
  {
    assert (front + rest)[|front|..] == rest;
    SkipStep(front + rest, pos, depth, |front|, d);
  }

  lemma SkipsCompose(a: Bytes, b: Bytes, rest: Bytes, pos: nat, depth: nat, d: nat, e: nat)
    requires 0 < d
    requires Skips(a, b + rest, pos, depth, d)
    requires Skips(b, rest, pos + |a|, d, e)
    ensures Skips(a + b, rest, pos, depth, e)
  {
    hide SkipFrom, SkipOne;
    assert a + b + rest == a + (b + rest);
    calc {
      SkipFrom(a + b + rest, pos, depth);
      Continue(|a|, b + rest, pos + |a|, d);
      Shift(|a|, SkipFrom(b + rest, pos + |a|, d));
      Shift(|a|, Continue(|b|, rest, pos + |a| + |b|, e));
      Continue(|a + b|, rest, pos + |a + b|, e);
    }
  }

  /** Any well-formed field, nested groups included, is skipped exactly: the loop goes on behind it
      at the depth it had before. */
  lemma {:induction false} SkipsField(f: Field, rest: Bytes, pos: nat, depth: nat)
    requires WellFormed(f)
    requires pos + |Written(f)| < TWO63
    ensures Skips(Written(f), rest, pos, depth, depth)
    decreases f
  {
    hide SkipFrom, SkipOne, ReadVarint, ReadFrom;
    match f
    case Group(tag, members, close) =>
      var inner := AllWritten(members);
      assert |Written(f)| == |tag| + (|inner| + |close|);
      StepOfGroupTag(tag, 3, inner + close + rest, pos, depth);
      StepSkips(tag, inner + close + rest, pos, depth, depth + 1);
      StepOfGroupTag(close, 4, rest, pos + |tag| + |inner|, depth + 1);
      StepSkips(close, rest, pos + |tag| + |inner|, depth + 1, depth);
      SkipsFields(members, close, rest, pos + |tag|, depth + 1, depth);
      SkipsCompose(tag, inner + close, rest, pos, depth, depth + 1, depth);
    case _ =>
      StepOfScalar(f, rest, pos, depth);
      StepSkips(Written(f), rest, pos, depth, depth);
  }

  /** Inside a group, the members and what comes behind them. */
  lemma {:induction false} SkipsFields(fs: Fields, last: Bytes, rest: Bytes, pos: nat, depth: nat, d: nat)
    requires AllWellFormed(fs) && 0 < depth
    requires pos + |AllWritten(fs)| < TWO63
    requires Skips(last, rest, pos + |AllWritten(fs)|, depth, d)
    ensures Skips(AllWritten(fs) + last, rest, pos, depth, d)
    decreases fs
  {
    hide SkipFrom, SkipOne, ReadVarint, ReadFrom;
    match fs
    case NoFields =>
      assert AllWritten(fs) + last == last;
    case More(f, more) =>
      var others := AllWritten(more) + last;
      assert AllWritten(fs) + last == Written(f) + others;
      SkipsField(f, others + rest, pos, depth);
      SkipsFields(more, last, rest, pos + |Written(f)|, depth, d);
      SkipsCompose(Written(f), others, rest, pos, depth, depth, d);
  }

  /** At the top level a well-formed field is consumed to its last byte, and nothing more. */
  lemma SkipConsumesTheField(f: Field, rest: Bytes)
    requires WellFormed(f) && |Written(f)| < TWO63
    ensures SkipFrom(Written(f) + rest, 0, 0) == Ok(|Written(f)|)
  {
    SkipsField(f, rest, 0, 0);
  }

  /** Bytes behind the data do not change a skip that stayed within the data. */
  lemma {:induction false} SkipIsLocal(data: Bytes, rest: Bytes, pos: nat, depth: nat)
    requires SkipFrom(data, pos, depth).Ok? && SkipFrom(data, pos, depth).value <= |data|
    ensures SkipFrom(data + rest, pos, depth) == SkipFrom(data, pos, depth)
    decreases |data|
  {
    var (n, d) := SkipOne(data, pos, depth).value;
    SkipOneIsLocal(data, rest, pos, depth);
    SkipStep(data, pos, depth, n, d);
    SkipStep(data + rest, pos, depth, n, d);
    assert (data + rest)[n..] == data[n..] + rest;
    if d != 0 {
      SkipIsLocal(data[n..], rest, pos + n, d);
    }
  }

  lemma SkipOneIsLocal(data: Bytes, rest: Bytes, pos: nat, depth: nat)
    requires SkipOne(data, pos, depth).Ok?
    ensures SkipOne(data + rest, pos, depth) == SkipOne(data, pos, depth)
  {
    ReadFromIsLocal(data, rest, 0, 0);
    var (wire, k) := ReadVarint(data).value;
    assert (data + rest)[k..] == data[k..] + rest;
    if wire % 8 == 0 || wire % 8 == 2 {
      ReadFromIsLocal(data[k..], rest, 0, 0);
    }
  }

  // ---- only well-formed fields are skipped

  /** What was read at the front of the data is a varint on its own. */
  lemma ReadFront(data: Bytes)
    requires ReadVarint(data).Ok?
    ensures var (v, n) := ReadVarint(data).value;
            IsVarint(data[..n]) && ReadVarint(data[..n]) == Ok((v, n)) && data[0] % 8 == v % 8
  {
    var n := ReadVarint(data).value.1;
    ReadIsVarint(data, 0, 0);
    var front := data[..n];
    assert data == front + data[n..];
    ReadPrefix(front, data[n..]);
  }

  lemma VarintFieldAt(data: Bytes, k: nat) returns (f: Field)
    requires ReadVarint(data).Ok? && k == ReadVarint(data).value.1 && ReadVarint(data).value.0 % 8 == 0
    requires ReadVarint(data[k..]).Ok?
    ensures WellFormed(f) && Written(f) == data[..k + ReadVarint(data[k..]).value.1]
  {
    ReadFront(data);
    ReadFront(data[k..]);
    f := VarintField(data[..k], data[k..][..ReadVarint(data[k..]).value.1]);
  }

  lemma DelimitedAt(data: Bytes, k: nat, length: nat) returns (f: Field)
    requires ReadVarint(data).Ok? && k == ReadVarint(data).value.1 && ReadVarint(data).value.0 % 8 == 2
    requires ReadVarint(data[k..]).Ok? && ReadVarint(data[k..]).value.0 == length
    requires k + ReadVarint(data[k..]).value.1 + length <= |data|
    ensures WellFormed(f) && Written(f) == data[..k + ReadVarint(data[k..]).value.1 + length]
  {
    hide ReadVarint, ReadFrom;
    ReadFront(data);
    ReadFront(data[k..]);
    var j := ReadVarint(data[k..]).value.1;
    f := Delimited(data[..k], data[k..][..j], data[k + j..k + j + length]);
  }

  /** A step that opens or closes no group read a field. */
  lemma ScalarAt(data: Bytes, pos: nat, depth: nat) returns (f: Field)
    requires SkipOne(data, pos, depth).Ok? && SkipOne(data, pos, depth).value.0 <= |data|
    requires SkipOne(data, pos, depth).value.1 == depth
    ensures WellFormed(f) && Written(f) == data[..SkipOne(data, pos, depth).value.0]
  {
    var (wire, k) := ReadVarint(data).value;
    if wire % 8 == 0 {
      f := VarintFieldAt(data, k);
    } else if wire % 8 == 2 {
      f := DelimitedAt(data, k, ReadVarint(data[k..]).value.0);
    } else {
      ReadFront(data);
      var tag, bits := data[..k], data[k..SkipOne(data, pos, depth).value.0];
      f := if wire % 8 == 1 then Fixed64(tag, bits) else Fixed32(tag, bits);
    }
  }

  /** A step that changes the depth read the tag of a group. */
  lemma GroupTagAt(data: Bytes, pos: nat, depth: nat)
    requires SkipOne(data, pos, depth).Ok?
    requires SkipOne(data, pos, depth).value.1 != depth
    ensures var (n, d) := SkipOne(data, pos, depth).value;
            n <= |data| && (d == depth + 1 || (0 < depth && d == depth - 1)) &&
                IsTag(data[..n], if d == depth + 1 then 3 else 4)
  {
    ReadFront(data);
  }

  lemma SkipUnrolls(data: Bytes, pos: nat, depth: nat)
    requires SkipFrom(data, pos, depth).Ok? && SkipFrom(data, pos, depth).value <= |data|
    ensures data != [] && SkipOne(data, pos, depth).Ok?
    ensures var (n, d) := SkipOne(data, pos, depth).value;
            && n <= |data|
            && (d == 0 ==> SkipFrom(data, pos, depth) == Ok(n))
            && (d != 0 ==> SkipFrom(data[n..], pos + n, d) == Ok(SkipFrom(data, pos, depth).value - n))
  {
  }

  /** Inside a group, a step that does not close it begins a member. */
  lemma {:induction false} ReadsMember(data: Bytes, pos: nat, depth: nat) returns (f: Field, used: nat)
    requires 0 < depth
    requires SkipFrom(data, pos, depth).Ok? && SkipFrom(data, pos, depth).value <= |data|
    requires SkipOne(data, pos, depth).Ok? && depth <= SkipOne(data, pos, depth).value.1
    ensures WellFormed(f) && 0 < used <= |data| && Written(f) == data[..used]
    ensures SkipFrom(data[used..], pos + used, depth) == Ok(SkipFrom(data, pos, depth).value - used)
    decreases |data|, 0
  {
    hide SkipFrom, SkipOne;
    SkipUnrolls(data, pos, depth);
    var (k, d) := SkipOne(data, pos, depth).value;
    if d == depth {
      f := ScalarAt(data, pos, depth);
      used := k;
    } else {
      GroupTagAt(data, pos, depth);
      var inner, end, m := ReadsMembers(data[k..], pos + k, d);
      f, used := Group(data[..k], inner, end), k + m;
      assert data[..used] == data[..k] + data[k..][..m];
      assert data[used..] == data[k..][m..];
    }
  }

  /** Inside a group, a successful skip read members and the tag that closes the group. */
  lemma {:induction false} ReadsMembers(data: Bytes, pos: nat, depth: nat) returns (fs: Fields, close: Bytes, n: nat)
    requires 0 < depth
    requires SkipFrom(data, pos, depth).Ok? && SkipFrom(data, pos, depth).value <= |data|
    ensures AllWellFormed(fs) && IsTag(close, 4)
    ensures n <= |data| && AllWritten(fs) + close == data[..n]
    ensures var total := SkipFrom(data, pos, depth).value;
            if depth == 1 then n == total else SkipFrom(data[n..], pos + n, depth - 1) == Ok(total - n)
    decreases |data|, 1
  {
    hide SkipFrom, SkipOne, WellFormed, ReadVarint;
    SkipUnrolls(data, pos, depth);
    var (k, d) := SkipOne(data, pos, depth).value;
    if d < depth {
      GroupTagAt(data, pos, depth);
      fs, close, n := NoFields, data[..k], k;
    } else {
      var f, used := ReadsMember(data, pos, depth);
      var behind := data[used..];
      var more, end, m := ReadsMembers(behind, pos + used, depth);
      fs, close, n := More(f, more), end, used + m;
      assert data[..n] == data[..used] + behind[..m];
      assert AllWritten(fs) + close == Written(f) + (AllWritten(more) + close);
      assert data[n..] == behind[m..];
    }
  }

  /** The skip succeeds within the data exactly on well-formed fields. */
  lemma SkipAcceptsExactlyFields(data: Bytes, n: nat)
    requires n <= |data| < TWO63
    ensures SkipFrom(data, 0, 0) == Ok(n) <==> exists f :: WellFormed(f) && Written(f) == data[..n]
  {
    hide SkipFrom, WellFormed, Written;
    if SkipFrom(data, 0, 0) == Ok(n) {
      var f := FieldSkipped(data);
    }
    if f :| WellFormed(f) && Written(f) == data[..n] {
      SkipConsumesTheField(f, data[n..]);
      assert data == Written(f) + data[n..];
    }
  }

  lemma FieldSkipped(data: Bytes) returns (f: Field)
    requires SkipFrom(data, 0, 0).Ok? && SkipFrom(data, 0, 0).value <= |data|
    ensures WellFormed(f) && Written(f) == data[..SkipFrom(data, 0, 0).value]
  {
    hide SkipFrom, SkipOne;
    SkipUnrolls(data, 0, 0);
    var (k, d) := SkipOne(data, 0, 0).value;
    if d == 0 {
      f := ScalarAt(data, 0, 0);
    } else {
      GroupTagAt(data, 0, 0);
      var inner, end, m := ReadsMembers(data[k..], k, d);
      f := Group(data[..k], inner, end);
      assert data[..k + m] == data[..k] + data[k..][..m];
    }
  }
}
