/** The text of a vote, "(pair,rate)|(pair,rate)|...", printed and parsed (x/oracle/types/vote.go). */
module VoteText {
  import opened Prelude
  import opened Decimal
  import opened Assets

  datatype ExchangeRateTuple = ExchangeRateTuple(pair: Pair, rate: Dec)

  /** The SDK functions the text depends on: denomination check, decimal printer and parser. */
  datatype Sdk = Sdk(validDenom: string -> bool, printDec: Dec -> string, parseDec: string -> Option<Dec>)

  /** A printed decimal is read back and has no reserved character. */
  ghost predicate Sound(sdk: Sdk) {
    && SoundDenoms(sdk.validDenom)
    && forall d: Dec :: sdk.parseDec(sdk.printDec(d)) == Some(d) && Clean(sdk.printDec(d))
  }

  datatype TupleError =
    | InvalidLength
    | InvalidDelimiters
    | InvalidFormat
    | InvalidPairText(e: PairError)
    | InvalidDecimal

  datatype TuplesError = InvalidTuple(index: nat, e: TupleError) | FoundDuplicate(index: nat)

  // ---- one tuple

  function TupleToString(sdk: Sdk, t: ExchangeRateTuple): Result<string, PairError> {
    match Validate(sdk.validDenom, t.pair)
    case Some(e) => Err(e)
    case None => Ok("(" + t.pair + "," + sdk.printDec(t.rate) + ")")
  }

  function TupleFromString(sdk: Sdk, s: string): Result<ExchangeRateTuple, TupleError> {
    if |s| <= 2 then Err(InvalidLength)
    else if s[0] != '(' || s[|s| - 1] != ')' then Err(InvalidDelimiters)
    else
      var split := Split(s[1..|s| - 1], ',');
      if |split| != 2 then Err(InvalidFormat)
      else
        match TryNewPair(sdk.validDenom, split[0])
        case Err(e) => Err(InvalidPairText(e))
        case Ok(pair) =>
          match sdk.parseDec(split[1])
          case None => Err(InvalidDecimal)
          case Some(d) => Ok(ExchangeRateTuple(pair, d))
  }

  lemma ValidPairIsClean(sdk: Sdk, pair: Pair)
    requires Sound(sdk) && Valid(sdk.validDenom, pair)
    ensures pair != "" && ',' !in pair && '|' !in pair
  {
    SplitInTwo(pair, ':');
    var base, quote := Split(pair, ':')[0], Split(pair, ':')[1];
    assert Clean(base) && Clean(quote);
    assert ',' in RESERVED && '|' in RESERVED;
  }

  /** `s` is `t` written with `text` for the rate. */
  ghost predicate Writes(sdk: Sdk, s: string, t: ExchangeRateTuple, text: string) {
    && s == "(" + t.pair + "," + text + ")"
    && Valid(sdk.validDenom, t.pair) && ',' !in text && sdk.parseDec(text) == Some(t.rate)
  }

  /** A text is read as a tuple exactly if it is a valid pair and the text of a decimal in brackets, with one comma. */
  lemma TupleAcceptsExactly(sdk: Sdk, s: string, t: ExchangeRateTuple)
    requires Sound(sdk)
    ensures TupleFromString(sdk, s) == Ok(t) <==> exists text :: Writes(sdk, s, t, text)
  {
    hide Validate;
    if TupleFromString(sdk, s) == Ok(t) {
      var inner := s[1..|s| - 1];
      SplitInTwo(inner, ',');
      PartsHaveNoSeparator(inner, ',');
      TryNewPairIsValidation(sdk.validDenom, Split(inner, ',')[0]);
      assert Writes(sdk, s, t, Split(inner, ',')[1]);
    } else if exists text :: Writes(sdk, s, t, text) {
      var text :| Writes(sdk, s, t, text);
      ReadsWritten(sdk, s, t, text);
    }
  }

  lemma ReadsWritten(sdk: Sdk, s: string, t: ExchangeRateTuple, text: string)
    requires Sound(sdk) && Writes(sdk, s, t, text)
    ensures TupleFromString(sdk, s) == Ok(t)
  {
    ValidPairIsClean(sdk, t.pair);
    assert s[1..|s| - 1] == t.pair + [','] + text;
    SplitAtSeparator(t.pair, text, ',');
    SplitWithoutSeparator(t.pair, ',');
    SplitWithoutSeparator(text, ',');
    TryNewPairIsValidation(sdk.validDenom, t.pair);
  }

  lemma TupleRoundTrip(sdk: Sdk, t: ExchangeRateTuple)
    requires Sound(sdk) && Valid(sdk.validDenom, t.pair)
    ensures TupleToString(sdk, t).Ok?
    ensures TupleFromString(sdk, TupleToString(sdk, t).value) == Ok(t)
    ensures '|' !in TupleToString(sdk, t).value
  {
    var rate := sdk.printDec(t.rate);
    assert sdk.parseDec(rate) == Some(t.rate) && Clean(rate);
    assert ',' in RESERVED && '|' in RESERVED;
    ValidPairIsClean(sdk, t.pair);
    ReadsWritten(sdk, TupleToString(sdk, t).value, t, rate);
  }

  // ---- lists of tuples

  ghost predicate DistinctPairs(ts: seq<ExchangeRateTuple>) {
    forall i, j | 0 <= i < j < |ts| :: ts[i].pair != ts[j].pair
  }

  /** The tuples of the parts, or the error of the first part that has one. */
  function ParseParts(sdk: Sdk, parts: seq<string>): (r: Result<seq<ExchangeRateTuple>, TuplesError>)
    ensures r.Ok? ==> |r.value| == |parts|
  {
    if parts == [] then Ok([])
    else
      var n := |parts| - 1;
      match ParseParts(sdk, parts[..n])
      case Err(e) => Err(e)
      case Ok(before) =>
        match TupleFromString(sdk, parts[n])
        case Err(e) => Err(InvalidTuple(n, e))
        case Ok(t) =>
          if exists i :: 0 <= i < |before| && before[i].pair == t.pair then Err(FoundDuplicate(n))
          else Ok(before + [t])
  }

  function ParseTuples(sdk: Sdk, s: string): Result<seq<ExchangeRateTuple>, TuplesError> {
    ParseParts(sdk, Split(s, '|'))
  }

  /** An error in a prefix of the parts is the error of all of them. */
  lemma {:induction false} FirstErrorWins(sdk: Sdk, parts: seq<string>, k: nat)
    requires k <= |parts| && ParseParts(sdk, parts[..k]).Err?
    ensures ParseParts(sdk, parts) == ParseParts(sdk, parts[..k])
  {
    if k == |parts| {
      assert parts[..k] == parts;
    } else {
      var n := |parts| - 1;
      assert parts[..n][..k] == parts[..k];
      FirstErrorWins(sdk, parts[..n], k);
    }
  }

  method ParseExchangeRateTuples(sdk: Sdk, s: string) returns (r: Result<seq<ExchangeRateTuple>, TuplesError>)
    ensures r == ParseTuples(sdk, s)
  {
    hide TupleFromString;
    var parts := Split(s, '|');
    var tuples: seq<ExchangeRateTuple> := [];
    var duplicates: set<Pair> := {};
    for i := 0 to |parts|
      invariant ParseParts(sdk, parts[..i]) == Ok(tuples)
      invariant forall p :: p in duplicates <==> exists k :: 0 <= k < |tuples| && tuples[k].pair == p
    {
      assert parts[..i + 1][..i] == parts[..i];
      var t := TupleFromString(sdk, parts[i]);
      if t.Err? {
        FirstErrorWins(sdk, parts, i + 1);
        return Err(InvalidTuple(i, t.error));
      }
      if t.value.pair in duplicates {
        FirstErrorWins(sdk, parts, i + 1);
        return Err(FoundDuplicate(i));
      }
      duplicates := duplicates + {t.value.pair};
      ghost var before := tuples;
      tuples := tuples + [t.value];
      assert forall k | 0 <= k < |before| :: tuples[k] == before[k];
      assert tuples[|before|] == t.value;
    }
    assert parts[..|parts|] == parts;
    return Ok(tuples);
  }

  ghost predicate AllValid(sdk: Sdk, ts: seq<ExchangeRateTuple>) {
    forall i | 0 <= i < |ts| :: Valid(sdk.validDenom, ts[i].pair)
  }

  /** The printed tuples, for valid pairs. */
  ghost function Printed(sdk: Sdk, ts: seq<ExchangeRateTuple>): (parts: seq<string>)
    requires AllValid(sdk, ts)
    ensures |parts| == |ts|
  {
    seq(|ts|, i requires 0 <= i < |ts| => TupleToString(sdk, ts[i]).value)
  }

  method TuplesToString(sdk: Sdk, ts: seq<ExchangeRateTuple>) returns (r: Result<string, PairError>)
    ensures AllValid(sdk, ts) ==> r == Ok(Join(Printed(sdk, ts), '|'))
    ensures !AllValid(sdk, ts) ==>
              r.Err? && exists i :: 0 <= i < |ts| && AllValid(sdk, ts[..i]) && TupleToString(sdk, ts[i]) == Err(r.error)
  {
    var strings: seq<string> := [];
    for i := 0 to |ts|
      invariant |strings| == i && AllValid(sdk, ts[..i])
      invariant forall k | 0 <= k < i :: TupleToString(sdk, ts[k]) == Ok(strings[k])
    {
      var s := TupleToString(sdk, ts[i]);
      if s.Err? {
        assert !Valid(sdk.validDenom, ts[i].pair);
        return Err(s.error);
      }
      strings := strings + [s.value];
    }
    assert AllValid(sdk, ts) by {
      assert ts[..|ts|] == ts;
    }
    assert strings == Printed(sdk, ts);
    return Ok(Join(strings, '|'));
  }

  lemma {:induction false} ParsePrintedParts(sdk: Sdk, ts: seq<ExchangeRateTuple>)
    requires Sound(sdk) && AllValid(sdk, ts) && DistinctPairs(ts)
    ensures ParseParts(sdk, Printed(sdk, ts)) == Ok(ts)
    ensures forall i | 0 <= i < |ts| :: '|' !in Printed(sdk, ts)[i]
  {
    hide TupleFromString;
    if ts != [] {
      var n := |ts| - 1;
      ParsePrintedParts(sdk, ts[..n]);
      TupleRoundTrip(sdk, ts[n]);
      assert Printed(sdk, ts)[..n] == Printed(sdk, ts[..n]);
      assert ts == ts[..n] + [ts[n]];
      assert forall i | 0 <= i < n :: Printed(sdk, ts)[i] == Printed(sdk, ts[..n])[i];
    }
  }

  /** The empty list prints as the empty text, which does not parse. */
  lemma EmptyListIsNotReadBack(sdk: Sdk)
    ensures Join(Printed(sdk, []), '|') == ""
    ensures ParseTuples(sdk, "") == Err(InvalidTuple(0, InvalidLength))
  {
    var parts := Split("", '|');
    assert parts == [""] && parts[..0] == [] && parts[0] == "";
    assert TupleFromString(sdk, "") == Err(InvalidLength);
    assert ParseParts(sdk, parts[..0]) == Ok([]);
    assert ParseParts(sdk, parts) == Err(InvalidTuple(0, InvalidLength));
    assert Printed(sdk, []) == [];
  }

  lemma {:induction false} ParsedPartsAreDistinct(sdk: Sdk, parts: seq<string>)
    requires ParseParts(sdk, parts).Ok?
    ensures DistinctPairs(ParseParts(sdk, parts).value)
  {
    hide TupleFromString;
    if parts != [] {
      var n := |parts| - 1;
      ParsedPartsAreDistinct(sdk, parts[..n]);
      var before, ts := ParseParts(sdk, parts[..n]).value, ParseParts(sdk, parts).value;
      assert ts == before + [ts[n]];
      assert forall i | 0 <= i < n :: before[i].pair != ts[n].pair;
    }
  }

  lemma {:induction false} ParsedPartsAreValid(sdk: Sdk, parts: seq<string>)
    requires Sound(sdk) && ParseParts(sdk, parts).Ok?
    ensures AllValid(sdk, ParseParts(sdk, parts).value)
  {
    if parts != [] {
      var n := |parts| - 1;
      ParsedPartsAreValid(sdk, parts[..n]);
      var inner := parts[n][1..|parts[n]| - 1];
      TryNewPairIsValidation(sdk.validDenom, Split(inner, ',')[0]);
    }
  }

  /** What parses has at least one tuple, valid pairs and no pair twice. */
  lemma ParsedTuplesAreDistinct(sdk: Sdk, s: string)
    requires Sound(sdk) && ParseTuples(sdk, s).Ok?
    ensures var ts := ParseTuples(sdk, s).value; ts != [] && AllValid(sdk, ts) && DistinctPairs(ts)
  {
    ParsedPartsAreValid(sdk, Split(s, '|'));
    ParsedPartsAreDistinct(sdk, Split(s, '|'));
  }

  /** Of the lists with valid pairs, exactly the non-empty ones without a duplicate are read back as they were
      printed. */
  lemma TuplesRoundTrip(sdk: Sdk, ts: seq<ExchangeRateTuple>)
    requires Sound(sdk) && AllValid(sdk, ts)
    ensures ParseTuples(sdk, Join(Printed(sdk, ts), '|')) == Ok(ts) <==> ts != [] && DistinctPairs(ts)
  {
    hide Printed, Join, ParseTuples;
    if ts != [] && DistinctPairs(ts) {
      PrintedIsReadBack(sdk, ts);
    } else if ParseTuples(sdk, Join(Printed(sdk, ts), '|')) == Ok(ts) {
      ParsedTuplesAreDistinct(sdk, Join(Printed(sdk, ts), '|'));
    }
  }

  lemma PrintedIsReadBack(sdk: Sdk, ts: seq<ExchangeRateTuple>)
    requires Sound(sdk) && ts != [] && AllValid(sdk, ts) && DistinctPairs(ts)
    ensures ParseTuples(sdk, Join(Printed(sdk, ts), '|')) == Ok(ts)
  {
    ParsePrintedParts(sdk, ts);
    SplitOfJoin(Printed(sdk, ts), '|');
  }

  /** Every text that parses is reprinted to one that parses to the same tuples. */
  lemma ReprintedTextMeansTheSame(sdk: Sdk, s: string)
    requires Sound(sdk) && ParseTuples(sdk, s).Ok?
    ensures var ts := ParseTuples(sdk, s).value;
            AllValid(sdk, ts) && ParseTuples(sdk, Join(Printed(sdk, ts), '|')) == Ok(ts)
  {
    ParsedTuplesAreDistinct(sdk, s);
    PrintedIsReadBack(sdk, ParseTuples(sdk, s).value);
  }
}
