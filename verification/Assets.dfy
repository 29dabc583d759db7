/** Splitting and joining text (Go's `strings`) and asset pairs (x/common/asset/pair.go). */
module Assets {
  import opened Prelude

  type Pair = string

  // ---- strings.Split and strings.Join for a one-character separator

  function Split(s: string, c: char): (parts: seq<string>)
    ensures parts != []
  {
    if s == [] then [[]]
    else
      var rest := Split(s[1..], c);
      if s[0] == c then [[]] + rest else [[s[0]] + rest[0]] + rest[1..]
  }

  function Join(parts: seq<string>, c: char): string {
    if parts == [] then []
    else if |parts| == 1 then parts[0]
    else Join(parts[..|parts| - 1], c) + [c] + parts[|parts| - 1]
  }

  lemma {:induction false} SplitWithoutSeparator(s: string, c: char)
    requires c !in s
    ensures Split(s, c) == [s]
  {
    if s != [] {
      SplitWithoutSeparator(s[1..], c);
      assert s == [s[0]] + s[1..];
    }
  }

  /** A separator cuts: the text before it and the text behind it are split on their own. */
  lemma {:induction false} SplitAtSeparator(a: string, b: string, c: char)
    ensures Split(a + [c] + b, c) == Split(a, c) + Split(b, c)
  {
    hide Split;
    SplitFirst(a + [c] + b, c);
    if a == [] {
      SplitNothing(c);
      assert (a + [c] + b)[1..] == b;
    } else {
      SplitFirst(a, c);
      SplitAtSeparator(a[1..], b, c);
      assert (a + [c] + b)[1..] == a[1..] + [c] + b;
      var rest := Split(a[1..], c);
      assert (rest + Split(b, c))[1..] == rest[1..] + Split(b, c);
    }
  }

  lemma SplitFirst(s: string, c: char)
    requires s != []
    ensures var rest := Split(s[1..], c);
            Split(s, c) == if s[0] == c then [[]] + rest else [[s[0]] + rest[0]] + rest[1..]
  {
  }

  lemma SplitNothing(c: char)
    ensures Split([], c) == [[]]
  {
  }

  lemma {:induction false} SplitOfJoin(parts: seq<string>, c: char)
    requires parts != [] && forall i | 0 <= i < |parts| :: c !in parts[i]
    ensures Split(Join(parts, c), c) == parts
  {
    var n := |parts| - 1;
    SplitWithoutSeparator(parts[n], c);
    if n == 0 {
      assert parts == [parts[0]];
    } else {
      SplitOfJoin(parts[..n], c);
      SplitAtSeparator(Join(parts[..n], c), parts[n], c);
      assert parts == parts[..n] + [parts[n]];
    }
  }

  lemma {:induction false} PartsHaveNoSeparator(s: string, c: char)
    ensures forall i | 0 <= i < |Split(s, c)| :: c !in Split(s, c)[i]
  {
    if s != [] {
      PartsHaveNoSeparator(s[1..], c);
    }
  }

  /** Two parts come from exactly one separator. */
  lemma {:induction false} SplitInTwo(s: string, c: char)
    requires |Split(s, c)| == 2
    ensures s == Split(s, c)[0] + [c] + Split(s, c)[1]
  {
    var rest := Split(s[1..], c);
    if s[0] == c {
      SplitInOne(s[1..], c);
    } else {
      SplitInTwo(s[1..], c);
    }
  }

  lemma {:induction false} SplitInOne(s: string, c: char)
    requires |Split(s, c)| == 1
    ensures s == Split(s, c)[0]
  {
    if s != [] {
      SplitInOne(s[1..], c);
    }
  }

  // ---- pairs

  const RESERVED: string := ":,|()"

  /** None of the characters that the vote text and the pair text give a meaning to. */
  ghost predicate Clean(s: string) {
    forall c | c in RESERVED :: c !in s
  }

  datatype PairError = SeparatorMissing | TooManyAssets | EmptyAsset | InvalidPair | InvalidBase | InvalidQuote

  function NewPair(base: string, quote: string): Pair { base + ":" + quote }

  /** `validDenom` stands for `sdk.ValidateDenom`. */
  function Validate(validDenom: string -> bool, pair: Pair): Option<PairError> {
    var split := Split(pair, ':');
    if |split| != 2 then Some(InvalidPair)
    else if !validDenom(split[0]) then Some(InvalidBase)
    else if !validDenom(split[1]) then Some(InvalidQuote)
    else None
  }

  function TryNewPair(validDenom: string -> bool, pair: string): Result<Pair, PairError> {
    var split := Split(pair, ':');
    if |split| == 1 then Err(SeparatorMissing)
    else if |split| != 2 then Err(TooManyAssets)
    else if split[0] == "" || split[1] == "" then Err(EmptyAsset)
    else
      var p := NewPair(split[0], split[1]);
      match Validate(validDenom, p)
      case None => Ok(p)
      case Some(e) => Err(e)
  }

  function BaseDenom(pair: Pair): string { Split(pair, ':')[0] }

  /** The index panics in Go on a pair without separator. */
  function QuoteDenom(pair: Pair): string
    requires 2 <= |Split(pair, ':')|
  {
    Split(pair, ':')[1]
  }

  function Inverse(pair: Pair): Pair
    requires 2 <= |Split(pair, ':')|
  {
    NewPair(QuoteDenom(pair), BaseDenom(pair))
  }

  ghost predicate Valid(validDenom: string -> bool, pair: Pair) { Validate(validDenom, pair).None? }

  /** What `sdk.ValidateDenom` accepts is not empty and has no reserved character. */
  ghost predicate SoundDenoms(validDenom: string -> bool) {
    forall s: string :: validDenom(s) ==> s != "" && Clean(s)
  }

  lemma SplitNewPair(base: string, quote: string)
    requires ':' !in base && ':' !in quote
    ensures Split(NewPair(base, quote), ':') == [base, quote]
  {
    SplitAtSeparator(base, quote, ':');
    SplitWithoutSeparator(base, ':');
    SplitWithoutSeparator(quote, ':');
  }

  /** The valid pairs are two valid denominations with a colon between them. */
  lemma ValidExactly(validDenom: string -> bool, pair: Pair)
    requires SoundDenoms(validDenom)
    ensures Valid(validDenom, pair) <==> exists base, quote :: JoinsDenoms(validDenom, pair, base, quote)
  {
    if Valid(validDenom, pair) {
      SplitInTwo(pair, ':');
      assert JoinsDenoms(validDenom, pair, Split(pair, ':')[0], Split(pair, ':')[1]);
    }
    forall base, quote | JoinsDenoms(validDenom, pair, base, quote)
      ensures Valid(validDenom, pair)
    {
      assert ':' in RESERVED;
      SplitNewPair(base, quote);
    }
  }

  ghost predicate JoinsDenoms(validDenom: string -> bool, pair: Pair, base: string, quote: string) {
    pair == base + ":" + quote && validDenom(base) && validDenom(quote)
  }

  /** A text parses as a pair exactly when it validates and is without empty sides, and it is its own pair. */
  lemma TryNewPairIsValidation(validDenom: string -> bool, s: string)
    requires SoundDenoms(validDenom)
    ensures TryNewPair(validDenom, s).Ok? <==> Valid(validDenom, s)
    ensures TryNewPair(validDenom, s).Ok? ==> TryNewPair(validDenom, s) == Ok(s)
  {
    if |Split(s, ':')| == 2 {
      SplitInTwo(s, ':');
    }
  }

  /** `Inverse` swaps the sides of a valid pair, stays valid and undoes itself. */
  lemma InverseIsAnInvolution(validDenom: string -> bool, pair: Pair)
    requires Valid(validDenom, pair)
    ensures Valid(validDenom, Inverse(pair))
    ensures BaseDenom(Inverse(pair)) == QuoteDenom(pair)
    ensures |Split(Inverse(pair), ':')| == 2 && QuoteDenom(Inverse(pair)) == BaseDenom(pair)
    ensures Inverse(Inverse(pair)) == pair
  {
    PartsHaveNoSeparator(pair, ':');
    SplitInTwo(pair, ':');
    SplitNewPair(QuoteDenom(pair), BaseDenom(pair));
  }
}
