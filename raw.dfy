/**
 * src/raw.rs: literal values in a query — a quoted string or an `i32`
 * number — which ignore their input.
 */
module Raw {
  import opened Wrappers
  import opened Json
  import opened Nom
  import L = Lib

  /** `Raw`: a literal value. */
  datatype Raw = Raw(value: Value)

  /** `Raw::execute`: the literal itself, whatever the input. */
  function Execute(raw: Raw, input: Value): (r: L.Outcome)
    ensures r.Ok? && |r.values| == 1
  {
    L.Single(raw.value)
  }

  /** The input plays no part: every input gives the singleton literal. */
  lemma ExecuteIgnoresInput(raw: Raw, v: Value, w: Value)
    ensures Execute(raw, v) == Execute(raw, w) == L.Ok([raw.value])
  {
  }

  /** `delimited(char('"'), take_while(|c| c != '"'), char('"'))`: possibly empty, no `"` inside. */
  function QuotedString(input: Bytes): (r: PResult<Bytes>)
    ensures r.Done? ==> '"' !in r.value
    ensures r.Done? ==> input != [] && input[0] == '"'
  {
    match Char('"', input)
    case Fail => Fail
    case Done(s1, _) =>
      var Done(s2, s) := TakeWhile(NotQuote, s1);
      assert forall k :: 0 <= k < |s| ==> s[k] != '"';
      match Char('"', s2)
      case Fail => Fail
      case Done(s3, _) => Done(s3, s)
  }

  /**
   * `Raw::parser`: a quoted string first, then an `i32`.  The third
   * alternative, a float, is not part of this model.
   */
  function Parser(input: Bytes): (r: PResult<Raw>)
    ensures r.Done? ==> IsSuffix(r.rest, input) && |r.rest| < |input|
    ensures r.Done? && r.value.value.Num? ==> I32_MIN <= r.value.value.n <= I32_MAX
    ensures r.Done? ==> r.value.value.Str? || r.value.value.Num?
  {
    match QuotedString(input)
    case Done(rest, s) => Done(rest, Raw(Str(s)))
    case Fail =>
      match I32(input)
      case Done(rest, n) => Done(rest, Raw(Num(n)))
      case Fail => Fail
  }

  /**
   * Parsing a whole literal: the parser must succeed and leave nothing
   * behind.  This is the contract assumed of the default `Parseable::parse`.
   */
  function Parse(input: Bytes): (r: Result<Raw, ParseError>)
    ensures r.Ok? <==> Parser(input).Done? && Parser(input).rest == []
    ensures r.Ok? ==> r.value == Parser(input).value
    ensures r.Err? && Parser(input).Done? ==> r.error == LeftoverCharacters(Parser(input).rest)
  {
    match Parser(input)
    case Fail => Err(InvalidFormat)
    case Done(rest, raw) => if rest == [] then Ok(raw) else Err(LeftoverCharacters(rest))
  }

  /** The quoted text of a string literal. */
  function Quoted(s: Bytes): (t: Bytes)
    ensures |t| == |s| + 2 && t[0] == '"' && t[|t| - 1] == '"'
  {
    ['"'] + (s + ['"'])
  }

  /** Any text without `"`, empty or containing blanks, reads back as that string. */
  lemma StringRoundTrip(s: Bytes, rest: Bytes)
    requires '"' !in s
    ensures Parser(Quoted(s) + rest) == Done(rest, Raw(Str(s)))
  {
    var after := ['"'] + rest;
    assert Quoted(s) + rest == ['"'] + (s + after);
    assert (['"'] + (s + after))[1..] == s + after;
    assert TakeWhile(NotQuote, s + after) == Done(after, s) by {
      TakeWhileAll(NotQuote, s, after);
    }
    assert after[1..] == rest;
  }

  /** Every `i32` reads back as that number. */
  lemma IntegerRoundTrip(n: int, rest: Bytes)
    requires I32_MIN <= n <= I32_MAX
    requires rest == [] || !IsDigit(rest[0])
    ensures Parser(IntText(n) + rest) == Done(rest, Raw(Num(n)))
  {
    IntTextShape(n);
    assert (IntText(n) + rest)[0] == IntText(n)[0];
    I32RoundTrip(n, rest);
  }

  /** A whole string literal or integer is accepted as exactly that value. */
  lemma ParseLiterals(s: Bytes, n: int)
    requires '"' !in s
    requires I32_MIN <= n <= I32_MAX
    ensures Parse(Quoted(s)) == Ok(Raw(Str(s)))
    ensures Parse(IntText(n)) == Ok(Raw(Num(n)))
  {
    StringRoundTrip(s, []);
    assert Quoted(s) + [] == Quoted(s);
    IntegerRoundTrip(n, []);
    assert IntText(n) + [] == IntText(n);
  }

  /** Anything after a whole number that is not a digit is left over: `4 4` and `0..5` fail. */
  lemma TrailingTextRejected(n: int, rest: Bytes)
    requires I32_MIN <= n <= I32_MAX
    requires rest != [] && !IsDigit(rest[0])
    ensures Parse(IntText(n) + rest) == Err(LeftoverCharacters(rest))
  {
    IntegerRoundTrip(n, rest);
  }

  /** Unquoted text such as `foo` or `foo"` is no literal. */
  lemma UnquotedRejected(input: Bytes)
    requires input != [] && IsAlphabetic(input[0])
    ensures Parser(input).Fail?
  {
  }

  /** A string whose closing quote is missing, such as `"foo`, is no literal. */
  lemma UnclosedRejected(s: Bytes)
    requires '"' !in s
    ensures Parser(['"'] + s).Fail?
  {
    assert (['"'] + s)[1..] == s;
    assert TakeWhile(NotQuote, s) == Done([], s) by {
      TakeWhileAll(NotQuote, s, []);
      assert s + [] == s;
    }
  }

  /** At most one sign: `--4` is no literal. */
  lemma DoubleMinusRejected(s: Bytes)
    ensures Parser(['-', '-'] + s).Fail?
  {
    assert (['-', '-'] + s)[1..] == ['-'] + s;
  }
}
