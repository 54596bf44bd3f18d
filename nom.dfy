/**
 * The few `nom` parsers the grammar is built from, over byte input with
 * complete-input semantics: a parser either succeeds with the unconsumed rest
 * and a value, or fails recoverably, letting `alt` and `opt` try something
 * else on the same input.
 */
module Nom {
  import opened Wrappers
  import opened Json

  datatype PResult<+T> = Done(rest: Bytes, value: T) | Fail

  /** How a text is refused, shared by every parser of the crate. */
  datatype ParseError = InvalidFormat | LeftoverCharacters(rest: Bytes)

  /** `rest` is what is left of `input` after a prefix has been consumed. */
  predicate IsSuffix(rest: Bytes, input: Bytes)
  {
    |rest| <= |input| && rest == input[|input| - |rest|..]
  }

  lemma SuffixTransitive(a: Bytes, b: Bytes, c: Bytes)
    requires IsSuffix(a, b) && IsSuffix(b, c)
    ensures IsSuffix(a, c)
  {
    assert c[|c| - |b|..][|b| - |a|..] == c[|c| - |a|..];
  }

  /** `char(c)`. */
  function Char(c: Byte, input: Bytes): (r: PResult<Byte>)
    ensures r.Done? <==> input != [] && input[0] == c
    ensures r.Done? ==> r.rest == input[1..] && r.value == c
  {
    if input != [] && input[0] == c then Done(input[1..], c) else Fail
  }

  /** `tag(t)`. */
  function Tag(t: Bytes, input: Bytes): (r: PResult<Bytes>)
    ensures r.Done? <==> |t| <= |input| && input[..|t|] == t
    ensures r.Done? ==> r.rest == input[|t|..] && r.value == t
  {
    if |t| <= |input| && input[..|t|] == t then Done(input[|t|..], t) else Fail
  }

  /** `eof`: succeeds, consuming nothing, exactly on empty input. */
  function Eof(input: Bytes): (r: PResult<Bytes>)
    ensures r.Done? <==> input == []
    ensures r.Done? ==> r.rest == []
  {
    if input == [] then Done([], []) else Fail
  }

  /** `take_while(p)`: the longest prefix whose bytes all satisfy `p`; never fails. */
  function TakeWhile(p: Byte -> bool, input: Bytes): (r: PResult<Bytes>)
    ensures r.Done? && r.value + r.rest == input
    ensures forall k :: 0 <= k < |r.value| ==> p(r.value[k])
    ensures r.rest == [] || !p(r.rest[0])
  {
    if input == [] || !p(input[0]) then Done(input, [])
    else
      var r := TakeWhile(p, input[1..]);
      Done(r.rest, [input[0]] + r.value)
  }

  /** `take_while1(p)`: as `take_while`, but at least one byte must be taken. */
  function TakeWhile1(p: Byte -> bool, input: Bytes): (r: PResult<Bytes>)
    ensures r.Done? <==> input != [] && p(input[0])
    ensures r.Done? ==> r == TakeWhile(p, input) && r.value != []
  {
    if input != [] && p(input[0]) then TakeWhile(p, input) else Fail
  }

  /** `opt(f)`: `f`'s result, or nothing and no input consumed when `f` fails; never fails. */
  function Opt<T>(f: Bytes -> PResult<T>, input: Bytes): (r: PResult<Option<T>>)
    ensures r.Done?
    ensures f(input).Done? ==> r == Done(f(input).rest, Some(f(input).value))
    ensures f(input).Fail? ==> r == Done(input, None)
  {
    match f(input)
    case Done(rest, v) => Done(rest, Some(v))
    case Fail => Done(input, None)
  }

  /** `opt(char(c))`, read as whether `c` was there. */
  function OptChar(c: Byte, input: Bytes): (r: PResult<bool>)
    ensures r.Done?
    ensures r.value <==> input != [] && input[0] == c
    ensures r.rest == if r.value then input[1..] else input
  {
    match Opt(i => Char(c, i), input)
    case Done(rest, o) => Done(rest, o.Some?)
  }

  predicate IsDigit(b: Byte) { '0' <= b <= '9' }

  /** The predicate `|c| c != '"'` of the quoted-text parsers. */
  predicate NotQuote(b: Byte) { b != '"' }

  /** `is_alphabetic`: an ASCII letter. */
  predicate IsAlphabetic(b: Byte) { ('A' <= b <= 'Z') || ('a' <= b <= 'z') }

  /** What `space0` skips: spaces and tabs. */
  predicate IsBlank(b: Byte) { b == ' ' || b == '\t' }

  /** `space0`: a possibly empty run of blanks; never fails. */
  function Space0(input: Bytes): (r: PResult<Bytes>)
    ensures r.Done? && r.value + r.rest == input
    ensures forall k :: 0 <= k < |r.value| ==> IsBlank(r.value[k])
    ensures r.rest == [] || !IsBlank(r.rest[0])
  {
    TakeWhile(IsBlank, input)
  }

  /** The number a run of decimal digits denotes (leading zeros allowed). */
  function DigitsValue(ds: Bytes): nat
  {
    if ds == [] then 0
    else DigitsValue(ds[..|ds| - 1]) * 10 + DigitValue(ds[|ds| - 1])
  }

  /** The value of a decimal digit (zero for any other byte). */
  function DigitValue(b: Byte): (d: nat)
    ensures d < 10
  {
    if IsDigit(b) then b as int - '0' as int else 0
  }

  function DigitByte(d: nat): (b: Byte)
    requires d < 10
    ensures IsDigit(b) && b as int - '0' as int == d
  {
    (48 + d) as char
  }

  /** The shortest decimal text of a natural number. */
  function Decimal(n: nat): (ds: Bytes)
    ensures ds != [] && forall k :: 0 <= k < |ds| ==> IsDigit(ds[k])
    ensures DigitsValue(ds) == n
  {
    if n < 10 then
      var ds := [DigitByte(n)];
      assert ds[..0] == [];
      ds
    else
      var ds := Decimal(n / 10) + [DigitByte(n % 10)];
      assert ds[..|ds| - 1] == Decimal(n / 10);
      ds
  }

  const I32_MIN: int := -0x8000_0000
  const I32_MAX: int := 0x7FFF_FFFF

  /**
   * `character::complete::i32`: an optional `-` or `+`, then one or more
   * digits (all of them), whose value must fit in 32 bits.
   */
  function I32(input: Bytes): (r: PResult<int>)
    ensures r.Done? ==> I32_MIN <= r.value <= I32_MAX && IsSuffix(r.rest, input) && |r.rest| < |input|
    ensures r.Done? ==> r.rest == [] || !IsDigit(r.rest[0])
  {
    if input != [] && (input[0] == '-' || input[0] == '+') then
      SignedI32(input[0] == '-', input[1..])
    else SignedI32(false, input)
  }

  /** The digits of an `i32` after its sign, negated for a `-`, and range-checked. */
  function SignedI32(negative: bool, input: Bytes): (r: PResult<int>)
    ensures r.Done? ==> I32_MIN <= r.value <= I32_MAX && IsSuffix(r.rest, input) && |r.rest| < |input|
    ensures r.Done? ==> r.rest == [] || !IsDigit(r.rest[0])
  {
    match Magnitude(input)
    case Fail => Fail
    case Done(rest, m) =>
      var n: int := if negative then -(m as int) else m;
      if I32_MIN <= n <= I32_MAX then Done(rest, n) else Fail
  }

  /** One or more digits, read as the number they denote. */
  function Magnitude(input: Bytes): (r: PResult<nat>)
    ensures r.Done? <==> input != [] && IsDigit(input[0])
    ensures r.Done? ==> IsSuffix(r.rest, input) && |r.rest| < |input|
    ensures r.Done? ==> r.rest == [] || !IsDigit(r.rest[0])
  {
    match TakeWhile1(IsDigit, input)
    case Fail => Fail
    case Done(rest, ds) => Done(rest, DigitsValue(ds))
  }

  /** The decimal text of an integer: a `-` for negatives, then the digits. */
  function IntText(n: int): Bytes
  {
    if n < 0 then ['-'] + Decimal(-n) else Decimal(n)
  }

  /** Integer text is never empty and starts with a digit or a `-`. */
  lemma IntTextShape(n: int)
    ensures IntText(n) != []
    ensures IsDigit(IntText(n)[0]) || IntText(n)[0] == '-'
  {
  }

  /** `i32` reads back every 32-bit integer from its text, stopping at the first non-digit. */
  lemma I32RoundTrip(n: int, rest: Bytes)
    requires I32_MIN <= n <= I32_MAX
    requires rest == [] || !IsDigit(rest[0])
    ensures I32(IntText(n) + rest) == Done(rest, n)
  {
    var m: nat := if n < 0 then -n else n;
    var s := Decimal(m) + rest;
    MagnitudeReads(m, rest);
    if n < 0 {
      assert IntText(n) + rest == ['-'] + s;
      I32ReadsNegative(s, rest, m);
    } else {
      assert s[0] == Decimal(m)[0];
      I32ReadsNatural(s, rest, m);
    }
  }

  lemma I32ReadsNegative(s: Bytes, rest: Bytes, m: nat)
    requires Magnitude(s) == Done(rest, m) && m <= -I32_MIN
    ensures I32(['-'] + s) == Done(rest, -(m as int))
  {
    I32AfterSign('-', s);
  }

  lemma I32ReadsNatural(s: Bytes, rest: Bytes, m: nat)
    requires Magnitude(s) == Done(rest, m) && m <= I32_MAX
    ensures I32(s) == Done(rest, m)
  {
  }

  /** The digits of a natural number are read back as that number. */
  lemma MagnitudeReads(m: nat, rest: Bytes)
    requires rest == [] || !IsDigit(rest[0])
    ensures Magnitude(Decimal(m) + rest) == Done(rest, m)
  {
    TakeWhileAll(IsDigit, Decimal(m), rest);
  }

  /** After a sign, `i32` reads what follows it. */
  lemma I32AfterSign(sign: Byte, s: Bytes)
    requires sign == '-' || sign == '+'
    ensures I32([sign] + s) == SignedI32(sign == '-', s)
  {
    assert ([sign] + s)[1..] == s;
  }

  /** Text that starts with a digit has no sign. */
  lemma I32Unsigned(s: Bytes)
    requires s != [] && IsDigit(s[0])
    ensures I32(s) == SignedI32(false, s)
  {
  }

  /** `take_while` stops exactly where the satisfying prefix ends. */
  lemma {:induction false} TakeWhileAll(p: Byte -> bool, pre: Bytes, rest: Bytes)
    requires forall k :: 0 <= k < |pre| ==> p(pre[k])
    requires rest == [] || !p(rest[0])
    ensures TakeWhile(p, pre + rest) == Done(rest, pre)
  {
    if pre != [] {
      assert (pre + rest)[1..] == pre[1..] + rest;
      assert (pre + rest)[0] == pre[0] && p(pre[0]);
      TakeWhileAll(p, pre[1..], rest);
      assert [pre[0]] + pre[1..] == pre;
    } else {
      assert pre + rest == rest;
    }
  }
}
