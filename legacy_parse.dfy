/**
 * src/parse.rs: the byte-level grammar of the first design.  A filter is
 * `.` alone, or a non-empty run of elements `.key`, `.["key"]`, `[n]`,
 * `[a:b]`, `[:b]`, `[a:]` and `[]`, each optionally followed by `?`, where
 * only the first element may be preceded by a `.` before a bracket.  The
 * elements nest to the right and the innermost `next` is `Identity`.
 */
module LegacyParse {
  import opened Wrappers
  import opened Json
  import opened Nom
  import Range
  import F = LegacyFilter

  const ISIZE_MAX: int := 0x7FFF_FFFF_FFFF_FFFF

  /** `num`: an optional `-`, then one or more digits whose value fits in an `isize`. */
  function Num(input: Bytes): (r: PResult<int>)
    ensures r.Done? ==> IsSuffix(r.rest, input) && |r.rest| < |input|
    ensures r.Done? ==> -ISIZE_MAX <= r.value <= ISIZE_MAX
    ensures r.Done? ==> r.rest == [] || !IsDigit(r.rest[0])
    ensures r.Done? ==> IsDigit(input[0]) || (input[0] == '-' && |input| > 1 && IsDigit(input[1]))
  {
    var sign := OptChar('-', input);
    SignedDigits(sign.value, sign.rest)
  }

  /** The digits of `num` after its optional sign, negated when the sign was there. */
  function SignedDigits(negative: bool, input: Bytes): (r: PResult<int>)
    ensures r.Done? ==> IsSuffix(r.rest, input) && |r.rest| < |input|
    ensures r.Done? ==> -ISIZE_MAX <= r.value <= ISIZE_MAX
    ensures r.Done? ==> r.rest == [] || !IsDigit(r.rest[0])
    ensures r.Done? ==> IsDigit(input[0])
  {
    match Magnitude(input)
    case Fail => Fail
    case Done(rest, n) =>
      if n > ISIZE_MAX then Fail
      else Done(rest, if negative then -(n as int) else n)
  }

  /** The key of an object index: letters, bare or between `["` and `"]`. */
  function Key(input: Bytes): (r: PResult<Bytes>)
    ensures r.Done? ==> IsSuffix(r.rest, input) && |r.rest| < |input|
    ensures r.Done? ==> r.value != [] && forall k :: 0 <= k < |r.value| ==> IsAlphabetic(r.value[k])
  {
    match TakeWhile1(IsAlphabetic, input)
    case Done(rest, key) => Done(rest, key)
    case Fail =>
      match Tag("[\"", input)
      case Fail => Fail
      case Done(s1, _) =>
        match TakeWhile1(IsAlphabetic, s1)
        case Fail => Fail
        case Done(s2, key) =>
          match Tag("\"]", s2)
          case Fail => Fail
          case Done(s3, _) => Done(s3, key)
  }

  /** The bounds inside a slice: `a:b`, then `:b`, then `a:`. */
  function Bounds(input: Bytes): (r: PResult<Range.Range>)
    ensures r.Done? ==> IsSuffix(r.rest, input) && |r.rest| < |input|
    ensures r.Done? ==> InIsize(r.value)
  {
    var both := BothBounds(input);
    if both.Done? then both
    else
      var upper := UpperBound(input);
      if upper.Done? then upper else LowerBound(input)
  }

  function BothBounds(input: Bytes): (r: PResult<Range.Range>)
    ensures r.Done? ==> IsSuffix(r.rest, input) && |r.rest| < |input|
    ensures r.Done? ==> InIsize(r.value)
  {
    match Num(input)
    case Fail => Fail
    case Done(s1, l) =>
      match Char(':', s1)
      case Fail => Fail
      case Done(s2, _) =>
        match Num(s2)
        case Fail => Fail
        case Done(s3, u) =>
          assert IsSuffix(s2, s1);
          SuffixTransitive(s3, s2, s1);
          SuffixTransitive(s3, s1, input);
          Done(s3, Range.New(l, u))
  }

  function UpperBound(input: Bytes): (r: PResult<Range.Range>)
    ensures r.Done? ==> IsSuffix(r.rest, input) && |r.rest| < |input|
    ensures r.Done? ==> InIsize(r.value)
  {
    match Char(':', input)
    case Fail => Fail
    case Done(s1, _) =>
      match Num(s1)
      case Fail => Fail
      case Done(s2, u) => Done(s2, Range.Upper(u))
  }

  function LowerBound(input: Bytes): (r: PResult<Range.Range>)
    ensures r.Done? ==> IsSuffix(r.rest, input) && |r.rest| < |input|
    ensures r.Done? ==> InIsize(r.value)
  {
    match Num(input)
    case Fail => Fail
    case Done(s1, l) =>
      match Char(':', s1)
      case Fail => Fail
      case Done(s2, _) => Done(s2, Range.Lower(l))
  }

  predicate InIsize(r: Range.Range)
  {
    (r.lower.Some? ==> -ISIZE_MAX <= r.lower.value <= ISIZE_MAX) &&
    (r.upper.Some? ==> -ISIZE_MAX <= r.upper.value <= ISIZE_MAX)
  }

  /**
   * The filters the grammar builds after its first character: a run of
   * elements ending in `Identity`, with alphabetic keys and `isize` numbers.
   */
  predicate Chain(f: F.Filter)
  {
    match f
    case Empty => false
    case Identity => true
    case ObjectIndex(key, _, next) =>
      key != [] && (forall k :: 0 <= k < |key| ==> IsAlphabetic(key[k])) && Chain(next)
    case ArrayIndex(i, _, next) => -ISIZE_MAX <= i <= ISIZE_MAX && Chain(next)
    case Slice(range, _, next) => InIsize(range) && Chain(next)
    case Iterator(_, next) => Chain(next)
  }

  /** The filters `parse` can return: `Empty`, or a chain. */
  predicate WellFormed(f: F.Filter)
  {
    f.Empty? || Chain(f)
  }

  /** `parser`: the next element, or the end of the input. */
  function Parser(input: Bytes): (r: PResult<F.Filter>)
    ensures r.Done? ==> r.rest == [] && Chain(r.value)
    decreases |input|, 1
  {
    var o := ObjectIndex(input);
    if o.Done? then o
    else
      var s := Slice(input);
      if s.Done? then s
      else
        var a := ArrayIndex(input);
        if a.Done? then a
        else
          var i := Iterator(input);
          if i.Done? then i
          else
            match Eof(input)
            case Fail => Fail
            case Done(rest, _) => Done(rest, F.Identity)
  }

  /** `object_index`: `.` and a key, an optional `?`, then the rest of the chain. */
  function ObjectIndex(input: Bytes): (r: PResult<F.Filter>)
    ensures r.Done? ==> r.rest == [] && Chain(r.value) && r.value.ObjectIndex?
    ensures r.Done? ==> input != [] && input[0] == '.'
    decreases |input|, 0
  {
    match Char('.', input)
    case Fail => Fail
    case Done(s1, _) =>
      match Key(s1)
      case Fail => Fail
      case Done(s2, key) =>
        var q := OptChar('?', s2);
        match Parser(q.rest)
        case Fail => Fail
        case Done(rest, next) => Done(rest, F.ObjectIndex(key, q.value, next))
  }

  /** `array_index`: `[`, a number, `]`, an optional `?`, then the rest of the chain. */
  function ArrayIndex(input: Bytes): (r: PResult<F.Filter>)
    ensures r.Done? ==> r.rest == [] && Chain(r.value) && r.value.ArrayIndex?
    ensures r.Done? ==> input != [] && input[0] == '['
    decreases |input|, 0
  {
    match Char('[', input)
    case Fail => Fail
    case Done(s1, _) =>
      match Num(s1)
      case Fail => Fail
      case Done(s2, i) =>
        match Char(']', s2)
        case Fail => Fail
        case Done(s3, _) =>
          var q := OptChar('?', s3);
          match Parser(q.rest)
          case Fail => Fail
          case Done(rest, next) => Done(rest, F.ArrayIndex(i, q.value, next))
  }

  /** `slice`: `[`, bounds, `]`, an optional `?`, then the rest of the chain. */
  function Slice(input: Bytes): (r: PResult<F.Filter>)
    ensures r.Done? ==> r.rest == [] && Chain(r.value) && r.value.Slice?
    ensures r.Done? ==> input != [] && input[0] == '['
    decreases |input|, 0
  {
    match Char('[', input)
    case Fail => Fail
    case Done(s1, _) =>
      match Bounds(s1)
      case Fail => Fail
      case Done(s2, range) =>
        match Char(']', s2)
        case Fail => Fail
        case Done(s3, _) =>
          var q := OptChar('?', s3);
          match Parser(q.rest)
          case Fail => Fail
          case Done(rest, next) => Done(rest, F.Slice(range, q.value, next))
  }

  /** `iterator`: `[]`, an optional `?`, then the rest of the chain. */
  function Iterator(input: Bytes): (r: PResult<F.Filter>)
    ensures r.Done? ==> r.rest == [] && Chain(r.value) && r.value.Iterator?
    ensures r.Done? ==> input != [] && input[0] == '['
    decreases |input|, 0
  {
    match Tag("[]", input)
    case Fail => Fail
    case Done(s1, _) =>
      var q := OptChar('?', s1);
      match Parser(q.rest)
      case Fail => Fail
      case Done(rest, next) => Done(rest, F.Iterator(q.value, next))
  }

  /** `preceded(char('.'), p)`. */
  function AfterDot(p: Bytes -> PResult<F.Filter>, input: Bytes): (r: PResult<F.Filter>)
    ensures r.Done? <==> input != [] && input[0] == '.' && p(input[1..]).Done?
    ensures r.Done? ==> r == p(input[1..])
  {
    match Char('.', input)
    case Fail => Fail
    case Done(s1, _) => p(s1)
  }

  /** `init_parser`: the first element, where a bracket must follow a `.`, or `.` alone. */
  function InitParser(input: Bytes): (r: PResult<F.Filter>)
    ensures r.Done? ==> r.rest == [] && Chain(r.value) && input != [] && input[0] == '.'
  {
    var o := ObjectIndex(input);
    if o.Done? then o
    else
      var s := AfterDot(Slice, input);
      if s.Done? then s
      else
        var a := AfterDot(ArrayIndex, input);
        if a.Done? then a
        else
          var i := AfterDot(Iterator, input);
          if i.Done? then i
          else
            match Char('.', input)
            case Fail => Fail
            case Done(s1, _) =>
              match Eof(s1)
              case Fail => Fail
              case Done(rest, _) => Done(rest, F.Identity)
  }

  /**
   * `parse`: the empty text is `Empty`; anything else must parse completely.
   * Every result is well formed, a non-empty accepted text starts with `.`,
   * and since every element recurses until the end of the input, leftover
   * characters are never reported.
   */
  function Parse(input: Bytes): (r: Result<F.Filter, ParseError>)
    ensures r.Ok? ==> WellFormed(r.value)
    ensures r.Ok? && input != [] ==> input[0] == '.' && r.value != F.Empty
    ensures r.Err? ==> r.error == InvalidFormat
    ensures r == Ok(F.Empty) <==> input == []
  {
    if input == [] then Ok(F.Empty)
    else
      match InitParser(input)
      case Fail => Err(InvalidFormat)
      case Done(rest, f) =>
        if rest != [] then Err(LeftoverCharacters(rest)) else Ok(f)
  }

  /* A printer for well-formed filters, the inverse of `parse`. */

  function Question(opt: bool): (s: Bytes)
    ensures s == [] || s == "?"
  {
    if opt then "?" else []
  }

  function BoundsText(range: Range.Range): Bytes
  {
    match (range.lower, range.upper)
    case (Some(l), Some(u)) => IntText(l) + ([':'] + IntText(u))
    case (None, Some(u)) => [':'] + IntText(u)
    case (Some(l), None) => IntText(l) + [':']
  }

  /** The text of a chain; it ends at `Identity` (`Empty` never occurs in a chain). */
  function ChainText(f: F.Filter): (s: Bytes)
  {
    match f
    case Empty => []
    case Identity => []
    case ObjectIndex(key, opt, next) => ['.'] + (key + (Question(opt) + ChainText(next)))
    case ArrayIndex(i, opt, next) => ['['] + (IntText(i) + ([']'] + (Question(opt) + ChainText(next))))
    case Slice(range, opt, next) => ['['] + (BoundsText(range) + ([']'] + (Question(opt) + ChainText(next))))
    case Iterator(opt, next) => ['[', ']'] + (Question(opt) + ChainText(next))
  }

  /** The text of a filter: a chain that starts with a bracket gets a leading `.`. */
  function Print(f: F.Filter): (s: Bytes)
    requires WellFormed(f)
    ensures s == [] <==> f == F.Empty
    ensures s != [] ==> s[0] == '.'
  {
    match f
    case Empty => []
    case Identity => "."
    case ObjectIndex(_, _, _) => ChainText(f)
    case _ => "." + ChainText(f)
  }

  lemma NumReads(n: int, rest: Bytes)
    requires -ISIZE_MAX <= n <= ISIZE_MAX
    requires rest == [] || !IsDigit(rest[0])
    ensures Num(IntText(n) + rest) == Done(rest, n)
  {
    var m := if n < 0 then -n else n;
    var ds := Decimal(m);
    assert SignedDigits(false, ds + rest) == Done(rest, m) by {
      MagnitudeReads(m, rest);
    }
    if n < 0 {
      Associative(['-'], ds, rest);
      NumReadsNegative(ds + rest, rest, m);
    } else {
      NumReadsNatural(ds + rest, rest, m);
    }
  }

  /** Reading `-` and a run of digits. */
  lemma NumReadsNegative(s: Bytes, rest: Bytes, m: int)
    requires SignedDigits(false, s) == Done(rest, m)
    ensures Num(['-'] + s) == Done(rest, -m)
  {
    SignedDigitsNegated(s);
    NumAfterMinus(s);
  }

  /** With the sign, the digits are read as without it, then negated. */
  lemma SignedDigitsNegated(s: Bytes)
    ensures SignedDigits(true, s) ==
      match SignedDigits(false, s)
      case Fail => Fail
      case Done(rest, n) => Done(rest, -n)
  {
  }

  /** After a leading `-`, `num` reads the digits that follow it as a negative number. */
  lemma NumAfterMinus(s: Bytes)
    ensures Num(['-'] + s) == SignedDigits(true, s)
  {
    assert OptChar('-', ['-'] + s) == Done(s, true) by {
      DropFirst('-', s);
    }
  }

  /** Reading a run of digits with no sign. */
  lemma NumReadsNatural(s: Bytes, rest: Bytes, m: int)
    requires SignedDigits(false, s) == Done(rest, m)
    ensures Num(s) == Done(rest, m)
  {
    assert OptChar('-', s) == Done(s, false);
  }

  lemma DropFirst(c: Byte, s: Bytes)
    ensures ([c] + s)[0] == c && ([c] + s)[1..] == s
  {
  }

  lemma Associative(a: Bytes, b: Bytes, c: Bytes)
    ensures a + b + c == a + (b + c)
  {
  }

  lemma OptReads(opt: bool, rest: Bytes)
    requires rest == [] || rest[0] != '?'
    ensures OptChar('?', Question(opt) + rest) == Done(rest, opt)
  {
    if opt {
      assert (Question(opt) + rest)[1..] == rest;
    }
  }

  lemma BoundsReads(range: Range.Range, tail: Bytes)
    requires InIsize(range)
    requires tail == [] || (!IsDigit(tail[0]) && tail[0] != '-')
    ensures Bounds(BoundsText(range) + tail) == Done(tail, range)
  {
    match (range.lower, range.upper)
    case (Some(l), Some(u)) =>
      Associative(IntText(l), [':'] + IntText(u), tail);
      Associative([':'], IntText(u), tail);
      BothBoundsRead(l, u, tail);
    case (None, Some(u)) =>
      Associative([':'], IntText(u), tail);
      UpperBoundReads(u, tail);
    case (Some(l), None) =>
      Associative(IntText(l), [':'], tail);
      LowerBoundReads(l, tail);
  }

  lemma BothBoundsRead(l: int, u: int, tail: Bytes)
    requires -ISIZE_MAX <= l <= ISIZE_MAX && -ISIZE_MAX <= u <= ISIZE_MAX
    requires tail == [] || (!IsDigit(tail[0]) && tail[0] != '-')
    ensures Bounds(IntText(l) + ([':'] + (IntText(u) + tail))) == Done(tail, Range.New(l, u))
  {
    var afterU := IntText(u) + tail;
    var afterL := [':'] + afterU;
    var input := IntText(l) + afterL;
    assert Num(input) == Done(afterL, l) by {
      DropFirst(':', afterU);
      NumReads(l, afterL);
    }
    assert Num(afterU) == Done(tail, u) by {
      NumReads(u, tail);
    }
    BothBoundsSteps(input, l, afterU, u, tail);
  }

  /** A number, `:` and a number make the first alternative of the bounds. */
  lemma BothBoundsSteps(input: Bytes, l: int, afterU: Bytes, u: int, tail: Bytes)
    requires Num(input) == Done([':'] + afterU, l)
    requires Num(afterU) == Done(tail, u)
    ensures Bounds(input) == Done(tail, Range.New(l, u))
  {
    DropFirst(':', afterU);
  }

  lemma UpperBoundReads(u: int, tail: Bytes)
    requires -ISIZE_MAX <= u <= ISIZE_MAX
    requires tail == [] || (!IsDigit(tail[0]) && tail[0] != '-')
    ensures Bounds([':'] + (IntText(u) + tail)) == Done(tail, Range.Upper(u))
  {
    var afterU := IntText(u) + tail;
    var input := [':'] + afterU;
    DropFirst(':', afterU);
    assert BothBounds(input).Fail? by {
      assert Num(input).Fail?;
    }
    assert UpperBound(input) == Done(tail, Range.Upper(u)) by {
      NumReads(u, tail);
    }
  }

  lemma LowerBoundReads(l: int, tail: Bytes)
    requires -ISIZE_MAX <= l <= ISIZE_MAX
    requires tail == [] || (!IsDigit(tail[0]) && tail[0] != '-')
    ensures Bounds(IntText(l) + ([':'] + tail)) == Done(tail, Range.Lower(l))
  {
    var afterL := [':'] + tail;
    var input := IntText(l) + afterL;
    assert Num(input) == Done(afterL, l) by {
      DropFirst(':', tail);
      NumReads(l, afterL);
    }
    NumberNotUpperBound(l, afterL);
    LowerBoundAlone(input, l, tail);
    BoundsThird(input);
  }

  /** Text that starts with a number is not a bound of the form `:b`. */
  lemma NumberNotUpperBound(l: int, after: Bytes)
    ensures UpperBound(IntText(l) + after).Fail?
  {
    IntTextShape(l);
    assert (IntText(l) + after)[0] == IntText(l)[0];
  }

  /** When the first two alternatives fail, the bounds are the third. */
  lemma BoundsThird(input: Bytes)
    requires BothBounds(input).Fail? && UpperBound(input).Fail?
    ensures Bounds(input) == LowerBound(input)
  {
  }

  /** After `a:` and a `]`, only the third alternative of the bounds applies. */
  lemma LowerBoundAlone(input: Bytes, l: int, tail: Bytes)
    requires Num(input) == Done([':'] + tail, l)
    requires tail == [] || (!IsDigit(tail[0]) && tail[0] != '-')
    ensures BothBounds(input).Fail?
    ensures LowerBound(input) == Done(tail, Range.Lower(l))
  {
    DropFirst(':', tail);
    assert Num(tail).Fail?;
  }

  /**
   * The grammar reads back every printed chain, each element through its own
   * alternative: the alternatives tried before it fail.
   */
  lemma {:induction false} ParserReadsChain(f: F.Filter)
    requires Chain(f)
    ensures Parser(ChainText(f)) == Done([], f)
    ensures f.ObjectIndex? ==> ObjectIndex(ChainText(f)) == Done([], f)
    ensures f.Slice? ==> Slice(ChainText(f)) == Done([], f)
    ensures f.ArrayIndex? ==> Slice(ChainText(f)).Fail? && ArrayIndex(ChainText(f)) == Done([], f)
    ensures f.Iterator? ==>
      (Slice(ChainText(f)).Fail? && ArrayIndex(ChainText(f)).Fail? && Iterator(ChainText(f)) == Done([], f))
  {
    match f
    case Identity =>
      assert Parser([]) == Done([], F.Identity);
    case ObjectIndex(key, opt, next) =>
      ParserReadsChain(next);
      ChainReadsObjectIndex(f);
    case ArrayIndex(i, opt, next) =>
      ParserReadsChain(next);
      ChainReadsArrayIndex(f);
    case Slice(range, opt, next) =>
      ParserReadsChain(next);
      ChainReadsSlice(f);
    case Iterator(opt, next) =>
      ParserReadsChain(next);
      ChainReadsIterator(f);
  }

  lemma ChainReadsObjectIndex(f: F.Filter)
    requires f.ObjectIndex? && Chain(f) && Parser(ChainText(f.next)) == Done([], f.next)
    ensures ObjectIndex(ChainText(f)) == Done([], f)
    ensures Parser(ChainText(f)) == Done([], f)
  {
    var after := Question(f.opt) + ChainText(f.next);
    OptReads(f.opt, ChainText(f.next));
    ObjectIndexReads(f.key, after);
  }

  lemma ChainReadsArrayIndex(f: F.Filter)
    requires f.ArrayIndex? && Chain(f) && Parser(ChainText(f.next)) == Done([], f.next)
    ensures Slice(ChainText(f)).Fail? && ArrayIndex(ChainText(f)) == Done([], f)
    ensures Parser(ChainText(f)) == Done([], f)
  {
    var text := ChainText(f);
    var after := Question(f.opt) + ChainText(f.next);
    OptReads(f.opt, ChainText(f.next));
    ArrayIndexNotSlice(f.index, after);
    ArrayIndexReads(f.index, after);
    assert ObjectIndex(text).Fail?;
  }

  lemma ChainReadsSlice(f: F.Filter)
    requires f.Slice? && Chain(f) && Parser(ChainText(f.next)) == Done([], f.next)
    ensures Slice(ChainText(f)) == Done([], f)
    ensures Parser(ChainText(f)) == Done([], f)
  {
    var text := ChainText(f);
    var after := Question(f.opt) + ChainText(f.next);
    OptReads(f.opt, ChainText(f.next));
    SliceReads(f.range, after);
    assert ObjectIndex(text).Fail?;
  }

  lemma ChainReadsIterator(f: F.Filter)
    requires f.Iterator? && Chain(f) && Parser(ChainText(f.next)) == Done([], f.next)
    ensures Slice(ChainText(f)).Fail? && ArrayIndex(ChainText(f)).Fail? && Iterator(ChainText(f)) == Done([], f)
    ensures Parser(ChainText(f)) == Done([], f)
  {
    var text := ChainText(f);
    var after := Question(f.opt) + ChainText(f.next);
    OptReads(f.opt, ChainText(f.next));
    IteratorReads(after);
    assert ObjectIndex(text).Fail?;
  }

  /** `.key` followed by `after`: the key is read whole and the element goes on with `after`. */
  lemma ObjectIndexReads(key: Bytes, after: Bytes)
    requires key != [] && forall k :: 0 <= k < |key| ==> IsAlphabetic(key[k])
    requires after == [] || !IsAlphabetic(after[0])
    ensures ObjectIndex(['.'] + (key + after)) ==
      (var q := OptChar('?', after);
       match Parser(q.rest)
       case Fail => Fail
       case Done(rest, next) => Done(rest, F.ObjectIndex(key, q.value, next)))
  {
    DropFirst('.', key + after);
    assert Key(key + after) == Done(after, key) by {
      TakeWhileAll(IsAlphabetic, key, after);
    }
  }

  /** `[i]` followed by `after` is not a slice. */
  lemma ArrayIndexNotSlice(i: int, after: Bytes)
    requires -ISIZE_MAX <= i <= ISIZE_MAX
    ensures Slice(['['] + (IntText(i) + ([']'] + after))).Fail?
  {
    DropFirst('[', IntText(i) + ([']'] + after));
    NotBounds(i, after);
  }

  /** `[i]` followed by `after`: read as an array index. */
  lemma ArrayIndexReads(i: int, after: Bytes)
    requires -ISIZE_MAX <= i <= ISIZE_MAX
    ensures ArrayIndex(['['] + (IntText(i) + ([']'] + after))) ==
      (var q := OptChar('?', after);
       match Parser(q.rest)
       case Fail => Fail
       case Done(rest, next) => Done(rest, F.ArrayIndex(i, q.value, next)))
  {
    var tail := [']'] + after;
    var input := ['['] + (IntText(i) + tail);
    assert Char('[', input) == Done(IntText(i) + tail, '[') by {
      DropFirst('[', IntText(i) + tail);
    }
    assert Num(IntText(i) + tail) == Done(tail, i) by {
      NumReads(i, tail);
    }
    assert Char(']', tail) == Done(after, ']') by {
      DropFirst(']', after);
    }
  }

  /** A number followed by `]` is not the inside of a slice. */
  lemma NotBounds(i: int, after: Bytes)
    requires -ISIZE_MAX <= i <= ISIZE_MAX
    ensures Bounds(IntText(i) + ([']'] + after)).Fail?
  {
    var tail := [']'] + after;
    var input := IntText(i) + tail;
    assert Num(input) == Done(tail, i) by {
      NumReads(i, tail);
    }
    NumberNotUpperBound(i, tail);
    NumberNotBounds(input, i, after);
  }

  /** A number followed by `]` is neither `a:b` nor `a:`. */
  lemma NumberNotBounds(input: Bytes, i: int, after: Bytes)
    requires Num(input) == Done([']'] + after, i)
    requires UpperBound(input).Fail?
    ensures Bounds(input).Fail?
  {
    DropFirst(']', after);
  }

  /** `[bounds]` followed by `after`: read as a slice. */
  lemma SliceReads(range: Range.Range, after: Bytes)
    requires InIsize(range)
    ensures Slice(['['] + (BoundsText(range) + ([']'] + after))) ==
      (var q := OptChar('?', after);
       match Parser(q.rest)
       case Fail => Fail
       case Done(rest, next) => Done(rest, F.Slice(range, q.value, next)))
  {
    var tail := [']'] + after;
    DropFirst('[', BoundsText(range) + tail);
    DropFirst(']', after);
    assert Bounds(BoundsText(range) + tail) == Done(tail, range) by {
      BoundsReads(range, tail);
    }
  }

  /** `[]` followed by `after`: neither a slice nor an array index, and read as an iterator. */
  lemma IteratorReads(after: Bytes)
    ensures Slice(['[', ']'] + after).Fail?
    ensures ArrayIndex(['[', ']'] + after).Fail?
    ensures Iterator(['[', ']'] + after) ==
      (var q := OptChar('?', after);
       match Parser(q.rest)
       case Fail => Fail
       case Done(rest, next) => Done(rest, F.Iterator(q.value, next)))
  {
    var text := ['[', ']'] + after;
    var tail := [']'] + after;
    assert text[1..] == tail && text[..2] == "[]" && text[2..] == after;
    DropFirst(']', after);
    assert Num(tail).Fail?;
    assert Bounds(tail).Fail?;
  }

  /** Round trip: every well-formed filter is parsed back from its text. */
  lemma ParsePrint(f: F.Filter)
    requires WellFormed(f)
    ensures Parse(Print(f)) == Ok(f)
  {
    match f
    case Empty =>
    case Identity =>
      assert InitParser(".") == Done([], F.Identity) by {
        DropFirst('.', []);
        assert ObjectIndex(".").Fail?;
      }
    case ObjectIndex(_, _, _) =>
      assert InitParser(ChainText(f)) == Done([], f) by {
        ParserReadsChain(f);
      }
    case _ =>
      assert InitParser(['.'] + ChainText(f)) == Done([], f) by {
        InitParserReadsBracket(f);
      }
  }

  /** A chain that starts with a bracket is read after the leading `.`. */
  lemma InitParserReadsBracket(f: F.Filter)
    requires Chain(f) && (f.ArrayIndex? || f.Slice? || f.Iterator?)
    ensures InitParser(['.'] + ChainText(f)) == Done([], f)
  {
    BracketStart(f);
    InitParserAfterDot(ChainText(f));
    ParserReadsChain(f);
  }

  /** After `.` and `[`, only the three bracket alternatives of `init_parser` remain. */
  lemma InitParserAfterDot(text: Bytes)
    requires |text| > 1 && text[0] == '[' && text[1] != '"'
    ensures InitParser(['.'] + text) ==
      (var s := Slice(text);
       if s.Done? then s
       else
         var a := ArrayIndex(text);
         if a.Done? then a
         else
           var i := Iterator(text);
           if i.Done? then i else Fail)
  {
    var input := ['.'] + text;
    DotBracketNotObjectIndex(text);
    AfterDotDrops(text);
    assert Eof(text).Fail?;
  }

  /** `.` and then `[` with no `"` is not an object index. */
  lemma DotBracketNotObjectIndex(text: Bytes)
    requires |text| > 1 && text[0] == '[' && text[1] != '"'
    ensures ObjectIndex(['.'] + text).Fail?
  {
    DropFirst('.', text);
    assert Key(text).Fail? by {
      assert text[..2][1] == text[1];
    }
  }

  /** After a leading `.`, each bracket alternative reads the text that follows. */
  lemma AfterDotDrops(text: Bytes)
    ensures AfterDot(Slice, ['.'] + text) == Slice(text)
    ensures AfterDot(ArrayIndex, ['.'] + text) == ArrayIndex(text)
    ensures AfterDot(Iterator, ['.'] + text) == Iterator(text)
    ensures Char('.', ['.'] + text) == Done(text, '.')
  {
    DropFirst('.', text);
  }

  /** The text of a bracket element: `[` and then no `"`. */
  lemma BracketStart(f: F.Filter)
    requires Chain(f) && (f.ArrayIndex? || f.Slice? || f.Iterator?)
    ensures |ChainText(f)| > 1 && ChainText(f)[0] == '[' && ChainText(f)[1] != '"'
  {
    match f
    case ArrayIndex(i, _, _) =>
      IntTextShape(i);
    case Slice(range, _, _) =>
      if range.lower.Some? {
        IntTextShape(range.lower.value);
      }
    case Iterator(_, _) =>
  }

  /* What the grammar refuses. */

  /** `.` followed by `.` never parses (`..`, `...`). */
  lemma DoubleDotRefused(s: Bytes)
    ensures Parse(['.', '.'] + s) == Err(InvalidFormat)
  {
    var input := ['.', '.'] + s;
    var tail := ['.'] + s;
    assert input[1..] == tail && tail[0] == '.';
    assert Key(tail).Fail?;
    assert ObjectIndex(input).Fail?;
    assert Eof(tail).Fail?;
  }

  /**
   * After the first element, a bracket may not be preceded by `.` unless it
   * opens a quoted key: `.[0].[0]` and `.[].[]` are refused.
   */
  lemma DotBeforeBracketRefused(s: Bytes)
    requires s == [] || s[0] != '"'
    ensures Parser(['.', '['] + s).Fail?
  {
    var input := ['.', '['] + s;
    var tail := ['['] + s;
    assert input[1..] == tail;
    assert Key(tail).Fail? by {
      if |tail| > 1 {
        assert tail[..2][1] == s[0];
      }
    }
  }

  /** A second `?` after an element is refused: nothing in the grammar starts with `?`. */
  lemma QuestionRefused(s: Bytes)
    ensures Parser(['?'] + s).Fail?
  {
  }

  /** A slice needs at least one bound: `[:]` is refused, and so is `.[:]`. */
  lemma EmptySliceRefused(s: Bytes)
    ensures Bounds([':', ']'] + s).Fail?
    ensures Parse(['.', '[', ':', ']'] + s) == Err(InvalidFormat)
  {
    var input := [':', ']'] + s;
    EmptyBounds(input, s);
    var text := ['['] + input;
    assert ['.', '[', ':', ']'] + s == ['.'] + text;
    DropFirst('[', input);
    NotElement(text);
  }

  /** `:` and then `]`: neither bounds nor a number. */
  lemma EmptyBounds(input: Bytes, s: Bytes)
    requires input == [':', ']'] + s
    ensures Bounds(input).Fail? && Num(input).Fail?
  {
    assert input[1..] == [']'] + s;
    assert Num([']'] + s).Fail?;
  }

  /** Only one `-` may precede the digits: `--2` is refused, and so is `.[--2]`. */
  lemma DoubleMinusRefused(s: Bytes)
    ensures Num(['-', '-'] + s).Fail?
    ensures Parse(['.', '[', '-', '-'] + s) == Err(InvalidFormat)
  {
    var input := ['-', '-'] + s;
    assert Num(input).Fail? by {
      assert input[1..] == ['-'] + s;
    }
    assert Bounds(input).Fail?;
    var text := ['['] + input;
    assert ['.', '[', '-', '-'] + s == ['.'] + text;
    assert text[1..] == input;
    NotElement(text);
  }

  /**
   * A bracket whose inside `num` cannot start and that is not `[]` or `["`
   * opens no element: after `.`, the text is refused.
   */
  lemma NotElement(text: Bytes)
    requires |text| > 1 && text[0] == '[' && text[1] != '"' && text[1] != ']'
    requires Bounds(text[1..]).Fail? && Num(text[1..]).Fail?
    ensures Parse(['.'] + text) == Err(InvalidFormat)
  {
    assert Slice(text).Fail?;
    assert ArrayIndex(text).Fail?;
    assert Iterator(text).Fail? by {
      assert text[..2][1] == text[1];
    }
    InitParserAfterDot(text);
  }

  /**
   * Keys in brackets must be quoted: a letter right after `.[` is refused
   * (`.[foo]`, `.[a]`, `.[f$$]`, `.[foo"]`).
   */
  lemma BracketLetterRefused(c: Byte, s: Bytes)
    requires IsAlphabetic(c)
    ensures Parse(['.', '[', c] + s) == Err(InvalidFormat)
  {
    var text := ['[', c] + s;
    assert text[1..] == [c] + s;
    assert Num([c] + s).Fail?;
    assert Bounds([c] + s).Fail?;
    assert ['.', '[', c] + s == ['.'] + text;
    NotElement(text);
  }

  /** A bracket that is never closed is refused: `.[`. */
  lemma OpenBracketRefused()
    ensures Parse(".[") == Err(InvalidFormat)
  {
    var text: Bytes := "[";
    assert ".[" == ['.'] + text;
    DotBracketAlone();
    AfterDotDrops(text);
    assert text[1..] == [];
    assert Slice(text).Fail? && ArrayIndex(text).Fail? && Iterator(text).Fail?;
    assert Eof(text).Fail?;
  }

  /** `.[` alone is not an object index. */
  lemma DotBracketAlone()
    ensures ObjectIndex(".[").Fail?
  {
    var text: Bytes := "[";
    DropFirst('.', text);
    assert Key(text).Fail?;
  }

  /** A closing bracket opens nothing: `.]` and whatever follows it are refused. */
  lemma CloseBracketRefused(s: Bytes)
    ensures Parse(['.', ']'] + s) == Err(InvalidFormat)
  {
    var text := [']'] + s;
    assert ['.', ']'] + s == ['.'] + text;
    DropFirst('.', text);
    assert Key(text).Fail? by {
      assert |text| > 1 ==> text[..2][0] == ']';
    }
    assert ObjectIndex(['.'] + text).Fail?;
    AfterDotDrops(text);
    assert Slice(text).Fail? && ArrayIndex(text).Fail? && Iterator(text).Fail?;
    assert Eof(text).Fail?;
  }

  /**
   * A quoted key must be closed by `"]`: `.["foo]` and `.["foo` are refused.
   * The letters of `key` are all that `take_while1` reads, and what follows
   * them does not start with `"`.
   */
  lemma UnclosedQuotedKeyRefused(key: Bytes, s: Bytes)
    requires key != [] && forall k :: 0 <= k < |key| ==> IsAlphabetic(key[k])
    requires s == [] || (!IsAlphabetic(s[0]) && s[0] != '"')
    ensures Parse(['.', '[', '"'] + (key + s)) == Err(InvalidFormat)
  {
    var text := ['[', '"'] + (key + s);
    assert ['.', '[', '"'] + (key + s) == ['.'] + text;
    assert ObjectIndex(['.'] + text).Fail? by {
      DropFirst('.', text);
      UnclosedQuotedKey(key, s);
    }
    assert text[1] == '"';
    ParsedAsObjectIndex(text);
  }

  /** The key of `["key` stops at the first non-letter, which is not `"`. */
  lemma UnclosedQuotedKey(key: Bytes, s: Bytes)
    requires key != [] && forall k :: 0 <= k < |key| ==> IsAlphabetic(key[k])
    requires s == [] || (!IsAlphabetic(s[0]) && s[0] != '"')
    ensures Key(['[', '"'] + (key + s)).Fail?
  {
    var text := ['[', '"'] + (key + s);
    assert TakeWhile1(IsAlphabetic, text).Fail?;
    assert Tag("[\"", text) == Done(key + s, "[\"") by {
      assert text[..2] == "[\"" && text[2..] == key + s;
    }
    assert TakeWhile1(IsAlphabetic, key + s) == Done(s, key) by {
      TakeWhileAll(IsAlphabetic, key, s);
    }
    assert Tag("\"]", s).Fail? by {
      assert |s| >= 2 ==> s[..2][0] == s[0];
    }
  }

  /** The first byte of the bounds of a slice: a digit, `-` or `:`. */
  lemma BoundsTextShape(range: Range.Range)
    ensures BoundsText(range) != []
    ensures IsDigit(BoundsText(range)[0]) || BoundsText(range)[0] == '-' || BoundsText(range)[0] == ':'
  {
    if range.lower.Some? {
      IntTextShape(range.lower.value);
    }
  }

  /** The bounds of a slice and whatever follows are never an array index. */
  lemma BoundsNotIndex(range: Range.Range, tail: Bytes)
    requires InIsize(range)
    ensures ArrayIndex(['['] + (BoundsText(range) + tail)).Fail?
  {
    var inside := BoundsText(range) + tail;
    DropFirst('[', inside);
    match (range.lower, range.upper)
    case (Some(l), Some(u)) =>
      var after := [':'] + (IntText(u) + tail);
      Associative(IntText(l), [':'] + IntText(u), tail);
      Associative([':'], IntText(u), tail);
      NumReads(l, after);
    case (None, Some(u)) =>
      assert inside[0] == ':';
    case (Some(l), None) =>
      var after := [':'] + tail;
      Associative(IntText(l), [':'], tail);
      NumReads(l, after);
  }

  /**
   * A slice takes at most one `:`: bounds followed by a second `:` are
   * refused (`.[1::2]`, `.[:2:]`, `.[-2:4:]`, `.[:-2:4]`).
   */
  lemma SecondColonRefused(range: Range.Range, s: Bytes)
    requires InIsize(range)
    ensures Parse(['.', '['] + (BoundsText(range) + ([':'] + s))) == Err(InvalidFormat)
  {
    var tail := [':'] + s;
    var inside := BoundsText(range) + tail;
    var text := ['['] + inside;
    assert ['.', '['] + inside == ['.'] + text;
    assert text[1] != '"' && text[1] != ']' by {
      BoundsTextShape(range);
      assert text[1] == BoundsText(range)[0];
    }
    assert Slice(text).Fail? by {
      SliceStopsBefore(range, tail);
    }
    BoundsNotIndex(range, tail);
    assert Iterator(text).Fail? by {
      assert text[..2][1] == text[1];
    }
    InitParserAfterDot(text);
  }

  /** Bounds followed by anything but `]` do not close a slice. */
  lemma SliceStopsBefore(range: Range.Range, tail: Bytes)
    requires InIsize(range)
    requires tail != [] && tail[0] == ':'
    ensures Slice(['['] + (BoundsText(range) + tail)).Fail?
  {
    var inside := BoundsText(range) + tail;
    assert Char('[', ['['] + inside) == Done(inside, '[') by {
      DropFirst('[', inside);
    }
    assert Bounds(inside) == Done(tail, range) by {
      BoundsReads(range, tail);
    }
    assert Char(']', tail).Fail?;
  }

  /**
   * After a bare key, a byte that is not a letter and starts no element and
   * no `?` is refused: `.f$$`.
   */
  lemma AfterKeyRefused(key: Bytes, c: Byte, s: Bytes)
    requires key != [] && forall k :: 0 <= k < |key| ==> IsAlphabetic(key[k])
    requires !IsAlphabetic(c) && c != '.' && c != '[' && c != '?'
    ensures Parse(['.'] + (key + ([c] + s))) == Err(InvalidFormat)
  {
    var after := [c] + s;
    var text := key + after;
    DropFirst(c, s);
    assert Parser(after).Fail? by {
      assert after[..1] == [c];
    }
    ObjectIndexReads(key, after);
    AfterDotDrops(text);
    assert text[0] == key[0];
    assert Iterator(text).Fail? by {
      assert |text| > 1 ==> text[..2][0] == key[0];
    }
    assert Eof(text).Fail?;
  }

  /**
   * A key between `["` and `"]` is read as the bare key: the quoted form
   * and `.key` followed by the same text give the same element.
   */
  lemma QuotedKeyReads(key: Bytes, after: Bytes)
    requires key != [] && forall k :: 0 <= k < |key| ==> IsAlphabetic(key[k])
    ensures ObjectIndex(['.'] + (['[', '"'] + (key + (['"', ']'] + after)))) ==
      (var q := OptChar('?', after);
       match Parser(q.rest)
       case Fail => Fail
       case Done(rest, next) => Done(rest, F.ObjectIndex(key, q.value, next)))
  {
    var text := ['[', '"'] + (key + (['"', ']'] + after));
    assert Char('.', ['.'] + text) == Done(text, '.') by {
      DropFirst('.', text);
    }
    assert Key(text) == Done(after, key) by {
      QuotedKey(key, after);
    }
  }

  /** The key of `["key"]` is read up to the closing `"]`. */
  lemma QuotedKey(key: Bytes, after: Bytes)
    requires key != [] && forall k :: 0 <= k < |key| ==> IsAlphabetic(key[k])
    ensures Key(['[', '"'] + (key + (['"', ']'] + after))) == Done(after, key)
  {
    var closing := ['"', ']'] + after;
    var text := ['[', '"'] + (key + closing);
    assert TakeWhile1(IsAlphabetic, text).Fail?;
    assert Tag("[\"", text) == Done(key + closing, "[\"") by {
      assert text[..2] == "[\"" && text[2..] == key + closing;
    }
    assert TakeWhile1(IsAlphabetic, key + closing) == Done(closing, key) by {
      TakeWhileAll(IsAlphabetic, key, closing);
    }
    assert Tag("\"]", closing) == Done(after, "\"]") by {
      assert closing[..2] == "\"]" && closing[2..] == after;
    }
  }

  /**
   * `.["key"]` followed by `after` parses exactly as `.key` followed by
   * `after`, whenever `after` does not lengthen the bare key.
   */
  lemma QuotedKeyParses(key: Bytes, after: Bytes)
    requires key != [] && forall k :: 0 <= k < |key| ==> IsAlphabetic(key[k])
    requires after == [] || !IsAlphabetic(after[0])
    ensures Parse(['.'] + (['[', '"'] + (key + (['"', ']'] + after)))) == Parse(['.'] + (key + after))
  {
    var quoted := ['[', '"'] + (key + (['"', ']'] + after));
    var bare := key + after;
    QuotedKeyReads(key, after);
    ObjectIndexReads(key, after);
    assert quoted[1] == '"';
    ParsedAsObjectIndex(quoted);
    assert bare[0] == key[0];
    ParsedAsObjectIndex(bare);
  }

  /**
   * `.["key"]`, an optional `?` and a printed chain parse to the object
   * index of `key` heading that chain (`.["foo"]`, `.["foo"]?`).
   */
  lemma QuotedKeyChain(key: Bytes, opt: bool, next: F.Filter)
    requires key != [] && forall k :: 0 <= k < |key| ==> IsAlphabetic(key[k])
    requires Chain(next)
    ensures Parse(QuotedKeyText(key, Question(opt) + ChainText(next))) == Ok(F.ObjectIndex(key, opt, next))
  {
    var after := Question(opt) + ChainText(next);
    var quoted := ['[', '"'] + (key + (['"', ']'] + after));
    assert OptChar('?', after) == Done(ChainText(next), opt) by {
      OptReads(opt, ChainText(next));
    }
    assert Parser(ChainText(next)) == Done([], next) by {
      ParserReadsChain(next);
    }
    QuotedKeyReads(key, after);
    assert quoted[1] == '"';
    ParsedAsObjectIndex(quoted);
    assert QuotedKeyText(key, after) == ['.'] + quoted;
  }

  /** `.["key"]` followed by `after`. */
  function QuotedKeyText(key: Bytes, after: Bytes): Bytes
  {
    ['.'] + (['[', '"'] + (key + (['"', ']'] + after)))
  }

  /** After `.`, a letter or `["` can only start an object index. */
  lemma ParsedAsObjectIndex(text: Bytes)
    requires text != [] && (IsAlphabetic(text[0]) || (|text| > 1 && text[0] == '[' && text[1] == '"'))
    ensures Parse(['.'] + text) ==
      (var o := ObjectIndex(['.'] + text);
       if o.Done? then Ok(o.value) else Err(InvalidFormat))
  {
    AfterDotDrops(text);
    if IsAlphabetic(text[0]) {
      assert Slice(text).Fail? && ArrayIndex(text).Fail?;
      assert Iterator(text).Fail? by {
        assert |text| > 1 ==> text[..2][0] == text[0];
      }
    } else {
      assert Num(text[1..]).Fail?;
      assert Bounds(text[1..]).Fail?;
      assert Slice(text).Fail? && ArrayIndex(text).Fail?;
      assert Iterator(text).Fail? by {
        assert text[..2][1] == '"';
      }
    }
    assert Eof(text).Fail?;
  }

  /* Texts the grammar accepts, read back through the printer. */

  lemma ExampleKeys()
    ensures Parse(".foo.bar") == Ok(F.ObjectIndex("foo", false, F.ObjectIndex("bar", false, F.Identity)))
  {
    var foo: Bytes := "foo";
    var bar: Bytes := "bar";
    var g := F.ObjectIndex(bar, false, F.Identity);
    var f := F.ObjectIndex(foo, false, g);
    assert Chain(g) && ChainText(g) == ".bar";
    assert Chain(f) && Print(f) == ".foo.bar";
    ParsePrint(f);
  }

  lemma ExampleIndices()
    ensures Parse(".[5][8]?") == Ok(F.ArrayIndex(5, false, F.ArrayIndex(8, true, F.Identity)))
  {
    var f := F.ArrayIndex(5, false, F.ArrayIndex(8, true, F.Identity));
    assert IntText(5) == "5" && IntText(8) == "8";
    assert Print(f) == ".[5][8]?";
    ParsePrint(f);
  }

  lemma ExampleSlice()
    ensures Parse(".[-1:2]") == Ok(F.Slice(Range.New(-1, 2), false, F.Identity))
  {
    var f := F.Slice(Range.New(-1, 2), false, F.Identity);
    assert Print(f) == ".[-1:2]";
    ParsePrint(f);
  }
}
