/**
 * src/index.rs: the three kinds of bracket index of the node-based design,
 * what each does to a value, and the bracket parser.
 */
module Index {
  import opened Wrappers
  import opened Json
  import opened Nom
  import Range
  import Access
  import L = Lib

  /** `Index`: a string key, an `i32` position (negative counts from the end), or a slice. */
  datatype Index = String(key: Bytes) | Integer(i: int) | Slice(range: Range.Range)

  /** The name of an index kind in `QueryError::Index`. */
  function KindName(idx: Index): (name: string)
    ensures name in {"string", "number", "slice"}
  {
    match idx
    case String(_) => "string"
    case Integer(_) => "number"
    case Slice(_) => "slice"
  }

  /**
   * `Index::execute`: slices of strings and arrays, keys of objects and
   * positions of arrays; every other pairing is a type error.  A string is
   * sliced by bytes, and both slices take the corrected `Access.SliceOf`;
   * where a string bound splits a character the code as written panics
   * instead (`Access.StrSliceAsWritten`, `StringSliceSplitsCharacter`).
   */
  function Execute(idx: Index, v: Value): (r: L.Outcome)
    ensures !r.Unimplemented?
    ensures r.Ok? ==> |r.values| == 1
    ensures r.Err? ==> r.error == L.Index(L.TypeStr(v), KindName(idx))
  {
    match (v, idx)
    case (Str(s), Slice(range)) =>
      var span := Range.Normalize(range, |s|);
      L.Single(Str(Access.SliceOf(s, span.0, span.1)))
    case (Arr(elems), Slice(range)) =>
      var span := Range.Normalize(range, |elems|);
      L.Single(Arr(Access.SliceOf(elems, span.0, span.1)))
    case (Obj(fields), String(key)) => IndexObject(fields, key)
    case (Arr(elems), Integer(i)) => IndexArray(elems, i)
    case (_, String(_)) => L.Err(L.Index(L.TypeStr(v), "string"))
    case (_, Integer(_)) => L.Err(L.Index(L.TypeStr(v), "number"))
    case (_, Slice(_)) => L.Err(L.Index(L.TypeStr(v), "slice"))
  }

  /** `index_object`: the stored value, or `null` for a missing key; never an error. */
  function IndexObject(fields: seq<(Bytes, Value)>, key: Bytes): (r: L.Outcome)
    ensures r.Ok? && |r.values| == 1
    ensures (forall i :: 0 <= i < |fields| ==> fields[i].0 != key) ==> r.values == [Null]
    ensures (exists i :: 0 <= i < |fields| && fields[i].0 == key) ==>
      exists i :: 0 <= i < |fields| && fields[i] == (key, r.values[0])
  {
    match Get(fields, key)
    case Some(x) => L.Single(x)
    case None => L.Single(Null)
  }

  /**
   * `index_array`: the element at the position `i` selects, or `null` when
   * it selects none; never an error.  The position is the corrected
   * `Access.ArrayPosition` (see `ArrayPositionCounterexample`).
   */
  function IndexArray(elems: seq<Value>, i: int): (r: L.Outcome)
    ensures r.Ok? && |r.values| == 1
    ensures 0 <= i < |elems| ==> r.values == [elems[i]]
    ensures -|elems| <= i < 0 ==> r.values == [elems[|elems| + i]]
    ensures !(-|elems| <= i < |elems|) ==> r.values == [Null]
  {
    match Access.ArrayPosition(|elems|, i)
    case Some(p) => L.Single(elems[p])
    case None => L.Single(Null)
  }

  /** The pairings `execute` accepts never fail, and each gives exactly one value. */
  lemma ExecuteAccepts(idx: Index, v: Value)
    requires (v.Obj? && idx.String?) || (v.Arr? && idx.Integer?) || ((v.Str? || v.Arr?) && idx.Slice?)
    ensures Execute(idx, v).Ok? && |Execute(idx, v).values| == 1
  {
  }

  /** Every other pairing, a `null` input included, fails naming the value's type and the index kind. */
  lemma ExecuteRejects(idx: Index, v: Value)
    requires !((v.Obj? && idx.String?) || (v.Arr? && idx.Integer?) || ((v.Str? || v.Arr?) && idx.Slice?))
    ensures Execute(idx, v) == L.Err(L.Index(L.TypeStr(v), KindName(idx)))
  {
  }

  /** In a well-formed object, the key of any field selects that field's value. */
  lemma ObjectKeySelects(fields: seq<(Bytes, Value)>, i: nat)
    requires KeysSorted(fields) && i < |fields|
    ensures Execute(String(fields[i].0), Obj(fields)) == L.Single(fields[i].1)
  {
    GetStored(fields, i);
  }

  /** Slicing an array with in-bounds `i <= j` gives exactly the sub-array `a[i..j]`. */
  lemma SliceRoundTrip(elems: seq<Value>, i: nat, j: nat)
    requires i <= j <= |elems|
    ensures Execute(Slice(Range.New(i, j)), Arr(elems)) == L.Single(Arr(elems[i..j]))
  {
    Access.SliceRoundTrip(elems, i, j);
  }

  /**
   * Slicing a string works on its bytes in the same way; the code as written
   * gives the same sub-string exactly when both bounds are character
   * boundaries, and panics otherwise.
   */
  lemma StringSliceRoundTrip(s: Bytes, i: nat, j: nat)
    requires i <= j <= |s|
    ensures Execute(Slice(Range.New(i, j)), Str(s)) == L.Single(Str(s[i..j]))
    ensures Access.StrSliceAsWritten(s, i, j) == Some(s[i..j]) <==>
      Access.CharBoundary(s, i) && Access.CharBoundary(s, j)
  {
    Access.SliceRoundTrip(s, i, j);
  }

  /**
   * `.[0:1]` on `"é"`: the code as written panics, while the model gives the
   * first byte alone, which is no UTF-8 text.
   */
  lemma StringSliceSplitsCharacter()
    ensures var s: Bytes := ['\U{C3}', '\U{A9}'];
      Access.StrSliceAsWritten(s, 0, 1).None? &&
      Execute(Slice(Range.New(0, 1)), Str(s)) == L.Single(Str(['\U{C3}']))
  {
    var s: Bytes := ['\U{C3}', '\U{A9}'];
    Access.StrSliceSplitsCharacter();
    assert Access.SliceOf(s, 0, 1) == [s[0]];
  }

  /**
   * `parse`: `[`, then the first of a slice (the range parser, given as
   * `rangeParse`), an `i32` and a non-empty quoted string with no `"`
   * inside, then `]`.  The choice is final: once an alternative has
   * succeeded, a missing `]` fails the whole parse.
   */
  function Parse(rangeParse: Bytes -> PResult<Range.Range>, input: Bytes): (r: PResult<Index>)
    ensures r.Done? ==> input != [] && input[0] == '['
    ensures r.Done? && r.value.Integer? ==> I32_MIN <= r.value.i <= I32_MAX
    ensures r.Done? && r.value.String? ==> r.value.key != [] && '"' !in r.value.key
  {
    match Char('[', input)
    case Fail => Fail
    case Done(s1, _) =>
      match Content(rangeParse, s1)
      case Fail => Fail
      case Done(s2, idx) =>
        match Char(']', s2)
        case Fail => Fail
        case Done(s3, _) => Done(s3, idx)
  }

  /** The three alternatives between the brackets, in order. */
  function Content(rangeParse: Bytes -> PResult<Range.Range>, input: Bytes): (r: PResult<Index>)
    ensures rangeParse(input).Done? ==> r == Done(rangeParse(input).rest, Slice(rangeParse(input).value))
    ensures r.Done? && r.value.Integer? ==> I32_MIN <= r.value.i <= I32_MAX
    ensures r.Done? && r.value.String? ==> r.value.key != [] && '"' !in r.value.key
  {
    match rangeParse(input)
    case Done(rest, range) => Done(rest, Slice(range))
    case Fail =>
      match I32(input)
      case Done(rest, i) => Done(rest, Integer(i))
      case Fail =>
        match QuotedKey(input)
        case Done(rest, key) => Done(rest, String(key))
        case Fail => Fail
  }

  /** `delimited(char('"'), take_while1(|c| c != '"'), char('"'))`. */
  function QuotedKey(input: Bytes): (r: PResult<Bytes>)
    ensures r.Done? ==> r.value != [] && '"' !in r.value
  {
    match Char('"', input)
    case Fail => Fail
    case Done(s1, _) =>
      match TakeWhile1(NotQuote, s1)
      case Fail => Fail
      case Done(s2, key) =>
        assert forall k :: 0 <= k < |key| ==> key[k] != '"';
        match Char('"', s2)
        case Fail => Fail
        case Done(s3, _) => Done(s3, key)
  }

  /** The printed form of an integer index is read back, whenever the range parser refuses it. */
  lemma ParseInteger(rangeParse: Bytes -> PResult<Range.Range>, i: int, rest: Bytes)
    requires I32_MIN <= i <= I32_MAX
    requires rangeParse(IntText(i) + ([']'] + rest)).Fail?
    ensures Parse(rangeParse, ['['] + (IntText(i) + ([']'] + rest))) == Done(rest, Integer(i))
  {
    var content := IntText(i) + ([']'] + rest);
    assert I32(content) == Done([']'] + rest, i) by {
      I32RoundTrip(i, [']'] + rest);
    }
    IntegerSteps(rangeParse, content, i, rest);
  }

  lemma IntegerSteps(rangeParse: Bytes -> PResult<Range.Range>, content: Bytes, i: int, rest: Bytes)
    requires rangeParse(content).Fail? && I32(content) == Done([']'] + rest, i)
    ensures Parse(rangeParse, ['['] + content) == Done(rest, Integer(i))
  {
    assert (['['] + content)[1..] == content;
    assert ([']'] + rest)[1..] == rest;
  }

  /** A quoted key is read back, whenever the range parser refuses it. */
  lemma ParseKey(rangeParse: Bytes -> PResult<Range.Range>, key: Bytes, rest: Bytes)
    requires key != [] && '"' !in key
    requires rangeParse(['"'] + (key + (['"', ']'] + rest))).Fail?
    ensures Parse(rangeParse, ['['] + (['"'] + (key + (['"', ']'] + rest)))) == Done(rest, String(key))
  {
    var after := ['"', ']'] + rest;
    var quoted := ['"'] + (key + after);
    assert quoted[1..] == key + after;
    assert TakeWhile1(NotQuote, key + after) == Done(after, key) by {
      TakeWhileAll(NotQuote, key, after);
    }
    assert QuotedKey(quoted) == Done([']'] + rest, key) by {
      assert after[1..] == [']'] + rest;
    }
    assert (['['] + quoted)[1..] == quoted;
    assert ([']'] + rest)[1..] == rest;
  }

  /** Whatever the range parser reads comes first: a slice wins over an integer. */
  lemma ParseSliceFirst(rangeParse: Bytes -> PResult<Range.Range>, content: Bytes, range: Range.Range, rest: Bytes)
    requires rangeParse(content) == Done([']'] + rest, range)
    ensures Parse(rangeParse, ['['] + content) == Done(rest, Slice(range))
  {
    assert (['['] + content)[1..] == content;
    assert ([']'] + rest)[1..] == rest;
  }
}
