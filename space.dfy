/**
 * src/space.rs: wrappers that let a parser skip blanks (spaces and tabs)
 * before it, after it, or on both sides.
 */
module Space {
  import opened Json
  import opened Nom

  /** `before(f)`: skip a possibly empty run of blanks, then run `f`. */
  function Before<O>(f: Bytes -> PResult<O>, input: Bytes): (r: PResult<O>)
    ensures r.Fail? <==> f(Space0(input).rest).Fail?
  {
    var Done(s, _) := Space0(input);
    f(s)
  }

  /** `after(f)`: run `f`, then skip the blanks that follow; `f`'s output is kept. */
  function After<O>(f: Bytes -> PResult<O>, input: Bytes): (r: PResult<O>)
    ensures r.Fail? <==> f(input).Fail?
    ensures r.Done? ==> r.value == f(input).value
  {
    match f(input)
    case Fail => Fail
    case Done(s, o) =>
      var Done(rest, _) := Space0(s);
      Done(rest, o)
  }

  /** `around(f)`, which is `after(before(f))`. */
  function Around<O>(f: Bytes -> PResult<O>, input: Bytes): (r: PResult<O>)
    ensures r.Fail? <==> f(Space0(input).rest).Fail?
  {
    After(i => Before(f, i), input)
  }

  predicate AllBlank(s: Bytes)
  {
    forall k :: 0 <= k < |s| ==> IsBlank(s[k])
  }

  /** Blanks in front are skipped, however many: `f` sees exactly the text after them. */
  lemma BeforeSkips<O>(f: Bytes -> PResult<O>, blanks: Bytes, rest: Bytes)
    requires AllBlank(blanks)
    requires rest == [] || !IsBlank(rest[0])
    ensures Before(f, blanks + rest) == f(rest)
  {
    TakeWhileAll(IsBlank, blanks, rest);
  }

  /** Blanks after `f`'s match are consumed, and the output is `f`'s. */
  lemma AfterSkips<O>(f: Bytes -> PResult<O>, input: Bytes, blanks: Bytes, rest: Bytes, o: O)
    requires f(input) == Done(blanks + rest, o)
    requires AllBlank(blanks)
    requires rest == [] || !IsBlank(rest[0])
    ensures After(f, input) == Done(rest, o)
  {
    TakeWhileAll(IsBlank, blanks, rest);
  }

  /** Around skips blanks on both sides of what `f` reads. */
  lemma AroundSkips<O>(f: Bytes -> PResult<O>, b1: Bytes, text: Bytes, b2: Bytes, rest: Bytes, o: O)
    requires AllBlank(b1) && AllBlank(b2)
    requires text == [] || !IsBlank(text[0])
    requires rest == [] || !IsBlank(rest[0])
    requires f(text) == Done(b2 + rest, o)
    ensures Around(f, b1 + text) == Done(rest, o)
  {
    BeforeSkips(f, b1, text);
    AfterSkips(i => Before(f, i), b1 + text, b2, rest, o);
  }
}
