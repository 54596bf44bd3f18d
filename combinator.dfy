/**
 * The parser combinators of src/combinator.rs: `optional` wraps a parsed
 * query in `Optional` when a `?` follows it, and `chain` joins a parsed
 * query to a further chain element.  The element parser `parse_chain` is
 * a parameter.
 */
module Combinator {
  import opened Wrappers
  import opened Json
  import opened Nom
  import Q = Query

  /** `optional(f)`: `f`, then at most one `?`, which wraps the query in `Optional`. */
  function Optional(f: Bytes -> PResult<Q.Query>, input: Bytes): (r: PResult<Q.Query>)
    ensures r.Fail? <==> f(input).Fail?
  {
    match f(input)
    case Fail => Fail
    case Done(rest, q) =>
      var mark := OptChar('?', rest);
      Done(mark.rest, if mark.value then Q.Optional(q) else q)
  }

  /** A `?` right after what `f` reads wraps the query and is consumed. */
  lemma OptionalMarked(f: Bytes -> PResult<Q.Query>, input: Bytes, q: Q.Query, rest: Bytes)
    requires f(input) == Done(['?'] + rest, q)
    ensures Optional(f, input) == Done(rest, Q.Optional(q))
  {
    assert (['?'] + rest)[1..] == rest;
  }

  /** Without a `?` after what `f` reads, the query and the remaining input are unchanged. */
  lemma OptionalUnmarked(f: Bytes -> PResult<Q.Query>, input: Bytes)
    requires f(input).Done? && (f(input).rest == [] || f(input).rest[0] != '?')
    ensures Optional(f, input) == f(input)
  {
  }

  /** Only one `?` is taken: a second one is left for the caller. */
  lemma OptionalTakesOneMark(f: Bytes -> PResult<Q.Query>, input: Bytes, q: Q.Query, rest: Bytes)
    requires f(input) == Done(['?', '?'] + rest, q)
    ensures Optional(f, input) == Done(['?'] + rest, Q.Optional(q))
  {
    assert (['?', '?'] + rest)[1..] == ['?'] + rest;
  }

  /** `chain(f)`: `f`, then an optional further chain element joined with `Chain`. */
  function Chain(f: Bytes -> PResult<Q.Query>, parseChain: Bytes -> PResult<Q.Query>, input: Bytes): (r: PResult<Q.Query>)
    ensures r.Fail? <==> f(input).Fail?
  {
    match f(input)
    case Fail => Fail
    case Done(rest, q) =>
      match Opt(parseChain, rest)
      case Done(after, next) => Done(after, if next.Some? then Q.Chain(q, next.value) else q)
  }

  /** When a further element follows, the result is `Chain` of the two, and both are consumed. */
  lemma ChainJoins(f: Bytes -> PResult<Q.Query>, parseChain: Bytes -> PResult<Q.Query>, input: Bytes)
    requires f(input).Done? && parseChain(f(input).rest).Done?
    ensures var next := parseChain(f(input).rest);
      Chain(f, parseChain, input) == Done(next.rest, Q.Chain(f(input).value, next.value))
  {
  }

  /** When no further element follows, the query and the remaining input are unchanged. */
  lemma ChainAlone(f: Bytes -> PResult<Q.Query>, parseChain: Bytes -> PResult<Q.Query>, input: Bytes)
    requires f(input).Done? && parseChain(f(input).rest).Fail?
    ensures Chain(f, parseChain, input) == f(input)
  {
  }

  /** A `Chain` built by the combinator behaves as its first query followed by the second. */
  lemma ChainParsedRuns(f: Bytes -> PResult<Q.Query>, parseChain: Bytes -> PResult<Q.Query>, input: Bytes, v: Value)
    requires f(input).Done? && parseChain(f(input).rest).Done?
    ensures var first, next := f(input).value, parseChain(f(input).rest).value;
      Chain(f, parseChain, input).value == Q.Chain(first, next) &&
      (!Q.Execute(first, v).Ok? ==> Q.Execute(Chain(f, parseChain, input).value, v) == Q.Execute(first, v))
  {
    Q.ChainCases(f(input).value, parseChain(f(input).rest).value, v);
  }

  /** An `Optional` built by the combinator never reports an error. */
  lemma OptionalParsedNeverErrs(f: Bytes -> PResult<Q.Query>, input: Bytes, q: Q.Query, rest: Bytes, v: Value)
    requires f(input) == Done(['?'] + rest, q)
    ensures !Q.Execute(Optional(f, input).value, v).Err?
  {
    OptionalMarked(f, input, q, rest);
    Q.OptionalCases(q, v);
  }
}
