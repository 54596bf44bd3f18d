/**
 * src/query.rs: the first evaluator.  Every query node carries an `opt`
 * flag (set by a trailing `?`) and the query `next` to run on what it
 * selects; a chain ends in `Identity`.
 */
module LegacyQuery {
  import opened Wrappers
  import opened Json
  import Range
  import Access

  datatype QueryError =
    | IndexOutOfBounds(index: nat)
    | IndexDoesNotExist(key: Bytes)
    | MismatchingTypes(expected: string, found: string)

  type QueryResult = Result<seq<Value>, QueryError>

  /**
   * The only errors the evaluator raises: a type mismatch naming one of the
   * four expectations and the type of a value that is not `Null` (a `Null`
   * input never fails).  `IndexOutOfBounds` and `IndexDoesNotExist` are
   * declared but never raised.
   */
  predicate Raised(e: QueryError)
  {
    e.MismatchingTypes? && e.found != "Null" &&
    e.expected in {"Object", "Array", "Array or String", "Object or Array"}
  }

  datatype Query =
    | Empty
    | Identity
    | ObjectIndex(key: Bytes, opt: bool, next: Query)
    | ArrayIndex(index: int, opt: bool, next: Query)
    | Slice(range: Range.Range, opt: bool, next: Query)
    | Iterator(opt: bool, next: Query)

  /** `type_string`: the capitalised name of a value's variant. */
  function TypeString(v: Value): (r: string)
    ensures r in {"Null", "Bool", "Number", "String", "Array", "Object"}
    ensures r == "Null" <==> v.Null?
  {
    match v
    case Null => "Null"
    case Bool(_) => "Bool"
    case Num(_) => "Number"
    case Str(_) => "String"
    case Arr(_) => "Array"
    case Obj(_) => "Object"
  }

  /** `Query::execute`: a `Null` input gives `[Null]` whatever the query; otherwise dispatch. */
  function Execute(q: Query, v: Value): (r: QueryResult)
    ensures r.Err? ==> Raised(r.error)
    decreases q, 0, 0
  {
    if v.Null? then Ok([Null])
    else
      match q
      case Empty => Ok([])
      case Identity => Ok([v])
      case ObjectIndex(key, opt, next) => IndexObject(v, key, opt, next)
      case ArrayIndex(i, opt, next) => IndexArray(v, i, opt, next)
      case Slice(range, opt, next) => SliceValue(v, range, opt, next)
      case Iterator(opt, next) => Iteration(v, opt, next)
  }

  /** `object_index`. */
  function IndexObject(v: Value, key: Bytes, opt: bool, next: Query): (r: QueryResult)
    ensures r.Err? && !v.Null? ==> Raised(r.error)
    decreases next, 2, 0
  {
    if v.Obj? then
      match Get(v.fields, key)
      case Some(child) => Execute(next, child)
      case None => Ok([Null])
    else if opt then Ok([])
    else Err(MismatchingTypes("Object", TypeString(v)))
  }

  /** `array_index`, with the corrected position of a negative index. */
  function IndexArray(v: Value, i: int, opt: bool, next: Query): (r: QueryResult)
    ensures r.Err? && !v.Null? ==> Raised(r.error)
    decreases next, 2, 0
  {
    if v.Arr? then
      match Access.ArrayPosition(|v.elems|, i)
      case Some(p) => Execute(next, v.elems[p])
      case None => Ok([Null])
    else if opt then Ok([])
    else Err(MismatchingTypes("Array", TypeString(v)))
  }

  /** `slice`: the normalised sub-array or byte sub-string, handed to `next`. */
  function SliceValue(v: Value, range: Range.Range, opt: bool, next: Query): (r: QueryResult)
    ensures r.Err? && !v.Null? ==> Raised(r.error)
    decreases next, 2, 0
  {
    match v
    case Arr(elems) =>
      var span := Range.Normalize(range, |elems|);
      Execute(next, Arr(Access.SliceOf(elems, span.0, span.1)))
    case Str(s) =>
      var span := Range.Normalize(range, |s|);
      Execute(next, Str(Access.SliceOf(s, span.0, span.1)))
    case _ =>
      if opt then Ok([]) else Err(MismatchingTypes("Array or String", TypeString(v)))
  }

  /** The values `iterate` collects: array elements, or object values in key order. */
  function Children(v: Value): (r: seq<Value>)
    requires v.Arr? || v.Obj?
  {
    if v.Arr? then v.elems else Values(v.fields)
  }

  /** `iterate`: `next` on every child in order, all results concatenated. */
  function Iteration(v: Value, opt: bool, next: Query): (r: QueryResult)
    ensures r.Err? && !v.Null? ==> Raised(r.error)
    decreases next, 2, 0
  {
    if v.Arr? || v.Obj? then ExecuteEach(next, Children(v))
    else if opt then Ok([])
    else Err(MismatchingTypes("Object or Array", TypeString(v)))
  }

  /**
   * Collecting `q` over `vals` into `Result<Vec<_>, _>` and flattening: the
   * first error in order, or all results concatenated.
   */
  function ExecuteEach(q: Query, vals: seq<Value>): (r: QueryResult)
    ensures r.Err? ==> Raised(r.error)
    decreases q, 1, |vals|
  {
    if vals == [] then Ok([])
    else
      match ExecuteEach(q, vals[..|vals| - 1])
      case Err(e) => Err(e)
      case Ok(front) =>
        match Execute(q, vals[|vals| - 1])
        case Err(e) => Err(e)
        case Ok(last) => Ok(front + last)
  }

  /** The results of `q` on each of `vals`, in order, when all of them succeed. */
  function Outputs(q: Query, vals: seq<Value>): (parts: seq<seq<Value>>)
    requires forall k :: 0 <= k < |vals| ==> Execute(q, vals[k]).Ok?
    ensures |parts| == |vals|
    ensures forall k :: 0 <= k < |vals| ==> parts[k] == Execute(q, vals[k]).value
  {
    if vals == [] then []
    else Outputs(q, vals[..|vals| - 1]) + [Execute(q, vals[|vals| - 1]).value]
  }

  /** `ExecuteEach` succeeds exactly when `q` succeeds on every value. */
  lemma {:induction false} ExecuteEachOk(q: Query, vals: seq<Value>)
    ensures ExecuteEach(q, vals).Ok? <==> forall k :: 0 <= k < |vals| ==> Execute(q, vals[k]).Ok?
  {
    if vals != [] {
      var front := vals[..|vals| - 1];
      ExecuteEachOk(q, front);
      assert forall k :: 0 <= k < |front| ==> front[k] == vals[k];
    }
  }

  /** When every run succeeds, `ExecuteEach` gives their results concatenated in order. */
  lemma {:induction false} ExecuteEachValues(q: Query, vals: seq<Value>)
    requires forall k :: 0 <= k < |vals| ==> Execute(q, vals[k]).Ok?
    ensures ExecuteEach(q, vals) == Ok(Flatten(Outputs(q, vals)))
  {
    if vals != [] {
      var front := vals[..|vals| - 1];
      assert forall k :: 0 <= k < |front| ==> front[k] == vals[k];
      ExecuteEachValues(q, front);
      FlattenSnoc(Outputs(q, front), Execute(q, vals[|vals| - 1]).value);
    }
  }

  /** When `q` fails on some value, `ExecuteEach` fails with the error of the first such value. */
  lemma {:induction false} ExecuteEachFirstError(q: Query, vals: seq<Value>, k: nat)
    requires k < |vals| && Execute(q, vals[k]).Err?
    requires forall j :: 0 <= j < k ==> Execute(q, vals[j]).Ok?
    ensures ExecuteEach(q, vals) == Err(Execute(q, vals[k]).error)
  {
    var front := vals[..|vals| - 1];
    if k < |vals| - 1 {
      ExecuteEachFirstError(q, front, k);
    } else {
      ExecuteEachOk(q, front);
    }
  }

  /** One more value: its result is appended, unless the prefix or it fails. */
  lemma ExecuteEachStep(q: Query, vals: seq<Value>, k: nat)
    requires k < |vals|
    ensures ExecuteEach(q, vals[..k + 1]) ==
      (match ExecuteEach(q, vals[..k])
       case Err(e) => Err(e)
       case Ok(front) =>
         match Execute(q, vals[k])
         case Err(e) => Err(e)
         case Ok(last) => Ok(front + last))
  {
    assert vals[..k + 1][..k] == vals[..k];
  }

  /** An error in a prefix is the error of the whole. */
  lemma {:induction false} ExecuteEachPrefixErr(q: Query, vals: seq<Value>, n: nat)
    requires n <= |vals| && ExecuteEach(q, vals[..n]).Err?
    ensures ExecuteEach(q, vals) == ExecuteEach(q, vals[..n])
    decreases |vals| - n
  {
    if n < |vals| {
      var front := vals[..|vals| - 1];
      assert front[..n] == vals[..n];
      ExecuteEachPrefixErr(q, front, n);
    } else {
      assert vals[..n] == vals;
    }
  }

  /** The first half of `iterate`: push every array element, or every object value in key order. */
  method CollectChildren(v: Value) returns (vec: seq<Value>)
    requires v.Arr? || v.Obj?
    ensures vec == Children(v)
  {
    vec := [];
    if v.Obj? {
      var fields := v.fields;
      for k := 0 to |fields|
        invariant vec == Values(fields[..k])
      {
        assert fields[..k + 1][..k] == fields[..k];
        vec := vec + [fields[k].1];
      }
      assert fields[..|fields|] == fields;
    } else {
      var elems := v.elems;
      for k := 0 to |elems|
        invariant vec == elems[..k]
      {
        vec := vec + [elems[k]];
      }
      assert elems[..|elems|] == elems;
    }
  }

  /**
   * `iterate` as the program runs it: push every child into a vector, then
   * run `next` on each in turn, stopping at the first error.
   */
  method Iterate(v: Value, opt: bool, next: Query) returns (r: QueryResult)
    ensures r == Iteration(v, opt, next)
  {
    if !(v.Arr? || v.Obj?) {
      if !opt {
        return Err(MismatchingTypes("Object or Array", TypeString(v)));
      }
      return Ok([]);
    }
    var vec := CollectChildren(v);
    var out: seq<Value> := [];
    for k := 0 to |vec|
      invariant ExecuteEach(next, vec[..k]) == Ok(out)
    {
      ExecuteEachStep(next, vec, k);
      var res := Execute(next, vec[k]);
      if res.Err? {
        ExecuteEachPrefixErr(next, vec, k + 1);
        return Err(res.error);
      }
      out := out + res.value;
    }
    assert vec[..|vec|] == vec;
    return Ok(out);
  }

  /** A `Null` input gives `[Null]` for every query, `Empty` included. */
  lemma NullAbsorbs(q: Query)
    ensures Execute(q, Null) == Ok([Null])
  {
  }

  /** On a non-null input `Empty` gives nothing and `Identity` gives the input. */
  lemma EmptyAndIdentity(v: Value)
    requires !v.Null?
    ensures Execute(Empty, v) == Ok([])
    ensures Execute(Identity, v) == Ok([v])
  {
  }

  /**
   * An object index runs `next` on the value under a present key, gives
   * `[Null]` for an absent key, and on a non-object gives nothing when
   * optional and a type mismatch otherwise.
   */
  lemma ObjectIndexCases(key: Bytes, opt: bool, next: Query, v: Value)
    requires !v.Null?
    ensures v.Obj? && KeysSorted(v.fields) ==> forall k :: 0 <= k < |v.fields| && v.fields[k].0 == key ==>
      Execute(ObjectIndex(key, opt, next), v) == Execute(next, v.fields[k].1)
    ensures v.Obj? && (forall k :: 0 <= k < |v.fields| ==> v.fields[k].0 != key) ==>
      Execute(ObjectIndex(key, opt, next), v) == Ok([Null])
    ensures !v.Obj? ==> (Execute(ObjectIndex(key, opt, next), v) ==
      if opt then Ok([]) else Err(MismatchingTypes("Object", TypeString(v))))
  {
    if v.Obj? && KeysSorted(v.fields) {
      forall k | 0 <= k < |v.fields| && v.fields[k].0 == key
        ensures Execute(ObjectIndex(key, opt, next), v) == Execute(next, v.fields[k].1)
      {
        GetStored(v.fields, k);
      }
    }
  }

  /**
   * An array index `i` over `n` elements runs `next` on element `i` or
   * `n + i`, gives `[Null]` when out of range, and on a non-array gives
   * nothing when optional and a type mismatch otherwise.
   */
  lemma ArrayIndexCases(i: int, opt: bool, next: Query, v: Value)
    requires !v.Null?
    ensures v.Arr? && 0 <= i < |v.elems| ==> Execute(ArrayIndex(i, opt, next), v) == Execute(next, v.elems[i])
    ensures v.Arr? && i < 0 && -i <= |v.elems| ==>
      Execute(ArrayIndex(i, opt, next), v) == Execute(next, v.elems[|v.elems| + i])
    ensures v.Arr? && (i >= |v.elems| || -i > |v.elems|) ==> Execute(ArrayIndex(i, opt, next), v) == Ok([Null])
    ensures !v.Arr? ==> (Execute(ArrayIndex(i, opt, next), v) ==
      if opt then Ok([]) else Err(MismatchingTypes("Array", TypeString(v))))
  {
  }

  /**
   * The iterator runs `next` on every element, or on every object value in
   * key order: it fails when some run fails and otherwise concatenates; on a
   * scalar it gives nothing when optional and a type mismatch otherwise.
   */
  lemma IteratorCases(opt: bool, next: Query, v: Value)
    requires !v.Null?
    ensures v.Arr? || v.Obj? ==>
      var vals := if v.Arr? then v.elems else Values(v.fields);
      (Execute(Iterator(opt, next), v).Ok? <==> forall k :: 0 <= k < |vals| ==> Execute(next, vals[k]).Ok?) &&
      (Execute(Iterator(opt, next), v).Ok? ==> Execute(Iterator(opt, next), v).value == Flatten(Outputs(next, vals)))
    ensures !v.Arr? && !v.Obj? ==> (Execute(Iterator(opt, next), v) ==
      if opt then Ok([]) else Err(MismatchingTypes("Object or Array", TypeString(v))))
  {
    if v.Arr? || v.Obj? {
      ExecuteEachOk(next, Children(v));
      if ExecuteEach(next, Children(v)).Ok? {
        ExecuteEachValues(next, Children(v));
      }
    }
  }

  /**
   * A slice runs `next` on the sub-array, or byte sub-string, between the
   * normalised bounds (empty when they cross); other inputs give nothing when
   * optional and a type mismatch otherwise.
   */
  lemma SliceCases(range: Range.Range, opt: bool, next: Query, v: Value)
    requires !v.Null?
    ensures v.Arr? ==> var span := Range.Normalize(range, |v.elems|);
      Execute(Slice(range, opt, next), v) ==
        Execute(next, Arr(if span.0 < span.1 then v.elems[span.0..span.1] else []))
    ensures v.Str? ==> var span := Range.Normalize(range, |v.s|);
      Execute(Slice(range, opt, next), v) ==
        Execute(next, Str(if span.0 < span.1 then v.s[span.0..span.1] else []))
    ensures !v.Arr? && !v.Str? ==> (Execute(Slice(range, opt, next), v) ==
      if opt then Ok([]) else Err(MismatchingTypes("Array or String", TypeString(v))))
  {
  }

  /** `.[-2]` on `[1,2,3]`, from the unit tests in src/query.rs. */
  lemma ExampleNegativeIndex()
    ensures Execute(ArrayIndex(-2, false, Identity), Arr([Num(1), Num(2), Num(3)])) == Ok([Num(2)])
  {
  }

  /** `.[2:4]` and `.[-2:]` on `["a","b","c","d","e"]`, and `.[2:4]` on a string. */
  lemma ExampleSlices()
    ensures Execute(Slice(Range.New(2, 4), false, Identity),
      Arr([Str("a"), Str("b"), Str("c"), Str("d"), Str("e")])) == Ok([Arr([Str("c"), Str("d")])])
    ensures Execute(Slice(Range.Lower(-2), false, Identity),
      Arr([Str("a"), Str("b"), Str("c"), Str("d"), Str("e")])) == Ok([Arr([Str("d"), Str("e")])])
    ensures Execute(Slice(Range.New(2, 4), false, Identity), Str("abcdefghi")) == Ok([Str("cd")])
  {
    var letters := [Str("a"), Str("b"), Str("c"), Str("d"), Str("e")];
    assert letters[2..4] == [Str("c"), Str("d")];
    assert letters[3..5] == [Str("d"), Str("e")];
    assert Str("abcdefghi").s[2..4] == "cd";
  }

  /** `.foo` and `.foo?` on objects with and without the key. */
  lemma ExampleKeys()
    ensures Execute(ObjectIndex("foo", false, Identity), Obj([("bar", Str("x")), ("foo", Num(42))])) == Ok([Num(42)])
    ensures Execute(ObjectIndex("foo", true, Identity), Obj([("alsonotfoo", Bool(false)), ("notfoo", Bool(true))])) == Ok([Null])
  {
  }
}
