/**
 * The query tree of the node-based evaluator and its evaluation: the
 * sequence combinators of src/combinator.rs (`Split`, `Chain`,
 * `Optional`), the array constructor of src/construction.rs, `Index`,
 * `Raw` and the binary operators of src/operators.rs.
 *
 * The `Query` enum, its dispatching `execute`, `iterate_results` and
 * `iterate_values` are not part of this model's sources; they are defined
 * here from their uses, with the assumptions stated where they are made.
 */
module Query {
  import opened Json
  import L = Lib
  import I = Index
  import R = Raw
  import Ops = Operators
  import Range
  import Access

  datatype Query =
    | Identity
    | Index(index: I.Index)
    | Split(left: Query, right: Query)
    | Chain(first: Query, second: Query)
    | Optional(inner: Query)
    | Construct(construct: Construct)
    | Op(left: Query, sign: Ops.Sign, right: Query)
    | Raw(raw: R.Raw)

  /** src/construction.rs: `Construct::Array`. */
  datatype Construct = Array(inner: Query)

  /** The first of two outcomes that is not `Ok`, otherwise their values concatenated. */
  function Concat(o1: L.Outcome, o2: L.Outcome): (r: L.Outcome)
    ensures !r.Ok? ==> r == o1 || r == o2
  {
    match o1
    case Ok(front) =>
      (match o2
       case Ok(last) => L.Ok(front + last)
       case _ => o2)
    case _ => o1
  }

  predicate AllOk(results: seq<L.Outcome>)
  {
    forall k :: 0 <= k < |results| ==> results[k].Ok?
  }

  /**
   * `iterate_results`: the first outcome that is not `Ok`, in order,
   * otherwise the values of all of them concatenated in order.
   */
  function IterateResults(results: seq<L.Outcome>): (o: L.Outcome)
    ensures o.Ok? <==> AllOk(results)
    ensures !o.Ok? ==> o in results
  {
    if results == [] then L.Ok([])
    else Concat(IterateResults(results[..|results| - 1]), results[|results| - 1])
  }

  /**
   * The failures evaluation can report: only `QueryError::Index`, naming an
   * index kind and the type of a value that is not `null` (an `Index` on
   * `null` gives `null` before it looks at the index).
   */
  predicate Reportable(o: L.Outcome)
  {
    o.Err? ==> o.error.Index? && o.error.found != "null" && o.error.expected in {"string", "number", "slice"}
  }

  /**
   * `Query::execute`.  An `Index` on `null` gives `null` before the index
   * is consulted; no other variant looks at `null` specially.
   */
  function Execute(q: Query, v: Value): (r: L.Outcome)
    ensures Reportable(r)
    decreases q, 0
  {
    match q
    case Identity => L.Single(v)
    case Index(idx) => if v.Null? then L.Single(Null) else I.Execute(idx, v)
    case Split(left, right) =>
      // both sides are evaluated before their results are combined
      var l := Execute(left, v);
      var r := Execute(right, v);
      if l.Unimplemented? || r.Unimplemented? then L.Unimplemented
      else IterateResults([l, r])
    case Chain(first, second) => Bind(Execute(first, v), second)
    case Optional(inner) =>
      (match Execute(inner, v)
       case Err(_) => L.Ok([])
       case other => other)
    case Construct(Array(inner)) =>
      (match Execute(inner, v)
       case Ok(values) => L.Single(Arr(values))
       case other => other)
    case Op(left, sign, right) =>
      (match Execute(left, v)
       case Ok(ls) =>
         (match Execute(right, v)
          case Ok(rs) => IterateResults(Ops.Broadcast(sign, ls, rs))
          case other => other)
       case other => other)
    case Raw(raw) => R.Execute(raw, v)
  }

  /** `?` on a query's outcome: run `q` on each of its values, or pass a failure on. */
  function Bind(o: L.Outcome, q: Query): (r: L.Outcome)
    ensures Reportable(o) ==> Reportable(r)
    decreases q, 2
  {
    match o
    case Ok(values) => ExecuteEach(q, values)
    case other => other
  }

  /**
   * `iterate_values`: `q` on each value in order, stopping at the first
   * outcome that is not `Ok`, otherwise all results concatenated.
   */
  function ExecuteEach(q: Query, vals: seq<Value>): (r: L.Outcome)
    ensures Reportable(r)
    decreases q, 1, |vals|
  {
    if vals == [] then L.Ok([])
    else Concat(ExecuteEach(q, vals[..|vals| - 1]), Execute(q, vals[|vals| - 1]))
  }

  /** The values of outcomes that all succeeded. */
  function Payloads(results: seq<L.Outcome>): (parts: seq<seq<Value>>)
    requires AllOk(results)
    ensures |parts| == |results|
    ensures forall k :: 0 <= k < |results| ==> parts[k] == results[k].values
  {
    if results == [] then []
    else Payloads(results[..|results| - 1]) + [results[|results| - 1].values]
  }

  /** When all outcomes succeed, `iterate_results` concatenates their values in order. */
  lemma {:induction false} IterateResultsValues(results: seq<L.Outcome>)
    requires AllOk(results)
    ensures IterateResults(results) == L.Ok(Flatten(Payloads(results)))
  {
    if results != [] {
      var front := results[..|results| - 1];
      assert AllOk(front) by {
        assert forall k :: 0 <= k < |front| ==> front[k] == results[k];
      }
      IterateResultsValues(front);
      FlattenSnoc(Payloads(front), results[|results| - 1].values);
    }
  }

  /** The first outcome that is not `Ok` is the outcome of `iterate_results`. */
  lemma {:induction false} IterateResultsFirstFailure(results: seq<L.Outcome>, k: nat)
    requires k < |results| && !results[k].Ok? && AllOk(results[..k])
    ensures IterateResults(results) == results[k]
  {
    var front := results[..|results| - 1];
    if k == |results| - 1 {
      assert front == results[..k];
    } else {
      assert front[..k] == results[..k];
      IterateResultsFirstFailure(front, k);
    }
  }

  /** A failing prefix decides `iterate_results` for every extension. */
  lemma {:induction false} IterateResultsPrefix(prefix: seq<L.Outcome>, results: seq<L.Outcome>)
    requires prefix <= results && !IterateResults(prefix).Ok?
    ensures IterateResults(results) == IterateResults(prefix)
    decreases |results|
  {
    if |results| > |prefix| {
      var front := results[..|results| - 1];
      assert prefix <= front;
      IterateResultsPrefix(prefix, front);
    } else {
      assert prefix == results;
    }
  }

  /** What `Execute` gives on an `Op`, one step at a time. */
  lemma OpSteps(left: Query, sign: Ops.Sign, right: Query, v: Value)
    ensures var lo, ro := Execute(left, v), Execute(right, v);
      Execute(Op(left, sign, right), v) ==
        if !lo.Ok? then lo
        else if !ro.Ok? then ro
        else IterateResults(Ops.Broadcast(sign, lo.values, ro.values))
  {
  }

  /**
   * `Op::execute`: both operands on the same input, each failure passed on,
   * then every pair of their results.
   */
  method ExecuteOp(left: Query, sign: Ops.Sign, right: Query, v: Value) returns (r: L.Outcome)
    ensures r == Execute(Op(left, sign, right), v)
  {
    OpSteps(left, sign, right, v);
    var lo := Execute(left, v);
    if !lo.Ok? {
      return lo;
    }
    var ro := Execute(right, v);
    if !ro.Ok? {
      return ro;
    }
    r := ApplyAll(sign, lo.values, ro.values);
  }

  /**
   * The loops of `Op::execute`: every pair of results in cartesian order,
   * left results outermost.  Reaching a pair whose operation is a
   * `todo!()` stops the evaluation there.
   */
  method ApplyAll(sign: Ops.Sign, ls: seq<Value>, rs: seq<Value>) returns (r: L.Outcome)
    ensures r == IterateResults(Ops.Broadcast(sign, ls, rs))
  {
    var results: seq<L.Outcome> := [];
    for i := 0 to |ls|
      invariant results == Ops.Broadcast(sign, ls[..i], rs)
      invariant AllOk(results)
    {
      for j := 0 to |rs|
        invariant results == Ops.Broadcast(sign, ls[..i], rs) + Ops.Row(sign, ls[i], rs[..j])
        invariant AllOk(results)
      {
        var o := Ops.Apply(sign, ls[i], rs[j]);
        if o.Unimplemented? {
          StopsAt(sign, ls, rs, i, j, results);
          return o;
        }
        PairStep(sign, ls, rs, i, j, results);
        results := results + [o];
      }
      RowStep(sign, ls, rs, i, results);
    }
    assert ls[..|ls|] == ls;
    return IterateResults(results);
  }

  /** One more successful pair keeps the invariant of the inner loop. */
  lemma PairStep(sign: Ops.Sign, ls: seq<Value>, rs: seq<Value>, i: nat, j: nat, done: seq<L.Outcome>)
    requires i < |ls| && j < |rs| && Ops.Apply(sign, ls[i], rs[j]).Ok?
    requires done == Ops.Broadcast(sign, ls[..i], rs) + Ops.Row(sign, ls[i], rs[..j]) && AllOk(done)
    ensures done + [Ops.Apply(sign, ls[i], rs[j])] == Ops.Broadcast(sign, ls[..i], rs) + Ops.Row(sign, ls[i], rs[..j + 1])
    ensures AllOk(done + [Ops.Apply(sign, ls[i], rs[j])])
  {
    Ops.RowStep(sign, ls[i], rs, j);
  }

  /** A finished row keeps the invariant of the outer loop. */
  lemma RowStep(sign: Ops.Sign, ls: seq<Value>, rs: seq<Value>, i: nat, done: seq<L.Outcome>)
    requires i < |ls|
    requires done == Ops.Broadcast(sign, ls[..i], rs) + Ops.Row(sign, ls[i], rs[..|rs|])
    ensures done == Ops.Broadcast(sign, ls[..i + 1], rs)
  {
    assert rs[..|rs|] == rs;
    Ops.BroadcastStep(sign, ls, rs, i);
  }

  /** An unimplemented pair reached with only successes before it is the outcome of the broadcast. */
  lemma StopsAt(sign: Ops.Sign, ls: seq<Value>, rs: seq<Value>, i: nat, j: nat, done: seq<L.Outcome>)
    requires i < |ls| && j < |rs|
    requires done == Ops.Broadcast(sign, ls[..i], rs) + Ops.Row(sign, ls[i], rs[..j]) && AllOk(done)
    requires !Ops.Apply(sign, ls[i], rs[j]).Ok?
    ensures IterateResults(Ops.Broadcast(sign, ls, rs)) == Ops.Apply(sign, ls[i], rs[j])
  {
    var x := Ops.Apply(sign, ls[i], rs[j]);
    var prefix := done + [x];
    assert prefix == Ops.Broadcast(sign, ls[..i], rs) + Ops.Row(sign, ls[i], rs[..j + 1]) by {
      Ops.RowStep(sign, ls[i], rs, j);
    }
    Ops.PrefixAt(sign, ls, rs, i, j);
    assert prefix[..|done|] == done && prefix[|done|] == x;
    IterateResultsFirstFailure(prefix, |done|);
    IterateResultsPrefix(prefix, Ops.Broadcast(sign, ls, rs));
  }

  /** When every outcome is a single value, `iterate_results` lists those values in order. */
  lemma {:induction false} IterateSingles(results: seq<L.Outcome>)
    requires forall k :: 0 <= k < |results| ==> results[k].Ok? && |results[k].values| == 1
    ensures IterateResults(results).Ok?
    ensures |IterateResults(results).values| == |results|
    ensures forall k :: 0 <= k < |results| ==> IterateResults(results).values[k] == results[k].values[0]
  {
    if results != [] {
      var front := results[..|results| - 1];
      assert forall k :: 0 <= k < |front| ==> front[k] == results[k];
      IterateSingles(front);
    }
  }

  /** An `Index` on `null` gives `null`; otherwise one value, or an error naming both types. */
  lemma IndexCases(idx: I.Index, v: Value)
    ensures v.Null? ==> Execute(Index(idx), v) == L.Ok([Null])
    ensures !Execute(Index(idx), v).Unimplemented?
    ensures Execute(Index(idx), v).Ok? ==> |Execute(Index(idx), v).values| == 1
    ensures Execute(Index(idx), v).Err? ==>
      !v.Null? && Execute(Index(idx), v).error == L.Index(L.TypeStr(v), I.KindName(idx))
  {
    if v.Null? {
    } else if (v.Obj? && idx.String?) || (v.Arr? && idx.Integer?) || ((v.Str? || v.Arr?) && idx.Slice?) {
      I.ExecuteAccepts(idx, v);
    } else {
      I.ExecuteRejects(idx, v);
    }
  }

  /** The outcomes of `q` on each of `vals`, in order. */
  function Runs(q: Query, vals: seq<Value>): (runs: seq<L.Outcome>)
    ensures |runs| == |vals|
    ensures forall k :: 0 <= k < |vals| ==> runs[k] == Execute(q, vals[k])
  {
    if vals == [] then []
    else Runs(q, vals[..|vals| - 1]) + [Execute(q, vals[|vals| - 1])]
  }

  /** `iterate_values` gives what `iterate_results` gives on the outcomes of every value. */
  lemma {:induction false} EachIterates(q: Query, vals: seq<Value>)
    ensures ExecuteEach(q, vals) == IterateResults(Runs(q, vals))
  {
    if vals != [] {
      var front := vals[..|vals| - 1];
      var runs := Runs(q, vals);
      assert runs[..|runs| - 1] == Runs(q, front);
      EachIterates(q, front);
    }
  }

  /** `iterate_values` succeeds exactly when `q` succeeds on every value. */
  lemma EachOk(q: Query, vals: seq<Value>)
    ensures ExecuteEach(q, vals).Ok? <==> forall k :: 0 <= k < |vals| ==> Execute(q, vals[k]).Ok?
  {
    EachIterates(q, vals);
    assert AllOk(Runs(q, vals)) <==> forall k :: 0 <= k < |vals| ==> Execute(q, vals[k]).Ok?;
  }

  /** When `q` succeeds on every value, `iterate_values` concatenates its results in order. */
  lemma EachValues(q: Query, vals: seq<Value>)
    requires forall k :: 0 <= k < |vals| ==> Execute(q, vals[k]).Ok?
    ensures AllOk(Runs(q, vals)) && ExecuteEach(q, vals) == L.Ok(Flatten(Payloads(Runs(q, vals))))
  {
    EachIterates(q, vals);
    IterateResultsValues(Runs(q, vals));
  }

  /** The first value on which `q` does not succeed decides `iterate_values`. */
  lemma EachFirstFailure(q: Query, vals: seq<Value>, k: nat)
    requires k < |vals| && !Execute(q, vals[k]).Ok?
    requires forall m :: 0 <= m < k ==> Execute(q, vals[m]).Ok?
    ensures ExecuteEach(q, vals) == Execute(q, vals[k])
  {
    var runs := Runs(q, vals);
    EachIterates(q, vals);
    assert AllOk(runs[..k]);
    IterateResultsFirstFailure(runs, k);
  }

  /** `Identity` on each value gives the values back. */
  lemma {:induction false} EachIdentity(vals: seq<Value>)
    ensures ExecuteEach(Identity, vals) == L.Ok(vals)
  {
    if vals != [] {
      assert vals[..|vals| - 1] + [vals[|vals| - 1]] == vals;
      EachIdentity(vals[..|vals| - 1]);
    }
  }

  /** `Identity` is a unit of `Chain` on either side. */
  lemma ChainIdentity(q: Query, v: Value)
    ensures Execute(Chain(Identity, q), v) == Execute(q, v)
    ensures Execute(Chain(q, Identity), v) == Execute(q, v)
  {
    assert [v][..0] == [];
    assert Execute(Chain(Identity, q), v) == ExecuteEach(q, [v]);
    assert ExecuteEach(q, [v]) == Concat(L.Ok([]), Execute(q, v));
    if Execute(q, v).Ok? {
      var w := Execute(q, v).values;
      EachIdentity(w);
      assert [] + w == w;
    }
  }

  /**
   * `Split`: both branches run on the same input; it succeeds when both do,
   * with the left results first; otherwise the left failure comes first.
   */
  lemma SplitCases(a: Query, b: Query, v: Value)
    ensures Execute(Split(a, b), v).Ok? <==> Execute(a, v).Ok? && Execute(b, v).Ok?
    ensures Execute(Split(a, b), v).Ok? ==>
      Execute(Split(a, b), v).values == Execute(a, v).values + Execute(b, v).values
    ensures Execute(a, v).Unimplemented? || Execute(b, v).Unimplemented? ==>
      Execute(Split(a, b), v) == L.Unimplemented
    ensures Execute(a, v).Err? && !Execute(b, v).Unimplemented? ==> Execute(Split(a, b), v) == Execute(a, v)
    ensures Execute(a, v).Ok? && Execute(b, v).Err? ==> Execute(Split(a, b), v) == Execute(b, v)
  {
    var l, r := Execute(a, v), Execute(b, v);
    assert Execute(Split(a, b), v) == if l.Unimplemented? || r.Unimplemented? then L.Unimplemented else IterateResults([l, r]);
    IterateResultsPair(l, r);
  }

  /** `iterate_results` over two outcomes. */
  lemma IterateResultsPair(l: L.Outcome, r: L.Outcome)
    ensures IterateResults([l, r]) == Concat(l, r)
  {
    assert [l, r][..1] == [l];
    assert [l][..0] == [];
    assert IterateResults([l]) == Concat(L.Ok([]), l);
    if l.Ok? {
      assert [] + l.values == l.values;
    }
  }

  /** `Chain` is its first query's outcome bound to the second query. */
  lemma ChainStep(a: Query, b: Query, v: Value)
    ensures Execute(Chain(a, b), v) == Bind(Execute(a, v), b)
  {
  }

  /**
   * `Chain`: a failure of the first query is the outcome and the second
   * query is not run; otherwise the second query runs on each result.
   */
  lemma ChainCases(a: Query, b: Query, v: Value)
    ensures !Execute(a, v).Ok? ==> Execute(Chain(a, b), v) == Execute(a, v)
    ensures Execute(a, v) == L.Ok([]) ==> Execute(Chain(a, b), v) == L.Ok([])
    ensures Execute(a, v).Ok? ==> Execute(Chain(a, b), v) == ExecuteEach(b, Execute(a, v).values)
  {
    assert Execute(Chain(a, b), v) == Bind(Execute(a, v), b);
    assert ExecuteEach(b, []) == L.Ok([]);
  }

  /** When the second query succeeds on every result of the first, `Chain` concatenates in order. */
  lemma ChainValues(a: Query, b: Query, v: Value, vals: seq<Value>)
    requires Execute(a, v) == L.Ok(vals)
    requires forall k :: 0 <= k < |vals| ==> Execute(b, vals[k]).Ok?
    ensures AllOk(Runs(b, vals)) && Execute(Chain(a, b), v) == L.Ok(Flatten(Payloads(Runs(b, vals))))
  {
    ChainStep(a, b, v);
    EachValues(b, vals);
  }

  /** The first result of `a` on which `b` does not succeed decides `Chain`. */
  lemma ChainFirstFailure(a: Query, b: Query, v: Value, vals: seq<Value>, k: nat)
    requires Execute(a, v) == L.Ok(vals)
    requires k < |vals| && !Execute(b, vals[k]).Ok?
    requires forall m :: 0 <= m < k ==> Execute(b, vals[m]).Ok?
    ensures Execute(Chain(a, b), v) == Execute(b, vals[k])
  {
    ChainStep(a, b, v);
    EachFirstFailure(b, vals, k);
  }

  /** `Optional`: successes and unimplemented operations pass through, errors become no results. */
  lemma OptionalCases(q: Query, v: Value)
    ensures !Execute(Optional(q), v).Err?
    ensures Execute(q, v).Err? ==> Execute(Optional(q), v) == L.Ok([])
    ensures !Execute(q, v).Err? ==> Execute(Optional(q), v) == Execute(q, v)
  {
  }

  /** `construct_array`: one array holding the inner results in order; failures propagate. */
  lemma ConstructCases(q: Query, v: Value)
    ensures Execute(Construct(Array(q)), v).Ok? <==> Execute(q, v).Ok?
    ensures Execute(q, v).Ok? ==> Execute(Construct(Array(q)), v).values == [Arr(Execute(q, v).values)]
    ensures Execute(q, v) == L.Ok([]) ==> Execute(Construct(Array(q)), v) == L.Ok([Arr([])])
    ensures !Execute(q, v).Ok? ==> Execute(Construct(Array(q)), v) == Execute(q, v)
  {
  }

  /** When no outcome is an error, neither is the outcome of `iterate_results`. */
  lemma {:induction false} IterateResultsNoErr(results: seq<L.Outcome>)
    requires forall k :: 0 <= k < |results| ==> !results[k].Err?
    ensures !IterateResults(results).Err?
  {
    if results != [] {
      var front := results[..|results| - 1];
      assert forall k :: 0 <= k < |front| ==> front[k] == results[k];
      IterateResultsNoErr(front);
    }
  }

  /** An operator passes on the failure of its left operand, then that of its right operand. */
  lemma OpPropagates(left: Query, sign: Ops.Sign, right: Query, v: Value)
    ensures !Execute(left, v).Ok? ==> Execute(Op(left, sign, right), v) == Execute(left, v)
    ensures Execute(left, v).Ok? && !Execute(right, v).Ok? ==> Execute(Op(left, sign, right), v) == Execute(right, v)
    ensures Execute(left, v).Ok? && Execute(right, v).Ok? ==> !Execute(Op(left, sign, right), v).Err?
  {
    OpSteps(left, sign, right, v);
    if Execute(left, v).Ok? && Execute(right, v).Ok? {
      var ls, rs := Execute(left, v).values, Execute(right, v).values;
      Ops.BroadcastShape(sign, ls, rs);
      IterateResultsNoErr(Ops.Broadcast(sign, ls, rs));
    }
  }

  /** `iterate_results` over two consecutive runs of outcomes. */
  lemma {:induction false} IterateResultsAppend(a: seq<L.Outcome>, b: seq<L.Outcome>)
    ensures IterateResults(a + b) == Concat(IterateResults(a), IterateResults(b))
  {
    if b == [] {
      assert a + b == a;
      if IterateResults(a).Ok? {
        assert IterateResults(a).values + [] == IterateResults(a).values;
      }
    } else {
      var front, last := b[..|b| - 1], b[|b| - 1];
      assert a + b == (a + front) + [last];
      IterateResultsSnoc(a + front, last);
      IterateResultsAppend(a, front);
      IterateResultsSnoc(front, last);
      if IterateResults(a).Ok? && IterateResults(front).Ok? && last.Ok? {
        var x, y, z := IterateResults(a).values, IterateResults(front).values, last.values;
        assert (x + y) + z == x + (y + z);
      }
    }
  }

  /** When a row succeeds throughout, `iterate_results` gives its values. */
  lemma {:induction false} RowValues(sign: Ops.Sign, l: Value, rs: seq<Value>)
    requires AllOk(Ops.Row(sign, l, rs))
    ensures IterateResults(Ops.Row(sign, l, rs)) == L.Ok(Ops.RowSums(l, rs))
  {
    if rs != [] {
      var front, last := rs[..|rs| - 1], rs[|rs| - 1];
      assert AllOk(Ops.Row(sign, l, front)) by {
        assert Ops.Row(sign, l, rs) == Ops.Row(sign, l, front) + [Ops.Apply(sign, l, last)];
      }
      RowValues(sign, l, front);
      IterateResultsSnoc(Ops.Row(sign, l, front), Ops.Apply(sign, l, last));
    }
  }

  /** When every pair succeeds, `iterate_results` gives the values of every pair in cartesian order. */
  lemma {:induction false} BroadcastValues(sign: Ops.Sign, ls: seq<Value>, rs: seq<Value>)
    requires AllOk(Ops.Broadcast(sign, ls, rs))
    ensures IterateResults(Ops.Broadcast(sign, ls, rs)) == L.Ok(Ops.Sums(ls, rs))
  {
    if ls != [] {
      var front, last := ls[..|ls| - 1], ls[|ls| - 1];
      var a, b := Ops.Broadcast(sign, front, rs), Ops.Row(sign, last, rs);
      assert Ops.Broadcast(sign, ls, rs) == a + b;
      assert Ops.Sums(ls, rs) == Ops.Sums(front, rs) + Ops.RowSums(last, rs);
      AllOkSplit(a, b);
      BroadcastValues(sign, front, rs);
      RowValues(sign, last, rs);
      IterateResultsAppend(a, b);
    }
  }

  /**
   * Cartesian order: when an operator succeeds, its results are the values
   * of every pair of operand values, left values outermost (see
   * `Operators.SumsAt` for the position of each pair).
   */
  lemma OpCartesian(left: Query, sign: Ops.Sign, right: Query, v: Value)
    requires Execute(Op(left, sign, right), v).Ok?
    ensures Execute(left, v).Ok? && Execute(right, v).Ok?
    ensures Execute(Op(left, sign, right), v).values == Ops.Sums(Execute(left, v).values, Execute(right, v).values)
  {
    OpSteps(left, sign, right, v);
    BroadcastValues(sign, Execute(left, v).values, Execute(right, v).values);
  }

  /** Both parts of outcomes that all succeed succeed throughout. */
  lemma AllOkSplit(a: seq<L.Outcome>, b: seq<L.Outcome>)
    requires AllOk(a + b)
    ensures AllOk(a) && AllOk(b)
  {
    assert forall k :: 0 <= k < |a| ==> a[k] == (a + b)[k];
    assert forall k :: 0 <= k < |b| ==> b[k] == (a + b)[|a| + k];
  }

  /** `iterate_results` over one more outcome. */
  lemma IterateResultsSnoc(results: seq<L.Outcome>, o: L.Outcome)
    ensures IterateResults(results + [o]) == Concat(IterateResults(results), o)
  {
    assert (results + [o])[..|results|] == results;
  }

  /** Every left value paired with a single `null` gives the left values back. */
  lemma {:induction false} BroadcastNullRight(ls: seq<Value>)
    ensures IterateResults(Ops.Broadcast(Ops.Add, ls, [Null])) == L.Ok(ls)
  {
    if ls != [] {
      var front, last := ls[..|ls| - 1], ls[|ls| - 1];
      assert front + [last] == ls;
      BroadcastNullRight(front);
      assert Ops.Row(Ops.Add, last, [Null]) == [L.Ok([last])];
      IterateResultsSnoc(Ops.Broadcast(Ops.Add, front, [Null]), L.Ok([last]));
    }
  }

  /** `null` paired with every right value gives the right values back. */
  lemma {:induction false} RowNullLeft(rs: seq<Value>)
    ensures IterateResults(Ops.Row(Ops.Add, Null, rs)) == L.Ok(rs)
  {
    if rs != [] {
      var front, last := rs[..|rs| - 1], rs[|rs| - 1];
      assert front + [last] == rs;
      RowNullLeft(front);
      IterateResultsSnoc(Ops.Row(Ops.Add, Null, front), L.Ok([last]));
    }
  }

  /** A single `null` paired with every right value gives the right values back. */
  lemma BroadcastNullLeft(rs: seq<Value>)
    ensures IterateResults(Ops.Broadcast(Ops.Add, [Null], rs)) == L.Ok(rs)
  {
    Ops.BroadcastSingle(Ops.Add, Null, rs);
    RowNullLeft(rs);
  }

  /** One unimplemented pair makes the whole broadcast unimplemented. */
  lemma BroadcastUnimplemented(sign: Ops.Sign, ls: seq<Value>, rs: seq<Value>, i: nat, j: nat)
    requires i < |ls| && j < |rs| && !(sign.Add? && (ls[i].Null? || rs[j].Null?))
    ensures IterateResults(Ops.Broadcast(sign, ls, rs)) == L.Unimplemented
  {
    Ops.BroadcastContains(sign, ls, rs, i, j);
    Ops.BroadcastShape(sign, ls, rs);
    IterateResultsNoErr(Ops.Broadcast(sign, ls, rs));
  }

  /** `v + null` gives `v`: with a right operand that is only `null`, `+` gives the left results. */
  lemma OpAddNullRight(left: Query, right: Query, v: Value)
    requires Execute(left, v).Ok? && Execute(right, v) == L.Ok([Null])
    ensures Execute(Op(left, Ops.Add, right), v) == Execute(left, v)
  {
    OpSteps(left, Ops.Add, right, v);
    BroadcastNullRight(Execute(left, v).values);
  }

  /** `null + v` gives `v`: with a left operand that is only `null`, `+` gives the right results. */
  lemma OpAddNullLeft(left: Query, right: Query, v: Value)
    requires Execute(left, v) == L.Ok([Null]) && Execute(right, v).Ok?
    ensures Execute(Op(left, Ops.Add, right), v) == Execute(right, v)
  {
    OpSteps(left, Ops.Add, right, v);
    BroadcastNullLeft(Execute(right, v).values);
  }

  /** An operand with no results gives an operator with no results, whatever the sign. */
  lemma OpNoOperands(left: Query, sign: Ops.Sign, right: Query, v: Value)
    requires Execute(left, v).Ok? && Execute(right, v).Ok?
    requires Execute(left, v).values == [] || Execute(right, v).values == []
    ensures Execute(Op(left, sign, right), v) == L.Ok([])
  {
    OpSteps(left, sign, right, v);
    Ops.BroadcastEmpty(sign, Execute(left, v).values, Execute(right, v).values);
  }

  /**
   * A pair of operand values that is not `Add` with a `null` reaches a
   * `todo!()`: the operator is unimplemented there.
   */
  lemma OpUnimplemented(left: Query, sign: Ops.Sign, right: Query, v: Value, i: nat, j: nat)
    requires Execute(left, v).Ok? && Execute(right, v).Ok?
    requires i < |Execute(left, v).values| && j < |Execute(right, v).values|
    requires var l, r := Execute(left, v).values[i], Execute(right, v).values[j];
      !(sign.Add? && (l.Null? || r.Null?))
    ensures Execute(Op(left, sign, right), v) == L.Unimplemented
  {
    OpSteps(left, sign, right, v);
    BroadcastUnimplemented(sign, Execute(left, v).values, Execute(right, v).values, i, j);
  }

  /** Two outcomes agree on success, and on the values when they succeed. */
  predicate SameOk(o1: L.Outcome, o2: L.Outcome)
  {
    o1.Ok? == o2.Ok? && (o1.Ok? ==> o1.values == o2.values)
  }

  lemma ConcatAssociative(x: L.Outcome, y: L.Outcome, z: L.Outcome)
    ensures Concat(Concat(x, y), z) == Concat(x, Concat(y, z))
  {
    if x.Ok? && y.Ok? && z.Ok? {
      assert (x.values + y.values) + z.values == x.values + (y.values + z.values);
    }
  }

  /** `iterate_values` over two consecutive runs of values. */
  lemma {:induction false} EachAppend(q: Query, a: seq<Value>, b: seq<Value>)
    ensures ExecuteEach(q, a + b) == Concat(ExecuteEach(q, a), ExecuteEach(q, b))
  {
    if b == [] {
      assert a + b == a;
      if ExecuteEach(q, a).Ok? {
        assert ExecuteEach(q, a).values + [] == ExecuteEach(q, a).values;
      }
    } else {
      var front, last := b[..|b| - 1], b[|b| - 1];
      assert (a + b)[..|a + b| - 1] == a + front;
      assert (a + b)[|a + b| - 1] == last;
      EachAppend(q, a, front);
      ConcatAssociative(ExecuteEach(q, a), ExecuteEach(q, front), Execute(q, last));
    }
  }

  lemma SameOkConcat(p1: L.Outcome, p2: L.Outcome, o: L.Outcome)
    requires SameOk(p1, p2)
    ensures SameOk(Concat(p1, o), Concat(p2, o))
  {
  }

  /**
   * Running `c` on the results of `b` over a run of values agrees with
   * running `Chain(b, c)` on each value, up to which failure is reported.
   */
  lemma {:induction false} ChainEach(b: Query, c: Query, vals: seq<Value>)
    ensures SameOk(Bind(ExecuteEach(b, vals), c), ExecuteEach(Chain(b, c), vals))
  {
    if vals != [] {
      var front, last := vals[..|vals| - 1], vals[|vals| - 1];
      ChainEach(b, c, front);
      var eb, ob := ExecuteEach(b, front), Execute(b, last);
      assert ExecuteEach(b, vals) == Concat(eb, ob);
      assert ExecuteEach(Chain(b, c), vals) == Concat(ExecuteEach(Chain(b, c), front), Bind(ob, c));
      if eb.Ok? && ob.Ok? {
        EachAppend(c, eb.values, ob.values);
        SameOkConcat(ExecuteEach(c, eb.values), ExecuteEach(Chain(b, c), front), ExecuteEach(c, ob.values));
      }
    }
  }

  /**
   * `Chain` is associative up to which failure is reported: both groupings
   * succeed together, with the same results.
   */
  lemma ChainAssociative(a: Query, b: Query, c: Query, v: Value)
    ensures SameOk(Execute(Chain(Chain(a, b), c), v), Execute(Chain(a, Chain(b, c)), v))
  {
    assert Execute(Chain(Chain(a, b), c), v) == Bind(Bind(Execute(a, v), b), c);
    assert Execute(Chain(a, Chain(b, c)), v) == Bind(Execute(a, v), Chain(b, c));
    if Execute(a, v).Ok? {
      ChainEach(b, c, Execute(a, v).values);
    }
  }

  /** Grouped to the left, a chain reports the first failure of `b` before running `c`. */
  lemma LeftGroupingFails(a: Query, b: Query, c: Query, v: Value, x: Value, y: Value)
    requires Execute(a, v) == L.Ok([x, y]) && Execute(b, x).Ok? && !Execute(b, y).Ok?
    ensures Execute(Chain(Chain(a, b), c), v) == Execute(b, y)
  {
    ChainStep(a, b, v);
    EachFirstFailure(b, [x, y], 1);
    ChainStep(Chain(a, b), c, v);
  }

  /** Grouped to the right, a chain runs `c` on the first result of `b` before `b` sees later values. */
  lemma RightGroupingFails(a: Query, b: Query, c: Query, v: Value, x: Value, y: Value, z: Value)
    requires Execute(a, v) == L.Ok([x, y]) && Execute(b, x) == L.Ok([z]) && !Execute(c, z).Ok?
    ensures Execute(Chain(a, Chain(b, c)), v) == Execute(c, z)
  {
    ChainStep(b, c, x);
    EachFirstFailure(c, [z], 0);
    assert Execute(Chain(b, c), x) == Execute(c, z);
    ChainStep(a, Chain(b, c), v);
    EachFirstFailure(Chain(b, c), [x, y], 0);
  }

  /**
   * Regrouping a chain can change which error is reported: over the
   * results `"s", 1`, slicing then indexing by `0` fails on `1` first when
   * grouped to the left, but on `"s"` first when grouped to the right.
   */
  lemma ChainRegroupingChangesError()
    ensures var a := Split(Raw(R.Raw(Str("s"))), Raw(R.Raw(Num(1))));
      var b := Index(I.Slice(Range.Lower(0)));
      var c := Index(I.Integer(0));
      Execute(Chain(Chain(a, b), c), Null) == L.Err(L.Index("number", "slice")) &&
      Execute(Chain(a, Chain(b, c)), Null) == L.Err(L.Index("string", "number"))
  {
    var s: Bytes := "s";
    var a := Split(Raw(R.Raw(Str(s))), Raw(R.Raw(Num(1))));
    var b := Index(I.Slice(Range.Lower(0)));
    var c := Index(I.Integer(0));
    assert Execute(a, Null) == L.Ok([Str(s), Num(1)]) by {
      SplitCases(Raw(R.Raw(Str(s))), Raw(R.Raw(Num(1))), Null);
    }
    assert Execute(b, Str(s)) == L.Ok([Str(s)]) by {
      assert Range.Normalize(Range.Lower(0), 1) == (0, 1);
      assert Access.SliceOf(s, 0, 1) == s;
    }
    LeftGroupingFails(a, b, c, Null, Str(s), Num(1));
    RightGroupingFails(a, b, c, Null, Str(s), Num(1), Str(s));
  }
}
