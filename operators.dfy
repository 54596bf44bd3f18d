/**
 * src/operators.rs: binary operators.  Only addition involving `null` is
 * implemented; every other case reaches a `todo!()`.  The results of an
 * operator are the cartesian product of its operands' results, left
 * operand outermost.
 */
module Operators {
  import opened Json
  import opened Nom
  import L = Lib

  datatype Sign = Add | Sub | Mul | Div | Mod

  /** The byte that denotes each sign. */
  function SignByte(sign: Sign): (b: Byte)
    ensures b in "+-*/%"
  {
    match sign
    case Add => '+'
    case Sub => '-'
    case Mul => '*'
    case Div => '/'
    case Mod => '%'
  }

  /** `parse_sign`: one of `+ - * / %`. */
  function ParseSign(input: Bytes): (r: PResult<Sign>)
    ensures r.Done? <==> input != [] && input[0] in "+-*/%"
    ensures r.Done? ==> r.rest == input[1..] && SignByte(r.value) == input[0]
  {
    match Char('+', input)
    case Done(rest, _) => Done(rest, Add)
    case Fail =>
      match Char('-', input)
      case Done(rest, _) => Done(rest, Sub)
      case Fail =>
        match Char('*', input)
        case Done(rest, _) => Done(rest, Mul)
        case Fail =>
          match Char('/', input)
          case Done(rest, _) => Done(rest, Div)
          case Fail =>
            match Char('%', input)
            case Done(rest, _) => Done(rest, Mod)
            case Fail => Fail
  }

  /** Every sign is read back from its byte. */
  lemma SignRoundTrip(sign: Sign, rest: Bytes)
    ensures ParseSign([SignByte(sign)] + rest) == Done(rest, sign)
  {
    assert ([SignByte(sign)] + rest)[1..] == rest;
  }

  /**
   * `parse`: a left operand, a sign, a right operand, with no blanks
   * skipped anywhere.  The operand parser `parse_init` is a parameter.
   */
  function Parse<Q>(parseInit: Bytes -> PResult<Q>, input: Bytes): (r: PResult<(Q, Sign, Q)>)
    ensures r.Done? ==> parseInit(input).Done?
    ensures r.Done? ==> var left := parseInit(input);
      left.rest != [] && left.rest[0] == SignByte(r.value.1) && parseInit(left.rest[1..]) == Done(r.rest, r.value.2)
  {
    match parseInit(input)
    case Fail => Fail
    case Done(s1, left) =>
      match ParseSign(s1)
      case Fail => Fail
      case Done(s2, sign) =>
        match parseInit(s2)
        case Fail => Fail
        case Done(s3, right) => Done(s3, (left, sign, right))
  }

  /** A left operand, a sign byte and a right operand are read as that operation. */
  lemma ParseReads<Q>(parseInit: Bytes -> PResult<Q>, input: Bytes, sign: Sign, after: Bytes, rest: Bytes, left: Q, right: Q)
    requires parseInit(input) == Done([SignByte(sign)] + after, left)
    requires parseInit(after) == Done(rest, right)
    ensures Parse(parseInit, input) == Done(rest, (left, sign, right))
  {
    SignRoundTrip(sign, after);
  }

  /** A blank between the left operand and the sign is not skipped: the parse fails. */
  lemma BlankBeforeSignRefused<Q>(parseInit: Bytes -> PResult<Q>, input: Bytes)
    requires parseInit(input).Done? && parseInit(input).rest != [] && IsBlank(parseInit(input).rest[0])
    ensures Parse(parseInit, input).Fail?
  {
  }

  /**
   * `add` on one pair of values: `null` is the identity on either side
   * (so `null + null` is `null`); every other pairing is unimplemented.
   */
  function AddValues(l: Value, r: Value): (o: L.Outcome)
    ensures !o.Err?
    ensures o.Ok? <==> l.Null? || r.Null?
    ensures o.Ok? ==> o.values == [if l.Null? then r else l]
  {
    match (l, r)
    case (Null, Null) => L.Single(Null)
    case (_, Null) => L.Single(l)
    case (Null, _) => L.Single(r)
    case _ => L.Unimplemented
  }

  /** One pair of the broadcast: only `Add` is implemented. */
  function Apply(sign: Sign, l: Value, r: Value): (o: L.Outcome)
    ensures !o.Err?
    ensures o.Ok? <==> sign.Add? && (l.Null? || r.Null?)
    ensures o.Ok? ==> o.values == [NullSum(l, r)]
  {
    if sign.Add? then AddValues(l, r) else L.Unimplemented
  }

  /** The outcomes of `l` against every right result, in order. */
  function Row(sign: Sign, l: Value, rs: seq<Value>): (row: seq<L.Outcome>)
    ensures |row| == |rs|
    ensures forall j :: 0 <= j < |rs| ==> row[j] == Apply(sign, l, rs[j])
  {
    if rs == [] then []
    else Row(sign, l, rs[..|rs| - 1]) + [Apply(sign, l, rs[|rs| - 1])]
  }

  /** The outcomes of every pair, left results outermost. */
  function Broadcast(sign: Sign, ls: seq<Value>, rs: seq<Value>): (outs: seq<L.Outcome>)
    ensures forall k :: 0 <= k < |outs| ==> !outs[k].Err?
  {
    if ls == [] then []
    else Broadcast(sign, ls[..|ls| - 1], rs) + Row(sign, ls[|ls| - 1], rs)
  }

  lemma MulSucc(a: nat, b: nat)
    ensures (a + 1) * b == a * b + b
  {
  }

  /** There is one outcome per pair. */
  lemma {:induction false} BroadcastLength(sign: Sign, ls: seq<Value>, rs: seq<Value>)
    ensures |Broadcast(sign, ls, rs)| == |ls| * |rs|
  {
    if ls != [] {
      var front := ls[..|ls| - 1];
      BroadcastLength(sign, front, rs);
      MulSucc(|front|, |rs|);
    }
  }

  /** The value `add` gives for a pair it implements: the operand that is not `null`. */
  function NullSum(l: Value, r: Value): Value
  {
    if l.Null? then r else l
  }

  /** The values of `l` against every right value, in order. */
  function RowSums(l: Value, rs: seq<Value>): (row: seq<Value>)
    ensures |row| == |rs|
    ensures forall j :: 0 <= j < |rs| ==> row[j] == NullSum(l, rs[j])
  {
    if rs == [] then []
    else RowSums(l, rs[..|rs| - 1]) + [NullSum(l, rs[|rs| - 1])]
  }

  /** The values of every pair, left values outermost. */
  function Sums(ls: seq<Value>, rs: seq<Value>): (vs: seq<Value>)
    ensures forall k :: 0 <= k < |vs| ==> vs[k] in ls || vs[k] in rs
  {
    if ls == [] then []
    else Sums(ls[..|ls| - 1], rs) + RowSums(ls[|ls| - 1], rs)
  }

  /** There is one value per pair. */
  lemma {:induction false} SumsLength(ls: seq<Value>, rs: seq<Value>)
    ensures |Sums(ls, rs)| == |ls| * |rs|
  {
    if ls != [] {
      var front := ls[..|ls| - 1];
      SumsLength(front, rs);
      MulSucc(|front|, |rs|);
    }
  }

  /**
   * Cartesian order: the value of the `i`-th left and the `j`-th right
   * value sits at `i * |rs| + j`.
   */
  lemma {:induction false} SumsAt(ls: seq<Value>, rs: seq<Value>, i: nat, j: nat)
    requires i < |ls| && j < |rs|
    ensures i * |rs| + j < |Sums(ls, rs)|
    ensures Sums(ls, rs)[i * |rs| + j] == NullSum(ls[i], rs[j])
  {
    var front := ls[..|ls| - 1];
    var head := Sums(front, rs);
    SumsLength(front, rs);
    if i < |front| {
      SumsAt(front, rs, i, j);
      assert front[i] == ls[i];
    } else {
      assert i * |rs| == |head|;
    }
  }

  /** The row of a prefix of the right results is a prefix of the whole row. */
  lemma {:induction false} RowPrefix(sign: Sign, l: Value, rs: seq<Value>, j: nat)
    requires j <= |rs|
    ensures Row(sign, l, rs[..j]) <= Row(sign, l, rs)
  {
    var a := Row(sign, l, rs[..j]);
    var b := Row(sign, l, rs);
    assert forall k :: 0 <= k < j ==> a[k] == b[k] by {
      forall k | 0 <= k < j
        ensures a[k] == b[k]
      {
        assert rs[..j][k] == rs[k];
      }
    }
  }

  /** The broadcast of a prefix of the left results is a prefix of the whole broadcast. */
  lemma {:induction false} BroadcastPrefix(sign: Sign, ls: seq<Value>, rs: seq<Value>, i: nat)
    requires i <= |ls|
    ensures Broadcast(sign, ls[..i], rs) <= Broadcast(sign, ls, rs)
    decreases |ls| - i
  {
    if i < |ls| {
      var front := ls[..|ls| - 1];
      assert front[..i] == ls[..i];
      BroadcastPrefix(sign, front, rs, i);
    } else {
      assert ls[..i] == ls;
    }
  }

  /** One more right result extends a row by the outcome of that pair. */
  lemma RowStep(sign: Sign, l: Value, rs: seq<Value>, j: nat)
    requires j < |rs|
    ensures Row(sign, l, rs[..j + 1]) == Row(sign, l, rs[..j]) + [Apply(sign, l, rs[j])]
  {
    assert rs[..j + 1][..j] == rs[..j];
  }

  /** One more left result extends the broadcast by its whole row. */
  lemma BroadcastStep(sign: Sign, ls: seq<Value>, rs: seq<Value>, i: nat)
    requires i < |ls|
    ensures Broadcast(sign, ls[..i + 1], rs) == Broadcast(sign, ls[..i], rs) + Row(sign, ls[i], rs)
  {
    assert ls[..i + 1][..i] == ls[..i];
  }

  /** The outcomes up to and including pair `(i, j)` are a prefix of the whole broadcast. */
  lemma PrefixAt(sign: Sign, ls: seq<Value>, rs: seq<Value>, i: nat, j: nat)
    requires i < |ls| && j < |rs|
    ensures Broadcast(sign, ls[..i], rs) + Row(sign, ls[i], rs[..j + 1]) <= Broadcast(sign, ls, rs)
  {
    RowPrefix(sign, ls[i], rs, j + 1);
    BroadcastStep(sign, ls, rs, i);
    BroadcastPrefix(sign, ls, rs, i + 1);
  }

  /** No pair of the broadcast is an error: each either gives one value or is unimplemented. */
  lemma {:induction false} BroadcastShape(sign: Sign, ls: seq<Value>, rs: seq<Value>)
    ensures forall k :: 0 <= k < |Broadcast(sign, ls, rs)| ==>
      !Broadcast(sign, ls, rs)[k].Err? && (Broadcast(sign, ls, rs)[k].Ok? ==> |Broadcast(sign, ls, rs)[k].values| == 1)
  {
    if ls != [] {
      BroadcastShape(sign, ls[..|ls| - 1], rs);
    }
  }

  /** With a single left result the broadcast is that result's row. */
  lemma BroadcastSingle(sign: Sign, l: Value, rs: seq<Value>)
    ensures Broadcast(sign, [l], rs) == Row(sign, l, rs)
  {
    assert [l][..0] == [];
    assert [] + Row(sign, l, rs) == Row(sign, l, rs);
  }

  /** Every pair's outcome occurs in the broadcast. */
  lemma {:induction false} BroadcastContains(sign: Sign, ls: seq<Value>, rs: seq<Value>, i: nat, j: nat)
    requires i < |ls| && j < |rs|
    ensures Apply(sign, ls[i], rs[j]) in Broadcast(sign, ls, rs)
  {
    var front := ls[..|ls| - 1];
    if i < |front| {
      assert front[i] == ls[i];
      BroadcastContains(sign, front, rs, i, j);
    } else {
      assert Row(sign, ls[i], rs)[j] == Apply(sign, ls[i], rs[j]);
    }
  }

  /** With no left or no right results there are no pairs. */
  lemma {:induction false} BroadcastEmpty(sign: Sign, ls: seq<Value>, rs: seq<Value>)
    requires ls == [] || rs == []
    ensures Broadcast(sign, ls, rs) == []
  {
    if ls != [] {
      BroadcastEmpty(sign, ls[..|ls| - 1], rs);
    }
  }
}
