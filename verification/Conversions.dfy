/**
 Chains of conversions between typecodes: which are reasonable, and the search for them in rounds.
 */
module Conversions {
  datatype Kind = Signed | Unsigned | Floating | Other

  datatype Typecode = Typecode(id: nat, kind: Kind, size: nat) {
    predicate IsInteger() { kind == Signed || kind == Unsigned }
  }

  /** A bytecode, or -1 when the conversion emits nothing. */
  type Opcode = o: int | -1 <= o < 256

  datatype Conversion = Conversion(opcode: Opcode, from: Typecode, to: Typecode, cost: int)

  /** `struct conversion_list`: the last step, and the list before it. */
  datatype Chain = Nil | Node(opcode: Opcode, to: Typecode, cost: int, prev: Chain)

  // ---------------------------------------------------------------- reasonable chains

  /** The kinds of step that a chain may not mix. */
  datatype StepKind = IntToFloat | FloatToInt | SignExtend | ZeroExtend | SignedToUnsigned | UnsignedToSigned

  predicate IsStep(k: StepKind, from: Typecode, to: Typecode) {
    match k
    case IntToFloat => from.IsInteger() && to.kind == Floating
    case FloatToInt => from.kind == Floating && to.IsInteger()
    case SignExtend => from.kind == Signed && to.kind == Signed && from.size < to.size
    case ZeroExtend => from.kind == Unsigned && to.kind == Unsigned && from.size < to.size
    case SignedToUnsigned => from.kind == Signed && to.kind == Unsigned
    case UnsignedToSigned => from.kind == Unsigned && to.kind == Signed
  }

  predicate HasStep(k: StepKind, c: Chain) {
    c.Node? && c.prev.Node? && (IsStep(k, c.prev.to, c.to) || HasStep(k, c.prev))
  }

  predicate Appears(t: Typecode, c: Chain) {
    c.Node? && (c.to == t || Appears(t, c.prev))
  }

  /** Read from its end the chain never gets larger, starting at `size`. */
  predicate Rises(size: nat, c: Chain)
    decreases c
  {
    c.Node? ==> c.to.size <= size && Rises(c.to.size, c.prev)
  }

  predicate Falls(size: nat, c: Chain)
    decreases c
  {
    c.Node? ==> c.to.size >= size && Falls(c.to.size, c.prev)
  }

  predicate WidensInteger(v: Conversion) {
    v.from.IsInteger() && v.to.IsInteger() && v.to.size > v.from.size
  }

  /** The criteria for adding `v` at the end of `list`. */
  predicate Reasonable(v: Conversion, list: Chain) {
    && !Appears(v.to, list)
    && !(WidensInteger(v) && (HasStep(SignedToUnsigned, list) || HasStep(UnsignedToSigned, list)))
    && !((IsStep(FloatToInt, v.from, v.to) || HasStep(FloatToInt, list))
         && (IsStep(IntToFloat, v.from, v.to) || HasStep(IntToFloat, list)))
    && !((IsStep(SignExtend, v.from, v.to) || HasStep(SignExtend, list))
         && (IsStep(ZeroExtend, v.from, v.to) || HasStep(ZeroExtend, list)))
    && (Rises(v.to.size, list) || Falls(v.to.size, list))
  }

  /** Is there a step of kind `k` in the list or in the new conversion? The loops of the source look
      for all kinds in one pass. */
  method FindStep(k: StepKind, list: Chain) returns (found: bool)
    ensures found == HasStep(k, list)
  {
    found := false;
    var curr := list;
    while curr.Node? && curr.prev.Node?
      invariant HasStep(k, list) == (found || HasStep(k, curr))
      decreases curr
    {
      if IsStep(k, curr.prev.to, curr.to) {
        found := true;
      }
      curr := curr.prev;
    }
  }

  /** The last test of `conversion_reasonable_p`: skip the sizes equal to the first, then see that the
      sizes go on in one direction. */
  method SizesInOrder(size: nat, list: Chain) returns (ok: bool)
    ensures ok == (Rises(size, list) || Falls(size, list))
  {
    var curr := list;
    while curr.Node? && curr.to.size == size
      invariant Rises(size, list) == Rises(size, curr) && Falls(size, list) == Falls(size, curr)
      decreases curr
    {
      curr := curr.prev;
    }
    if curr.Nil? {
      return true;
    }
    var rising := curr.to.size < size;
    var prevSize := curr.to.size;
    while curr.Node?
      invariant rising ==> !Falls(size, list) && Rises(size, list) == Rises(prevSize, curr)
      invariant !rising ==> !Rises(size, list) && Falls(size, list) == Falls(prevSize, curr)
      decreases curr
    {
      if (rising && curr.to.size > prevSize) || (!rising && curr.to.size < prevSize) {
        return false;
      }
      prevSize := curr.to.size;
      curr := curr.prev;
    }
    ok := true;
  }

  /** `conversion_reasonable_p` */
  method ConversionReasonable(v: Conversion, list: Chain) returns (ok: bool)
    ensures ok == Reasonable(v, list)
  {
    var curr := list;
    while curr.Node?
      invariant Appears(v.to, list) == Appears(v.to, curr)
      decreases curr
    {
      if v.to == curr.to {
        return false;
      }
      curr := curr.prev;
    }
    var intFloat := FindStep(IntToFloat, list);
    var floatInt := FindStep(FloatToInt, list);
    var signExtend := FindStep(SignExtend, list);
    var zeroExtend := FindStep(ZeroExtend, list);
    var signedUnsigned := FindStep(SignedToUnsigned, list);
    var unsignedSigned := FindStep(UnsignedToSigned, list);
    if WidensInteger(v) && (signedUnsigned || unsignedSigned) {
      return false;
    }
    if ((floatInt || IsStep(FloatToInt, v.from, v.to)) && (intFloat || IsStep(IntToFloat, v.from, v.to)))
       || ((signExtend || IsStep(SignExtend, v.from, v.to)) && (zeroExtend || IsStep(ZeroExtend, v.from, v.to))) {
      return false;
    }
    ok := SizesInOrder(v.to.size, list);
  }

  // ---------------------------------------------------------------- the search

  function First(from: Typecode): Chain { Node(-1, from, 0, Nil) }

  function Add(v: Conversion, list: Chain): Chain { Node(v.opcode, v.to, v.cost, list) }

  predicate Fits(v: Conversion, list: Chain) {
    list.Node? && v.from == list.to && Reasonable(v, list)
  }

  /** The loop that takes the successful chains off the pending list. After it unlinks a chain it goes
      on from the next one without looking at it, so that one stays pending. */
  function Sift(pending: seq<Chain>, to: Typecode, good: seq<Chain>): (seq<Chain>, seq<Chain>)
    requires forall c :: c in pending ==> c.Node?
  {
    if pending == [] then ([], good)
    else if pending[0].to != to then
      var r := Sift(pending[1..], to, good);
      ([pending[0]] + r.0, r.1)
    else if |pending| == 1 then ([], [pending[0]] + good)
    else
      var r := Sift(pending[2..], to, [pending[0]] + good);
      ([pending[1]] + r.0, r.1)
  }

  /** The chains that come of one, newest first, in front of those already made. */
  function ExpandOne(list: Chain, table: seq<Conversion>, made: seq<Chain>): seq<Chain>
    decreases |table|
  {
    if table == [] then made
    else ExpandOne(list, table[1..], if Fits(table[0], list) then [Add(table[0], list)] + made else made)
  }

  function ExpandAll(pending: seq<Chain>, table: seq<Conversion>, made: seq<Chain>): seq<Chain> {
    if pending == [] then made else ExpandAll(pending[1..], table, ExpandOne(pending[0], table, made))
  }

  /** The chains that can be built from `from` step by step, each step reasonable. */
  predicate Stepwise(c: Chain, table: seq<Conversion>, from: Typecode) {
    c == First(from) || (c.Node? && Stepwise(c.prev, table, from) && Extends(c, table))
  }

  predicate Extends(c: Chain, table: seq<Conversion>)
    requires c.Node?
  {
    exists i :: 0 <= i < |table| && Fits(table[i], c.prev) && c == Add(table[i], c.prev)
  }

  function Length(c: Chain): nat { if c.Nil? then 0 else 1 + Length(c.prev) }

  predicate AllStepwise(cs: seq<Chain>, table: seq<Conversion>, from: Typecode, k: nat) {
    forall c :: c in cs ==> c.Node? && Stepwise(c, table, from) && Length(c) == k
  }

  lemma {:induction false} ExpandOneMembers(list: Chain, table: seq<Conversion>, made: seq<Chain>, c: Chain)
    ensures c in ExpandOne(list, table, made) <==>
            c in made || exists i :: 0 <= i < |table| && Fits(table[i], list) && c == Add(table[i], list)
    decreases |table|
  {
    if table != [] {
      var next := if Fits(table[0], list) then [Add(table[0], list)] + made else made;
      ExpandOneMembers(list, table[1..], next, c);
      if i :| 0 <= i < |table| && Fits(table[i], list) && c == Add(table[i], list) {
        if i > 0 {
          assert table[1..][i - 1] == table[i];
        }
      }
      if i :| 0 <= i < |table[1..]| && Fits(table[1..][i], list) && c == Add(table[1..][i], list) {
        assert table[i + 1] == table[1..][i];
      }
    }
  }

  predicate ComesOf(c: Chain, pending: seq<Chain>, table: seq<Conversion>) {
    c.Node? && c.prev in pending && Extends(c, table)
  }

  /** One round makes every reasonable extension of the pending chains, and nothing else. */
  lemma {:induction false} ExpandAllMembers(pending: seq<Chain>, table: seq<Conversion>, made: seq<Chain>, c: Chain)
    ensures c in ExpandAll(pending, table, made) <==> c in made || ComesOf(c, pending, table)
    decreases |pending|
  {
    if pending != [] {
      var next := ExpandOne(pending[0], table, made);
      ExpandAllMembers(pending[1..], table, next, c);
      ExpandOneMembers(pending[0], table, made, c);
      assert pending == [pending[0]] + pending[1..];
      hide ExpandAll, ExpandOne, Fits;
      if c.Node? && c.prev == pending[0] {
        assert Extends(c, table) <==> exists i :: 0 <= i < |table| && Fits(table[i], c.prev) && c == Add(table[i], c.prev);
      } 
    }
  }

  predicate AllNodes(cs: seq<Chain>) { forall c :: c in cs ==> c.Node? }

  /** What the sifting does to one chain. */
  lemma {:induction false} SiftMembers(pending: seq<Chain>, to: Typecode, good: seq<Chain>, c: Chain)
    requires AllNodes(pending)
    ensures var r := Sift(pending, to, good);
      && (c in r.0 ==> c in pending) && (c in pending && c.to != to ==> c in r.0)
      && (c in r.1 ==> c in good || (c in pending && c.to == to)) && (c in good ==> c in r.1)
      && (c in pending && c.to == to ==> r.1 != [])
      && (c in pending ==> c in r.0 || c in r.1)
    decreases |pending|
  {
    if pending != [] {
      assert pending == [pending[0]] + pending[1..];
      if pending[0].to != to {
        SiftMembers(pending[1..], to, good, c);
      } else if |pending| > 1 {
        assert pending == [pending[0], pending[1]] + pending[2..];
        SiftMembers(pending[2..], to, [pending[0]] + good, c);
        SiftMembers(pending[2..], to, [pending[0]] + good, pending[0]);
      }
    }
  }
}
