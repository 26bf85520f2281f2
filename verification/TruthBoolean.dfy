/**
 What the conversion of truth values returns is a truth value: of type `int`, and 0 or 1.
 */
module TruthBoolean {
  import opened IntTypes
  import opened TruthValue
  import opened TruthTheorem
  import opened TruthExact

  predicate ByOne(e: Expr) {
    e.BitAnd? && e.right.IntCst? && e.right.value == 1
  }

  /** Under the operations that are looked through there is an "and" with one, which is returned as it
      is. */
  predicate Masked(e: Expr) {
    match e
    case Negate(a) => Masked(a)
    case Abs(a) => Masked(a)
    case Float(_, a) => Masked(a)
    case Ffs(a) => Masked(a)
    case Rotate(_, a, _) => Masked(a)
    case Cond(_, a, b) => Masked(a) || Masked(b)
    case Convert(_, _, a) => Transparent(e) && Masked(a)
    case BitAnd(_, _, _) => ByOne(e)
    case _ => false
  }

  /** The evaluation comes to such an "and" in a type of one signed bit, and the bit is set. */
  predicate SignReached(e: Expr, o: Oracle, s: seq<nat>) {
    match e
    case Negate(a) => SignReached(a, o, s)
    case Abs(a) => SignReached(a, o, s)
    case Float(_, a) => SignReached(a, o, s)
    case Ffs(a) => SignReached(a, o, s)
    case Rotate(_, a, n) => SignReached(a, o, Eval(n, o, s).1)
    case Cond(c, a, b) =>
      var (v, s1) := Eval(c, o, s);
      if Nonzero(v) then SignReached(a, o, s1) else SignReached(b, o, s1)
    case Convert(_, _, a) => Transparent(e) && SignReached(a, o, s)
    case BitAnd(t, a, _) =>
      ByOne(e) && t == TInt(IntType(1, false)) && Eval(a, o, s).0.I? && Eval(a, o, s).0.i % 2 == 1
    case IntCst(_, _) => false
    case RealCst(_, _) => false
    case Load(_, _) => false
    case Call(_, _) => false
    case Compare(_, _, _) => false
    case Logical(_, _, _) => false
    case AddressOf(_, _) => false
    case Complex(_, _, _) => false
    case RealPart(_) => false
    case ImagPart(_) => false
    case Minus(_, _, _) => false
    case BitXor(_, _, _) => false
    case Compound(_, _) => false
  }

  /** The result has type `int`, unless it is an "and" with one. */
  lemma {:induction false} TruthType(e: Expr, ieee: bool)
    requires !Masked(e)
    ensures TypeOf(ToTruth(e, ieee)) == INTEGER_TYPE
  {
    match e
    case Negate(a) => TruthType(a, ieee);
    case Abs(a) => TruthType(a, ieee);
    case Float(_, a) => TruthType(a, ieee);
    case Ffs(a) => TruthType(a, ieee);
    case Rotate(_, a, _) => TruthType(a, ieee);
    case Cond(_, a, b) => TruthType(a, ieee); TruthType(b, ieee);
    case Convert(_, _, a) => if Transparent(e) { TruthType(a, ieee); }
    case _ =>
  }

  /** An explicit conversion to or from a reference is kept, and an integer conversion that does not narrow
      is looked through. */
  lemma ConversionsKept(e: Expr, ieee: bool)
    requires e.Convert?
    ensures e.explicit_ && (e.ty.TReference? || (TypeOf(e.arg).TReference? && !e.ty.TComplex?)) ==>
              ToTruth(e, ieee) == Compare(NotEqual, e, ZERO)
    ensures e.ty.TInt? && TypeOf(e.arg).TInt? && e.ty.t.prec >= TypeOf(e.arg).t.prec ==> ToTruth(e, ieee) == ToTruth(e.arg, ieee)
  {
  }

  predicate ZeroOrOne(v: Value) { v == I(0) || v == I(1) }

  lemma {:induction false} CompareValue(r: Relation, a: Expr, b: Expr, o: Oracle, s: seq<nat>)
    ensures ZeroOrOne(Eval(Compare(r, a, b), o, s).0)
  {
    hide Related;
  }

  lemma {:induction false} LogicalValue(j: Junction, a: Expr, b: Expr, o: Oracle, s: seq<nat>)
    ensures ZeroOrOne(Eval(Logical(j, a, b), o, s).0)
    ensures j == Xor ==> var (v, s1) := Eval(a, o, s);
              (Eval(Logical(j, a, b), o, s).0 == I(0) <==> (Nonzero(v) <==> Nonzero(Eval(b, o, s1).0)))
  {
    hide Nonzero;
  }

  lemma OneOrZeroConstant(o: Oracle, s: seq<nat>)
    ensures Eval(ONE, o, s) == (I(1), s) && Eval(ZERO, o, s) == (I(0), s)
  {
  }

  lemma {:induction false} CompoundValue(a: Expr, b: Expr, o: Oracle, s: seq<nat>)
    ensures Eval(Compound(a, b), o, s) == Eval(b, o, Eval(a, o, s).1)
  {
  }

  lemma {:induction false} AndWithZero(n: nat, a: int)
    ensures AndBits(n, a, 0) == 0
    decreases n
  {
    if n > 0 {
      AndWithZero(n - 1, a / 2);
    }
  }

  lemma AndWithOne(n: nat, a: int)
    requires n >= 1
    ensures AndBits(n, a, 1) == a % 2
  {
    AndWithZero(n - 1, a / 2);
  }

  lemma ConvertBit(t: IntType, v: int)
    requires t.prec >= 1 && 0 <= v <= 1
    ensures t.Convert(v) == if t == IntType(1, false) then -v else v
  {
    assert Pow2(0) == 1 && Pow2(1) == 2;
    ConvertFacts(t, v);
    TypeRange(t);
    if t.prec > 1 {
      Pow2Monotone(1, t.prec - 1);
    } else if t.uns {
      assert t.Has(v);
    } else {
      assert Congruent(v, -v, 2) by { assert v == -v + Times(v, 2); }
      ConvertIff(t, v, -v);
      ConvertFacts(t, -v);
    }
  }

  lemma {:induction false} EvalOfAnd(e: Expr, o: Oracle, s: seq<nat>)
    requires ByOne(e)
    ensures Eval(e, o, s).0 == BitValue(e.ty, Eval(e.left, o, s).0, I(1), false)
  {
    hide BitValue;
  }

  /** The value of an "and" with one: the lowest bit, which is negative in a type of one signed bit. */
  lemma MaskValue(e: Expr, o: Oracle, s: seq<nat>)
    requires WellTyped(e) && ByOne(e)
    ensures Eval(e.left, o, s).0.I?
    ensures var bit := Eval(e.left, o, s).0.i % 2;
      Eval(e, o, s).0 == I(if e.ty == TInt(IntType(1, false)) then -bit else bit)
  {
    EvalOfAnd(e, o, s);
    EvalTyped(e.left, o, s);
    hide Eval, TypeOf, AndBits, IntType.Convert;
    AndWithOne(e.ty.t.prec, Eval(e.left, o, s).0.i);
    ConvertBit(e.ty.t, Eval(e.left, o, s).0.i % 2);
  }

  lemma LeafIsBoolean(e: Expr, ieee: bool, o: Oracle, s: seq<nat>)
    requires WellTyped(e) && (Leaf(e) || (e.Convert? && !Transparent(e)))
    ensures Eval(ToTruth(e, ieee), o, s).0 == I(-1) || ZeroOrOne(Eval(ToTruth(e, ieee), o, s).0)
    ensures Eval(ToTruth(e, ieee), o, s).0 == I(-1) <==> SignReached(e, o, s)
  {
    hide Eval, WellTyped, TypeOf, Transparent, SideEffects;
    match ToTruth(e, ieee)
    case Compare(r, a, b) => CompareValue(r, a, b, o, s);
    case Logical(j, a, b) => LogicalValue(j, a, b, o, s);
    case IntCst(_, _) => OneOrZeroConstant(o, s);
    case Compound(a, b) => CompoundValue(a, b, o, s); OneOrZeroConstant(o, Eval(a, o, s).1);
    case BitAnd(_, _, _) => MaskValue(e, o, s);
  }

  lemma {:induction false} CondValue(c: Expr, a: Expr, b: Expr, o: Oracle, s: seq<nat>)
    ensures var (v, s1) := Eval(c, o, s); Eval(Cond(c, a, b), o, s) == Eval(if Nonzero(v) then a else b, o, s1)
  {
    hide Nonzero;
  }

  /** The converted expression is 0 or 1, exactly if the evaluation does not come to a set bit of an "and"
      with one in a type of one signed bit; otherwise it is -1. */
  lemma {:induction false} TruthIsBoolean(e: Expr, ieee: bool, o: Oracle, s: seq<nat>)
    requires WellTyped(e)
    ensures Eval(ToTruth(e, ieee), o, s).0 == I(-1) || ZeroOrOne(Eval(ToTruth(e, ieee), o, s).0)
    ensures Eval(ToTruth(e, ieee), o, s).0 == I(-1) <==> SignReached(e, o, s)
  {
    hide Eval, Transparent, SideEffects, Nonzero;
    if Unary(e) {
      TruthIsBoolean(e.arg, ieee, o, s);
    } else if e.Complex? {
      LogicalValue(if SideEffects(e.imagPart) then Or else OrIf, ToTruth(e.realPart, ieee), ToTruth(e.imagPart, ieee), o, s);
    } else if e.Rotate? {
      var s1 := Eval(e.count, o, s).1;
      CompoundValue(e.count, ToTruth(e.arg, ieee), o, s);
      NoEffectsIfPure(e.count, o, s);
      TruthIsBoolean(e.arg, ieee, o, s1);
    } else if e.Cond? {
      CondValue(e.test, ToTruth(e.yes, ieee), ToTruth(e.no, ieee), o, s);
      var (v, s1) := Eval(e.test, o, s);
      TruthIsBoolean(if Nonzero(v) then e.yes else e.no, ieee, o, s1);
    } else {
      LeafIsBoolean(e, ieee, o, s);
    }
  }

  /** Altogether: the converted expression is 1 or 0 as the original is nonzero or zero. */
  lemma TruthIsOne(e: Expr, ieee: bool, o: Oracle, s: seq<nat>)
    requires WellTyped(e) && !SignReached(e, o, s) && !Repeats(e, ieee, o, s) && (Exact(o) || !Replaces(e, ieee))
    ensures Eval(ToTruth(e, ieee), o, s) == (I(if Nonzero(Eval(e, o, s).0) then 1 else 0), Eval(e, o, s).1)
  {
    hide Eval, ToTruth, Repeats, WellTyped, SignReached;
    TruthPreserved(e, ieee, o, s);
    TruthIsBoolean(e, ieee, o, s);
  }

  lemma OneTyped()
    ensures WellTyped(ONE) && TypeOf(ONE) == INTEGER_TYPE
  {
    TypeRange(IntType(32, false));
    Pow2Monotone(1, 31);
  }

  lemma LoadsMinusOne(t: Ty)
    requires t == TInt(IntType(1, false))
    ensures Eval(Load(t, 0), Always(I(-1)), []).0 == I(-1)
  {
    assert Pow2(0) == 1 && Pow2(1) == 2;
    assert HasType(I(-1), t);
    hide HasType, Pow2;
  }

  /** The exception: `b & 1` for a signed bit-field of one bit is returned as it is, and is -1. */
  lemma SignedBitIsKept(ieee: bool)
    ensures var t := TInt(IntType(1, false)); var e := BitAnd(t, Load(t, 0), ONE);
      && WellTyped(e) && ToTruth(e, ieee) == e && TypeOf(e) != INTEGER_TYPE
      && Eval(e, Always(I(-1)), []).0 == I(-1)
  {
    hide Eval, WellTyped, Pow2;
    var t := TInt(IntType(1, false));
    MaskTyped(t);
    LoadsMinusOne(t);
    MaskValue(BitAnd(t, Load(t, 0), ONE), Always(I(-1)), []);
  }

  lemma MaskTyped(t: Ty)
    requires Integral(t)
    ensures WellTyped(BitAnd(t, Load(t, 0), ONE))
  {
    OneTyped();
    assert WellTyped(Load(t, 0));
    hide IntType.Has;
  }
}
