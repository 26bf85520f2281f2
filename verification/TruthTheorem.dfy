/** The converted expression is nonzero exactly when the original is, with the same side effects. */
module TruthTheorem {
  import opened IntTypes
  import opened TruthValue

  predicate Scalar(t: Ty) {
    match t
    case TInt(i) => i.prec >= 1
    case TReal(_) => true
    case TReference(i) => i.prec >= 1
    case TComplex(_) => false
  }

  predicate Integral(t: Ty) { t.TInt? && t.t.prec >= 1 }

  predicate Part(t: Ty) { Integral(t) || t.TReal? }

  predicate ValidType(t: Ty) { Scalar(t) || (t.TComplex? && Part(t.elem)) }

  /** What the front end guarantees of the trees it builds. */
  predicate WellTyped(e: Expr) {
    match e
    case IntCst(t, v) => Integral(t) && t.t.Has(v)
    case RealCst(t, _) => t.TReal?
    case Load(t, _) => ValidType(t)
    case Call(t, _) => ValidType(t)
    case Compare(_, a, b) => WellTyped(a) && WellTyped(b) && TypeOf(a).TComplex? == TypeOf(b).TComplex?
    case Logical(_, a, b) => WellTyped(a) && WellTyped(b)
    case AddressOf(t, a) => WellTyped(a) && Integral(t) && t.t.Has(1)
    case Complex(t, a, b) =>
      WellTyped(a) && WellTyped(b) && t.TComplex? && Part(t.elem) && TypeOf(a) == t.elem == TypeOf(b)
    case RealPart(a) => WellTyped(a) && TypeOf(a).TComplex?
    case ImagPart(a) => WellTyped(a) && TypeOf(a).TComplex?
    case Negate(a) => WellTyped(a)
    case Abs(a) => WellTyped(a) && Scalar(TypeOf(a))
    case Ffs(a) => WellTyped(a) && Integral(TypeOf(a))
    case Float(t, a) => WellTyped(a) && t.TReal? && Integral(TypeOf(a))
    case Rotate(_, a, n) => WellTyped(a) && WellTyped(n) && Integral(TypeOf(a)) && Integral(TypeOf(n))
    case Cond(c, a, b) => WellTyped(c) && WellTyped(a) && WellTyped(b) && TypeOf(a) == TypeOf(b)
    case Convert(t, _, a) => WellTyped(a) && Scalar(t) && Scalar(TypeOf(a)) && t.TReal? == TypeOf(a).TReal?
    case Minus(t, a, b) => WellTyped(a) && WellTyped(b) && SameKind(t, TypeOf(a), TypeOf(b))
    case BitXor(t, a, b) => WellTyped(a) && WellTyped(b) && Integral(t) && SameKind(t, TypeOf(a), TypeOf(b))
    case BitAnd(t, a, b) => WellTyped(a) && WellTyped(b) && Integral(t) && Integral(TypeOf(a)) && Integral(TypeOf(b))
    case Compound(a, b) => WellTyped(a) && WellTyped(b)
  }

  /** Operands of a difference: integers of the precision of the result, or reals or complex
      values of one type. */
  predicate SameKind(t: Ty, a: Ty, b: Ty) {
    match t
    case TInt(i) => Integral(t) && Integral(a) && Integral(b) && a.t.prec == i.prec == b.t.prec
    case TReal(_) => a.TReal? && a == b
    case TComplex(_) => ValidType(t) && a == t == b
    case TReference(_) => false
  }

  lemma {:induction false} TypesValid(e: Expr)
    requires WellTyped(e)
    ensures ValidType(TypeOf(e))
  {
    match e
    case Negate(a) => TypesValid(a);
    case Abs(a) => TypesValid(a);
    case RealPart(a) => TypesValid(a);
    case ImagPart(a) => TypesValid(a);
    case Ffs(a) => TypesValid(a);
    case Rotate(_, a, _) => TypesValid(a);
    case Cond(_, a, _) => TypesValid(a);
    case Compound(_, b) => TypesValid(b);
    case _ =>
  }

  lemma ConvertTyped(t: Ty, v: Value)
    requires Scalar(t) && (if t.TReal? then v.R? else v.I?)
    ensures HasType(ConvertValue(t, v), t)
  {
    if t.TInt? || t.TReference? {
      ConvertFacts(t.t, v.i);
    }
  }

  lemma ConvertedTyped(narrow: (nat, real) -> real, t: Ty, from: Ty, v: Value)
    requires Scalar(t) && (if t.TReal? then v.R? else v.I?)
    ensures HasType(Converted(narrow, t, from, v), t)
  {
    ConvertTyped(t, v);
    hide ConvertValue;
  }

  lemma ZeroTyped(t: Ty)
    requires ValidType(t)
    ensures HasType(ZeroOf(t), t)
  {
    if t.TComplex? {
      ZeroTyped(t.elem);
    } else if t.TInt? || t.TReference? {
      TypeRange(t.t);
    }
  }

  lemma {:induction false} NegateTyped(t: Ty, v: Value)
    requires ValidType(t) && HasType(v, t)
    ensures HasType(NegateValue(t, v), t)
    decreases t
  {
    if t.TComplex? {
      NegateTyped(t.elem, v.re);
      NegateTyped(t.elem, v.im);
    } else if v.I? {
      ConvertTyped(t, I(-v.i));
    }
  }

  lemma {:induction false} MinusTyped(minus: (real, real) -> real, t: Ty, a: Value, b: Value)
    requires ValidType(t) && !t.TReference? &&
      (if t.TComplex? then HasType(a, t) && HasType(b, t) else if t.TReal? then a.R? && b.R? else a.I? && b.I?)
    ensures HasType(MinusValue(minus, t, a, b), t)
    decreases t
  {
    if t.TComplex? {
      MinusTyped(minus, t.elem, a.re, b.re);
      MinusTyped(minus, t.elem, a.im, b.im);
    } else if a.I? {
      ConvertTyped(t, I(a.i - b.i));
    }
  }

  lemma RotateTyped(left: bool, t: Ty, v: Value, n: Value)
    requires Integral(t) && HasType(v, t)
    ensures HasType(RotateValue(left, t, v, n), t)
  {
    if n.I? {
      var p := t.t.prec;
      var k: nat := n.i % p;
      RotatedInRange(t.t, v.i);
      var u := if v.i >= 0 then v.i else v.i + Pow2(p);
      ConvertFacts(t.t, RotateBits(u, p, if left then k else p - k));
    }
  }

  lemma BitTyped(t: Ty, v: Value, w: Value, xor: bool)
    requires Integral(t) && v.I? && w.I?
    ensures HasType(BitValue(t, v, w, xor), t)
  {
    ConvertTyped(t, I(if xor then XorBits(t.t.prec, v.i, w.i) else AndBits(t.t.prec, v.i, w.i)));
  }

  lemma BoolTyped(b: bool)
    ensures HasType(Bool(b), INTEGER_TYPE)
  {
    TypeRange(IntType(32, false));
    Pow2Monotone(1, 31);
  }

  /** Evaluation yields values of the expression's type. */
  lemma {:induction false} EvalTyped(e: Expr, o: Oracle, s: seq<nat>)
    requires WellTyped(e)
    ensures HasType(Eval(e, o, s).0, TypeOf(e))
    decreases e, 1
  {
    match e
    case IntCst(_, _) =>
    case RealCst(_, _) =>
    case Load(t, _) => ZeroTyped(t);
    case Call(t, _) => ZeroTyped(t);
    case AddressOf(_, _) =>
    case Compare(r, a, b) => BoolTyped(Related(r, Eval(a, o, s).0, Eval(b, o, Eval(a, o, s).1).0));
    case Logical(_, _, _) => BoolTyped(true); BoolTyped(false);
    case Complex(_, a, b) => EvalTyped(a, o, s); EvalTyped(b, o, Eval(a, o, s).1);
    case Cond(c, a, b) => EvalTyped(a, o, Eval(c, o, s).1); EvalTyped(b, o, Eval(c, o, s).1);
    case Compound(a, b) => EvalTyped(b, o, Eval(a, o, s).1);
    case RealPart(_) => UnaryTyped(e, o, s);
    case ImagPart(_) => UnaryTyped(e, o, s);
    case Negate(_) => UnaryTyped(e, o, s);
    case Abs(_) => UnaryTyped(e, o, s);
    case Ffs(_) => UnaryTyped(e, o, s);
    case Float(_, _) => UnaryTyped(e, o, s);
    case Convert(_, _, _) => UnaryTyped(e, o, s);
    case Rotate(_, _, _) => BinaryTyped(e, o, s);
    case Minus(_, _, _) => BinaryTyped(e, o, s);
    case BitXor(_, _, _) => BinaryTyped(e, o, s);
    case BitAnd(_, _, _) => BinaryTyped(e, o, s);
  }

  lemma {:induction false} UnaryTyped(e: Expr, o: Oracle, s: seq<nat>)
    requires WellTyped(e)
    requires e.RealPart? || e.ImagPart? || e.Negate? || e.Abs? || e.Ffs? || e.Float? || e.Convert?
    ensures HasType(Eval(e, o, s).0, TypeOf(e))
    decreases e, 0
  {
    TypesValid(e);
    match e
    case RealPart(a) => EvalTyped(a, o, s);
    case ImagPart(a) => EvalTyped(a, o, s);
    case Negate(a) => EvalTyped(a, o, s); NegateTyped(TypeOf(a), Eval(a, o, s).0);
    case Abs(a) =>
      EvalTyped(a, o, s);
      var v := Eval(a, o, s).0;
      if v.I? { ConvertTyped(TypeOf(a), I(if v.i < 0 then -v.i else v.i)); }
    case Ffs(a) => EvalTyped(a, o, s); ConvertTyped(TypeOf(a), I(LowestBit(Eval(a, o, s).0.i)));
    case Float(_, _) =>
    case Convert(t, _, a) => EvalTyped(a, o, s); ConvertedTyped(o.narrow, t, TypeOf(a), Eval(a, o, s).0);
  }

  lemma {:induction false} BinaryTyped(e: Expr, o: Oracle, s: seq<nat>)
    requires WellTyped(e) && (e.Rotate? || e.Minus? || e.BitXor? || e.BitAnd?)
    ensures HasType(Eval(e, o, s).0, TypeOf(e))
    decreases e, 0
  {
    match e
    case Rotate(left, a, n) =>
      var s1 := Eval(n, o, s).1;
      EvalTyped(a, o, s1);
      RotateTyped(left, TypeOf(a), Eval(a, o, s1).0, Eval(n, o, s).0);
    case Minus(t, a, b) =>
      var s1 := Eval(a, o, s).1;
      EvalTyped(a, o, s);
      EvalTyped(b, o, s1);
      MinusTyped(o.minus, t, Eval(a, o, s).0, Eval(b, o, s1).0);
    case BitXor(t, a, b) =>
      var s1 := Eval(a, o, s).1;
      EvalTyped(a, o, s);
      EvalTyped(b, o, s1);
      BitTyped(t, Eval(a, o, s).0, Eval(b, o, s1).0, true);
    case BitAnd(t, a, b) =>
      var s1 := Eval(a, o, s).1;
      EvalTyped(a, o, s);
      EvalTyped(b, o, s1);
      BitTyped(t, Eval(a, o, s).0, Eval(b, o, s1).0, false);
  }

  lemma {:induction false} NoSideEffects(e: Expr, o: Oracle, s: seq<nat>)
    requires !SideEffects(e)
    ensures Eval(e, o, s).1 == s
  {
    match e
    case IntCst(_, _) =>
    case RealCst(_, _) =>
    case Load(_, _) =>
    case Compare(_, a, b) => NoSideEffects(a, o, s); NoSideEffects(b, o, s);
    case Logical(_, a, b) => NoSideEffects(a, o, s); NoSideEffects(b, o, s);
    case AddressOf(_, a) => NoSideEffects(a, o, s);
    case Complex(_, a, b) => NoSideEffects(a, o, s); NoSideEffects(b, o, s);
    case RealPart(a) => NoSideEffects(a, o, s);
    case ImagPart(a) => NoSideEffects(a, o, s);
    case Negate(a) => NoSideEffects(a, o, s);
    case Abs(a) => NoSideEffects(a, o, s);
    case Ffs(a) => NoSideEffects(a, o, s);
    case Float(_, a) => NoSideEffects(a, o, s);
    case Rotate(_, a, n) => NoSideEffects(n, o, s); NoSideEffects(a, o, s);
    case Cond(c, a, b) => NoSideEffects(c, o, s); NoSideEffects(a, o, s); NoSideEffects(b, o, s);
    case Convert(_, _, a) => NoSideEffects(a, o, s);
    case Minus(_, a, b) => NoSideEffects(a, o, s); NoSideEffects(b, o, s);
    case BitXor(_, a, b) => NoSideEffects(a, o, s); NoSideEffects(b, o, s);
    case BitAnd(_, a, b) => NoSideEffects(a, o, s); NoSideEffects(b, o, s);
    case Compound(a, b) => NoSideEffects(a, o, s); NoSideEffects(b, o, s);
  }

  // ---------------------------------------------------------------- operations and zero

  /** A value of a type no wider than `t` converts to zero only if it is zero. */
  lemma ConvertZero(t: IntType, u: IntType, v: int)
    requires t.prec >= 1 && u.prec >= 1 && u.Has(v) && t.prec >= u.prec
    ensures t.Convert(v) == 0 <==> v == 0
  {
    TypeRange(t);
    ConvertFacts(t, 0);
    TypeRange(u);
    Pow2Monotone(u.prec, t.prec);
    ConvertIff(t, v, 0);
    if t.Convert(v) == 0 {
      if v >= 0 {
        CongruentUnique(v, 0, Pow2(t.prec), Pow2(t.prec) - 1);
      } else {
        CongruentUnique(v, 0, Pow2(t.prec), 0);
      }
    }
  }

  /** So does a value within one period of zero. */
  lemma PeriodZero(t: IntType, v: int)
    requires t.prec >= 1 && -Pow2(t.prec) < v < Pow2(t.prec)
    ensures t.Convert(v) == 0 <==> v == 0
  {
    TypeRange(t);
    ConvertFacts(t, 0);
    ConvertIff(t, v, 0);
    if t.Convert(v) == 0 {
      if v >= 0 {
        CongruentUnique(v, 0, Pow2(t.prec), Pow2(t.prec) - 1);
      } else {
        CongruentUnique(v, 0, Pow2(t.prec), 0);
      }
    }
  }

  lemma WithinPeriod(t: IntType, v: int)
    requires t.prec >= 1 && t.Has(v)
    ensures -Pow2(t.prec) < v < Pow2(t.prec) && -Pow2(t.prec) < -v < Pow2(t.prec)
  {
    TypeRange(t);
    if t.uns {
    } else {
      SignedHalf(t.prec);
    }
  }

  lemma SignedHalf(p: nat)
    requires p >= 1
    ensures Pow2(p) == 2 * Pow2(p - 1)
  {
  }

  lemma {:induction false} NegateZero(t: Ty, v: Value)
    requires ValidType(t) && HasType(v, t)
    ensures Nonzero(NegateValue(t, v)) == Nonzero(v)
    decreases t
  {
    match v
    case Z(a, b) => NegateZero(t.elem, a); NegateZero(t.elem, b);
    case I(i) => WithinPeriod(t.t, i); PeriodZero(t.t, -i);
    case R(_) =>
  }

  lemma AbsZero(t: Ty, v: Value)
    requires Scalar(t) && HasType(v, t)
    ensures Nonzero(AbsValue(t, v)) == Nonzero(v)
  {
    if v.I? {
      WithinPeriod(t.t, v.i);
      PeriodZero(t.t, if v.i < 0 then -v.i else v.i);
    }
  }

  lemma {:induction false} LowestBitBound(i: int, p: nat)
    requires i != 0 && -Pow2(p) < i < Pow2(p)
    ensures 1 <= LowestBit(i) <= p
    decreases p
  {
    if i % 2 == 0 {
      LowestBitBound(i / 2, p - 1);
    }
  }

  lemma {:induction false} PowerExceeds(p: nat)
    ensures p < Pow2(p)
  {
    if p > 0 {
      PowerExceeds(p - 1);
    }
  }

  lemma FfsZero(t: IntType, v: int)
    requires t.prec >= 1 && t.Has(v)
    ensures t.Convert(LowestBit(v)) == 0 <==> v == 0
  {
    WithinPeriod(t, v);
    PowerExceeds(t.prec);
    if v != 0 {
      LowestBitBound(v, t.prec);
    }
    hide Pow2, IntType.Convert;
    PeriodZero(t, LowestBit(v));
  }

  lemma ConvertValueZero(t: Ty, u: Ty, v: Value)
    requires Scalar(t) && Scalar(u) && HasType(v, u) && Precision(t) >= Precision(u)
    ensures Nonzero(ConvertValue(t, v)) == Nonzero(v)
    ensures t.TReal? == u.TReal? ==> forall narrow :: Converted(narrow, t, u, v) == ConvertValue(t, v)
  {
    if v.I? && !t.TReal? {
      ConvertZero(t.t, u.t, v.i);
    }
  }

  lemma RotateZero(left: bool, t: Ty, v: Value, n: Value)
    requires Integral(t) && HasType(v, t) && n.I?
    ensures Nonzero(RotateValue(left, t, v, n)) == Nonzero(v)
  {
    var p := t.t.prec;
    var k: nat := n.i % p;
    RotatedInRange(t.t, v.i);
    WithinPeriod(t.t, v.i);
    var u := if v.i >= 0 then v.i else v.i + Pow2(p);
    var k' := if left then k else p - k;
    RotateBitsZero(u, p, k');
    hide Pow2, IntType.Convert, RotateBits;
    PeriodZero(t.t, RotateBits(u, p, k'));
  }

  lemma RotateBitsZero(u: nat, p: nat, k: nat)
    requires k <= p && u < Pow2(p)
    ensures 0 <= RotateBits(u, p, k) < Pow2(p)
    ensures RotateBits(u, p, k) == 0 <==> u == 0
  {
    Pow2Add(p - k, k);
    var m, n := Pow2(p - k), Pow2(k);
    assert m * n == Times(n, m);
    Quotient(u, m);
    hide Pow2;
    RotateParts(u / m, u % m, m, n);
  }

  lemma Quotient(u: nat, m: int)
    requires m >= 1
    ensures u == Times(u / m, m) + u % m && 0 <= u % m < m && 0 <= u / m
  {
  }

  /** `q` and `r` exchanged, for `q * m + r` below `n * m`. */
  lemma RotateParts(q: int, r: int, m: int, n: int)
    requires m >= 1 && n >= 1 && 0 <= q && 0 <= r < m && Times(q, m) + r < Times(n, m)
    ensures 0 <= Times(r, n) + q < Times(n, m)
    ensures Times(r, n) + q == 0 <==> Times(q, m) + r == 0
  {
    hide Times;
    TimesMonotone(n, q, m);
    TimesMonotone(r + 1, m, n);
    TimesOne(r, n);
    TimesOne(q, m);
    TimesSwap(m, n);
    TimesPositive(r, n);
    TimesPositive(q, m);
  }

  lemma TimesOne(a: int, n: int)
    ensures Times(a + 1, n) == Times(a, n) + n && Times(0, n) == 0
  {
  }

  lemma TimesSwap(a: int, b: int)
    ensures Times(a, b) == Times(b, a)
  {
  }

  lemma TimesPositive(a: int, n: int)
    requires a >= 0 && n >= 1
    ensures Times(a, n) >= a
  {
  }

  lemma TimesMonotone(a: int, b: int, n: int)
    requires n >= 0
    ensures a <= b ==> Times(a, n) <= Times(b, n)
  {
  }

  // ---------------------------------------------------------------- differences

  lemma {:induction false} XorZero(n: nat, a: int, b: int)
    ensures 0 <= XorBits(n, a, b) < Pow2(n)
    ensures XorBits(n, a, b) == 0 <==> Congruent(a, b, Pow2(n))
    decreases n
  {
    if n == 0 {
      Distribute(1, 0, 1);
      UnitCongruent(a, b);
    } else {
      XorZero(n - 1, a / 2, b / 2);
      HalvesCongruent(a, b, Pow2(n - 1));
    }
  }

  lemma UnitCongruent(a: int, b: int)
    ensures Congruent(a, b, 1)
  {
    assert a == b + Times(a - b, 1);
  }

  lemma HalvesCongruent(a: int, b: int, m: int)
    requires m >= 1
    ensures Congruent(a, b, 2 * m) <==> (a % 2 == b % 2 && Congruent(a / 2, b / 2, m))
  {
    if Congruent(a, b, 2 * m) {
      var k :| a == b + Times(k, 2 * m);
      TimesTwo(k, m);
      assert a / 2 == b / 2 + Times(k, m);
    }
    if a % 2 == b % 2 && Congruent(a / 2, b / 2, m) {
      var k :| a / 2 == b / 2 + Times(k, m);
      TimesTwo(k, m);
      assert a == b + Times(k, 2 * m);
    }
  }

  lemma TimesTwo(k: int, m: int)
    ensures Times(k, 2 * m) == 2 * Times(k, m)
  {
  }

  /** The difference of two integers of the precision of `t`, by subtraction or exclusive or. */
  lemma DifferenceZero(t: IntType, a: int, b: int)
    requires t.prec >= 1
    ensures t.Convert(a - b) == 0 <==> Congruent(a, b, Pow2(t.prec))
    ensures t.Convert(XorBits(t.prec, a, b)) == 0 <==> Congruent(a, b, Pow2(t.prec))
  {
    TypeRange(t);
    ConvertFacts(t, 0);
    ConvertIff(t, a - b, 0);
    var m := Pow2(t.prec);
    if Congruent(a - b, 0, m) {
      var k :| a - b == 0 + Times(k, m);
      assert a == b + Times(k, m);
    }
    if Congruent(a, b, m) {
      var k :| a == b + Times(k, m);
      assert a - b == 0 + Times(k, m);
    }
    XorZero(t.prec, a, b);
    hide Pow2, IntType.Convert, Congruent;
    PeriodZero(t, XorBits(t.prec, a, b));
  }

  /** Values of integer types of one precision are congruent exactly when one is the conversion of the
      other to its type. */
  lemma CongruentValues(t: IntType, u: IntType, a: int, b: int)
    requires t.prec == u.prec >= 1 && t.Has(a) && u.Has(b)
    ensures Congruent(a, b, Pow2(t.prec)) <==> a == t.Convert(b)
    ensures t == u ==> t.Convert(b) == b
  {
    ConvertIff(t, a, b);
    ConvertFacts(t, a);
    ConvertFacts(u, b);
  }

  predicate HasReals(t: Ty) {
    match t
    case TReal(_) => true
    case TComplex(elem) => HasReals(elem)
    case _ => false
  }

  lemma {:induction false} MinusZero(o: Oracle, t: Ty, v: Value, w: Value)
    requires ValidType(t) && HasType(v, t) && HasType(w, t) && !t.TReference? && (Exact(o) || !HasReals(t))
    ensures Nonzero(MinusValue(o.minus, t, v, w)) == !SameValue(v, w)
    decreases t
  {
    hide IntType.Convert, XorBits;
    match v
    case Z(a, b) => MinusZero(o, t.elem, a, w.re); MinusZero(o, t.elem, b, w.im);
    case R(_) =>
    case I(i) => DifferenceZero(t.t, i, w.i); CongruentValues(t.t, t.t, i, w.i);
  }

  // ---------------------------------------------------------------- main result

  /** The evaluation reaches a complex operand that the conversion compares part by part, and this
      operand makes a call, which the converted expression makes twice. */
  predicate Repeats(e: Expr, ieee: bool, o: Oracle, s: seq<nat>) {
    match e
    case Complex(_, a, b) => Repeats(a, ieee, o, s) || Repeats(b, ieee, o, Eval(a, o, s).1)
    case Negate(a) => Repeats(a, ieee, o, s)
    case Abs(a) => Repeats(a, ieee, o, s)
    case Float(_, a) => Repeats(a, ieee, o, s)
    case Ffs(a) => Repeats(a, ieee, o, s)
    case Rotate(_, a, n) => Repeats(a, ieee, o, Eval(n, o, s).1)
    case Cond(c, a, b) =>
      var (v, s1) := Eval(c, o, s);
      if Nonzero(v) then Repeats(a, ieee, o, s1) else Repeats(b, ieee, o, s1)
    case Convert(_, _, a) => Transparent(e) && Repeats(a, ieee, o, s)
    case Call(t, _) => t.TComplex?
    case Compound(_, b) => TypeOf(b).TComplex? && Eval(e, o, s).1 != s
    case Compare(_, _, _) => false
    case Logical(_, _, _) => false
    case IntCst(_, _) => false
    case RealCst(_, _) => false
    case AddressOf(_, _) => false
    case Minus(_, _, _) => false
    case BitXor(_, _, _) => false
    case BitAnd(_, _, _) => false
    case Load(_, _) => false
    case RealPart(_) => false
    case ImagPart(_) => false
  }

  /** A difference of reals, or of complex values with real parts, is replaced by a comparison. */
  predicate Replaces(e: Expr, ieee: bool) {
    match e
    case Complex(_, a, b) => Replaces(a, ieee) || Replaces(b, ieee)
    case Negate(a) => Replaces(a, ieee)
    case Abs(a) => Replaces(a, ieee)
    case Float(_, a) => Replaces(a, ieee)
    case Ffs(a) => Replaces(a, ieee)
    case Rotate(_, a, _) => Replaces(a, ieee)
    case Cond(_, a, b) => Replaces(a, ieee) || Replaces(b, ieee)
    case Convert(_, _, a) => Transparent(e) && Replaces(a, ieee)
    case Minus(t, _, _) => HasReals(t) && !(ieee && t.TReal?)
    case _ => false
  }

  /** Same side effects, and zero or nonzero alike. */
  ghost predicate Same(e: Expr, t: Expr, o: Oracle, s: seq<nat>) {
    Eval(e, o, s).1 == Eval(t, o, s).1 && Nonzero(Eval(e, o, s).0) == Nonzero(Eval(t, o, s).0)
  }

  lemma AgainstZeroSame(e: Expr, o: Oracle, s: seq<nat>)
    requires WellTyped(e) && (TypeOf(e).TComplex? ==> Eval(e, o, s).1 == s)
    ensures Same(e, AgainstZero(e), o, s)
  {
    TypesValid(e);
    EvalTyped(e, o, s);
    hide WellTyped, SideEffects, TypeOf, Eval, Related;
    if TypeOf(e).TComplex? {
      PartsAgainstZero(e, o, s);
    } else {
      EvalAgainstZero(e, o, s);
      PartAgainstZero(Eval(e, o, s).0);
    }
  }

  lemma EvalAgainstZero(e: Expr, o: Oracle, s: seq<nat>)
    ensures var (v, s1) := Eval(e, o, s); Eval(Compare(NotEqual, e, ZERO), o, s) == (Bool(Related(NotEqual, v, I(0))), s1)
  {
    assert Eval(ZERO, o, Eval(e, o, s).1) == (I(0), Eval(e, o, s).1);
    hide Related;
  }

  lemma PartsAgainstZero(e: Expr, o: Oracle, s: seq<nat>)
    requires Eval(e, o, s).0.Z? && Eval(e, o, s).1 == s && TypeOf(e).TComplex?
    requires !Eval(e, o, s).0.re.Z? && !Eval(e, o, s).0.im.Z?
    ensures Same(e, AgainstZero(e), o, s)
  {
    hide SideEffects, TypeOf, Related;
    var v := Eval(e, o, s).0;
    var re, im := Compare(NotEqual, RealPart(e), ZERO), Compare(NotEqual, ImagPart(e), ZERO);
    assert Eval(ZERO, o, s) == (I(0), s);
    assert Eval(RealPart(e), o, s) == (v.re, s) && Eval(ImagPart(e), o, s) == (v.im, s);
    PartAgainstZero(v.re);
    PartAgainstZero(v.im);
    assert Eval(re, o, s) == (Bool(Nonzero(v.re)), s);
    assert Eval(im, o, s) == (Bool(Nonzero(v.im)), s);
  }

  lemma PartAgainstZero(v: Value)
    ensures !v.Z? ==> Related(NotEqual, v, I(0)) == Nonzero(v)
  {
  }

  /** A difference of two values against the comparison that replaces it. */
  lemma DifferenceValues(o: Oracle, t: Ty, ta: Ty, tb: Ty, v: Value, w: Value, xor: bool)
    requires SameKind(t, ta, tb) && HasType(v, ta) && HasType(w, tb) && (xor ==> t.TInt?)
    requires Exact(o) || !HasReals(t)
    ensures Nonzero(if xor then BitValue(t, v, w, true) else MinusValue(o.minus, t, v, w)) ==
            Related(NotEqual, v, if ta == tb then w else Converted(o.narrow, ta, tb, w))
  {
    if t.TInt? {
      DifferenceZero(t.t, v.i, w.i);
      CongruentValues(ta.t, tb.t, v.i, w.i);
      hide XorBits, IntType.Convert;
      IntDifference(v.i, w.i);
      IntDifference(v.i, ta.t.Convert(w.i));
    } else if t.TComplex? {
      MinusZero(o, t, v, w);
    } else {
      RealDifference(o, v, w);
    }
  }

  lemma EvalOfDiffer(a: Expr, b: Expr, o: Oracle, s: seq<nat>)
    ensures var (v, s1) := Eval(a, o, s);
      var (w, s2) := Eval(b, o, s1);
      Eval(Differ(a, b), o, s) ==
      (Bool(Related(NotEqual, v, if TypeOf(a) == TypeOf(b) then w else Converted(o.narrow, TypeOf(a), TypeOf(b), w))), s2)
  {
    hide Related, Converted, TypeOf;
  }

  lemma EvalOfDifference(e: Expr, a: Expr, b: Expr, o: Oracle, s: seq<nat>)
    requires (e.Minus? && a == e.left && b == e.right) || (e.BitXor? && a == e.left && b == e.right)
    ensures var (v, s1) := Eval(a, o, s);
      var (w, s2) := Eval(b, o, s1);
      Eval(e, o, s) == (if e.BitXor? then BitValue(e.ty, v, w, true) else MinusValue(o.minus, e.ty, v, w), s2)
  {
    hide BitValue, MinusValue;
  }

  lemma DifferSame(e: Expr, a: Expr, b: Expr, o: Oracle, s: seq<nat>)
    requires WellTyped(e) && ((e.Minus? && a == e.left && b == e.right) || (e.BitXor? && a == e.left && b == e.right))
    requires Exact(o) || !HasReals(e.ty)
    ensures Same(e, Differ(a, b), o, s)
  {
    var (v, s1) := Eval(a, o, s);
    var (w, s2) := Eval(b, o, s1);
    EvalOfDiffer(a, b, o, s);
    EvalOfDifference(e, a, b, o, s);
    EvalTyped(a, o, s);
    EvalTyped(b, o, s1);
    hide HasType, SameKind, Related, MinusValue, BitValue, Converted, TypeOf, Eval, Differ;
    DifferenceValues(o, e.ty, TypeOf(a), TypeOf(b), v, w, e.BitXor?) by {
      assert e.BitXor? ==> Integral(e.ty);
    }
  }

  lemma IntDifference(a: int, b: int)
    ensures Related(NotEqual, I(a), I(b)) == (a != b)
  {
  }

  lemma RealDifference(o: Oracle, v: Value, w: Value)
    requires v.R? && w.R? && Exact(o)
    ensures Related(NotEqual, v, w) == (o.minus(v.r, w.r) != 0.0)
  {
  }

  /** Trees whose operands the conversion leaves alone. */
  predicate Leaf(e: Expr) {
    !(e.Complex? || e.Negate? || e.Abs? || e.Float? || e.Ffs? || e.Rotate? || e.Cond? || e.Convert?)
  }

  lemma LeafSame(e: Expr, ieee: bool, o: Oracle, s: seq<nat>)
    requires WellTyped(e) && Leaf(e) && !Repeats(e, ieee, o, s) && (Exact(o) || !Replaces(e, ieee))
    ensures Same(e, ToTruth(e, ieee), o, s)
  {
    hide Same, Eval, AgainstZero, Differ, SameKind;
    match e
    case Compare(_, _, _) => SameItself(e, o, s);
    case Logical(_, _, _) => SameItself(e, o, s);
    case IntCst(_, _) => ConstantSame(e, ieee, o, s);
    case RealCst(_, _) => ConstantSame(e, ieee, o, s);
    case AddressOf(_, a) => AddressSame(e, ieee, o, s);
    case Minus(_, a, b) => if ieee && e.ty.TReal? { AgainstZeroSame(e, o, s); } else { DifferSame(e, a, b, o, s); }
    case BitXor(_, a, b) => DifferSame(e, a, b, o, s);
    case BitAnd(_, _, b) => if b.IntCst? && b.value == 1 { SameItself(e, o, s); } else { AgainstZeroSame(e, o, s); }
    case Load(_, _) => LoadKeeps(e, o, s); AgainstZeroSame(e, o, s);
    case Call(_, _) => AgainstZeroSame(e, o, s);
    case RealPart(_) => PartNotComplex(e); AgainstZeroSame(e, o, s);
    case ImagPart(_) => PartNotComplex(e); AgainstZeroSame(e, o, s);
    case Compound(_, _) => AgainstZeroSame(e, o, s);
  }

  lemma LoadKeeps(e: Expr, o: Oracle, s: seq<nat>)
    requires e.Load?
    ensures Eval(e, o, s).1 == s
  {
  }

  lemma SameItself(e: Expr, o: Oracle, s: seq<nat>)
    ensures Same(e, e, o, s)
  {
  }

  lemma ConstantSame(e: Expr, ieee: bool, o: Oracle, s: seq<nat>)
    requires e.IntCst? || e.RealCst?
    ensures Same(e, ToTruth(e, ieee), o, s)
  {
  }

  /** Main theorem.  The converted expression is nonzero exactly when the original is, and has the same
      side effects in the same order, unless a complex operand that makes a call is reached and evaluated
      twice, or a difference is replaced that is not zero for equal operands alone. */
  lemma {:induction false} TruthPreserved(e: Expr, ieee: bool, o: Oracle, s: seq<nat>)
    requires WellTyped(e) && !Repeats(e, ieee, o, s) && (Exact(o) || !Replaces(e, ieee))
    ensures Same(e, ToTruth(e, ieee), o, s)
    decreases e, 1
  {
    if Leaf(e) {
      LeafSame(e, ieee, o, s);
    } else if e.Complex? {
      ComplexSame(e, ieee, o, s);
    } else if e.Cond? {
      var (v, s1) := Eval(e.test, o, s);
      TruthPreserved(if Nonzero(v) then e.yes else e.no, ieee, o, s1);
      hide WellTyped, Repeats;
    } else if e.Rotate? {
      TruthPreserved(e.arg, ieee, o, Eval(e.count, o, s).1);
      RotateSame(e, ToTruth(e.arg, ieee), ieee, o, s);
      hide Same, Eval;
    } else if e.Convert? && !Transparent(e) {
      AgainstZeroSame(e, o, s);
    } else {
      TruthPreserved(e.arg, ieee, o, s);
      UnaryZero(e, e.arg, o, s);
      hide Eval;
    }
  }

  /** The operations under which the truth value is taken do not turn a value into zero, or zero into
      another value. */
  lemma UnaryZero(e: Expr, a: Expr, o: Oracle, s: seq<nat>)
    requires WellTyped(e) && (e.Negate? || e.Abs? || e.Float? || e.Ffs? || (e.Convert? && Transparent(e))) && a == e.arg
    ensures Same(e, a, o, s)
  {
    hide WellTyped, Eval;
    match e
    case Negate(_) => NegateSame(e, o, s);
    case Abs(_) => AbsSame(e, o, s);
    case Float(_, _) => FloatSame(e, o, s);
    case Ffs(_) => FfsSame(e, o, s);
    case Convert(_, _, _) => ConvertSame(e, o, s);
  }

  lemma NegateSame(e: Expr, o: Oracle, s: seq<nat>)
    requires WellTyped(e) && e.Negate?
    ensures Same(e, e.arg, o, s)
  {
    hide HasType, NegateValue, TypeOf;
    EvalTyped(e.arg, o, s);
    TypesValid(e.arg);
    NegateZero(TypeOf(e.arg), Eval(e.arg, o, s).0);
  }

  lemma AbsSame(e: Expr, o: Oracle, s: seq<nat>)
    requires WellTyped(e) && e.Abs?
    ensures Same(e, e.arg, o, s)
  {
    hide HasType, AbsValue, TypeOf;
    EvalTyped(e.arg, o, s);
    AbsZero(TypeOf(e.arg), Eval(e.arg, o, s).0);
  }

  lemma FloatSame(e: Expr, o: Oracle, s: seq<nat>)
    requires WellTyped(e) && e.Float?
    ensures Same(e, e.arg, o, s)
  {
    hide HasType, TypeOf;
    EvalTyped(e.arg, o, s);
    FloatZero(Eval(e.arg, o, s).0, TypeOf(e.arg));
  }

  lemma FfsSame(e: Expr, o: Oracle, s: seq<nat>)
    requires WellTyped(e) && e.Ffs?
    ensures Same(e, e.arg, o, s)
  {
    hide LowestBit, TypeOf, IntType.Convert;
    EvalTyped(e.arg, o, s);
    FfsZero(TypeOf(e.arg).t, Eval(e.arg, o, s).0.i);
  }

  lemma ConvertSame(e: Expr, o: Oracle, s: seq<nat>)
    requires WellTyped(e) && e.Convert? && Transparent(e)
    ensures Same(e, e.arg, o, s)
  {
    hide HasType, ConvertValue, Converted, TypeOf;
    EvalTyped(e.arg, o, s);
    ConvertValueZero(e.ty, TypeOf(e.arg), Eval(e.arg, o, s).0);
  }

  lemma NoEffectsIfPure(e: Expr, o: Oracle, s: seq<nat>)
    ensures !SideEffects(e) ==> Eval(e, o, s).1 == s
  {
    if !SideEffects(e) {
      NoSideEffects(e, o, s);
    }
  }

  lemma AddressSame(e: Expr, ieee: bool, o: Oracle, s: seq<nat>)
    requires e.AddressOf?
    ensures Same(e, ToTruth(e, ieee), o, s)
  {
    NoEffectsIfPure(e.object_, o, s);
    var s1 := Eval(e.object_, o, s).1;
    assert Eval(e, o, s) == (I(1), s1);
    assert Eval(ONE, o, s1) == (I(1), s1) && Eval(ONE, o, s) == (I(1), s);
    assert Eval(Compound(e.object_, ONE), o, s) == Eval(ONE, o, s1);
  }

  lemma PartNotComplex(e: Expr)
    requires WellTyped(e) && (e.RealPart? || e.ImagPart?)
    ensures !TypeOf(e).TComplex?
  {
    TypesValid(e.of);
  }

  lemma FloatZero(v: Value, t: Ty)
    requires Integral(t) && HasType(v, t)
    ensures Nonzero(R(AsReal(v))) == Nonzero(v)
  {
  }

  lemma RotateSame(e: Expr, t: Expr, ieee: bool, o: Oracle, s: seq<nat>)
    requires WellTyped(e) && e.Rotate? && t == ToTruth(e.arg, ieee) && Same(e.arg, t, o, Eval(e.count, o, s).1)
    ensures Same(e, ToTruth(e, ieee), o, s)
  {
    var s1 := Eval(e.count, o, s).1;
    EvalTyped(e.count, o, s);
    EvalTyped(e.arg, o, s1);
    RotateZero(e.left_, TypeOf(e.arg), Eval(e.arg, o, s1).0, Eval(e.count, o, s).0);
    NoEffectsIfPure(e.count, o, s);
    hide RotateValue, WellTyped, HasType;
  }

  lemma ComplexSame(e: Expr, ieee: bool, o: Oracle, s: seq<nat>)
    requires WellTyped(e) && e.Complex? && !Repeats(e, ieee, o, s) && (Exact(o) || !Replaces(e, ieee))
    ensures Same(e, ToTruth(e, ieee), o, s)
    decreases e, 0
  {
    hide Same, Eval;
    var a, b := e.realPart, e.imagPart;
    TruthPreserved(a, ieee, o, s);
    TruthPreserved(b, ieee, o, Eval(a, o, s).1);
    hide WellTyped, Repeats;
    PairSame(e.ty, a, b, ToTruth(a, ieee), ToTruth(b, ieee), o, s);
  }

  lemma EvalOfPair(t: Ty, a: Expr, b: Expr, o: Oracle, s: seq<nat>)
    ensures var (v, s1) := Eval(a, o, s);
      var (w, s2) := Eval(b, o, s1);
      Eval(Complex(t, a, b), o, s) == (Z(v, w), s2) && Nonzero(Z(v, w)) == (Nonzero(v) || Nonzero(w))
  {
  }

  lemma EvalOfEither(c: Expr, d: Expr, j: Junction, o: Oracle, s: seq<nat>)
    requires j == Or || j == OrIf
    ensures var (v, s1) := Eval(c, o, s);
      var (w, s2) := Eval(d, o, s1);
      var (x, s3) := Eval(Logical(j, c, d), o, s);
      && Nonzero(x) == (Nonzero(v) || Nonzero(w)) && s3 == if j == OrIf && Nonzero(v) then s1 else s2
  {
  }

  /** A pair is nonzero when one of its parts is; a part without side effects need not be evaluated. */
  lemma PairSame(t: Ty, a: Expr, b: Expr, c: Expr, d: Expr, o: Oracle, s: seq<nat>)
    requires Same(a, c, o, s) && Same(b, d, o, Eval(a, o, s).1)
    ensures Same(Complex(t, a, b), Logical(if SideEffects(b) then Or else OrIf, c, d), o, s)
  {
    hide SideEffects, Eval, Nonzero;
    NoEffectsIfPure(b, o, Eval(a, o, s).1);
    EvalOfPair(t, a, b, o, s);
    EvalOfEither(c, d, if SideEffects(b) then Or else OrIf, o, s);
  }
}
