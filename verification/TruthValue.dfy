/**
 Truth values of expressions: `truthvalue_conversion` (m3cc/gcc/c-common.c) as a rewriting of
 expression trees, and an evaluator with side effects to compare the trees by.
 */
module TruthValue {
  import opened IntTypes

  datatype Ty = TInt(t: IntType) | TReal(prec: nat) | TComplex(elem: Ty) | TReference(t: IntType)

  datatype Value = I(i: int) | R(r: real) | Z(re: Value, im: Value)

  datatype Relation = Equal | NotEqual | Less | Greater | LessEqual | GreaterEqual

  datatype Junction = AndIf | OrIf | And | Or | Xor

  /** Expression trees.  `Call` is any operation with a side effect, `Load` any other one that the
      conversion does not look into. */
  datatype Expr =
    | IntCst(ty: Ty, value: int)
    | RealCst(ty: Ty, amount: real)
    | Load(ty: Ty, id: nat)
    | Call(ty: Ty, id: nat)
    | Compare(rel: Relation, left: Expr, right: Expr)
    | Logical(junction: Junction, left: Expr, right: Expr)
    | AddressOf(ty: Ty, object_: Expr)
    | Complex(ty: Ty, realPart: Expr, imagPart: Expr)
    | RealPart(of: Expr)
    | ImagPart(of: Expr)
    | Negate(arg: Expr)
    | Abs(arg: Expr)
    | Ffs(arg: Expr)
    | Float(ty: Ty, arg: Expr)
    | Rotate(left_: bool, arg: Expr, count: Expr)
    | Cond(test: Expr, yes: Expr, no: Expr)
    | Convert(ty: Ty, explicit_: bool, arg: Expr)
    | Minus(ty: Ty, left: Expr, right: Expr)
    | BitXor(ty: Ty, left: Expr, right: Expr)
    | BitAnd(ty: Ty, left: Expr, right: Expr)
    | Compound(first: Expr, second: Expr)

  const INTEGER_TYPE := TInt(IntType(32, false))
  const ONE := IntCst(INTEGER_TYPE, 1)
  const ZERO := IntCst(INTEGER_TYPE, 0)

  function TypeOf(e: Expr): Ty {
    match e
    case IntCst(t, _) => t
    case RealCst(t, _) => t
    case Load(t, _) => t
    case Call(t, _) => t
    case Compare(_, _, _) => INTEGER_TYPE
    case Logical(_, _, _) => INTEGER_TYPE
    case AddressOf(t, _) => t
    case Complex(t, _, _) => t
    case RealPart(a) => Elem(TypeOf(a))
    case ImagPart(a) => Elem(TypeOf(a))
    case Negate(a) => TypeOf(a)
    case Abs(a) => TypeOf(a)
    case Ffs(a) => TypeOf(a)
    case Float(t, _) => t
    case Rotate(_, a, _) => TypeOf(a)
    case Cond(_, a, _) => TypeOf(a)
    case Convert(t, _, _) => t
    case Minus(t, _, _) => t
    case BitXor(t, _, _) => t
    case BitAnd(t, _, _) => t
    case Compound(_, b) => TypeOf(b)
  }

  function Elem(t: Ty): Ty { if t.TComplex? then t.elem else t }

  function Precision(t: Ty): nat {
    match t
    case TInt(i) => i.prec
    case TReal(p) => p
    case TComplex(_) => 0
    case TReference(i) => i.prec
  }

  /** TREE_SIDE_EFFECTS */
  predicate SideEffects(e: Expr) {
    match e
    case Call(_, _) => true
    case IntCst(_, _) => false
    case RealCst(_, _) => false
    case Load(_, _) => false
    case Compare(_, a, b) => SideEffects(a) || SideEffects(b)
    case Logical(_, a, b) => SideEffects(a) || SideEffects(b)
    case AddressOf(_, a) => SideEffects(a)
    case Complex(_, a, b) => SideEffects(a) || SideEffects(b)
    case RealPart(a) => SideEffects(a)
    case ImagPart(a) => SideEffects(a)
    case Negate(a) => SideEffects(a)
    case Abs(a) => SideEffects(a)
    case Ffs(a) => SideEffects(a)
    case Float(_, a) => SideEffects(a)
    case Rotate(_, a, n) => SideEffects(a) || SideEffects(n)
    case Cond(c, a, b) => SideEffects(c) || SideEffects(a) || SideEffects(b)
    case Convert(_, _, a) => SideEffects(a)
    case Minus(_, a, b) => SideEffects(a) || SideEffects(b)
    case BitXor(_, a, b) => SideEffects(a) || SideEffects(b)
    case BitAnd(_, a, b) => SideEffects(a) || SideEffects(b)
    case Compound(a, b) => SideEffects(a) || SideEffects(b)
  }

  // ---------------------------------------------------------------- the conversion

  /** The code after the switch: a comparison with zero, of both parts if the type is complex. */
  function AgainstZero(e: Expr): Expr {
    if TypeOf(e).TComplex? then
      Logical(if SideEffects(e) then Or else OrIf,
              Compare(NotEqual, RealPart(e), ZERO), Compare(NotEqual, ImagPart(e), ZERO))
    else Compare(NotEqual, e, ZERO)
  }

  /** A difference is nonzero when its operands differ. */
  function Differ(a: Expr, b: Expr): Expr {
    if TypeOf(a) == TypeOf(b) then Compare(NotEqual, a, b)
    else Compare(NotEqual, a, Convert(TypeOf(a), false, b))
  }

  /** A conversion that the truth value can be taken underneath. */
  predicate Transparent(e: Expr)
    requires e.Convert?
  {
    && !(e.explicit_ && (e.ty.TReference? || TypeOf(e.arg).TReference?))
    && Precision(e.ty) >= Precision(TypeOf(e.arg))
  }

  function ToTruth(e: Expr, ieee: bool): Expr {
    match e
    case Compare(_, _, _) => e
    case Logical(_, _, _) => e
    case IntCst(_, v) => if v == 0 then ZERO else ONE
    case RealCst(_, r) => if r == 0.0 then ZERO else ONE
    case AddressOf(_, a) => if SideEffects(a) then Compound(a, ONE) else ONE
    case Complex(_, a, b) => Logical(if SideEffects(b) then Or else OrIf, ToTruth(a, ieee), ToTruth(b, ieee))
    case Negate(a) => ToTruth(a, ieee)
    case Abs(a) => ToTruth(a, ieee)
    case Float(_, a) => ToTruth(a, ieee)
    case Ffs(a) => ToTruth(a, ieee)
    case Rotate(_, a, n) => if SideEffects(n) then Compound(n, ToTruth(a, ieee)) else ToTruth(a, ieee)
    case Cond(c, a, b) => Cond(c, ToTruth(a, ieee), ToTruth(b, ieee))
    case Convert(_, _, a) => if Transparent(e) then ToTruth(a, ieee) else AgainstZero(e)
    case Minus(t, a, b) => if ieee && t.TReal? then AgainstZero(e) else Differ(a, b)
    case BitXor(_, a, b) => Differ(a, b)
    case BitAnd(_, _, b) => if b.IntCst? && b.value == 1 then e else AgainstZero(e)
    case Load(_, _) => AgainstZero(e)
    case Call(_, _) => AgainstZero(e)
    case RealPart(_) => AgainstZero(e)
    case ImagPart(_) => AgainstZero(e)
    case Compound(_, _) => AgainstZero(e)
  }

  // ---------------------------------------------------------------- evaluation

  predicate HasType(v: Value, t: Ty) {
    match t
    case TInt(i) => v.I? && i.prec >= 1 && i.Has(v.i)
    case TReal(_) => v.R?
    case TComplex(elem) => v.Z? && HasType(v.re, elem) && HasType(v.im, elem)
    case TReference(i) => v.I? && i.prec >= 1 && i.Has(v.i)
  }

  function ZeroOf(t: Ty): Value {
    match t
    case TReal(_) => R(0.0)
    case TComplex(elem) => Z(ZeroOf(elem), ZeroOf(elem))
    case TInt(_) => I(0)
    case TReference(_) => I(0)
  }

  predicate Nonzero(v: Value) {
    match v
    case I(i) => i != 0
    case R(r) => r != 0.0
    case Z(a, b) => Nonzero(a) || Nonzero(b)
  }

  /** What loads and calls yield, given the side effects so far, and how the machine subtracts reals and
      rounds a real to a precision. */
  datatype Oracle = Oracle(answer: (nat, seq<nat>) -> Value, minus: (real, real) -> real, narrow: (nat, real) -> real)

  /** A difference of reals is zero only for equal operands, as it is except with IEEE arithmetic. */
  ghost predicate Exact(o: Oracle) {
    forall a, b :: o.minus(a, b) == 0.0 <==> a == b
  }

  /** Every answer is `v`, and arithmetic is exact. */
  function Always(v: Value): (o: Oracle)
    ensures Exact(o)
  {
    Oracle((_, _) => v, (a: real, b: real) => a - b, (_, r: real) => r)
  }

  function Yield(o: Oracle, t: Ty, id: nat, trace: seq<nat>): Value {
    if HasType(o.answer(id, trace), t) then o.answer(id, trace) else ZeroOf(t)
  }

  function Bool(b: bool): Value { I(if b then 1 else 0) }

  function AsReal(v: Value): real {
    match v
    case I(i) => i as real
    case R(r) => r
    case Z(_, _) => 0.0
  }

  /** Comparisons; a comparison with the integer zero works for every scalar type. */
  predicate Related(rel: Relation, a: Value, b: Value) {
    match rel
    case Equal => SameValue(a, b)
    case NotEqual => !SameValue(a, b)
    case Less => AsReal(a) < AsReal(b)
    case Greater => AsReal(a) > AsReal(b)
    case LessEqual => AsReal(a) <= AsReal(b)
    case GreaterEqual => AsReal(a) >= AsReal(b)
  }

  /** Of two numbers the first is less, equal or greater, and the other relations are their opposites. */
  lemma RelationsFit(a: Value, b: Value)
    requires !a.Z? && !b.Z?
    ensures Related(Less, a, b) || Related(Equal, a, b) || Related(Greater, a, b)
    ensures !(Related(Less, a, b) && Related(Equal, a, b)) && !(Related(Greater, a, b) && Related(Equal, a, b))
    ensures Related(Less, a, b) <==> Related(Greater, b, a)
    ensures Related(LessEqual, a, b) <==> !Related(Greater, a, b)
    ensures Related(GreaterEqual, a, b) <==> !Related(Less, a, b)
    ensures Related(NotEqual, a, b) <==> !Related(Equal, a, b)
    ensures Related(Less, I(0), I(1)) && Related(Equal, R(1.0), I(1))
  {
  }

  predicate SameValue(a: Value, b: Value) {
    if a.Z? && b.Z? then SameValue(a.re, b.re) && SameValue(a.im, b.im)
    else if a.Z? || b.Z? then a == b
    else AsReal(a) == AsReal(b)
  }

  function ConvertValue(t: Ty, v: Value): Value {
    match t
    case TInt(i) => if v.I? && i.prec >= 1 then I(i.Convert(v.i)) else v
    case TComplex(elem) => if v.Z? then Z(ConvertValue(elem, v.re), ConvertValue(elem, v.im)) else v
    case TReal(_) => v
    case TReference(i) => if v.I? && i.prec >= 1 then I(i.Convert(v.i)) else v
  }

  /** A conversion from one type to another; a real keeps its value only in a type that is no less precise. */
  function Converted(narrow: (nat, real) -> real, t: Ty, from: Ty, v: Value): Value {
    if t.TReal? && v.R? && !(from.TReal? && from.prec <= t.prec) then R(narrow(t.prec, v.r)) else ConvertValue(t, v)
  }

  function NegateValue(t: Ty, v: Value): Value {
    match v
    case I(i) => ConvertValue(t, I(-i))
    case R(r) => R(0.0 - r)
    case Z(a, b) => Z(NegateValue(Elem(t), a), NegateValue(Elem(t), b))
  }

  function AbsValue(t: Ty, v: Value): Value {
    match v
    case I(i) => ConvertValue(t, I(if i < 0 then -i else i))
    case R(r) => R(if r < 0.0 then 0.0 - r else r)
    case Z(_, _) => v
  }

  /** One more than the index of the lowest one bit, or zero. */
  function LowestBit(i: int): nat
    decreases if i < 0 then -i else i
  {
    if i == 0 then 0 else if i % 2 == 1 then 1 else 1 + LowestBit(i / 2)
  }

  /** Rotation of an unsigned value of `prec` bits to the left by `k` bits. */
  function RotateBits(u: nat, prec: nat, k: nat): int
    requires k <= prec
  {
    Times(u % Pow2(prec - k), Pow2(k)) + u / Pow2(prec - k)
  }

  function RotateValue(left: bool, t: Ty, v: Value, n: Value): Value {
    if t.TInt? && t.t.prec >= 1 && v.I? && n.I? && t.t.Has(v.i) then
      var p := t.t.prec;
      var k: nat := n.i % p;
      var u := if v.i >= 0 then v.i else v.i + Pow2(p);
      RotatedInRange(t.t, v.i);
      I(t.t.Convert(RotateBits(u, p, if left then k else p - k)))
    else v
  }

  lemma RotatedInRange(t: IntType, v: int)
    requires t.prec >= 1 && t.Has(v)
    ensures v + Pow2(t.prec) >= 0
  {
  }

  function XorBits(n: nat, a: int, b: int): nat {
    if n == 0 then 0 else 2 * XorBits(n - 1, a / 2, b / 2) + (if a % 2 != b % 2 then 1 else 0)
  }

  function AndBits(n: nat, a: int, b: int): nat {
    if n == 0 then 0 else 2 * AndBits(n - 1, a / 2, b / 2) + (if a % 2 == 1 && b % 2 == 1 then 1 else 0)
  }

  function MinusValue(minus: (real, real) -> real, t: Ty, a: Value, b: Value): Value {
    if a.I? && b.I? then ConvertValue(t, I(a.i - b.i))
    else if a.R? && b.R? then R(minus(a.r, b.r))
    else if a.Z? && b.Z? then Z(MinusValue(minus, Elem(t), a.re, b.re), MinusValue(minus, Elem(t), a.im, b.im))
    else a
  }

  function BitValue(t: Ty, a: Value, b: Value, xor: bool): Value {
    if a.I? && b.I? && t.TInt? then
      ConvertValue(t, I(if xor then XorBits(t.t.prec, a.i, b.i) else AndBits(t.t.prec, a.i, b.i)))
    else a
  }

  /** The value of an expression and the side effects after it.  Operands are evaluated from left to
      right, except that the count of a rotation comes first. */
  function Eval(e: Expr, o: Oracle, s: seq<nat>): (Value, seq<nat>)
    decreases e
  {
    match e
    case IntCst(_, v) => (I(v), s)
    case RealCst(_, r) => (R(r), s)
    case Load(t, id) => (Yield(o, t, id, s), s)
    case Call(t, id) => (Yield(o, t, id, s), s + [id])
    case Compare(rel, a, b) =>
      var (v, s1) := Eval(a, o, s);
      var (w, s2) := Eval(b, o, s1);
      (Bool(Related(rel, v, w)), s2)
    case Logical(j, a, b) =>
      var (v, s1) := Eval(a, o, s);
      if (j == OrIf && Nonzero(v)) || (j == AndIf && !Nonzero(v)) then (Bool(Nonzero(v)), s1)
      else
        var (w, s2) := Eval(b, o, s1);
        var x, y := Nonzero(v), Nonzero(w);
        (Bool(if j == Xor then x != y else if j == Or || j == OrIf then x || y else x && y), s2)
    case AddressOf(_, a) => var (_, s1) := Eval(a, o, s); (I(1), s1)
    case Complex(_, a, b) =>
      var (v, s1) := Eval(a, o, s);
      var (w, s2) := Eval(b, o, s1);
      (Z(v, w), s2)
    case RealPart(a) => var (v, s1) := Eval(a, o, s); (if v.Z? then v.re else v, s1)
    case ImagPart(a) => var (v, s1) := Eval(a, o, s); (if v.Z? then v.im else v, s1)
    case Negate(a) => var (v, s1) := Eval(a, o, s); (NegateValue(TypeOf(a), v), s1)
    case Abs(a) => var (v, s1) := Eval(a, o, s); (AbsValue(TypeOf(a), v), s1)
    case Ffs(a) => var (v, s1) := Eval(a, o, s); (if v.I? then ConvertValue(TypeOf(a), I(LowestBit(v.i))) else v, s1)
    case Float(_, a) => var (v, s1) := Eval(a, o, s); (R(AsReal(v)), s1)
    case Rotate(left, a, n) =>
      var (w, s1) := Eval(n, o, s);
      var (v, s2) := Eval(a, o, s1);
      (RotateValue(left, TypeOf(a), v, w), s2)
    case Cond(c, a, b) =>
      var (v, s1) := Eval(c, o, s);
      if Nonzero(v) then Eval(a, o, s1) else Eval(b, o, s1)
    case Convert(t, _, a) => var (v, s1) := Eval(a, o, s); (Converted(o.narrow, t, TypeOf(a), v), s1)
    case Minus(t, a, b) =>
      var (v, s1) := Eval(a, o, s);
      var (w, s2) := Eval(b, o, s1);
      (MinusValue(o.minus, t, v, w), s2)
    case BitXor(t, a, b) =>
      var (v, s1) := Eval(a, o, s);
      var (w, s2) := Eval(b, o, s1);
      (BitValue(t, v, w, true), s2)
    case BitAnd(t, a, b) =>
      var (v, s1) := Eval(a, o, s);
      var (w, s2) := Eval(b, o, s1);
      (BitValue(t, v, w, false), s2)
    case Compound(a, b) => var (_, s1) := Eval(a, o, s); Eval(b, o, s1)
  }
}
