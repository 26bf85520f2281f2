/**
 Comparison narrowing: `shorten_compare` (m3cc/gcc/c-common.c) and the `get_narrower`
 (m3cc/gcc/tree.c) that it strips its operands with, for integer operands.
 */
module ShortenCompare {
  import opened IntTypes

  /** Operands: a constant, an object of the program (which may count as TREE_CONSTANT, as an address
      does), or a NOP_EXPR conversion. */
  datatype Tree =
    | Cst(ty: IntType, value: int)
    | Object(ty: IntType, id: nat, constant: bool)
    | Nop(ty: IntType, arg: Tree)

  /** Types have at least one bit, constants fit their types, and conversions of constants have been
      folded away, as the front end does when it builds them. */
  predicate WellFormed(e: Tree) {
    e.ty.prec >= 1 &&
    match e
    case Cst(t, v) => t.Has(v)
    case Object(_, _, _) => true
    case Nop(_, a) => !a.Cst? && WellFormed(a)
  }

  function Eval(e: Tree, env: nat -> int): int
    requires WellFormed(e)
  {
    match e
    case Cst(_, v) => v
    case Object(t, id, _) => t.Convert(env(id))
    case Nop(t, a) => t.Convert(Eval(a, env))
  }

  datatype Code = EQ | NE | LT | GT | LE | GE

  predicate Holds(code: Code, a: int, b: int) {
    match code
    case EQ => a == b
    case NE => a != b
    case LT => a < b
    case GT => a > b
    case LE => a <= b
    case GE => a >= b
  }

  function Mirror(code: Code): Code {
    match code
    case LT => GT
    case GT => LT
    case LE => GE
    case GE => LE
    case EQ => EQ
    case NE => NE
  }

  // ---------------------------------------------------------------- get_narrower

  /** The loop of `get_narrower`: `win` is the best operand so far, `uns` the recorded kind of
      extension, and `first` whether none has been stripped yet. */
  function Strip(op: Tree, win: Tree, uns: bool, first: bool): (Tree, bool)
    decreases op
  {
    if !op.Nop? || op.ty.prec < op.arg.ty.prec then (win, uns)
    else
      var inner := op.arg;
      if op.ty.prec > inner.ty.prec && !first && uns != inner.ty.uns then (win, uns)
      else Strip(inner, inner, if first then inner.ty.uns else uns, false)
  }

  function GetNarrower(op: Tree): (Tree, bool) { Strip(op, op, false, true) }

  /** The operand that the narrowing works on, and whether it is taken as zero-extended. */
  function Primary(op: Tree, nominal: IntType): (Tree, bool) {
    var (p, u) := GetNarrower(op);
    (p, if p == op && op.ty != nominal then op.ty.uns else u)
  }

  // ---------------------------------------------------------------- shorten_compare

  /** The result: a truth value known beforehand, or a comparison of two operands in a type. */
  datatype Shortened =
    | Known(value: bool)
    | Compare(ty: IntType, op0: Tree, op1: Tree, code: Code)

  /** `convert (type, convert (...))` of an operand that is already stripped. */
  function ConvertTree(t: IntType, e: Tree): Tree
    requires t.prec >= 1
  {
    if e.Cst? then Cst(t, t.Convert(e.value)) else Nop(t, e)
  }

  /** Whether a constant value follows, and which, from the bounds `lo` and `hi` of the variable operand. */
  function ByBounds(code: Code, c: int, lo: int, hi: int): (bool, bool) {
    match code
    case NE => (hi < c || c < lo, true)
    case EQ => (hi < c || c < lo, false)
    case LT => (hi < c || !(lo < c), lo < c)
    case GT => (c < lo || !(c < hi), c < hi)
    case LE => (!(c < hi) || c < lo, !(c < lo))
    case GE => (!(lo < c) || hi < c, !(hi < c))
  }

  /** The constant that replaces `k` when the signed comparison has a fixed result. */
  function Extreme(code: Code, k: int, ty: IntType): int
    requires ty.prec >= 1
  {
    if !ByBounds(code, k, ty.Min(), ty.Max()).0 then k
    else if code == LT || code == GE then ty.Min() else ty.Max()
  }

  /** The comparison of a narrow operand with a constant. */
  function WithConstant(p0: Tree, u0: bool, c: int, nominal: IntType, code: Code): Shortened
    requires p0.ty.prec >= 1 && nominal.prec >= 1
  {
    var ty := p0.ty.WithSign(u0);
    var mixed := nominal.uns && !u0;
    var nominal' := if mixed then nominal.WithSign(false) else nominal;
    var k := nominal'.Convert(c);
    var (known, value) := ByBounds(code, k, ty.Min(), ty.Max());
    if !mixed then
      if known then Known(value) else Compare(ty, ConvertTree(ty, p0), Cst(ty, ty.Convert(k)), code)
    else
      var uty := ty.WithSign(true);
      if known && (code == EQ || code == NE) then Known(value)
      else
        Compare(uty, ConvertTree(uty, p0), Cst(uty, uty.Convert(Extreme(code, k, ty))), code)
  }

  /** Both operands are narrow and extend in the same manner. */
  function BothNarrow(p0: Tree, p1: Tree, u: bool, nominal: IntType, code: Code): Shortened
    requires p0.ty.prec >= 1 && p1.ty.prec >= 1
  {
    var ty := IntType(if p0.ty.prec >= p1.ty.prec then p0.ty.prec else p1.ty.prec, u || nominal.uns);
    Compare(ty, ConvertTree(ty, ConvertTree(p0.ty.WithSign(u), p0)),
            ConvertTree(ty, ConvertTree(p1.ty.WithSign(u), p1)), code)
  }

  /** The comparison is done in the nominal type, unless an unsigned value meets zero. */
  function InNominal(op0: Tree, op1: Tree, nominal: IntType, code: Code): Shortened
    requires nominal.prec >= 1
  {
    if op1.Cst? && op1.value == 0 && nominal.uns && code == GE then Known(true)
    else if op1.Cst? && op1.value == 0 && nominal.uns && code == LT then Known(false)
    else Compare(nominal, ConvertTree(nominal, op0), ConvertTree(nominal, op1), code)
  }

  predicate TreeConstant(e: Tree) { e.Cst? || (e.Object? && e.constant) }

  predicate IsZero(e: Tree) { e.Cst? && e.value == 0 }

  /** Are the operands exchanged first? */
  predicate Swapped(op0: Tree, op1: Tree, nominal: IntType) {
    TreeConstant(Primary(op0, nominal).0) && !IsZero(Primary(op1, nominal).0)
  }

  /** The choice between the three ways, after the exchange. */
  function ShortenOrdered(op0: Tree, op1: Tree, nominal: IntType, code: Code): Shortened
    requires WellFormed(op0) && WellFormed(op1) && nominal.prec >= 1
  {
    var (p0, u0) := Primary(op0, nominal);
    var (p1, u1) := Primary(op1, nominal);
    StripWellFormed(op0, op0, false, true);
    StripWellFormed(op1, op1, false, true);
    if p1.Cst? && p0.ty.prec < nominal.prec then WithConstant(p0, u0, p1.value, nominal, code)
    else if u0 == u1 && p0.ty.prec < nominal.prec && p1.ty.prec < nominal.prec then
      BothNarrow(p0, p1, u0, nominal, code)
    else InNominal(op0, op1, nominal, code)
  }

  function Shorten(op0: Tree, op1: Tree, nominal: IntType, code: Code): Shortened
    requires WellFormed(op0) && WellFormed(op1) && nominal.prec >= 1
  {
    if Swapped(op0, op1, nominal) then ShortenOrdered(op1, op0, nominal, Mirror(code))
    else ShortenOrdered(op0, op1, nominal, code)
  }

  // ---------------------------------------------------------------- meaning

  /** The comparison as written: both operands converted to the nominal type. */
  ghost predicate Nominally(op0: Tree, op1: Tree, nominal: IntType, code: Code, env: nat -> int)
    requires WellFormed(op0) && WellFormed(op1) && nominal.prec >= 1
  {
    Holds(code, nominal.Convert(Eval(op0, env)), nominal.Convert(Eval(op1, env)))
  }

  ghost predicate Truth(s: Shortened, env: nat -> int)
    requires s.Compare? ==> WellFormed(s.op0) && WellFormed(s.op1)
  {
    match s
    case Known(v) => v
    case Compare(_, a, b, code) => Holds(code, Eval(a, env), Eval(b, env))
  }

  /** The value that `shorten_compare` takes its stripped operand to stand for. */
  ghost function Extended(p: Tree, u: bool, env: nat -> int): int
    requires WellFormed(p)
  {
    p.ty.WithSign(u).Convert(Eval(p, env))
  }

  /** Stripping loses nothing when the operand is as wide as the nominal type, extends further in the
      recorded manner, or is a strict zero extension. */
  predicate KeepsBits(op: Tree, nominal: IntType) {
    var (p, u) := Primary(op, nominal);
    op.ty.prec >= nominal.prec || op.ty.uns == u || (u && p.ty.prec < op.ty.prec)
  }

  // ---------------------------------------------------------------- stripping

  lemma {:induction false} StripWellFormed(op: Tree, win: Tree, uns: bool, first: bool)
    requires WellFormed(op) && WellFormed(win)
    ensures WellFormed(Strip(op, win, uns, first).0)
    decreases op
  {
    if op.Nop? {
      StripWellFormed(op.arg, op.arg, if first then op.arg.ty.uns else uns, false);
    }
  }

  /** The stripped operand is no wider, and extended in the recorded manner it has the bits of the
      original operand. */
  lemma {:induction false} StripBits(op: Tree, uns: bool, env: nat -> int)
    requires WellFormed(op)
    ensures var (p, u) := Strip(op, op, uns, false);
      && WellFormed(p) && p.ty.prec <= op.ty.prec && u == uns
      && Congruent(Eval(op, env), Extended(p, u, env), Pow2(op.ty.prec))
    decreases op
  {
    StripWellFormed(op, op, uns, false);
    if !op.Nop? || op.ty.prec < op.arg.ty.prec || (op.ty.prec > op.arg.ty.prec && uns != op.arg.ty.uns) {
      ConvertFacts(op.ty.WithSign(uns), Eval(op, env));
      CongruentSymmetric(Extended(op, uns, env), Eval(op, env), Pow2(op.ty.prec));
    } else {
      StripBits(op.arg, uns, env);
      ThroughConversion(op, Strip(op.arg, op.arg, uns, false).0, uns, env);
    }
  }

  lemma EvalInType(e: Tree, env: nat -> int)
    requires WellFormed(e)
    ensures e.ty.Has(Eval(e, env))
  {
    match e
    case Cst(_, _) =>
    case Object(t, id, _) => ConvertFacts(t, env(id));
    case Nop(t, a) => ConvertFacts(t, Eval(a, env));
  }

  /** One more conversion stripped. */
  lemma ThroughConversion(op: Tree, p: Tree, u: bool, env: nat -> int)
    requires WellFormed(op) && op.Nop? && WellFormed(p)
    requires p.ty.prec <= op.arg.ty.prec <= op.ty.prec && (op.ty.prec == op.arg.ty.prec || u == op.arg.ty.uns)
    requires Congruent(Eval(op.arg, env), Extended(p, u, env), Pow2(op.arg.ty.prec))
    ensures Congruent(Eval(op, env), Extended(p, u, env), Pow2(op.ty.prec))
  {
    var v, x := Eval(op.arg, env), Extended(p, u, env);
    ConvertFacts(op.ty, v);
    hide Pow2, Congruent, IntType.Convert;
    if op.ty.prec > op.arg.ty.prec {
      EvalInType(op.arg, env);
      ConvertFacts(p.ty.WithSign(u), Eval(p, env));
      WiderRange(p.ty.WithSign(u), op.arg.ty, x);
      TypeRange(op.arg.ty);
      CongruentUnique(v, x, Pow2(op.arg.ty.prec), op.arg.ty.Max());
    } else {
      CongruentTransitive(Eval(op, env), v, x, Pow2(op.ty.prec));
    }
  }

  /** What `get_narrower` guarantees. */
  lemma PrimaryBits(op: Tree, nominal: IntType, env: nat -> int)
    requires WellFormed(op)
    ensures var (p, u) := Primary(op, nominal);
      && WellFormed(p) && p.ty.prec <= op.ty.prec
      && Congruent(Eval(op, env), Extended(p, u, env), Pow2(op.ty.prec))
  {
    var (p, u) := Primary(op, nominal);
    if op.Nop? && op.ty.prec >= op.arg.ty.prec {
      StripBits(op.arg, op.arg.ty.uns, env);
      StripSmaller(op.arg, op.arg.ty.uns);
      ThroughConversion(op, p, u, env);
    } else {
      ConvertFacts(op.ty.WithSign(u), Eval(op, env));
      CongruentSymmetric(Extended(op, u, env), Eval(op, env), Pow2(op.ty.prec));
    }
  }

  function Depth(e: Tree): nat { if e.Nop? then 1 + Depth(e.arg) else 0 }

  lemma {:induction false} StripSmaller(op: Tree, uns: bool)
    ensures Depth(Strip(op, op, uns, false).0) <= Depth(op)
    decreases op
  {
    if op.Nop? {
      StripSmaller(op.arg, uns);
    }
  }

  /** Under `KeepsBits`, the stripped operand stands for the value the operand has in the nominal type. */
  lemma KeepsValue(op: Tree, nominal: IntType, env: nat -> int)
    requires WellFormed(op) && nominal.prec >= 1 && KeepsBits(op, nominal)
    ensures var (p, u) := Primary(op, nominal);
      WellFormed(p) && nominal.Convert(Eval(op, env)) == nominal.Convert(Extended(p, u, env))
  {
    var (p, u) := Primary(op, nominal);
    PrimaryBits(op, nominal, env);
    var v, x := Eval(op, env), Extended(p, u, env);
    if op.ty.prec >= nominal.prec {
      CongruentNarrower(v, x, op.ty.prec, nominal.prec);
      ConvertIff(nominal, v, x);
    } else {
      EvalInType(op, env);
      ConvertFacts(p.ty.WithSign(u), Eval(p, env));
      WiderRange(p.ty.WithSign(u), op.ty, x);
      TypeRange(op.ty);
      CongruentUnique(v, x, Pow2(op.ty.prec), op.ty.Max());
    }
  }

  // ---------------------------------------------------------------- constants

  /** The bounds decide the comparison, or the constant lies between them. */
  /** The ends of a range decide exactly the comparisons that come out alike for all its values. */
  lemma BoundsAreExact(code: Code, c: int, lo: int, hi: int)
    requires lo < hi
    ensures ByBounds(code, c, lo, hi).0 <==> forall x :: lo <= x <= hi ==> Holds(code, x, c) == Holds(code, lo, c)
  {
    assert ByBounds(code, c, lo, hi).0 ==> forall x :: lo <= x <= hi ==> Holds(code, x, c) == ByBounds(code, c, lo, hi).1;
    assert !ByBounds(code, c, lo, hi).0 ==> Holds(code, lo, c) != Holds(code, hi, c) || Holds(code, lo, c) != Holds(code, c, c);
  }

  lemma BoundsDecide(code: Code, c: int, lo: int, hi: int, x: int)
    requires lo <= x <= hi
    ensures var (known, value) := ByBounds(code, c, lo, hi);
      if known then value == Holds(code, x, c) else lo <= c <= hi
  {
  }

  /** The unsigned reading of `v` in a type with `m` values. */
  function Unsigned(v: int, m: int): int { if v >= 0 then v else v + m }

  /** A sign-extended operand in an unsigned comparison: when the signed comparison has a fixed result,
      comparing with an extreme value tests the sign. */
  lemma MixedBounds(code: Code, e: int, k: int, half: int, wideHalf: int)
    requires 1 <= half && 2 * half <= wideHalf
    requires -half <= e < half && -wideHalf <= k < wideHalf
    ensures var (known, value) := ByBounds(code, k, -half, half - 1);
      var truth := Holds(code, Unsigned(e, 2 * wideHalf), Unsigned(k, 2 * wideHalf));
      if known && (code == EQ || code == NE) then value == truth
      else
        var k' := if !known then k else if code == LT || code == GE then -half else half - 1;
        -half <= k' < half && Holds(code, Unsigned(e, 2 * half), Unsigned(k', 2 * half)) == truth
  {
  }

  lemma Halves(n: nat)
    requires n >= 1
    ensures Pow2(n) == 2 * Pow2(n - 1)
  {
  }

  lemma ConvertTreeEval(t: IntType, e: Tree, env: nat -> int)
    requires WellFormed(e) && t.prec >= 1
    ensures (e.Cst? ==> t.Has(t.Convert(e.value))) && WellFormed(ConvertTree(t, e))
    ensures Eval(ConvertTree(t, e), env) == t.Convert(Eval(e, env))
  {
    if e.Cst? {
      ConvertFacts(t, e.value);
    }
  }

  lemma SameBits(t: IntType, u: bool, v: int)
    requires t.prec >= 1
    ensures t.Convert(t.WithSign(u).Convert(v)) == t.Convert(v)
  {
    ConvertFacts(t.WithSign(u), v);
    ConvertIff(t, t.WithSign(u).Convert(v), v);
  }

  lemma SignedBounds(prec: nat)
    requires prec >= 1
    ensures IntType(prec, false).Min() == -Pow2(prec - 1) && IntType(prec, false).Max() == Pow2(prec - 1) - 1
  {
  }

  /** The unsigned reading of a signed value. */
  lemma ReadUnsigned(prec: nat, v: int)
    requires prec >= 1 && IntType(prec, false).Has(v)
    ensures -Pow2(prec - 1) <= v < Pow2(prec - 1)
    ensures IntType(prec, true).Convert(v) == Unsigned(v, 2 * Pow2(prec - 1))
  {
    SignedBounds(prec);
    Halves(prec);
    AsUnsigned(prec, v);
  }

  lemma MixedTruth(p: nat, r: nat, code: Code, e: int, k: int)
    requires 1 <= p < r && IntType(p, false).Has(e) && IntType(r, false).Has(k)
    ensures var ty := IntType(p, false);
      var (known, value) := ByBounds(code, k, ty.Min(), ty.Max());
      var truth := Holds(code, IntType(r, true).Convert(e), IntType(r, true).Convert(k));
      if known && (code == EQ || code == NE) then value == truth
      else
        && ty.Has(Extreme(code, k, ty))
        && Holds(code, IntType(p, true).Convert(e), IntType(p, true).Convert(Extreme(code, k, ty))) == truth
  {
    SignedBounds(p);
    Pow2Monotone(p, r - 1);
    Halves(p);
    WiderRange(IntType(p, false), IntType(r, false), e);
    hide IntType.Convert, Pow2;
    ReadUnsigned(r, k);
    ReadUnsigned(r, e);
    ReadUnsigned(p, e);
    MixedBounds(code, e, k, Pow2(p - 1), Pow2(r - 1));
    var ty := IntType(p, false);
    var (known, value) := ByBounds(code, k, ty.Min(), ty.Max());
    if !(known && (code == EQ || code == NE)) {
      ReadUnsigned(p, Extreme(code, k, ty));
    }
  }

  lemma MixedConstant(p0: Tree, c: int, nominal: IntType, code: Code, env: nat -> int)
    requires WellFormed(p0) && p0.ty.prec < nominal.prec && nominal.uns
    ensures var s := WithConstant(p0, false, c, nominal, code);
      (s.Compare? ==> WellFormed(s.op0) && WellFormed(s.op1)) &&
      Truth(s, env) == Holds(code, nominal.Convert(Extended(p0, false, env)), nominal.Convert(c))
  {
    var ty, sn, uty := p0.ty.WithSign(false), nominal.WithSign(false), p0.ty.WithSign(true);
    var e, k := Extended(p0, false, env), sn.Convert(c);
    ConvertFacts(ty, Eval(p0, env));
    ConvertFacts(sn, c);
    SameBits(nominal, false, c);
    SameBits(uty, false, Eval(p0, env));
    hide IntType.Convert, Holds;
    MixedTruth(p0.ty.prec, nominal.prec, code, e, k);
    hide ByBounds;
    ConvertTreeEval(uty, p0, env);
    ConvertFacts(uty, Extreme(code, k, ty));
  }

  lemma PlainConstant(p0: Tree, u0: bool, c: int, nominal: IntType, code: Code, env: nat -> int)
    requires WellFormed(p0) && p0.ty.prec < nominal.prec && (u0 || !nominal.uns)
    ensures var s := WithConstant(p0, u0, c, nominal, code);
      (s.Compare? ==> WellFormed(s.op0) && WellFormed(s.op1)) &&
      Truth(s, env) == Holds(code, nominal.Convert(Extended(p0, u0, env)), nominal.Convert(c))
  {
    var ty, e, k := p0.ty.WithSign(u0), Extended(p0, u0, env), nominal.Convert(c);
    ConvertFacts(ty, Eval(p0, env));
    WiderRange(ty, nominal, e);
    ConvertFacts(nominal, e);
    ConvertFacts(ty, k);
    hide Pow2, IntType.Convert, IntType.Min, IntType.Max;
    BoundsDecide(code, k, ty.Min(), ty.Max(), e);
    ConvertTreeEval(ty, p0, env);
    hide ByBounds, Holds;
  }

  // ---------------------------------------------------------------- two variables

  /** Two sign-extended values compare alike as unsigned values of any wider precision. */
  lemma SignExtensionMonotone(code: Code, a: int, b: int, half: int, wideHalf: int)
    requires 1 <= half <= wideHalf && -half <= a < half && -half <= b < half
    ensures Holds(code, Unsigned(a, 2 * half), Unsigned(b, 2 * half)) ==
            Holds(code, Unsigned(a, 2 * wideHalf), Unsigned(b, 2 * wideHalf))
  {
  }

  lemma BothNarrowTruth(p0: Tree, p1: Tree, u: bool, nominal: IntType, code: Code, env: nat -> int)
    requires WellFormed(p0) && WellFormed(p1) && p0.ty.prec < nominal.prec && p1.ty.prec < nominal.prec
    ensures var s := BothNarrow(p0, p1, u, nominal, code);
      WellFormed(s.op0) && WellFormed(s.op1) && s.Compare? &&
      Truth(s, env) == Holds(code, nominal.Convert(Extended(p0, u, env)), nominal.Convert(Extended(p1, u, env)))
  {
    var ty := BothNarrow(p0, p1, u, nominal, code).ty;
    var t0, t1 := p0.ty.WithSign(u), p1.ty.WithSign(u);
    var a, b := Extended(p0, u, env), Extended(p1, u, env);
    ConvertTreeEval(t0, p0, env);
    ConvertTreeEval(t1, p1, env);
    ConvertTreeEval(ty, ConvertTree(t0, p0), env);
    ConvertTreeEval(ty, ConvertTree(t1, p1), env);
    ConvertFacts(t0, Eval(p0, env));
    ConvertFacts(t1, Eval(p1, env));
    hide ConvertTree, Eval, WellFormed;
    ComparedNarrow(t0, t1, ty, nominal, code, a, b);
    hide Holds, IntType.Convert;
  }

  lemma ComparedExactly(t: IntType, nominal: IntType, code: Code, a: int, b: int)
    requires t.prec >= 1 && t.Has(a) && t.Has(b) && Within(t, nominal)
    ensures Holds(code, t.Convert(a), t.Convert(b)) == Holds(code, nominal.Convert(a), nominal.Convert(b))
  {
    WiderRange(t, nominal, a);
    WiderRange(t, nominal, b);
    ConvertFacts(t, a);
    ConvertFacts(t, b);
    ConvertFacts(nominal, a);
    ConvertFacts(nominal, b);
    hide Holds;
  }

  lemma ComparedAsUnsigned(m: nat, r: nat, code: Code, a: int, b: int)
    requires 1 <= m <= r && IntType(m, false).Has(a) && IntType(m, false).Has(b)
    ensures Holds(code, IntType(m, true).Convert(a), IntType(m, true).Convert(b)) ==
            Holds(code, IntType(r, true).Convert(a), IntType(r, true).Convert(b))
  {
    WiderRange(IntType(m, false), IntType(r, false), a);
    WiderRange(IntType(m, false), IntType(r, false), b);
    Pow2Monotone(m - 1, r - 1);
    hide IntType.Convert;
    ReadUnsigned(m, a);
    ReadUnsigned(m, b);
    ReadUnsigned(r, a);
    ReadUnsigned(r, b);
    hide IntType.Has, Holds, Unsigned;
    SignExtensionMonotone(code, a, b, Pow2(m - 1), Pow2(r - 1));
  }

  /** Values of two narrow types with the same sign compare alike in `ty` and in the nominal type. */
  lemma ComparedNarrow(t0: IntType, t1: IntType, ty: IntType, nominal: IntType, code: Code, a: int, b: int)
    requires t0.prec >= 1 && t1.prec >= 1 && t0.uns == t1.uns && t0.Has(a) && t1.Has(b)
    requires ty == IntType(if t0.prec >= t1.prec then t0.prec else t1.prec, t0.uns || nominal.uns)
    requires t0.prec < nominal.prec && t1.prec < nominal.prec
    ensures Holds(code, ty.Convert(a), ty.Convert(b)) == Holds(code, nominal.Convert(a), nominal.Convert(b))
  {
    var m := ty.WithSign(t0.uns);
    WiderRange(t0, m, a);
    WiderRange(t1, m, b);
    hide IntType.Convert, IntType.Has, Holds;
    if t0.uns || !nominal.uns {
      ComparedExactly(ty, nominal, code, a, b);
    } else {
      ComparedAsUnsigned(m.prec, nominal.prec, code, a, b);
    }
  }
}
