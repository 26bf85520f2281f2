/**
 The values that an operand takes: an object behind any conversions is described by how many of its bits
 are left and how far the highest of them is copied.
 */
module ShortenValues {
  import opened Helpers
  import opened IntTypes
  import opened ShortenCompare
  import opened ShortenOrder

  /** The low `core` bits of the object, sign-extended to `filled` bits; the bits above are zero. */
  datatype Shape = Shape(core: nat, filled: nat)

  function ShapeOf(e: Tree): Shape {
    match e
    case Cst(t, _) => Shape(t.prec, t.prec)
    case Object(t, _, _) => Shape(t.prec, t.prec)
    case Nop(t, a) =>
      var s := ShapeOf(a);
      if t.prec <= a.ty.prec then Shape(Min(s.core, t.prec), Min(s.filled, t.prec))
      else if !a.ty.uns && s.filled == a.ty.prec then Shape(s.core, t.prec)
      else s
  }

  function Core(e: Tree): Tree { if e.Nop? then Core(e.arg) else e }

  /** The low `core` bits of an object, read with a sign. */
  function Low(core: nat, x: int): int
    requires core >= 1
  {
    IntType(core, false).Convert(x)
  }

  lemma {:induction false} ShapeBounds(e: Tree)
    requires WellFormed(e)
    ensures var s := ShapeOf(e); 1 <= s.core <= s.filled <= e.ty.prec
  {
    if e.Nop? {
      ShapeBounds(e.arg);
    }
  }

  lemma {:induction false} CoreIsObject(e: Tree)
    requires WellFormed(e)
    ensures Core(e).Object? <==> !e.Cst?
  {
    if e.Nop? {
      CoreIsObject(e.arg);
    }
  }

  lemma LowRange(core: nat, x: int)
    requires core >= 1
    ensures -Pow2(core - 1) <= Low(core, x) < Pow2(core - 1)
    ensures Congruent(Low(core, x), x, Pow2(core))
    ensures -Pow2(core - 1) <= x < Pow2(core - 1) ==> Low(core, x) == x
  {
    ConvertFacts(IntType(core, false), x);
    SignedBounds(core);
  }

  /** What a value with the sign copied to `filled` bits is, read without a sign. */
  function Filled(y: int, filled: nat): int { Read(y, Pow2(filled)) }

  lemma FilledRange(y: int, core: nat, filled: nat)
    requires 1 <= core <= filled && -Pow2(core - 1) <= y < Pow2(core - 1)
    ensures 0 <= Filled(y, filled) < Pow2(filled) && Congruent(Filled(y, filled), y, Pow2(filled))
  {
    Halves(core);
    Pow2Monotone(core, filled);
    Distribute(1, 0, Pow2(filled));
    assert Filled(y, filled) == y + Times(if y < 0 then 1 else 0, Pow2(filled));
  }

  lemma SameConvert(t: IntType, a: int, b: int, wide: nat)
    requires 1 <= t.prec <= wide && Congruent(a, b, Pow2(wide))
    ensures t.Convert(a) == t.Convert(b)
  {
    CongruentNarrower(a, b, wide, t.prec);
    ConvertIff(t, a, b);
  }

  /** The value of an operand in terms of the bits of its object. */
  lemma {:induction false} ShapeValue(e: Tree, env: nat -> int)
    requires WellFormed(e) && !e.Cst?
    ensures Core(e).Object? && ShapeOf(e).core >= 1
    ensures Eval(e, env) == e.ty.Convert(Filled(Low(ShapeOf(e).core, env(Core(e).id)), ShapeOf(e).filled))
  {
    CoreIsObject(e);
    ShapeBounds(e);
    var x := env(Core(e).id);
    match e
    case Object(t, _, _) => ObjectValue(t, x);
    case Nop(t, a) =>
      ShapeBounds(a);
      ShapeValue(a, env);
      if t.prec <= a.ty.prec {
        NarrowerValue(t, a.ty, ShapeOf(a), x);
      } else {
        WiderValue(t, a.ty, ShapeOf(a), x);
      }
  }

  lemma ObjectValue(t: IntType, x: int)
    requires t.prec >= 1
    ensures t.Convert(x) == t.Convert(Filled(Low(t.prec, x), t.prec))
  {
    LowRange(t.prec, x);
    FilledRange(Low(t.prec, x), t.prec, t.prec);
    var f := Filled(Low(t.prec, x), t.prec);
    hide *;
    CongruentTransitive(f, Low(t.prec, x), x, Pow2(t.prec));
    SameConvert(t, f, x, t.prec);
  }

  lemma NarrowerValue(t: IntType, u: IntType, s: Shape, x: int)
    requires 1 <= t.prec <= u.prec && 1 <= s.core <= s.filled <= u.prec
    ensures t.Convert(u.Convert(Filled(Low(s.core, x), s.filled)))
         == t.Convert(Filled(Low(Min(s.core, t.prec), x), Min(s.filled, t.prec)))
  {
    var f := Filled(Low(s.core, x), s.filled);
    ConvertFacts(u, f);
    hide Low, Filled, Pow2, Congruent, IntType.Convert;
    SameConvert(t, u.Convert(f), f, u.prec);
    if t.prec < s.filled {
      CutValue(t, s, x);
    }
  }

  /** Fewer bits than the sign is copied to. */
  lemma CutValue(t: IntType, s: Shape, x: int)
    requires 1 <= t.prec < s.filled && 1 <= s.core <= s.filled
    ensures t.Convert(Filled(Low(s.core, x), s.filled)) == t.Convert(Filled(Low(Min(s.core, t.prec), x), t.prec))
  {
    var j := Min(s.core, t.prec);
    var y, y' := Low(s.core, x), Low(j, x);
    LowRange(s.core, x);
    LowRange(j, x);
    FilledRange(y, s.core, s.filled);
    FilledRange(y', j, t.prec);
    LowsConvert(t, s.core, x);
    hide *;
    SameConvert(t, Filled(y, s.filled), y, s.filled);
    SameConvert(t, Filled(y', t.prec), y', t.prec);
  }

  lemma LowsConvert(t: IntType, core: nat, x: int)
    requires t.prec >= 1 && core >= 1
    ensures t.Convert(Low(core, x)) == t.Convert(Low(Min(core, t.prec), x))
  {
    var j := Min(core, t.prec);
    LowRange(core, x);
    LowRange(j, x);
    hide Low, Pow2, Congruent, IntType.Convert;
    if j < core {
      SameConvert(t, Low(core, x), x, core);
      SameConvert(t, Low(j, x), x, j);
    }
  }

  /** A value with its sign copied to `filled` bits, read in a type. */
  lemma ReadIn(t: IntType, y: int, core: nat, filled: nat)
    requires 1 <= core <= filled <= t.prec && -Pow2(core - 1) <= y < Pow2(core - 1)
    ensures t.Convert(Filled(y, filled)) == if filled == t.prec && !t.uns then y else Filled(y, filled)
  {
    FilledRange(y, core, filled);
    Pow2Monotone(core - 1, t.prec - 1);
    Pow2Monotone(filled, t.prec);
    var f := Filled(y, filled);
    TypeHas(t, y);
    TypeHas(t, f);
    if filled < t.prec {
      Pow2Monotone(filled, t.prec - 1);
    }
    hide *;
    if filled == t.prec && !t.uns {
      SameConvert(t, f, y, t.prec);
      ConvertFacts(t, y);
    } else {
      ConvertFacts(t, f);
    }
  }

  lemma TypeHas(t: IntType, v: int)
    requires t.prec >= 1
    ensures t.Has(v) <==> if t.uns then 0 <= v < Pow2(t.prec) else -Pow2(t.prec - 1) <= v < Pow2(t.prec - 1)
  {
  }

  lemma WiderValue(t: IntType, u: IntType, s: Shape, x: int)
    requires 1 <= u.prec < t.prec && 1 <= s.core <= s.filled <= u.prec
    ensures t.Convert(u.Convert(Filled(Low(s.core, x), s.filled)))
         == t.Convert(Filled(Low(s.core, x), if !u.uns && s.filled == u.prec then t.prec else s.filled))
  {
    var y := Low(s.core, x);
    LowRange(s.core, x);
    hide Low, Pow2, IntType.Convert, Filled;
    ReadIn(u, y, s.core, s.filled);
    if !u.uns && s.filled == u.prec {
      FilledRange(y, s.core, t.prec);
      SameConvert(t, Filled(y, t.prec), y, t.prec);
    }
  }

  // ---------------------------------------------------------------- the two readings

  /** What is added to the negative values of an object when they are read in a type through `e`. */
  function Added(e: Tree, t: IntType): int {
    var s := ShapeOf(Nop(t, e));
    if s.filled == t.prec && !t.uns then 0 else Pow2(s.filled)
  }

  lemma ReadValue(e: Tree, t: IntType, env: nat -> int)
    requires WellFormed(e) && !e.Cst? && t.prec >= 1
    ensures Core(e).Object? && ShapeOf(Nop(t, e)).core >= 1
    ensures t.Convert(Eval(e, env)) == Read(Low(ShapeOf(Nop(t, e)).core, env(Core(e).id)), Added(e, t))
  {
    hide ShapeOf, Low, Pow2, IntType.Convert, Congruent, Filled;
    var n := Nop(t, e);
    CoreIsObject(n);
    ShapeBounds(n);
    ShapeValue(n, env);
    var s := ShapeOf(n);
    var y := Low(s.core, env(Core(e).id));
    LowRange(s.core, env(Core(e).id));
    assert Eval(n, env) == t.Convert(Eval(e, env));
    hide Eval;
    ReadIn(t, y, s.core, s.filled);
    AddedIs(e, t);
    FilledIs(y, s.filled);
  }

  lemma AddedIs(e: Tree, t: IntType)
    ensures var s := ShapeOf(Nop(t, e)); Added(e, t) == if s.filled == t.prec && !t.uns then 0 else Pow2(s.filled)
  {
    hide ShapeOf;
  }

  lemma FilledIs(y: int, filled: nat)
    ensures Filled(y, filled) == Read(y, Pow2(filled))
  {
  }

  /** The operand as it is stripped, and extended in the recorded manner. */
  function Stripped(op: Tree, nominal: IntType): Tree {
    var (p, u) := Primary(op, nominal);
    Nop(p.ty.WithSign(u), p)
  }

  /** An operand that is compared in stripped form: the values of its object, and the two readings of
      them in the nominal type. */
  function SideOf(op: Tree, nominal: IntType): Side {
    Side(Half(ShapeOf(op).core), Added(Stripped(op, nominal), nominal), Added(op, nominal))
  }

  function Half(core: nat): int { if core == 0 then 1 else Pow2(core - 1) }

  lemma {:induction false} StripCore(op: Tree, uns: bool, first: bool)
    requires WellFormed(op)
    ensures var p := Strip(op, op, uns, first).0;
      && WellFormed(p) && Core(p) == Core(op) && ShapeOf(p).core == ShapeOf(op).core && p.ty.prec <= op.ty.prec
      && (p.Cst? ==> p == op)
    decreases op
  {
    if op.Nop? && op.ty.prec >= op.arg.ty.prec {
      StripCore(op.arg, if first then op.arg.ty.uns else uns, false);
      ShapeBounds(op.arg);
    }
  }

  /** Narrow in the nominal type. */
  predicate Narrow(op: Tree, nominal: IntType) {
    Primary(op, nominal).0.ty.prec < nominal.prec
  }

  lemma PrimaryCore(op: Tree, nominal: IntType)
    requires WellFormed(op) && nominal.prec >= 1
    ensures var p := Primary(op, nominal).0;
      && WellFormed(p) && Core(p) == Core(op) && ShapeOf(p).core == ShapeOf(op).core && (p.Cst? <==> op.Cst?)
      && (p.Cst? ==> p == op)
    ensures Narrow(op, nominal) && !op.Cst? ==>
      && ShapeOf(Nop(nominal, op)).core == ShapeOf(op).core == ShapeOf(Nop(nominal, Stripped(op, nominal))).core
      && ShapeOf(op).core >= 1 && Core(op).Object?
  {
    StripCore(op, false, true);
    var p := Primary(op, nominal).0;
    ShapeBounds(op);
    ShapeBounds(p);
    CoreIsObject(op);
    CoreIsObject(p);
  }

  lemma AddedFits(e: Tree, t: IntType)
    requires WellFormed(e) && t.prec >= 1
    ensures var k := ShapeOf(Nop(t, e)).core; k >= 1 && (Added(e, t) == 0 || Added(e, t) >= 2 * Half(k))
  {
    CoreIsObject(e);
    NopBounds(e, t);
    var s := ShapeOf(Nop(t, e));
    hide ShapeOf;
    Halves(s.core);
    Pow2Monotone(s.core, s.filled);
  }

  lemma NopBounds(e: Tree, t: IntType)
    requires WellFormed(e) && t.prec >= 1
    ensures var s := ShapeOf(Nop(t, e)); 1 <= s.core <= s.filled <= t.prec
  {
    ShapeBounds(e);
  }

  lemma StrippedValue(op: Tree, nominal: IntType, env: nat -> int)
    requires WellFormed(op) && nominal.prec >= 1 && !op.Cst?
    ensures var (p, u) := Primary(op, nominal); var e := Stripped(op, nominal);
      WellFormed(p) && WellFormed(e) && !e.Cst? && Core(e) == Core(op) && Eval(e, env) == Extended(p, u, env)
  {
    PrimaryCore(op, nominal);
    hide ShapeOf, IntType.Convert;
  }

  /** An operand that is compared in stripped form: in the nominal type it is one of two readings of the
      low bits of its object, and what the stripped operand stands for is the other. */
  lemma Readings(op: Tree, nominal: IntType, env: nat -> int)
    requires WellFormed(op) && nominal.prec >= 1 && Narrow(op, nominal) && !op.Cst?
    ensures var (p, u) := Primary(op, nominal);
      && WellFormed(p) && Core(op).Object? && ShapeOf(op).core >= 1 && Fits(SideOf(op, nominal))
      && var s := SideOf(op, nominal);
        var y := Low(ShapeOf(op).core, env(Core(op).id));
        && InHalf(y, s)
        && nominal.Convert(Extended(p, u, env)) == Read(y, s.narrow)
        && nominal.Convert(Eval(op, env)) == Read(y, s.wide)
  {
    hide Primary, ShapeOf, Low, Added, Eval, Extended, Core, IntType.Convert, Stripped, Narrow, Pow2;
    PrimaryCore(op, nominal);
    StrippedValue(op, nominal, env);
    var e := Stripped(op, nominal);
    AddedFits(op, nominal);
    AddedFits(e, nominal);
    LowRange(ShapeOf(op).core, env(Core(op).id));
    Halves(ShapeOf(op).core);
    ReadValue(e, nominal, env);
    ReadValue(op, nominal, env);
  }

  /** The sides of two operands over one object, in units of the number of values of the first. */
  lemma UnitsOf(op0: Tree, op1: Tree, nominal: IntType) returns (u: Units)
    requires WellFormed(op0) && WellFormed(op1) && nominal.prec >= 1 && !op0.Cst? && !op1.Cst?
    requires Narrow(op0, nominal) && Narrow(op1, nominal) && ShapeOf(op0).core <= ShapeOf(op1).core
    ensures SideOf(op0, nominal).half <= SideOf(op1, nominal).half
    ensures InUnits(SideOf(op0, nominal), SideOf(op1, nominal), u)
  {
    PrimaryCore(op0, nominal);
    PrimaryCore(op1, nominal);
    hide ShapeOf, Primary, Pow2, Added;
    var k0, k1 := ShapeOf(op0).core, ShapeOf(op1).core;
    Halves(k0);
    Halves(k1);
    Pow2Monotone(k0 - 1, k1 - 1);
    var h: nat := if k0 < k1 then k1 - 1 - k0 else 0;
    if k0 < k1 {
      PowerInUnits(k1 - 1, k0);
    }
    var a := AddedInUnits(Stripped(op0, nominal), nominal, k0);
    var a' := AddedInUnits(op0, nominal, k0);
    var b := AddedInUnits(Stripped(op1, nominal), nominal, k0);
    var b' := AddedInUnits(op1, nominal, k0);
    u := Units(Pow2(k0), Pow2(h), a, a', b, b');
    hide Times, Stripped;
  }

  lemma PowerInUnits(j: nat, k: nat)
    requires k <= j
    ensures Pow2(j) == Times(Pow2(j - k), Pow2(k))
  {
    Pow2Add(j - k, k);
    hide Pow2;
  }

  lemma AddedInUnits(e: Tree, t: IntType, k: nat) returns (i: int)
    requires WellFormed(e) && t.prec >= 1 && 1 <= k <= ShapeOf(Nop(t, e)).core
    ensures Added(e, t) == Times(i, Pow2(k))
  {
    hide ShapeOf, Pow2;
    NopBounds(e, t);
    var s := ShapeOf(Nop(t, e));
    PowerInUnits(s.filled, k);
    if s.filled == t.prec && !t.uns {
      i := 0;
      Distribute(1, -1, Pow2(k));
    } else {
      i := Pow2(s.filled - k);
    }
    hide Times;
  }
}
