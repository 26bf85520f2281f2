/**
 Narrowing a comparison preserves its truth value exactly when no operand loses a part of its value that
 matters to the order.
 */
module ShortenTheorem {
  import opened IntTypes
  import opened ShortenCompare
  import opened ShortenOrder
  import opened ShortenValues

  /** Both operands are over one object. */
  predicate OneObject(op0: Tree, op1: Tree) {
    Core(op0).Object? && Core(op1).Object? && Core(op0).id == Core(op1).id
  }

  /** The operands keep their order when they are compared in stripped form. It depends on the precisions
      and signs of the conversions, and on the value of a constant. */
  predicate Kept(op0: Tree, op1: Tree, nominal: IntType)
    requires nominal.prec >= 1
  {
    if op0.Cst? && op1.Cst? then true
    else if op1.Cst? then ConstantKept(SideOf(op0, nominal), nominal.Convert(op1.value))
    else if op0.Cst? then ConstantKept(SideOf(op1, nominal), nominal.Convert(op0.value))
    else if OneObject(op0, op1) then OneObjectKept(SideOf(op0, nominal), SideOf(op1, nominal))
    else OrderKept(SideOf(op0, nominal), SideOf(op1, nominal))
  }

  /** The comparison is done in a narrower type. */
  predicate Narrowed(op0: Tree, op1: Tree, nominal: IntType) {
    var (p1, u1) := Primary(op1, nominal);
    Narrow(op0, nominal) && (p1.Cst? || (Primary(op0, nominal).1 == u1 && Narrow(op1, nominal)))
  }

  predicate SafeOrdered(op0: Tree, op1: Tree, nominal: IntType)
    requires nominal.prec >= 1
  {
    Narrowed(op0, op1, nominal) ==> Kept(op0, op1, nominal)
  }

  predicate Safe(op0: Tree, op1: Tree, nominal: IntType)
    requires nominal.prec >= 1
  {
    if Swapped(op0, op1, nominal) then SafeOrdered(op1, op0, nominal) else SafeOrdered(op0, op1, nominal)
  }

  ghost predicate Sound(s: Shortened) {
    s.Compare? ==> WellFormed(s.op0) && WellFormed(s.op1)
  }

  // ---------------------------------------------------------------- what is compared

  /** An operand in the nominal type, as written, and as it is stripped. */
  ghost function Written(op: Tree, nominal: IntType, env: nat -> int): int
    requires WellFormed(op) && nominal.prec >= 1
  {
    nominal.Convert(Eval(op, env))
  }

  ghost function Taken(op: Tree, nominal: IntType, env: nat -> int): int
    requires WellFormed(op) && nominal.prec >= 1
  {
    if op.Cst? then nominal.Convert(op.value)
    else
      PrimaryCore(op, nominal);
      nominal.Convert(Extended(Primary(op, nominal).0, Primary(op, nominal).1, env))
  }

  ghost predicate OrderSame(op0: Tree, op1: Tree, nominal: IntType, env: nat -> int)
    requires WellFormed(op0) && WellFormed(op1) && nominal.prec >= 1
  {
    SameOrder(Taken(op0, nominal, env), Taken(op1, nominal, env), Written(op0, nominal, env), Written(op1, nominal, env))
  }

  lemma ConstantRead(op: Tree, nominal: IntType, env: nat -> int)
    requires WellFormed(op) && op.Cst? && nominal.prec >= 1
    ensures Written(op, nominal, env) == Taken(op, nominal, env) == nominal.Convert(op.value)
    ensures Primary(op, nominal).0 == op
    ensures Narrow(op, nominal) ==> Extended(op, Primary(op, nominal).1, env) == op.value
  {
    ConvertFacts(op.ty, op.value);
  }

  lemma BothReadings(op: Tree, nominal: IntType, env: nat -> int)
    requires WellFormed(op) && !op.Cst? && nominal.prec >= 1 && Narrow(op, nominal)
    ensures Core(op).Object? && ShapeOf(op).core >= 1 && Fits(SideOf(op, nominal))
    ensures var s := SideOf(op, nominal); var y := Low(ShapeOf(op).core, env(Core(op).id));
      InHalf(y, s) && Taken(op, nominal, env) == Read(y, s.narrow) && Written(op, nominal, env) == Read(y, s.wide)
  {
    PrimaryCore(op, nominal);
    hide Primary, ShapeOf, Low, Eval, Extended, Core, IntType.Convert, SideOf, Fits;
    Readings(op, nominal, env);
  }

  // ---------------------------------------------------------------- the condition is exact

  lemma KeptAgrees(op0: Tree, op1: Tree, nominal: IntType, env: nat -> int)
    requires WellFormed(op0) && WellFormed(op1) && nominal.prec >= 1
    requires Narrowed(op0, op1, nominal) && Kept(op0, op1, nominal)
    ensures OrderSame(op0, op1, nominal, env)
  {
    PrimaryCore(op1, nominal);
    hide Primary, ShapeOf, Low, Eval, Core, IntType.Convert, SideOf, OrderKept, ConstantKept, OneObjectKept, Taken, Written, Read, InHalf, Fits;
    if op1.Cst? {
      ConstantRead(op1, nominal, env);
    } else {
      BothReadings(op1, nominal, env);
    }
    if op0.Cst? {
      ConstantRead(op0, nominal, env);
    } else {
      BothReadings(op0, nominal, env);
    }
    if op0.Cst? && op1.Cst? {
    } else if op1.Cst? {
      ConstantIsKept(SideOf(op0, nominal), Low(ShapeOf(op0).core, env(Core(op0).id)), nominal.Convert(op1.value));
    } else if op0.Cst? {
      ConstantIsKept(SideOf(op1, nominal), Low(ShapeOf(op1).core, env(Core(op1).id)), nominal.Convert(op0.value));
    } else if OneObject(op0, op1) {
      OneObjectAgrees(op0, op1, nominal, env);
    } else {
      OrderIsKept(SideOf(op0, nominal), SideOf(op1, nominal),
                  Low(ShapeOf(op0).core, env(Core(op0).id)), Low(ShapeOf(op1).core, env(Core(op1).id)));
    }
  }

  lemma LowsLinked(j: nat, k: nat, x: int)
    requires 1 <= j <= k
    ensures Congruent(Low(j, x), Low(k, x), Pow2(j))
  {
    LowRange(j, x);
    LowRange(k, x);
    var a, b := Low(j, x), Low(k, x);
    hide *;
    CongruentNarrower(b, x, k, j);
    CongruentSymmetric(b, x, Pow2(j));
    CongruentTransitive(a, x, b, Pow2(j));
  }

  /** The smaller operand first. */
  lemma SmallerFirst(op0: Tree, op1: Tree, nominal: IntType)
    requires WellFormed(op0) && WellFormed(op1) && nominal.prec >= 1 && !op0.Cst? && !op1.Cst?
    requires Narrow(op0, nominal) && Narrow(op1, nominal)
    ensures var a, b := SideOf(op0, nominal), SideOf(op1, nominal); var j, k := ShapeOf(op0).core, ShapeOf(op1).core;
      && 1 <= j && 1 <= k && (a.half <= b.half <==> j <= k) && 2 * a.half == Pow2(j) && 2 * b.half == Pow2(k)
  {
    hide ShapeOf, Primary, Added, Pow2, Core, Narrow;
    PrimaryCore(op0, nominal);
    PrimaryCore(op1, nominal);
    var j, k := ShapeOf(op0).core, ShapeOf(op1).core;
    Halves(j);
    Halves(k);
    if j <= k {
      Pow2Monotone(j - 1, k - 1);
    } else {
      Pow2Monotone(k - 1, j - 1);
    }
  }

  lemma OneObjectAgrees(op0: Tree, op1: Tree, nominal: IntType, env: nat -> int)
    requires WellFormed(op0) && WellFormed(op1) && nominal.prec >= 1 && !op0.Cst? && !op1.Cst?
    requires Narrow(op0, nominal) && Narrow(op1, nominal) && OneObject(op0, op1)
    requires OneObjectKept(SideOf(op0, nominal), SideOf(op1, nominal))
    ensures ShapeOf(op0).core >= 1 && ShapeOf(op1).core >= 1
    ensures SidesAgree(SideOf(op0, nominal), SideOf(op1, nominal),
                       Low(ShapeOf(op0).core, env(Core(op0).id)), Low(ShapeOf(op1).core, env(Core(op1).id)))
  {
    SmallerFirst(op0, op1, nominal);
    hide Primary, ShapeOf, Low, Eval, Core, SideOf, Read, InHalf, Fits, LinkedKept, Pow2, Taken, Written;
    var a, b, j, k := SideOf(op0, nominal), SideOf(op1, nominal), ShapeOf(op0).core, ShapeOf(op1).core;
    var e := env(Core(op0).id);
    BothReadings(op0, nominal, env);
    BothReadings(op1, nominal, env);
    if a.half <= b.half {
      var u := UnitsOf(op0, op1, nominal);
      LowsLinked(j, k, e);
      LinkedIsKept(a, b, u, Low(j, e), Low(k, e));
    } else {
      var u := UnitsOf(op1, op0, nominal);
      LowsLinked(k, j, e);
      LinkedIsKept(b, a, u, Low(k, e), Low(j, e));
    }
  }

  /** Some value of the objects changes the order. */
  lemma KeptLost(op0: Tree, op1: Tree, nominal: IntType) returns (env: nat -> int)
    requires WellFormed(op0) && WellFormed(op1) && nominal.prec >= 1
    requires Narrowed(op0, op1, nominal) && !Kept(op0, op1, nominal)
    ensures !OrderSame(op0, op1, nominal, env)
  {
    PrimaryCore(op1, nominal);
    hide Primary, ShapeOf, Low, Eval, Core, IntType.Convert, SideOf, OrderKept, ConstantKept, OneObjectKept, Taken, Written, Read, InHalf, Fits, Pow2;
    if op1.Cst? {
      BothReadings(op0, nominal, (_) => 0);
      var x := ConstantIsLost(SideOf(op0, nominal), nominal.Convert(op1.value));
      env := (_) => x;
      TakesValue(op0, nominal, x);
      BothReadings(op0, nominal, env);
      ConstantRead(op1, nominal, env);
    } else if op0.Cst? {
      BothReadings(op1, nominal, (_) => 0);
      var y := ConstantIsLost(SideOf(op1, nominal), nominal.Convert(op0.value));
      env := (_) => y;
      TakesValue(op1, nominal, y);
      BothReadings(op1, nominal, env);
      ConstantRead(op0, nominal, env);
    } else if OneObject(op0, op1) {
      env := OneObjectLost(op0, op1, nominal);
    } else {
      env := TwoObjectsLost(op0, op1, nominal);
    }
  }

  /** An object takes any value of the bits that are left of it. */
  lemma TakesValue(op: Tree, nominal: IntType, y: int)
    requires WellFormed(op) && nominal.prec >= 1 && !op.Cst? && Narrow(op, nominal) && InHalf(y, SideOf(op, nominal))
    ensures ShapeOf(op).core >= 1 && Low(ShapeOf(op).core, y) == y
  {
    PrimaryCore(op, nominal);
    LowRange(ShapeOf(op).core, y);
  }

  lemma TwoObjectsLost(op0: Tree, op1: Tree, nominal: IntType) returns (env: nat -> int)
    requires WellFormed(op0) && WellFormed(op1) && nominal.prec >= 1 && !op0.Cst? && !op1.Cst?
    requires Narrow(op0, nominal) && Narrow(op1, nominal) && !OneObject(op0, op1)
    requires !OrderKept(SideOf(op0, nominal), SideOf(op1, nominal))
    ensures !OrderSame(op0, op1, nominal, env)
  {
    hide Primary, ShapeOf, Low, Eval, Core, IntType.Convert, SideOf, OrderKept, Taken, Written, Read, InHalf, Fits;
    BothReadings(op0, nominal, (_) => 0);
    BothReadings(op1, nominal, (_) => 0);
    var x, y := OrderIsLost(SideOf(op0, nominal), SideOf(op1, nominal));
    var first := Core(op0).id;
    env := id => if id == first then x else y;
    TakesValue(op0, nominal, x);
    TakesValue(op1, nominal, y);
    BothReadings(op0, nominal, env);
    BothReadings(op1, nominal, env);
  }

  /** Linked values are values of one object. */
  lemma LowOfLinked(j: nat, x: int, y: int)
    requires j >= 1 && -Pow2(j - 1) <= x < Pow2(j - 1) && Congruent(x, y, Pow2(j))
    ensures Low(j, y) == x
  {
    LowRange(j, y);
    Halves(j);
    CongruentSymmetric(x, y, Pow2(j));
    var z := Low(j, y);
    CongruentTransitive(z, y, x, Pow2(j));
    CongruentUnique(z, x, Pow2(j), Pow2(j - 1) - 1);
  }

  lemma OneObjectLost(op0: Tree, op1: Tree, nominal: IntType) returns (env: nat -> int)
    requires WellFormed(op0) && WellFormed(op1) && nominal.prec >= 1 && !op0.Cst? && !op1.Cst?
    requires Narrow(op0, nominal) && Narrow(op1, nominal) && OneObject(op0, op1)
    requires !OneObjectKept(SideOf(op0, nominal), SideOf(op1, nominal))
    ensures !OrderSame(op0, op1, nominal, env)
  {
    SmallerFirst(op0, op1, nominal);
    hide Primary, ShapeOf, Low, Eval, Core, IntType.Convert, SideOf, LinkedKept, Taken, Written, Read, Fits, Pow2, Congruent;
    var a, b := SideOf(op0, nominal), SideOf(op1, nominal);
    var j, k := ShapeOf(op0).core, ShapeOf(op1).core;
    Halves(j);
    Halves(k);
    BothReadings(op0, nominal, (_) => 0);
    BothReadings(op1, nominal, (_) => 0);
    if a.half <= b.half {
      var u := UnitsOf(op0, op1, nominal);
      var x, y := LinkedIsLost(a, b, u);
      env := (_) => y;
      LowOfLinked(j, x, y);
      TakesValue(op1, nominal, y);
    } else {
      var u := UnitsOf(op1, op0, nominal);
      var y, x := LinkedIsLost(b, a, u);
      env := (_) => x;
      LowOfLinked(k, y, x);
      TakesValue(op0, nominal, x);
    }
    BothReadings(op0, nominal, env);
    BothReadings(op1, nominal, env);
  }

  // ---------------------------------------------------------------- the results

  /** Comparisons agree for every operator exactly when the order is the same. */
  lemma OrderDecides(code: Code, a: int, b: int, c: int, d: int)
    ensures SameOrder(a, b, c, d) ==> Holds(code, a, b) == Holds(code, c, d)
    ensures !SameOrder(a, b, c, d) ==> Holds(LT, a, b) != Holds(LT, c, d) || Holds(EQ, a, b) != Holds(EQ, c, d)
  {
  }

  lemma UnsignedAgainstZero(nominal: IntType, code: Code, v: int)
    requires nominal.prec >= 1 && nominal.uns
    ensures Holds(GE, nominal.Convert(v), nominal.Convert(0)) && !Holds(LT, nominal.Convert(v), nominal.Convert(0))
  {
    ConvertFacts(nominal, v);
    ConvertFacts(nominal, 0);
  }

  lemma InNominalTruth(op0: Tree, op1: Tree, nominal: IntType, code: Code, env: nat -> int)
    requires WellFormed(op0) && WellFormed(op1) && nominal.prec >= 1
    ensures var s := InNominal(op0, op1, nominal, code);
      Sound(s) && Truth(s, env) == Nominally(op0, op1, nominal, code, env)
  {
    ConvertTreeEval(nominal, op0, env);
    ConvertTreeEval(nominal, op1, env);
    if nominal.uns {
      UnsignedAgainstZero(nominal, code, Eval(op0, env));
    }
    hide IntType.Convert;
  }

  /** A comparison that is narrowed compares the stripped operands. */
  lemma NarrowedTruth(op0: Tree, op1: Tree, nominal: IntType, code: Code, env: nat -> int)
    requires WellFormed(op0) && WellFormed(op1) && nominal.prec >= 1 && Narrowed(op0, op1, nominal)
    ensures var s := ShortenOrdered(op0, op1, nominal, code);
      Sound(s) && Truth(s, env) == Holds(code, Taken(op0, nominal, env), Taken(op1, nominal, env))
  {
    PrimaryCore(op0, nominal);
    PrimaryCore(op1, nominal);
    hide Strip, IntType.Convert, Holds, WithConstant, BothNarrow, Truth, ShapeOf, Core, InNominal;
    if op0.Cst? {
      ConstantRead(op0, nominal, env);
    }
    if op1.Cst? {
      ConstantRead(op1, nominal, env);
      ConstantCase(op0, op1, nominal, code, env);
    } else {
      BothNarrowTruth(Primary(op0, nominal).0, Primary(op1, nominal).0, Primary(op0, nominal).1, nominal, code, env);
    }
  }

  /** The comparison of a stripped operand with a constant. */
  lemma ConstantCase(op0: Tree, op1: Tree, nominal: IntType, code: Code, env: nat -> int)
    requires WellFormed(op0) && WellFormed(op1) && nominal.prec >= 1 && op1.Cst? && Narrow(op0, nominal)
    ensures var (p0, u0) := Primary(op0, nominal);
      WellFormed(p0) &&
      var s := WithConstant(p0, u0, op1.value, nominal, code);
      Sound(s) && Truth(s, env) == Holds(code, nominal.Convert(Extended(p0, u0, env)), nominal.Convert(op1.value))
  {
    PrimaryCore(op0, nominal);
    var (p0, u0) := Primary(op0, nominal);
    hide Strip, IntType.Convert, Holds, WithConstant, Truth, ShapeOf, Core;
    if nominal.uns && !u0 {
      MixedConstant(p0, op1.value, nominal, code, env);
    } else {
      PlainConstant(p0, u0, op1.value, nominal, code, env);
    }
  }

  lemma OrderedTruth(op0: Tree, op1: Tree, nominal: IntType, code: Code, env: nat -> int)
    requires WellFormed(op0) && WellFormed(op1) && nominal.prec >= 1 && SafeOrdered(op0, op1, nominal)
    ensures var s := ShortenOrdered(op0, op1, nominal, code);
      Sound(s) && Truth(s, env) == Nominally(op0, op1, nominal, code, env)
  {
    PrimaryCore(op1, nominal);
    hide Holds, InNominal, WithConstant, BothNarrow, Truth, Sound, Primary, Kept, Taken, Eval, IntType.Convert, Core, ShapeOf;
    if Narrowed(op0, op1, nominal) {
      KeptAgrees(op0, op1, nominal, env);
      NarrowedTruth(op0, op1, nominal, code, env);
      OrderDecides(code, Taken(op0, nominal, env), Taken(op1, nominal, env),
                   Written(op0, nominal, env), Written(op1, nominal, env));
    } else {
      InNominalTruth(op0, op1, nominal, code, env);
    }
  }

  lemma UnsafeOrdered(op0: Tree, op1: Tree, nominal: IntType) returns (code: Code, env: nat -> int)
    requires WellFormed(op0) && WellFormed(op1) && nominal.prec >= 1 && !SafeOrdered(op0, op1, nominal)
    ensures var s := ShortenOrdered(op0, op1, nominal, code);
      !(Sound(s) && Truth(s, env) == Nominally(op0, op1, nominal, code, env))
  {
    hide Holds, Truth, Sound, Primary, Narrowed, Kept, Taken, Eval, IntType.Convert, ShortenOrdered;
    env := KeptLost(op0, op1, nominal);
    var a, b, v, w := Taken(op0, nominal, env), Taken(op1, nominal, env), Written(op0, nominal, env), Written(op1, nominal, env);
    OrderDecides(EQ, a, b, v, w);
    code := if Holds(EQ, a, b) != Holds(EQ, v, w) then EQ else LT;
    NarrowedTruth(op0, op1, nominal, code, env);
  }

  /** Main theorem.  For every operand, precision, signedness, operator and value: what
      `shorten_compare` leaves, or the constant it returns, is true exactly when comparing the
      operands in the nominal type is. */
  lemma ShortenPreserves(op0: Tree, op1: Tree, nominal: IntType, code: Code, env: nat -> int)
    requires WellFormed(op0) && WellFormed(op1) && nominal.prec >= 1 && Safe(op0, op1, nominal)
    ensures var s := Shorten(op0, op1, nominal, code);
      Sound(s) && Truth(s, env) == Nominally(op0, op1, nominal, code, env)
  {
    hide SafeOrdered, ShortenOrdered, Truth;
    if Swapped(op0, op1, nominal) {
      OrderedTruth(op1, op0, nominal, Mirror(code), env);
    } else {
      OrderedTruth(op0, op1, nominal, code, env);
    }
  }

  /** For all operators and values, the result is true when the comparison as written is. */
  ghost predicate AlwaysAgrees(op0: Tree, op1: Tree, nominal: IntType)
    requires WellFormed(op0) && WellFormed(op1) && nominal.prec >= 1
  {
    forall code: Code, env: nat -> int :: Agrees(op0, op1, nominal, code, env)
  }

  ghost predicate Agrees(op0: Tree, op1: Tree, nominal: IntType, code: Code, env: nat -> int)
    requires WellFormed(op0) && WellFormed(op1) && nominal.prec >= 1
  {
    var s := Shorten(op0, op1, nominal, code);
    Sound(s) && Truth(s, env) == Nominally(op0, op1, nominal, code, env)
  }

  /** The exact condition, for all operands: the result agrees with the comparison as written for every
      operator and all values if and only if the operands are safe. */
  lemma SafeIsExact(op0: Tree, op1: Tree, nominal: IntType)
    requires WellFormed(op0) && WellFormed(op1) && nominal.prec >= 1
    ensures Safe(op0, op1, nominal) <==> AlwaysAgrees(op0, op1, nominal)
  {
    hide Safe, Shorten, Truth, Nominally, Sound;
    if Safe(op0, op1, nominal) {
      forall code: Code, env: nat -> int ensures Agrees(op0, op1, nominal, code, env) {
        ShortenPreserves(op0, op1, nominal, code, env);
      }
    } else {
      var code, env := Unsafe(op0, op1, nominal);
    }
  }

  lemma Unsafe(op0: Tree, op1: Tree, nominal: IntType) returns (code: Code, env: nat -> int)
    requires WellFormed(op0) && WellFormed(op1) && nominal.prec >= 1 && !Safe(op0, op1, nominal)
    ensures !Agrees(op0, op1, nominal, code, env)
  {
    hide SafeOrdered, ShortenOrdered, Truth, Sound, Strip, Nominally;
    if Swapped(op0, op1, nominal) {
      code, env := UnsafeOrdered(op1, op0, nominal);
      MirrorNominally(op0, op1, nominal, code, env);
      code := Mirror(code);
    } else {
      code, env := UnsafeOrdered(op0, op1, nominal);
    }
  }

  lemma MirrorNominally(op0: Tree, op1: Tree, nominal: IntType, code: Code, env: nat -> int)
    requires WellFormed(op0) && WellFormed(op1) && nominal.prec >= 1
    ensures Mirror(Mirror(code)) == code
    ensures Nominally(op0, op1, nominal, Mirror(code), env) == Nominally(op1, op0, nominal, code, env)
  {
    hide IntType.Convert, Eval;
  }

  // ---------------------------------------------------------------- one operand

  /** Stripping loses nothing: no bits, or only copies of a sign that no value has. */
  predicate Keeps(op: Tree, nominal: IntType) {
    KeepsBits(op, nominal) || ShapeOf(Primary(op, nominal).0).filled < Primary(op, nominal).0.ty.prec
  }

  ghost predicate AlwaysTaken(op: Tree, nominal: IntType)
    requires WellFormed(op) && nominal.prec >= 1
  {
    forall env: nat -> int :: Taken(op, nominal, env) == Written(op, nominal, env)
  }

  /** What a conversion to the other signedness at `wide` values makes of a value. */
  function Through(x: int, u: bool, wide: int): int {
    if u then (if 2 * x >= wide then x - wide else x)
    else if x < 0 then x + wide else x
  }

  /** When stripping does not keep the bits, the operand was converted to the other signedness. */
  lemma LostValue(op: Tree, nominal: IntType, env: nat -> int)
    requires WellFormed(op) && nominal.prec >= 1 && !KeepsBits(op, nominal)
    ensures var (p, u) := Primary(op, nominal);
      && WellFormed(p) && Eval(op, env) == Through(Extended(p, u, env), u, Pow2(op.ty.prec))
      && p.ty.prec <= op.ty.prec < nominal.prec && (u ==> p.ty.prec == op.ty.prec)
  {
    var (p, u) := Primary(op, nominal);
    var q := op.ty.prec;
    PrimaryBits(op, nominal, env);
    EvalInType(op, env);
    ConvertFacts(p.ty.WithSign(u), Eval(p, env));
    var v, x := Eval(op, env), Extended(p, u, env);
    var y := Through(x, u, Pow2(q));
    TypeHas(p.ty.WithSign(u), x);
    TypeHas(op.ty, y);
    Pow2Monotone(p.ty.prec, q);
    Pow2Monotone(p.ty.prec - 1, q - 1);
    Halves(p.ty.prec);
    Halves(q);
    hide Strip, Pow2, IntType.Convert, IntType.Min, IntType.Max, Eval;
    assert op.ty.Has(y);
    ThroughCongruent(x, u, q);
    CongruentSymmetric(y, x, Pow2(q));
    CongruentTransitive(v, x, y, Pow2(q));
    SameValue(op.ty, v, y);
  }

  lemma SameValue(t: IntType, a: int, b: int)
    requires t.prec >= 1 && t.Has(a) && t.Has(b) && Congruent(a, b, Pow2(t.prec))
    ensures a == b
  {
    TypeRange(t);
    CongruentUnique(a, b, Pow2(t.prec), t.Max());
  }

  lemma ThroughCongruent(x: int, u: bool, q: nat)
    ensures Congruent(Through(x, u, Pow2(q)), x, Pow2(q))
  {
    var m := Pow2(q);
    Distribute(1, 0, m);
    var y := Through(x, u, m);
    assert y == x + Times(if y == x then 0 else if u then -1 else 1, m);
  }

  /** The value of a stripped operand for the value -1 of the bits of its object. */
  lemma StrippedMinusOne(op: Tree, nominal: IntType)
    requires WellFormed(op) && nominal.prec >= 1 && !op.Cst?
    ensures var (p, u) := Primary(op, nominal); var w := ShapeOf(p).filled;
      WellFormed(p) && w <= p.ty.prec && Extended(p, u, (_) => -1) == if w == p.ty.prec && !u then -1 else Pow2(w) - 1
  {
    PrimaryCore(op, nominal);
    var (p, u) := Primary(op, nominal);
    var s := ShapeOf(p);
    ShapeBounds(p);
    ShapeValue(p, (_) => -1);
    LowRange(s.core, -1);
    Halves(s.core);
    var f := Filled(-1, s.filled);
    hide ShapeOf, Primary, Pow2, Low, Core, IntType.Convert;
    SameBits(p.ty.WithSign(u), p.ty.uns, f);
    ReadIn(p.ty.WithSign(u), -1, s.core, s.filled);
  }

  /** Stripping keeps the value of an operand for all values of its object if and only if it keeps its
      bits or those it loses are zero. */
  lemma KeepsMeans(op: Tree, nominal: IntType)
    requires WellFormed(op) && nominal.prec >= 1 && !op.Cst? && Narrow(op, nominal)
    ensures Keeps(op, nominal) <==> AlwaysTaken(op, nominal)
    ensures Keeps(op, nominal) <==> SideOf(op, nominal).narrow == SideOf(op, nominal).wide
  {
    hide Keeps, SideOf, Primary, Taken, Written, Low, ShapeOf, Core, Eval;
    var env: nat -> int := (_) => -1;
    BothReadings(op, nominal, env);
    TakesMinusOne(op, nominal);
    KeepsMinusOne(op, nominal);
    forall e: nat -> int
      ensures SideOf(op, nominal).narrow == SideOf(op, nominal).wide ==> Taken(op, nominal, e) == Written(op, nominal, e)
    {
      BothReadings(op, nominal, e);
    }
  }

  lemma TakesMinusOne(op: Tree, nominal: IntType)
    requires WellFormed(op) && nominal.prec >= 1 && !op.Cst? && Narrow(op, nominal)
    ensures ShapeOf(op).core >= 1 && Low(ShapeOf(op).core, -1) == -1
  {
    PrimaryCore(op, nominal);
    LowRange(ShapeOf(op).core, -1);
  }

  lemma KeepsMinusOne(op: Tree, nominal: IntType)
    requires WellFormed(op) && nominal.prec >= 1 && !op.Cst? && Narrow(op, nominal)
    ensures Keeps(op, nominal) <==> Taken(op, nominal, (_) => -1) == Written(op, nominal, (_) => -1)
  {
    hide KeepsBits, Primary, ShapeOf, Core, IntType.Convert, Eval, Extended;
    PrimaryCore(op, nominal);
    if KeepsBits(op, nominal) {
      KeepsValue(op, nominal, (_) => -1);
    } else {
      LostMinusOne(op, nominal);
    }
  }

  lemma LostMinusOne(op: Tree, nominal: IntType)
    requires WellFormed(op) && nominal.prec >= 1 && !op.Cst? && Narrow(op, nominal) && !KeepsBits(op, nominal)
    ensures var (p, u) := Primary(op, nominal);
      WellFormed(p) &&
      (ShapeOf(p).filled < p.ty.prec <==> nominal.Convert(Extended(p, u, (_) => -1)) == Written(op, nominal, (_) => -1))
  {
    hide KeepsBits, Primary, ShapeOf, Core, IntType.Convert, Eval, Extended, Pow2, Through;
    PrimaryCore(op, nominal);
    var (p, u) := Primary(op, nominal);
    LostValue(op, nominal, (_) => -1);
    StrippedMinusOne(op, nominal);
    ShapeBounds(p);
    MinusOneLost(p.ty.prec, ShapeOf(p).filled, op.ty.prec, u, nominal);
  }

  lemma MinusOneLost(p: nat, w: nat, q: nat, u: bool, nominal: IntType)
    requires 1 <= w <= p <= q < nominal.prec && (u ==> p == q)
    ensures var x := if w == p && !u then -1 else Pow2(w) - 1;
      w < p <==> nominal.Convert(x) == nominal.Convert(Through(x, u, Pow2(q)))
  {
    var x := if w == p && !u then -1 else Pow2(w) - 1;
    var y := Through(x, u, Pow2(q));
    Pow2Monotone(w, p);
    Pow2Monotone(p, q);
    Halves(q);
    Halves(w);
    assert w < p ==> x == y;
    Pow2Monotone(q, nominal.prec);
    hide Pow2, IntType.Convert;
    ConvertIff(nominal, x, y);
    if w == p && Congruent(x, y, Pow2(nominal.prec)) {
      var d := Pow2(nominal.prec);
      CongruentUnique(x, y, d, if x > y then x else y);
    }
  }

  /** An operand that does not count as constant is narrowed correctly against all constants if and only if
      stripping keeps it. */
  lemma KeepsIsExact(op: Tree, nominal: IntType)
    requires WellFormed(op) && nominal.prec >= 1 && Narrow(op, nominal) && !TreeConstant(Primary(op, nominal).0)
    ensures Keeps(op, nominal) <==> forall c: int | nominal.Has(c) :: AlwaysAgrees(op, Cst(nominal, c), nominal)
  {
    PrimaryCore(op, nominal);
    hide AlwaysAgrees, Keeps, Strip, ConstantKept, IntType.Convert;
    KeepsMeans(op, nominal);
    forall c: int | nominal.Has(c)
      ensures AlwaysAgrees(op, Cst(nominal, c), nominal) <==> ConstantKept(SideOf(op, nominal), c)
    {
      ConstantPrimary(nominal, c);
      ConvertFacts(nominal, c);
      SafeIsExact(op, Cst(nominal, c), nominal);
    }
    if Keeps(op, nominal) {
      KeptIsSafe(SideOf(op, nominal));
    } else {
      var c := MeetsLost(op, nominal);
      assert !AlwaysAgrees(op, Cst(nominal, c), nominal);
    }
  }

  lemma ConstantPrimary(t: IntType, c: int)
    requires t.prec >= 1
    ensures GetNarrower(Cst(t, c)) == (Cst(t, c), false)
  {
  }

  lemma KeptIsSafe(a: Side)
    requires a.narrow == a.wide
    ensures forall c :: ConstantKept(a, c)
  {
  }

  /** Some constant lies among the values lost. */
  lemma MeetsLost(op: Tree, nominal: IntType) returns (c: int)
    requires WellFormed(op) && nominal.prec >= 1 && !op.Cst? && Narrow(op, nominal)
    requires SideOf(op, nominal).narrow != SideOf(op, nominal).wide
    ensures nominal.Has(c) && !ConstantKept(SideOf(op, nominal), c)
  {
    hide SideOf, ShapeOf, Low, Core, Primary, Eval;
    var env: nat -> int := (_) => -1;
    BothReadings(op, nominal, env);
    TakesMinusOne(op, nominal);
    PrimaryCore(op, nominal);
    var s := SideOf(op, nominal);
    ConvertFacts(nominal, Eval(op, env));
    ConvertFacts(nominal, Extended(Primary(op, nominal).0, Primary(op, nominal).1, env));
    hide IntType.Convert;
    c := (if s.narrow < s.wide then s.wide else s.narrow) - 1;
  }

  /** Operands as wide as the nominal type, and operands never converted, are always safe. */
  lemma UnconvertedIsSafe(op0: Tree, op1: Tree, nominal: IntType)
    requires WellFormed(op0) && WellFormed(op1) && nominal.prec >= 1
    requires op0.Nop? ==> op0.ty.prec >= nominal.prec
    requires op1.Nop? ==> op1.ty.prec >= nominal.prec
    ensures Safe(op0, op1, nominal)
  {
    hide SideOf, Primary, ShapeOf, Core, Eval, Swapped;
    UnconvertedKeeps(op0, nominal);
    UnconvertedKeeps(op1, nominal);
    UnchangedIsKept(op0, op1, nominal);
    UnchangedIsKept(op1, op0, nominal);
  }

  lemma UnconvertedKeeps(op: Tree, nominal: IntType)
    requires WellFormed(op) && nominal.prec >= 1 && (op.Nop? ==> op.ty.prec >= nominal.prec)
    ensures Primary(op, nominal).0.Cst? <==> op.Cst?
    ensures Narrow(op, nominal) && !op.Cst? ==> SideOf(op, nominal).narrow == SideOf(op, nominal).wide
  {
    PrimaryCore(op, nominal);
    assert KeepsBits(op, nominal);
    hide KeepsBits, SideOf, Strip;
    if Narrow(op, nominal) && !op.Cst? {
      KeepsMeans(op, nominal);
    }
  }

  lemma UnchangedIsKept(op0: Tree, op1: Tree, nominal: IntType)
    requires nominal.prec >= 1 && (Primary(op1, nominal).0.Cst? <==> op1.Cst?)
    requires Narrow(op0, nominal) && !op0.Cst? ==> SideOf(op0, nominal).narrow == SideOf(op0, nominal).wide
    requires Narrow(op1, nominal) && !op1.Cst? ==> SideOf(op1, nominal).narrow == SideOf(op1, nominal).wide
    ensures SafeOrdered(op0, op1, nominal)
  {
    hide SideOf, Primary, ShapeOf, Core;
  }
}
