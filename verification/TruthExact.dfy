/**
 When the conversion of truth values is right: a complex operand that makes a call is the only thing
 that can go wrong, and whenever one is reached something does.
 */
module TruthExact {
  import opened IntTypes
  import opened TruthValue
  import opened TruthTheorem

  // ---------------------------------------------------------------- what evaluation depends on

  lemma {:induction false} Grows(e: Expr, o: Oracle, s: seq<nat>)
    ensures s <= Eval(e, o, s).1
    decreases e, 1
  {
    hide Related, NegateValue, AbsValue, ConvertValue, Converted, RotateValue, MinusValue, BitValue, Yield, Nonzero, TypeOf;
    match e
    case IntCst(_, _) =>
    case RealCst(_, _) =>
    case Load(_, _) =>
    case Call(_, _) =>
    case Compare(_, a, b) => GrowsTwo(e, a, b, o, s);
    case Logical(_, a, b) => Grows(a, o, s); GrowsTwo(e, a, b, o, s);
    case AddressOf(_, a) => Grows(a, o, s);
    case Complex(_, a, b) => GrowsTwo(e, a, b, o, s);
    case RealPart(a) => Grows(a, o, s);
    case ImagPart(a) => Grows(a, o, s);
    case Negate(a) => Grows(a, o, s);
    case Abs(a) => Grows(a, o, s);
    case Ffs(a) => Grows(a, o, s);
    case Float(_, a) => Grows(a, o, s);
    case Rotate(_, a, n) => GrowsTwo(e, n, a, o, s);
    case Cond(c, a, b) => GrowsTwo(e, c, a, o, s); GrowsTwo(e, c, b, o, s);
    case Convert(_, _, a) => Grows(a, o, s);
    case Minus(_, a, b) => GrowsTwo(e, a, b, o, s);
    case BitXor(_, a, b) => GrowsTwo(e, a, b, o, s);
    case BitAnd(_, a, b) => GrowsTwo(e, a, b, o, s);
    case Compound(a, b) => GrowsTwo(e, a, b, o, s);
  }

  lemma {:induction false} GrowsTwo(e: Expr, a: Expr, b: Expr, o: Oracle, s: seq<nat>)
    requires a < e && b < e
    ensures s <= Eval(a, o, s).1 <= Eval(b, o, Eval(a, o, s).1).1
    decreases e, 0
  {
    hide Eval;
    Grows(a, o, s);
    Grows(b, o, Eval(a, o, s).1);
  }

  /** From `s` to `end` one oracle answers as the other does from `t`. */
  ghost predicate Alike(o: Oracle, s: seq<nat>, p: Oracle, t: seq<nat>, end: seq<nat>) {
    && s <= end && o.minus == p.minus && o.narrow == p.narrow
    && forall id, h :: s <= h <= end ==> o.answer(id, h) == p.answer(id, t + h[|s|..])
  }

  function Moved(s: seq<nat>, t: seq<nat>, end: seq<nat>): seq<nat>
    requires s <= end
  {
    t + end[|s|..]
  }

  lemma AlikeParts(o: Oracle, s: seq<nat>, p: Oracle, t: seq<nat>, mid: seq<nat>, end: seq<nat>)
    requires Alike(o, s, p, t, end) && s <= mid <= end
    ensures Alike(o, s, p, t, mid) && Alike(o, mid, p, Moved(s, t, mid), end)
    ensures Moved(mid, Moved(s, t, mid), end) == Moved(s, t, end)
  {
    forall id, h | mid <= h <= end
      ensures o.answer(id, h) == p.answer(id, Moved(s, t, mid) + h[|mid|..])
    {
      assert Moved(s, t, mid) + h[|mid|..] == t + h[|s|..];
    }
  }

  /** Operations with two operands that are both evaluated. */
  predicate Binary(e: Expr) {
    e.Compare? || e.Complex? || e.Rotate? || e.Minus? || e.BitXor? || e.BitAnd? || e.Compound?
  }

  /** Evaluation depends only on the answers from its start to its end. */
  lemma {:induction false} Shifted(e: Expr, o: Oracle, s: seq<nat>, p: Oracle, t: seq<nat>)
    requires Alike(o, s, p, t, Eval(e, o, s).1)
    ensures Eval(e, p, t) == (Eval(e, o, s).0, Moved(s, t, Eval(e, o, s).1))
    decreases e, 2
  {
    hide Related, NegateValue, AbsValue, ConvertValue, Converted, RotateValue, MinusValue, BitValue, HasType, Nonzero, TypeOf, Moved;
    if Binary(e) {
      ShiftedBinary(e, o, s, p, t);
      return;
    }
    match e
    case IntCst(_, _) => MovedNowhere(s, t);
    case RealCst(_, _) => MovedNowhere(s, t);
    case Load(_, id) => AnswersAlike(o, s, p, t, s, id);
    case Call(_, id) => AnswersAlike(o, s, p, t, s + [id], id);
    case Logical(_, _, _) => ShiftedLogical(e, o, s, p, t);
    case AddressOf(_, a) => Shifted(a, o, s, p, t);
    case RealPart(a) => Shifted(a, o, s, p, t);
    case ImagPart(a) => Shifted(a, o, s, p, t);
    case Negate(a) => Shifted(a, o, s, p, t);
    case Abs(a) => Shifted(a, o, s, p, t);
    case Ffs(a) => Shifted(a, o, s, p, t);
    case Float(_, a) => Shifted(a, o, s, p, t);
    case Cond(c, a, b) => ShiftedTwo(e, c, if Nonzero(Eval(c, o, s).0) then a else b, o, s, p, t);
    case Convert(_, _, a) => Shifted(a, o, s, p, t);
  }

  lemma {:induction false} ShiftedBinary(e: Expr, o: Oracle, s: seq<nat>, p: Oracle, t: seq<nat>)
    requires Binary(e) && Alike(o, s, p, t, Eval(e, o, s).1)
    ensures s <= Eval(e, o, s).1 && Eval(e, p, t) == (Eval(e, o, s).0, Moved(s, t, Eval(e, o, s).1))
    decreases e, 1
  {
    hide Related, NegateValue, AbsValue, ConvertValue, Converted, RotateValue, MinusValue, BitValue, HasType, Nonzero, TypeOf, Moved;
    match e
    case Compare(_, a, b) => ShiftedTwo(e, a, b, o, s, p, t);
    case Complex(_, a, b) => ShiftedTwo(e, a, b, o, s, p, t);
    case Rotate(_, a, n) => ShiftedTwo(e, n, a, o, s, p, t);
    case Minus(_, a, b) => ShiftedTwo(e, a, b, o, s, p, t);
    case BitXor(_, a, b) => ShiftedTwo(e, a, b, o, s, p, t);
    case BitAnd(_, a, b) => ShiftedTwo(e, a, b, o, s, p, t);
    case Compound(a, b) => ShiftedTwo(e, a, b, o, s, p, t);
  }

  lemma {:induction false} ShiftedLogical(e: Expr, o: Oracle, s: seq<nat>, p: Oracle, t: seq<nat>)
    requires e.Logical? && Alike(o, s, p, t, Eval(e, o, s).1)
    ensures s <= Eval(e, o, s).1 && Eval(e, p, t) == (Eval(e, o, s).0, Moved(s, t, Eval(e, o, s).1))
    decreases e, 1
  {
    hide Nonzero, Moved;
    Grows(e.right, o, Eval(e.left, o, s).1);
    ShiftedOne(e, e.left, o, s, p, t);
    if Eval(e, o, s).1 == Eval(e.right, o, Eval(e.left, o, s).1).1 {
      ShiftedTwo(e, e.left, e.right, o, s, p, t);
    }
  }

  lemma MovedNowhere(s: seq<nat>, t: seq<nat>)
    ensures Moved(s, t, s) == t
  {
  }

  lemma AnswersAlike(o: Oracle, s: seq<nat>, p: Oracle, t: seq<nat>, end: seq<nat>, id: nat)
    requires Alike(o, s, p, t, end)
    ensures o.answer(id, s) == p.answer(id, t) && Moved(s, t, s) == t && Moved(s, t, s + [id]) == t + [id]
  {
    assert t + s[|s|..] == t;
  }

  lemma {:induction false} ShiftedOne(e: Expr, a: Expr, o: Oracle, s: seq<nat>, p: Oracle, t: seq<nat>)
    requires a < e && Eval(a, o, s).1 <= Eval(e, o, s).1 && Alike(o, s, p, t, Eval(e, o, s).1)
    ensures s <= Eval(a, o, s).1 && Eval(a, p, t) == (Eval(a, o, s).0, Moved(s, t, Eval(a, o, s).1))
    decreases e, 0
  {
    hide Eval;
    Grows(a, o, s);
    AlikeParts(o, s, p, t, Eval(a, o, s).1, Eval(e, o, s).1);
    Shifted(a, o, s, p, t);
  }

  /** The same for two operands, one after the other. */
  lemma {:induction false} ShiftedTwo(e: Expr, a: Expr, b: Expr, o: Oracle, s: seq<nat>, p: Oracle, t: seq<nat>)
    requires a < e && b < e && Alike(o, s, p, t, Eval(b, o, Eval(a, o, s).1).1)
    ensures var (v, s1) := Eval(a, o, s);
      && s <= s1 && Eval(a, p, t) == (v, Moved(s, t, s1))
      && s <= Eval(b, o, s1).1
      && Eval(b, p, Moved(s, t, s1)) == (Eval(b, o, s1).0, Moved(s, t, Eval(b, o, s1).1))
    decreases e, 0
  {
    hide Eval, Moved;
    GrowsTwo(e, a, b, o, s);
    var s1 := Eval(a, o, s).1;
    AlikeParts(o, s, p, t, s1, Eval(b, o, s1).1);
    Shifted(a, o, s, p, t);
    Shifted(b, o, s1, p, Moved(s, t, s1));
  }

  // ---------------------------------------------------------------- an oracle that stops changing

  /** `o` up to history `p`; from then on the answers are those at `p`. */
  function Frozen(o: Oracle, p: seq<nat>): Oracle {
    o.(answer := (id: nat, h: seq<nat>) => if p <= h then o.answer(id, p) else o.answer(id, h))
  }

  /** Up to `p` nothing changes. */
  lemma FrozenBefore(e: Expr, o: Oracle, p: seq<nat>, s: seq<nat>)
    requires Eval(e, o, s).1 <= p
    ensures Eval(e, Frozen(o, p), s) == Eval(e, o, s)
  {
    hide Eval;
    Grows(e, o, s);
    forall id, h | s <= h <= Eval(e, o, s).1
      ensures o.answer(id, h) == Frozen(o, p).answer(id, s + h[|s|..])
    {
      assert s + h[|s|..] == h;
      assert p <= h ==> p == h;
    }
    Shifted(e, o, s, Frozen(o, p), s);
    assert Moved(s, s, Eval(e, o, s).1) == Eval(e, o, s).1;
  }

  /** An expression that makes a call still makes one when the answers are frozen at its start. */
  lemma FrozenCalls(e: Expr, o: Oracle, s: seq<nat>)
    requires Eval(e, o, s).1 != s
    ensures Eval(e, Frozen(o, s), s).1 != s
  {
    hide Eval;
    if Eval(e, Frozen(o, s), s).1 == s {
      assert s + s[|s|..] == s;
      Shifted(e, Frozen(o, s), s, o, s);
    }
  }

  /** From `p` on the value and the calls do not depend on the history. */
  lemma FrozenAfter(e: Expr, o: Oracle, p: seq<nat>, h: seq<nat>)
    requires p <= h
    ensures p <= Eval(e, Frozen(o, p), p).1
    ensures Eval(e, Frozen(o, p), h) == (Eval(e, Frozen(o, p), p).0, h + Eval(e, Frozen(o, p), p).1[|p|..])
  {
    hide Eval;
    Grows(e, Frozen(o, p), p);
    Shifted(e, Frozen(o, p), p, Frozen(o, p), h);
  }

  /** The number of calls from `p` on. */
  ghost function Calls(e: Expr, o: Oracle, p: seq<nat>): nat {
    Grows(e, Frozen(o, p), p);
    |Eval(e, Frozen(o, p), p).1| - |p|
  }

  lemma CallsAdd(e: Expr, o: Oracle, p: seq<nat>, h: seq<nat>)
    requires p <= h
    ensures p <= h <= Eval(e, Frozen(o, p), h).1 && |Eval(e, Frozen(o, p), h).1| == |h| + Calls(e, o, p)
    ensures Eval(e, Frozen(o, p), h).0 == Eval(e, Frozen(o, p), p).0
  {
    hide Eval;
    FrozenAfter(e, o, p, h);
  }

  lemma NoCalls(e: Expr, o: Oracle, p: seq<nat>)
    requires !SideEffects(e)
    ensures Calls(e, o, p) == 0
  {
    hide Eval, SideEffects;
    NoSideEffects(e, Frozen(o, p), p);
  }

  // ---------------------------------------------------------------- no call is lost

  /** Calls of an expression with two operands evaluated in turn. */
  lemma CallsOfTwo(a: Expr, b: Expr, o: Oracle, p: seq<nat>)
    ensures var (v, s1) := Eval(a, Frozen(o, p), p);
      var (w, s2) := Eval(b, Frozen(o, p), s1);
      |s2| == |p| + Calls(a, o, p) + Calls(b, o, p) && w == Eval(b, Frozen(o, p), p).0
  {
    hide Eval;
    CallsAdd(a, o, p, p);
    CallsAdd(b, o, p, Eval(a, Frozen(o, p), p).1);
  }

  /** A complex expression compared part by part makes every call twice. */
  lemma CallsAgainstZero(e: Expr, o: Oracle, p: seq<nat>)
    ensures Calls(AgainstZero(e), o, p) ==
            if TypeOf(e).TComplex? && SideEffects(e) then 2 * Calls(e, o, p) else Calls(e, o, p)
  {
    hide TypeOf, SideEffects, Related, HasType;
    var f := Frozen(o, p);
    var s1 := Eval(e, f, p).1;
    assert Eval(ZERO, f, s1) == (I(0), s1);
    if TypeOf(e).TComplex? {
      var re, im := Compare(NotEqual, RealPart(e), ZERO), Compare(NotEqual, ImagPart(e), ZERO);
      PartTrace(e, f, p);
      PartTrace(e, f, s1);
      CallsOfTwo(e, e, o, p);
      if !SideEffects(e) {
        NoCalls(e, o, p);
      }
      hide Frozen;
    }
  }

  lemma PartTrace(e: Expr, o: Oracle, s: seq<nat>)
    ensures Eval(Compare(NotEqual, RealPart(e), ZERO), o, s).1 == Eval(e, o, s).1
    ensures Eval(Compare(NotEqual, ImagPart(e), ZERO), o, s).1 == Eval(e, o, s).1
  {
    var s1 := Eval(e, o, s).1;
    assert Eval(ZERO, o, s1).1 == s1;
    assert Eval(RealPart(e), o, s).1 == s1 && Eval(ImagPart(e), o, s).1 == s1;
  }

  lemma CallsOfDifference(e: Expr, o: Oracle, p: seq<nat>)
    requires e.Minus? || e.BitXor?
    ensures Calls(Differ(e.left, e.right), o, p) == Calls(e, o, p)
  {
    EvalOfDiffer(e.left, e.right, Frozen(o, p), p);
    EvalOfDifference(e, e.left, e.right, Frozen(o, p), p);
    hide Eval, Differ;
  }

  lemma CallsOfRest(e: Expr, ieee: bool, o: Oracle, p: seq<nat>)
    requires Leaf(e) || (e.Convert? && !Transparent(e))
    ensures Calls(ToTruth(e, ieee), o, p) >= Calls(e, o, p)
  {
    hide Eval, AgainstZero, Differ, Transparent;
    match e
    case AddressOf(_, a) => CallsOfAddress(e, ieee, o, p);
    case IntCst(_, _) => NoCalls(e, o, p);
    case RealCst(_, _) => NoCalls(e, o, p);
    case Minus(_, a, b) => CallsAgainstZero(e, o, p); CallsOfDifference(e, o, p);
    case BitXor(_, a, b) => CallsOfDifference(e, o, p);
    case _ => CallsAgainstZero(e, o, p);
  }

  lemma CallsOfAddress(e: Expr, ieee: bool, o: Oracle, p: seq<nat>)
    requires e.AddressOf?
    ensures Calls(ToTruth(e, ieee), o, p) >= Calls(e, o, p)
  {
    if SideEffects(e.object_) {
      var s1 := Eval(e.object_, Frozen(o, p), p).1;
      assert Eval(ONE, Frozen(o, p), s1).1 == s1;
    } else {
      NoCalls(e, o, p);
    }
  }

  /** The conversion of a pair against the pair. */
  lemma CallsOfPair(a: Expr, b: Expr, c: Expr, d: Expr, j: Junction, t: Ty, o: Oracle, p: seq<nat>)
    requires Calls(c, o, p) >= Calls(a, o, p) && Calls(d, o, p) >= Calls(b, o, p)
    requires j == Or || (j == OrIf && !SideEffects(b))
    ensures Calls(Logical(j, c, d), o, p) >= Calls(Complex(t, a, b), o, p)
  {
    hide SideEffects;
    CallsOfTwo(a, b, o, p);
    CallsOfTwo(c, d, o, p);
    if j == OrIf {
      NoCalls(b, o, p);
    }
  }

  lemma CallsOfRotate(e: Expr, t: Expr, o: Oracle, p: seq<nat>)
    requires e.Rotate? && Calls(t, o, p) >= Calls(e.arg, o, p)
    ensures Calls(if SideEffects(e.count) then Compound(e.count, t) else t, o, p) >= Calls(e, o, p)
  {
    hide SideEffects, RotateValue, TypeOf;
    CallsOfTwo(e.count, e.arg, o, p);
    CallsOfTwo(e.count, t, o, p);
    if !SideEffects(e.count) {
      NoCalls(e.count, o, p);
    }
  }

  lemma CallsOfCond(c: Expr, a: Expr, b: Expr, yes: Expr, no: Expr, o: Oracle, p: seq<nat>)
    requires Calls(yes, o, p) >= Calls(a, o, p) && Calls(no, o, p) >= Calls(b, o, p)
    ensures Calls(Cond(c, yes, no), o, p) >= Calls(Cond(c, a, b), o, p)
  {
    hide Eval, Frozen, Nonzero;
    CallsOfTwo(c, a, o, p);
    CallsOfTwo(c, b, o, p);
    CallsOfTwo(c, yes, o, p);
    CallsOfTwo(c, no, o, p);
    CondTrace(c, a, b, Frozen(o, p), p);
    CondTrace(c, yes, no, Frozen(o, p), p);
  }

  lemma CondTrace(c: Expr, a: Expr, b: Expr, o: Oracle, s: seq<nat>)
    ensures var (v, s1) := Eval(c, o, s); Eval(Cond(c, a, b), o, s) == Eval(if Nonzero(v) then a else b, o, s1)
  {
    hide Nonzero;
  }

  predicate Unary(e: Expr) {
    e.Negate? || e.Abs? || e.Float? || e.Ffs? || (e.Convert? && Transparent(e))
  }

  lemma UnaryTrace(e: Expr, ieee: bool, o: Oracle, s: seq<nat>)
    requires Unary(e)
    ensures Eval(e, o, s).1 == Eval(e.arg, o, s).1 && ToTruth(e, ieee) == ToTruth(e.arg, ieee)
    ensures Repeats(e, ieee, o, s) == Repeats(e.arg, ieee, o, s)
  {
    hide NegateValue, AbsValue, ConvertValue, Converted, LowestBit, TypeOf, Transparent;
  }

  /** With frozen answers the converted expression makes at least the calls of the original. */
  lemma {:induction false} NoCallLost(e: Expr, ieee: bool, o: Oracle, p: seq<nat>)
    ensures Calls(ToTruth(e, ieee), o, p) >= Calls(e, o, p)
  {
    hide Eval, Frozen;
    if Unary(e) {
      UnaryTrace(e, ieee, Frozen(o, p), p);
      NoCallLost(e.arg, ieee, o, p);
    } else if e.Complex? {
      NoCallLost(e.realPart, ieee, o, p);
      NoCallLost(e.imagPart, ieee, o, p);
      CallsOfPair(e.realPart, e.imagPart, ToTruth(e.realPart, ieee), ToTruth(e.imagPart, ieee),
                  if SideEffects(e.imagPart) then Or else OrIf, e.ty, o, p);
    } else if e.Rotate? {
      NoCallLost(e.arg, ieee, o, p);
      CallsOfRotate(e, ToTruth(e.arg, ieee), o, p);
    } else if e.Cond? {
      NoCallLost(e.yes, ieee, o, p);
      NoCallLost(e.no, ieee, o, p);
      CallsOfCond(e.test, e.yes, e.no, ToTruth(e.yes, ieee), ToTruth(e.no, ieee), o, p);
    } else {
      CallsOfRest(e, ieee, o, p);
    }
  }

  // ---------------------------------------------------------------- a repeated call shows

  lemma {:induction false} RepeatsHasEffects(e: Expr, ieee: bool, o: Oracle, s: seq<nat>)
    requires Repeats(e, ieee, o, s)
    ensures SideEffects(e)
  {
    match e
    case Complex(_, a, b) =>
      if Repeats(a, ieee, o, s) { RepeatsHasEffects(a, ieee, o, s); }
      else { RepeatsHasEffects(b, ieee, o, Eval(a, o, s).1); }
    case Negate(a) => RepeatsHasEffects(a, ieee, o, s);
    case Abs(a) => RepeatsHasEffects(a, ieee, o, s);
    case Float(_, a) => RepeatsHasEffects(a, ieee, o, s);
    case Ffs(a) => RepeatsHasEffects(a, ieee, o, s);
    case Rotate(_, a, n) => RepeatsHasEffects(a, ieee, o, Eval(n, o, s).1);
    case Cond(c, a, b) => RepeatsHasEffects(if Nonzero(Eval(c, o, s).0) then a else b, ieee, o, Eval(c, o, s).1);
    case Convert(_, _, a) => RepeatsHasEffects(a, ieee, o, s);
    case Call(_, _) =>
    case Compound(_, _) => if !SideEffects(e) { NoSideEffects(e, o, s); }
  }

  /** With the answers frozen at `p`, a history that both evaluations reach, `t` makes more calls. */
  ghost predicate Longer(e: Expr, t: Expr, o: Oracle, p: seq<nat>, s: seq<nat>) {
    && s <= p <= Eval(e, Frozen(o, p), s).1 && p <= Eval(t, Frozen(o, p), s).1
    && |Eval(t, Frozen(o, p), s).1| > |Eval(e, Frozen(o, p), s).1|
  }

  lemma LongerAtOnce(e: Expr, o: Oracle, s: seq<nat>)
    requires TypeOf(e).TComplex? && SideEffects(e) && Eval(e, o, s).1 != s
    ensures Longer(e, AgainstZero(e), o, s, s)
  {
    hide Eval, AgainstZero, TypeOf, SideEffects;
    FrozenCalls(e, o, s);
    Grows(e, Frozen(o, s), s);
    Grows(AgainstZero(e), Frozen(o, s), s);
    CallsAgainstZero(e, o, s);
  }

  lemma LongerFirst(a: Expr, b: Expr, c: Expr, d: Expr, j: Junction, t: Ty, o: Oracle, p: seq<nat>, s: seq<nat>)
    requires Longer(a, c, o, p, s) && Calls(d, o, p) >= Calls(b, o, p)
    requires j == Or || (j == OrIf && !SideEffects(b))
    ensures Longer(Complex(t, a, b), Logical(j, c, d), o, p, s)
  {
    hide SideEffects, Calls;
    CallsAdd(b, o, p, Eval(a, Frozen(o, p), s).1);
    CallsAdd(d, o, p, Eval(c, Frozen(o, p), s).1);
    if j == OrIf {
      NoCalls(b, o, p);
    }
    hide Frozen;
  }

  /** An operand evaluated first, with the same calls in both expressions, does not matter. */
  lemma LongerSecond(a: Expr, c: Expr, o: Oracle, p: seq<nat>, s: seq<nat>)
    requires Eval(a, o, s).1 == Eval(c, o, s).1 <= p
    ensures Eval(a, Frozen(o, p), s) == Eval(a, o, s) && Eval(c, Frozen(o, p), s) == Eval(c, o, s)
    ensures s <= Eval(a, o, s).1
  {
    hide Eval;
    FrozenBefore(a, o, p, s);
    FrozenBefore(c, o, p, s);
    Grows(a, o, s);
  }

  lemma LongerPair(a: Expr, b: Expr, c: Expr, d: Expr, t: Ty, o: Oracle, p: seq<nat>, s: seq<nat>)
    requires Eval(a, o, s).1 == Eval(c, o, s).1 && Longer(b, d, o, p, Eval(a, o, s).1)
    ensures Longer(Complex(t, a, b), Logical(Or, c, d), o, p, s)
  {
    LongerSecond(a, c, o, p, s);
    EvalOfPair(t, a, b, Frozen(o, p), s);
    EvalOfEither(c, d, Or, Frozen(o, p), s);
    hide Eval, Frozen, Nonzero;
  }

  lemma RotateTrace(e: Expr, t: Expr, o: Oracle, s: seq<nat>)
    requires e.Rotate?
    ensures Eval(e, o, s).1 == Eval(e.arg, o, Eval(e.count, o, s).1).1
    ensures Eval(Compound(e.count, t), o, s).1 == Eval(t, o, Eval(e.count, o, s).1).1
  {
    hide RotateValue, TypeOf;
  }

  lemma LongerRotate(e: Expr, t: Expr, o: Oracle, p: seq<nat>, s: seq<nat>)
    requires e.Rotate? && Longer(e.arg, t, o, p, Eval(e.count, o, s).1)
    ensures Longer(e, if SideEffects(e.count) then Compound(e.count, t) else t, o, p, s)
  {
    hide Frozen, SideEffects, Eval;
    LongerSecond(e.count, e.count, o, p, s);
    RotateTrace(e, t, Frozen(o, p), s);
    if !SideEffects(e.count) {
      NoSideEffects(e.count, o, s);
    }
  }

  lemma LongerCond(e: Expr, yes: Expr, no: Expr, o: Oracle, p: seq<nat>, s: seq<nat>)
    requires e.Cond?
    requires var (v, s1) := Eval(e.test, o, s);
      if Nonzero(v) then Longer(e.yes, yes, o, p, s1) else Longer(e.no, no, o, p, s1)
    ensures Longer(e, Cond(e.test, yes, no), o, p, s)
  {
    LongerSecond(e.test, e.test, o, p, s);
    hide Frozen, Nonzero;
  }

  /** Whenever an evaluation reaches an operand that is repeated, there is an oracle for which the
      converted expression makes more calls than the original. */
  lemma {:induction false} RepeatShows(e: Expr, ieee: bool, o: Oracle, s: seq<nat>) returns (p: seq<nat>)
    requires WellTyped(e) && Repeats(e, ieee, o, s) && (Exact(o) || !Replaces(e, ieee))
    ensures Longer(e, ToTruth(e, ieee), o, p, s)
    decreases e, 1
  {
    hide Eval, Longer, SideEffects, AgainstZero, Transparent;
    if Unary(e) {
      UnaryTrace(e, ieee, o, s);
      p := RepeatShows(e.arg, ieee, o, s);
      LongerUnary(e, ieee, o, p, s);
    } else if e.Complex? {
      p := PairShows(e, ieee, o, s);
    } else if e.Rotate? {
      p := RepeatShows(e.arg, ieee, o, Eval(e.count, o, s).1);
      LongerRotate(e, ToTruth(e.arg, ieee), o, p, s);
    } else if e.Cond? {
      var (v, s1) := Eval(e.test, o, s);
      p := RepeatShows(if Nonzero(v) then e.yes else e.no, ieee, o, s1);
      LongerCond(e, ToTruth(e.yes, ieee), ToTruth(e.no, ieee), o, p, s);
    } else {
      p := s;
      RepeatsHasEffects(e, ieee, o, s);
      RepeatedCalls(e, ieee, o, s);
      LongerAtOnce(e, o, s);
    }
  }

  lemma LongerUnary(e: Expr, ieee: bool, o: Oracle, p: seq<nat>, s: seq<nat>)
    requires Unary(e) && Longer(e.arg, ToTruth(e.arg, ieee), o, p, s)
    ensures Longer(e, ToTruth(e, ieee), o, p, s)
  {
    hide Eval;
    UnaryTrace(e, ieee, Frozen(o, p), s);
  }

  lemma RepeatedCalls(e: Expr, ieee: bool, o: Oracle, s: seq<nat>)
    requires Repeats(e, ieee, o, s) && !Unary(e) && !e.Complex? && !e.Rotate? && !e.Cond?
    ensures TypeOf(e).TComplex? && Eval(e, o, s).1 != s && ToTruth(e, ieee) == AgainstZero(e)
  {
    hide AgainstZero;
  }

  lemma {:induction false} PairShows(e: Expr, ieee: bool, o: Oracle, s: seq<nat>) returns (p: seq<nat>)
    requires WellTyped(e) && e.Complex? && Repeats(e, ieee, o, s) && (Exact(o) || !Replaces(e, ieee))
    ensures Longer(e, ToTruth(e, ieee), o, p, s)
    decreases e, 0
  {
    hide Eval, Longer, SideEffects;
    var a, b := e.realPart, e.imagPart;
    if Repeats(a, ieee, o, s) {
      p := RepeatShows(a, ieee, o, s);
      NoCallLost(b, ieee, o, p);
      LongerFirst(a, b, ToTruth(a, ieee), ToTruth(b, ieee), if SideEffects(b) then Or else OrIf, e.ty, o, p, s);
    } else {
      TruthPreserved(a, ieee, o, s);
      p := RepeatShows(b, ieee, o, Eval(a, o, s).1);
      RepeatsHasEffects(b, ieee, o, Eval(a, o, s).1);
      LongerPair(a, b, ToTruth(a, ieee), ToTruth(b, ieee), e.ty, o, p, s);
    }
  }

  ghost predicate AlwaysSame(e: Expr, ieee: bool) {
    forall o: Oracle, s: seq<nat> :: Exact(o) ==> Same(e, ToTruth(e, ieee), o, s)
  }

  /** The conversion is right for every oracle and history if and only if no evaluation reaches a complex
      operand that is compared part by part and makes a call. */
  lemma PreservedExactly(e: Expr, ieee: bool)
    requires WellTyped(e)
    ensures AlwaysSame(e, ieee) <==> forall o: Oracle, s: seq<nat> :: Exact(o) ==> !Repeats(e, ieee, o, s)
  {
    hide WellTyped, Repeats, Eval, ToTruth;
    if o: Oracle, s: seq<nat> :| Exact(o) && Repeats(e, ieee, o, s) {
      var p := RepeatShows(e, ieee, o, s);
      assert !Same(e, ToTruth(e, ieee), Frozen(o, p), s);
    } else {
      forall o: Oracle, s: seq<nat> | Exact(o)
        ensures Same(e, ToTruth(e, ieee), o, s)
      {
        TruthPreserved(e, ieee, o, s);
      }
    }
  }

  // ---------------------------------------------------------------- whatever the arithmetic

  /** The conversion is right whatever the machine takes for a difference of reals. */
  ghost predicate SameWhatever(e: Expr, ieee: bool) {
    forall o: Oracle, s: seq<nat> :: Same(e, ToTruth(e, ieee), o, s)
  }

  /** If no difference is replaced the same condition is exact for any arithmetic, and that is so for every
      difference of reals with IEEE arithmetic. */
  lemma WhateverExactly(e: Expr, ieee: bool)
    requires WellTyped(e) && !Replaces(e, ieee)
    ensures SameWhatever(e, ieee) <==> forall o: Oracle, s: seq<nat> :: !Repeats(e, ieee, o, s)
  {
    hide WellTyped, Repeats, Replaces, Eval, ToTruth;
    if o: Oracle, s: seq<nat> :| Repeats(e, ieee, o, s) {
      var p := RepeatShows(e, ieee, o, s);
      assert !Same(e, ToTruth(e, ieee), Frozen(o, p), s);
    } else {
      forall o: Oracle, s: seq<nat>
        ensures Same(e, ToTruth(e, ieee), o, s)
      {
        TruthPreserved(e, ieee, o, s);
      }
    }
  }

  /** Equal operands, and a difference that is not zero. */
  function Odd(t: Ty): Oracle {
    Oracle((_, _) => ZeroOf(t), (_, _) => 1.0, (_, r: real) => r)
  }

  lemma DifferenceTyped(t: Ty)
    requires ValidType(t) && !t.TReference?
    ensures WellTyped(Minus(t, Load(t, 0), Load(t, 1)))
  {
    var a, b := Load(t, 0), Load(t, 1);
    assert TypeOf(a) == t && TypeOf(b) == t && WellTyped(a) && WellTyped(b);
  }

  lemma ZeroMinusZero(t: Ty)
    requires ValidType(t) && HasReals(t)
    ensures SameValue(ZeroOf(t), ZeroOf(t)) && Nonzero(MinusValue(Odd(t).minus, t, ZeroOf(t), ZeroOf(t)))
  {
    if t.TComplex? {
      assert ZeroOf(t.elem) == R(0.0) && ZeroOf(t) == Z(R(0.0), R(0.0));
      assert MinusValue(Odd(t).minus, t.elem, R(0.0), R(0.0)) == R(1.0);
    }
  }

  lemma OddDifference(t: Ty, ieee: bool)
    requires ValidType(t) && HasReals(t) && !(ieee && t.TReal?)
    ensures var e := Minus(t, Load(t, 0), Load(t, 1)); !Same(e, ToTruth(e, ieee), Odd(t), [])
  {
    var e, o := Minus(t, Load(t, 0), Load(t, 1)), Odd(t);
    var z := ZeroOf(t);
    ZeroTyped(t);
    assert Eval(Load(t, 0), o, []) == (z, []) && Eval(Load(t, 1), o, []) == (z, []);
    EvalOfDifference(e, e.left, e.right, o, []);
    EvalOfDiffer(e.left, e.right, o, []);
    ZeroMinusZero(t);
    assert TypeOf(e.left) == t && TypeOf(e.right) == t;
    hide Eval, HasType, MinusValue, ZeroOf, TypeOf;
  }

  /** A difference is converted correctly whatever the arithmetic, exactly if its type has no real parts, or
      is real and arithmetic is IEEE; a complex difference is replaced all the same. */
  lemma DifferenceExactly(t: Ty, ieee: bool)
    requires ValidType(t) && !t.TReference?
    ensures SameWhatever(Minus(t, Load(t, 0), Load(t, 1)), ieee) <==> !HasReals(t) || (ieee && t.TReal?)
  {
    var e := Minus(t, Load(t, 0), Load(t, 1));
    if HasReals(t) && !(ieee && t.TReal?) {
      OddDifference(t, ieee);
    } else {
      DifferenceTyped(t);
      hide WellTyped;
      WhateverExactly(e, ieee);
    }
  }

  // ---------------------------------------------------------------- from the tree alone

  /** Somewhere under the operations that are looked through there is a complex operand with side
      effects that is compared part by part. */
  predicate MayRepeat(e: Expr) {
    match e
    case Complex(_, a, b) => MayRepeat(a) || MayRepeat(b)
    case Negate(a) => MayRepeat(a)
    case Abs(a) => MayRepeat(a)
    case Float(_, a) => MayRepeat(a)
    case Ffs(a) => MayRepeat(a)
    case Rotate(_, a, _) => MayRepeat(a)
    case Cond(_, a, b) => MayRepeat(a) || MayRepeat(b)
    case Convert(_, _, a) => Transparent(e) && MayRepeat(a)
    case Call(t, _) => t.TComplex?
    case Compound(_, b) => TypeOf(b).TComplex? && SideEffects(e)
    case _ => false
  }

  /** Nothing in the tree is evaluated only under a condition. */
  predicate Straight(e: Expr) {
    match e
    case IntCst(_, _) => true
    case RealCst(_, _) => true
    case Load(_, _) => true
    case Call(_, _) => true
    case Compare(_, a, b) => Straight(a) && Straight(b)
    case Logical(j, a, b) => j != AndIf && j != OrIf && Straight(a) && Straight(b)
    case AddressOf(_, a) => Straight(a)
    case Complex(_, a, b) => Straight(a) && Straight(b)
    case RealPart(a) => Straight(a)
    case ImagPart(a) => Straight(a)
    case Negate(a) => Straight(a)
    case Abs(a) => Straight(a)
    case Ffs(a) => Straight(a)
    case Float(_, a) => Straight(a)
    case Rotate(_, a, n) => Straight(a) && Straight(n)
    case Cond(_, _, _) => false
    case Convert(_, _, a) => Straight(a)
    case Minus(_, a, b) => Straight(a) && Straight(b)
    case BitXor(_, a, b) => Straight(a) && Straight(b)
    case BitAnd(_, a, b) => Straight(a) && Straight(b)
    case Compound(a, b) => Straight(a) && Straight(b)
  }

  lemma {:induction false} EffectsAreCalls(e: Expr, o: Oracle, s: seq<nat>)
    requires Straight(e) && SideEffects(e)
    ensures |Eval(e, o, s).1| > |s|
    decreases e, 1
  {
    hide Related, NegateValue, AbsValue, ConvertValue, Converted, RotateValue, MinusValue, BitValue, Yield, Nonzero, TypeOf;
    match e
    case Call(_, _) =>
    case Compare(_, a, b) => EffectsOfTwo(e, a, b, o, s);
    case Logical(_, a, b) => EffectsOfTwo(e, a, b, o, s);
    case AddressOf(_, a) => EffectsAreCalls(a, o, s);
    case Complex(_, a, b) => EffectsOfTwo(e, a, b, o, s);
    case RealPart(a) => EffectsAreCalls(a, o, s);
    case ImagPart(a) => EffectsAreCalls(a, o, s);
    case Negate(a) => EffectsAreCalls(a, o, s);
    case Abs(a) => EffectsAreCalls(a, o, s);
    case Ffs(a) => EffectsAreCalls(a, o, s);
    case Float(_, a) => EffectsAreCalls(a, o, s);
    case Rotate(_, a, n) => EffectsOfTwo(e, n, a, o, s);
    case Convert(_, _, a) => EffectsAreCalls(a, o, s);
    case Minus(_, a, b) => EffectsOfTwo(e, a, b, o, s);
    case BitXor(_, a, b) => EffectsOfTwo(e, a, b, o, s);
    case BitAnd(_, a, b) => EffectsOfTwo(e, a, b, o, s);
    case Compound(a, b) => EffectsOfTwo(e, a, b, o, s);
  }

  lemma {:induction false} EffectsOfTwo(e: Expr, a: Expr, b: Expr, o: Oracle, s: seq<nat>)
    requires a < e && b < e && Straight(a) && Straight(b) && (SideEffects(a) || SideEffects(b))
    ensures |Eval(b, o, Eval(a, o, s).1).1| > |s|
    decreases e, 0
  {
    hide Eval, Straight, SideEffects;
    GrowsTwo(e, a, b, o, s);
    if SideEffects(a) {
      EffectsAreCalls(a, o, s);
    } else {
      EffectsAreCalls(b, o, Eval(a, o, s).1);
    }
  }

  /** What is repeated can be told from the tree, exactly if nothing in it is conditional. */
  lemma {:induction false} RepeatsMay(e: Expr, ieee: bool, o: Oracle, s: seq<nat>)
    ensures Repeats(e, ieee, o, s) ==> MayRepeat(e)
    ensures Straight(e) && MayRepeat(e) ==> Repeats(e, ieee, o, s)
  {
    hide TypeOf, Transparent;
    match e
    case Complex(_, a, b) => RepeatsMay(a, ieee, o, s); RepeatsMay(b, ieee, o, Eval(a, o, s).1);
    case Negate(a) => RepeatsMay(a, ieee, o, s);
    case Abs(a) => RepeatsMay(a, ieee, o, s);
    case Float(_, a) => RepeatsMay(a, ieee, o, s);
    case Ffs(a) => RepeatsMay(a, ieee, o, s);
    case Rotate(_, a, n) => RepeatsMay(a, ieee, o, Eval(n, o, s).1);
    case Cond(c, a, b) => RepeatsMay(a, ieee, o, Eval(c, o, s).1); RepeatsMay(b, ieee, o, Eval(c, o, s).1);
    case Convert(_, _, a) => RepeatsMay(a, ieee, o, s);
    case Compound(_, _) =>
      if !SideEffects(e) { NoSideEffects(e, o, s); }
      else if Straight(e) { EffectsAreCalls(e, o, s); }
    case _ =>
  }

  /** For a tree without conditional parts a look at the tree decides whether the conversion is right;
      for any tree it may say that it is. */
  lemma StraightExactly(e: Expr, ieee: bool)
    requires WellTyped(e)
    ensures !MayRepeat(e) ==> AlwaysSame(e, ieee)
    ensures Straight(e) ==> (AlwaysSame(e, ieee) <==> !MayRepeat(e))
  {
    hide WellTyped, Repeats, MayRepeat, Straight, AlwaysSame;
    PreservedExactly(e, ieee);
    forall o: Oracle, s: seq<nat>
      ensures Repeats(e, ieee, o, s) ==> MayRepeat(e)
      ensures Straight(e) && MayRepeat(e) ==> Repeats(e, ieee, o, s)
    {
      RepeatsMay(e, ieee, o, s);
    }
    var any := Always(I(0));
    RepeatsMay(e, ieee, any, []);
  }

  /** For one call: exactly if its type is not complex. */
  lemma CallIsExact(t: Ty, id: nat, ieee: bool)
    requires ValidType(t)
    ensures AlwaysSame(Call(t, id), ieee) <==> !t.TComplex?
  {
    hide AlwaysSame;
    StraightExactly(Call(t, id), ieee);
  }

  /** Conditional parts do matter: a complex call in an arm that is never taken is converted correctly. */
  lemma GuardedCallIsFine(t: Ty, id: nat, ieee: bool)
    requires ValidType(t) && t.TComplex?
    ensures var e := Cond(ONE, Load(t, id), Call(t, id)); MayRepeat(e) && AlwaysSame(e, ieee)
  {
    var e := Cond(ONE, Load(t, id), Call(t, id));
    TypeRange(IntType(32, false));
    Pow2Monotone(1, 31);
    assert WellTyped(ONE);
    forall o: Oracle, s: seq<nat>
      ensures !Repeats(e, ieee, o, s)
    {
      assert Eval(ONE, o, s) == (I(1), s);
    }
    hide Repeats, AlwaysSame;
    PreservedExactly(e, ieee);
  }
}
