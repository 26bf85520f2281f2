/** `get_narrower` and `shorten_compare` as they run: a loop, and locals that are reassigned. */
module ShortenPass {
  import opened IntTypes
  import opened ShortenCompare
  import opened ShortenTheorem

  method NarrowOperand(op0: Tree) returns (win: Tree, uns: bool)
    ensures (win, uns) == GetNarrower(op0)
  {
    var op, first := op0, true;
    win, uns := op0, false;
    while op.Nop?
      invariant win == op && Strip(op, win, uns, first) == GetNarrower(op0)
      decreases op
    {
      var bitsChange := op.ty.prec - op.arg.ty.prec;
      // A truncation loses bits, so it stays.
      if bitsChange < 0 {
        break;
      }
      op := op.arg;
      if bitsChange > 0 {
        // Widened in another way than further out: stop here.
        if first {
          uns := op.ty.uns;
        } else if uns != op.ty.uns {
          return;
        }
      } else if first {
        uns := op.ty.uns;
      }
      first := false;
      win := op;
    }
  }

  /** The first lines of `shorten_compare`: an operand that contains no conversion, but requires one
      to the nominal type, is taken with its own sign. */
  method PrimaryOperand(op: Tree, nominal: IntType) returns (win: Tree, uns: bool)
    ensures (win, uns) == Primary(op, nominal)
  {
    win, uns := NarrowOperand(op);
    if op == win && op.ty != nominal {
      uns := op.ty.uns;
    }
  }

  lemma PrimaryWellFormed(op: Tree, nominal: IntType)
    requires WellFormed(op)
    ensures WellFormed(Primary(op, nominal).0) && Primary(op, nominal).0.ty.prec >= 1
  {
    StripWellFormed(op, op, false, true);
  }

  // ---------------------------------------------------------------- a constant operand

  /** `val`: no value yet, or the result of the comparison. */
  datatype Answer = Open | Always(value: bool)

  /** INT_CST_LT_UNSIGNED: negative values are the large ones. */
  predicate LessUnsigned(a: int, b: int) {
    if (a < 0) == (b < 0) then a < b else b < 0
  }

  /** The range of a narrower operand keeps its ends in the type of the comparison. */
  lemma BoundsKept(ty: IntType, restype: IntType)
    requires ty.prec >= 1 && restype.prec > ty.prec && (ty.uns || !restype.uns)
    ensures restype.Convert(ty.Min()) == ty.Min() && restype.Convert(ty.Max()) == ty.Max()
    ensures restype.uns ==> ty.Min() >= 0 && ty.Max() >= 0
  {
    TypeRange(ty);
    WiderRange(ty, restype, ty.Min());
    WiderRange(ty, restype, ty.Max());
    ConvertFacts(restype, ty.Min());
    ConvertFacts(restype, ty.Max());
  }

  /** The tests of the constant against the ends of the range of the other operand. */
  method Bounds(primop1: Tree, minval: Tree, maxval: Tree, asUnsigned: bool, code: Code) returns (val: Answer)
    requires primop1.Cst? && minval.Cst? && maxval.Cst? && minval.value <= maxval.value
    requires asUnsigned ==> primop1.value >= 0 && minval.value >= 0
    ensures var (known, value) := ByBounds(code, primop1.value, minval.value, maxval.value);
      val == if known then Always(value) else Open
  {
    var minGt, maxGt := primop1.value < minval.value, primop1.value < maxval.value;
    var minLt, maxLt := minval.value < primop1.value, maxval.value < primop1.value;
    if asUnsigned {
      minGt, maxGt := LessUnsigned(primop1.value, minval.value), LessUnsigned(primop1.value, maxval.value);
      minLt, maxLt := LessUnsigned(minval.value, primop1.value), LessUnsigned(maxval.value, primop1.value);
    }
    val := Open;
    if code == NE {
      if maxLt || minGt { val := Always(true); }
    } else if code == EQ {
      if maxLt || minGt { val := Always(false); }
    } else if code == LT {
      if maxLt { val := Always(true); }
      if !minLt { val := Always(false); }
    } else if code == GT {
      if minGt { val := Always(true); }
      if !maxGt { val := Always(false); }
    } else if code == LE {
      if !maxGt { val := Always(true); }
      if minGt { val := Always(false); }
    } else if code == GE {
      if !minLt { val := Always(true); }
      if maxLt { val := Always(false); }
    }
  }

  /** A narrow operand against a constant: the nominal type is made signed for the tests if the operand
      is sign-extended, and a known result of these then becomes a test of the sign. */
  method CompareWithConstant(primop0: Tree, unsignedp0: bool, cst: Tree, nominal: IntType, code: Code)
      returns (r: Shortened)
    requires WellFormed(primop0) && WellFormed(cst) && cst.Cst? && primop0.ty.prec < nominal.prec
    ensures r == WithConstant(primop0, unsignedp0, cst.value, nominal, code)
  {
    hide IntType.Convert, IntType.Min, IntType.Max, Pow2, ByBounds, Within;
    var primop1, restype := cst, nominal;
    var unsignedp := restype.uns;
    var ty := primop0.ty.WithSign(unsignedp0);
    var maxval, minval := Cst(ty, ty.Max()), Cst(ty, ty.Min());
    TypeRange(ty);
    if unsignedp && !unsignedp0 {
      restype := restype.WithSign(false);
    }
    BoundsKept(ty, restype);
    ConvertFacts(restype, cst.value);
    ConstantInType(cst);
    if primop1.ty != restype {
      primop1 := ConvertTree(restype, primop1);
    }
    if ty != restype {
      minval := ConvertTree(restype, minval);
      maxval := ConvertTree(restype, maxval);
    }
    assert restype.uns ==> primop1.value >= 0 by { UnsignedHas(restype, primop1.value); }
    var val := Bounds(primop1, minval, maxval, unsignedp && unsignedp0, code);
    if unsignedp && !unsignedp0 {
      if val != Open {
        if code == LT || code == GE {
          primop1, val := Cst(ty, ty.Min()), Open;
        } else if code == LE || code == GT {
          primop1, val := Cst(ty, ty.Max()), Open;
        }
      }
      ty := ty.WithSign(true);
    }
    if val != Open {
      return Known(val.value);
    }
    r := Compare(ty, ConvertTree(ty, primop0), ConvertTree(ty, primop1), code);
  }

  lemma ConstantInType(cst: Tree)
    requires WellFormed(cst) && cst.Cst?
    ensures cst.ty.Convert(cst.value) == cst.value
  {
    ConvertFacts(cst.ty, cst.value);
  }

  lemma UnsignedHas(t: IntType, v: int)
    requires t.prec >= 1 && t.Has(v)
    ensures t.uns ==> v >= 0
  {
  }

  // ---------------------------------------------------------------- the choice of the type

  /** What is done after the exchange of the operands. */
  method ChooseType(op0: Tree, op1: Tree, p0: Tree, u0: bool, p1: Tree, u1: bool,
                    nominal: IntType, code: Code) returns (r: Shortened)
    requires WellFormed(op0) && WellFormed(op1) && nominal.prec >= 1
    requires (p0, u0) == Primary(op0, nominal) && (p1, u1) == Primary(op1, nominal)
    ensures r == ShortenOrdered(op0, op1, nominal, code)
  {
    PrimaryWellFormed(op0, nominal);
    PrimaryWellFormed(op1, nominal);
    hide WithConstant, WellFormed, Primary;
    var primop0, primop1 := p0, p1;
    var ty := nominal;
    if primop1.Cst? && primop0.ty.prec < nominal.prec {
      r := CompareWithConstant(primop0, u0, primop1, nominal, code);
      return;
    } else if u0 == u1 && primop0.ty.prec < nominal.prec && primop1.ty.prec < nominal.prec {
      ty := if primop0.ty.prec >= primop1.ty.prec then primop0.ty else primop1.ty;
      ty := ty.WithSign(u0 || nominal.uns);
      primop0 := ConvertTree(primop0.ty.WithSign(u0), primop0);
      primop1 := ConvertTree(primop1.ty.WithSign(u1), primop1);
    } else {
      primop0, primop1 := op0, op1;
      if IsZero(primop1) && nominal.uns {
        var value := Open;
        match code {
          case GE => value := Always(true);
          case LT => value := Always(false);
          case _ =>
        }
        if value != Open {
          return Known(value.value);
        }
      }
    }
    r := Compare(ty, ConvertTree(ty, primop0), ConvertTree(ty, primop1), code);
  }

  /** `shorten_compare` */
  method ShortenComparison(op0: Tree, op1: Tree, nominal: IntType, code: Code) returns (r: Shortened)
    requires WellFormed(op0) && WellFormed(op1) && nominal.prec >= 1
    ensures r == Shorten(op0, op1, nominal, code)
  {
    hide ShortenOrdered, Primary, WellFormed;
    var a, b, c := op0, op1, code;
    var primop0, unsignedp0 := PrimaryOperand(a, nominal);
    var primop1, unsignedp1 := PrimaryOperand(b, nominal);
    if TreeConstant(primop0) && !IsZero(primop1) {
      primop0, primop1 := primop1, primop0;
      unsignedp0, unsignedp1 := unsignedp1, unsignedp0;
      a, b := b, a;
      c := Mirror(c);
    }
    r := ChooseType(a, b, primop0, unsignedp0, primop1, unsignedp1, nominal, c);
  }
}
