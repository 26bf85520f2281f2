/** Comparisons that are narrowed rightly and wrongly. */
module ShortenExamples {
  import opened IntTypes
  import opened ShortenCompare
  import opened ShortenOrder
  import opened ShortenValues
  import opened ShortenTheorem

  const INT_32 := IntType(32, false)
  const UINT_32 := IntType(32, true)
  const INT_64 := IntType(64, false)
  const UINT_64 := IntType(64, true)
  const UINT_8 := IntType(8, true)

  /** `(unsigned) i` for an int `i`. */
  const CAST := Nop(UINT_32, Object(INT_32, 0, false))

  lemma CastIsUnsafe()
    ensures WellFormed(CAST) && GetNarrower(CAST) == (Object(INT_32, 0, false), false)
    ensures SideOf(CAST, INT_64) == Side(Pow2(31), 0, Pow2(32))
  {
    hide Pow2, Strip;
    StripOne(CAST);
  }

  lemma StripOne(op: Tree)
    requires op.Nop? && op.arg.Object? && op.ty.prec >= op.arg.ty.prec
    ensures GetNarrower(op) == (op.arg, op.arg.ty.uns)
  {
    assert Strip(op.arg, op.arg, op.arg.ty.uns, false) == (op.arg, op.arg.ty.uns);
  }

  /** The smallest instance: with 64-bit `long`, `(unsigned) i == -1L` for a 32-bit int `i` is narrowed to
      a comparison that does not always agree. */
  lemma CastToUnsignedLosesWidth()
    ensures WellFormed(CAST) && INT_64.Has(-1) && !AlwaysAgrees(CAST, Cst(INT_64, -1), INT_64)
  {
    hide AlwaysAgrees, SideOf, Strip, IntType.Convert, IntType.Has, Pow2, ConstantKept;
    MinusOneIsLong();
    ConstantPrimary(INT_64, -1);
    CastIsUnsafe();
    Halves(32);
    AmongLost(Pow2(31), Pow2(32));
    SafeIsExact(CAST, Cst(INT_64, -1), INT_64);
  }

  lemma MinusOneIsLong()
    ensures INT_64.Has(-1) && INT_64.Convert(-1) == -1
  {
    SignedBounds(64);
    ConvertFacts(INT_64, -1);
    hide Pow2, IntType.Convert;
  }

  lemma AmongLost(half: int, wide: int)
    requires half >= 1 && wide == 2 * half
    ensures !ConstantKept(Side(half, 0, wide), -1)
  {
  }

  lemma WideInt()
    ensures var j := Nop(INT_64, Object(INT_32, 1, false));
      Primary(j, INT_64) == (j.arg, false) && SideOf(j, INT_64) == Side(Pow2(31), 0, 0)
  {
    hide Pow2, Strip;
    StripOne(Nop(INT_64, Object(INT_32, 1, false)));
  }

  /** The same with two variables: `(unsigned) i == (long) j`. */
  lemma CastAgainstVariable()
    ensures var j := Nop(INT_64, Object(INT_32, 1, false));
      WellFormed(CAST) && WellFormed(j) && !AlwaysAgrees(CAST, j, INT_64)
  {
    hide AlwaysAgrees, Strip, SideOf, Pow2, OrderKept;
    var j := Nop(INT_64, Object(INT_32, 1, false));
    CastIsUnsafe();
    WideInt();
    Halves(32);
    LostAgainstKept(Pow2(31), Pow2(32));
    SafeIsExact(CAST, j, INT_64);
  }

  lemma LostAgainstKept(half: int, wide: int)
    requires half >= 1 && wide == 2 * half
    ensures !OrderKept(Side(half, 0, wide), Side(half, 0, 0))
  {
  }

  lemma UnsignedAsInt()
    ensures var u := Nop(INT_32, Object(UINT_32, 0, false));
      Primary(u, UINT_64) == (u.arg, true) && SideOf(u, UINT_64) == Side(Pow2(31), Pow2(32), Pow2(64))
  {
    hide Pow2, Strip;
    StripOne(Nop(INT_32, Object(UINT_32, 0, false)));
  }

  lemma WideChar()
    ensures var c := Nop(UINT_64, Object(UINT_8, 1, false));
      Primary(c, UINT_64) == (c.arg, true) && SideOf(c, UINT_64) == Side(Pow2(7), Pow2(8), Pow2(8))
  {
    hide Pow2, Strip;
    StripOne(Nop(UINT_64, Object(UINT_8, 1, false)));
  }

  /** But `(int) u` against `(unsigned long) c` for an unsigned char `c` is safe, although the first operand
      loses its width. */
  lemma NarrowerIsSafe()
    ensures var u, c := Nop(INT_32, Object(UINT_32, 0, false)), Nop(UINT_64, Object(UINT_8, 1, false));
      WellFormed(u) && WellFormed(c) && !Keeps(u, UINT_64) && AlwaysAgrees(u, c, UINT_64)
  {
    hide AlwaysAgrees, Strip, SideOf, Pow2, OrderKept, Keeps;
    var u, c := Nop(INT_32, Object(UINT_32, 0, false)), Nop(UINT_64, Object(UINT_8, 1, false));
    UnsignedAsInt();
    WideChar();
    Pow2Monotone(8, 31);
    Pow2Monotone(32, 63);
    Halves(8);
    Halves(32);
    Halves(64);
    AboveAnother(Pow2(31), Pow2(32), Pow2(64), Pow2(7), Pow2(8));
    KeepsMeans(u, UINT_64);
    SafeIsExact(u, c, UINT_64);
  }

  lemma AboveAnother(half: int, narrow: int, wide: int, other: int, add: int)
    requires other >= 1 && add == 2 * other && 2 * add <= narrow && narrow == 2 * half && 2 * narrow <= wide
    ensures OrderKept(Side(half, narrow, wide), Side(other, add, add))
  {
  }

  /** `(unsigned) (short) uc` is stripped to `(short) uc` and extended with a sign that it never has. */
  lemma NeverNegativeIsSafe(c: int)
    requires INT_64.Has(c)
    ensures var op := Nop(UINT_32, Nop(IntType(16, false), Object(UINT_8, 0, false)));
      WellFormed(op) && Primary(op, INT_64) == (op.arg, false) && Keeps(op, INT_64) && !KeepsBits(op, INT_64)
      && AlwaysAgrees(op, Cst(INT_64, c), INT_64)
  {
    var op := Nop(UINT_32, Nop(IntType(16, false), Object(UINT_8, 0, false)));
    assert Strip(op.arg, op.arg, false, false) == (op.arg, false);
    hide AlwaysAgrees, Strip, SideOf;
    KeepsIsExact(op, INT_64);
  }

  /** And an operand that loses its width is narrowed correctly against itself. */
  lemma CastAgainstItself()
    ensures WellFormed(CAST) && !Keeps(CAST, INT_64) && AlwaysAgrees(CAST, CAST, INT_64)
  {
    CastIsUnsafe();
    hide AlwaysAgrees, Strip, Pow2;
    SafeIsExact(CAST, CAST, INT_64);
  }
}
