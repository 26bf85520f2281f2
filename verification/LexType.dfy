/**
 The type of an integer constant: comparisons of two-word constants, and the choice of the first type
 that fits.
 */
module LexType {
  import opened IntTypes

  // ---------------------------------------------------------------- two-word constants

  /** `TREE_INT_CST_HIGH`, a signed host word, and `TREE_INT_CST_LOW` read without a sign. */
  datatype Words = Words(high: int, low: int)

  /** The radix of a host word of `bits` bits. */
  function WordRadix(bits: nat): int { Pow2(bits) }

  predicate InWords(w: Words, r: int) {
    0 <= w.low < r && -r <= 2 * w.high < r
  }

  function Unsigned(high: int, r: int): int { if high < 0 then high + r else high }

  /** `INT_CST_LT` */
  predicate Less(a: Words, b: Words) {
    a.high < b.high || (a.high == b.high && a.low < b.low)
  }

  /** `INT_CST_LT_UNSIGNED` */
  predicate LessUnsigned(a: Words, b: Words, r: int) {
    Unsigned(a.high, r) < Unsigned(b.high, r) || (a.high == b.high && a.low < b.low)
  }

  function Joined(high: int, low: int, r: int): int { high * r + low }

  /** The words of a number. */
  function Encode(x: int, r: int): Words
    requires r > 0
  {
    var h := x / r;
    Words(if 2 * h >= r then h - r else h, x % r)
  }

  lemma Lexicographic(h: int, l: int, k: int, m: int, r: int)
    requires 0 <= l < r && 0 <= m < r
    ensures Joined(h, l, r) < Joined(k, m, r) <==> h < k || (h == k && l < m)
  {
    var d := k - h;
    assert k * r == h * r + d * r;
    if d >= 1 {
      assert d * r == (d - 1) * r + r && (d - 1) * r >= 0;
    } else if d <= -1 {
      assert d * r == (d + 1) * r - r && (d + 1) * r <= 0;
    }
  }

  /** The halves of a number of at most two words. */
  lemma EncodeFacts(x: int, r: int)
    requires r >= 2 && r % 2 == 0 && -(r * r) <= 2 * x && x < r * r
    ensures InWords(Encode(x, r), r)
    ensures Joined(Unsigned(Encode(x, r).high, r), Encode(x, r).low, r) == if x >= 0 then x else x + r * r
    ensures Joined(Encode(x, r).high, Encode(x, r).low, r) == if 2 * x < r * r then x else x - r * r
  {
    var h, l := x / r, x % r;
    assert x == r * h + l;
    HighRange(h, l, x, r);
  }

  lemma HighRange(h: int, l: int, x: int, r: int)
    requires r >= 2 && r % 2 == 0 && 0 <= l < r && x == r * h + l && -(r * r) <= 2 * x && x < r * r
    ensures -r <= 2 * h && h < r && (2 * h >= r <==> 2 * x >= r * r) && (h >= 0 <==> x >= 0)
    ensures h * r == r * h && (h - r) * r == r * h - r * r && (h + r) * r == r * h + r * r
  {
    var half := r / 2;
    assert r == 2 * half;
    Lexicographic(-half - 1, r - 1, h, l, r);
    Lexicographic(h, l, r, 0, r);
    Lexicographic(h, l, half, 0, r);
    Lexicographic(h, l, 0, 0, r);
    HalfProducts(half, r);
    ShiftedProducts(h, r);
    JoinedIs(h, l, r);
    JoinedIs(half, 0, r);
    JoinedIs(r, 0, r);
    JoinedIs(0, 0, r);
    JoinedIs(-half - 1, r - 1, r);
    hide Joined;
  }

  lemma JoinedIs(h: int, l: int, r: int)
    ensures Joined(h, l, r) == h * r + l
  {
  }

  lemma HalfProducts(half: int, r: int)
    requires r == 2 * half
    ensures r * r == 2 * (half * r) && (-half - 1) * r == -(half * r) - r && 0 * r == 0
  {
  }

  lemma ShiftedProducts(h: int, r: int)
    ensures h * r == r * h && (h - r) * r == r * h - r * r && (h + r) * r == r * h + r * r
  {
  }

  // ---------------------------------------------------------------- types

  datatype Name = Int | UnsignedInt | Long | UnsignedLong | LongLong | UnsignedLongLong

  /** The precisions of the target, and that of a host word. */
  datatype Target = Target(intBits: nat, longBits: nat, longLongBits: nat, wordBits: nat) {
    predicate Sound() {
      1 <= intBits <= longBits <= longLongBits <= 2 * wordBits
    }

    function Radix(): int { WordRadix(wordBits) }

    function TypeOf(n: Name): IntType {
      match n
      case Int => IntType(intBits, false)
      case UnsignedInt => IntType(intBits, true)
      case Long => IntType(longBits, false)
      case UnsignedLong => IntType(longBits, true)
      case LongLong => IntType(longLongBits, false)
      case UnsignedLongLong => IntType(longLongBits, true)
    }
  }

  /** `int_fits_type_p` */
  predicate IntFits(c: Words, t: IntType, r: int)
    requires r > 0 && t.prec >= 1
  {
    if t.uns then !LessUnsigned(Encode(t.Max(), r), c, r) && !LessUnsigned(c, Encode(t.Min(), r), r)
    else !Less(Encode(t.Max(), r), c) && !Less(c, Encode(t.Min(), r))
  }

  /** A constant that reaches into the sign bit of the two words looks negative to signed types. */
  function Looks(v: int, r: int): int { if 2 * v < r * r then v else v - r * r }

  lemma RadixFacts(t: IntType, bits: nat)
    requires 1 <= t.prec <= 2 * bits
    ensures var r := WordRadix(bits);
      && r >= 2 && r % 2 == 0 && -(r * r) <= 2 * t.Min() <= 0 && t.Max() < r * r
      && (!t.uns ==> 2 * t.Max() < r * r)
  {
    RangeFacts(t, bits);
    Pow2Add(bits, bits);
    assert bits + bits == 2 * bits;
    var r, h := WordRadix(bits), Pow2(bits - 1);
    assert r == 2 * h && r >= 2;
    hide *;
    Even(r, h);
  }

  lemma Even(r: int, h: int)
    requires r == 2 * h
    ensures r % 2 == 0
  {
  }

  lemma RangeFacts(t: IntType, bits: nat)
    requires 1 <= t.prec <= 2 * bits
    ensures var square := Pow2(2 * bits);
      -square <= 2 * t.Min() <= 0 && t.Max() < square && (!t.uns ==> 2 * t.Max() < square)
      && square == Pow2(bits + bits) && WordRadix(bits) == Pow2(bits)
  {
    Pow2Monotone(t.prec, 2 * bits);
  }

  /** What the test says: unsigned types compare the value, signed types what it looks like. */
  lemma FitsMeans(v: int, t: IntType, bits: nat)
    requires 1 <= t.prec <= 2 * bits && 0 <= v < WordRadix(bits) * WordRadix(bits)
    ensures var r := WordRadix(bits);
      IntFits(Encode(v, r), t, r) <==> if t.uns then v <= t.Max() else t.Min() <= Looks(v, r) <= t.Max()
  {
    var r := WordRadix(bits);
    RadixFacts(t, bits);
    TypeRange(t);
    var lo, hi := t.Min(), t.Max();
    hide WordRadix, Pow2, Encode, Joined;
    EncodeFacts(v, r);
    EncodeFacts(hi, r);
    EncodeFacts(lo, r);
    var c, a, b := Encode(v, r), Encode(hi, r), Encode(lo, r);
    if t.uns {
      Lexicographic(Unsigned(a.high, r), a.low, Unsigned(c.high, r), c.low, r);
      Lexicographic(Unsigned(c.high, r), c.low, Unsigned(b.high, r), b.low, r);
    } else {
      Lexicographic(a.high, a.low, c.high, c.low, r);
      Lexicographic(c.high, c.low, b.high, b.low, r);
    }
  }

  /** What was written: the radix and the suffixes. `ll` comes with `l`. */
  datatype Form = Form(decimal: bool, u: bool, l: bool, ll: bool)

  /** The test of the constant `v` against one type. */
  predicate Fits(v: int, n: Name, target: Target)
    requires target.Sound()
  {
    var r := target.Radix();
    RadixFacts(target.TypeOf(n), target.wordBits);
    IntFits(Encode(v, r), target.TypeOf(n), r)
  }

  predicate HighNotNegative(v: int, target: Target)
    requires target.Sound()
  {
    RadixFacts(target.TypeOf(Int), target.wordBits);
    Encode(v, target.Radix()).high >= 0
  }

  /** The choice of `ansi_type` for the words of the constant. */
  method AnsiType(c: Words, form: Form, target: Target, ghost v: int) returns (n: Name)
    requires target.Sound() && 0 <= v < target.Radix() * target.Radix() && (form.ll ==> form.l)
    requires c == Encode(v, target.Radix())
    ensures n == Chosen(v, form, target)
  {
    var r := target.Radix();
    if !form.l && !form.u && IntFits(c, target.TypeOf(Int), r) {
      n := Int;
    } else if !form.l && (!form.decimal || form.u) && IntFits(c, target.TypeOf(UnsignedInt), r) {
      n := UnsignedInt;
    } else if !form.u && !form.ll && IntFits(c, target.TypeOf(Long), r) {
      n := Long;
    } else if !form.ll {
      n := UnsignedLong;
    } else if !form.u && c.high >= 0 && IntFits(c, target.TypeOf(LongLong), r) {
      n := LongLong;
    } else {
      n := UnsignedLongLong;
    }
    ChoiceByValue(v, form, target);
  }

  /** The list of section 6.1.3.2 of ISO/IEC 9899:1990 for the form of a constant, with the two long
      long types for a constant with two `l`. */
  function Candidates(form: Form): seq<Name> {
    if form.ll then (if form.u then [] else [LongLong]) + [UnsignedLongLong]
    else if form.l then (if form.u then [] else [Long]) + [UnsignedLong]
    else if form.u then [UnsignedInt, UnsignedLong]
    else if form.decimal then [Int, Long, UnsignedLong]
    else [Int, UnsignedInt, Long, UnsignedLong]
  }

  /** The first type of the list whose greatest value is not exceeded, or the last type. */
  function FirstFitting(v: int, list: seq<Name>, target: Target): Name
    requires list != [] && target.Sound()
  {
    if |list| == 1 || v <= target.TypeOf(list[0]).Max() then list[0] else FirstFitting(v, list[1..], target)
  }

  /** The same list, with signed types judged by what the value looks like. */
  function Chosen(v: int, form: Form, target: Target): Name
    requires target.Sound()
  {
    var s := Looks(v, target.Radix());
    var int_, uint, long_, longLong := target.TypeOf(Int), target.TypeOf(UnsignedInt), target.TypeOf(Long), target.TypeOf(LongLong);
    if !form.l && !form.u && int_.Min() <= s <= int_.Max() then Int
    else if !form.l && (!form.decimal || form.u) && v <= uint.Max() then UnsignedInt
    else if !form.u && !form.ll && long_.Min() <= s <= long_.Max() then Long
    else if !form.ll then UnsignedLong
    else if !form.u && s >= 0 && s <= longLong.Max() then LongLong
    else UnsignedLongLong
  }

  lemma FitsByValue(v: int, n: Name, target: Target)
    requires target.Sound() && 0 <= v < target.Radix() * target.Radix()
    ensures var t := target.TypeOf(n);
      Fits(v, n, target) <==> if t.uns then v <= t.Max() else t.Min() <= Looks(v, target.Radix()) <= t.Max()
  {
    FitsMeans(v, target.TypeOf(n), target.wordBits);
  }

  lemma HighByValue(v: int, target: Target)
    requires target.Sound() && 0 <= v < target.Radix() * target.Radix()
    ensures HighNotNegative(v, target) <==> Looks(v, target.Radix()) >= 0
  {
    var r := target.Radix();
    RadixFacts(target.TypeOf(Int), target.wordBits);
    EncodeFacts(v, r);
    var w := Encode(v, r);
    Lexicographic(w.high, w.low, 0, 0, r);
  }

  lemma ChoiceByValue(v: int, form: Form, target: Target)
    requires target.Sound() && 0 <= v < target.Radix() * target.Radix()
    ensures Fits(v, Int, target) <==> target.TypeOf(Int).Min() <= Looks(v, target.Radix()) <= target.TypeOf(Int).Max()
    ensures Fits(v, UnsignedInt, target) <==> v <= target.TypeOf(UnsignedInt).Max()
    ensures Fits(v, Long, target) <==> target.TypeOf(Long).Min() <= Looks(v, target.Radix()) <= target.TypeOf(Long).Max()
    ensures Fits(v, LongLong, target) <==> target.TypeOf(LongLong).Min() <= Looks(v, target.Radix()) <= target.TypeOf(LongLong).Max()
    ensures HighNotNegative(v, target) <==> Looks(v, target.Radix()) >= 0
    ensures target.TypeOf(LongLong).Min() <= 0
  {
    FitsByValue(v, Int, target);
    FitsByValue(v, UnsignedInt, target);
    FitsByValue(v, Long, target);
    FitsByValue(v, LongLong, target);
    HighByValue(v, target);
    TypeRange(target.TypeOf(LongLong));
  }

  /** The value reaches the sign bit of the two host words. */
  predicate ReachesSign(v: int, target: Target) {
    2 * v >= target.Radix() * target.Radix()
  }

  /** For a constant that is not out of range the first fitting type is chosen, unless the constant has
      no `u` and no `ll` and reaches the sign bit of the two host words, as it can when `long` is that
      wide. */
  lemma ChoosesFirstFitting(v: int, form: Form, target: Target)
    requires target.Sound() && (form.ll ==> form.l)
    requires 0 <= v < Pow2(if form.ll then target.longLongBits else target.longBits)
    ensures Chosen(v, form, target) == FirstFitting(v, Candidates(form), target)
            <==> !(!form.u && !form.ll && ReachesSign(v, target))
  {
    TargetRanges(v, form, target);
    UnfoldCandidates(v, form, target);
    var s := Looks(v, target.Radix());
    var int_, uint, long_, longLong := target.TypeOf(Int), target.TypeOf(UnsignedInt), target.TypeOf(Long), target.TypeOf(LongLong);
    var a, b, c, d := int_.Max(), uint.Max(), long_.Max(), longLong.Max();
    var a', c' := int_.Min(), long_.Min();
    hide Pow2, FirstFitting, IntType.Min, IntType.Max, ReachesSign, Looks, Target.Radix, WordRadix, Candidates, Target.TypeOf;
  }

  /** The type chosen holds the value in the same cases. */
  lemma ChosenHolds(v: int, form: Form, target: Target)
    requires target.Sound() && (form.ll ==> form.l)
    requires 0 <= v < Pow2(if form.ll then target.longLongBits else target.longBits)
    ensures target.TypeOf(Chosen(v, form, target)).Has(v) <==> !(!form.u && !form.ll && ReachesSign(v, target))
  {
    TargetRanges(v, form, target);
    UnsignedRange(v, form, target);
    var s := Looks(v, target.Radix());
    hide Pow2, IntType.Min, IntType.Max, ReachesSign, Looks, Target.Radix, WordRadix, Target.TypeOf;
  }

  /** The last types hold every value that is not out of range, and no unsigned type holds a negative one. */
  lemma UnsignedRange(v: int, form: Form, target: Target)
    requires target.Sound() && (form.ll ==> form.l)
    requires 0 <= v < Pow2(if form.ll then target.longLongBits else target.longBits)
    ensures target.TypeOf(if form.ll then UnsignedLongLong else UnsignedLong).Has(v)
    ensures target.TypeOf(UnsignedLong).Min() == target.TypeOf(UnsignedLongLong).Min() == target.TypeOf(UnsignedInt).Min() == 0
  {
  }

  lemma FirstStep(v: int, n: Name, rest: seq<Name>, target: Target)
    requires rest != [] && target.Sound()
    ensures FirstFitting(v, [n] + rest, target) == if v <= target.TypeOf(n).Max() then n else FirstFitting(v, rest, target)
  {
    assert ([n] + rest)[1..] == rest;
  }

  /** The list walked through. */
  lemma UnfoldCandidates(v: int, form: Form, target: Target)
    requires target.Sound() && (form.ll ==> form.l)
    ensures FirstFitting(v, Candidates(form), target) ==
      if !form.l && !form.u && v <= target.TypeOf(Int).Max() then Int
      else if !form.l && (!form.decimal || form.u) && v <= target.TypeOf(UnsignedInt).Max() then UnsignedInt
      else if !form.u && !form.ll && v <= target.TypeOf(Long).Max() then Long
      else if !form.ll then UnsignedLong
      else if !form.u && v <= target.TypeOf(LongLong).Max() then LongLong
      else UnsignedLongLong
  {
    FirstStep(v, Long, [UnsignedLong], target);
    FirstStep(v, LongLong, [UnsignedLongLong], target);
    FirstStep(v, UnsignedInt, [UnsignedLong], target);
    FirstStep(v, UnsignedInt, [Long, UnsignedLong], target);
    FirstStep(v, Int, [Long, UnsignedLong], target);
    FirstStep(v, Int, [UnsignedInt, Long, UnsignedLong], target);
    assert [Long] + [UnsignedLong] == [Long, UnsignedLong] && [LongLong] + [UnsignedLongLong] == [LongLong, UnsignedLongLong];
    assert [UnsignedInt] + [UnsignedLong] == [UnsignedInt, UnsignedLong];
    assert [UnsignedInt] + [Long, UnsignedLong] == [UnsignedInt, Long, UnsignedLong];
    assert [Int] + [Long, UnsignedLong] == [Int, Long, UnsignedLong];
    assert [Int] + [UnsignedInt, Long, UnsignedLong] == [Int, UnsignedInt, Long, UnsignedLong];
    assert [] + [UnsignedLong] == [UnsignedLong] && [] + [UnsignedLongLong] == [UnsignedLongLong];
    hide Pow2, IntType.Max, Target.TypeOf;
  }

  /** How the value lies with respect to the types. */
  lemma TargetRanges(v: int, form: Form, target: Target)
    requires target.Sound() && (form.ll ==> form.l)
    requires 0 <= v < Pow2(if form.ll then target.longLongBits else target.longBits)
    ensures var s := Looks(v, target.Radix());
      && (!ReachesSign(v, target) ==> s == v)
      && target.TypeOf(Int).Min() <= 0 && target.TypeOf(Long).Min() <= 0 && target.TypeOf(LongLong).Min() <= 0
      && (ReachesSign(v, target) ==>
            && s < 0 && v > target.TypeOf(Int).Max() && v > target.TypeOf(Long).Max() && v > target.TypeOf(LongLong).Max()
            && (v <= target.TypeOf(UnsignedInt).Max() ==> target.TypeOf(Int).Min() <= s)
            && (!form.ll ==> target.TypeOf(Long).Min() <= s)
            && 0 <= target.TypeOf(Int).Max() && 0 <= target.TypeOf(Long).Max())
  {
    var bits := target.wordBits;
    Pow2Add(bits, bits);
    Pow2Monotone(target.intBits, 2 * bits);
    Pow2Monotone(target.longBits, 2 * bits);
    Pow2Monotone(target.longLongBits, 2 * bits);
    TypeRange(target.TypeOf(Int));
    TypeRange(target.TypeOf(Long));
    TypeRange(target.TypeOf(LongLong));
    if target.longBits < 2 * bits {
      Pow2Monotone(target.longBits, 2 * bits - 1);
    }
    if target.intBits < 2 * bits {
      Pow2Monotone(target.intBits, 2 * bits - 1);
    }
  }

  /** Where `long` has two host words, the largest constant without a suffix is given type int. */
  lemma LargestIsInt(target: Target)
    requires target.Sound() && target.longBits == 2 * target.wordBits && target.intBits < target.longBits
    ensures var v := target.Radix() * target.Radix() - 1; var form := Form(true, false, false, false);
      && 0 <= v < Pow2(target.longBits) && Chosen(v, form, target) == Int
      && FirstFitting(v, Candidates(form), target) == UnsignedLong
  {
    var v, form := target.Radix() * target.Radix() - 1, Form(true, false, false, false);
    Pow2Add(target.wordBits, target.wordBits);
    assert v == Pow2(target.longBits) - 1;
    Pow2Monotone(1, target.longBits);
    assert Pow2(1) == 2 * Pow2(0) == 2;
    assert target.TypeOf(Int).Min() <= -1 == Looks(v, target.Radix());
    TypeRange(target.TypeOf(Int));
    TargetRanges(v, form, target);
    UnfoldCandidates(v, form, target);
  }
}
