/**
 Integer constants from their digits to their type: `yylex` reads the digits, gives the warning, builds
 the two words and chooses the type.
 */
module LexConstant {
  import opened IntTypes
  import opened LexNumber
  import opened LexType

  /** A constant as the parser gets it, and whether it was reported to be out of range. */
  datatype Constant = Constant(words: Words, name: Name, outOfRange: bool)

  lemma {:induction false} RadixIsPower(n: nat)
    ensures Radix(n) == Pow2(8 * n)
  {
    if n > 0 {
      RadixIsPower(n - 1);
      var m := 8 * (n - 1);
      assert 8 * n == m + 8;
      Pow2Add(m, 8);
      assert Pow2(8) == 256;
    }
  }

  /** The words that are built are those of the value modulo two words. */
  lemma WordsAreEncoded(low: int, high: int, r: int, x: int)
    requires r > 0 && 0 <= low < r && low + r * high == x
    ensures x / r == high && x % r == low
    ensures Words(if 2 * high >= r then high - r else high, low) == Encode(x, r)
  {
    Quotient(low, high, r, x);
  }

  lemma SquareOfRadix(w: nat)
    ensures Radix(2 * w) == Radix(w) * Radix(w)
  {
    RadixAdd(w, w);
    assert w + w == 2 * w;
  }

  /** What a constant of value `v` is read as. */
  ghost predicate Means(c: Constant, v: nat, form: Form, target: Target)
    requires target.Sound()
  {
    var r := target.Radix();
    && r > 0
    && c.words == Encode(v % (r * r), r)
    && c.outOfRange == (v >= LexNumber.Radix((if form.ll then target.longLongBits else target.longBits) / 8))
    && c.name == Chosen(v % (r * r), form, target)
  }

  /** The part of `yylex` for integer constants. */
  method ReadConstant(digits: seq<Digit>, base: nat, form: Form, target: Target, w: nat) returns (c: Constant)
    requires target.Sound() && w >= 1 && target.wordBits == 8 * w && 1 <= base <= 16 && (form.ll ==> form.l)
    ensures Means(c, Value(digits, base), form, target)
  {
    hide *;
    ghost var v := Value(digits, base);
    SoundTarget(target, w);
    var parts := new int[2 * w + 2];
    var overflow := ReadDigits(parts, digits, base);
    assert parts.Length - 1 == 2 * w + 1;
    WhatIsHeld(parts[..2 * w + 1], parts[2 * w + 1], overflow, v);
    var bytes := (if form.ll then target.longLongBits else target.longBits) / 8;
    var warn := OutOfRange(parts, bytes, overflow, v);
    var low, high := BuildWords(parts, w, v);
    var r := LexNumber.Radix(w);
    SquareOfRadix(w);
    ghost var x := v % (r * r);
    WordsAreEncoded(low, high, r, x);
    var words := Words(if 2 * high >= r then high - r else high, low);
    RemainderRange(v, r);
    var n := AnsiType(words, form, target, x);
    c := Constant(words, n, warn);
    AllMeans(c, v, form, target, r);
  }

  lemma WhatIsHeld(s: seq<int>, top: int, overflow: bool, v: nat)
    requires LexNumber.Holds(s, top, overflow, v)
    ensures Number(s) == v % LexNumber.Radix(|s|)
  {
  }

  lemma SoundTarget(target: Target, w: nat)
    requires target.Sound() && target.wordBits == 8 * w
    ensures target.longBits / 8 <= 2 * w && target.longLongBits / 8 <= 2 * w && target.Radix() == LexNumber.Radix(w) >= 1
  {
    RadixIsPower(w);
  }

  lemma RemainderRange(v: nat, r: int)
    requires r >= 1
    ensures r * r >= 1 && 0 <= v % (r * r) < r * r
  {
    Positive(r);
  }

  lemma Positive(r: int)
    requires r >= 1
    ensures r * r >= 1
  {
  }

  lemma AllMeans(c: Constant, v: nat, form: Form, target: Target, r: int)
    requires target.Sound() && r == target.Radix() && r > 0 && r * r > 0
    requires c.words == Encode(v % (r * r), r) && c.name == Chosen(v % (r * r), form, target)
    requires c.outOfRange == (v >= LexNumber.Radix((if form.ll then target.longLongBits else target.longBits) / 8))
    ensures Means(c, v, form, target)
  {
    hide Encode, Chosen, LexNumber.Radix, Target.Radix;
  }

  /** Where the types have whole bytes, a constant that is not reported has the words of its value.  It
      gets the first fitting type of its list, and a type that holds it at all, exactly if it has a `u`
      or an `ll` or does not reach the sign bit of the two words. */
  lemma ConstantIsRight(c: Constant, v: nat, form: Form, target: Target)
    requires target.Sound() && (form.ll ==> form.l) && target.longBits % 8 == 0 == target.longLongBits % 8
    requires Means(c, v, form, target) && !c.outOfRange
    ensures var r := target.Radix();
      && r > 0 && c.words == Encode(v, r)
      && (c.name == FirstFitting(v, Candidates(form), target) <==> !(!form.u && !form.ll && ReachesSign(v, target)))
      && (target.TypeOf(c.name).Has(v) <==> !(!form.u && !form.ll && ReachesSign(v, target)))
  {
    var bits := if form.ll then target.longLongBits else target.longBits;
    RadixIsPower(bits / 8);
    assert 8 * (bits / 8) == bits;
    Pow2Monotone(bits, 2 * target.wordBits);
    Pow2Add(target.wordBits, target.wordBits);
    var r := target.Radix();
    assert v < Pow2(bits) <= r * r;
    hide Chosen, FirstFitting, Candidates, Encode, ReachesSign, Target.Radix, Pow2;
    SmallModulus(v, r * r);
    ChoosesFirstFitting(v, form, target);
    ChosenHolds(v, form, target);
  }
}
