/**
 Escape sequences: the range test of hex escapes, and string constants that the assembler output writes
 and the scanner reads back.
 */
module LexEscape {
  import opened IntTypes
  import opened LexNumber

  type Byte = b: int | 0 <= b < 256

  /** Characters by their codes; the end of the text is the end of the input. */
  type Text = seq<int>

  // ---------------------------------------------------------------- hex escapes

  predicate IsHex(c: int) {
    ('a' as int <= c <= 'f' as int) || ('A' as int <= c <= 'F' as int) || ('0' as int <= c <= '9' as int)
  }

  function HexDigit(c: int): (d: int)
    requires IsHex(c)
    ensures 0 <= d < 16
  {
    if 'a' as int <= c <= 'f' as int then c - 'a' as int + 10
    else if 'A' as int <= c <= 'F' as int then c - 'A' as int + 10
    else c - '0' as int
  }

  const LOWER := "0123456789abcdef"
  const UPPER := "0123456789ABCDEF"

  /** The hex digits and what they are worth. */
  lemma HexDigits(c: int)
    ensures IsHex(c) <==> exists k :: 0 <= k < 16 && (c == LOWER[k] as int || c == UPPER[k] as int)
    ensures forall k :: 0 <= k < 16 && (c == LOWER[k] as int || c == UPPER[k] as int) ==> IsHex(c) && HexDigit(c) == k
  {
    if IsHex(c) {
      var k := HexDigit(c);
      assert c == LOWER[k] as int || c == UPPER[k] as int;
    }
  }

  /** How many hex digits the text starts with. */
  function HexLength(text: Text): (n: nat)
    ensures n <= |text| && forall i :: 0 <= i < n ==> IsHex(text[i])
    ensures n < |text| ==> !IsHex(text[n])
  {
    if text == [] || !IsHex(text[0]) then 0 else 1 + HexLength(text[1..])
  }

  function HexValue(text: Text, n: nat): nat
    requires n <= |text| && forall i :: 0 <= i < n ==> IsHex(text[i])
  {
    if n == 0 then 0 else 16 * HexValue(text, n - 1) + HexDigit(text[n - 1])
  }

  /** `value` has `count` digits from its first significant one, which is `first`. */
  predicate Leading(value: nat, first: int, count: nat) {
    if count == 0 then value == 0
    else 1 <= first <= 15 && first * Pow2(4 * (count - 1)) <= value < (first + 1) * Pow2(4 * (count - 1))
  }

  /** One shifted in an `int` of the host, which has 32 bits and takes the shift count modulo 32; the
      comparison that follows is unsigned. */
  function Shifted(k: nat): int { Pow2(k % 32) }

  /** The test that a hex escape is out of range for `precision` bits. */
  predicate Reported(first: int, count: nat, precision: nat) {
    count != 0 && ((count - 1) * 4 >= precision || (count > 1 && Shifted(precision - (count - 1) * 4) <= first))
  }

  /** The hex case of `readescape`: `code` may wrap round, only the first significant digit and the
      number of digits are kept for the range test. */
  method ReadHex(text: Text, precision: nat) returns (code: int, n: nat, outOfRange: bool)
    ensures n == HexLength(text) && code == Int32(HexValue(text, n))
    ensures 4 <= precision <= 35 ==> (outOfRange <==> HexValue(text, n) >= Pow2(precision))
    ensures exists first, count :: Leading(HexValue(text, n), first, count) && outOfRange == Reported(first, count, precision)
    ensures 0 < precision < 4 ==> (outOfRange <==> HexValue(text, n) >= 16)
  {
    code, n := 0, 0;
    var count, firstdig := 0, 0;
    ghost var v := 0;
    hide Int32;
    Int32Zero();
    while n < |text| && IsHex(text[n])
      invariant 0 <= n <= |text| && (forall i :: 0 <= i < n ==> IsHex(text[i])) && v == HexValue(text, n)
      invariant code == Int32(v) && Leading(v, firstdig, count)
    {
      var d := HexDigit(text[n]);
      HexStep(v, firstdig, count, d);
      Int32Step(v, d);
      code := Int32(Int32(code * 16) + d);
      if code != 0 || count != 0 {
        if count == 0 {
          firstdig := code;
        }
        count := count + 1;
      }
      v := 16 * v + d;
      n := n + 1;
    }
    HexLengthIs(text, n);
    outOfRange := count != 0
      && ((count - 1) * 4 >= precision || (count > 1 && Shifted(precision - (count - 1) * 4) <= firstdig));
    RangeOfLeading(v, firstdig, count, precision);
  }

  lemma Int32Zero()
    ensures Int32(0) == 0
  {
  }

  /** The wrapped code is that of the value; a single digit is not wrapped. */
  lemma Int32Step(v: nat, d: int)
    requires 0 <= d < 16
    ensures Int32(Int32(Int32(v) * 16) + d) == Int32(16 * v + d)
    ensures v == 0 ==> Int32(16 * v + d) == d
  {
    WrapStep(v, 16);
    var a, b := Int32(v) * 16, 16 * v;
    WrapSum(a, b, d);
  }

  lemma WrapStep(v: int, k: int)
    ensures (Int32(v) * k) % 0x1_0000_0000 == (k * v) % 0x1_0000_0000
  {
    var m, q := 0x1_0000_0000, v / 0x1_0000_0000;
    var w := Int32(v);
    var j := if v % m <= 0x7fff_ffff then q else q + 1;
    assert v == w + m * j;
    assert k * v == m * (k * j) + w * k;
    AddMultiple(w * k, k * j, m);
  }

  lemma WrapSum(a: int, b: int, d: int)
    requires a % 0x1_0000_0000 == b % 0x1_0000_0000
    ensures Int32(Int32(a) + d) == Int32(b + d)
  {
    var m := 0x1_0000_0000;
    WrapStep(a, 1);
    var x, y := Int32(a), b;
    assert x % m == y % m;
    assert x + d == m * (x / m) + (x % m + d) && y + d == m * (y / m) + (y % m + d);
    AddMultiple(x % m + d, x / m, m);
    AddMultiple(y % m + d, y / m, m);
  }

  lemma {:induction false} HexLengthIs(text: Text, n: nat)
    requires n <= |text| && (forall i :: 0 <= i < n ==> IsHex(text[i])) && (n < |text| ==> !IsHex(text[n]))
    ensures HexLength(text) == n
  {
    if n > 0 {
      HexLengthIs(text[1..], n - 1);
    }
  }

  lemma HexStep(v: nat, first: int, count: nat, d: int)
    requires Leading(v, first, count) && 0 <= d < 16
    ensures count == 0 && d == 0 ==> Leading(16 * v + d, first, 0)
    ensures count == 0 && d != 0 ==> Leading(16 * v + d, d, 1)
    ensures count != 0 ==> Leading(16 * v + d, first, count + 1)
  {
    if count != 0 {
      SixteenTimes(count);
      ScaleBounds(v, first, Pow2(4 * (count - 1)), d);
      assert 4 * (count + 1 - 1) == 4 * count;
      hide Pow2;
    } else {
      assert Pow2(4 * (1 - 1)) == 1;
    }
  }

  lemma SixteenTimes(count: nat)
    requires count >= 1
    ensures Pow2(4 * count) == 16 * Pow2(4 * (count - 1))
  {
    hide Pow2;
    FourBits();
    var e := 4 * (count - 1);
    Pow2Add(e, 4);
    assert e + 4 == 4 * count;
  }

  lemma FourBits()
    ensures Pow2(4) == 16
  {
    assert Pow2(4) == 2 * Pow2(3) == 4 * Pow2(2) == 8 * Pow2(1) == 16;
  }

  lemma ScaleBounds(v: int, first: int, p: int, d: int)
    requires first * p <= v < (first + 1) * p && 0 <= d < 16
    ensures first * (16 * p) <= 16 * v + d < (first + 1) * (16 * p)
  {
    assert first * (16 * p) == 16 * (first * p) && (first + 1) * (16 * p) == 16 * ((first + 1) * p);
  }

  /** The value reaches 2^precision exactly when the first digit, shifted, does. */
  lemma RangeOfLeading(v: nat, first: int, count: nat, precision: nat)
    requires Leading(v, first, count)
    ensures 4 <= precision <= 35 ==> (Reported(first, count, precision) <==> v >= Pow2(precision))
    ensures 0 < precision < 4 ==> (Reported(first, count, precision) <==> v >= 16)
  {
    hide Leading, Pow2, Shifted;
    RangeOfPower(v, first, count, precision);
    if count > 1 && (count - 1) * 4 < precision <= 35 {
      SmallCount(precision - (count - 1) * 4);
    }
  }

  lemma SmallCount(k: nat)
    requires k < 32
    ensures Shifted(k) == Pow2(k)
  {
    hide Pow2;
    assert k % 32 == k;
  }

  /** The same without a limit on the shift count. */
  lemma RangeOfPower(v: nat, first: int, count: nat, precision: nat)
    requires Leading(v, first, count)
    ensures var out := count != 0 && ((count - 1) * 4 >= precision || (count > 1 && Pow2(precision - (count - 1) * 4) <= first));
      && (precision >= 4 ==> (out <==> v >= Pow2(precision)))
      && (0 < precision < 4 ==> (out <==> v >= 16))
  {
    if count != 0 {
      var e := 4 * (count - 1);
      var p := Pow2(e);
      assert first * p >= p by { Monotone(1, first, p); }
      if count == 1 {
        assert p == 1 && v == first;
        if precision >= 4 {
          Pow2Monotone(4, precision);
          assert Pow2(4) == 2 * Pow2(3) == 4 * Pow2(2) == 8 * Pow2(1) == 16;
        }
      } else {
        Pow2Monotone(4, e);
        assert Pow2(4) == 2 * Pow2(3) == 4 * Pow2(2) == 8 * Pow2(1) == 16;
        if e >= precision {
          Pow2Monotone(precision, e);
        } else {
          Pow2Add(precision - e, e);
          var f := Pow2(precision - e);
          hide Pow2;
          if f <= first {
            Monotone(f, first, p);
          } else {
            Monotone(first + 1, f, p);
          }
        }
      }
    }
  }

  lemma Monotone(a: int, b: int, p: int)
    requires a <= b && p >= 0
    ensures a * p <= b * p
  {
  }

  /** Two digits or more of which the first is 15, with a shift count between 32 and 35. */
  lemma WronglyReported(precision: nat) returns (v: nat, count: nat)
    requires precision >= 36
    ensures Leading(v, 15, count) && Reported(15, count, precision) && v < Pow2(precision)
  {
    var k := 32 + precision % 4;
    var e := precision - k;
    count := 1 + e / 4;
    assert 4 * (count - 1) == e && count > 1;
    var p := Pow2(e);
    v := 15 * p;
    SmallShift(precision);
    Pow2Monotone(e + 4, precision);
    assert Pow2(e + 4) == 16 * p by {
      Pow2Add(e, 4);
      assert Pow2(4) == 2 * Pow2(3) == 4 * Pow2(2) == 8 * Pow2(1) == 16;
    }
    hide Pow2, Shifted;
  }

  lemma SmallShift(precision: nat)
    ensures Shifted(32 + precision % 4) <= 8
  {
    Pow2Monotone(precision % 4, 3);
    assert Pow2(3) == 2 * Pow2(2) == 4 * Pow2(1) == 8;
  }

  ghost predicate TestRight(v: nat, first: int, count: nat, precision: nat) {
    Leading(v, first, count) ==> (Reported(first, count, precision) <==> v >= Pow2(precision))
  }

  /** The test is right for every value if and only if the type has at most 35 bits: beyond that some
      shift count reaches 32, and a value is reported that fits. */
  lemma ReportedExactly(precision: nat)
    requires precision >= 4
    ensures precision <= 35 <==> forall v, first, count :: TestRight(v, first, count, precision)
  {
    if precision <= 35 {
      forall v, first, count
        ensures TestRight(v, first, count, precision)
      {
        hide *;
        if Leading(v, first, count) {
          RangeOfLeading(v, first, count, precision);
        }
        TestMeans(v, first, count, precision);
      }
    } else {
      var v, count := WronglyReported(precision);
      hide Leading, Reported, Pow2;
      assert !TestRight(v, 15, count, precision);
    }
  }

  lemma TestMeans(v: nat, first: int, count: nat, precision: nat)
    ensures TestRight(v, first, count, precision) <==>
            (Leading(v, first, count) ==> (Reported(first, count, precision) <==> v >= Pow2(precision)))
  {
  }
}
