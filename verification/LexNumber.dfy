/**
 Integer constants: multi-precision arithmetic in parts of one byte, the range test, and the type that
 is chosen.
 */
module LexNumber {
  import opened IntTypes

  /** 256 to the power `n`. */
  function Radix(n: nat): (r: nat)
    ensures r >= 1
  {
    if n == 0 then 1 else 256 * Radix(n - 1)
  }

  /** The number in little-endian parts. */
  function Number(parts: seq<int>): int {
    if parts == [] then 0
    else Number(parts[..|parts| - 1]) + Radix(|parts| - 1) * parts[|parts| - 1]
  }

  /** A digit, or what the scanner takes for one: letters up to `z` count up to 35. */
  type Digit = d: int | 0 <= d <= 35

  function Scaled(x: int, base: nat): (r: int)
    ensures x >= 0 ==> r >= 0
  {
    x * base
  }

  /** The value of a digit string. */
  function Value(digits: seq<Digit>, base: nat): nat {
    if digits == [] then 0 else Value(digits[..|digits| - 1], base) * base + digits[|digits| - 1]
  }

  /** What is stored in an `int` of 32 bits. */
  function Int32(x: int): int {
    Wrap(x, 0x1_0000_0000, 0x7fff_ffff)
  }

  lemma NumberSnoc(a: seq<int>, x: int)
    ensures Number(a + [x]) == Number(a) + Radix(|a|) * x
  {
    assert (a + [x])[..|a|] == a;
  }

  /** Carrying from one part to the next keeps the number. */
  lemma CarryStep(a: seq<int>, x: int, y: int)
    ensures Number(a + [x % 256] + [y + x / 256]) == Number(a + [x] + [y])
  {
    NumberSnoc(a, x % 256);
    NumberSnoc(a, x);
    NumberSnoc(a + [x % 256], y + x / 256);
    NumberSnoc(a + [x], y);
    CarryAmount(Radix(|a|), x, y);
  }

  lemma CarryAmount(r: int, x: int, y: int)
    ensures r * (x % 256) + 256 * r * (y + x / 256) == r * x + 256 * r * y
  {
    var q, m := x / 256, x % 256;
    assert x == 256 * q + m;
    assert r * (256 * q + m) == 256 * (r * q) + r * m;
    assert 256 * r * (y + q) == 256 * r * y + 256 * (r * q);
  }

  lemma ScaleSnoc(a: seq<int>, x: int, base: nat)
    ensures Scaled(Number(a + [x]), base) == Scaled(Number(a), base) + Radix(|a|) * Scaled(x, base)
  {
    NumberSnoc(a, x);
    var n, r := Number(a), Radix(|a|);
    hide Number, Radix;
    ScaleSum(n, r * x, base);
    ScaleProduct(r, x, base);
  }

  lemma ScaleSum(a: int, b: int, base: nat)
    ensures Scaled(a + b, base) == Scaled(a, base) + Scaled(b, base)
  {
  }

  lemma {:induction false} ScaleProduct(r: int, x: int, base: nat)
    ensures Scaled(r * x, base) == r * Scaled(x, base)
  {
    if base > 0 {
      ScaleProduct(r, x, base - 1);
      assert r * (x * (base - 1) + x) == r * (x * (base - 1)) + r * x;
    }
  }

  lemma ScaledSmall(x: int, base: nat)
    requires 0 <= x < 256 && 1 <= base <= 16
    ensures 0 <= Scaled(x, base) <= 4080
  {
    assert x * base <= 255 * base;
  }

  lemma CarrySmall(x: int)
    requires 0 <= x < 8192
    ensures 0 <= x / 256 < 32 && 0 <= x % 256 < 256
  {
  }

  predicate AllBytes(s: seq<int>) { forall i :: 0 <= i < |s| ==> 0 <= s[i] < 256 }

  /** One digit is multiplied in: the parts below the top keep the number, what does not fit goes to the
      top part, which may wrap round. */
  method AddDigit(parts: array<int>, base: nat, c: Digit)
    requires parts.Length >= 2 && 1 <= base <= 16 && AllBytes(parts[..parts.Length - 1])
    modifies parts
    ensures var t := parts.Length - 1; var v := Scaled(Number(old(parts[..t])), base) + c;
      && AllBytes(parts[..t]) && Number(parts[..t]) == v % Radix(t)
      && parts[t] == Int32(Scaled(old(parts[t]), base) + v / Radix(t))
  {
    hide Scaled, Number, Int32, Radix;
    ghost var was := parts[..];
    ScaledSmall(parts[..parts.Length - 1][0], base);
    var t := parts.Length - 1;
    parts[0] := Scaled(parts[0], base) + c;
    FirstPart(was, parts[..], base, c);
    assert parts[..][..1] == parts[..1];
    var count := 1;
    while count < t
      invariant 1 <= count <= t && parts[count..] == was[count..]
      invariant AllBytes(parts[..count - 1]) && 0 <= parts[count - 1] < 8192
      invariant Number(parts[..count]) == Scaled(Number(was[..count]), base) + c
    {
      ghost var before := parts[..];
      assert before[count] == was[count] && was[count] == was[..t][count];
      assert parts[count] == before[count];
      ScaledSmall(parts[count], base);
      CarrySmall(parts[count - 1]);
      parts[count] := Scaled(parts[count], base);
      parts[count] := parts[count] + parts[count - 1] / 256;
      parts[count - 1] := parts[count - 1] % 256;
      NextPart(was, before, parts[..], count, base, c);
      assert parts[..][..count + 1] == parts[..count + 1];
      assert parts[..count] == before[..count - 1] + [before[count - 1] % 256];
      count := count + 1;
    }
    ghost var before := parts[..];
    ghost var carry := parts[t - 1] / 256;
    parts[t] := Int32(Scaled(parts[t], base) + parts[t - 1] / 256);
    parts[t - 1] := parts[t - 1] % 256;
    assert parts[..t] == before[..t][t - 1 := before[t - 1] % 256];
    TopPart(before, parts[..], t);
    NumberBound(parts[..t]);
    Quotient(Number(parts[..t]), carry, Radix(t), Scaled(Number(was[..t]), base) + c);
  }

  lemma {:induction false} NumberBound(s: seq<int>)
    requires AllBytes(s)
    ensures 0 <= Number(s) < Radix(|s|)
  {
    if s != [] {
      var k := |s| - 1;
      NumberBound(s[..k]);
      PartBound(Number(s[..k]), Radix(k), s[k]);
    }
  }

  lemma PartBound(n: int, r: int, x: int)
    requires 0 <= n < r && 0 <= x < 256
    ensures 0 <= n + r * x < 256 * r
  {
    assert r * x <= r * 255;
  }

  /** The remainder and the quotient are determined. */
  lemma Quotient(low: int, high: int, m: int, v: int)
    requires m > 0 && 0 <= low < m && low + m * high == v
    ensures v % m == low && v / m == high
  {
    var q, r := v / m, v % m;
    assert v == m * q + r;
    assert m * (high - q) == r - low;
    MulAtLeast(m, high - q);
  }

  lemma MulAtLeast(m: int, k: int)
    requires m > 0
    ensures k >= 1 ==> m * k >= m
    ensures k <= -1 ==> m * k <= -m
  {
    assert m * k == m * (k - 1) + m == m * (k + 1) - m;
  }

  lemma FirstPart(was: seq<int>, now: seq<int>, base: nat, c: Digit)
    requires |was| >= 2 && now == was[0 := Scaled(was[0], base) + c]
    ensures Number(now[..1]) == Scaled(Number(was[..1]), base) + c
  {
    assert now[..1] == [] + [Scaled(was[0], base) + c] && was[..1] == [] + [was[0]];
    NumberSnoc([], was[0]);
    NumberSnoc([], Scaled(was[0], base) + c);
  }

  lemma NextPart(was: seq<int>, before: seq<int>, now: seq<int>, k: nat, base: nat, c: Digit)
    requires 1 <= k < |before| == |was| && before[k] == was[k]
    requires Number(before[..k]) == Scaled(Number(was[..k]), base) + c
    requires now == before[k := Scaled(before[k], base) + before[k - 1] / 256][k - 1 := before[k - 1] % 256]
    ensures Number(now[..k + 1]) == Scaled(Number(was[..k + 1]), base) + c
  {
    var a, x, y := before[..k - 1], before[k - 1], Scaled(was[k], base);
    assert now[..k + 1] == a + [x % 256] + [y + x / 256];
    assert before[..k] == a + [x] && was[..k + 1] == was[..k] + [was[k]];
    CarryStep(a, x, y);
    NumberSnoc(before[..k], y);
    ScaleSnoc(was[..k], was[k], base);
  }

  lemma TopPart(before: seq<int>, now: seq<int>, t: nat)
    requires 1 <= t < |before| == |now|
    requires now[..t] == before[..t][t - 1 := before[t - 1] % 256]
    ensures Number(now[..t]) + Radix(t) * (before[t - 1] / 256) == Number(before[..t])
  {
    var a, x := before[..t - 1], before[t - 1];
    assert now[..t] == a + [x % 256] && before[..t] == a + [x];
    NumberSnoc(a, x % 256);
    NumberSnoc(a, x);
    CarryAmount(Radix(t - 1), x, 0);
  }

  /** Reading the digits of a constant: the loop over the digits. `parts` has two parts for every two
      bytes of the host words, and two more. */
  method ReadDigits(parts: array<int>, digits: seq<Digit>, base: nat) returns (overflow: bool)
    requires parts.Length >= 2 && 1 <= base <= 16
    modifies parts
    ensures var t := parts.Length - 1; var v := Value(digits, base);
      AllBytes(parts[..t]) && Holds(parts[..t], parts[t], overflow, v)
  {
    var t := parts.Length - 1;
    var count := 0;
    while count < parts.Length
      invariant 0 <= count <= parts.Length && forall i :: 0 <= i < count ==> parts[i] == 0
    {
      parts[count] := 0;
      count := count + 1;
    }
    overflow := false;
    NumberOfZeros(parts[..t]);
    hide Number, Scaled, Int32, Radix;
    var k := 0;
    while k < |digits|
      invariant 0 <= k <= |digits| && AllBytes(parts[..t])
      invariant Holds(parts[..t], parts[t], overflow, Value(digits[..k], base))
    {
      ghost var before, top, was := parts[..t], parts[t], overflow;
      AddDigit(parts, base, digits[k]);
      if parts[t] != 0 {
        overflow := true;
      }
      assert digits[..k + 1][..k] == digits[..k];
      DigitAdded(before, top, was, Value(digits[..k], base), base, digits[k], parts[..t], parts[t]);
      k := k + 1;
    }
    assert digits[..k] == digits;
  }

  /** What the parts and the sticky flag say of the value `v` read so far. */
  predicate Holds(low: seq<int>, top: int, overflow: bool, v: nat) {
    && Number(low) == v % Radix(|low|) && overflow == (v >= Radix(|low|)) && (!overflow ==> top == 0)
  }

  lemma {:induction false} NumberOfZeros(s: seq<int>)
    requires forall i :: 0 <= i < |s| ==> s[i] == 0
    ensures Number(s) == 0 && AllBytes(s)
  {
    if s != [] {
      NumberOfZeros(s[..|s| - 1]);
    }
  }

  /** The flag goes up exactly when the value reaches the radix of the top part, and then stays up, also
      when the top part wraps round to zero. */
  lemma DigitAdded(low: seq<int>, top: int, overflow: bool, v: nat, base: nat, c: Digit, low': seq<int>, top': int)
    requires 1 <= base <= 16 && |low'| == |low| >= 1 && Holds(low, top, overflow, v)
    requires var x := Scaled(Number(low), base) + c; Number(low') == x % Radix(|low|) && top' == Int32(Scaled(top, base) + x / Radix(|low|))
    ensures Holds(low', top', overflow || top' != 0, Scaled(v, base) + c)
  {
    var m := Radix(|low|);
    assert m >= 256 by { assert Radix(|low| - 1) >= 1; }
    var n := Number(low);
    hide Number, Scaled, Int32, Radix;
    SameRemainder(v, base, c, m);
    if overflow {
      ScaledMore(v, base);
    } else {
      SmallModulus(v, m);
      ScaledLess(v, base, m);
      QuotientSmall(Scaled(v, base) + c, m);
      ScaledZero(base);
      Int32Small((Scaled(v, base) + c) / m);
    }
  }

  lemma SameRemainder(v: int, base: nat, c: int, m: int)
    requires m > 0
    ensures (Scaled(v, base) + c) % m == (Scaled(v % m, base) + c) % m
  {
    var q, n := v / m, v % m;
    assert v == m * q + n;
    ScaleSum(m * q, n, base);
    ScaleProduct(m, q, base);
    AddMultiple(Scaled(n, base) + c, Scaled(q, base), m);
  }

  lemma AddMultiple(x: int, k: int, m: int)
    requires m > 0
    ensures (m * k + x) % m == x % m
  {
    var q, r := x / m, x % m;
    assert x == m * q + r;
    assert m * (k + q) == m * k + m * q;
    Quotient(r, k + q, m, m * k + x);
  }

  lemma ScaledMore(v: int, base: nat)
    requires v >= 0 && base >= 1
    ensures Scaled(v, base) >= v
  {
    assert v * (base - 1) >= 0;
    assert v * base == v * (base - 1) + v;
  }

  lemma ScaledLess(v: int, base: nat, m: int)
    requires 0 <= v < m && 1 <= base <= 16
    ensures 0 <= Scaled(v, base) <= 16 * (m - 1)
  {
    assert v * base <= v * 16 && v * base >= 0;
  }

  lemma SmallModulus(v: int, m: int)
    requires 0 <= v < m
    ensures v % m == v
  {
  }

  lemma QuotientSmall(x: int, m: int)
    requires m >= 256 && 0 <= x <= 16 * (m - 1) + 35
    ensures 0 <= x / m <= 17 && (x / m != 0) == (x >= m)
  {
    var q, r := x / m, x % m;
    assert x == m * q + r && 0 <= r < m;
    MulAtLeast(m, q);
    MulAtLeast(m, q - 17);
    assert m * (q - 17) == m * q - 17 * m;
  }

  lemma ScaledZero(base: nat)
    ensures Scaled(0, base) == 0
  {
  }

  lemma Int32Small(x: int)
    requires 0 <= x <= 17
    ensures Int32(x) == x
  {
  }

  // ---------------------------------------------------------------- the range test

  lemma {:induction false} NumberSplit(a: seq<int>, b: seq<int>)
    ensures Number(a + b) == Number(a) + Radix(|a|) * Number(b)
  {
    if b == [] {
      assert a + b == a;
    } else {
      var k := |b| - 1;
      assert (a + b)[..|a| + k] == a + b[..k];
      NumberSplit(a, b[..k]);
      RadixAdd(|a|, k);
      var r, n, x := Radix(|a|), Number(b[..k]), Radix(k);
      assert r * (n + x * b[k]) == r * n + r * x * b[k] by { Distribute4(r, n, x, b[k]); }
    }
  }

  lemma Distribute4(r: int, n: int, x: int, y: int)
    ensures r * (n + x * y) == r * n + r * x * y
  {
    assert r * (x * y) == r * x * y;
  }

  lemma {:induction false} RadixAdd(a: nat, b: nat)
    ensures Radix(a + b) == Radix(a) * Radix(b)
  {
    if b > 0 {
      RadixAdd(a, b - 1);
      assert Radix(a) * (256 * Radix(b - 1)) == 256 * (Radix(a) * Radix(b - 1));
    }
  }

  /** A number of bytes is zero exactly when all its parts are. */
  lemma {:induction false} ZeroNumber(s: seq<int>)
    requires AllBytes(s)
    ensures Number(s) == 0 <==> forall i :: 0 <= i < |s| ==> s[i] == 0
  {
    if s != [] {
      var k := |s| - 1;
      ZeroNumber(s[..k]);
      NumberBound(s[..k]);
      Product(Radix(k), s[k]);
    }
  }

  lemma Product(r: int, x: int)
    requires r >= 1 && x >= 0
    ensures r * x >= 0 && (r * x == 0 <==> x == 0)
  {
    MulAtLeast(r, x);
  }

  /** The test that some part beyond the target's bytes is not zero. */
  method OutOfRange(parts: array<int>, bytes: nat, overflow: bool, ghost v: nat) returns (warn: bool)
    requires bytes < parts.Length && AllBytes(parts[..parts.Length - 1])
    requires Holds(parts[..parts.Length - 1], parts[parts.Length - 1], overflow, v)
    ensures warn == (v >= Radix(bytes))
  {
    warn := overflow;
    var i := bytes;
    while i < parts.Length
      invariant bytes <= i <= parts.Length
      invariant warn == (overflow || exists j :: bytes <= j < i && parts[j] != 0)
    {
      if parts[i] != 0 {
        warn := true;
      }
      i := i + 1;
    }
    RangeTest(parts[..parts.Length - 1], bytes, v);
  }

  /** A value that fits all parts fits `bytes` of them exactly when the others are zero. */
  lemma RangeTest(low: seq<int>, bytes: nat, v: nat)
    requires bytes <= |low| && AllBytes(low) && Number(low) == v % Radix(|low|)
    ensures v >= Radix(|low|) ==> v >= Radix(bytes)
    ensures v < Radix(|low|) ==> (v >= Radix(bytes) <==> exists j :: bytes <= j < |low| && low[j] != 0)
  {
    var a, b := low[..bytes], low[bytes..];
    assert low == a + b;
    RadixAdd(bytes, |b|);
    NumberSplit(a, b);
    NumberBound(a);
    NumberBound(b);
    hide Radix, Number;
    RangeParts(v, Number(a), Number(b), Radix(bytes), Radix(|b|), Radix(|low|));
    ZeroNumber(b);
    hide AllBytes;
    HighParts(low, bytes);
  }

  lemma HighParts(low: seq<int>, bytes: nat)
    requires bytes <= |low|
    ensures (forall j :: 0 <= j < |low[bytes..]| ==> low[bytes..][j] == 0) <==> !exists j :: bytes <= j < |low| && low[j] != 0
  {
    var b := low[bytes..];
    assert forall j :: bytes <= j < |low| ==> low[j] == b[j - bytes];
    assert forall j :: 0 <= j < |b| ==> b[j] == low[j + bytes];
  }

  lemma RangeParts(v: nat, a: int, b: int, m: int, n: int, all: int)
    requires 0 <= a < m && 0 <= b < n && all == m * n && all > 0 && v % all == a + m * b
    ensures all >= m
    ensures v < all ==> (v >= m <==> b != 0)
  {
    MulAtLeast(m, n);
    MulAtLeast(m, b);
    if v < all {
      SmallModulus(v, all);
    }
  }

  // ---------------------------------------------------------------- the two host words

  /** The loop that puts `w` parts from `from` on into one word. The parts shifted into place have no
      bits in common, so that "or" is addition. */
  method JoinParts(parts: array<int>, from: nat, w: nat) returns (word: int)
    requires from + w <= parts.Length
    ensures word == Number(parts[from..from + w])
  {
    word := 0;
    var i := 0;
    while i < w
      invariant 0 <= i <= w && word == Number(parts[from..from + i])
    {
      assert parts[from..from + i + 1] == parts[from..from + i] + [parts[from + i]];
      NumberSnoc(parts[from..from + i], parts[from + i]);
      word := word + Radix(i) * parts[from + i];
      i := i + 1;
    }
  }

  /** The low and the high word hold the value modulo two words. */
  method BuildWords(parts: array<int>, w: nat, ghost v: nat) returns (low: int, high: int)
    requires w >= 1 && parts.Length == 2 * w + 2 && AllBytes(parts[..2 * w + 1])
    requires Number(parts[..2 * w + 1]) == v % Radix(2 * w + 1)
    ensures 0 <= low < Radix(w) && 0 <= high < Radix(w)
    ensures low + Radix(w) * high == v % Radix(2 * w)
  {
    high := JoinParts(parts, w, w);
    low := JoinParts(parts, 0, w);
    WordsHold(parts[..2 * w + 1], w, v);
    assert parts[w..w + w] == parts[..2 * w + 1][w..2 * w] && parts[0..0 + w] == parts[..2 * w + 1][..w];
  }

  lemma WordsHold(s: seq<int>, w: nat, v: nat)
    requires |s| == 2 * w + 1 && AllBytes(s) && Number(s) == v % Radix(2 * w + 1)
    ensures var low, high := Number(s[..w]), Number(s[w..2 * w]);
      0 <= low < Radix(w) && 0 <= high < Radix(w) && low + Radix(w) * high == v % Radix(2 * w)
  {
    var a, b, x := s[..w], s[w..2 * w], s[2 * w];
    assert s[..2 * w] == a + b && s == (a + b) + [x];
    NumberBound(a);
    NumberBound(b);
    NumberBound(a + b);
    NumberSplit(a, b);
    NumberSnoc(a + b, x);
    var m, n := Radix(2 * w), Number(a + b);
    RadixAdd(2 * w, 1);
    var q := v / Radix(2 * w + 1);
    DivModWhole(v, Radix(2 * w + 1));
    assert Radix(1) == 256 * Radix(0) == 256;
    Reassociate(m, x, q, n, v);
    hide Number, Radix;
    Quotient(n, x + 256 * q, m, v);
  }

  lemma DivModWhole(v: int, m: int)
    requires m > 0
    ensures v == m * (v / m) + v % m
  {
  }

  lemma Reassociate(m: int, x: int, q: int, n: int, v: int)
    requires v == m * 256 * q + (n + m * x)
    ensures n + m * (x + 256 * q) == v
  {
    assert m * (256 * q) == m * 256 * q;
  }
}
