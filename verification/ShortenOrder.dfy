/**
 The order of two values that have lost their width: when it is the order that the values had, in the
 terms of the ranges alone.
 */
module ShortenOrder {
  import opened Helpers
  import opened IntTypes

  /** A narrow operand. Its object gives it a value from `-half` to `half - 1`; a negative one has
      `narrow` added to it where the stripped operands are compared, and `wide` where the operands are
      compared as they were written. */
  datatype Side = Side(half: int, narrow: int, wide: int)

  /** A negative value stays negative or comes to lie above the others. */
  predicate Fits(s: Side) {
    && s.half >= 1
    && (s.narrow == 0 || s.narrow >= 2 * s.half)
    && (s.wide == 0 || s.wide >= 2 * s.half)
  }

  function Read(y: int, add: int): int { if y < 0 then y + add else y }

  predicate InHalf(y: int, s: Side) { -s.half <= y < s.half }

  predicate SameOrder(a: int, b: int, c: int, d: int) {
    (a < b <==> c < d) && (a == b <==> c == d)
  }

  predicate SidesAgree(a: Side, b: Side, x: int, y: int) {
    SameOrder(Read(x, a.narrow), Read(y, b.narrow), Read(x, a.wide), Read(y, b.wide))
  }

  // ---------------------------------------------------------------- two objects

  /** Negative values against the other operand's values from 0 up to `half`: nothing changes, or they
      lie above all of these both times. */
  predicate MeetsKept(a: Side, half: int) {
    a.narrow == a.wide || (a.narrow - a.half >= half && a.wide - a.half >= half)
  }

  /** Negative values of both operands: their distance is the same, or so large that it decides. */
  predicate NegativesKept(a: Side, b: Side) {
    var n, w := a.narrow - b.narrow, a.wide - b.wide;
    n == w || (n >= a.half && w >= a.half) || (n <= -b.half && w <= -b.half)
  }

  predicate OrderKept(a: Side, b: Side) {
    MeetsKept(a, b.half) && MeetsKept(b, a.half) && NegativesKept(a, b)
  }

  lemma OrderIsKept(a: Side, b: Side, x: int, y: int)
    requires Fits(a) && Fits(b) && InHalf(x, a) && InHalf(y, b) && OrderKept(a, b)
    ensures SidesAgree(a, b, x, y)
  {
  }

  /** Otherwise there are two values whose order changes. */
  lemma OrderIsLost(a: Side, b: Side) returns (x: int, y: int)
    requires Fits(a) && Fits(b) && !OrderKept(a, b)
    ensures InHalf(x, a) && InHalf(y, b) && !SidesAgree(a, b, x, y)
  {
    if !MeetsKept(a, b.half) {
      x := if Min(a.narrow, a.wide) == 0 then -1 else -a.half;
      y := Read(x, Min(a.narrow, a.wide));
      if y < 0 {
        y := 0;
      }
    } else if !MeetsKept(b, a.half) {
      y := if Min(b.narrow, b.wide) == 0 then -1 else -b.half;
      x := Read(y, Min(b.narrow, b.wide));
      if x < 0 {
        x := 0;
      }
    } else {
      var n, w := a.narrow - b.narrow, a.wide - b.wide;
      var low, high := Min(n, w), Max(n, w);
      var d := if low > -b.half then -low else if high < a.half then -high else 0;
      x := if d <= 0 then -1 + d else -1;
      y := x - d;
    }
  }

  // ---------------------------------------------------------------- a constant

  /** The constant keeps its place: nothing changes, or it lies on one side of all negative values both
      times. */
  predicate ConstantKept(a: Side, c: int) {
    a.narrow == a.wide || (a.narrow - a.half > c && a.wide - a.half > c) || (a.narrow <= c && a.wide <= c)
  }

  predicate ConstantAgrees(a: Side, x: int, c: int) {
    SameOrder(Read(x, a.narrow), c, Read(x, a.wide), c)
  }

  lemma ConstantIsKept(a: Side, x: int, c: int)
    requires Fits(a) && InHalf(x, a) && ConstantKept(a, c)
    ensures ConstantAgrees(a, x, c)
  {
  }

  lemma ConstantIsLost(a: Side, c: int) returns (x: int)
    requires Fits(a) && !ConstantKept(a, c)
    ensures InHalf(x, a) && !ConstantAgrees(a, x, c)
  {
    var low := Min(a.narrow, a.wide);
    x := if c < low then c - low else -1;
  }

  // ---------------------------------------------------------------- one object

  /** The values that two operands over one object have at a time: they agree in the lower bits, which
      are all the bits of the smaller one. */
  ghost predicate Linked(x: int, y: int, a: Side, b: Side)
    requires a.half <= b.half
  {
    Congruent(x, y, 2 * a.half)
  }

  function Sign(x: int): int { if x < 0 then -1 else if x == 0 then 0 else 1 }

  /** The same condition for operands over one object, of which the first has no more values. Their
      distance is a multiple of the number of these. */
  predicate LinkedKept(a: Side, b: Side) {
    var n, w := a.narrow - b.narrow, a.wide - b.wide;
    if a.half == b.half then Sign(n) == Sign(w)
    else
      && (a.narrow == a.wide || (a.narrow > b.half && a.wide > b.half))
      && (b.narrow == b.wide || (b.narrow > 0 && b.wide > 0))
      && (n == w || (n > 0 && w > 0) || (n <= -b.half && w <= -b.half))
  }

  predicate OneObjectKept(a: Side, b: Side) {
    if a.half <= b.half then LinkedKept(a, b) else LinkedKept(b, a)
  }

  /** The sides in units of the number of values of the smaller one. */
  datatype Units = Units(m: int, half: int, a: int, a': int, b: int, b': int)

  ghost predicate InUnits(a: Side, b: Side, u: Units) {
    && u.m == 2 * a.half >= 2 && (a.half < b.half ==> u.half >= 1 && b.half == Times(u.half, u.m))
    && a.narrow == Times(u.a, u.m) && a.wide == Times(u.a', u.m)
    && b.narrow == Times(u.b, u.m) && b.wide == Times(u.b', u.m)
  }

  lemma UnitOrder(i: int, j: int, m: int)
    requires m >= 1
    ensures (Times(i, m) < Times(j, m) <==> i < j) && (Times(i, m) == Times(j, m) <==> i == j)
  {
    if i < j {
      assert Times(j, m) == Times(i, m) + Times(j - i, m);
      TimesAtLeast(j - i, m);
    } else if j < i {
      assert Times(i, m) == Times(j, m) + Times(i - j, m);
      TimesAtLeast(i - j, m);
    }
  }

  /** The condition in units. */
  predicate UnitsKept(u: Units) {
    var n, w := u.a - u.b, u.a' - u.b';
    && (u.a == u.a' || (u.a > u.half && u.a' > u.half))
    && (u.b == u.b' || (u.b > 0 && u.b' > 0))
    && (n == w || (n > 0 && w > 0) || (n <= -u.half && w <= -u.half))
  }

  lemma KeptInUnits(a: Side, b: Side, u: Units)
    requires InUnits(a, b, u) && a.half < b.half
    ensures LinkedKept(a, b) <==> UnitsKept(u)
    ensures Fits(a) && Fits(b) ==> u.a >= 0 && u.a' >= 0 && u.b >= 0 && u.b' >= 0
  {
    var m, n, w := u.m, u.a - u.b, u.a' - u.b';
    UnitOrder(u.a, u.a', m);
    UnitOrder(u.b, u.b', m);
    UnitOrder(u.half, u.a, m);
    UnitOrder(u.half, u.a', m);
    FromZero(u.a, m);
    FromZero(u.a', m);
    FromZero(u.b, m);
    FromZero(u.b', m);
    Difference(u.a, u.b, m);
    Difference(u.a', u.b', m);
    FromZero(n, m);
    FromZero(w, m);
    UnitOrder(n, w, m);
    Difference(0, u.half, m);
    UnitOrder(-u.half, n, m);
    UnitOrder(-u.half, w, m);
    FromZero(0, m);
    hide Times;
  }

  lemma Difference(i: int, j: int, m: int)
    ensures Times(i - j, m) == Times(i, m) - Times(j, m)
  {
  }

  lemma FromZero(i: int, m: int)
    requires m >= 1
    ensures (Times(i, m) < 0 <==> i < 0) && (Times(i, m) == 0 <==> i == 0)
  {
    UnitOrder(i, 0, m);
  }

  /** Two values `t` units apart, read with what is added to them, are as many units apart as this says. */
  function Apart(t: int, x: int, y: int, a: int, b: int): int {
    t + (if x < 0 then a else 0) - (if y < 0 then b else 0)
  }

  lemma ReadApart(t: int, x: int, y: int, a: int, b: int, m: int)
    requires x == y + Times(t, m)
    ensures Read(x, Times(a, m)) - Read(y, Times(b, m)) == Times(Apart(t, x, y, a, b), m)
  {
    Difference(t, -a, m);
    Difference(t, b, m);
    Difference(t + a, b, m);
    Difference(0, a, m);
    Difference(0, 0, m);
  }

  lemma AgreeInUnits(a: Side, b: Side, u: Units, x: int, y: int, t: int)
    requires InUnits(a, b, u) && x == y + Times(t, u.m)
    ensures SidesAgree(a, b, x, y) <==> Sign(Apart(t, x, y, u.a, u.b)) == Sign(Apart(t, x, y, u.a', u.b'))
  {
    ReadApart(t, x, y, u.a, u.b, u.m);
    ReadApart(t, x, y, u.a', u.b', u.m);
    FromZero(Apart(t, x, y, u.a, u.b), u.m);
    FromZero(Apart(t, x, y, u.a', u.b'), u.m);
    hide Times, Apart;
  }

  /** How many units linked values can be apart. */
  lemma UnitsApart(a: Side, b: Side, u: Units, x: int, y: int, t: int)
    requires InUnits(a, b, u) && a.half < b.half && InHalf(x, a) && InHalf(y, b) && x == y + Times(t, u.m)
    ensures x < 0 <= y ==> -u.half <= t <= -1
    ensures y < 0 <= x ==> 1 <= t <= u.half
    ensures x < 0 && y < 0 ==> 0 <= t < u.half
  {
    FromZero(t, u.m);
    UnitOrder(t, -u.half - 1, u.m);
    UnitOrder(t, u.half + 1, u.m);
    UnitOrder(t, u.half, u.m);
    UnitOrder(t, -1, u.m);
    Difference(-u.half, 1, u.m);
    Difference(0, u.half, u.m);
    Difference(u.half, -1, u.m);
    Difference(0, 1, u.m);
    assert Times(0, u.m) == 0 && Times(1, u.m) == u.m && Times(-1, u.m) == -u.m;
    hide Times;
    assert Times(t, u.m) == x - y;
    assert t <= -u.half - 1 ==> x - y <= -b.half - 2 * a.half;
  }

  /** All these distances occur. */
  lemma SomeApart(a: Side, b: Side, u: Units, minusX: bool, minusY: bool, t: int) returns (x: int, y: int)
    requires InUnits(a, b, u) && a.half < b.half && (minusX || minusY)
    requires minusX && !minusY ==> -u.half <= t <= -1
    requires minusY && !minusX ==> 1 <= t <= u.half
    requires minusX && minusY ==> 0 <= t < u.half
    ensures InHalf(x, a) && InHalf(y, b) && x == y + Times(t, u.m) && (x < 0 <==> minusX) && (y < 0 <==> minusY)
  {
    x := if minusX then -1 else 0;
    y := x - Times(t, u.m);
    UnitOrder(t, -u.half, u.m);
    UnitOrder(t, u.half, u.m);
    UnitOrder(t, u.half - 1, u.m);
    UnitOrder(t, -1, u.m);
    UnitOrder(t, 1, u.m);
    FromZero(t, u.m);
    Difference(0, u.half, u.m);
    Difference(u.half, 1, u.m);
    assert Times(0, u.m) == 0 && Times(1, u.m) == u.m && Times(-1, u.m) == -u.m;
    hide Times;
  }

  lemma LinkedIsKept(a: Side, b: Side, u: Units, x: int, y: int)
    requires Fits(a) && Fits(b) && a.half <= b.half && InUnits(a, b, u) && LinkedKept(a, b)
    requires InHalf(x, a) && InHalf(y, b) && Linked(x, y, a, b)
    ensures SidesAgree(a, b, x, y)
  {
    if a.half == b.half {
      CongruentUnique(x, y, u.m, a.half - 1);
    } else {
      var t :| x == y + Times(t, u.m);
      UnitsApart(a, b, u, x, y, t);
      KeptInUnits(a, b, u);
      AgreeInUnits(a, b, u, x, y, t);
      hide InUnits, LinkedKept, SidesAgree;
    }
  }

  /** Signs of two linked values, and their distance. */
  predicate Possible(u: Units, minusX: bool, minusY: bool, t: int) {
    && (minusX || minusY)
    && (minusX && !minusY ==> -u.half <= t <= -1)
    && (minusY && !minusX ==> 1 <= t <= u.half)
    && (minusX && minusY ==> 0 <= t < u.half)
  }

  function ApartBySigns(t: int, minusX: bool, minusY: bool, a: int, b: int): int {
    t + (if minusX then a else 0) - (if minusY then b else 0)
  }

  lemma LostDistance(u: Units) returns (minusX: bool, minusY: bool, t: int)
    requires u.half >= 1 && u.a >= 0 && u.a' >= 0 && u.b >= 0 && u.b' >= 0 && !UnitsKept(u)
    ensures Possible(u, minusX, minusY, t)
    ensures Sign(ApartBySigns(t, minusX, minusY, u.a, u.b)) != Sign(ApartBySigns(t, minusX, minusY, u.a', u.b'))
  {
    var n, w := u.a - u.b, u.a' - u.b';
    minusX, minusY := true, true;
    if !(u.a == u.a' || (u.a > u.half && u.a' > u.half)) {
      minusY := false;
      t := if Min(u.a, u.a') == 0 then -1 else -Min(u.a, u.a');
    } else if !(u.b == u.b' || (u.b > 0 && u.b' > 0)) {
      minusX := false;
      t := 1;
    } else {
      var low, high := Min(n, w), Max(n, w);
      t := if low <= 0 && low > -u.half then -low else if high <= 0 then -high else 0;
    }
  }

  /** Otherwise there are two linked values whose order changes. */
  lemma LinkedIsLost(a: Side, b: Side, u: Units) returns (x: int, y: int)
    requires Fits(a) && Fits(b) && a.half <= b.half && InUnits(a, b, u) && !LinkedKept(a, b)
    ensures InHalf(x, a) && InHalf(y, b) && Linked(x, y, a, b) && !SidesAgree(a, b, x, y)
  {
    if a.half == b.half {
      x, y := -1, -1;
      assert x == y + Times(0, u.m);
    } else {
      hide LinkedKept, UnitsKept, SidesAgree, Times, Sign;
      KeptInUnits(a, b, u);
      var minusX, minusY, t := LostDistance(u);
      x, y := SomeApart(a, b, u, minusX, minusY, t);
      AgreeInUnits(a, b, u, x, y, t);
    }
  }
}
