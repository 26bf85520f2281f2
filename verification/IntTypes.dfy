/** Integer types by precision and signedness, and the value conversions between them. */
module IntTypes {

  function Pow2(n: nat): (p: int)
    ensures p >= 1
  {
    if n == 0 then 1 else 2 * Pow2(n - 1)
  }

  lemma {:induction false} Pow2Monotone(a: nat, b: nat)
    requires a <= b
    ensures Pow2(a) <= Pow2(b)
    ensures a < b ==> 2 * Pow2(a) <= Pow2(b)
    decreases b
  {
    if a < b {
      Pow2Monotone(a, b - 1);
    }
  }

  lemma {:induction false} Pow2Add(a: nat, b: nat)
    ensures Pow2(a + b) == Pow2(a) * Pow2(b)
    decreases b
  {
    if b != 0 {
      Pow2Add(a, b - 1);
    }
  }

  // ---------------------------------------------------------------- residues

  /** The representative of `v` modulo `m` that is at most `limit`. */
  function Wrap(v: int, m: int, limit: int): int
    requires m > 0
  {
    var r := v % m;
    if r <= limit then r else r - m
  }

  /** `a` and `b` differ by a multiple of `m`. */
  ghost predicate Congruent(a: int, b: int, m: int) {
    exists k :: a == b + Times(k, m)
  }

  function Times(k: int, m: int): int { k * m }

  lemma WrapCongruent(v: int, m: int, limit: int)
    requires m > 0 && -1 <= limit < m
    ensures limit - m < Wrap(v, m, limit) <= limit
    ensures Congruent(Wrap(v, m, limit), v, m)
  {
    var q, r := v / m, v % m;
    var k := if r <= limit then -q else -q - 1;
    assert v == q * m + r && 0 <= r < m;
    Distribute(-q, -1, m);
    assert Wrap(v, m, limit) == v + Times(k, m);
  }

  lemma Distribute(a: int, b: int, m: int)
    ensures Times(a + b, m) == Times(a, m) + Times(b, m)
    ensures Times(-a, m) == -Times(a, m) && Times(1, m) == m && Times(-1, m) == -m
  {
  }

  /** Congruent values in an interval of length `m` are equal. */
  lemma CongruentUnique(a: int, b: int, m: int, top: int)
    requires m > 0 && Congruent(a, b, m) && top - m < a <= top && top - m < b <= top
    ensures a == b
  {
    var k :| a == b + Times(k, m);
    if k >= 1 {
      TimesAtLeast(k, m);
    } else if k <= -1 {
      TimesAtLeast(-k, m);
      Distribute(k, 0, m);
    }
  }

  lemma TimesAtLeast(k: int, m: int)
    requires k >= 1 && m > 0
    ensures Times(k, m) >= m
  {
  }

  lemma CongruentSymmetric(a: int, b: int, m: int)
    requires Congruent(a, b, m)
    ensures Congruent(b, a, m)
  {
    var k :| a == b + Times(k, m);
    Distribute(k, 0, m);
    assert b == a + Times(-k, m);
  }

  lemma CongruentTransitive(a: int, b: int, c: int, m: int)
    requires Congruent(a, b, m) && Congruent(b, c, m)
    ensures Congruent(a, c, m)
  {
    var j :| a == b + Times(j, m);
    var k :| b == c + Times(k, m);
    Distribute(j, k, m);
    assert a == c + Times(j + k, m);
  }

  /** Congruence modulo a power of two carries over to smaller powers. */
  lemma CongruentNarrower(a: int, b: int, wide: nat, narrow: nat)
    requires Congruent(a, b, Pow2(wide)) && narrow <= wide
    ensures Congruent(a, b, Pow2(narrow))
  {
    Pow2Add(narrow, wide - narrow);
    var d, m := Pow2(wide - narrow), Pow2(narrow);
    var k :| a == b + Times(k, Pow2(wide));
    hide Pow2;
    Regroup(k, d, m);
    assert a == b + Times(Times(k, d), m);
  }

  lemma Regroup(k: int, d: int, m: int)
    ensures Times(k, m * d) == Times(Times(k, d), m)
  {
  }

  // ---------------------------------------------------------------- types

  datatype IntType = IntType(prec: nat, uns: bool) {
    /** TYPE_MIN_VALUE and TYPE_MAX_VALUE */
    function Min(): int
      requires prec >= 1
    {
      if uns then 0 else 0 - Pow2(prec - 1)
    }

    function Max(): int
      requires prec >= 1
    {
      if uns then Pow2(prec) - 1 else Pow2(prec - 1) - 1
    }

    predicate Has(v: int)
      requires prec >= 1
    {
      Min() <= v <= Max()
    }

    /** The value that a conversion to this type gives: the one the type has that differs by a
        multiple of 2^prec. */
    function Convert(v: int): int
      requires prec >= 1
    {
      Wrap(v, Pow2(prec), Max())
    }

    function WithSign(unsigned: bool): IntType { IntType(prec, unsigned) }
  }

  lemma TypeRange(t: IntType)
    requires t.prec >= 1
    ensures t.Min() == t.Max() + 1 - Pow2(t.prec) && -1 <= t.Max() < Pow2(t.prec)
    ensures t.Min() <= 0 <= t.Max()
  {
  }

  lemma ConvertFacts(t: IntType, v: int)
    requires t.prec >= 1
    ensures t.Has(t.Convert(v)) && Congruent(t.Convert(v), v, Pow2(t.prec))
    ensures t.Has(v) ==> t.Convert(v) == v
  {
    TypeRange(t);
    WrapCongruent(v, Pow2(t.prec), t.Max());
    hide Pow2, Wrap, Congruent;
    if t.Has(v) {
      CongruentUnique(t.Convert(v), v, Pow2(t.prec), t.Max());
    }
  }

  lemma ConvertIff(t: IntType, a: int, b: int)
    requires t.prec >= 1
    ensures Congruent(a, b, Pow2(t.prec)) <==> t.Convert(a) == t.Convert(b)
  {
    var m := Pow2(t.prec);
    ConvertFacts(t, a);
    ConvertFacts(t, b);
    TypeRange(t);
    var x, y := t.Convert(a), t.Convert(b);
    hide Pow2, Wrap, Congruent;
    CongruentSymmetric(x, a, m);
    CongruentSymmetric(y, b, m);
    if Congruent(a, b, m) {
      CongruentTransitive(x, a, b, m);
      CongruentTransitive(x, b, y, m);
      CongruentUnique(x, y, m, t.Max());
    }
    if x == y {
      CongruentTransitive(a, x, b, m);
    }
  }

  /** Every value of `t` is a value of `u`. */
  predicate Within(t: IntType, u: IntType) {
    if t.uns == u.uns then t.prec <= u.prec else t.uns && t.prec < u.prec
  }

  lemma WiderRange(t: IntType, u: IntType, v: int)
    requires t.prec >= 1 && u.prec >= 1 && t.Has(v) && Within(t, u)
    ensures u.Has(v)
  {
    Pow2Monotone(t.prec, u.prec);
    Pow2Monotone(t.prec - 1, u.prec - 1);
    if t.prec < u.prec {
      Pow2Monotone(t.prec, u.prec - 1);
    }
  }

  /** The unsigned reading of a value within one period of zero. */
  lemma AsUnsigned(prec: nat, v: int)
    requires prec >= 1 && 0 - Pow2(prec) <= v < Pow2(prec)
    ensures IntType(prec, true).Convert(v) == if v >= 0 then v else v + Pow2(prec)
  {
    var t := IntType(prec, true);
    var w := if v >= 0 then v else v + Pow2(prec);
    Distribute(1, 0, Pow2(prec));
    assert Congruent(v, w, Pow2(prec)) by {
      assert v == w + Times(if v >= 0 then 0 else -1, Pow2(prec));
    }
    ConvertIff(t, v, w);
    ConvertFacts(t, w);
  }
}
