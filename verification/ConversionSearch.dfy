/**
 `deduce_conversion`: the rounds end, they find a recipe exactly when some chain of reasonable steps
 exists, and the recipe is the cheapest of those collected.
 */
module ConversionSearch {
  import opened Helpers
  import opened Conversions

  const BIG_ARBITRARY_NUMBER := 100000

  function Targets(table: seq<Conversion>): set<Typecode> {
    set i | 0 <= i < |table| :: table[i].to
  }

  function Codes(table: seq<Conversion>, from: Typecode): set<Typecode> {
    {from} + Targets(table)
  }

  function CodesOf(c: Chain): set<Typecode> {
    if c.Nil? then {} else {c.to} + CodesOf(c.prev)
  }

  lemma {:induction false} AppearsIn(t: Typecode, c: Chain)
    ensures Appears(t, c) <==> t in CodesOf(c)
  {
    if c.Node? {
      AppearsIn(t, c.prev);
    }
  }

  /** No typecode appears twice, so a chain is no longer than there are typecodes. */
  lemma {:induction false} NoRepeats(c: Chain, table: seq<Conversion>, from: Typecode)
    requires Stepwise(c, table, from)
    ensures CodesOf(c) <= Codes(table, from) && |CodesOf(c)| == Length(c)
  {
    if c != First(from) {
      NoRepeats(c.prev, table, from);
      AppearsIn(c.to, c.prev);
      var i :| 0 <= i < |table| && Fits(table[i], c.prev) && c == Add(table[i], c.prev);
      assert table[i].to in Targets(table);
    } else {
      assert CodesOf(c) == {from} && Length(c) == 1;
    }
  }

  lemma LengthBound(c: Chain, table: seq<Conversion>, from: Typecode)
    requires Stepwise(c, table, from)
    ensures Length(c) <= |Codes(table, from)|
  {
    NoRepeats(c, table, from);
    SubsetSize(CodesOf(c), Codes(table, from));
  }

  lemma SiftKeeps(pending: seq<Chain>, table: seq<Conversion>, from: Typecode, to: Typecode, good: seq<Chain>, k: nat)
    requires AllStepwise(pending, table, from, k)
    ensures AllStepwise(Sift(pending, to, good).0, table, from, k)
  {
    forall c | c in Sift(pending, to, good).0 ensures c in pending {
      SiftMembers(pending, to, good, c);
    }
  }

  lemma ExpandKeeps(pending: seq<Chain>, table: seq<Conversion>, from: Typecode, k: nat)
    requires AllStepwise(pending, table, from, k)
    ensures AllStepwise(ExpandAll(pending, table, []), table, from, k + 1)
  {
    forall c | c in ExpandAll(pending, table, [])
      ensures c.Node? && Stepwise(c, table, from) && Length(c) == k + 1
    {
      ExpandAllMembers(pending, table, [], c);
    }
  }

  /** The chains collected from the rounds that start with `pending`, chains of `k` nodes. */
  function Rounds(pending: seq<Chain>, table: seq<Conversion>, from: Typecode, to: Typecode, good: seq<Chain>, k: nat): seq<Chain>
    requires AllStepwise(pending, table, from, k)
    decreases |Codes(table, from)| + 1 - k
  {
    if pending == [] then good
    else
      LengthBound(pending[0], table, from);
      SiftKeeps(pending, table, from, to, good, k);
      var r := Sift(pending, to, good);
      ExpandKeeps(r.0, table, from, k);
      Rounds(ExpandAll(r.0, table, []), table, from, to, r.1, k + 1)
  }

  function Collected(table: seq<Conversion>, from: Typecode, to: Typecode): seq<Chain> {
    Rounds([First(from)], table, from, to, [], 1)
  }

  predicate Leads(c: Chain, table: seq<Conversion>, from: Typecode, to: Typecode) {
    c.Node? && Stepwise(c, table, from) && c.to == to
  }

  /** What is collected are chains to the target, and what was collected before stays. */
  lemma {:induction false} RoundsSound(pending: seq<Chain>, table: seq<Conversion>, from: Typecode, to: Typecode, good: seq<Chain>, k: nat, c: Chain)
    requires AllStepwise(pending, table, from, k)
    ensures var all := Rounds(pending, table, from, to, good, k);
      (c in all ==> c in good || Leads(c, table, from, to)) && (c in good ==> c in all)
    decreases |Codes(table, from)| + 1 - k
  {
    if pending != [] {
      LengthBound(pending[0], table, from);
      SiftKeeps(pending, table, from, to, good, k);
      SiftMembers(pending, to, good, c);
      var r := Sift(pending, to, good);
      ExpandKeeps(r.0, table, from, k);
      RoundsSound(ExpandAll(r.0, table, []), table, from, to, r.1, k + 1, c);
    }
  }

  /** The first `k` nodes of a chain. */
  function Prefix(c: Chain, k: nat): Chain {
    if c.Nil? || Length(c) <= k then c else Prefix(c.prev, k)
  }

  lemma {:induction false} PrefixStep(c: Chain, table: seq<Conversion>, from: Typecode, k: nat)
    requires Stepwise(c, table, from) && 1 <= k < Length(c)
    ensures var d := Prefix(c, k + 1);
      d.Node? && d.prev == Prefix(c, k) && Stepwise(d, table, from) && Extends(d, table)
    ensures Length(Prefix(c, k)) == k && c.to in CodesOf(c) - CodesOf(Prefix(c, k))
  {
    NoRepeats(c, table, from);
    AppearsIn(c.to, c.prev);
    if Length(c) == k + 1 {
      assert Prefix(c.prev, k) == c.prev;
    } else {
      PrefixStep(c.prev, table, from, k);
      NotInPrefix(c.to, c.prev, k);
    }
  }

  lemma {:induction false} NotInPrefix(t: Typecode, c: Chain, k: nat)
    requires t !in CodesOf(c)
    ensures t !in CodesOf(Prefix(c, k))
  {
    if c.Node? && Length(c) > k {
      NotInPrefix(t, c.prev, k);
    }
  }

  /** A chain to the target whose beginning is pending makes the search find something. */
  lemma {:induction false} RoundsFind(pending: seq<Chain>, table: seq<Conversion>, from: Typecode, to: Typecode, good: seq<Chain>, k: nat, c: Chain)
    requires AllStepwise(pending, table, from, k) && Leads(c, table, from, to)
    requires 1 <= k <= Length(c) && Prefix(c, k) in pending
    ensures Rounds(pending, table, from, to, good, k) != []
    decreases |Codes(table, from)| + 1 - k
  {
    LengthBound(pending[0], table, from);
    SiftKeeps(pending, table, from, to, good, k);
    var r := Sift(pending, to, good);
    ExpandKeeps(r.0, table, from, k);
    var next := ExpandAll(r.0, table, []);
    var p := Prefix(c, k);
    SiftMembers(pending, to, good, p);
    if r.1 != [] {
      RoundsSound(next, table, from, to, r.1, k + 1, r.1[0]);
    } else {
      assert p.to != to;
      assert k < Length(c);
      PrefixStep(c, table, from, k);
      ExpandAllMembers(r.0, table, [], Prefix(c, k + 1));
      RoundsFind(next, table, from, to, r.1, k + 1, c);
    }
  }

  /** Something is collected exactly when a chain of reasonable steps leads to the target. */
  lemma FindsExactly(table: seq<Conversion>, from: Typecode, to: Typecode)
    ensures Collected(table, from, to) != [] <==> exists c :: Leads(c, table, from, to)
  {
    var good := Collected(table, from, to);
    if good != [] {
      RoundsSound([First(from)], table, from, to, [], 1, good[0]);
    }
    if c :| Leads(c, table, from, to) {
      FromFirst(c, table, from);
      RoundsFind([First(from)], table, from, to, [], 1, c);
    }
  }

  lemma {:induction false} FromFirst(c: Chain, table: seq<Conversion>, from: Typecode)
    requires Stepwise(c, table, from)
    ensures Prefix(c, 1) == First(from) && Length(c) >= 1
  {
    if c != First(from) {
      FromFirst(c.prev, table, from);
    } else {
      assert Length(c) == 1;
    }
  }

  // ---------------------------------------------------------------- the recipe

  function Cost(c: Chain): int { if c.Nil? then 0 else c.cost + Cost(c.prev) }

  /** The bytecodes of a chain in order, without the steps that emit nothing. */
  function Opcodes(c: Chain): seq<Opcode> {
    if c.Nil? then [] else Opcodes(c.prev) + (if c.opcode != -1 then [c.opcode] else [])
  }

  datatype Recipe = Recipe(opcodes: seq<Opcode>, cost: int)

  predicate Cheapest(c: Chain, good: seq<Chain>) {
    c in good && Cost(c) < BIG_ARBITRARY_NUMBER && forall d :: d in good ==> Cost(c) <= Cost(d)
  }

  /** What `deduce_conversion` may return for the chains collected. */
  ghost predicate IsRecipe(r: Option<Recipe>, good: seq<Chain>) {
    match r
    case None => forall c :: c in good ==> Cost(c) >= BIG_ARBITRARY_NUMBER
    case Some(recipe) => exists c :: Cheapest(c, good) && recipe == Recipe(Opcodes(c), Cost(c))
  }

  method TakeGood(pending: seq<Chain>, to: Typecode, good: seq<Chain>) returns (rest: seq<Chain>, more: seq<Chain>)
    requires AllNodes(pending)
    ensures rest == Sift(pending, to, good).0 && more == Sift(pending, to, good).1
  {
    rest, more := pending, good;
    var prev := 0;
    while prev < |rest|
      invariant 0 <= prev <= |rest| && AllNodes(rest[prev..])
      invariant SiftedSoFar(pending, to, good, rest, prev, more)
      decreases |rest| - prev
    {
      ghost var before, taken := rest, more;
      SiftTurn(pending, to, good, rest, prev, more);
      if rest[prev].to == to {
        more := [rest[prev]] + more;
        rest := rest[..prev] + rest[prev + 1..];
        if prev < |rest| {
          prev := prev + 1;
        }
      } else {
        prev := prev + 1;
      }
      assert rest[prev..] == before[|before| - |rest| + prev..];
    }
    assert rest[..prev] == rest;
  }

  /** The chains before `prev` are done, the others still to be sifted. */
  ghost predicate SiftedSoFar(pending: seq<Chain>, to: Typecode, good: seq<Chain>, rest: seq<Chain>, prev: nat, more: seq<Chain>)
    requires AllNodes(pending) && prev <= |rest| && AllNodes(rest[prev..])
  {
    && Sift(pending, to, good).0 == rest[..prev] + Sift(rest[prev..], to, more).0
    && Sift(pending, to, good).1 == Sift(rest[prev..], to, more).1
  }

  lemma SiftTurn(pending: seq<Chain>, to: Typecode, good: seq<Chain>, rest: seq<Chain>, prev: nat, more: seq<Chain>)
    requires AllNodes(pending) && prev < |rest| && AllNodes(rest[prev..])
    requires SiftedSoFar(pending, to, good, rest, prev, more)
    ensures rest[prev].to != to ==> SiftedSoFar(pending, to, good, rest, prev + 1, more)
    ensures rest[prev].to == to ==>
      var left := rest[..prev] + rest[prev + 1..];
      SiftedSoFar(pending, to, good, left, if prev < |left| then prev + 1 else prev, [rest[prev]] + more)
  {
    var tail, kept := rest[prev..], rest[..prev];
    if rest[prev].to != to {
      assert rest[prev + 1..] == tail[1..] && rest[..prev + 1] == kept + [tail[0]];
      var s := Sift(tail[1..], to, more).0;
      assert kept + ([tail[0]] + s) == kept + [tail[0]] + s;
    } else {
      var left := kept + rest[prev + 1..];
      if prev < |left| {
        assert left[prev + 1..] == tail[2..] && left[..prev + 1] == kept + [tail[1]];
        var s := Sift(tail[2..], to, [rest[prev]] + more).0;
        assert kept + ([tail[1]] + s) == kept + [tail[1]] + s;
      } else {
        assert left == kept && left[prev..] == [] && left[..prev] == kept;
      }
    }
  }

  /** Try all conversions on all pending chains. */
  method Expand(pending: seq<Chain>, table: seq<Conversion>) returns (next: seq<Chain>)
    requires AllNodes(pending)
    ensures next == ExpandAll(pending, table, [])
  {
    next := [];
    var p := 0;
    while p < |pending|
      invariant 0 <= p <= |pending| && ExpandAll(pending[p..], table, next) == ExpandAll(pending, table, [])
    {
      ghost var made := next;
      var i := 0;
      while i < |table|
        invariant 0 <= i <= |table| && ExpandOne(pending[p], table[i..], next) == ExpandOne(pending[p], table, made)
      {
        assert table[i..][1..] == table[i + 1..];
        if table[i].from == pending[p].to {
          var ok := ConversionReasonable(table[i], pending[p]);
          if ok {
            next := [Add(table[i], pending[p])] + next;
          }
        }
        i := i + 1;
      }
      assert pending[p..][1..] == pending[p + 1..];
      p := p + 1;
    }
  }

  method TotalCost(c: Chain) returns (cost: int)
    ensures cost == Cost(c)
  {
    var conv := c;
    cost := 0;
    while conv.Node?
      invariant cost + Cost(conv) == Cost(c)
      decreases conv
    {
      cost := cost + conv.cost;
      conv := conv.prev;
    }
  }

  /** The scan of the collected chains for the first of least cost. */
  method FindBest(good: seq<Chain>) returns (best: Option<Chain>)
    ensures best.None? ==> forall c :: c in good ==> Cost(c) >= BIG_ARBITRARY_NUMBER
    ensures best.Some? ==> Cheapest(best.value, good)
  {
    best := None;
    var bestCost := BIG_ARBITRARY_NUMBER;
    var k := 0;
    while k < |good|
      invariant 0 <= k <= |good| && bestCost <= BIG_ARBITRARY_NUMBER
      invariant best.None? ==> bestCost == BIG_ARBITRARY_NUMBER
      invariant best.Some? ==> best.value in good && Cost(best.value) == bestCost < BIG_ARBITRARY_NUMBER
      invariant forall i :: 0 <= i < k ==> Cost(good[i]) >= bestCost
    {
      var cost := TotalCost(good[k]);
      if cost < bestCost {
        bestCost := cost;
        best := Some(good[k]);
      }
      k := k + 1;
    }
  }

  /** The bytecodes are stored from the last to the first. */
  method StoreOpcodes(c: Chain) returns (opcodes: seq<Opcode>)
    ensures opcodes == Opcodes(c)
  {
    opcodes := [];
    var conv := c;
    while conv.Node?
      invariant Opcodes(c) == Opcodes(conv) + opcodes
      decreases conv
    {
      if conv.opcode != -1 {
        assert Opcodes(conv.prev) + [conv.opcode] + opcodes == Opcodes(conv.prev) + ([conv.opcode] + opcodes);
        opcodes := [conv.opcode] + opcodes;
      } else {
        assert Opcodes(conv.prev) + [] == Opcodes(conv.prev);
      }
      conv := conv.prev;
    }
  }

  /** `deduce_conversion`; without a recipe it aborts. */
  method DeduceConversion(table: seq<Conversion>, from: Typecode, to: Typecode) returns (r: Option<Recipe>)
    ensures IsRecipe(r, Collected(table, from, to))
  {
    var pending, good := [First(from)], [];
    ghost var k := 1;
    while pending != []
      invariant AllStepwise(pending, table, from, k)
      invariant Rounds(pending, table, from, to, good, k) == Collected(table, from, to)
      decreases |Codes(table, from)| + 1 - k
    {
      LengthBound(pending[0], table, from);
      SiftKeeps(pending, table, from, to, good, k);
      ExpandKeeps(Sift(pending, to, good).0, table, from, k);
      var rest, more := TakeGood(pending, to, good);
      pending := Expand(rest, table);
      good := more;
      k := k + 1;
    }
    var best := FindBest(good);
    if best.None? {
      return None;
    }
    var opcodes := StoreOpcodes(best.value);
    r := Some(Recipe(opcodes, Cost(best.value)));
  }

  /** The recipes that have been needed so far. */
  class Recipes {
    const table: seq<Conversion>
    var known: map<(Typecode, Typecode), Recipe>

    /** Every recipe kept is one that a search would return. */
    ghost predicate Valid() reads this {
      forall k :: k in known ==> IsRecipe(Some(known[k]), Collected(table, k.0, k.1))
    }

    constructor (table: seq<Conversion>)
      ensures Valid() && this.table == table && known == map[]
    {
      this.table, known := table, map[];
    }

    /** `emit_typecode_conversion`: the bytecodes of the recipe, which is deduced once and then kept. */
    method EmitConversion(from: Typecode, to: Typecode) returns (r: Option<seq<Opcode>>)
      requires Valid()
      modifies this
      ensures Valid() && (forall k :: k in old(known) ==> k in known && known[k] == old(known)[k])
      ensures known.Keys == old(known.Keys) + (if r.Some? then {(from, to)} else {})
      ensures r.Some? ==> r.value == known[(from, to)].opcodes
      ensures r.None? ==> forall c :: c in Collected(table, from, to) ==> Cost(c) >= BIG_ARBITRARY_NUMBER
    {
      if (from, to) !in known {
        var recipe := DeduceConversion(table, from, to);
        if recipe.None? {
          return None;
        }
        known := known[(from, to) := recipe.value];
      }
      r := Some(known[(from, to)].opcodes);
    }
  }

  // ---------------------------------------------------------------- what the recipes are

  predicate CostsWithin(table: seq<Conversion>, m: nat) {
    forall i :: 0 <= i < |table| ==> 0 <= table[i].cost <= m
  }

  lemma {:induction false} CostBound(c: Chain, table: seq<Conversion>, from: Typecode, m: nat)
    requires Stepwise(c, table, from) && CostsWithin(table, m)
    ensures Cost(c) <= (Length(c) - 1) * m
  {
    if c != First(from) {
      CostBound(c.prev, table, from, m);
      assert Length(c) - 1 == Length(c.prev) - 1 + 1;
      assert (Length(c) - 1) * m == (Length(c.prev) - 1) * m + m;
    }
  }

  /** With costs that cannot add up to the limit, the search aborts exactly when no chain of reasonable
      steps leads to the target. */
  lemma AbortsExactly(table: seq<Conversion>, from: Typecode, to: Typecode, m: nat, r: Option<Recipe>)
    requires CostsWithin(table, m) && |Codes(table, from)| * m < BIG_ARBITRARY_NUMBER
    requires IsRecipe(r, Collected(table, from, to))
    ensures r == None <==> !exists c :: Leads(c, table, from, to)
  {
    var good := Collected(table, from, to);
    FindsExactly(table, from, to);
    if good != [] {
      var c := good[0];
      RoundsSound([First(from)], table, from, to, [], 1, c);
      CostBound(c, table, from, m);
      LengthBound(c, table, from);
      Scale(Length(c) - 1, |Codes(table, from)|, m);
      assert Cost(c) < BIG_ARBITRARY_NUMBER;
    }
  }

  lemma Scale(a: int, b: int, m: nat)
    requires a <= b
    ensures a * m <= b * m
  {
  }

  /** The sizes along a chain go in one direction. */
  predicate OneDirection(c: Chain) {
    c.Node? ==> Rises(c.to.size, c.prev) || Falls(c.to.size, c.prev)
  }

  /** No integer is widened after a change of signedness. */
  predicate WidensBeforeSignChange(c: Chain) {
    c.Node? && c.prev.Node? ==>
      && WidensBeforeSignChange(c.prev)
      && (HasStep(SignedToUnsigned, c.prev) || HasStep(UnsignedToSigned, c.prev) ==>
            !(c.prev.to.IsInteger() && c.to.IsInteger() && c.to.size > c.prev.to.size))
  }

  /** What every recipe is: the bytecodes of a chain from the source type to the target in which no
      type comes twice, the sizes go in one direction, and no two opposite kinds of step are mixed. */
  lemma RecipeFacts(table: seq<Conversion>, from: Typecode, to: Typecode, recipe: Recipe)
    requires IsRecipe(Some(recipe), Collected(table, from, to))
    ensures exists c :: Leads(c, table, from, to) && recipe == Recipe(Opcodes(c), Cost(c)) && ChainFacts(c)
  {
    var good := Collected(table, from, to);
    var c :| Cheapest(c, good) && recipe == Recipe(Opcodes(c), Cost(c));
    RoundsSound([First(from)], table, from, to, [], 1, c);
    StepwiseFacts(c, table, from);
  }

  predicate ChainFacts(c: Chain) {
    && |CodesOf(c)| == Length(c) && OneDirection(c) && WidensBeforeSignChange(c)
    && !(HasStep(SignExtend, c) && HasStep(ZeroExtend, c))
    && !(HasStep(IntToFloat, c) && HasStep(FloatToInt, c))
  }

  lemma {:induction false} StepwiseFacts(c: Chain, table: seq<Conversion>, from: Typecode)
    requires Stepwise(c, table, from)
    ensures ChainFacts(c)
  {
    NoRepeats(c, table, from);
    if c != First(from) {
      StepwiseFacts(c.prev, table, from);
    }
  }

  // ---------------------------------------------------------------- what is not found

  /** The recipe need not be the cheapest chain there is: of two chains that become successful one after
      the other in the same round the second is not collected. */
  lemma CheaperChainLost()
    ensures var a := Typecode(0, Signed, 4); var b := Typecode(1, Floating, 4);
      var cheap := Conversion(1, a, b, 1); var dear := Conversion(2, a, b, 8);
      && Collected([cheap, dear], a, b) == [Add(dear, First(a))]
      && Leads(Add(cheap, First(a)), [cheap, dear], a, b)
  {
  }

  /** Is the pending chain at `i` unlinked? One that directly follows an unlinked chain is not looked
      at. */
  predicate Taken(pending: seq<Chain>, to: Typecode, i: nat)
    requires i < |pending| && AllNodes(pending)
  {
    pending[i].to == to && (i == 0 || !Taken(pending, to, i - 1))
  }

  lemma {:induction false} TakenFrom(pending: seq<Chain>, to: Typecode, k: nat, i: nat)
    requires k <= i < |pending| && AllNodes(pending) && (k == 0 || !Taken(pending, to, k - 1))
    ensures Taken(pending, to, i) == Taken(pending[k..], to, i - k)
  {
    if i > k {
      TakenFrom(pending, to, k, i - 1);
    }
  }

  ghost predicate TakenIn(c: Chain, pending: seq<Chain>, to: Typecode)
    requires AllNodes(pending)
  {
    exists i :: 0 <= i < |pending| && pending[i] == c && Taken(pending, to, i)
  }

  lemma TakenLater(c: Chain, pending: seq<Chain>, to: Typecode, k: nat)
    requires k <= |pending| && AllNodes(pending) && (k == 0 || !Taken(pending, to, k - 1))
    ensures TakenIn(c, pending[k..], to) <==> exists i :: k <= i < |pending| && pending[i] == c && Taken(pending, to, i)
  {
    forall i | k <= i < |pending| ensures Taken(pending, to, i) == Taken(pending[k..], to, i - k) && pending[k..][i - k] == pending[i] {
      TakenFrom(pending, to, k, i);
    }
    if TakenIn(c, pending[k..], to) {
      var j :| 0 <= j < |pending[k..]| && pending[k..][j] == c && Taken(pending[k..], to, j);
      assert pending[j + k] == c && Taken(pending, to, j + k);
    }
  }

  /** The sifting collects exactly the chains taken. */
  lemma {:induction false} SiftTakes(pending: seq<Chain>, to: Typecode, good: seq<Chain>, c: Chain)
    requires AllNodes(pending)
    ensures c in Sift(pending, to, good).1 <==> c in good || TakenIn(c, pending, to)
    decreases |pending|
  {
    if pending != [] {
      if pending[0].to != to {
        SiftTakes(pending[1..], to, good, c);
        TakenLater(c, pending, to, 1);
        assert !Taken(pending, to, 0);
      } else if |pending| > 1 {
        assert Taken(pending, to, 0) && !Taken(pending, to, 1);
        SiftTakes(pending[2..], to, [pending[0]] + good, c);
        TakenLater(c, pending, to, 2);
      } else {
        assert Taken(pending, to, 0);
        assert TakenIn(c, pending, to) <==> c == pending[0];
      }
    }
  }

  /** The chains pending in round `k`, which have `k` nodes. */
  function PendingAt(table: seq<Conversion>, from: Typecode, to: Typecode, k: nat): (r: seq<Chain>)
    requires k >= 1
    ensures AllStepwise(r, table, from, k)
  {
    if k == 1 then assert Length(First(from).prev) == 0; [First(from)]
    else
      var before := PendingAt(table, from, to, k - 1);
      SiftKeeps(before, table, from, to, [], k - 1);
      ExpandKeeps(Sift(before, to, []).0, table, from, k - 1);
      ExpandAll(Sift(before, to, []).0, table, [])
  }

  lemma {:induction false} SiftRest(pending: seq<Chain>, to: Typecode, a: seq<Chain>, b: seq<Chain>)
    requires AllNodes(pending)
    ensures Sift(pending, to, a).0 == Sift(pending, to, b).0
    decreases |pending|
  {
    if pending != [] {
      if pending[0].to != to {
        SiftRest(pending[1..], to, a, b);
      } else if |pending| > 1 {
        SiftRest(pending[2..], to, [pending[0]] + a, [pending[0]] + b);
      }
    }
  }

  /** From round `k` on exactly the chains taken in their rounds are added. */
  lemma {:induction false} RoundsCollect(table: seq<Conversion>, from: Typecode, to: Typecode, good: seq<Chain>, k: nat, c: Chain)
    requires k >= 1 && c.Node?
    ensures c in Rounds(PendingAt(table, from, to, k), table, from, to, good, k) <==>
            c in good || (Length(c) >= k && TakenIn(c, PendingAt(table, from, to, Length(c)), to))
    decreases |Codes(table, from)| + 1 - k
  {
    var pending := PendingAt(table, from, to, k);
    if pending == [] {
      NeverAgain(table, from, to, k, c);
    } else {
      LengthBound(pending[0], table, from);
      RoundsStep(table, from, to, good, k);
      SiftTakes(pending, to, good, c);
      hide Rounds, Sift, PendingAt, TakenIn, Codes, Stepwise;
      RoundsCollect(table, from, to, Sift(pending, to, good).1, k + 1, c);
    }
  }

  lemma RoundsStep(table: seq<Conversion>, from: Typecode, to: Typecode, good: seq<Chain>, k: nat)
    requires k >= 1 && PendingAt(table, from, to, k) != []
    ensures var pending := PendingAt(table, from, to, k);
      Rounds(pending, table, from, to, good, k)
        == Rounds(PendingAt(table, from, to, k + 1), table, from, to, Sift(pending, to, good).1, k + 1)
  {
    var pending := PendingAt(table, from, to, k);
    LengthBound(pending[0], table, from);
    SiftKeeps(pending, table, from, to, good, k);
    ExpandKeeps(Sift(pending, to, good).0, table, from, k);
    SiftRest(pending, to, good, []);
  }

  lemma {:induction false} NeverAgain(table: seq<Conversion>, from: Typecode, to: Typecode, k: nat, c: Chain)
    requires k >= 1 && PendingAt(table, from, to, k) == []
    ensures Length(c) >= k ==> PendingAt(table, from, to, Length(c)) == []
    decreases Length(c)
  {
    if Length(c) > k {
      NeverAgain(table, from, to, k, c.prev);
    }
  }

  ghost predicate Cheaper(table: seq<Conversion>, from: Typecode, to: Typecode, cost: int) {
    exists c :: Leads(c, table, from, to) && Cost(c) < cost
  }

  /** What is collected, exactly: the chains to the target that do not directly follow an unlinked one
      in their round. */
  lemma CollectedExactly(table: seq<Conversion>, from: Typecode, to: Typecode, c: Chain)
    requires c.Node?
    ensures c in Collected(table, from, to) <==> TakenIn(c, PendingAt(table, from, to, Length(c)), to)
  {
    assert PendingAt(table, from, to, 1) == [First(from)];
    RoundsCollect(table, from, to, [], 1, c);
  }

  /** The recipe is the cheapest of all chains if and only if some chain of its cost or less, and no
      dearer than any other, is taken. */
  lemma CheapestExactly(table: seq<Conversion>, from: Typecode, to: Typecode, recipe: Recipe)
    requires IsRecipe(Some(recipe), Collected(table, from, to))
    ensures !Cheaper(table, from, to, recipe.cost) <==>
      exists c :: Leads(c, table, from, to) && TakenIn(c, PendingAt(table, from, to, Length(c)), to)
                  && !Cheaper(table, from, to, Cost(c))
  {
    var good := Collected(table, from, to);
    var b :| Cheapest(b, good) && recipe == Recipe(Opcodes(b), Cost(b));
    RoundsSound([First(from)], table, from, to, [], 1, b);
    CollectedExactly(table, from, to, b);
    if c :| Leads(c, table, from, to) && TakenIn(c, PendingAt(table, from, to, Length(c)), to) && !Cheaper(table, from, to, Cost(c)) {
      CollectedExactly(table, from, to, c);
    }
  }

  // ---------------------------------------------------------------- from the table alone

  /** A chain that has not met the target before its last step is pending in its round. */
  lemma {:induction false} ReachesRound(table: seq<Conversion>, from: Typecode, to: Typecode, c: Chain)
    requires Stepwise(c, table, from) && !Appears(to, c.prev)
    ensures c in PendingAt(table, from, to, Length(c))
  {
    if c != First(from) {
      ReachesRound(table, from, to, c.prev);
      var before := PendingAt(table, from, to, Length(c.prev));
      SiftMembers(before, to, [], c.prev);
      ExpandAllMembers(Sift(before, to, []).0, table, [], c);
    }
  }

  /** Every chain to the target is pending in the round of its length, so that it can only be lost by
      standing behind an unlinked one there. */
  lemma LeadsArePending(table: seq<Conversion>, from: Typecode, to: Typecode, c: Chain)
    requires Leads(c, table, from, to)
    ensures c in PendingAt(table, from, to, Length(c))
    ensures var pending := PendingAt(table, from, to, Length(c));
      c !in Collected(table, from, to) <==>
        forall i :: 0 <= i < |pending| && pending[i] == c ==> i > 0 && Taken(pending, to, i - 1)
  {
    ReachesRound(table, from, to, c);
    CollectedExactly(table, from, to, c);
  }

  lemma {:induction false} FirstTaken(pending: seq<Chain>, to: Typecode, i: nat) returns (j: nat)
    requires AllNodes(pending) && i < |pending| && pending[i].to == to
    ensures j <= i && Taken(pending, to, j)
  {
    if i == 0 || !Taken(pending, to, i - 1) {
      j := i;
    } else {
      j := i - 1;
    }
  }

  /** Of the chains to the target of one length some chain is collected. */
  lemma EveryLengthCollected(table: seq<Conversion>, from: Typecode, to: Typecode, c: Chain)
    requires Leads(c, table, from, to)
    ensures exists d :: d in Collected(table, from, to) && Leads(d, table, from, to) && Length(d) == Length(c)
  {
    var pending := PendingAt(table, from, to, Length(c));
    LeadsArePending(table, from, to, c);
    var i :| 0 <= i < |pending| && pending[i] == c;
    var j := FirstTaken(pending, to, i);
    CollectedExactly(table, from, to, pending[j]);
  }

  /** The recipe costs no more than the dearest chain of any one length. */
  lemma CheapestByLength(table: seq<Conversion>, from: Typecode, to: Typecode, recipe: Recipe, c: Chain, limit: int)
    requires IsRecipe(Some(recipe), Collected(table, from, to)) && Leads(c, table, from, to)
    requires forall d :: Leads(d, table, from, to) && Length(d) == Length(c) ==> Cost(d) <= limit
    ensures recipe.cost <= limit
  {
    hide Collected, Leads;
    EveryLengthCollected(table, from, to, c);
  }

  predicate CostByLength(table: seq<Conversion>, from: Typecode, to: Typecode, c: Chain, d: Chain) {
    Leads(c, table, from, to) && Leads(d, table, from, to) && Length(c) == Length(d) ==> Cost(c) == Cost(d)
  }

  /** If chains of equal length cost the same, the recipe is the cheapest of all. */
  lemma UniformIsCheapest(table: seq<Conversion>, from: Typecode, to: Typecode, recipe: Recipe)
    requires IsRecipe(Some(recipe), Collected(table, from, to))
    requires forall c, d :: CostByLength(table, from, to, c, d)
    ensures !Cheaper(table, from, to, recipe.cost)
  {
    hide Collected, Leads;
    if c :| Leads(c, table, from, to) && Cost(c) < recipe.cost {
      forall d | Leads(d, table, from, to) && Length(d) == Length(c)
        ensures Cost(d) <= Cost(c)
      {
        assert CostByLength(table, from, to, c, d);
      }
      CheapestByLength(table, from, to, recipe, c, Cost(c));
    }
  }

  lemma {:induction false} CostOfSteps(c: Chain, table: seq<Conversion>, from: Typecode, m: int)
    requires Stepwise(c, table, from) && forall i :: 0 <= i < |table| ==> table[i].cost == m
    ensures Cost(c) == (Length(c) - 1) * m
  {
    if c != First(from) {
      CostOfSteps(c.prev, table, from, m);
      assert (Length(c) - 1) * m == (Length(c.prev) - 1) * m + m;
    }
  }

  /** So it is if all conversions of the table cost the same. */
  lemma EqualCostsAreCheapest(table: seq<Conversion>, from: Typecode, to: Typecode, recipe: Recipe, m: int)
    requires IsRecipe(Some(recipe), Collected(table, from, to))
    requires forall i :: 0 <= i < |table| ==> table[i].cost == m
    ensures !Cheaper(table, from, to, recipe.cost)
  {
    hide Collected, Stepwise;
    forall c, d
      ensures CostByLength(table, from, to, c, d)
    {
      if Leads(c, table, from, to) && Leads(d, table, from, to) {
        CostOfSteps(c, table, from, m);
        CostOfSteps(d, table, from, m);
      }
    }
    UniformIsCheapest(table, from, to, recipe);
  }
}
