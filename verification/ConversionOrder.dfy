/**
 How much the skip in the loop over the pending chains can lose: in any order of the chains, never more
 successful ones than it takes out.
 */
module ConversionOrder {
  import opened Helpers
  import opened Conversions
  import opened ConversionSearch

  /** Successful, and of cost `m` at most. */
  predicate Cheap(c: Chain, to: Typecode, m: int) {
    c.Node? && c.to == to && Cost(c) <= m
  }

  predicate Dear(c: Chain, to: Typecode, m: int) {
    c.Node? && c.to == to && Cost(c) > m
  }

  function Cheaps(cs: seq<Chain>, to: Typecode, m: int): (r: seq<Chain>)
    ensures forall c :: c in r ==> Cheap(c, to, m)
  {
    if cs == [] then [] else (if Cheap(cs[0], to, m) then [cs[0]] else []) + Cheaps(cs[1..], to, m)
  }

  function Dears(cs: seq<Chain>, to: Typecode, m: int): (r: seq<Chain>)
    ensures forall c :: c in r ==> Dear(c, to, m)
  {
    if cs == [] then [] else (if Dear(cs[0], to, m) then [cs[0]] else []) + Dears(cs[1..], to, m)
  }

  function Others(cs: seq<Chain>, to: Typecode, m: int): (r: seq<Chain>)
    ensures forall c :: c in r ==> !Cheap(c, to, m) && !Dear(c, to, m)
  {
    if cs == [] then []
    else (if Cheap(cs[0], to, m) || Dear(cs[0], to, m) then [] else [cs[0]]) + Others(cs[1..], to, m)
  }

  /** Some successful chain of cost `m` at most is taken out. */
  predicate TakesCheap(pending: seq<Chain>, to: Typecode, m: int)
    requires AllNodes(pending)
  {
    exists c :: c in Sift(pending, to, []).1 && Cheap(c, to, m)
  }

  /** With more cheap chains than dear ones, each skipped one behind one taken out, a cheap one is taken. */
  lemma {:induction false} MajorityTaken(pending: seq<Chain>, to: Typecode, m: int, good: seq<Chain>)
    requires AllNodes(pending) && |Cheaps(pending, to, m)| > |Dears(pending, to, m)|
    ensures exists c :: c in Sift(pending, to, good).1 && Cheap(c, to, m)
    decreases |pending|
  {
    if pending[0].to != to {
      MajorityTaken(pending[1..], to, m, good);
    } else if |pending| == 1 {
      assert pending[0] in Sift(pending, to, good).1;
    } else if Cheap(pending[0], to, m) {
      SiftMembers(pending[2..], to, [pending[0]] + good, pending[0]);
    } else {
      assert pending[1..][1..] == pending[2..];
      MajorityTaken(pending[2..], to, m, [pending[0]] + good);
    }
  }

  // ---------------------------------------------------------------- orders

  ghost predicate SameChains(a: seq<Chain>, b: seq<Chain>) {
    AllNodes(b) && multiset(a) == multiset(b)
  }

  lemma {:induction false} Parts(cs: seq<Chain>, to: Typecode, m: int)
    ensures multiset(cs) == multiset(Dears(cs, to, m)) + multiset(Cheaps(cs, to, m)) + multiset(Others(cs, to, m))
  {
    if cs != [] {
      Parts(cs[1..], to, m);
      assert cs == [cs[0]] + cs[1..];
    }
  }

  /** The numbers of cheap and dear chains do not depend on the order. */
  lemma {:induction false} Counted(cs: seq<Chain>, to: Typecode, m: int, c: Chain)
    ensures multiset(Cheaps(cs, to, m))[c] == if Cheap(c, to, m) then multiset(cs)[c] else 0
    ensures multiset(Dears(cs, to, m))[c] == if Dear(c, to, m) then multiset(cs)[c] else 0
  {
    if cs != [] {
      Counted(cs[1..], to, m, c);
      assert cs == [cs[0]] + cs[1..];
    }
  }

  lemma SameCounts(a: seq<Chain>, b: seq<Chain>, to: Typecode, m: int)
    requires multiset(a) == multiset(b)
    ensures |Cheaps(a, to, m)| == |Cheaps(b, to, m)| && |Dears(a, to, m)| == |Dears(b, to, m)|
  {
    var c1, c2, d1, d2 := Cheaps(a, to, m), Cheaps(b, to, m), Dears(a, to, m), Dears(b, to, m);
    forall c
      ensures multiset(c1)[c] == multiset(c2)[c] && multiset(d1)[c] == multiset(d2)[c]
    {
      Counted(a, to, m, c);
      Counted(b, to, m, c);
    }
    hide *;
    SameLength(c1, c2);
    SameLength(d1, d2);
  }

  lemma SameLength(a: seq<Chain>, b: seq<Chain>)
    requires forall c :: multiset(a)[c] == multiset(b)[c]
    ensures |a| == |b|
  {
    assert multiset(a) == multiset(b);
    assert |multiset(a)| == |a| && |multiset(b)| == |b|;
  }

  /** Each cheap chain behind a dear one. */
  function Worst(dears: seq<Chain>, cheaps: seq<Chain>, others: seq<Chain>): seq<Chain>
    requires |cheaps| <= |dears|
  {
    if cheaps == [] then dears + others else [dears[0], cheaps[0]] + Worst(dears[1..], cheaps[1..], others)
  }

  lemma OneMore(x: Chain, s: seq<Chain>, c: Chain)
    ensures multiset([x] + s)[c] == (if x == c then 1 else 0) + multiset(s)[c]
  {
  }

  lemma {:induction false} WorstCounts(dears: seq<Chain>, cheaps: seq<Chain>, others: seq<Chain>, c: Chain)
    requires |cheaps| <= |dears|
    ensures multiset(Worst(dears, cheaps, others))[c] == multiset(dears)[c] + multiset(cheaps)[c] + multiset(others)[c]
    decreases |cheaps|
  {
    var worst := Worst(dears, cheaps, others);
    if cheaps == [] {
      hide *;
      assert cheaps == [];
      assert multiset(dears + others) == multiset(dears) + multiset(others);
    } else {
      var rest := Worst(dears[1..], cheaps[1..], others);
      WorstCounts(dears[1..], cheaps[1..], others, c);
      assert worst == [dears[0], cheaps[0]] + rest;
      hide *;
      TwoMore(dears, cheaps, rest, worst, c);
    }
  }

  lemma TwoMore(dears: seq<Chain>, cheaps: seq<Chain>, rest: seq<Chain>, worst: seq<Chain>, c: Chain)
    requires dears != [] && cheaps != [] && worst == [dears[0], cheaps[0]] + rest
    ensures multiset(worst)[c] + multiset(dears[1..])[c] + multiset(cheaps[1..])[c]
            == multiset(rest)[c] + multiset(dears)[c] + multiset(cheaps)[c]
  {
    OneMore(cheaps[0], rest, c);
    OneMore(dears[0], [cheaps[0]] + rest, c);
    OneMore(dears[0], dears[1..], c);
    OneMore(cheaps[0], cheaps[1..], c);
    assert dears == [dears[0]] + dears[1..] && cheaps == [cheaps[0]] + cheaps[1..];
    assert worst == [dears[0]] + ([cheaps[0]] + rest);
  }

  lemma WorstIsOrder(dears: seq<Chain>, cheaps: seq<Chain>, others: seq<Chain>)
    requires |cheaps| <= |dears|
    ensures multiset(Worst(dears, cheaps, others)) == multiset(dears) + multiset(cheaps) + multiset(others)
  {
    var worst := Worst(dears, cheaps, others);
    forall c
      ensures multiset(worst)[c] == multiset(dears)[c] + multiset(cheaps)[c] + multiset(others)[c]
    {
      WorstCounts(dears, cheaps, others, c);
    }
    hide *;
    assert multiset(worst) == multiset(dears) + multiset(cheaps) + multiset(others);
  }

  lemma {:induction false} WorstLoses(dears: seq<Chain>, cheaps: seq<Chain>, others: seq<Chain>, to: Typecode, good: seq<Chain>, c: Chain)
    requires |cheaps| <= |dears| && (forall d :: d in dears ==> d.Node? && d.to == to)
    requires forall d :: d in others ==> d.Node? && d.to != to
    requires AllNodes(Worst(dears, cheaps, others)) && c in Sift(Worst(dears, cheaps, others), to, good).1
    ensures c in good || c in dears
    decreases |cheaps|
  {
    var all := Worst(dears, cheaps, others);
    if cheaps == [] {
      SiftMembers(all, to, good, c);
    } else {
      var rest := Worst(dears[1..], cheaps[1..], others);
      assert all[0] == dears[0] && all[2..] == rest;
      WorstLoses(dears[1..], cheaps[1..], others, to, [dears[0]] + good, c);
    }
  }

  /** A cheap chain is taken out of the pending ones in every order they may stand in if and only if
      more than half of the successful ones are cheap. */
  lemma EveryOrderExactly(pending: seq<Chain>, to: Typecode, m: int)
    requires AllNodes(pending)
    ensures |Cheaps(pending, to, m)| > |Dears(pending, to, m)| <==>
            forall order :: SameChains(pending, order) ==> TakesCheap(order, to, m)
  {
    var dears, cheaps, others := Dears(pending, to, m), Cheaps(pending, to, m), Others(pending, to, m);
    if |cheaps| > |dears| {
      forall order | SameChains(pending, order)
        ensures TakesCheap(order, to, m)
      {
        SameCounts(pending, order, to, m);
        MajorityTaken(order, to, m, []);
      }
    } else {
      var worst := Worst(dears, cheaps, others);
      WorstIsOrder(dears, cheaps, others);
      Parts(pending, to, m);
      assert AllNodes(worst) by { SameMembers(pending, worst); }
      assert SameChains(pending, worst);
      forall c | c in others
        ensures c.Node? && c.to != to
      {
        assert c in multiset(others);
        assert c in multiset(pending);
      }
      if TakesCheap(worst, to, m) {
        var c :| c in Sift(worst, to, []).1 && Cheap(c, to, m);
        WorstLoses(dears, cheaps, others, to, [], c);
      }
    }
  }

  lemma SameMembers(a: seq<Chain>, b: seq<Chain>)
    requires AllNodes(a) && multiset(a) == multiset(b)
    ensures AllNodes(b)
  {
    forall c | c in b
      ensures c.Node?
    {
      assert c in multiset(b);
      assert c in multiset(a);
    }
  }

  /** So the recipe costs at most `m` if in some round more than half of the successful chains do. */
  lemma MajorityBound(table: seq<Conversion>, from: Typecode, to: Typecode, recipe: Recipe, k: nat, m: int)
    requires IsRecipe(Some(recipe), Collected(table, from, to)) && k >= 1
    requires |Cheaps(PendingAt(table, from, to, k), to, m)| > |Dears(PendingAt(table, from, to, k), to, m)|
    ensures recipe.cost <= m
  {
    var pending := PendingAt(table, from, to, k);
    MajorityTaken(pending, to, m, []);
    var c :| c in Sift(pending, to, []).1 && Cheap(c, to, m);
    SiftTakes(pending, to, [], c);
    SiftMembers(pending, to, [], c);
    CollectedExactly(table, from, to, c);
  }

  // ---------------------------------------------------------------- which chains are taken

  /** How many successful chains stand directly before the chain at `i`. */
  function RunBefore(pending: seq<Chain>, to: Typecode, i: nat): nat
    requires i < |pending| && AllNodes(pending)
  {
    if i == 0 || pending[i - 1].to != to then 0 else 1 + RunBefore(pending, to, i - 1)
  }

  /** In a run of successful chains every other one is taken, beginning with the first. */
  lemma {:induction false} EveryOtherTaken(pending: seq<Chain>, to: Typecode, i: nat)
    requires i < |pending| && AllNodes(pending)
    ensures Taken(pending, to, i) <==> pending[i].to == to && RunBefore(pending, to, i) % 2 == 0
  {
    if i > 0 {
      EveryOtherTaken(pending, to, i - 1);
    }
  }

  /** The reasonable extensions of a chain, in the order of the table. */
  function Extensions(list: Chain, table: seq<Conversion>): seq<Chain> {
    if table == [] then []
    else (if Fits(table[0], list) then [Add(table[0], list)] else []) + Extensions(list, table[1..])
  }

  function AllExtensions(pending: seq<Chain>, table: seq<Conversion>): seq<Chain> {
    if pending == [] then [] else Extensions(pending[0], table) + AllExtensions(pending[1..], table)
  }

  lemma {:induction false} ExpandOneOrder(list: Chain, table: seq<Conversion>, made: seq<Chain>)
    ensures ExpandOne(list, table, made) == Reverse(Extensions(list, table)) + made
    decreases |table|
  {
    hide Fits, Add, Reverse;
    if table == [] {
      NothingReversed(made);
    } else {
      var first := if Fits(table[0], list) then [Add(table[0], list)] else [];
      ExpandOneOrder(list, table[1..], first + made);
      assert first + made == if first == [] then made else [first[0]] + made;
      ReversedParts(first, Extensions(list, table[1..]), made);
      SelfReversed(first);
    }
  }

  lemma SelfReversed(s: seq<Chain>)
    requires |s| <= 1
    ensures Reverse(s) == s
  {
  }

  /** A round makes the extensions chain by chain, each in the order of the table, and turns the whole
      list round. */
  lemma {:induction false} RoundOrder(pending: seq<Chain>, table: seq<Conversion>, made: seq<Chain>)
    ensures ExpandAll(pending, table, made) == Reverse(AllExtensions(pending, table)) + made
    decreases |pending|
  {
    hide Reverse, Extensions, ExpandOne;
    if pending == [] {
      NothingReversed(made);
    } else {
      var first, rest := Extensions(pending[0], table), AllExtensions(pending[1..], table);
      ExpandOneOrder(pending[0], table, made);
      RoundOrder(pending[1..], table, Reverse(first) + made);
      ReversedParts(first, rest, made);
    }
  }

  lemma NothingReversed(made: seq<Chain>)
    ensures Reverse([]) + made == made
  {
  }

  lemma ReversedParts(first: seq<Chain>, rest: seq<Chain>, made: seq<Chain>)
    ensures Reverse(first + rest) + made == Reverse(rest) + (Reverse(first) + made)
  {
    ReverseAppend(first, rest);
    hide Reverse;
    assert (Reverse(rest) + Reverse(first)) + made == Reverse(rest) + (Reverse(first) + made);
  }

  /** The chains of round `k + 1` in order: the extensions of those that round `k` leaves, each in the
      order of the table, last first. */
  lemma PendingInOrder(table: seq<Conversion>, from: Typecode, to: Typecode, k: nat)
    requires k >= 1
    ensures AllNodes(PendingAt(table, from, to, k))
    ensures PendingAt(table, from, to, k + 1)
         == Reverse(AllExtensions(Sift(PendingAt(table, from, to, k), to, []).0, table))
  {
    var rest := Sift(PendingAt(table, from, to, k), to, []).0;
    RoundOrder(rest, table, []);
    hide Reverse, AllExtensions, ExpandAll, Sift;
    assert Reverse(AllExtensions(rest, table)) + [] == Reverse(AllExtensions(rest, table));
  }

  /** What the sifting leaves, in order: all chains but those taken. */
  function Untaken(pending: seq<Chain>, to: Typecode, k: nat): seq<Chain>
    requires k <= |pending| && AllNodes(pending)
  {
    if k == 0 then []
    else Untaken(pending, to, k - 1) + (if Taken(pending, to, k - 1) then [] else [pending[k - 1]])
  }

  lemma {:induction false} UntakenFrom(pending: seq<Chain>, to: Typecode, k: nat, i: nat)
    requires k <= i <= |pending| && AllNodes(pending) && (k == 0 || !Taken(pending, to, k - 1))
    ensures Untaken(pending, to, i) == Untaken(pending, to, k) + Untaken(pending[k..], to, i - k)
    decreases i
  {
    if i > k {
      UntakenFrom(pending, to, k, i - 1);
      TakenFrom(pending, to, k, i - 1);
    }
  }

  lemma {:induction false} SiftLeaves(pending: seq<Chain>, to: Typecode, good: seq<Chain>)
    requires AllNodes(pending)
    ensures Sift(pending, to, good).0 == Untaken(pending, to, |pending|)
    decreases |pending|
  {
    if pending != [] {
      if pending[0].to != to {
        SiftLeaves(pending[1..], to, good);
        UntakenFrom(pending, to, 1, |pending|);
        assert Untaken(pending, to, 0) == [] && Untaken(pending, to, 1) == [pending[0]];
      } else if |pending| > 1 {
        SiftLeaves(pending[2..], to, [pending[0]] + good);
        assert Taken(pending, to, 0) && !Taken(pending, to, 1);
        UntakenFrom(pending, to, 2, |pending|);
        assert Untaken(pending, to, 0) == [] && Untaken(pending, to, 1) == [] && Untaken(pending, to, 2) == [pending[1]];
      } else {
        assert Untaken(pending, to, 0) == [] && Untaken(pending, to, 1) == [];
      }
    }
  }

  // ---------------------------------------------------------------- the order of the chains in each round

  /** Every other chain of a run of successful ones, beginning with the first. */
  predicate Odd(pending: seq<Chain>, to: Typecode, i: nat)
    requires i < |pending| && AllNodes(pending)
  {
    pending[i].to == to && RunBefore(pending, to, i) % 2 == 0
  }

  function Remaining(pending: seq<Chain>, to: Typecode, k: nat): seq<Chain>
    requires k <= |pending| && AllNodes(pending)
  {
    if k == 0 then []
    else Remaining(pending, to, k - 1) + (if Odd(pending, to, k - 1) then [] else [pending[k - 1]])
  }

  lemma {:induction false} RemainingIsUntaken(pending: seq<Chain>, to: Typecode, k: nat)
    requires k <= |pending| && AllNodes(pending)
    ensures Remaining(pending, to, k) == Untaken(pending, to, k)
  {
    if k > 0 {
      EveryOtherTaken(pending, to, k - 1);
      RemainingIsUntaken(pending, to, k - 1);
    }
  }

  /** The chains of `k` nodes, in the order that the table gives: those of a round come from the remaining
      ones of the round before, chain by chain and each in the order of the table, last first. */
  function InOrder(table: seq<Conversion>, from: Typecode, to: Typecode, k: nat): (r: seq<Chain>)
    requires k >= 1
    ensures AllNodes(r)
  {
    if k == 1 then [First(from)]
    else
      var before := InOrder(table, from, to, k - 1);
      var r := Reverse(AllExtensions(Remaining(before, to, |before|), table));
      ExtensionsAreNodes(Remaining(before, to, |before|), table);
      ReverseMembers(AllExtensions(Remaining(before, to, |before|), table));
      r
  }

  lemma {:induction false} ReverseMembers(s: seq<Chain>)
    requires AllNodes(s)
    ensures AllNodes(Reverse(s))
  {
    if s != [] {
      ReverseMembers(s[1..]);
    }
  }

  lemma {:induction false} OneExtended(list: Chain, table: seq<Conversion>)
    ensures AllNodes(Extensions(list, table))
  {
    if table != [] {
      OneExtended(list, table[1..]);
    }
  }

  lemma {:induction false} ExtensionsAreNodes(pending: seq<Chain>, table: seq<Conversion>)
    ensures AllNodes(AllExtensions(pending, table))
  {
    if pending != [] {
      ExtensionsAreNodes(pending[1..], table);
      OneExtended(pending[0], table);
    }
  }

  lemma {:induction false} PendingIsInOrder(table: seq<Conversion>, from: Typecode, to: Typecode, k: nat)
    requires k >= 1
    ensures PendingAt(table, from, to, k) == InOrder(table, from, to, k)
  {
    hide Sift, AllExtensions, Reverse, Remaining, Untaken;
    if k > 1 {
      PendingIsInOrder(table, from, to, k - 1);
      var before := InOrder(table, from, to, k - 1);
      SiftLeaves(before, to, []);
      RemainingIsUntaken(before, to, |before|);
      PendingInOrder(table, from, to, k - 1);
    }
  }

  /** The chain stands at an odd place of its run of successful ones. */
  ghost predicate OddSomewhere(c: Chain, chains: seq<Chain>, to: Typecode)
    requires AllNodes(chains)
  {
    exists i :: 0 <= i < |chains| && chains[i] == c && Odd(chains, to, i)
  }

  /** What is collected, from the order of the table alone. */
  lemma CollectedByOrder(table: seq<Conversion>, from: Typecode, to: Typecode, c: Chain)
    requires c.Node?
    ensures c in Collected(table, from, to) <==> OddSomewhere(c, InOrder(table, from, to, Length(c)), to)
  {
    CollectedExactly(table, from, to, c);
    PendingIsInOrder(table, from, to, Length(c));
    var chains := InOrder(table, from, to, Length(c));
    forall i | 0 <= i < |chains|
      ensures Taken(chains, to, i) <==> Odd(chains, to, i)
    {
      EveryOtherTaken(chains, to, i);
    }
    hide Collected, PendingAt, InOrder, Taken, Odd;
  }

  /** The recipe is the cheapest of all chains if and only if some chain that no other is cheaper than
      stands at an odd place of its run. */
  lemma CheapestByOrder(table: seq<Conversion>, from: Typecode, to: Typecode, recipe: Recipe)
    requires IsRecipe(Some(recipe), Collected(table, from, to))
    ensures !Cheaper(table, from, to, recipe.cost) <==>
      exists c :: Leads(c, table, from, to) && OddSomewhere(c, InOrder(table, from, to, Length(c)), to)
                  && !Cheaper(table, from, to, Cost(c))
  {
    CheapestExactly(table, from, to, recipe);
    forall c | Leads(c, table, from, to)
      ensures TakenIn(c, PendingAt(table, from, to, Length(c)), to)
         <==> OddSomewhere(c, InOrder(table, from, to, Length(c)), to)
    {
      CollectedExactly(table, from, to, c);
      CollectedByOrder(table, from, to, c);
    }
    hide *;
  }
}
