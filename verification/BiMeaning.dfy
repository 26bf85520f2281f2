/**
 What a bytecode definition file means, defined without the grammar, and that the parser gives it.
 */
module BiMeaning {
  import opened Helpers
  import opened BiTables
  import opened BiGrammar
  import opened BiRun
  import opened BiParser

  // ---------------------------------------------------------------- definition files

  /** One variation: perhaps a name, and up to three lists, each empty or in parentheses. */
  datatype Shape = Shape(name: Option<string>, lists: seq<Option<seq<string>>>)

  datatype Entry = Entry(name: string, template: Option<string>, shapes: seq<Shape>)

  predicate GoodShape(s: Shape) {
    |s.lists| <= 3 && forall i :: 0 <= i < |s.lists| && s.lists[i].Some? ==> s.lists[i].value != []
  }

  predicate GoodEntry(e: Entry) {
    e.shapes != [] && forall i :: 0 <= i < |e.shapes| ==> GoodShape(e.shapes[i])
  }

  predicate GoodFile(f: seq<Entry>) {
    f != [] && forall i :: 0 <= i < |f| ==> GoodEntry(f[i])
  }

  function Str(s: string): Token { Token(259, s) }
  const DEFOP_TOKEN := Token(258, "")
  const LP_TOKEN := Token(40, "")
  const RP_TOKEN := Token(41, "")
  const COMMA_TOKEN := Token(44, "")

  function OptTokens(o: Option<string>): seq<Token> {
    if o.None? then [] else [Str(o.value)] + []
  }

  function ItemTokens(items: seq<string>): seq<Token>
    requires items != []
  {
    if |items| == 1 then [Str(items[0])] + [] else [Str(items[0])] + ([COMMA_TOKEN] + (ItemTokens(items[1..]) + []))
  }

  function ListTokens(o: Option<seq<string>>): seq<Token>
    requires o.Some? ==> o.value != []
  {
    if o.None? then [] else [LP_TOKEN] + (ItemTokens(o.value) + ([RP_TOKEN] + []))
  }

  /** The lists of a variation from `i` on, each after a comma, and the closing parenthesis. */
  function ListsTokens(s: Shape, i: nat): seq<Token>
    requires GoodShape(s) && i <= |s.lists|
    decreases |s.lists| - i
  {
    if i == |s.lists| then [RP_TOKEN] + [] else [COMMA_TOKEN] + (ListTokens(s.lists[i]) + ListsTokens(s, i + 1))
  }

  function ShapeTokens(s: Shape): seq<Token>
    requires GoodShape(s)
  {
    [LP_TOKEN] + (OptTokens(s.name) + ListsTokens(s, 0))
  }

  /** The first `k` variations of an entry, with commas between them. */
  function ShapesTokens(e: Entry, k: nat): seq<Token>
    requires GoodEntry(e) && 1 <= k <= |e.shapes|
  {
    if k == 1 then ShapeTokens(e.shapes[0]) + []
    else ShapesTokens(e, k - 1) + ([COMMA_TOKEN] + (ShapeTokens(e.shapes[k - 1]) + []))
  }

  function EntryTokens(e: Entry): seq<Token>
    requires GoodEntry(e)
  {
    [DEFOP_TOKEN] + ([LP_TOKEN] + ([Str(e.name)] + ([COMMA_TOKEN] + (OptTokens(e.template) + ([COMMA_TOKEN]
      + ([LP_TOKEN] + (ShapesTokens(e, |e.shapes|) + ([RP_TOKEN] + ([RP_TOKEN] + [])))))))))
  }

  function FileTokens(f: seq<Entry>, k: nat): seq<Token>
    requires GoodFile(f) && 1 <= k <= |f|
  {
    if k == 1 then EntryTokens(f[0]) + [] else FileTokens(f, k - 1) + (EntryTokens(f[k - 1]) + [])
  }

  // ---------------------------------------------------------------- what they mean

  function TextOf(o: Option<string>): string { if o.None? then "" else o.value }

  function ListOf(s: Shape, i: nat): seq<string> {
    if i < |s.lists| && s.lists[i].Some? then s.lists[i].value else []
  }

  function VariationOf(s: Shape, code: nat): Variation {
    Variation(TextOf(s.name), code, ListOf(s, 0), ListOf(s, 1), ListOf(s, 2))
  }

  /** The first `k` variations, the last of them first; the codes count up from `n`. */
  function VariationsOf(e: Entry, k: nat, n: nat): seq<Variation>
    requires k <= |e.shapes|
  {
    if k == 0 then [] else [VariationOf(e.shapes[k - 1], n + k - 1)] + VariationsOf(e, k - 1, n)
  }

  function DefOf(e: Entry, n: nat): Def {
    Def(e.name, TextOf(e.template), VariationsOf(e, |e.shapes|, n))
  }

  /** How many variations the first `k` entries have. */
  function CodesBefore(f: seq<Entry>, k: nat): nat
    requires k <= |f|
  {
    if k == 0 then 0 else CodesBefore(f, k - 1) + |f[k - 1].shapes|
  }

  /** The first `k` definitions, the last of them first. */
  function DefsOf(f: seq<Entry>, k: nat, n: nat): seq<Def>
    requires k <= |f|
  {
    if k == 0 then [] else [DefOf(f[k - 1], n + CodesBefore(f, k - 1))] + DefsOf(f, k - 1, n)
  }

  // ---------------------------------------------------------------- trees and their parts

  /** `t` derives `tokens` from `x`, and has value `v` when the next code is `n`; after it, it is `m`. */
  ghost predicate Means(t: Tree, x: int, tokens: seq<Token>, v: Value, n: nat, m: nat) {
    WellFormed(t) && Sym(t) == x && Yield(t) == tokens && Eval(t, n) == (v, m)
  }

  /** The same for the symbols of rule `r` from `i` on. */
  ghost predicate Row(r: Rule, i: nat, ts: seq<Tree>, tokens: seq<Token>, vs: seq<Value>, n: nat, m: nat) {
    && i + |ts| == yyr2(r) && Matches(r, i, ts) && AllWellFormed(ts)
    && YieldAll(ts) == tokens && EvalAll(ts, |ts|, n) == (vs, m)
  }

  lemma RowEnd(r: Rule, n: nat)
    ensures yyr2(r) >= 0 && Row(r, yyr2(r), [], [], [], n, n)
  {
    RuleShape(r);
  }

  lemma RowCons(r: Rule, i: nat, t: Tree, x: int, y: seq<Token>, v: Value, n: nat, k: nat,
                ts: seq<Tree>, tokens: seq<Token>, vs: seq<Value>, m: nat)
    requires Means(t, x, y, v, n, k) && x == Rhs(r, i) && Row(r, i + 1, ts, tokens, vs, k, m)
    ensures Row(r, i, [t] + ts, y + tokens, [v] + vs, n, m)
  {
    hide yyr2, Rhs, WellFormed, Sym, Eval;
    var all := [t] + ts;
    assert all[0] == t && all[1..] == ts;
    assert Matches(r, i, all) by {
      forall j | 0 <= j < |all| ensures Sym(all[j]) == Rhs(r, i + j) {
        if j > 0 { assert Sym(ts[j - 1]) == Rhs(r, i + 1 + (j - 1)); }
      }
    }
    EvalOne(t, n);
    EvalSplit([t], ts, |ts|, n);
  }

  lemma NodeMeans(r: Rule, ts: seq<Tree>, tokens: seq<Token>, vs: seq<Value>, n: nat, m: nat)
    requires Row(r, 0, ts, tokens, vs, n, m)
    ensures |vs| == yyr2(r)
    ensures Means(Node(r, ts), yyr1(r), tokens, RunAction(r, vs, m).0, n, RunAction(r, vs, m).1)
  {
    hide RunAction, yyr1, yyr2, Rhs;
  }

  lemma LeafMeans(token: Token, n: nat)
    requires token.code > 0
    ensures Means(Leaf(token), KindOf(token.code), [token], Text(token.text), n, n)
  {
  }

  // ---------------------------------------------------------------- derivations

  function OptTree(o: Option<string>): Tree {
    if o.None? then Node(11, []) else Node(12, [Leaf(Str(o.value))] + [])
  }

  lemma OptMeans(o: Option<string>, n: nat)
    ensures Means(OptTree(o), 13, OptTokens(o), Text(TextOf(o)), n, n)
  {
    if o.None? {
      RowEnd(11, n);
      NodeMeans(11, [], [], [], n, n);
    } else {
      RowEnd(12, n);
      LeafMeans(Str(o.value), n);
      RowCons(12, 0, Leaf(Str(o.value)), 4, [Str(o.value)], Text(o.value), n, n, [], [], [], n);
      NodeMeans(12, [Leaf(Str(o.value))] + [], [Str(o.value)] + [], [Text(o.value)] + [], n, n);
    }
  }

  function ItemTree(s: string): Tree { Node(17, [Leaf(Str(s))] + []) }

  lemma ItemMeans(s: string, n: nat)
    ensures Means(ItemTree(s), 16, [Str(s)], Nodes([s]), n, n)
  {
    RowEnd(17, n);
    LeafMeans(Str(s), n);
    RowCons(17, 0, Leaf(Str(s)), 4, [Str(s)], Text(s), n, n, [], [], [], n);
    NodeMeans(17, [Leaf(Str(s))] + [], [Str(s)] + [], [Text(s)] + [], n, n);
    assert [Str(s)] + [] == [Str(s)];
  }

  function ItemsTree(items: seq<string>): Tree
    requires items != []
  {
    if |items| == 1 then Node(15, [ItemTree(items[0])] + [])
    else Node(16, [ItemTree(items[0])] + ([Leaf(COMMA_TOKEN)] + ([ItemsTree(items[1..])] + [])))
  }

  lemma {:induction false} ItemsMean(items: seq<string>, n: nat)
    requires items != []
    ensures Means(ItemsTree(items), 15, ItemTokens(items), Nodes(items), n, n)
    decreases |items|
  {
    hide Means, Row, RunAction, ItemTree, Eval, EvalAll, WellFormed;
    var first := [Str(items[0])];
    ItemMeans(items[0], n);
    if |items| == 1 {
      RowEnd(15, n);
      RowCons(15, 0, ItemTree(items[0]), 16, first, Nodes([items[0]]), n, n, [], [], [], n);
      NodeMeans(15, [ItemTree(items[0])] + [], first + [], [Nodes([items[0]])] + [], n, n);
      ItemsValue(items, [Nodes([items[0]])] + [], n);
    } else {
      var rest, t := items[1..], ItemsTree(items[1..]);
      ItemsMean(rest, n);
      LeafMeans(COMMA_TOKEN, n);
      RowEnd(16, n);
      RowCons(16, 2, t, 15, ItemTokens(rest), Nodes(rest), n, n, [], [], [], n);
      RowCons(16, 1, Leaf(COMMA_TOKEN), 6, [COMMA_TOKEN], Text(""), n, n, [t] + [], ItemTokens(rest) + [], [Nodes(rest)] + [], n);
      var ts, vs := [Leaf(COMMA_TOKEN)] + ([t] + []), [Text("")] + ([Nodes(rest)] + []);
      RowCons(16, 0, ItemTree(items[0]), 16, first, Nodes([items[0]]), n, n, ts, [COMMA_TOKEN] + (ItemTokens(rest) + []), vs, n);
      NodeMeans(16, [ItemTree(items[0])] + ts, first + ([COMMA_TOKEN] + (ItemTokens(rest) + [])), [Nodes([items[0]])] + vs, n, n);
      ItemsMoreValue(items, [Nodes([items[0]])] + vs, n);
    }
  }

  lemma ItemsValue(items: seq<string>, vs: seq<Value>, n: nat)
    requires |items| == 1 && vs == [Nodes([items[0]])]
    ensures RunAction(15, vs, n) == (Nodes(items), n)
  {
    assert items == [items[0]];
  }

  lemma ItemsMoreValue(items: seq<string>, vs: seq<Value>, n: nat)
    requires items != [] && vs == [Nodes([items[0]])] + ([Text("")] + ([Nodes(items[1..])] + []))
    ensures |vs| == yyr2(16) && RunAction(16, vs, n) == (Nodes(items), n)
  {
    assert items == [items[0]] + items[1..];
    assert vs[2] == Nodes(items[1..]);
  }

  function ListTree(o: Option<seq<string>>): Tree
    requires o.Some? ==> o.value != []
  {
    if o.None? then Node(14, []) else Node(13, [Leaf(LP_TOKEN)] + ([ItemsTree(o.value)] + ([Leaf(RP_TOKEN)] + [])))
  }

  function ListValue(o: Option<seq<string>>): Value { Nodes(if o.None? then [] else o.value) }

  lemma ListMeans(o: Option<seq<string>>, n: nat)
    requires o.Some? ==> o.value != []
    ensures Means(ListTree(o), 14, ListTokens(o), ListValue(o), n, n)
  {
    if o.None? {
      RowEnd(14, n);
      NodeMeans(14, [], [], [], n, n);
    } else {
      hide Means, Row, RunAction, ItemsTree, ItemTokens, Eval, EvalAll, WellFormed;
      var items, t, y := o.value, ItemsTree(o.value), ItemTokens(o.value);
      ItemsMean(items, n);
      LeafMeans(LP_TOKEN, n);
      LeafMeans(RP_TOKEN, n);
      RowEnd(13, n);
      RowCons(13, 2, Leaf(RP_TOKEN), 7, [RP_TOKEN], Text(""), n, n, [], [], [], n);
      RowCons(13, 1, t, 15, y, Nodes(items), n, n, [Leaf(RP_TOKEN)] + [], [RP_TOKEN] + [], [Text("")] + [], n);
      var ts, ys, vs := [t] + ([Leaf(RP_TOKEN)] + []), y + ([RP_TOKEN] + []), [Nodes(items)] + ([Text("")] + []);
      RowCons(13, 0, Leaf(LP_TOKEN), 5, [LP_TOKEN], Text(""), n, n, ts, ys, vs, n);
      NodeMeans(13, [Leaf(LP_TOKEN)] + ts, [LP_TOKEN] + ys, [Text("")] + vs, n, n);
      MiddleValue([Text("")] + vs, Nodes(items), n);
    }
  }

  lemma MiddleValue(vs: seq<Value>, v: Value, n: nat)
    requires |vs| == 3 && vs[1] == v
    ensures RunAction(13, vs, n) == (v, n)
  {
  }

  // ---------------------------------------------------------------- variations

  function ListsTrees(s: Shape, i: nat): seq<Tree>
    requires GoodShape(s) && i <= |s.lists|
    decreases |s.lists| - i
  {
    if i == |s.lists| then [Leaf(RP_TOKEN)] + [] else [Leaf(COMMA_TOKEN)] + ([ListTree(s.lists[i])] + ListsTrees(s, i + 1))
  }

  function ListsValues(s: Shape, i: nat): seq<Value>
    requires i <= |s.lists|
    decreases |s.lists| - i
  {
    if i == |s.lists| then [Text("")] + [] else [Text("")] + ([ListValue(s.lists[i])] + ListsValues(s, i + 1))
  }

  function ShapeRule(s: Shape): Rule
    requires GoodShape(s)
  {
    7 + |s.lists|
  }

  lemma ShapeRhs(l: nat, i: nat)
    requires l <= 3 && i <= l
    ensures yyr2(7 + l) == 3 + 2 * l && Rhs(7 + l, 0) == 5 && Rhs(7 + l, 1) == 13 && yyr1(7 + l) == 12
    ensures Rhs(7 + l, 2 + 2 * i) == if i == l then 7 else 6
    ensures i < l ==> Rhs(7 + l, 3 + 2 * i) == 14
  {
  }

  lemma {:induction false} ListsRow(s: Shape, i: nat, n: nat)
    requires GoodShape(s) && i <= |s.lists|
    ensures Row(ShapeRule(s), 2 + 2 * i, ListsTrees(s, i), ListsTokens(s, i), ListsValues(s, i), n, n)
    decreases |s.lists| - i
  {
    hide *;
    if i == |s.lists| {
      LastRow(s, n);
    } else {
      ListsRow(s, i + 1, n);
      MoreRow(s, i, n);
    }
  }

  lemma LastRow(s: Shape, n: nat)
    requires GoodShape(s)
    ensures var l := |s.lists|; Row(ShapeRule(s), 2 + 2 * l, ListsTrees(s, l), ListsTokens(s, l), ListsValues(s, l), n, n)
  {
    hide *;
    var l := |s.lists|;
    RuleFacts(s, l);
    ListsEnd(s);
    RowEnd(ShapeRule(s), n);
    LeafMeans(RP_TOKEN, n);
    RowCons(ShapeRule(s), 2 + 2 * l, Leaf(RP_TOKEN), 7, [RP_TOKEN], Text(""), n, n, [], [], [], n);
  }

  lemma MoreRow(s: Shape, i: nat, n: nat)
    requires GoodShape(s) && i < |s.lists|
    requires Row(ShapeRule(s), 2 + 2 * (i + 1), ListsTrees(s, i + 1), ListsTokens(s, i + 1), ListsValues(s, i + 1), n, n)
    ensures Row(ShapeRule(s), 2 + 2 * i, ListsTrees(s, i), ListsTokens(s, i), ListsValues(s, i), n, n)
  {
    hide *;
    var r, a := ShapeRule(s), 2 + 2 * i;
    RuleFacts(s, i);
    ListsMore(s, i);
    ListMeans(s.lists[i], n);
    LeafMeans(COMMA_TOKEN, n);
    var ts, ys, vs := ListsTrees(s, i + 1), ListsTokens(s, i + 1), ListsValues(s, i + 1);
    var t, y, v := ListTree(s.lists[i]), ListTokens(s.lists[i]), ListValue(s.lists[i]);
    assert 2 + 2 * (i + 1) == a + 2;
    RowCons(r, a + 1, t, 14, y, v, n, n, ts, ys, vs, n);
    RowCons(r, a, Leaf(COMMA_TOKEN), 6, [COMMA_TOKEN], Text(""), n, n, [t] + ts, y + ys, [v] + vs, n);
  }

  lemma RuleFacts(s: Shape, i: nat)
    requires GoodShape(s) && i <= |s.lists|
    ensures var r := ShapeRule(s);
      && yyr2(r) == 3 + 2 * |s.lists| && Rhs(r, 0) == 5 && Rhs(r, 1) == 13 && yyr1(r) == 12
      && Rhs(r, 2 + 2 * i) == (if i == |s.lists| then 7 else 6) && (i < |s.lists| ==> Rhs(r, 2 + 2 * i + 1) == 14)
  {
    ShapeRhs(|s.lists|, i);
    hide Rhs, yyr1, yyr2;
    assert 2 + 2 * i + 1 == 3 + 2 * i;
  }

  lemma ListsEnd(s: Shape)
    requires GoodShape(s)
    ensures var l := |s.lists|;
      ListsTrees(s, l) == [Leaf(RP_TOKEN)] + [] && ListsTokens(s, l) == [RP_TOKEN] + [] && ListsValues(s, l) == [Text("")] + []
    ensures KindOf(RP_TOKEN.code) == 7 && RP_TOKEN.code > 0 && RP_TOKEN.text == ""
  {
  }

  lemma ListsMore(s: Shape, i: nat)
    requires GoodShape(s) && i < |s.lists|
    ensures s.lists[i].Some? ==> s.lists[i].value != []
    ensures ListsTrees(s, i) == [Leaf(COMMA_TOKEN)] + ([ListTree(s.lists[i])] + ListsTrees(s, i + 1))
    ensures ListsTokens(s, i) == [COMMA_TOKEN] + (ListTokens(s.lists[i]) + ListsTokens(s, i + 1))
    ensures ListsValues(s, i) == [Text("")] + ([ListValue(s.lists[i])] + ListsValues(s, i + 1))
    ensures KindOf(COMMA_TOKEN.code) == 6 && COMMA_TOKEN.code > 0 && COMMA_TOKEN.text == ""
  {
  }

  function ShapeTree(s: Shape): Tree
    requires GoodShape(s)
  {
    Node(ShapeRule(s), [Leaf(LP_TOKEN)] + ([OptTree(s.name)] + ListsTrees(s, 0)))
  }

  lemma ShapeMeans(s: Shape, n: nat)
    requires GoodShape(s)
    ensures Means(ShapeTree(s), 12, ShapeTokens(s), Variations([VariationOf(s, n)]), n, n + 1)
  {
    hide *;
    var r := ShapeRule(s);
    var ts, ys, vs := ListsTrees(s, 0), ListsTokens(s, 0), ListsValues(s, 0);
    var t, y, v := OptTree(s.name), OptTokens(s.name), Text(TextOf(s.name));
    RuleFacts(s, 0);
    ShapeParts(s);
    ShapeValue(s, n);
    ListsRow(s, 0, n);
    OptMeans(s.name, n);
    LeafMeans(LP_TOKEN, n);
    assert 2 + 2 * 0 == 1 + 1;
    RowCons(r, 1, t, 13, y, v, n, n, ts, ys, vs, n);
    RowCons(r, 0, Leaf(LP_TOKEN), 5, [LP_TOKEN], Text(""), n, n, [t] + ts, y + ys, [v] + vs, n);
    NodeMeans(r, [Leaf(LP_TOKEN)] + ([t] + ts), [LP_TOKEN] + (y + ys), [Text("")] + ([v] + vs), n, n);
  }

  lemma ShapeParts(s: Shape)
    requires GoodShape(s)
    ensures KindOf(LP_TOKEN.code) == 5 && LP_TOKEN.code > 0 && LP_TOKEN.text == ""
    ensures ShapeTree(s) == Node(ShapeRule(s), [Leaf(LP_TOKEN)] + ([OptTree(s.name)] + ListsTrees(s, 0)))
    ensures ShapeTokens(s) == [LP_TOKEN] + (OptTokens(s.name) + ListsTokens(s, 0))
  {
  }

  /** The action takes the name and the lists from their places. */
  lemma ShapeValue(s: Shape, n: nat)
    requires GoodShape(s)
    ensures var vs := [Text("")] + ([Text(TextOf(s.name))] + ListsValues(s, 0));
      |vs| == yyr2(ShapeRule(s)) && RunAction(ShapeRule(s), vs, n) == (Variations([VariationOf(s, n)]), n + 1)
  {
    var vs := [Text("")] + ([Text(TextOf(s.name))] + ListsValues(s, 0));
    var l := |s.lists|;
    ListsLength(s, 0);
    assert vs[1] == Text(TextOf(s.name));
    if l >= 1 {
      assert vs[3] == ListsValues(s, 0)[1] == ListValue(s.lists[0]);
    }
    if l >= 2 {
      assert vs[5] == ListsValues(s, 0)[3] == ListsValues(s, 1)[1] == ListValue(s.lists[1]);
    }
    if l >= 3 {
      assert vs[7] == ListsValues(s, 0)[5] == ListsValues(s, 1)[3] == ListsValues(s, 2)[1] == ListValue(s.lists[2]);
    }
  }

  lemma {:induction false} ListsLength(s: Shape, i: nat)
    requires i <= |s.lists|
    ensures |ListsValues(s, i)| == 1 + 2 * (|s.lists| - i)
    decreases |s.lists| - i
  {
    if i < |s.lists| {
      ListsLength(s, i + 1);
    }
  }

  function ShapesTree(e: Entry, k: nat): Tree
    requires GoodEntry(e) && 1 <= k <= |e.shapes|
  {
    if k == 1 then Node(5, [ShapeTree(e.shapes[0])] + [])
    else Node(6, [ShapesTree(e, k - 1)] + ([Leaf(COMMA_TOKEN)] + ([ShapeTree(e.shapes[k - 1])] + [])))
  }

  lemma {:induction false} ShapesMean(e: Entry, k: nat, n: nat)
    requires GoodEntry(e) && 1 <= k <= |e.shapes|
    ensures Means(ShapesTree(e, k), 11, ShapesTokens(e, k), Variations(VariationsOf(e, k, n)), n, n + k)
    decreases k
  {
    hide Means, Row, RunAction, ShapeTree, ShapeTokens, Eval, EvalAll, WellFormed, VariationOf;
    var s := e.shapes[k - 1];
    var m := n + k - 1;
    var t, y, v := ShapeTree(s), ShapeTokens(s), Variations([VariationOf(s, m)]);
    ShapeMeans(s, m);
    if k == 1 {
      RowEnd(5, m + 1);
      RowCons(5, 0, t, 12, y, v, m, m + 1, [], [], [], m + 1);
      NodeMeans(5, [t] + [], y + [], [v] + [], m, m + 1);
      OneVariation(e, [v] + [], n);
    } else {
      ShapesMean(e, k - 1, n);
      LeafMeans(COMMA_TOKEN, m);
      RowEnd(6, m + 1);
      RowCons(6, 2, t, 12, y, v, m, m + 1, [], [], [], m + 1);
      RowCons(6, 1, Leaf(COMMA_TOKEN), 6, [COMMA_TOKEN], Text(""), m, m, [t] + [], y + [], [v] + [], m + 1);
      var ts, ys, vs := [Leaf(COMMA_TOKEN)] + ([t] + []), [COMMA_TOKEN] + (y + []), [Text("")] + ([v] + []);
      var t0, y0, v0 := ShapesTree(e, k - 1), ShapesTokens(e, k - 1), Variations(VariationsOf(e, k - 1, n));
      RowCons(6, 0, t0, 11, y0, v0, n, m, ts, ys, vs, m + 1);
      NodeMeans(6, [t0] + ts, y0 + ys, [v0] + vs, n, m + 1);
      MoreVariations(e, k, [v0] + vs, n);
    }
  }

  lemma OneVariation(e: Entry, vs: seq<Value>, n: nat)
    requires e.shapes != [] && vs == [Variations([VariationOf(e.shapes[0], n)])]
    ensures RunAction(5, vs, n + 1) == (Variations(VariationsOf(e, 1, n)), n + 1)
  {
    var x := VariationOf(e.shapes[0], n);
    assert VariationsOf(e, 0, n) == [] && VariationsOf(e, 1, n) == [x] + [] == [x];
  }

  lemma MoreVariations(e: Entry, k: nat, vs: seq<Value>, n: nat)
    requires 1 < k <= |e.shapes|
    requires vs == [Variations(VariationsOf(e, k - 1, n))] + ([Text("")] + ([Variations([VariationOf(e.shapes[k - 1], n + k - 1)])] + []))
    ensures |vs| == yyr2(6) && RunAction(6, vs, n + k) == (Variations(VariationsOf(e, k, n)), n + k)
  {
    assert vs[2] == Variations([VariationOf(e.shapes[k - 1], n + k - 1)]);
  }

  // ---------------------------------------------------------------- definitions

  function EntryTree(e: Entry): Tree
    requires GoodEntry(e)
  {
    Node(4, [Leaf(DEFOP_TOKEN)] + ([Leaf(LP_TOKEN)] + ([Leaf(Str(e.name))] + ([Leaf(COMMA_TOKEN)] + ([OptTree(e.template)] + ([Leaf(COMMA_TOKEN)]
      + ([Leaf(LP_TOKEN)] + ([ShapesTree(e, |e.shapes|)] + ([Leaf(RP_TOKEN)] + ([Leaf(RP_TOKEN)] + []))))))))))
  }

  lemma EntryMeans(e: Entry, n: nat)
    requires GoodEntry(e)
    ensures Means(EntryTree(e), 10, EntryTokens(e), Defs([DefOf(e, n)]), n, n + |e.shapes|)
  {
    hide Means, Row, RunAction, ShapesTree, ShapesTokens, Eval, EvalAll, WellFormed, VariationsOf, OptTree, OptTokens;
    var m := n + |e.shapes|;
    var t, y, v := ShapesTree(e, |e.shapes|), ShapesTokens(e, |e.shapes|), Variations(VariationsOf(e, |e.shapes|, n));
    ShapesMean(e, |e.shapes|, n);
    EntryTail(m);
    RowCons(4, 7, t, 11, y, v, n, m, [Leaf(RP_TOKEN)] + ([Leaf(RP_TOKEN)] + []), [RP_TOKEN] + ([RP_TOKEN] + []), [Text("")] + ([Text("")] + []), m);
    var ts, ys, vs := [t] + ([Leaf(RP_TOKEN)] + ([Leaf(RP_TOKEN)] + [])), y + ([RP_TOKEN] + ([RP_TOKEN] + [])), [v] + ([Text("")] + ([Text("")] + []));
    EntryHead(e, ts, ys, vs, n, m);
    EntryValue(e, vs, n, m);
  }

  lemma EntryTail(m: nat)
    ensures Row(4, 8, [Leaf(RP_TOKEN)] + ([Leaf(RP_TOKEN)] + []), [RP_TOKEN] + ([RP_TOKEN] + []), [Text("")] + ([Text("")] + []), m, m)
  {
    hide Means, Row;
    RowEnd(4, m);
    LeafMeans(RP_TOKEN, m);
    RowCons(4, 9, Leaf(RP_TOKEN), 7, [RP_TOKEN], Text(""), m, m, [], [], [], m);
    RowCons(4, 8, Leaf(RP_TOKEN), 7, [RP_TOKEN], Text(""), m, m, [Leaf(RP_TOKEN)] + [], [RP_TOKEN] + [], [Text("")] + [], m);
  }

  function HeadValues(e: Entry, vs: seq<Value>): seq<Value> {
    [Text("")] + ([Text("")] + ([Text(e.name)] + ([Text("")] + ([Text(TextOf(e.template))] + ([Text("")] + ([Text("")] + vs))))))
  }

  /** The part of a definition in front of its variations. */
  lemma EntryHead(e: Entry, ts: seq<Tree>, ys: seq<Token>, vs: seq<Value>, n: nat, m: nat)
    requires Row(4, 7, ts, ys, vs, n, m)
    ensures |HeadValues(e, vs)| == yyr2(4)
    ensures var all := HeadValues(e, vs);
      Means(Node(4, [Leaf(DEFOP_TOKEN)] + ([Leaf(LP_TOKEN)] + ([Leaf(Str(e.name))] + ([Leaf(COMMA_TOKEN)] + ([OptTree(e.template)] + ([Leaf(COMMA_TOKEN)] + ([Leaf(LP_TOKEN)] + ts))))))),
            10, [DEFOP_TOKEN] + ([LP_TOKEN] + ([Str(e.name)] + ([COMMA_TOKEN] + (OptTokens(e.template) + ([COMMA_TOKEN] + ([LP_TOKEN] + ys)))))),
            RunAction(4, all, m).0, n, RunAction(4, all, m).1)
  {
    hide Means, Row, RunAction, OptTree, OptTokens;
    var none := Text("");
    LeafMeans(LP_TOKEN, n);
    LeafMeans(COMMA_TOKEN, n);
    LeafMeans(DEFOP_TOKEN, n);
    LeafMeans(Str(e.name), n);
    OptMeans(e.template, n);
    var t, y, v := OptTree(e.template), OptTokens(e.template), Text(TextOf(e.template));
    RowCons(4, 6, Leaf(LP_TOKEN), 5, [LP_TOKEN], none, n, n, ts, ys, vs, m);
    var t6, y6, v6 := [Leaf(LP_TOKEN)] + ts, [LP_TOKEN] + ys, [none] + vs;
    RowCons(4, 5, Leaf(COMMA_TOKEN), 6, [COMMA_TOKEN], none, n, n, t6, y6, v6, m);
    var t5, y5, v5 := [Leaf(COMMA_TOKEN)] + t6, [COMMA_TOKEN] + y6, [none] + v6;
    RowCons(4, 4, t, 13, y, v, n, n, t5, y5, v5, m);
    var t4, y4, v4 := [t] + t5, y + y5, [v] + v5;
    RowCons(4, 3, Leaf(COMMA_TOKEN), 6, [COMMA_TOKEN], none, n, n, t4, y4, v4, m);
    var t3, y3, v3 := [Leaf(COMMA_TOKEN)] + t4, [COMMA_TOKEN] + y4, [none] + v4;
    RowCons(4, 2, Leaf(Str(e.name)), 4, [Str(e.name)], Text(e.name), n, n, t3, y3, v3, m);
    var t2, y2, v2 := [Leaf(Str(e.name))] + t3, [Str(e.name)] + y3, [Text(e.name)] + v3;
    RowCons(4, 1, Leaf(LP_TOKEN), 5, [LP_TOKEN], none, n, n, t2, y2, v2, m);
    RowCons(4, 0, Leaf(DEFOP_TOKEN), 3, [DEFOP_TOKEN], none, n, n, [Leaf(LP_TOKEN)] + t2, [LP_TOKEN] + y2, [none] + v2, m);
    NodeMeans(4, [Leaf(DEFOP_TOKEN)] + ([Leaf(LP_TOKEN)] + t2), [DEFOP_TOKEN] + ([LP_TOKEN] + y2), [none] + ([none] + v2), n, m);
  }

  /** The action takes the name, the template and the variations from their places. */
  lemma EntryValue(e: Entry, vs: seq<Value>, n: nat, m: nat)
    requires |vs| == 3 && vs[0] == Variations(VariationsOf(e, |e.shapes|, n))
    ensures var all := HeadValues(e, vs); |all| == yyr2(4) && RunAction(4, all, m) == (Defs([DefOf(e, n)]), m)
  {
    hide VariationsOf;
    var all := HeadValues(e, vs);
    assert all[2] == Text(e.name) && all[4] == Text(TextOf(e.template)) && all[7] == vs[0];
  }

  // ---------------------------------------------------------------- files

  function DefsTree(f: seq<Entry>, k: nat): Tree
    requires GoodFile(f) && 1 <= k <= |f|
  {
    if k == 1 then Node(2, [EntryTree(f[0])] + []) else Node(3, [DefsTree(f, k - 1)] + ([EntryTree(f[k - 1])] + []))
  }

  lemma {:induction false} DefsMean(f: seq<Entry>, k: nat, n: nat)
    requires GoodFile(f) && 1 <= k <= |f|
    ensures Means(DefsTree(f, k), 9, FileTokens(f, k), Defs(DefsOf(f, k, n)), n, n + CodesBefore(f, k))
    decreases k
  {
    hide Means, Row, RunAction, EntryTree, EntryTokens, Eval, EvalAll, WellFormed, DefOf;
    var e := f[k - 1];
    var l, m := n + CodesBefore(f, k - 1), n + CodesBefore(f, k);
    var t, y, v := EntryTree(e), EntryTokens(e), Defs([DefOf(e, l)]);
    EntryMeans(e, l);
    if k == 1 {
      RowEnd(2, m);
      RowCons(2, 0, t, 10, y, v, l, m, [], [], [], m);
      NodeMeans(2, [t] + [], y + [], [v] + [], l, m);
      OneDef(f, [v] + [], n, m);
    } else {
      DefsMean(f, k - 1, n);
      RowEnd(3, m);
      RowCons(3, 1, t, 10, y, v, l, m, [], [], [], m);
      var t0, y0, v0 := DefsTree(f, k - 1), FileTokens(f, k - 1), Defs(DefsOf(f, k - 1, n));
      RowCons(3, 0, t0, 9, y0, v0, n, l, [t] + [], y + [], [v] + [], m);
      NodeMeans(3, [t0] + ([t] + []), y0 + (y + []), [v0] + ([v] + []), n, m);
      MoreDefs(f, k, [v0] + ([v] + []), n, m);
    }
  }

  lemma OneDef(f: seq<Entry>, vs: seq<Value>, n: nat, m: nat)
    requires f != [] && vs == [Defs([DefOf(f[0], n + CodesBefore(f, 0))])]
    ensures RunAction(2, vs, m) == (Defs(DefsOf(f, 1, n)), m)
  {
    var x := DefOf(f[0], n + CodesBefore(f, 0));
    assert DefsOf(f, 0, n) == [] && DefsOf(f, 1, n) == [x] + [] == [x];
  }

  lemma MoreDefs(f: seq<Entry>, k: nat, vs: seq<Value>, n: nat, m: nat)
    requires 1 < k <= |f| && vs == [Defs(DefsOf(f, k - 1, n))] + ([Defs([DefOf(f[k - 1], n + CodesBefore(f, k - 1))])] + [])
    ensures |vs| == yyr2(3) && RunAction(3, vs, m) == (Defs(DefsOf(f, k, n)), m)
  {
    assert vs[1] == Defs([DefOf(f[k - 1], n + CodesBefore(f, k - 1))]);
  }

  lemma TopMeans(f: seq<Entry>, n: nat)
    requires GoodFile(f)
    ensures var t := Node(1, [DefsTree(f, |f|)] + []); var v := Defs(DefsOf(f, |f|, n));
      Means(t, 8, FileTokens(f, |f|) + [], v, n, n + CodesBefore(f, |f|))
  {
    hide Means, Row, RunAction, DefsTree, FileTokens, DefsOf;
    var m, t, y, v := n + CodesBefore(f, |f|), DefsTree(f, |f|), FileTokens(f, |f|), Defs(DefsOf(f, |f|, n));
    DefsMean(f, |f|, n);
    RowEnd(1, m);
    RowCons(1, 0, t, 9, y, v, n, m, [], [], [], m);
    NodeMeans(1, [t] + [], y + [], [v] + [], n, m);
    assert RunAction(1, [v] + [], m) == (v, m) by { LoneValue(v, m); }
  }

  lemma LoneValue(v: Value, m: nat)
    ensures RunAction(1, [v] + [], m) == (v, m)
  {
  }

  // ---------------------------------------------------------------- how deep the stack gets

  /** The number of states that a part needs on the stack. Items stand to the right of each other there;
      variations and definitions do not. */
  function ListDepth(o: Option<seq<string>>): nat {
    if o.None? then 1 else Max(3, 2 * |o.value|)
  }

  function ListsDepth(s: Shape, i: nat): nat
    requires i <= |s.lists|
    decreases |s.lists| - i
  {
    if i == |s.lists| then 3 + 2 * i else Max(3 + 2 * i + ListDepth(s.lists[i]), ListsDepth(s, i + 1))
  }

  function ShapesDepth(e: Entry, k: nat): nat
    requires 1 <= k <= |e.shapes|
  {
    if k == 1 then ListsDepth(e.shapes[0], 0) else Max(ShapesDepth(e, k - 1), 2 + ListsDepth(e.shapes[k - 1], 0))
  }

  function FileDepth(f: seq<Entry>, k: nat): nat
    requires GoodFile(f) && 1 <= k <= |f|
  {
    var last := 7 + ShapesDepth(f[k - 1], |f[k - 1].shapes|);
    if k == 1 then last else Max(FileDepth(f, k - 1), 1 + last)
  }

  lemma HeightCons(t: Tree, ts: seq<Tree>)
    ensures HeightAll([t] + ts) == Max(Height(t), 1 + HeightAll(ts)) && Height(t) >= 1 && HeightAll([]) == 0
  {
    HeightPositive(t);
    assert ([t] + ts)[1..] == ts;
  }

  lemma HeightNode(r: Rule, t: Tree, ts: seq<Tree>)
    ensures Height(Node(r, [t] + ts)) == Max(Height(t), 1 + HeightAll(ts))
  {
    HeightCons(t, ts);
    hide HeightAll;
    assert Height(Node(r, [t] + ts)) == Max(1, HeightAll([t] + ts));
  }

  lemma HeightLeaf(token: Token)
    ensures Height(Leaf(token)) == 1 && HeightAll([]) == 0
  {
  }

  lemma OptHeight(o: Option<string>)
    ensures Height(OptTree(o)) == 1
  {
    if o.Some? {
      HeightNode(12, Leaf(Str(o.value)), []);
    }
  }

  lemma {:induction false} ItemsHeight(items: seq<string>)
    requires items != []
    ensures Height(ItemsTree(items)) == 2 * |items| - 1
    decreases |items|
  {
    hide Height, HeightAll;
    HeightNode(17, Leaf(Str(items[0])), []);
    HeightLeaf(Str(items[0]));
    if |items| == 1 {
      HeightNode(15, ItemTree(items[0]), []);
    } else {
      var t := ItemsTree(items[1..]);
      ItemsHeight(items[1..]);
      HeightLeaf(COMMA_TOKEN);
      HeightCons(t, []);
      HeightCons(Leaf(COMMA_TOKEN), [t] + []);
      HeightNode(16, ItemTree(items[0]), [Leaf(COMMA_TOKEN)] + ([t] + []));
    }
  }

  lemma ListHeight(o: Option<seq<string>>)
    requires o.Some? ==> o.value != []
    ensures Height(ListTree(o)) == ListDepth(o)
  {
    if o.Some? {
      hide Height, HeightAll;
      var t := ItemsTree(o.value);
      ItemsHeight(o.value);
      HeightLeaf(LP_TOKEN);
      HeightLeaf(RP_TOKEN);
      HeightCons(Leaf(RP_TOKEN), []);
      HeightCons(t, [Leaf(RP_TOKEN)] + []);
      HeightNode(13, Leaf(LP_TOKEN), [t] + ([Leaf(RP_TOKEN)] + []));
    }
  }

  lemma {:induction false} ListsHeight(s: Shape, i: nat)
    requires GoodShape(s) && i <= |s.lists|
    ensures 2 + 2 * i + HeightAll(ListsTrees(s, i)) == ListsDepth(s, i)
    decreases |s.lists| - i
  {
    hide Height, HeightAll;
    if i == |s.lists| {
      HeightLeaf(RP_TOKEN);
      HeightCons(Leaf(RP_TOKEN), []);
    } else {
      ListsHeight(s, i + 1);
      ListHeight(s.lists[i]);
      HeightLeaf(COMMA_TOKEN);
      HeightCons(ListTree(s.lists[i]), ListsTrees(s, i + 1));
      HeightCons(Leaf(COMMA_TOKEN), [ListTree(s.lists[i])] + ListsTrees(s, i + 1));
    }
  }

  lemma ShapeHeight(s: Shape)
    requires GoodShape(s)
    ensures Height(ShapeTree(s)) == ListsDepth(s, 0) >= 3
  {
    hide Height, HeightAll;
    ListsHeight(s, 0);
    DepthAtLeast(s, 0);
    OptHeight(s.name);
    HeightLeaf(LP_TOKEN);
    HeightCons(OptTree(s.name), ListsTrees(s, 0));
    HeightNode(ShapeRule(s), Leaf(LP_TOKEN), [OptTree(s.name)] + ListsTrees(s, 0));
  }

  lemma {:induction false} DepthAtLeast(s: Shape, i: nat)
    requires i <= |s.lists|
    ensures ListsDepth(s, i) >= 3 + 2 * |s.lists| >= 3
    decreases |s.lists| - i
  {
    if i < |s.lists| {
      DepthAtLeast(s, i + 1);
    }
  }

  lemma {:induction false} ShapesHeight(e: Entry, k: nat)
    requires GoodEntry(e) && 1 <= k <= |e.shapes|
    ensures Height(ShapesTree(e, k)) == ShapesDepth(e, k) >= 3
  {
    hide Height, HeightAll, ShapeTree;
    var t := ShapeTree(e.shapes[k - 1]);
    ShapeHeight(e.shapes[k - 1]);
    HeightLeaf(COMMA_TOKEN);
    if k == 1 {
      HeightNode(5, t, []);
    } else {
      ShapesHeight(e, k - 1);
      HeightCons(t, []);
      HeightCons(Leaf(COMMA_TOKEN), [t] + []);
      HeightNode(6, ShapesTree(e, k - 1), [Leaf(COMMA_TOKEN)] + ([t] + []));
    }
  }

  lemma EntryHeight(e: Entry)
    requires GoodEntry(e)
    ensures Height(EntryTree(e)) == 7 + ShapesDepth(e, |e.shapes|)
  {
    hide Height, HeightAll, ShapesTree, OptTree;
    var t := ShapesTree(e, |e.shapes|);
    ShapesHeight(e, |e.shapes|);
    OptHeight(e.template);
    HeightLeaf(LP_TOKEN);
    HeightLeaf(RP_TOKEN);
    HeightLeaf(COMMA_TOKEN);
    HeightLeaf(DEFOP_TOKEN);
    HeightLeaf(Str(e.name));
    HeightCons(Leaf(RP_TOKEN), []);
    HeightCons(Leaf(RP_TOKEN), [Leaf(RP_TOKEN)] + []);
    var t7 := [t] + ([Leaf(RP_TOKEN)] + ([Leaf(RP_TOKEN)] + []));
    HeightCons(t, [Leaf(RP_TOKEN)] + ([Leaf(RP_TOKEN)] + []));
    HeightCons(Leaf(LP_TOKEN), t7);
    HeightCons(Leaf(COMMA_TOKEN), [Leaf(LP_TOKEN)] + t7);
    HeightCons(OptTree(e.template), [Leaf(COMMA_TOKEN)] + ([Leaf(LP_TOKEN)] + t7));
    var t4 := [OptTree(e.template)] + ([Leaf(COMMA_TOKEN)] + ([Leaf(LP_TOKEN)] + t7));
    HeightCons(Leaf(COMMA_TOKEN), t4);
    HeightCons(Leaf(Str(e.name)), [Leaf(COMMA_TOKEN)] + t4);
    HeightCons(Leaf(LP_TOKEN), [Leaf(Str(e.name))] + ([Leaf(COMMA_TOKEN)] + t4));
    HeightNode(4, Leaf(DEFOP_TOKEN), [Leaf(LP_TOKEN)] + ([Leaf(Str(e.name))] + ([Leaf(COMMA_TOKEN)] + t4)));
  }

  lemma {:induction false} DefsHeight(f: seq<Entry>, k: nat)
    requires GoodFile(f) && 1 <= k <= |f|
    ensures Height(DefsTree(f, k)) == FileDepth(f, k) >= 1
  {
    hide Height, HeightAll, EntryTree;
    var t := EntryTree(f[k - 1]);
    EntryHeight(f[k - 1]);
    if k == 1 {
      HeightNode(2, t, []);
      HeightLeaf(COMMA_TOKEN);
    } else {
      DefsHeight(f, k - 1);
      HeightCons(t, []);
      HeightNode(3, DefsTree(f, k - 1), [t] + []);
    }
  }

  lemma {:induction false} TopHeight(f: seq<Entry>)
    requires GoodFile(f)
    ensures Height(Node(1, [DefsTree(f, |f|)] + [])) == FileDepth(f, |f|)
  {
    var t := DefsTree(f, |f|);
    DefsHeight(f, |f|);
    HeightLeaf(COMMA_TOKEN);
    hide *;
    HeightNode(1, t, []);
  }

  /** No list has more than `m` items; the depth is then at most 17 more than twice that, whatever else
      the file holds. */
  ghost predicate ListsWithin(f: seq<Entry>, m: nat) {
    forall e, s, o :: e in f && s in e.shapes && o in s.lists && o.Some? ==> |o.value| <= m
  }

  lemma {:induction false} ListsDepthBound(s: Shape, i: nat, m: nat)
    requires GoodShape(s) && i <= |s.lists| && m >= 2
    requires forall o :: o in s.lists && o.Some? ==> |o.value| <= m
    ensures ListsDepth(s, i) <= 7 + 2 * m
    decreases |s.lists| - i
  {
    if i < |s.lists| {
      assert s.lists[i] in s.lists;
      ListsDepthBound(s, i + 1, m);
    }
  }

  lemma {:induction false} ShapesDepthBound(e: Entry, k: nat, m: nat)
    requires GoodEntry(e) && 1 <= k <= |e.shapes| && m >= 2
    requires forall s, o :: s in e.shapes && o in s.lists && o.Some? ==> |o.value| <= m
    ensures ShapesDepth(e, k) <= 9 + 2 * m
  {
    var s := e.shapes[k - 1];
    assert s in e.shapes;
    ListsDepthBound(s, 0, m);
    if k > 1 {
      ShapesDepthBound(e, k - 1, m);
    }
  }

  lemma {:induction false} FileDepthBound(f: seq<Entry>, k: nat, m: nat)
    requires GoodFile(f) && 1 <= k <= |f| && m >= 2 && ListsWithin(f, m)
    ensures FileDepth(f, k) <= 17 + 2 * m
  {
    var e := f[k - 1];
    assert e in f;
    ShapesDepthBound(e, |e.shapes|, m);
    if k > 1 {
      FileDepthBound(f, k - 1, m);
    }
  }

  /** Every definition file is read as what it means, the codes given out in order and the lists of
      definitions and variations turned round, exactly if the stack is as deep as the file needs. */
  lemma ReadsEveryFile(f: seq<Entry>, n: nat, limit: nat)
    requires GoodFile(f) && limit > 3
    ensures var o := Parse(FileTokens(f, |f|), limit);
      if 1 + FileDepth(f, |f|) >= limit then o == Overflow
      else o.Parsed? && AsDefs(Eval(o.tree, n).0) == DefsOf(f, |f|, n)
  {
    hide *;
    AnyFile(f);
    var tokens := FileTokens(f, |f|);
    var t := Node(1, [DefsTree(f, |f|)] + []);
    TopMeans(f, n);
    TopHeight(f);
    assert tokens + [] == tokens;
    MeansGives(t, tokens, Defs(DefsOf(f, |f|, n)), n, n + CodesBefore(f, |f|));
    YieldNoEnd(t);
    EffectiveSame(tokens);
    ParsesTree(tokens, t, limit);
    ParseIsRun(tokens, limit);
  }

  lemma SourceStack()
    ensures YYMAXDEPTH == 10000
  {
  }

  /** With the stack of the source, however many definitions and variations a file has, it is read if
      none of its lists has more than 4990 items. */
  lemma ReadsWithSourceStack(f: seq<Entry>, n: nat)
    requires GoodFile(f) && ListsWithin(f, 4990)
    ensures var o := Parse(FileTokens(f, |f|), YYMAXDEPTH); o.Parsed? && AsDefs(Eval(o.tree, n).0) == DefsOf(f, |f|, n)
  {
    hide *;
    AnyFile(f);
    FileDepthBound(f, |f|, 4990);
    SourceStack();
    ReadsEveryFile(f, n, YYMAXDEPTH);
  }

  lemma AnyFile(f: seq<Entry>)
    requires GoodFile(f)
    ensures |f| >= 1
  {
  }

  lemma MeansGives(t: Tree, tokens: seq<Token>, v: Value, n: nat, m: nat)
    requires Means(t, 8, tokens, v, n, m) && v.Defs?
    ensures WellFormed(t) && Sym(t) == 8 && Yield(t) == tokens && AsDefs(Eval(t, n).0) == v.defs
  {
  }

  lemma ParseIsRun(input: seq<Token>, limit: nat)
    ensures Good(Start(input)) && Parse(input, limit) == Run(Start(input), limit)
  {
    StartGood(input);
  }

  lemma {:induction false} EffectiveSame(tokens: seq<Token>)
    requires NoEnd(tokens)
    ensures Effective(tokens) == tokens
  {
    if tokens != [] {
      EffectiveSame(tokens[1..]);
    }
  }

  lemma {:induction false} YieldNoEnd(t: Tree)
    ensures NoEnd(Yield(t))
    decreases t, 1
  {
    if t.Node? {
      YieldAllNoEnd(t.children);
    }
  }

  lemma {:induction false} YieldAllNoEnd(ts: seq<Tree>)
    ensures NoEnd(YieldAll(ts))
    decreases ts, 0
  {
    if ts != [] {
      YieldNoEnd(ts[0]);
      YieldAllNoEnd(ts[1..]);
    }
  }
}
