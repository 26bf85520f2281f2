/**
 Derivation trees of the grammar of bytecode definition files, and the run of the automaton over
 states and trees, with the bound that the parser puts on its stack.
 */
module BiGrammar {
  import opened BiTables

  /** A token as `yylex` returns it. */
  datatype Token = Token(code: int, text: string)

  /** `YYTRANSLATE`, with every code that is not positive read as the end of input. */
  function KindOf(code: int): (a: Kind)
    ensures a == 0 <==> code <= 0
  {
    if code <= 0 then 0
    else if code == 40 then LP else if code == 41 then RP else if code == 44 then COMMA
    else if code == 256 then 1 else if code == 258 then DEFOP else if code == 259 then STRING
    else if code < 259 then 2 else 17
  }

  /** The tokens before the first that means the end of input. */
  function Effective(input: seq<Token>): seq<Token> {
    if input == [] || input[0].code <= 0 then [] else [input[0]] + Effective(input[1..])
  }

  function Look(rest: seq<Token>): Kind {
    if rest == [] then 0 else KindOf(rest[0].code)
  }

  datatype Tree = Leaf(token: Token) | Node(rule: Rule, children: seq<Tree>)

  function Sym(t: Tree): int {
    match t
    case Leaf(token) => KindOf(token.code)
    case Node(r, _) => yyr1(r)
  }

  /** Every node carries a rule of the grammar, and its children the rule's right-hand side. */
  predicate WellFormed(t: Tree) {
    match t
    case Leaf(_) => true
    case Node(r, ch) => |ch| == yyr2(r) && Matches(r, 0, ch) && AllWellFormed(ch)
  }

  predicate AllWellFormed(ts: seq<Tree>) {
    forall i :: 0 <= i < |ts| ==> WellFormed(ts[i])
  }

  /** The symbols of `ts` are those of rule `r` from position `i` on. */
  predicate Matches(r: Rule, i: nat, ts: seq<Tree>) {
    forall k :: 0 <= k < |ts| ==> Sym(ts[k]) == Rhs(r, i + k)
  }

  /** The tokens at the leaves. */
  function Yield(t: Tree): seq<Token> {
    match t
    case Leaf(token) => if token.code <= 0 then [] else [token]
    case Node(_, ch) => YieldAll(ch)
  }

  function YieldAll(ts: seq<Tree>): seq<Token> {
    if ts == [] then [] else Yield(ts[0]) + YieldAll(ts[1..])
  }

  lemma {:induction false} YieldAppend(a: seq<Tree>, b: seq<Tree>)
    ensures YieldAll(a + b) == YieldAll(a) + YieldAll(b)
  {
    if a == [] {
      assert a + b == b;
    } else {
      assert (a + b)[1..] == a[1..] + b;
      YieldAppend(a[1..], b);
    }
  }

  /** The parser's stacks and the tokens that are left. */
  datatype Config = Config(states: seq<State>, trees: seq<Tree>, rest: seq<Token>)

  datatype Outcome = Parsed(tree: Tree) | SyntaxError | Overflow

  datatype Status = Running(config: Config) | Done(outcome: Outcome)

  function Top(c: Config): State
    requires |c.states| > 0
  {
    c.states[|c.states| - 1]
  }

  /** The stacks have equal height, and the symbols on them lead through the states. */
  predicate Linked(c: Config) {
    && |c.states| == |c.trees| + 1 && c.states[0] == 0
    && (forall i :: 0 <= i < |c.trees| ==> OkLink(c, i))
  }

  predicate OkLink(c: Config, i: int)
    requires 0 <= i < |c.trees| && |c.states| == |c.trees| + 1
  {
    Edge(c.states[i], Sym(c.trees[i])) == c.states[i + 1]
  }

  predicate NoEnd(ts: seq<Token>) {
    forall i :: 0 <= i < |ts| ==> ts[i].code > 0
  }

  predicate Good(c: Config) {
    Linked(c) && AllWellFormed(c.trees) && NoEnd(c.rest)
  }

  /** `yynewstate`: the parser gives up when its stack is full. */
  function Enter(c: Config, limit: nat): Status {
    if |c.states| >= limit then Done(Overflow) else Running(c)
  }

  function Shifted(c: Config, t: State): Config {
    if c.rest == [] then Config(c.states + [t], c.trees + [Leaf(Token(0, ""))], [])
    else Config(c.states + [t], c.trees + [Leaf(c.rest[0])], c.rest[1..])
  }

  function Reduced(c: Config, r: Rule): Config
    requires Linked(c) && yyr2(r) <= |c.trees|
  {
    RuleShape(r);
    var n := |c.trees| - yyr2(r);
    var g := Goto(c.states[n], yyr1(r));
    Config(c.states[..n + 1] + [if 0 <= g < 40 then g else 0], c.trees[..n] + [Node(r, c.trees[n..])], c.rest)
  }

  /** One turn from `yynewstate` to the next. */
  function Step(c: Config, limit: nat): Status
    requires Good(c)
  {
    match Act(Top(c), Look(c.rest))
    case Error => Done(SyntaxError)
    case Accept => AcceptFacts(c); Done(Parsed(c.trees[0]))
    case Shift(t) => ShiftGood(c); Enter(Shifted(c, t), limit)
    case Reduce(r) => ReduceFacts(c); Enter(Reduced(c, r), limit)
  }

  lemma AcceptFacts(c: Config)
    requires Good(c) && Act(Top(c), Look(c.rest)) == Accept
    ensures c.states == [0, 37, 38] && |c.trees| == 2 && c.rest == []
    ensures Sym(c.trees[0]) == 8 && Sym(c.trees[1]) == 0
  {
    var n := |c.trees|;
    AcceptOnlyFinal(Top(c), Look(c.rest));
    hide Edge, Act, Sym, WellFormed;
    assert OkLink(c, n - 1);
    IntoFinal(c.states[n - 1], Sym(c.trees[n - 1]));
    assert OkLink(c, n - 2);
    IntoFinal(c.states[n - 2], Sym(c.trees[n - 2]));
    if n > 2 {
      assert OkLink(c, n - 3);
      IntoFinal(c.states[n - 3], Sym(c.trees[n - 3]));
    }
  }

  lemma AcceptOnlyFinal(s: State, a: Kind)
    requires Act(s, a) == Accept
    ensures s == 38 && a == 0
  {
    hide Act, Edge;
    if s != 38 {
      ActIsEdge(s, a);
    } else {
      ActInFinal(a);
    }
  }

  lemma ShiftGood(c: Config)
    requires Good(c) && Act(Top(c), Look(c.rest)).Shift?
    ensures var t := Act(Top(c), Look(c.rest)).state;
      0 <= t < 40 && t == Edge(Top(c), Look(c.rest)) && Good(Shifted(c, t))
  {
    var t := Edge(Top(c), Look(c.rest));
    ActShape(Top(c), Look(c.rest));
    var d := Shifted(c, t);
    hide Act, Edge;
    assert WellFormed(d.trees[|c.trees|]);
    assert d.trees == c.trees + [d.trees[|c.trees|]];
    hide WellFormed;
    forall i | 0 <= i < |d.trees| ensures OkLink(d, i) {
      if i < |c.trees| { assert OkLink(c, i); }
    }
  }

  lemma ActShape(s: State, a: Kind)
    ensures Act(s, a).Shift? ==> Edge(s, a) >= 0 && Act(s, a).state == Edge(s, a)
    ensures Act(s, a).Reduce? ==> s != 38 && yydefact(s) != 0 && Act(s, a).rule == yydefact(s) && Edge(s, a) < 0
  {
    hide Act, Edge;
    if s != 38 {
      ActIsEdge(s, a);
    } else {
      ActInFinal(a);
    }
  }

  /** In a state with rule `r` seen up to `i`, the last `i` symbols are those of the rule, and the rule
      started in the state below them. */
  lemma {:induction false} ItemOnStack(c: Config, m: nat, r: Rule, i: nat)
    requires Linked(c) && m <= |c.trees| && Has(c.states[m], r, i)
    ensures i <= m && Has(c.states[m - i], r, 0) && Matches(r, 0, c.trees[m - i..m])
  {
    hide Has, Edge, Sym, Rhs;
    if i > 0 {
      StartHasNoSeen(c.states[m], r, i);
      assert OkLink(c, m - 1);
      BackStep(c.states[m - 1], Sym(c.trees[m - 1]), r, i);
      ItemOnStack(c, m - 1, r, i - 1);
      assert c.trees[m - i..m] == c.trees[m - i..m - 1] + [c.trees[m - 1]];
    }
  }

  lemma StartHasNoSeen(s: State, r: Rule, i: nat)
    requires Has(s, r, i) && i > 0
    ensures s != 0
  {
  }

  /** At each reduction the symbols popped are the rule's right-hand side. */
  lemma ReduceFacts(c: Config)
    requires Good(c) && Act(Top(c), Look(c.rest)).Reduce?
    ensures var r := Act(Top(c), Look(c.rest)).rule; var n := |c.trees| - yyr2(r);
      && 1 <= r <= 17 && r == yydefact(Top(c)) && n >= 0
      && Matches(r, 0, c.trees[n..]) && Edge(c.states[n], yyr1(r)) >= 0
      && Edge(c.states[n], yyr1(r)) == Goto(c.states[n], yyr1(r))
  {
    ActShape(Top(c), Look(c.rest));
    hide Act, Edge, Has, WellFormed, Rhs, Goto;
    var r := yydefact(Top(c));
    DefaultItem(Top(c));
    RuleShape(r);
    ItemOnStack(c, |c.trees|, r, yyr2(r));
    var n := |c.trees| - yyr2(r);
    assert c.trees[n..|c.trees|] == c.trees[n..];
    StartItem(c.states[n], r);
    GotoIsEdge(c.states[n], yyr1(r));
  }

  lemma ReduceGood(c: Config)
    requires Good(c) && Act(Top(c), Look(c.rest)).Reduce?
    ensures var r := Act(Top(c), Look(c.rest)).rule;
      1 <= r <= 17 && yyr2(r) <= |c.trees| && Good(Reduced(c, r))
  {
    ReduceFacts(c);
    var r := Act(Top(c), Look(c.rest)).rule;
    hide Act, Edge, Goto, Has, Rhs, Matches;
    ReducedLinked(c, r);
    var n := |c.trees| - yyr2(r);
    RuleShape(r);
    assert AllWellFormed(c.trees[n..]);
    assert WellFormed(Node(r, c.trees[n..]));
    hide WellFormed;
  }

  lemma ReducedLinked(c: Config, r: Rule)
    requires Linked(c) && yyr2(r) <= |c.trees|
    requires var n := |c.trees| - yyr2(r); Goto(c.states[n], yyr1(r)) == Edge(c.states[n], yyr1(r)) >= 0
    ensures Linked(Reduced(c, r))
  {
    RuleShape(r);
    hide Goto, Edge, Rhs;
    var d := Reduced(c, r);
    var n := |c.trees| - yyr2(r);
    forall i | 0 <= i < |d.trees| ensures OkLink(d, i) {
      if i < n { assert OkLink(c, i); }
    }
  }
}
