/**
 Whole runs of the automaton: they end, what is accepted is derivable, and what is derivable is
 accepted unless the stack overflows.
 */
module BiRun {
  import opened Helpers
  import opened BiTables
  import opened BiGrammar

  function Measure(c: Config): nat
    requires |c.states| > 0
  {
    10 * |c.trees| + Rank(Top(c))
  }

  lemma StepKeeps(c: Config, limit: nat)
    requires Good(c)
    ensures Step(c, limit).Running? ==>
      var d := Step(c, limit).config;
      && Good(d) && (d.rest == c.rest || (c.rest != [] && d.rest == c.rest[1..]))
      && (|d.rest| < |c.rest| || (|d.rest| == |c.rest| && Measure(d) < Measure(c)))
  {
    var act := Act(Top(c), Look(c.rest));
    if act.Shift? {
      ShiftGood(c);
      if c.rest == [] {
        ShiftShrinks(c);
      }
    } else if act.Reduce? {
      ReduceFacts(c);
      ReduceGood(c);
      hide Act, Goto, Edge, Rank, Good, Rhs, yyr1, yyr2, Matches;
      RankStep(Top(c), c.states[|c.trees| - yyr2(act.rule)]);
      RuleShape(act.rule);
    }
  }

  lemma ShiftShrinks(c: Config)
    requires Good(c) && Act(Top(c), Look(c.rest)).Shift? && c.rest == []
    ensures var t := Act(Top(c), Look(c.rest)).state; 0 <= t < 40 && Measure(Shifted(c, t)) < Measure(c)
  {
    ActShape(Top(c), Look(c.rest));
    ShiftEdge(Top(c), Look(c.rest));
  }

  /** The parse from `c` on. */
  function Run(c: Config, limit: nat): Outcome
    requires Good(c)
    decreases |c.rest|, Measure(c)
  {
    StepKeeps(c, limit);
    match Step(c, limit)
    case Done(o) => o
    case Running(d) => Run(d, limit)
  }

  function Start(input: seq<Token>): Config {
    Config([0], [], Effective(input))
  }

  lemma {:induction false} EffectiveNoEnd(input: seq<Token>)
    ensures NoEnd(Effective(input))
  {
    if input != [] {
      EffectiveNoEnd(input[1..]);
    }
  }

  lemma StartGood(input: seq<Token>)
    ensures Good(Start(input))
  {
    EffectiveNoEnd(input);
  }

  // ---------------------------------------------------------------- soundness

  /** The tokens read are always those under the trees on the stack. */
  lemma StepYield(c: Config, limit: nat)
    requires Good(c) && Step(c, limit).Running?
    ensures var d := Step(c, limit).config; YieldAll(d.trees) + d.rest == YieldAll(c.trees) + c.rest
  {
    var act := Act(Top(c), Look(c.rest));
    if act.Shift? {
      ShiftGood(c);
      ShiftYield(c, act.state);
    } else {
      ReduceFacts(c);
      ReduceYield(c, act.rule);
    }
  }

  lemma ShiftYield(c: Config, t: State)
    requires NoEnd(c.rest)
    ensures var d := Shifted(c, t); YieldAll(d.trees) + d.rest == YieldAll(c.trees) + c.rest
  {
    var d := Shifted(c, t);
    var leaf := d.trees[|c.trees|];
    YieldAppend(c.trees, [leaf]);
    assert YieldAll([leaf]) == Yield(leaf) == if c.rest == [] then [] else [c.rest[0]];
  }

  lemma ReduceYield(c: Config, r: Rule)
    requires Linked(c) && yyr2(r) <= |c.trees|
    ensures YieldAll(Reduced(c, r).trees) == YieldAll(c.trees)
  {
    var n := |c.trees| - yyr2(r);
    var node := Node(r, c.trees[n..]);
    assert YieldAll([node]) == Yield(node) == YieldAll(c.trees[n..]);
    YieldAppend(c.trees[..n], [node]);
    YieldAppend(c.trees[..n], c.trees[n..]);
    assert c.trees[..n] + c.trees[n..] == c.trees;
  }

  /** What is accepted has a derivation from `top`. */
  lemma {:induction false} RunSound(c: Config, limit: nat)
    requires Good(c) && Run(c, limit).Parsed?
    ensures var t := Run(c, limit).tree;
      WellFormed(t) && Sym(t) == 8 && Yield(t) == YieldAll(c.trees) + c.rest
    decreases |c.rest|, Measure(c)
  {
    StepKeeps(c, limit);
    if Step(c, limit).Running? {
      StepYield(c, limit);
      RunSound(Step(c, limit).config, limit);
    } else {
      AcceptFacts(c);
      TwoTrees(c.trees);
    }
  }

  lemma TwoTrees(ts: seq<Tree>)
    requires |ts| == 2 && Sym(ts[1]) == 0 && WellFormed(ts[1])
    ensures YieldAll(ts) == Yield(ts[0])
  {
    LeafIsTerminal(ts[1]);
    assert YieldAll(ts[1..]) == Yield(ts[1]) + YieldAll(ts[1..][1..]);
  }

  lemma LeafIsTerminal(t: Tree)
    ensures t.Leaf? <==> !(8 <= Sym(t) <= 16)
    ensures t.Leaf? && Sym(t) == 0 ==> Yield(t) == []
  {
    if t.Node? {
      RuleShape(t.rule);
    }
  }

  // ---------------------------------------------------------------- completeness

  /** How many stack places a tree takes while it is being recognised. */
  function Height(t: Tree): nat {
    match t
    case Leaf(_) => 1
    case Node(_, ch) => Max(1, HeightAll(ch))
  }

  function HeightAll(ts: seq<Tree>): nat {
    if ts == [] then 0 else Max(Height(ts[0]), 1 + HeightAll(ts[1..]))
  }

  function Target(s: State, t: Tree): State {
    var u := Edge(s, Sym(t));
    if u < 0 then 0 else u
  }

  function Path(s: State, ts: seq<Tree>): seq<State>
    decreases |ts|
  {
    if ts == [] then [] else [Target(s, ts[0])] + Path(Target(s, ts[0]), ts[1..])
  }

  /** The stacks once `ts` have been recognised on top of `c`. */
  function Pushed(c: Config, ts: seq<Tree>, rest: seq<Token>): Config
    requires |c.states| > 0
  {
    Config(c.states + Path(Top(c), ts), c.trees + ts, rest)
  }

  lemma PushedOne(c: Config, t: Tree, rest: seq<Token>)
    requires |c.states| > 0
    ensures Pushed(c, [t], rest) == Config(c.states + [Target(Top(c), t)], c.trees + [t], rest)
  {
    assert Path(Target(Top(c), t), [t][1..]) == [];
  }

  lemma PushedMore(c: Config, ts: seq<Tree>, mid: seq<Token>, rest: seq<Token>)
    requires |c.states| > 0 && ts != []
    ensures |Pushed(c, [ts[0]], mid).states| > 0
    ensures Pushed(Pushed(c, [ts[0]], mid), ts[1..], rest) == Pushed(c, ts, rest)
  {
    PushedOne(c, ts[0], mid);
    assert [ts[0]] + ts[1..] == ts;
  }

  lemma StepRun(c: Config, limit: nat)
    requires Good(c) && Step(c, limit).Running?
    ensures Good(Step(c, limit).config) && Run(c, limit) == Run(Step(c, limit).config, limit)
  {
    StepKeeps(c, limit);
  }

  lemma DriveLeaf(c: Config, t: Tree, rest: seq<Token>, limit: nat)
    requires Good(c) && t.Leaf? && t.token.code > 0 && Edge(Top(c), Sym(t)) >= 0 && Top(c) != 38
    requires c.rest == [t.token] + rest
    ensures var d := Pushed(c, [t], rest);
      Good(d) && Run(c, limit) == if |c.states| + 1 >= limit then Overflow else Run(d, limit)
  {
    ActIsEdge(Top(c), Look(c.rest));
    ShiftGood(c);
    PushedOne(c, t, rest);
    assert c.rest[1..] == rest;
    hide Act, Edge, Path, Good, Run, WellFormed;
    if |c.states| + 1 < limit {
      StepRun(c, limit);
    } else {
      StepDone(c, limit);
    }
  }

  lemma StepDone(c: Config, limit: nat)
    requires Good(c) && Step(c, limit).Done?
    ensures Run(c, limit) == Step(c, limit).outcome
  {
    StepKeeps(c, limit);
  }

  /** The reduction that ends the recognition of a node. */
  lemma DriveReduce(c: Config, r: Rule, ch: seq<Tree>, rest: seq<Token>, limit: nat)
    requires |c.states| > 0 && |ch| == yyr2(r) && Edge(Top(c), yyr1(r)) >= 0 && |c.states| == |c.trees| + 1
    requires var d := Pushed(c, ch, rest);
      Good(d) && Act(Top(d), Look(rest)) == Reduce(r)
    ensures var e := Pushed(c, [Node(r, ch)], rest);
      Good(e) && Run(Pushed(c, ch, rest), limit) == if |c.states| + 1 >= limit then Overflow else Run(e, limit)
  {
    var d := Pushed(c, ch, rest);
    var e := Pushed(c, [Node(r, ch)], rest);
    hide Act, Run, Good, Goto, Edge, Path, Rhs, yyr1, yyr2;
    ReduceGood(d);
    ReducedIsPushed(c, r, ch, rest);
    if |c.states| + 1 < limit {
      StepRun(d, limit);
    } else {
      StepDone(d, limit);
    }
  }

  lemma ReducedIsPushed(c: Config, r: Rule, ch: seq<Tree>, rest: seq<Token>)
    requires |c.states| == |c.trees| + 1 && |ch| == yyr2(r) && Edge(Top(c), yyr1(r)) >= 0
    requires Linked(Pushed(c, ch, rest))
    ensures Reduced(Pushed(c, ch, rest), r) == Pushed(c, [Node(r, ch)], rest)
  {
    var d := Pushed(c, ch, rest);
    RuleShape(r);
    PushedOne(c, Node(r, ch), rest);
    GotoIsEdge(Top(c), yyr1(r));
    hide Goto, Edge, Path, Rhs, yyr1, yyr2, Linked;
    assert |d.trees| - yyr2(r) == |c.trees|;
    assert d.states[..|c.states|] == c.states;
    assert d.trees[..|c.trees|] == c.trees && d.trees[|c.trees|..] == ch;
  }

  /** A well-formed tree whose symbol the current state expects, followed by a token that can follow
      it, is recognised whole: its symbol and the state for it are pushed, unless the stack is too
      small. */
  lemma {:induction false} Drive(c: Config, t: Tree, rest: seq<Token>, limit: nat)
    requires Good(c) && WellFormed(t) && Edge(Top(c), Sym(t)) >= 0 && Sym(t) != 0
    requires c.rest == Yield(t) + rest && |c.states| < limit
    requires t.Node? ==> Follow(Sym(t), Look(rest))
    ensures var d := Pushed(c, [t], rest);
      if |c.states| + Height(t) >= limit then Run(c, limit) == Overflow
      else Good(d) && Run(c, limit) == Run(d, limit)
    decreases t, 1
  {
    match t {
      case Leaf(token) =>
        NotFinal(Top(c), Sym(t));
        hide Edge, Act;
        DriveLeaf(c, t, rest, limit);
      case Node(r, ch) =>
        StartItem(Top(c), r);
        hide Edge, Act, Has, Good, Run, Path;
        DriveAll(c, r, 0, ch, rest, limit);
        if |c.states| + HeightAll(ch) < limit {
          DriveEnd(Pushed(c, ch, rest), r);
          DriveReduce(c, r, ch, rest, limit);
        }
    }
  }

  lemma NotFinal(s: State, x: int)
    requires Edge(s, x) >= 0
    ensures s != 38
  {
  }

  lemma DriveEnd(d: Config, r: Rule)
    requires |d.states| > 0 && Has(Top(d), r, yyr2(r)) && Follow(yyr1(r), Look(d.rest))
    ensures Act(Top(d), Look(d.rest)) == Reduce(r)
  {
    CompleteItem(Top(d), r, Look(d.rest));
    ActIsEdge(Top(d), Look(d.rest));
    hide Act, Edge, Has, Follow, yyr1;
    assert r != 0;
  }

  lemma {:induction false} DriveAll(c: Config, r: Rule, i: nat, ts: seq<Tree>, rest: seq<Token>, limit: nat)
    requires Good(c) && Has(Top(c), r, i) && i + |ts| == yyr2(r) && Matches(r, i, ts) && AllWellFormed(ts)
    requires c.rest == YieldAll(ts) + rest && |c.states| < limit && Follow(yyr1(r), Look(rest))
    ensures var d := Pushed(c, ts, rest);
      if |c.states| + HeightAll(ts) >= limit then Run(c, limit) == Overflow
      else Good(d) && Has(Top(d), r, yyr2(r)) && Run(c, limit) == Run(d, limit)
    decreases ts, 0
  {
    assert |c.states| == |c.trees| + 1;
    if ts == [] {
      hide Run, Good, Has, Edge;
      assert YieldAll(ts) + rest == rest;
      PushedNone(c, rest);
    } else {
      var mid := YieldAll(ts[1..]) + rest;
      FirstOfMany(c, r, i, ts, rest);
      PushedMore(c, ts, mid, rest);
      var d := Pushed(c, [ts[0]], mid);
      HeightMore(ts);
      hide *;
      Drive(c, ts[0], mid, limit);
      if |c.states| + Height(ts[0]) < limit {
        DriveAll(d, r, i + 1, ts[1..], rest, limit);
      }
    }
  }

  /** What the recognition of the first of several symbols needs, and what it leaves for the others. */
  lemma FirstOfMany(c: Config, r: Rule, i: nat, ts: seq<Tree>, rest: seq<Token>)
    requires |c.states| > 0 && Has(Top(c), r, i) && i + |ts| == yyr2(r) && Matches(r, i, ts) && AllWellFormed(ts)
    requires ts != [] && c.rest == YieldAll(ts) + rest && Follow(yyr1(r), Look(rest))
    ensures var mid := YieldAll(ts[1..]) + rest; var d := Pushed(c, [ts[0]], mid);
      && WellFormed(ts[0]) && Edge(Top(c), Sym(ts[0])) >= 0 && Sym(ts[0]) != 0 && c.rest == Yield(ts[0]) + mid
      && (ts[0].Node? ==> Follow(Sym(ts[0]), Look(mid)))
      && |d.states| == |c.states| + 1 && Has(Top(d), r, i + 1) && d.rest == mid
      && Matches(r, i + 1, ts[1..]) && AllWellFormed(ts[1..])
      && Height(ts[0]) >= 1
  {
    hide Has, Edge, Follow, Rhs, yyr1, yyr2, WellFormed, Look;
    ForwardStep(Top(c), r, i);
    NextFollows(r, i, ts, rest);
    PushedOne(c, ts[0], YieldAll(ts[1..]) + rest);
    HeightPositive(ts[0]);
    hide Path;
    assert WellFormed(ts[0]);
    MatchesRest(r, i, ts);
  }

  lemma HeightMore(ts: seq<Tree>)
    requires ts != []
    ensures var a, b := Height(ts[0]), 1 + HeightAll(ts[1..]); HeightAll(ts) == (if a < b then b else a) && 1 <= a
  {
    HeightPositive(ts[0]);
  }

  lemma MatchesRest(r: Rule, i: nat, ts: seq<Tree>)
    requires ts != [] && Matches(r, i, ts)
    ensures Matches(r, i + 1, ts[1..])
  {
    forall k | 0 <= k < |ts[1..]| ensures Sym(ts[1..][k]) == Rhs(r, i + 1 + k) {
      assert Sym(ts[k + 1]) == Rhs(r, i + (k + 1));
    }
  }

  lemma PushedNone(c: Config, rest: seq<Token>)
    requires |c.states| > 0 && c.rest == rest
    ensures Pushed(c, [], rest) == c
  {
  }

  lemma HeightPositive(t: Tree)
    ensures Height(t) >= 1
  {
  }

  /** Inside a rule each symbol is followed by a token that can follow it. */
  lemma NextFollows(r: Rule, i: nat, ts: seq<Tree>, rest: seq<Token>)
    requires ts != [] && i + |ts| == yyr2(r) && Matches(r, i, ts) && AllWellFormed(ts)
    requires Follow(yyr1(r), Look(rest))
    ensures Sym(ts[0]) == Rhs(r, i) && 3 <= Sym(ts[0])
    ensures ts[0].Node? ==> Follow(Sym(ts[0]), Look(YieldAll(ts[1..]) + rest))
  {
    RuleShape(r);
    hide Follow, yyr1, Rhs, yyr2;
    assert Sym(ts[0]) == Rhs(r, i + 0);
    if ts[0].Node? {
      RuleShape(ts[0].rule);
      FollowStep(r, i);
      if |ts| == 1 {
        assert YieldAll(ts[1..]) + rest == rest;
      } else {
        assert Sym(ts[1]) == Rhs(r, i + 1);
        FollowTerminal(Rhs(r, i), Rhs(r, i + 1));
        LeafIsTerminal(ts[1]);
        FirstToken(ts[1]);
        assert YieldAll(ts[1..]) == Yield(ts[1]) + YieldAll(ts[1..][1..]);
      }
    }
  }

  lemma FollowTerminal(x: int, a: int)
    ensures Follow(x, a) ==> 0 <= a <= 7
  {
  }

  /** A terminal yields itself, and a definition starts with the keyword. */
  lemma {:induction false} FirstToken(t: Tree)
    requires WellFormed(t) && (t.Leaf? || Sym(t) == 10) && Sym(t) != 0
    ensures Yield(t) != [] && Look(Yield(t)) == if t.Leaf? then Sym(t) else DEFOP
  {
    if t.Node? {
      assert t.rule == 4;
      assert Sym(t.children[0]) == Rhs(4, 0 + 0);
      FirstToken(t.children[0]);
    }
  }

  lemma ParsesTree(input: seq<Token>, t: Tree, limit: nat)
    requires WellFormed(t) && Sym(t) == 8 && Yield(t) == Effective(input) && limit > 3
    ensures Good(Start(input))
    ensures Run(Start(input), limit) == if 1 + Height(t) >= limit then Overflow else Parsed(t)
  {
    var c := Start(input);
    StartGood(input);
    assert c.rest == Yield(t) + [] && Top(c) == 0 && Edge(0, 8) == 37 && t.Node? && Follow(8, 0);
    assert Look([]) == 0;
    hide Run, Good, Edge, Follow, WellFormed, Look, Path, Sym, Yield, Effective;
    Drive(c, t, [], limit);
    if 1 + Height(t) < limit {
      PushedTop(c, t);
      FinishTop(t, limit);
    }
  }

  lemma PushedTop(c: Config, t: Tree)
    requires c.states == [0] && c.trees == [] && Sym(t) == 8
    ensures Pushed(c, [t], []) == Config([0, 37], [t], [])
  {
    PushedOne(c, t, []);
    assert [] + [t] == [t] && [0] + [37] == [0, 37];
  }

  lemma FinishTop(t: Tree, limit: nat)
    requires Good(Config([0, 37], [t], [])) && limit > 3
    ensures Run(Config([0, 37], [t], []), limit) == Parsed(t)
  {
    var d := Config([0, 37], [t], []);
    var e := Config([0, 37, 38], [t, Leaf(Token(0, ""))], []);
    ActIsEdge(37, 0);
    ActInFinal(0);
    ShiftGood(d);
    assert Act(37, 0) == Shift(38);
    hide Act, Run, Good, WellFormed, Edge;
    assert Shifted(d, 38) == e;
    StepRun(d, limit);
    StepDone(e, limit);
  }

  // ---------------------------------------------------------------- the language

  ghost predicate Derives(t: Tree, input: seq<Token>) {
    WellFormed(t) && Sym(t) == 8 && Yield(t) == Effective(input)
  }

  function Parse(input: seq<Token>, limit: nat): Outcome {
    StartGood(input);
    Run(Start(input), limit)
  }

  /** The tree found is the derivation of the input, for exactly the inputs that have one that fits
      the stack. */
  lemma ParsesExactly(input: seq<Token>, t: Tree, limit: nat)
    requires limit > 3
    ensures Parse(input, limit) == Parsed(t) <==> Derives(t, input) && 1 + Height(t) < limit
    ensures Parse(input, limit) == SyntaxError ==> !Derives(t, input)
  {
    StartGood(input);
    var c := Start(input);
    assert YieldAll(c.trees) + c.rest == Effective(input);
    hide Run, Good, WellFormed, Yield, Effective, Sym, Height;
    if Derives(t, input) {
      ParsesTree(input, t, limit);
    }
    if Parse(input, limit) == Parsed(t) {
      RunSound(c, limit);
    }
  }

  /** Every token string has at most one derivation. */
  lemma Unambiguous(input: seq<Token>, a: Tree, b: Tree)
    requires Derives(a, input) && Derives(b, input)
    ensures a == b
  {
    var limit := 4 + Height(a) + Height(b);
    ParsesExactly(input, a, limit);
    ParsesExactly(input, b, limit);
  }
}
