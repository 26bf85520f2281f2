/**
 `yyparse` over its growable stacks, with the values that the actions make.
 */
module BiParser {
  import opened BiTables
  import opened BiGrammar
  import opened BiRun

  const YYEMPTY := -2
  const YYINITDEPTH := 200
  const YYMAXDEPTH := 10000

  datatype Variation = Variation(name: string, code: nat, inputs: seq<string>, outputs: seq<string>, literals: seq<string>)
  datatype Def = Def(basename: string, template: string, variations: seq<Variation>)

  /** The semantic values; a linked list is the sequence of its nodes. */
  datatype Value = NoValue | Text(text: string) | Nodes(nodes: seq<string>)
                 | Variations(variations: seq<Variation>) | Defs(defs: seq<Def>)

  function AsText(v: Value): string { if v.Text? then v.text else "" }
  function AsNodes(v: Value): seq<string> { if v.Nodes? then v.nodes else [] }
  function AsVariations(v: Value): seq<Variation> { if v.Variations? then v.variations else [] }
  function AsDefs(v: Value): seq<Def> { if v.Defs? then v.defs else [] }

  /** `makevar`: the codes are given out in order. */
  function MakeVar(name: Value, inputs: seq<string>, outputs: seq<string>, literals: seq<string>, n: nat): (Value, nat) {
    (Variations([Variation(AsText(name), n, inputs, outputs, literals)]), n + 1)
  }

  /** The action of a rule on the values of its right-hand side; `n` is `ndefs`. */
  function RunAction(r: Rule, v: seq<Value>, n: nat): (Value, nat)
    requires |v| == yyr2(r)
  {
    match r
    case 3 => (Defs(AsDefs(v[1]) + AsDefs(v[0])), n)
    case 4 => (Defs([Def(AsText(v[2]), AsText(v[4]), AsVariations(v[7]))]), n)
    case 6 => (Variations(AsVariations(v[2]) + AsVariations(v[0])), n)
    case 7 => MakeVar(v[1], [], [], [], n)
    case 8 => MakeVar(v[1], AsNodes(v[3]), [], [], n)
    case 9 => MakeVar(v[1], AsNodes(v[3]), AsNodes(v[5]), [], n)
    case 10 => MakeVar(v[1], AsNodes(v[3]), AsNodes(v[5]), AsNodes(v[7]), n)
    case 11 => (Text(""), n)
    case 13 => (v[1], n)
    case 14 => (Nodes([]), n)
    case 16 => (Nodes(AsNodes(v[0]) + AsNodes(v[2])), n)
    case 17 => (Nodes([AsText(v[0])]), n)
    case _ => (v[0], n)
  }

  /** The value of a derivation, and `ndefs` after it. */
  function Eval(t: Tree, n: nat): (Value, nat)
    decreases t, 1, 0
  {
    match t
    case Leaf(token) => (Text(token.text), n)
    case Node(r, ch) =>
      var e := EvalAll(ch, |ch|, n);
      if |ch| == yyr2(r) then RunAction(r, e.0, e.1) else (NoValue, n)
  }

  /** The values of the first `k` of `ts`, from left to right. */
  function EvalAll(ts: seq<Tree>, k: nat, n: nat): (e: (seq<Value>, nat))
    requires k <= |ts|
    ensures |e.0| == k
    decreases ts, 0, k
  {
    if k == 0 then ([], n)
    else
      var before := EvalAll(ts, k - 1, n);
      var last := Eval(ts[k - 1], before.1);
      (before.0 + [last.0], last.1)
  }

  lemma {:induction false} EvalPrefix(a: seq<Tree>, b: seq<Tree>, k: nat, n: nat)
    requires k <= |a| && k <= |b| && a[..k] == b[..k]
    ensures EvalAll(a, k, n) == EvalAll(b, k, n)
  {
    if k > 0 {
      assert a[..k - 1] == a[..k][..k - 1] == b[..k][..k - 1] == b[..k - 1];
      assert a[k - 1] == a[..k][k - 1] == b[..k][k - 1] == b[k - 1];
      EvalPrefix(a, b, k - 1, n);
    }
  }

  lemma {:induction false} EvalSplit(a: seq<Tree>, b: seq<Tree>, k: nat, n: nat)
    requires k <= |b|
    ensures var l := EvalAll(a, |a|, n); var r := EvalAll(b, k, l.1);
      EvalAll(a + b, |a| + k, n) == (l.0 + r.0, r.1)
  {
    if k == 0 {
      EvalPrefix(a + b, a, |a|, n);
      assert EvalAll(a, |a|, n).0 + [] == EvalAll(a, |a|, n).0;
    } else {
      EvalSplit(a, b, k - 1, n);
      assert (a + b)[|a| + k - 1] == b[k - 1];
      var l := EvalAll(a, |a|, n);
      var r := EvalAll(b, k - 1, l.1);
      var last := Eval(b[k - 1], r.1);
      assert l.0 + (r.0 + [last.0]) == (l.0 + r.0) + [last.0];
    }
  }

  /** A reduction replaces the values popped by the value of the rule's action. */
  lemma EvalReduced(a: seq<Tree>, r: Rule, ch: seq<Tree>, v: seq<Value>, m: nat, n: nat)
    requires |ch| == yyr2(r) && (v, m) == EvalAll(a + ch, |a + ch|, n)
    ensures |v| == |a| + |ch|
    ensures var w := RunAction(r, v[|a|..], m);
      EvalAll(a + [Node(r, ch)], |a| + 1, n) == (v[..|a|] + [w.0], w.1)
  {
    var l := EvalAll(a, |a|, n);
    EvalSplit(a, ch, |ch|, n);
    assert v == l.0 + EvalAll(ch, |ch|, l.1).0;
    assert v[..|a|] == l.0 && v[|a|..] == EvalAll(ch, |ch|, l.1).0;
    var node := Node(r, ch);
    EvalOne(node, l.1);
    EvalSplit(a, [node], 1, n);
  }

  lemma EvalOne(t: Tree, n: nat)
    ensures EvalAll([t], 1, n) == ([Eval(t, n).0], Eval(t, n).1)
  {
    var e := Eval(t, n);
    assert EvalAll([t], 0, n) == ([], n);
    assert [] + [e.0] == [e.0];
  }

  lemma EvalShifted(a: seq<Tree>, token: Token, n: nat)
    ensures var l := EvalAll(a, |a|, n);
      EvalAll(a + [Leaf(token)], |a| + 1, n) == (l.0 + [Text(token.text)], l.1)
  {
    EvalOne(Leaf(token), EvalAll(a, |a|, n).1);
    EvalSplit(a, [Leaf(token)], 1, n);
  }

  /** `values`, `ndefs` and `defs` are what the trees of `c` mean. */
  ghost predicate Means(values: seq<Value>, ndefs: nat, defs: seq<Def>, c: Config, first: nat)
    requires |c.states| > 0
  {
    && (Top(c) != 38 ==> EvalAll(c.trees, |c.trees|, first) == (values, ndefs))
    && (Top(c) == 37 || Top(c) == 38 ==> |c.trees| > 0 && defs == AsDefs(Eval(c.trees[0], first).0))
  }

  datatype Result = Success | Failure | StackOverflow

  class Parser {
    var yyss: array<int>
    var yyvs: array<Value>
    var size: nat
    var yychar: int
    var yylval: string
    const input: seq<Token>
    var position: nat
    var defs: seq<Def>
    var ndefs: nat

    constructor (input: seq<Token>, ndefs: nat)
      ensures this.input == input && this.ndefs == ndefs && fresh(yyss) && fresh(yyvs) && Ready()
    {
      this.input, this.ndefs, defs, position := input, ndefs, [], 0;
      yychar, yylval, size := YYEMPTY, "", 0;
      yyss := new int[YYINITDEPTH];
      yyvs := new Value[YYINITDEPTH](_ => NoValue);
    }

    ghost predicate Ready() reads this {
      yyss.Length == YYINITDEPTH && yyvs.Length == YYINITDEPTH && size == 0 && position == 0 && yychar == YYEMPTY
    }

    /** The two stacks have the same room and the same height; the place below the first value is
        wasted. */
    ghost predicate Valid() reads this {
      && yyss.Length == yyvs.Length <= YYMAXDEPTH && 1 <= size < yyss.Length
      && position <= |input|
      && (yychar == YYEMPTY || yychar >= 0)
    }

    ghost function States(): seq<int>
      reads this, yyss
      requires Valid()
    {
      yyss[..size]
    }

    ghost function Values(): seq<Value>
      reads this, yyvs
      requires Valid()
    {
      yyvs[1..size]
    }

    /** The tokens not shifted yet. */
    ghost function Remaining(): seq<Token>
      reads this`yychar, this`yylval, this`position
      requires position <= |input|
    {
      if yychar == YYEMPTY then Effective(input[position..])
      else if yychar == 0 then []
      else [Token(yychar, yylval)] + Effective(input[position..])
    }

    /** `yynewstate`: push the state over the value already there, growing both stacks when full. */
    method NewState(yystate: State) returns (overflow: bool)
      requires yyss.Length == yyvs.Length <= YYMAXDEPTH && size < yyss.Length && yyss.Length >= YYINITDEPTH
      modifies this`yyss, this`yyvs, this`size, yyss
      ensures overflow == (old(size) + 1 >= YYMAXDEPTH) && size == old(size) + 1
      ensures !overflow ==> yyss.Length == yyvs.Length <= YYMAXDEPTH && size < yyss.Length && yyss.Length >= YYINITDEPTH
      ensures !overflow ==> yyss[..size] == old(yyss[..size]) + [yystate]
      ensures !overflow ==> yyvs[..size] == old(yyvs[..size + 1])
      ensures yyss == old(yyss) || fresh(yyss)
      ensures yyvs == old(yyvs) || fresh(yyvs)
    {
      yyss[size] := yystate;
      size := size + 1;
      overflow := false;
      if size >= yyss.Length {
        if yyss.Length >= YYMAXDEPTH {
          overflow := true;
          return;
        }
        Grow(if 2 * yyss.Length > YYMAXDEPTH then YYMAXDEPTH else 2 * yyss.Length);
      }
    }

    /** Both stacks move to larger ones with their contents. */
    method Grow(yystacksize: nat)
      requires size == yyss.Length == yyvs.Length < yystacksize
      modifies this`yyss, this`yyvs
      ensures fresh(yyss) && fresh(yyvs) && yyss.Length == yyvs.Length == yystacksize
      ensures yyss[..size] == old(yyss[..size]) && yyvs[..size] == old(yyvs[..size])
    {
      var yyss1, yyvs1 := yyss, yyvs;
      yyss := new int[yystacksize];
      Copy(yyss1, yyss, size);
      yyvs := new Value[yystacksize](_ => NoValue);
      Copy(yyvs1, yyvs, size);
    }

    /** `yylex`, which reports the end of input with code 0. */
    method YyLex()
      requires position <= |input|
      modifies this`yychar, this`yylval, this`position
      ensures position <= |input|
      ensures Effective(input[old(position)..]) ==
              if yychar <= 0 then [] else [Token(yychar, yylval)] + Effective(input[position..])
    {
      if position < |input| {
        assert input[position..][1..] == input[position + 1..];
        yychar, yylval := input[position].code, input[position].text;
        position := position + 1;
      } else {
        yychar := 0;
      }
    }

    /** Read the lookahead unless it is there already. */
    method ReadAhead() returns (yychar1: Kind)
      requires Valid()
      modifies this`yychar, this`yylval, this`position
      ensures Valid() && yychar != YYEMPTY && Remaining() == old(Remaining()) && yychar1 == Look(Remaining())
    {
      if yychar == YYEMPTY {
        YyLex();
      }
      if yychar <= 0 {
        yychar := 0;
      }
      yychar1 := KindOf(yychar);
    }

    /** From `yybackup`: what to do in the state on top of the stack. A state with only a default does
        not read the lookahead. */
    method Decide() returns (act: Action)
      requires Valid() && 0 <= yyss[size - 1] < 40
      modifies this`yychar, this`yylval, this`position
      ensures Valid() && Remaining() == old(Remaining())
      ensures act == Act(yyss[size - 1], Look(Remaining()))
      ensures act.Shift? || act.Accept? ==> yychar != YYEMPTY
    {
      hide yypact, yytable, yycheck, yydefact, Effective, Look;
      var yystate := yyss[size - 1];
      var yyn := yypact(yystate);
      if yyn != YYFLAG {
        var yychar1 := ReadAhead();
        yyn := yyn + yychar1;
        if 0 <= yyn <= YYLAST && yycheck(yyn) == yychar1 {
          yyn := yytable(yyn);
          if yyn < 0 {
            return if yyn == YYFLAG then Error else Reduce(-yyn);
          }
          return if yyn == 0 then Error else if yyn == YYFINAL then Accept else Shift(yyn);
        }
      }
      act := DefaultAction(yystate);
    }

    /** The stacks hold the states and the values of the trees of `c`. */
    ghost predicate Represents(c: Config, first: nat)
      reads this, yyss, yyvs
    {
      && Valid() && yyss.Length >= YYINITDEPTH && Good(c) && States() == c.states && Remaining() == c.rest
      && Means(Values(), ndefs, defs, c, first)
    }

    /** Push the state that completes the stacks of `d`. */
    method Push(ghost d: Config, ghost first: nat, yystate: State) returns (overflow: bool)
      requires YYINITDEPTH <= yyss.Length == yyvs.Length <= YYMAXDEPTH && size < yyss.Length
      requires position <= |input| && (yychar == YYEMPTY || yychar >= 0)
      requires Good(d) && yyss[..size] + [yystate] == d.states && Remaining() == d.rest
      requires Means(yyvs[1..size + 1], ndefs, defs, d, first)
      modifies this`yyss, this`yyvs, this`size, yyss
      ensures yyss == old(yyss) || fresh(yyss)
      ensures yyvs == old(yyvs) || fresh(yyvs)
      ensures overflow == (|d.states| >= YYMAXDEPTH) && (!overflow ==> Represents(d, first))
    {
      hide Good, EvalAll, Eval, Effective;
      overflow := NewState(yystate);
      if !overflow {
        assert yyvs[..size][1..] == yyvs[1..size];
      }
    }

    /** Shift the lookahead, which stays when it is the end of input. */
    method ShiftToken(ghost c: Config, ghost first: nat, t: State) returns (overflow: bool)
      requires Represents(c, first) && yychar != YYEMPTY
      requires Act(Top(c), Look(c.rest)) == Shift(t)
      modifies this, yyss, yyvs
      ensures yyss == old(yyss) || fresh(yyss)
      ensures yyvs == old(yyvs) || fresh(yyvs)
      ensures overflow == (|c.states| + 1 >= YYMAXDEPTH)
      ensures !overflow ==> Represents(Shifted(c, t), first)
    {
      ghost var token := if c.rest == [] then Token(0, "") else c.rest[0];
      ShiftedFacts(c, t);
      EvalShifted(c.trees, token, first);
      hide Act, Edge, Good, Eval, EvalAll, Effective;
      ghost var values := Values();
      if yychar != 0 {
        yychar := YYEMPTY;
      }
      yyvs[size] := Text(yylval);
      assert yyvs[1..size + 1] == values + [Text(yylval)];
      overflow := Push(Shifted(c, t), first, t);
    }

    /** Reduce by rule `r`: run its action, pop its right-hand side and push the result. */
    method ReduceBy(ghost c: Config, ghost first: nat, r: int) returns (overflow: bool)
      requires Represents(c, first)
      requires Act(Top(c), Look(c.rest)) == Reduce(r)
      modifies this, yyss, yyvs
      ensures yyss == old(yyss) || fresh(yyss)
      ensures yyvs == old(yyvs) || fresh(yyvs)
      ensures 1 <= r <= 17 && yyr2(r) <= |c.trees|
      ensures overflow == (|Reduced(c, r).states| >= YYMAXDEPTH)
      ensures !overflow ==> Represents(Reduced(c, r), first)
    {
      ReducedFacts(c, r);
      ghost var d := Reduced(c, r);
      hide Act, Good, Edge, Goto, Effective, yyr1, yyr2, Reduced, Look;
      PopFor(c, d, first, r);
      var yystate := Goto(yyss[size - 1], yyr1(r));
      overflow := Push(d, first, yystate);
    }

    /** The values come to be those of the reduced stack, whose state is not pushed yet. */
    method PopFor(ghost c: Config, ghost d: Config, ghost first: nat, r: Rule)
      requires Represents(c, first) && 0 <= yyr2(r) <= |c.trees| && Top(c) != 38 && d == Reduced(c, r)
      requires |d.states| > 0 && Top(d) != 38 && (Top(d) == 37 ==> r == 1 && |c.trees| == yyr2(r))
      modifies yyvs, this`size, this`ndefs, this`defs
      ensures 1 <= size < yyss.Length && size == |c.trees| - yyr2(r) + 1
      ensures yyss[..size] == c.states[..size] && Remaining() == c.rest
      ensures Means(yyvs[1..size + 1], ndefs, defs, d, first)
    {
      ghost var v := Values();
      ReducedMeans(c, r, v, ndefs, defs, first);
      assert yyss[..size] == c.states && Remaining() == c.rest && |v| == size - 1 == |c.trees|;
      hide *;
      RunRule(r, v);
      assert c.states[..size] == yyss[..size];
    }

    /** The values of the right-hand side give way to that of the action. */
    method RunRule(r: Rule, ghost v: seq<Value>)
      requires 0 <= yyr2(r) < size < yyvs.Length && v == yyvs[1..size]
      modifies yyvs, this`size, this`ndefs, this`defs
      ensures size == old(size) - yyr2(r)
      ensures var n := |v| - yyr2(r); var w := RunAction(r, v[n..], old(ndefs));
        && ndefs == w.1 && defs == (if r == 1 then AsDefs(v[n]) else old(defs))
        && yyvs[1..size + 1] == v[..n] + [w.0]
    {
      var yylen := yyr2(r);
      var popped := yyvs[size - yylen..size];
      assert popped == v[size - 1 - yylen..];
      var (yyval, m) := RunAction(r, popped, ndefs);
      hide RunAction;
      ndefs := m;
      if r == 1 {
        defs := AsDefs(popped[0]);
      }
      size := size - yylen;
      yyvs[size] := yyval;
    }

    /** `Decide`, with the values where they were. */
    method Choose(ghost c: Config, ghost first: nat) returns (act: Action)
      requires Represents(c, first)
      modifies this`yychar, this`yylval, this`position
      ensures Represents(c, first) && act == Act(Top(c), Look(c.rest))
      ensures act.Shift? || act.Accept? ==> yychar != YYEMPTY
      ensures Top(c) == 38 && |c.trees| > 0 ==> Reports(Success, Parsed(c.trees[0]), first)
    {
      hide Act, Good, EvalAll, Eval, Effective, Look;
      act := Decide();
    }

    /** From one `yynewstate` to the next. */
    method Turn(ghost c: Config, ghost first: nat) returns (done: bool, r: Result)
      requires Represents(c, first)
      modifies this, yyss, yyvs
      ensures yyss == old(yyss) || fresh(yyss)
      ensures yyvs == old(yyvs) || fresh(yyvs)
      ensures match Step(c, YYMAXDEPTH)
        case Running(d) => !done && Represents(d, first)
        case Done(o) => done && Reports(r, o, first)
    {
      StepFacts(c);
      assert Good(c) && |c.states| > 0;
      hide Act, Good, Reduced, Shifted, Step, Represents, Reports, Look;
      var act := Choose(c, first);
      r := StackOverflow;
      match act {
        case Shift(t) =>
          done := ShiftToken(c, first, t);
        case Reduce(n) =>
          done := ReduceBy(c, first, n);
        case Accept =>
          return true, Success;
        case Error =>
          return true, Failure;
      }
    }

    ghost predicate Reports(r: Result, o: Outcome, first: nat)
      reads this
    {
      match o
      case Parsed(t) => r == Success && defs == AsDefs(Eval(t, first).0)
      case SyntaxError => r == Failure
      case Overflow => r == StackOverflow
    }

    /** `yyparse` */
    method YyParse() returns (r: Result)
      requires Ready()
      modifies this, yyss, yyvs
      ensures Reports(r, Parse(input, YYMAXDEPTH), old(ndefs))
    {
      ghost var c, first := Start(input), ndefs;
      StartGood(input);
      assert input[0..] == input && [] + [0] == c.states;
      assert yyvs[1..size + 1] == [];
      r := StackOverflow;
      assert yyss[..size] == [] && Remaining() == c.rest && Means(yyvs[1..size + 1], ndefs, defs, c, first);
      var done := Push(c, first, 0);
      hide Good, Represents, EvalAll, Eval, Effective, Step;
      while !done
        invariant Good(c) && Run(c, YYMAXDEPTH) == Parse(input, YYMAXDEPTH)
        invariant !done ==> Represents(c, first)
        invariant done ==> Reports(r, Parse(input, YYMAXDEPTH), first)
        invariant yyss == old(yyss) || fresh(yyss)
        invariant yyvs == old(yyvs) || fresh(yyvs)
        decreases if done then 0 else 1, |c.rest|, Measure(c)
      {
        StepKeeps(c, YYMAXDEPTH);
        done, r := Turn(c, first);
        match Step(c, YYMAXDEPTH) {
          case Running(d) => c := d;
          case Done(o) =>
        }
      }
    }
  }

  /** What a turn does, by the action. */
  lemma StepFacts(c: Config)
    requires Good(c)
    ensures var act := Act(Top(c), Look(c.rest));
      && (act.Shift? ==> 0 <= act.state < 40 && |Shifted(c, act.state).states| == |c.states| + 1
                         && Step(c, YYMAXDEPTH) == Enter(Shifted(c, act.state), YYMAXDEPTH))
      && (act.Reduce? ==> 1 <= act.rule <= 17 && yyr2(act.rule) <= |c.trees|
                          && Step(c, YYMAXDEPTH) == Enter(Reduced(c, act.rule), YYMAXDEPTH))
      && (act.Accept? ==> Top(c) == 38 && |c.trees| > 0 && Step(c, YYMAXDEPTH) == Done(Parsed(c.trees[0])))
  {
    var act := Act(Top(c), Look(c.rest));
    if act.Shift? {
      ShiftGood(c);
    } else if act.Reduce? {
      ReduceFacts(c);
    } else if act.Accept? {
      AcceptFacts(c);
    }
  }

  /** The values of the reduced stack. */
  lemma ReducedValues(c: Config, r: Rule, values: seq<Value>, m: nat, first: nat)
    requires Linked(c) && 0 <= yyr2(r) <= |c.trees| && (values, m) == EvalAll(c.trees, |c.trees|, first)
    ensures var n := |c.trees| - yyr2(r); var d := Reduced(c, r);
      && |values| == |c.trees| && |d.trees| == n + 1
      && (var w := RunAction(r, values[n..], m); EvalAll(d.trees, n + 1, first) == (values[..n] + [w.0], w.1))
      && (r == 1 && n == 0 ==> Eval(d.trees[0], first).0 == values[0])
  {
    var ts, n := c.trees, |c.trees| - yyr2(r);
    assert ts[..n] + ts[n..] == ts;
    if r == 1 && n == 0 {
      TopValue(ts, values, m, first);
      assert ts[..0] == [] && ts[0..] == ts;
    }
    hide RunAction, yyr1, yyr2, Linked, Goto, Eval;
    EvalReduced(ts[..n], r, ts[n..], values, m, first);
  }

  lemma ReducedMeans(c: Config, r: Rule, values: seq<Value>, m: nat, defs: seq<Def>, first: nat)
    requires Linked(c) && 0 <= yyr2(r) <= |c.trees| && Top(c) != 38 && Means(values, m, defs, c, first)
    requires var d := Reduced(c, r); Top(d) != 38 && (Top(d) == 37 ==> r == 1 && |c.trees| == yyr2(r))
    ensures |values| == |c.trees|
    ensures var n := |values| - yyr2(r); var w := RunAction(r, values[n..], m);
      Means(values[..n] + [w.0], w.1, if r == 1 then AsDefs(values[n]) else defs, Reduced(c, r), first)
  {
    hide RunAction, Linked, Eval, EvalAll, Goto, AsDefs, yyr1;
    ReducedValues(c, r, values, m, first);
    assert yyr2(1) == 1;
    hide Reduced, yyr2;
  }

  lemma TopValue(ts: seq<Tree>, values: seq<Value>, m: nat, first: nat)
    requires |ts| == 1 && (values, m) == EvalAll(ts, 1, first)
    ensures |values| == 1 && Eval(([] + [Node(1, ts)])[0], first).0 == values[0]
  {
  }

  lemma ReducedFacts(c: Config, r: int)
    requires Good(c) && Act(Top(c), Look(c.rest)) == Reduce(r)
    ensures 1 <= r <= 17 && 0 <= yyr2(r) <= |c.trees| && 8 <= yyr1(r) <= 16 && Top(c) != 38
    ensures var n := |c.trees| - yyr2(r); var d := Reduced(c, r);
      && 0 <= Goto(c.states[n], yyr1(r)) < 40 && d.states == c.states[..n + 1] + [Goto(c.states[n], yyr1(r))]
      && Good(d) && Top(d) != 38 && (Top(d) == 37 ==> r == 1 && n == 0)
      && d.rest == c.rest && d.trees == c.trees[..n] + [Node(r, c.trees[n..])]
  {
    ActShape(Top(c), Look(c.rest));
    ReduceFacts(c);
    ReduceGood(c);
    RuleShape(r);
    OnlyTop(r);
    hide Act, Goto, Edge, Rhs, yyr1, yyr2, Sym, WellFormed, Look;
    var n := |c.trees| - yyr2(r);
    IntoFinal(c.states[n], yyr1(r));
    if n > 0 {
      assert OkLink(c, n - 1);
      IntoFinal(c.states[n - 1], Sym(c.trees[n - 1]));
    }
  }

  lemma OnlyTop(r: Rule)
    ensures yyr1(r) == 8 ==> r == 1
  {
  }

  lemma ShiftedFacts(c: Config, t: State)
    requires Good(c) && Act(Top(c), Look(c.rest)) == Shift(t)
    ensures Good(Shifted(c, t)) && Top(Shifted(c, t)) == t && t != 37 && Top(c) != 38
    ensures (t == 38) == (c.rest == []) && (t == 38 ==> Top(c) == 37)
  {
    ShiftGood(c);
    ShiftEdge(Top(c), Look(c.rest));
    IntoFinal(Top(c), Look(c.rest));
    if Top(c) == 38 {
      ActInFinal(Look(c.rest));
    }
    assert (Look(c.rest) == 0) == (c.rest == []);
    hide Act, Edge, Good;
  }

  /** `__yy_bcopy`, in elements. */
  method Copy<T>(from: array<T>, to: array<T>, count: nat)
    requires count <= from.Length && count <= to.Length && from != to
    modifies to
    ensures to[..count] == from[..count]
  {
    var i := 0;
    while i < count
      invariant 0 <= i <= count && to[..i] == from[..i]
    {
      to[i] := from[i];
      i := i + 1;
    }
  }
}
