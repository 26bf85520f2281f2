/**
 The tables of the parser for bytecode definition files, and what the automaton in them looks like.
 */
module BiTables {
  const YYFINAL := 39
  const YYFLAG := -32768
  const YYNTBASE := 8
  const YYLAST := 35

  function yyprhs(i: int): int {
    match i
    case 2 => 2 case 3 => 4 case 4 => 7 case 5 => 18 case 6 => 20 case 7 => 24 case 8 => 28
    case 9 => 34 case 10 => 42 case 11 => 52 case 12 => 53 case 13 => 55 case 14 => 59 case 15 => 60
    case 16 => 62 case 17 => 66 case _ => 0
  }

  function yyrhs(i: int): int {
    match i
    case 0 => 9 case 2 => 10 case 4 => 9 case 5 => 10 case 7 => 3 case 8 => 5 case 9 => 4
    case 10 => 6 case 11 => 13 case 12 => 6 case 13 => 5 case 14 => 11 case 15 => 7 case 16 => 7
    case 18 => 12 case 20 => 11 case 21 => 6 case 22 => 12 case 24 => 5 case 25 => 13 case 26 => 7
    case 28 => 5 case 29 => 13 case 30 => 6 case 31 => 14 case 32 => 7 case 34 => 5 case 35 => 13
    case 36 => 6 case 37 => 14 case 38 => 6 case 39 => 14 case 40 => 7 case 42 => 5 case 43 => 13
    case 44 => 6 case 45 => 14 case 46 => 6 case 47 => 14 case 48 => 6 case 49 => 14 case 50 => 7
    case 53 => 4 case 55 => 5 case 56 => 15 case 57 => 7 case 60 => 16 case 62 => 16 case 63 => 6
    case 64 => 15 case 66 => 4 case _ => 0
  }

  function yyr1(i: int): int {
    match i
    case 0 => 0 case 1 => 8 case 2 => 9 case 3 => 9 case 4 => 10 case 5 => 11 case 6 => 11
    case 11 => 13 case 12 => 13 case 13 => 14 case 14 => 14 case 15 => 15 case 16 => 15
    case 17 => 16 case _ => 12
  }

  function yyr2(i: int): int {
    match i
    case 0 => 0 case 3 => 2 case 4 => 10 case 6 => 3 case 7 => 3 case 8 => 5 case 9 => 7
    case 10 => 9 case 11 => 0 case 13 => 3 case 14 => 0 case 16 => 3 case _ => 1
  }

  function yydefact(i: int): int {
    match i
    case 2 => 1 case 3 => 2 case 5 => 3 case 7 => 11 case 8 => 12 case 12 => 11 case 14 => 5
    case 18 => 14 case 19 => 7 case 20 => 6 case 21 => 4 case 24 => 17 case 26 => 15 case 27 => 14
    case 28 => 8 case 29 => 13 case 32 => 16 case 33 => 14 case 34 => 9 case 36 => 10 case _ => 0
  }

  function yydefgoto(i: int): int {
    match i
    case 1 => 2 case 2 => 3 case 3 => 13 case 4 => 14 case 5 => 9 case 6 => 23 case 7 => 25
    case 8 => 26 case _ => 37
  }

  function yypact(i: int): int {
    match i
    case 0 => 2 case 1 => 6 case 2 => 2 case 4 => 8 case 6 => 7 case 7 => 10 case 9 => 9
    case 10 => 11 case 11 => 12 case 12 => 10 case 13 => -5 case 15 => -3 case 16 => 12
    case 17 => 13 case 18 => 14 case 22 => 17 case 23 => 1 case 25 => 15 case 26 => 18 case 27 => 14
    case 30 => 17 case 31 => 3 case 33 => 14 case 35 => 16 case 37 => 25 case 38 => 26
    case _ => -32768
  }

  function yypgoto(i: int): int {
    match i
    case 2 => 27 case 4 => 19 case 5 => 20 case 6 => -27 case 7 => -12 case _ => -32768
  }

  function yytable(i: int): int {
    match i
    case 0 => 31 case 1 => 16 case 2 => 17 case 3 => 18 case 4 => 19 case 5 => 1 case 6 => 35
    case 7 => 27 case 8 => 28 case 9 => 33 case 10 => 34 case 11 => 4 case 12 => 6 case 13 => 7
    case 14 => 8 case 15 => 10 case 16 => 11 case 17 => 12 case 18 => 32 case 19 => 22 case 20 => 21
    case 21 => 24 case 22 => 29 case 23 => 36 case 24 => 30 case 25 => 38 case 26 => 39 case 29 => 5
    case 32 => 15 case 35 => 20 case _ => 0
  }

  function yycheck(i: int): int {
    match i
    case 0 => 27 case 2 => 7 case 4 => 7 case 5 => 3 case 6 => 33 case 8 => 7 case 10 => 7
    case 11 => 5 case 12 => 4 case 14 => 4 case 16 => 5 case 17 => 5 case 18 => 30 case 19 => 5
    case 20 => 7 case 21 => 4 case 22 => 7 case 23 => 7 case 25 => 0 case 26 => 0 case 27 => -1
    case 28 => -1 case 29 => 2 case 30 => -1 case 31 => -1 case 32 => 12 case 33 => -1 case 34 => -1
    case 35 => 16 case _ => 6
  }

  const DEFOP := 3
  const STRING := 4
  const LP := 5
  const COMMA := 6
  const RP := 7

  type State = s: int | 0 <= s < 40
  /** A token in internal form; 17 is the number of every token out of range. */
  type Kind = a: int | 0 <= a <= 7 || a == 17
  type NonTerminal = x: int | 8 <= x <= 16 witness 8

  datatype Action = Shift(state: int) | Reduce(rule: int) | Accept | Error

  function DefaultAction(s: State): Action {
    if yydefact(s) == 0 then Error else Reduce(yydefact(s))
  }

  /** What the parser does in state `s` when the lookahead is `a`. */
  function Act(s: State, a: Kind): Action {
    var yyn := yypact(s);
    if yyn == YYFLAG then DefaultAction(s)
    else
      var i := yyn + a;
      if i < 0 || i > YYLAST || yycheck(i) != a then DefaultAction(s)
      else
        var n := yytable(i);
        if n < 0 then (if n == YYFLAG then Error else Reduce(-n))
        else if n == 0 then Error
        else if n == YYFINAL then Accept
        else Shift(n)
  }

  /** The state entered when `x` has been made in state `p`. */
  function Goto(p: State, x: NonTerminal): int {
    var i := yypgoto(x - YYNTBASE) + p;
    if 0 <= i <= YYLAST && yycheck(i) == p then yytable(i) else yydefgoto(x - YYNTBASE)
  }

  /** The transitions of the automaton, by state and symbol; -1 when there is none. */
  function Edge(s: State, x: int): (t: int)
    ensures -1 <= t < 40
  {
    match s
    case 0 => if x == 3 then 1 else if x == 8 then 37 else if x == 9 then 2 else if x == 10 then 3 else -1
    case 1 => if x == LP then 4 else -1
    case 2 => if x == 3 then 1 else if x == 10 then 5 else -1
    case 4 => if x == 4 then 6 else -1
    case 6 => if x == COMMA then 7 else -1
    case 7 => if x == 4 then 8 else if x == 13 then 9 else -1
    case 9 => if x == COMMA then 10 else -1
    case 10 => if x == LP then 11 else -1
    case 11 => if x == LP then 12 else if x == 11 then 13 else if x == 12 then 14 else -1
    case 12 => if x == 4 then 8 else if x == 13 then 15 else -1
    case 13 => if x == COMMA then 16 else if x == RP then 17 else -1
    case 15 => if x == COMMA then 18 else if x == RP then 19 else -1
    case 16 => if x == LP then 12 else if x == 12 then 20 else -1
    case 17 => if x == RP then 21 else -1
    case 18 => if x == LP then 22 else if x == 14 then 23 else -1
    case 22 => if x == 4 then 24 else if x == 15 then 25 else if x == 16 then 26 else -1
    case 23 => if x == COMMA then 27 else if x == RP then 28 else -1
    case 25 => if x == RP then 29 else -1
    case 26 => if x == COMMA then 30 else -1
    case 27 => if x == LP then 22 else if x == 14 then 31 else -1
    case 30 => if x == 4 then 24 else if x == 15 then 32 else if x == 16 then 26 else -1
    case 31 => if x == COMMA then 33 else if x == RP then 34 else -1
    case 33 => if x == LP then 22 else if x == 14 then 35 else -1
    case 35 => if x == RP then 36 else -1
    case 37 => if x == 0 then 38 else -1
    case _ => -1
  }

  /** The item sets: does state `s` expect rule `r` with `i` symbols of its right-hand side seen? */
  predicate Has(s: State, r: int, i: int) {
    match s
    case 0 => 1 <= r <= 4 && i == 0
    case 1 => r == 4 && i == 1
    case 2 => (r == 1 && i == 1) || (r == 3 && i == 1) || (r == 4 && i == 0)
    case 3 => r == 2 && i == 1
    case 4 => r == 4 && i == 2
    case 5 => r == 3 && i == 2
    case 6 => r == 4 && i == 3
    case 7 => (r == 4 && i == 4) || (11 <= r <= 12 && i == 0)
    case 8 => r == 12 && i == 1
    case 9 => r == 4 && i == 5
    case 10 => r == 4 && i == 6
    case 11 => (r == 4 && i == 7) || (5 <= r <= 10 && i == 0)
    case 12 => (7 <= r <= 10 && i == 1) || (11 <= r <= 12 && i == 0)
    case 13 => (r == 4 && i == 8) || (r == 6 && i == 1)
    case 14 => r == 5 && i == 1
    case 15 => 7 <= r <= 10 && i == 2
    case 16 => (r == 6 && i == 2) || (7 <= r <= 10 && i == 0)
    case 17 => r == 4 && i == 9
    case 18 => (8 <= r <= 10 && i == 3) || (13 <= r <= 14 && i == 0)
    case 19 => r == 7 && i == 3
    case 20 => r == 6 && i == 3
    case 21 => r == 4 && i == 10
    case 22 => (r == 13 && i == 1) || (15 <= r <= 17 && i == 0)
    case 23 => 8 <= r <= 10 && i == 4
    case 24 => r == 17 && i == 1
    case 25 => r == 13 && i == 2
    case 26 => 15 <= r <= 16 && i == 1
    case 27 => (9 <= r <= 10 && i == 5) || (13 <= r <= 14 && i == 0)
    case 28 => r == 8 && i == 5
    case 29 => r == 13 && i == 3
    case 30 => (r == 16 && i == 2) || (15 <= r <= 17 && i == 0)
    case 31 => 9 <= r <= 10 && i == 6
    case 32 => r == 16 && i == 3
    case 33 => (r == 10 && i == 7) || (13 <= r <= 14 && i == 0)
    case 34 => r == 9 && i == 7
    case 35 => r == 10 && i == 8
    case 36 => r == 10 && i == 9
    case _ => false
  }

  type Rule = r: int | 1 <= r <= 17 witness 1

  /** Symbol `i` of the right-hand side of rule `r`. */
  function Rhs(r: int, i: int): int {
    yyrhs(yyprhs(r) + i)
  }

  /** The terminals that can come after `x`. */
  predicate Follow(x: int, a: int) {
    match x
    case 8 => a == 0
    case 9 => a == 0 || a == DEFOP
    case 10 => a == 0 || a == DEFOP
    case 15 => a == RP
    case _ => 11 <= x <= 16 && (a == COMMA || a == RP)
  }

  lemma RuleShape(r: Rule)
    ensures Rhs(r, yyr2(r)) == 0 && 8 <= yyr1(r) <= 16 && 0 <= yyr2(r) <= 10
    ensures forall i :: 0 <= i < yyr2(r) ==> 3 <= Rhs(r, i) <= 16 && Rhs(r, i) != 8
  {
  }

  lemma ActIsEdge(s: State, a: Kind)
    requires s != 38
    ensures Act(s, a) == if Edge(s, a) >= 0 then Shift(Edge(s, a)) else DefaultAction(s)
  {
    if s < 6 {
      ActIsEdge1(s, a);
    } else if s < 12 {
      ActIsEdge2(s, a);
    } else if s < 18 {
      ActIsEdge3(s, a);
    } else if s < 24 {
      ActIsEdge4(s, a);
    } else if s < 28 {
      ActIsEdge5(s, a);
    } else if s < 33 {
      ActIsEdge6(s, a);
    } else {
      ActIsEdge7(s, a);
    }
  }

  lemma ActIsEdge1(s: State, a: Kind)
    requires s < 6 && s != 38
    ensures Act(s, a) == if Edge(s, a) >= 0 then Shift(Edge(s, a)) else DefaultAction(s)
  {
  }

  lemma ActIsEdge2(s: State, a: Kind)
    requires 6 <= s < 12 && s != 38
    ensures Act(s, a) == if Edge(s, a) >= 0 then Shift(Edge(s, a)) else DefaultAction(s)
  {
  }

  lemma ActIsEdge3(s: State, a: Kind)
    requires 12 <= s < 18 && s != 38
    ensures Act(s, a) == if Edge(s, a) >= 0 then Shift(Edge(s, a)) else DefaultAction(s)
  {
  }

  lemma ActIsEdge4(s: State, a: Kind)
    requires 18 <= s < 24 && s != 38
    ensures Act(s, a) == if Edge(s, a) >= 0 then Shift(Edge(s, a)) else DefaultAction(s)
  {
  }

  lemma ActIsEdge5(s: State, a: Kind)
    requires 24 <= s < 28 && s != 38
    ensures Act(s, a) == if Edge(s, a) >= 0 then Shift(Edge(s, a)) else DefaultAction(s)
  {
  }

  lemma ActIsEdge6(s: State, a: Kind)
    requires 28 <= s < 33 && s != 38
    ensures Act(s, a) == if Edge(s, a) >= 0 then Shift(Edge(s, a)) else DefaultAction(s)
  {
  }

  lemma ActIsEdge7(s: State, a: Kind)
    requires 33 <= s && s != 38
    ensures Act(s, a) == if Edge(s, a) >= 0 then Shift(Edge(s, a)) else DefaultAction(s)
  {
  }

  lemma ActInFinal(a: Kind)
    ensures Act(38, a) == if a == 0 then Accept else Error
  {
  }

  lemma GotoIsEdge(p: State, x: NonTerminal)
    requires Edge(p, x) >= 0
    ensures Goto(p, x) == Edge(p, x)
  {
  }

  lemma BackStep(q: State, x: int, r: int, i: int)
    requires Edge(q, x) >= 0 && Has(Edge(q, x), r, i) && i >= 1
    ensures x == Rhs(r, i - 1) && Has(q, r, i - 1)
  {
    if q < 2 {
      BackStep1(q, x, r, i);
    } else if q < 4 {
      BackStep2(q, x, r, i);
    } else if q < 9 {
      BackStep3(q, x, r, i);
    } else if q < 16 {
      BackStep4(q, x, r, i);
    } else if q < 24 {
      BackStep5(q, x, r, i);
    } else {
      BackStep6(q, x, r, i);
    }
  }

  lemma BackStep1(q: State, x: int, r: int, i: int)
    requires q < 2 && Edge(q, x) >= 0 && Has(Edge(q, x), r, i) && i >= 1
    ensures x == Rhs(r, i - 1) && Has(q, r, i - 1)
  {
  }

  lemma BackStep2(q: State, x: int, r: int, i: int)
    requires 2 <= q < 4 && Edge(q, x) >= 0 && Has(Edge(q, x), r, i) && i >= 1
    ensures x == Rhs(r, i - 1) && Has(q, r, i - 1)
  {
  }

  lemma BackStep3(q: State, x: int, r: int, i: int)
    requires 4 <= q < 9 && Edge(q, x) >= 0 && Has(Edge(q, x), r, i) && i >= 1
    ensures x == Rhs(r, i - 1) && Has(q, r, i - 1)
  {
  }

  lemma BackStep4(q: State, x: int, r: int, i: int)
    requires 9 <= q < 16 && Edge(q, x) >= 0 && Has(Edge(q, x), r, i) && i >= 1
    ensures x == Rhs(r, i - 1) && Has(q, r, i - 1)
  {
  }

  lemma BackStep5(q: State, x: int, r: int, i: int)
    requires 16 <= q < 24 && Edge(q, x) >= 0 && Has(Edge(q, x), r, i) && i >= 1
    ensures x == Rhs(r, i - 1) && Has(q, r, i - 1)
  {
  }

  lemma BackStep6(q: State, x: int, r: int, i: int)
    requires 24 <= q && Edge(q, x) >= 0 && Has(Edge(q, x), r, i) && i >= 1
    ensures x == Rhs(r, i - 1) && Has(q, r, i - 1)
  {
  }

  lemma ForwardStep(q: State, r: int, i: int)
    requires Has(q, r, i) && i < yyr2(r)
    ensures Edge(q, Rhs(r, i)) >= 0 && Has(Edge(q, Rhs(r, i)), r, i + 1)
  {
  }

  lemma DefaultItem(s: State)
    requires yydefact(s) != 0
    ensures 1 <= yydefact(s) <= 17 && Has(s, yydefact(s), yyr2(yydefact(s)))
  {
  }

  lemma StartItem(s: State, r: Rule)
    ensures Has(s, r, 0) <==> Edge(s, yyr1(r)) >= 0
  {
  }

  lemma CompleteItem(s: State, r: Rule, a: int)
    requires Has(s, r, yyr2(r)) && Follow(yyr1(r), a)
    ensures s != 38 && yydefact(s) == r && Edge(s, a) < 0
  {
  }

  lemma FollowStep(r: Rule, i: int)
    requires 0 <= i < yyr2(r) && 8 <= Rhs(r, i)
    ensures i + 1 == yyr2(r) ==> forall a :: Follow(yyr1(r), a) ==> Follow(Rhs(r, i), a)
    ensures i + 1 < yyr2(r) ==> Follow(Rhs(r, i), Rhs(r, i + 1)) || (Rhs(r, i + 1) == 10 && Follow(Rhs(r, i), DEFOP))
  {
  }

  /** What a state can still do without reading a token. */
  function Rank(s: State): nat {
    match s
    case 7 => 11 case 12 => 11 case 18 => 11 case 27 => 11 case 33 => 11 case 37 => 11
    case 2 => 12 case 3 => 13 case 5 => 3 case 8 => 1 case 14 => 1 case 24 => 2 case 26 => 1
    case _ => 0
  }

  lemma RankStep(s: State, p: State)
    requires yydefact(s) != 0 && Edge(p, yyr1(yydefact(s))) >= 0
    ensures 10 + Rank(Edge(p, yyr1(yydefact(s)))) < 10 * yyr2(yydefact(s)) + Rank(s)
  {
  }

  lemma ShiftEdge(s: State, a: Kind)
    requires Edge(s, a) >= 0
    ensures a == 0 ==> s == 37 && Edge(s, a) == 38
    ensures a != 0 ==> 3 <= a <= 7
  {
  }

  lemma IntoFinal(s: State, x: int)
    ensures Edge(s, x) == 38 ==> s == 37 && x == 0
    ensures Edge(s, x) == 37 ==> s == 0 && x == 8
    ensures Edge(s, x) != 0
  {
  }
}
