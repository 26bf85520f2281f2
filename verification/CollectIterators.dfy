/**
 `collect_iterators`: the free iterators of an expression, each once, although the operand of a
 SAVE_EXPR is scanned only the first time.
 */
module CollectIterators {
  /** Expressions by what the scan does with them. A variable is free if it is an iterator that no `for`
      binds; a SAVE_EXPR has an identity, by which it is recognised when it comes again. */
  datatype Exp =
    | Missing
    | VarDecl(id: nat, free: bool)
    | TreeList(values: seq<Exp>)
    | SaveExpr(node: nat, operand: Exp)
    | Block
    | Unary(operand: Exp)
    | Binary(left: Exp, right: Exp)
    | Operands(args: seq<Exp>)
    | Other

  /** The iterators found, newest first, and the SAVE_EXPRs scanned. */
  datatype Scan = Scan(list: seq<nat>, saved: seq<nat>)

  function Collect(e: Exp, s: Scan): Scan
    decreases e, 0
  {
    match e
    case VarDecl(id, free) => if !free || id in s.list then s else s.(list := [id] + s.list)
    case TreeList(values) => CollectAll(values, s)
    case SaveExpr(node, operand) => if node in s.saved then s else Collect(operand, s.(saved := [node] + s.saved))
    case Unary(operand) => Collect(operand, s)
    case Binary(left, right) => Collect(left, Collect(right, s))
    case Operands(args) => CollectAll(args, s)
    case _ => s
  }

  function CollectAll(es: seq<Exp>, s: Scan): Scan
    decreases es
  {
    if es == [] then s else CollectAll(es[1..], Collect(es[0], s))
  }

  /** The free iterators that an expression mentions anywhere outside blocks. */
  function Mentioned(e: Exp): set<nat>
    decreases e, 0
  {
    match e
    case VarDecl(id, free) => if free then {id} else {}
    case TreeList(values) => MentionedAll(values)
    case SaveExpr(_, operand) => Mentioned(operand)
    case Unary(operand) => Mentioned(operand)
    case Binary(left, right) => Mentioned(left) + Mentioned(right)
    case Operands(args) => MentionedAll(args)
    case _ => {}
  }

  function MentionedAll(es: seq<Exp>): set<nat>
    decreases es
  {
    if es == [] then {} else Mentioned(es[0]) + MentionedAll(es[1..])
  }

  /** The SAVE_EXPRs that occur in an expression. */
  function Nodes(e: Exp): set<nat>
    decreases e, 0
  {
    match e
    case TreeList(values) => NodesAll(values)
    case SaveExpr(node, operand) => {node} + Nodes(operand)
    case Unary(operand) => Nodes(operand)
    case Binary(left, right) => Nodes(left) + Nodes(right)
    case Operands(args) => NodesAll(args)
    case _ => {}
  }

  function NodesAll(es: seq<Exp>): set<nat>
    decreases es
  {
    if es == [] then {} else Nodes(es[0]) + NodesAll(es[1..])
  }

  /** A SAVE_EXPR is one node: wherever it occurs it has the same operand. */
  predicate Shared(e: Exp, operands: map<nat, Exp>)
    decreases e, 0
  {
    match e
    case TreeList(values) => SharedAll(values, operands)
    case SaveExpr(node, operand) => node in operands && operands[node] == operand && Shared(operand, operands)
    case Unary(operand) => Shared(operand, operands)
    case Binary(left, right) => Shared(left, operands) && Shared(right, operands)
    case Operands(args) => SharedAll(args, operands)
    case _ => true
  }

  predicate SharedAll(es: seq<Exp>, operands: map<nat, Exp>)
    decreases es
  {
    es == [] || (Shared(es[0], operands) && SharedAll(es[1..], operands))
  }

  function Size(e: Exp): nat
    decreases e, 0
  {
    match e
    case TreeList(values) => 1 + SizeAll(values)
    case SaveExpr(_, operand) => 1 + Size(operand)
    case Unary(operand) => 1 + Size(operand)
    case Binary(left, right) => 1 + Size(left) + Size(right)
    case Operands(args) => 1 + SizeAll(args)
    case _ => 1
  }

  function SizeAll(es: seq<Exp>): nat
    decreases es
  {
    if es == [] then 0 else Size(es[0]) + SizeAll(es[1..])
  }

  /** What occurs inside is smaller, so no SAVE_EXPR occurs in its own operand. */
  lemma {:induction false} InsideIsSmaller(e: Exp, operands: map<nat, Exp>, node: nat)
    requires Shared(e, operands) && node in Nodes(e)
    ensures node in operands && Size(operands[node]) < Size(e)
    decreases e, 0
  {
    match e
    case TreeList(values) => InsideAllIsSmaller(values, operands, node);
    case SaveExpr(n, operand) => if n != node { InsideIsSmaller(operand, operands, node); }
    case Unary(operand) => InsideIsSmaller(operand, operands, node);
    case Binary(left, right) =>
      if node in Nodes(left) { InsideIsSmaller(left, operands, node); } else { InsideIsSmaller(right, operands, node); }
    case Operands(args) => InsideAllIsSmaller(args, operands, node);
  }

  lemma {:induction false} InsideAllIsSmaller(es: seq<Exp>, operands: map<nat, Exp>, node: nat)
    requires SharedAll(es, operands) && node in NodesAll(es)
    ensures node in operands && Size(operands[node]) <= SizeAll(es)
    decreases es
  {
    if node in Nodes(es[0]) {
      InsideIsSmaller(es[0], operands, node);
    } else {
      InsideAllIsSmaller(es[1..], operands, node);
    }
  }

  function Elements(list: seq<nat>): set<nat> {
    set x | x in list
  }

  predicate Distinct(list: seq<nat>) {
    forall i, j :: 0 <= i < j < |list| ==> list[i] != list[j]
  }

  /** What the scanned SAVE_EXPRs among `nodes` mention is in the list. */
  predicate Covered(nodes: set<nat>, s: Scan, operands: map<nat, Exp>) {
    forall n :: n in nodes && n in s.saved && n in operands ==> Mentioned(operands[n]) <= Elements(s.list)
  }

  /** The list after a scan: what it was and what `mentioned` adds, nothing twice, and the SAVE_EXPRs
      scanned by it are covered. */
  predicate Scanned(s: Scan, r: Scan, mentioned: set<nat>, operands: map<nat, Exp>) {
    && Distinct(r.list) && Elements(r.list) == Elements(s.list) + mentioned
    && (forall n :: n in s.saved ==> n in r.saved)
    && (forall n :: n in r.saved && n !in s.saved && n in operands ==> Mentioned(operands[n]) <= Elements(r.list))
  }

  lemma {:induction false} CollectScans(e: Exp, s: Scan, operands: map<nat, Exp>)
    requires Shared(e, operands) && Distinct(s.list) && Covered(Nodes(e), s, operands)
    ensures Scanned(s, Collect(e, s), Mentioned(e), operands)
    decreases e, 0
  {
    match e
    case VarDecl(id, free) =>
    case TreeList(values) => CollectAllScans(values, s, operands);
    case SaveExpr(node, operand) =>
      if node !in s.saved {
        var t := s.(saved := [node] + s.saved);
        if node in Nodes(operand) {
          InsideIsSmaller(operand, operands, node);
        }
        CollectScans(operand, t, operands);
      }
    case Unary(operand) => CollectScans(operand, s, operands);
    case Binary(left, right) =>
      CollectScans(right, s, operands);
      CollectScans(left, Collect(right, s), operands);
    case Operands(args) => CollectAllScans(args, s, operands);
    case _ =>
  }

  lemma {:induction false} CollectAllScans(es: seq<Exp>, s: Scan, operands: map<nat, Exp>)
    requires SharedAll(es, operands) && Distinct(s.list) && Covered(NodesAll(es), s, operands)
    ensures Scanned(s, CollectAll(es, s), MentionedAll(es), operands)
    decreases es
  {
    if es != [] {
      CollectScans(es[0], s, operands);
      CollectAllScans(es[1..], Collect(es[0], s), operands);
    }
  }

  /** A whole scan finds every free iterator of the expression, each once. */
  lemma CollectsAll(e: Exp, operands: map<nat, Exp>)
    requires Shared(e, operands)
    ensures var list := Collect(e, Scan([], [])).list; Distinct(list) && Elements(list) == Mentioned(e)
  {
    CollectScans(e, Scan([], []), operands);
  }
}
