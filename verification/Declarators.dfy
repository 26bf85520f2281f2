/**
 Types, the text that `gen_type` makes of them, the declarator grammar that reads such text, and the
 loop of `grokdeclarator` that makes a type of what was read.
 */
module Declarators {
  import opened Helpers

  /** The const and volatile flags of a type node. */
  datatype Quals = Quals(isConst: bool, isVolatile: bool)

  const PLAIN := Quals(false, false)

  datatype Size = Unknown | Elements(count: nat)

  datatype CType =
    | Base(name: string, q: Quals)
    | Pointer(target: CType, q: Quals)
    | Array(element: CType, size: Size, q: Quals)
    | Function(result: CType, parms: Parms, q: Quals)

  /** `TYPE_ARG_TYPES`: missing, or a list that ends in void unless it is variadic. */
  datatype Parms = Unprototyped | Prototype(types: seq<CType>, variadic: bool)

  datatype Token =
    | Name(name: string) | Spec(spec: string) | ConstTok | VolatileTok | Star | Open | Close
    | LBrack | RBrack | Num(n: nat) | Comma | Ellipsis

  type Text = seq<Token>

  // ---------------------------------------------------------------- printing

  function QText(q: Quals): Text {
    (if q.isVolatile then [VolatileTok] else []) + (if q.isConst then [ConstTok] else [])
  }

  function SizeText(s: Size): Text {
    match s
    case Unknown => [LBrack, RBrack]
    case Elements(n) => [LBrack, Num(n), RBrack]
  }

  /** Array and function parts bind closer than a `*` in front of what they are put after. */
  predicate Suffixed(t: CType) { t.Array? || t.Function? }

  /** `gen_type`: the seed, with what the type adds around it. */
  function GenType(seed: Text, t: CType): Text
    decreases t, 0
  {
    match t
    case Base(_, q) => QText(q) + seed
    case Pointer(target, q) =>
      var s := [Star] + (QText(q) + seed);
      GenType(if Suffixed(target) then [Open] + s + [Close] else s, target)
    case Array(element, size, q) => QText(q) + GenType(seed + SizeText(size), element)
    case Function(result, parms, q) => QText(q) + GenType(seed + FormalList(parms), result)
  }

  /** What `data_type` is left as. */
  function DataType(t: CType): string {
    match t
    case Base(name, _) => name
    case Pointer(target, _) => DataType(target)
    case Array(element, _, _) => DataType(element)
    case Function(result, _, _) => DataType(result)
  }

  predicate IsQual(t: Token) { t == ConstTok || t == VolatileTok }

  /** `affix_data_type`: the type goes after the leading qualifiers. */
  function Affix(dataType: string, text: Text): Text {
    if text != [] && IsQual(text[0]) then [text[0]] + Affix(dataType, text[1..])
    else [Spec(dataType)] + text
  }

  function FormalTexts(types: seq<CType>): Text
    decreases types
  {
    if types == [] then []
    else
      var first := Affix(DataType(types[0]), GenType([], types[0]));
      if |types| == 1 then first else first + [Comma] + FormalTexts(types[1..])
  }

  /** `gen_formal_list_for_type` in ANSI style. */
  function FormalList(parms: Parms): Text
    decreases parms, 1
  {
    [Open] + (match parms
              case Unprototyped => []
              case Prototype(types, variadic) =>
                if types == [] then [Spec("void")]
                else FormalTexts(types) + (if variadic then [Comma, Ellipsis] else []))
    + [Close]
  }

  /** The declaration of `name` with type `t`, or the type alone. */
  function Declaration(name: Option<string>, t: CType): Text {
    Affix(DataType(t), GenType(if name.Some? then [Name(name.value)] else [], t))
  }

  // ---------------------------------------------------------------- reading

  datatype Declarator =
    | Identifier(name: string)
    | Omitted
    | IndirectRef(quals: Text, inner: Declarator)
    | ArrayRef(inner: Declarator, size: Size)
    | CallExpr(inner: Declarator, parms: ParmList)

  datatype ParmDecl = ParmDecl(quals: Text, spec: string, declarator: Declarator)
  datatype ParmList = ParmList(decls: seq<ParmDecl>, ellipsis: bool)

  /** How many qualifiers stand in front. */
  function CountQuals(ts: Text): (n: nat)
    ensures n <= |ts|
  {
    if ts != [] && IsQual(ts[0]) then 1 + CountQuals(ts[1..]) else 0
  }

  /** Does the text after a `(` start a parameter list rather than a declarator? */
  predicate ParmStart(ts: Text) {
    ts != [] && (IsQual(ts[0]) || ts[0].Spec? || ts[0] == Close)
  }

  /** `'*' type_quals declarator`, or a direct declarator. */
  function ReadDeclarator(ts: Text): (r: Option<(Declarator, Text)>)
    ensures r.Some? ==> |r.value.1| <= |ts|
    decreases |ts|, 2
  {
    if ts != [] && ts[0] == Star then
      var n := CountQuals(ts[1..]);
      var r := ReadDeclarator(ts[1..][n..]);
      if r.None? then None else Some((IndirectRef(ts[1..][..n], r.value.0), r.value.1))
    else ReadDirect(ts)
  }

  /** A name, a declarator in parentheses or nothing, and what comes after it. */
  function ReadDirect(ts: Text): (r: Option<(Declarator, Text)>)
    ensures r.Some? ==> |r.value.1| <= |ts|
    decreases |ts|, 1
  {
    if ts != [] && ts[0].Name? then ReadSuffixes(Identifier(ts[0].name), ts[1..])
    else if ts != [] && ts[0] == Open && !ParmStart(ts[1..]) then
      var r := ReadDeclarator(ts[1..]);
      if r.None? || r.value.1 == [] || r.value.1[0] != Close then None
      else ReadSuffixes(r.value.0, r.value.1[1..])
    else ReadSuffixes(Omitted, ts)
  }

  function ReadSuffixes(d: Declarator, ts: Text): (r: Option<(Declarator, Text)>)
    ensures r.Some? ==> |r.value.1| <= |ts|
    decreases |ts|, 0
  {
    if ts == [] then Some((d, ts))
    else if ts[0] == LBrack then
      if |ts| >= 2 && ts[1] == RBrack then ReadSuffixes(ArrayRef(d, Unknown), ts[2..])
      else if |ts| >= 3 && ts[1].Num? && ts[2] == RBrack then ReadSuffixes(ArrayRef(d, Elements(ts[1].n)), ts[3..])
      else None
    else if ts[0] == Open then
      var p := ReadParms(ts[1..]);
      if p.None? then None else ReadSuffixes(CallExpr(d, p.value.0), p.value.1)
    else Some((d, ts))
  }

  /** The text after the `(` of a parameter list, up to its `)`. */
  function ReadParms(ts: Text): (r: Option<(ParmList, Text)>)
    ensures r.Some? ==> |r.value.1| <= |ts|
    decreases |ts|, 5
  {
    if ts != [] && ts[0] == Close then Some((ParmList([], false), ts[1..])) else ReadParmDecls(ts)
  }

  function ReadParmDecls(ts: Text): (r: Option<(ParmList, Text)>)
    ensures r.Some? ==> |r.value.1| <= |ts|
    decreases |ts|, 4
  {
    var p := ReadParm(ts);
    if p.None? || p.value.1 == [] then None
    else
      var rest := p.value.1;
      if rest[0] == Close then Some((ParmList([p.value.0], false), rest[1..]))
      else if rest[0] != Comma then None
      else if |rest| >= 3 && rest[1] == Ellipsis && rest[2] == Close then
        Some((ParmList([p.value.0], true), rest[3..]))
      else
        var more := ReadParmDecls(rest[1..]);
        if more.None? then None
        else Some((ParmList([p.value.0] + more.value.0.decls, more.value.0.ellipsis), more.value.1))
  }

  function ReadParm(ts: Text): (r: Option<(ParmDecl, Text)>)
    ensures r.Some? ==> |r.value.1| < |ts|
    decreases |ts|, 3
  {
    var n := CountQuals(ts);
    if n == |ts| || !ts[n].Spec? then None
    else
      var d := ReadDeclarator(ts[n + 1..]);
      if d.None? then None else Some((ParmDecl(ts[..n], ts[n].spec, d.value.0), d.value.1))
  }

  // ---------------------------------------------------------------- grokdeclarator

  function Qualified(quals: Text): Quals {
    Quals(ConstTok in quals, VolatileTok in quals)
  }

  /** `c_build_type_variant`: the qualifiers also go down to the elements of an array. */
  function Variant(t: CType, q: Quals): (r: CType)
    ensures r.q == q
  {
    match t
    case Base(name, _) => Base(name, q)
    case Pointer(target, _) => Pointer(target, q)
    case Array(element, size, _) => Array(Variant(element, q), size, q)
    case Function(result, parms, _) => Function(result, parms, q)
  }

  function VariantIf(t: CType, q: Quals): CType {
    if q == PLAIN then t else Variant(t, q)
  }

  /** One turn of the loop: the type and the pending qualifiers after the outermost layer of `d`; no
      type for an array of void or of functions. */
  function GrokLayer(t: CType, q: Quals, d: Declarator): Option<(CType, Quals)>
    requires !d.Identifier? && !d.Omitted?
    decreases d, 0
  {
    match d
    case ArrayRef(_, size) =>
      if t.Function? || (t.Base? && t.name == "void") then None
      else Some((VariantIf(Array(t, size, PLAIN), q), q))
    case CallExpr(_, parms) =>
      var returned := if Suffixed(t) then Base("int", PLAIN) else t;
      var p := GrokParms(parms);
      if p.None? then None else Some((Function(VariantIf(returned, q), p.value, PLAIN), PLAIN))
    case IndirectRef(quals, _) => Some((Pointer(VariantIf(t, q), PLAIN), Qualified(quals)))
  }

  function GrokLoop(t: CType, q: Quals, d: Declarator): Option<(CType, Quals)>
    decreases d, 1
  {
    if d.Identifier? || d.Omitted? then Some((t, q))
    else
      var r := GrokLayer(t, q, d);
      if r.None? then None else GrokLoop(r.value.0, r.value.1, d.inner)
  }

  /** The type of a parameter: qualifiers of the parameter itself are not part of it, and an array or a
      function is really a pointer. */
  function GrokParm(p: ParmDecl): Option<CType>
    decreases p, 2
  {
    var r := GrokLoop(Base(p.spec, PLAIN), Qualified(p.quals), p.declarator);
    if r.None? then None
    else match r.value.0
      case Array(element, _, _) => Some(Pointer(VariantIf(element, r.value.1), PLAIN))
      case Function(_, _, _) => Some(Pointer(VariantIf(r.value.0, r.value.1), PLAIN))
      case _ => Some(r.value.0)
  }

  /** No parameter has an array or a function type: it is a pointer to the element, or to the function,
      which gets the qualifiers that are pending. */
  lemma ParmIsAdjusted(p: ParmDecl)
    requires GrokParm(p).Some?
    ensures var (t, q) := GrokLoop(Base(p.spec, PLAIN), Qualified(p.quals), p.declarator).value; var r := GrokParm(p).value;
      && (t.Base? || t.Pointer? ==> r == t)
      && (Suffixed(t) ==> r.Pointer? && r.q == PLAIN)
      && (t.Array? ==> r.target == if q == PLAIN then t.element else Variant(t.element, q))
      && (t.Function? ==> r.target == Function(t.result, t.parms, if q == PLAIN then t.q else q))
  {
  }

  function GrokAll(decls: seq<ParmDecl>): Option<seq<CType>>
    decreases decls
  {
    if decls == [] then Some([])
    else
      var first := GrokParm(decls[0]);
      var others := GrokAll(decls[1..]);
      if first.None? || others.None? then None else Some([first.value] + others.value)
  }

  /** `grokparms`, with the list `(void)` recognised by `get_parm_info`. */
  function GrokParms(parms: ParmList): Option<Parms>
    decreases parms, 1
  {
    if parms.decls == [] then Some(Unprototyped)
    else
      var r := GrokAll(parms.decls);
      if r.None? then None
      else if |r.value| == 1 && !parms.ellipsis && IsVoid(r.value[0]) && parms.decls[0].declarator.Omitted? then
        Some(Prototype([], false))
      else Some(Prototype(r.value, parms.ellipsis))
  }

  predicate IsVoid(t: CType) { t.Base? && t.name == "void" }

  function NameOf(d: Declarator): Option<string> {
    match d
    case Identifier(name) => Some(name)
    case Omitted => None
    case _ => NameOf(d.inner)
  }

  /** The name and the type that a text declares. */
  function ReadDeclaration(ts: Text): Option<(Option<string>, CType)> {
    var p := ReadParm(ts);
    if p.None? || p.value.1 != [] then None
    else
      var d := p.value.0;
      var r := GrokLoop(Base(d.spec, PLAIN), Qualified(d.quals), d.declarator);
      if r.None? then None
      else Some((NameOf(d.declarator), VariantIf(r.value.0, r.value.1)))
  }
}
