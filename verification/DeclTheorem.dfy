/**
 What is printed for a type is read back as the same type, but for the qualifiers that the printer
 takes from array nodes.
 */
module DeclTheorem {
  import opened Helpers
  import opened Declarators

  // ---------------------------------------------------------------- reading what is written

  /** A declarator as text, with parentheses around a pointer part that something is put after. */
  function Written(d: Declarator): Text
    decreases d, 0
  {
    match d
    case Identifier(name) => [Name(name)]
    case Omitted => []
    case IndirectRef(quals, inner) => [Star] + (quals + Written(inner))
    case ArrayRef(inner, size) => Wrapped(inner) + SizeText(size)
    case CallExpr(inner, parms) => Wrapped(inner) + ListText(parms)
  }

  function Wrapped(d: Declarator): Text
    decreases d, 1
  {
    if d.IndirectRef? then [Open] + Written(d) + [Close] else Written(d)
  }

  function DeclText(p: ParmDecl): Text
    decreases p, 2
  {
    p.quals + ([Spec(p.spec)] + Written(p.declarator))
  }

  function DeclTexts(decls: seq<ParmDecl>): Text
    decreases decls
  {
    if decls == [] then []
    else if |decls| == 1 then DeclText(decls[0])
    else DeclText(decls[0]) + ([Comma] + DeclTexts(decls[1..]))
  }

  function ListText(parms: ParmList): Text
    decreases parms, 1
  {
    [Open] + (DeclTexts(parms.decls) + ((if parms.ellipsis then [Comma, Ellipsis] else []) + [Close]))
  }

  predicate AllQuals(ts: Text) { forall i :: 0 <= i < |ts| ==> IsQual(ts[i]) }

  /** Only qualifiers stand after a `*` or before a type, and something before an ellipsis. */
  predicate Fine(d: Declarator)
    decreases d, 0
  {
    match d
    case Identifier(_) => true
    case Omitted => true
    case IndirectRef(quals, inner) => AllQuals(quals) && Fine(inner)
    case ArrayRef(inner, _) => Fine(inner)
    case CallExpr(inner, parms) => Fine(inner) && FineDecls(parms.decls) && (parms.ellipsis ==> parms.decls != [])
  }

  predicate FineDecls(decls: seq<ParmDecl>)
    decreases decls
  {
    decls == [] || (AllQuals(decls[0].quals) && Fine(decls[0].declarator) && FineDecls(decls[1..]))
  }

  /** No declarator goes on with this. */
  predicate Ends(ts: Text) { ts == [] || ts[0] == Close || ts[0] == Comma }

  lemma {:induction false} QualsCounted(quals: Text, rest: Text)
    requires AllQuals(quals) && (rest == [] || !IsQual(rest[0]))
    ensures CountQuals(quals + rest) == |quals|
    ensures (quals + rest)[..|quals|] == quals && (quals + rest)[|quals|..] == rest
  {
    if quals == [] {
      assert quals + rest == rest;
    } else {
      assert (quals + rest)[1..] == quals[1..] + rest;
      QualsCounted(quals[1..], rest);
    }
  }

  lemma StartsPlain(d: Declarator, rest: Text)
    requires Ends(rest)
    ensures var ts := Written(d) + rest; ts == [] || !IsQual(ts[0])
    decreases d
  {
    if d.ArrayRef? || d.CallExpr? {
      WrappedStartsPlain(d.inner);
    }
  }

  lemma WrappedStartsPlain(d: Declarator)
    ensures var ts := Wrapped(d); ts == [] || !IsQual(ts[0])
    decreases d
  {
    if d.ArrayRef? || d.CallExpr? {
      WrappedStartsPlain(d.inner);
      var more := if d.ArrayRef? then SizeText(d.size) else ListText(d.parms);
      assert Wrapped(d) == Wrapped(d.inner) + more && !IsQual(more[0]);
    }
  }

  lemma SuffixesEnd(d: Declarator, rest: Text)
    requires Ends(rest)
    ensures ReadSuffixes(d, rest) == Some((d, rest))
  {
  }

  /** A declarator as written is read back, whatever ends it. */
  lemma {:induction false} ReadWritten(d: Declarator, rest: Text)
    requires Fine(d) && Ends(rest)
    ensures ReadDeclarator(Written(d) + rest) == Some((d, rest))
    decreases d, 4
  {
    if d.IndirectRef? {
      var ts := Written(d.inner) + rest;
      assert Written(d) + rest == [Star] + (d.quals + ts);
      StartsPlain(d.inner, rest);
      ReadWritten(d.inner, rest);
      assert AllQuals(d.quals);
      hide *;
      ReadStar(d.quals, d.inner, ts, rest);
    } else {
      NoStar(d, rest);
      ReadWrittenDirect(d, rest);
      SuffixesEnd(d, rest);
    }
  }

  lemma ReadStar(quals: Text, inner: Declarator, ts: Text, rest: Text)
    requires AllQuals(quals) && (ts == [] || !IsQual(ts[0])) && ReadDeclarator(ts) == Some((inner, rest))
    ensures ReadDeclarator([Star] + (quals + ts)) == Some((IndirectRef(quals, inner), rest))
  {
    QualsCounted(quals, ts);
    assert ([Star] + (quals + ts))[1..] == quals + ts;
    hide ReadDirect, ReadParms, ReadSuffixes;
  }

  lemma NoStar(d: Declarator, rest: Text)
    requires !d.IndirectRef? && (rest == [] || rest[0] != Star)
    ensures var ts := Written(d) + rest; ts == [] || ts[0] != Star
    decreases d
  {
    if d.ArrayRef? || d.CallExpr? {
      if !d.inner.IndirectRef? {
        var more := if d.ArrayRef? then SizeText(d.size) else ListText(d.parms);
        NoStar(d.inner, more + rest);
        assert Written(d) + rest == Written(d.inner) + (more + rest);
      }
    }
  }

  /** A rest that a direct declarator without a name is not confused by. */
  predicate Apart(rest: Text) {
    rest == [] || (!rest[0].Name? && (rest[0] == Open ==> ParmStart(rest[1..])))
  }

  lemma {:induction false} ReadWrittenDirect(d: Declarator, rest: Text)
    requires Fine(d) && !d.IndirectRef? && Apart(rest)
    ensures ReadDirect(Written(d) + rest) == ReadSuffixes(d, rest)
    decreases d, 3
  {
    match d
    case Identifier(name) =>
      assert ([Name(name)] + rest)[1..] == rest;
    case Omitted =>
      assert [] + rest == rest;
    case ArrayRef(inner, size) =>
      var more := SizeText(size) + rest;
      SplitArray(inner, size, rest);
      hide *;
      ReadWrapped(inner, more);
      ReadSize(inner, size, rest);
    case CallExpr(inner, parms) =>
      var more := ListText(parms) + rest;
      SplitCall(inner, parms, rest);
      hide *;
      ListStarts(parms, rest);
      ReadList(parms, rest);
      ReadCall(inner, parms, more, rest);
      ReadWrapped(inner, more);
  }

  lemma SplitArray(inner: Declarator, size: Size, rest: Text)
    requires Fine(ArrayRef(inner, size)) && Apart(rest)
    ensures var more := SizeText(size) + rest;
      Written(ArrayRef(inner, size)) + rest == Wrapped(inner) + more && Apart(more) && Fine(inner)
  {
    hide Wrapped;
  }

  lemma SplitCall(inner: Declarator, parms: ParmList, rest: Text)
    requires Fine(CallExpr(inner, parms))
    ensures var more := ListText(parms) + rest;
      Written(CallExpr(inner, parms)) + rest == Wrapped(inner) + more && Fine(inner) && |more| > 0
    ensures FineDecls(parms.decls) && (parms.ellipsis ==> parms.decls != [])
  {
    hide Wrapped;
  }

  lemma ReadCall(d: Declarator, parms: ParmList, ts: Text, rest: Text)
    requires ts != [] && ts[0] == Open && ReadParms(ts[1..]) == Some((parms, rest))
    ensures ReadSuffixes(d, ts) == ReadSuffixes(CallExpr(d, parms), rest)
  {
    hide ReadParms;
  }

  lemma ReadSize(d: Declarator, size: Size, rest: Text)
    ensures ReadSuffixes(d, SizeText(size) + rest) == ReadSuffixes(ArrayRef(d, size), rest)
  {
    var ts := SizeText(size) + rest;
    assert ts[|SizeText(size)|..] == rest;
  }

  /** The parentheses are what makes the pointer part be taken first. */
  lemma {:induction false} ReadWrapped(d: Declarator, rest: Text)
    requires Fine(d) && Apart(rest)
    ensures ReadDirect(Wrapped(d) + rest) == ReadSuffixes(d, rest)
    decreases d, 5
  {
    if d.IndirectRef? {
      var ts := Written(d) + ([Close] + rest);
      ReadWritten(d, [Close] + rest);
      assert Wrapped(d) + rest == [Open] + ts;
      assert ts[0] == Star;
      hide *;
      ReadParenthesised(d, ts, rest);
    } else {
      ReadWrittenDirect(d, rest);
    }
  }

  lemma ReadParenthesised(d: Declarator, ts: Text, rest: Text)
    requires ts != [] && ts[0] == Star && ReadDeclarator(ts) == Some((d, [Close] + rest))
    ensures ReadDirect([Open] + ts) == ReadSuffixes(d, rest)
  {
    hide ReadDeclarator, ReadSuffixes;
    assert ([Open] + ts)[1..] == ts;
    assert ([Close] + rest)[1..] == rest;
  }

  lemma FirstText(decls: seq<ParmDecl>)
    requires decls != [] && FineDecls(decls)
    ensures var ts := DeclTexts(decls); ts != [] && (IsQual(ts[0]) || ts[0].Spec?)
  {
    var p := decls[0];
    assert |DeclText(p)| > 0 && |DeclTexts(decls)| > 0;
    assert DeclTexts(decls)[0] == DeclText(p)[0];
    if p.quals != [] {
      assert IsQual(p.quals[0]);
    }
  }

  lemma ListStarts(parms: ParmList, rest: Text)
    requires FineDecls(parms.decls) && (parms.ellipsis ==> parms.decls != [])
    ensures Apart(ListText(parms) + rest)
  {
    var ts := ListText(parms) + rest;
    if parms.decls != [] {
      FirstText(parms.decls);
      assert ts[1] == DeclTexts(parms.decls)[0];
    }
  }

  /** A parameter list as written is read back up to its `)`. */
  lemma {:induction false} ReadList(parms: ParmList, rest: Text)
    requires FineDecls(parms.decls) && (parms.ellipsis ==> parms.decls != [])
    ensures (ListText(parms) + rest)[0] == Open
    ensures ReadParms((ListText(parms) + rest)[1..]) == Some((parms, rest))
    decreases parms, 3
  {
    var tail := (if parms.ellipsis then [Comma, Ellipsis] else []) + [Close];
    var ts := DeclTexts(parms.decls) + (tail + rest);
    assert ListText(parms) + rest == [Open] + ts;
    assert ([Open] + ts)[1..] == ts;
    if parms.decls == [] {
      assert ts == [Close] + rest && ts[1..] == rest;
    } else {
      ReadWrittenDecls(parms.decls, parms.ellipsis, rest);
      FirstText(parms.decls);
    }
  }

  lemma {:induction false} ReadWrittenDecls(decls: seq<ParmDecl>, ellipsis: bool, rest: Text)
    requires decls != [] && FineDecls(decls)
    ensures var tail := (if ellipsis then [Comma, Ellipsis] else []) + [Close];
      ReadParmDecls(DeclTexts(decls) + (tail + rest)) == Some((ParmList(decls, ellipsis), rest))
    decreases decls, 2
  {
    var tail := (if ellipsis then [Comma, Ellipsis] else []) + [Close];
    if |decls| == 1 {
      assert decls == [decls[0]] && DeclTexts(decls) == DeclText(decls[0]);
      ReadWrittenDecl(decls[0], tail + rest);
      ReadLast(decls[0], DeclTexts(decls) + (tail + rest), ellipsis, rest);
    } else {
      var ts := DeclTexts(decls[1..]) + (tail + rest);
      assert DeclTexts(decls) + (tail + rest) == DeclText(decls[0]) + ([Comma] + ts);
      FirstText(decls[1..]);
      assert [decls[0]] + decls[1..] == decls;
      assert FineDecls(decls[1..]) && ts[0] != Ellipsis;
      ReadWrittenDecl(decls[0], [Comma] + ts);
      hide *;
      ReadWrittenDecls(decls[1..], ellipsis, rest);
      ReadMore(decls[0], DeclText(decls[0]) + ([Comma] + ts), ts, ParmList(decls[1..], ellipsis), rest);
    }
  }

  lemma ReadLast(p: ParmDecl, ts: Text, ellipsis: bool, rest: Text)
    requires var tail := (if ellipsis then [Comma, Ellipsis] else []) + [Close];
      ReadParm(ts) == Some((p, tail + rest))
    ensures ReadParmDecls(ts) == Some((ParmList([p], ellipsis), rest))
  {
    hide ReadParm;
    if ellipsis {
      assert ([Comma, Ellipsis] + [Close] + rest)[3..] == rest;
    } else {
      assert ([] + [Close] + rest)[1..] == rest;
    }
  }

  lemma ReadMore(p: ParmDecl, ts: Text, more: Text, parms: ParmList, rest: Text)
    requires ReadParm(ts) == Some((p, [Comma] + more)) && more != [] && more[0] != Ellipsis
    requires ReadParmDecls(more) == Some((parms, rest))
    ensures ReadParmDecls(ts) == Some((ParmList([p] + parms.decls, parms.ellipsis), rest))
  {
    hide ReadParm;
    assert ([Comma] + more)[1..] == more;
  }

  lemma {:induction false} ReadWrittenDecl(p: ParmDecl, rest: Text)
    requires AllQuals(p.quals) && Fine(p.declarator) && Ends(rest)
    ensures ReadParm(DeclText(p) + rest) == Some((p, rest))
    decreases p, 5
  {
    var ts := Written(p.declarator) + rest;
    assert DeclText(p) + rest == p.quals + ([Spec(p.spec)] + ts);
    QualsCounted(p.quals, [Spec(p.spec)] + ts);
    assert (p.quals + ([Spec(p.spec)] + ts))[|p.quals| + 1..] == ts;
    ReadWritten(p.declarator, rest);
  }

  // ---------------------------------------------------------------- what is printed

  /** The declarator that `gen_type` wraps around `d`, by the layers of `t`. */
  function Layers(d: Declarator, t: CType): Declarator
    decreases t, 0
  {
    match t
    case Base(_, _) => d
    case Pointer(target, q) => Layers(IndirectRef(QText(q), d), target)
    case Array(element, size, _) => Layers(ArrayRef(d, size), element)
    case Function(result, parms, _) => Layers(CallExpr(d, ListOf(parms)), result)
  }

  function ListOf(parms: Parms): ParmList
    decreases parms, 1
  {
    match parms
    case Unprototyped => ParmList([], false)
    case Prototype(types, variadic) =>
      if types == [] then ParmList([ParmDecl([], "void", Omitted)], false)
      else ParmList(DeclsOf(types), variadic)
  }

  function DeclOf(t: CType): ParmDecl
    decreases t, 1
  {
    ParmDecl(Leading(t), DataType(t), Layers(Omitted, t))
  }

  function DeclsOf(types: seq<CType>): (r: seq<ParmDecl>)
    ensures |r| == |types|
    decreases types
  {
    if types == [] then [] else [DeclOf(types[0])] + DeclsOf(types[1..])
  }

  /** The qualifiers that come to stand in front of everything: those of the base type, and of every
      array and function that is not inside parameters. */
  function Leading(t: CType): Text {
    match t
    case Base(_, q) => QText(q)
    case Pointer(target, _) => Leading(target)
    case Array(element, _, q) => QText(q) + Leading(element)
    case Function(result, _, q) => QText(q) + Leading(result)
  }

  /** The parameters of a prototype: something before an ellipsis, and no array, function, qualified
      parameter or void, which a parameter's type never is. */
  predicate GoodParms(t: CType)
    decreases t, 0
  {
    match t
    case Base(_, _) => true
    case Pointer(target, _) => GoodParms(target)
    case Array(element, _, _) => GoodParms(element)
    case Function(result, parms, _) =>
      && GoodParms(result)
      && match parms
         case Unprototyped => true
         case Prototype(types, variadic) => GoodTypes(types) && (variadic ==> types != [])
  }

  predicate GoodTypes(types: seq<CType>)
    decreases types
  {
    types == [] || (GoodParm(types[0]) && GoodTypes(types[1..]))
  }

  predicate GoodParm(t: CType)
    decreases t, 1
  {
    GoodParms(t) && !Suffixed(t) && t.q == PLAIN && !IsVoid(t)
  }

  lemma QTextQuals(q: Quals)
    ensures AllQuals(QText(q)) && Qualified(QText(q)) == q
  {
  }

  lemma {:induction false} LeadingQuals(t: CType)
    ensures AllQuals(Leading(t))
  {
    QTextQuals(t.q);
    match t
    case Base(_, _) =>
    case Pointer(target, _) => LeadingQuals(target);
    case Array(element, _, _) => LeadingQuals(element);
    case Function(result, _, _) => LeadingQuals(result);
  }

  lemma {:induction false} AffixText(name: string, quals: Text, rest: Text)
    requires AllQuals(quals) && (rest == [] || !IsQual(rest[0]))
    ensures Affix(name, quals + rest) == quals + ([Spec(name)] + rest)
  {
    if quals == [] {
      assert quals + rest == rest;
    } else {
      assert (quals + rest)[1..] == quals[1..] + rest;
      AffixText(name, quals[1..], rest);
    }
  }

  /** `gen_type` writes the declarator of the type, behind the leading qualifiers. */
  lemma {:induction false} GenTypeWrites(d: Declarator, t: CType)
    requires GoodParms(t)
    ensures GenType(if Suffixed(t) then Wrapped(d) else Written(d), t) == Leading(t) + Written(Layers(d, t))
    decreases t, 0
  {
    match t
    case Base(_, q) =>
    case Pointer(target, q) =>
      GenTypeWrites(IndirectRef(QText(q), d), target);
    case Array(element, size, q) =>
      GenTypeWrites(ArrayRef(d, size), element);
      assert Wrapped(ArrayRef(d, size)) == Written(ArrayRef(d, size)) == Wrapped(d) + SizeText(size);
      assert QText(q) + (Leading(element) + Written(Layers(d, t))) == (QText(q) + Leading(element)) + Written(Layers(d, t));
    case Function(result, parms, q) =>
      ListWrites(parms);
      GenTypeWrites(CallExpr(d, ListOf(parms)), result);
      assert QText(q) + (Leading(result) + Written(Layers(d, t))) == (QText(q) + Leading(result)) + Written(Layers(d, t));
  }

  lemma {:induction false} ListWrites(parms: Parms)
    requires parms.Prototype? ==> GoodTypes(parms.types) && (parms.variadic ==> parms.types != [])
    ensures FormalList(parms) == ListText(ListOf(parms))
    decreases parms, 1
  {
    hide FormalTexts, DeclTexts, DeclsOf, GoodTypes;
    match parms
    case Unprototyped => NoTexts();
    case Prototype(types, variadic) =>
      if types == [] {
        VoidText();
      } else {
        TypesWrite(types);
        var more := if variadic then [Comma, Ellipsis] else [];
        assert [Open] + (FormalTexts(types) + more) + [Close] == [Open] + (FormalTexts(types) + (more + [Close]));
      }
  }

  lemma NoTexts()
    ensures DeclTexts([]) == []
  {
  }

  lemma VoidText()
    ensures DeclTexts([ParmDecl([], "void", Omitted)]) == [Spec("void")]
  {
  }

  lemma {:induction false} TypesWrite(types: seq<CType>)
    requires types != [] && GoodTypes(types)
    ensures FormalTexts(types) == DeclTexts(DeclsOf(types))
    decreases types
  {
    hide GenType, Affix, DeclText, Leading, Layers, GoodParms;
    TypeWrites(Omitted, types[0]);
    OmittedText();
    if |types| > 1 {
      TypesWrite(types[1..]);
    }
  }

  lemma OmittedText()
    ensures Written(Omitted) == []
  {
  }

  lemma TypeWrites(d: Declarator, t: CType)
    requires GoodParms(t) && !d.IndirectRef?
    ensures Affix(DataType(t), GenType(Written(d), t)) == DeclText(ParmDecl(Leading(t), DataType(t), Layers(d, t)))
    decreases t, 2
  {
    GenTypeWrites(d, t);
    LeadingQuals(t);
    StartsPlain(Layers(d, t), []);
    assert Written(Layers(d, t)) + [] == Written(Layers(d, t));
    AffixText(DataType(t), Leading(t), Written(Layers(d, t)));
  }

  lemma {:induction false} LayersFine(d: Declarator, t: CType)
    requires GoodParms(t) && Fine(d)
    ensures Fine(Layers(d, t))
    decreases t, 0
  {
    QTextQuals(t.q);
    match t
    case Base(_, _) =>
    case Pointer(target, q) => LayersFine(IndirectRef(QText(q), d), target);
    case Array(element, size, _) => LayersFine(ArrayRef(d, size), element);
    case Function(result, parms, _) =>
      if parms.Prototype? && parms.types != [] {
        DeclsFine(parms.types);
      }
      LayersFine(CallExpr(d, ListOf(parms)), result);
  }

  lemma {:induction false} DeclsFine(types: seq<CType>)
    requires GoodTypes(types)
    ensures FineDecls(DeclsOf(types))
    decreases types
  {
    if types != [] {
      LeadingQuals(types[0]);
      LayersFine(Omitted, types[0]);
      DeclsFine(types[1..]);
    }
  }
}
