/**
 The type that the text of a type stands for, and when it is the type that was printed.
 */
module DeclRoundTrip {
  import opened Helpers
  import opened Declarators
  import opened DeclTheorem

  /** What can be declared: no array of functions or of void, no function that returns an array or a
      function. */
  predicate Declarable(t: CType)
    decreases t, 0
  {
    match t
    case Base(_, _) => true
    case Pointer(target, _) => Declarable(target)
    case Array(element, _, _) => !element.Function? && !IsVoid(element) && Declarable(element)
    case Function(result, parms, _) =>
      && !Suffixed(result) && Declarable(result)
      && (parms.Prototype? ==> AllDeclarable(parms.types))
  }

  predicate AllDeclarable(types: seq<CType>)
    decreases types
  {
    types == [] || (Declarable(types[0]) && AllDeclarable(types[1..]))
  }

  function LeadingQualifiers(t: CType): Quals {
    Qualified(Leading(t))
  }

  /** `t` with `lead` for the qualifiers of its base type, those of an array taken from its elements and
      none on functions. */
  function Normal(t: CType, lead: Quals): CType
    decreases t, 0
  {
    match t
    case Base(name, _) => Base(name, lead)
    case Pointer(target, q) => Pointer(Normal(target, lead), q)
    case Array(element, size, _) => var e := Normal(element, lead); Array(e, size, e.q)
    case Function(result, parms, _) => Function(Normal(result, lead), NormalParms(parms), PLAIN)
  }

  function NormalParms(parms: Parms): Parms
    decreases parms, 1
  {
    match parms
    case Unprototyped => Unprototyped
    case Prototype(types, variadic) => Prototype(NormalTypes(types), variadic)
  }

  function NormalTypes(types: seq<CType>): (r: seq<CType>)
    ensures |r| == |types|
    decreases types
  {
    if types == [] then []
    else [Normal(types[0], LeadingQualifiers(types[0]))] + NormalTypes(types[1..])
  }

  /** The type before the pending qualifiers are merged into it. */
  function Raw(t: CType): CType {
    match t
    case Base(name, _) => Base(name, PLAIN)
    case Pointer(target, _) => Pointer(target, PLAIN)
    case _ => t
  }

  lemma {:induction false} VariantKeeps(t: CType, lead: Quals)
    ensures Variant(Normal(t, lead), Normal(t, lead).q) == Normal(t, lead)
    decreases t
  {
    if t.Array? {
      VariantKeeps(t.element, lead);
    }
  }

  lemma MergeRaw(t: CType, lead: Quals)
    ensures var n := Normal(t, lead); VariantIf(Raw(n), n.q) == n
  {
    VariantKeeps(t, lead);
  }

  /** An array takes the pending qualifiers down to its elements and keeps them pending. */
  lemma MergeArray(t: CType, lead: Quals, size: Size)
    ensures var n := Normal(t, lead); VariantIf(Array(Raw(n), size, PLAIN), n.q) == Array(n, size, n.q)
  {
    MergeRaw(t, lead);
  }

  /** The loop of `grokdeclarator` undoes the layers one by one. */
  lemma {:induction false} GrokUndoes(d: Declarator, t: CType, lead: Quals)
    requires Declarable(t) && GoodParms(t)
    ensures var n := Normal(t, lead);
      GrokLoop(Base(DataType(t), PLAIN), lead, Layers(d, t)) == GrokLoop(Raw(n), n.q, d)
    decreases t, 1
  {
    match t
    case Base(_, _) =>
    case Pointer(target, q) =>
      var i := IndirectRef(QText(q), d);
      QTextQuals(q);
      GrokUndoes(i, target, lead);
      MergeRaw(target, lead);
      var n := Normal(target, lead);
      assert GrokLayer(Raw(n), n.q, i) == Some((Pointer(n, PLAIN), q));
    case Array(element, size, q) =>
      var a := ArrayRef(d, size);
      GrokUndoes(a, element, lead);
      MergeArray(element, lead, size);
      var n := Normal(element, lead);
      assert GrokLayer(Raw(n), n.q, a) == Some((Array(n, size, n.q), n.q));
    case Function(result, parms, q) =>
      var c := CallExpr(d, ListOf(parms));
      GrokUndoes(c, result, lead);
      MergeRaw(result, lead);
      GrokParmsUndoes(parms);
      var n := Normal(result, lead);
      assert GrokLayer(Raw(n), n.q, c) == Some((Function(n, NormalParms(parms), PLAIN), PLAIN));
  }

  lemma {:induction false} GrokParmsUndoes(parms: Parms)
    requires parms.Prototype? ==> AllDeclarable(parms.types) && GoodTypes(parms.types)
    requires parms.Prototype? && parms.variadic ==> parms.types != []
    ensures GrokParms(ListOf(parms)) == Some(NormalParms(parms))
    decreases parms, 0
  {
    if parms.Prototype? {
      if parms.types == [] {
        var void := ParmDecl([], "void", Omitted);
        assert GrokParm(void) == Some(Base("void", PLAIN));
        assert [void][1..] == [] && GrokAll([]) == Some([]);
        assert [Base("void", PLAIN)] + [] == [Base("void", PLAIN)];
      } else {
        GrokAllUndoes(parms.types);
        NotVoid(parms.types[0], LeadingQualifiers(parms.types[0]));
      }
    }
  }

  lemma NotVoid(t: CType, lead: Quals)
    ensures IsVoid(Normal(t, lead)) == IsVoid(t)
  {
  }

  lemma {:induction false} GrokAllUndoes(types: seq<CType>)
    requires AllDeclarable(types) && GoodTypes(types)
    ensures GrokAll(DeclsOf(types)) == Some(NormalTypes(types))
    decreases types
  {
    if types != [] {
      GrokParmUndoes(types[0]);
      GrokAllUndoes(types[1..]);
      assert DeclsOf(types)[1..] == DeclsOf(types[1..]);
    }
  }

  lemma {:induction false} GrokParmUndoes(t: CType)
    requires Declarable(t) && GoodParm(t)
    ensures GrokParm(DeclOf(t)) == Some(Normal(t, LeadingQualifiers(t)))
    decreases t, 2
  {
    GrokUndoes(Omitted, t, LeadingQualifiers(t));
    QTextQuals(PLAIN);
  }

  lemma {:induction false} LayersName(d: Declarator, t: CType)
    ensures NameOf(Layers(d, t)) == NameOf(d)
    decreases t
  {
    match t
    case Base(_, _) =>
    case Pointer(target, q) => LayersName(IndirectRef(QText(q), d), target);
    case Array(element, size, _) => LayersName(ArrayRef(d, size), element);
    case Function(result, parms, _) => LayersName(CallExpr(d, ListOf(parms)), result);
  }

  /** What the printed declaration of any type declares. */
  lemma PrintedMeans(name: Option<string>, t: CType)
    requires Declarable(t) && GoodParms(t)
    ensures ReadDeclaration(Declaration(name, t)) == Some((name, Normal(t, LeadingQualifiers(t))))
  {
    var d := if name.Some? then Identifier(name.value) else Omitted;
    var p := ParmDecl(Leading(t), DataType(t), Layers(d, t));
    TypeWrites(d, t);
    LeadingQuals(t);
    LayersFine(d, t);
    ReadWrittenDecl(p, []);
    assert DeclText(p) + [] == DeclText(p);
    hide ReadParm, Leading, DeclText, Layers, GenType, Affix;
    GrokUndoes(d, t, LeadingQualifiers(t));
    MergeRaw(t, LeadingQualifiers(t));
    LayersName(d, t);
  }

  // ---------------------------------------------------------------- the exact condition

  /** The types that the compiler builds: an array has the qualifiers of its elements, a function has
      none. */
  predicate Consistent(t: CType)
    decreases t, 0
  {
    match t
    case Base(_, _) => true
    case Pointer(target, _) => Consistent(target)
    case Array(element, _, q) => q == element.q && Consistent(element)
    case Function(result, parms, q) =>
      q == PLAIN && Consistent(result) && (parms.Prototype? ==> AllConsistent(parms.types))
  }

  predicate AllConsistent(types: seq<CType>)
    decreases types
  {
    types == [] || (Consistent(types[0]) && AllConsistent(types[1..]))
  }

  function BaseQ(t: CType): Quals {
    match t
    case Base(_, q) => q
    case Pointer(target, _) => BaseQ(target)
    case Array(element, _, _) => BaseQ(element)
    case Function(result, _, _) => BaseQ(result)
  }

  predicate Within(a: Quals, b: Quals) {
    (a.isConst ==> b.isConst) && (a.isVolatile ==> b.isVolatile)
  }

  /** No array on the way to the base type is of pointers with qualifiers that the base type lacks. */
  predicate ArraysWithin(t: CType, b: Quals) {
    match t
    case Base(_, _) => true
    case Pointer(target, _) => ArraysWithin(target, b)
    case Array(element, _, q) => Within(q, b) && ArraysWithin(element, b)
    case Function(result, _, _) => ArraysWithin(result, b)
  }

  /** The same for the type and for every parameter in it. */
  predicate PrintsTrue(t: CType)
    decreases t, 1
  {
    ArraysWithin(t, BaseQ(t)) && ParmsPrintTrue(t)
  }

  predicate ParmsPrintTrue(t: CType)
    decreases t, 0
  {
    match t
    case Base(_, _) => true
    case Pointer(target, _) => ParmsPrintTrue(target)
    case Array(element, _, _) => ParmsPrintTrue(element)
    case Function(result, parms, _) =>
      ParmsPrintTrue(result) && (parms.Prototype? ==> AllPrintTrue(parms.types))
  }

  predicate AllPrintTrue(types: seq<CType>)
    decreases types
  {
    types == [] || (PrintsTrue(types[0]) && AllPrintTrue(types[1..]))
  }

  function Union(a: Quals, b: Quals): Quals {
    Quals(a.isConst || b.isConst, a.isVolatile || b.isVolatile)
  }

  lemma QualifiedAppend(a: Text, b: Text)
    ensures Qualified(a + b) == Union(Qualified(a), Qualified(b))
  {
  }

  /** The leading qualifiers are those of the base type and of the arrays. */
  lemma {:induction false} LeadingIsBase(t: CType, b: Quals)
    requires Consistent(t) && Within(BaseQ(t), b)
    ensures Within(BaseQ(t), LeadingQualifiers(t))
    ensures Within(LeadingQualifiers(t), b) <==> ArraysWithin(t, b)
    decreases t
  {
    QTextQuals(t.q);
    match t
    case Base(_, _) =>
    case Pointer(target, _) => LeadingIsBase(target, b);
    case Array(element, _, q) => LeadingIsBase(element, b); QualifiedAppend(QText(q), Leading(element));
    case Function(result, _, q) => LeadingIsBase(result, b); QualifiedAppend(QText(q), Leading(result));
  }

  lemma {:induction false} NormalIsSame(t: CType, lead: Quals)
    requires Consistent(t)
    ensures Normal(t, lead) == t <==> lead == BaseQ(t) && ParmsPrintTrue(t)
    decreases t, 0
  {
    match t
    case Base(_, _) =>
    case Pointer(target, _) => NormalIsSame(target, lead);
    case Array(element, _, _) => NormalIsSame(element, lead);
    case Function(result, parms, _) =>
      NormalIsSame(result, lead);
      if parms.Prototype? {
        TypesSame(parms.types);
      }
  }

  lemma {:induction false} TypesSame(types: seq<CType>)
    requires AllConsistent(types)
    ensures NormalTypes(types) == types <==> AllPrintTrue(types)
    decreases types
  {
    if types != [] {
      var t := types[0];
      LeadingIsBase(t, BaseQ(t));
      NormalIsSame(t, LeadingQualifiers(t));
      TypesSame(types[1..]);
      assert types == [t] + types[1..];
      assert NormalTypes(types)[0] == Normal(t, LeadingQualifiers(t)) && NormalTypes(types)[1..] == NormalTypes(types[1..]);
    }
  }

  /** A type of the compiler is read back from its text exactly if none of its arrays is of pointers
      with more qualifiers than the base type. */
  lemma RoundTrip(name: Option<string>, t: CType)
    requires Declarable(t) && GoodParms(t) && Consistent(t)
    ensures ReadDeclaration(Declaration(name, t)) == Some((name, t)) <==> PrintsTrue(t)
  {
    PrintedMeans(name, t);
    LeadingIsBase(t, BaseQ(t));
    NormalIsSame(t, LeadingQualifiers(t));
  }

  /** `int *const x[3]` is printed as `const int *const x[3]`. */
  lemma ArrayOfConstPointers()
    ensures var t := Array(Pointer(Base("int", PLAIN), Quals(true, false)), Elements(3), Quals(true, false));
      && Declarable(t) && GoodParms(t) && Consistent(t)
      && ReadDeclaration(Declaration(Some("x"), t))
         == Some((Some("x"), Array(Pointer(Base("int", Quals(true, false)), Quals(true, false)), Elements(3), Quals(true, false))))
  {
    var t := Array(Pointer(Base("int", PLAIN), Quals(true, false)), Elements(3), Quals(true, false));
    PrintedMeans(Some("x"), t);
    LeadingIsBase(t, Quals(true, false));
    assert ConstTok in QText(t.q);
  }

  /** Whatever is read is a type as the compiler builds them. */
  lemma {:induction false} NormalConsistent(t: CType, lead: Quals)
    ensures Consistent(Normal(t, lead))
    decreases t, 0
  {
    match t
    case Base(_, _) =>
    case Pointer(target, _) => NormalConsistent(target, lead);
    case Array(element, _, _) => NormalConsistent(element, lead);
    case Function(result, parms, _) =>
      NormalConsistent(result, lead);
      if parms.Prototype? {
        TypesConsistent(parms.types);
      }
  }

  lemma {:induction false} TypesConsistent(types: seq<CType>)
    ensures AllConsistent(NormalTypes(types))
    decreases types
  {
    if types != [] {
      NormalConsistent(types[0], LeadingQualifiers(types[0]));
      TypesConsistent(types[1..]);
      assert NormalTypes(types)[1..] == NormalTypes(types[1..]);
    }
  }

  // ---------------------------------------------------------------- what can be read

  /** A type as the compiler builds them. */
  predicate Built(t: CType) { Declarable(t) && Consistent(t) }

  /** A type in the loop of `grokdeclarator` with the qualifiers that are pending. */
  predicate Pending(t: CType, q: Quals) {
    Built(t) && (t.q == PLAIN || t.q == q) && (t.Function? ==> q == PLAIN)
  }

  lemma {:induction false} VariantBuilt(t: CType, q: Quals)
    requires Built(t) && (t.Function? ==> q == PLAIN)
    ensures var v := Variant(t, q); Built(v) && v.q == q && v.Function? == t.Function? && Suffixed(v) == Suffixed(t) && IsVoid(v) == IsVoid(t)
    decreases t
  {
    if t.Array? {
      VariantBuilt(t.element, q);
    }
  }

  lemma ArrayKeeps(t: CType, size: Size, q: Quals)
    requires Pending(t, q) && !t.Function? && !IsVoid(t)
    ensures Pending(VariantIf(Array(t, size, PLAIN), q), q)
  {
    VariantBuilt(t, q);
    hide IsVoid;
  }

  lemma FunctionKeeps(t: CType, parms: Parms, q: Quals)
    requires Pending(t, q) && !Suffixed(t)
    requires parms.Prototype? ==> AllDeclarable(parms.types) && AllConsistent(parms.types)
    ensures Pending(Function(VariantIf(t, q), parms, PLAIN), PLAIN)
  {
    VariantBuilt(t, q);
  }

  lemma PointerKeeps(t: CType, q: Quals, r: Quals)
    requires Pending(t, q)
    ensures Pending(Pointer(VariantIf(t, q), PLAIN), r)
  {
    VariantBuilt(t, q);
  }

  lemma {:induction false} LayerKeeps(t: CType, q: Quals, d: Declarator)
    requires Pending(t, q) && !d.Identifier? && !d.Omitted? && GrokLayer(t, q, d).Some?
    ensures var (u, r) := GrokLayer(t, q, d).value; Pending(u, r)
    decreases d, 0
  {
    hide Pending;
    match d
    case ArrayRef(_, size) => ArrayKeeps(t, size, q);
    case CallExpr(_, parms) =>
      ParmsKeep(parms);
      var returned := if Suffixed(t) then Base("int", PLAIN) else t;
      assert Pending(returned, q) by {
        assert Pending(Base("int", PLAIN), q) by { BasePending("int", q); }
      }
      FunctionKeeps(returned, GrokParms(parms).value, q);
    case IndirectRef(quals, _) => PointerKeeps(t, q, Qualified(quals));
  }

  lemma BasePending(name: string, q: Quals)
    ensures Pending(Base(name, PLAIN), q)
  {
  }

  lemma {:induction false} LoopKeeps(t: CType, q: Quals, d: Declarator)
    requires Pending(t, q) && GrokLoop(t, q, d).Some?
    ensures var (u, r) := GrokLoop(t, q, d).value; Pending(u, r)
    decreases d, 1
  {
    hide Pending, GrokLayer;
    if !d.Identifier? && !d.Omitted? {
      LayerKeeps(t, q, d);
      var (u, r) := GrokLayer(t, q, d).value;
      LoopKeeps(u, r, d.inner);
    }
  }

  lemma {:induction false} ParmKeeps(p: ParmDecl)
    requires GrokParm(p).Some?
    ensures Built(GrokParm(p).value) && !Suffixed(GrokParm(p).value)
    decreases p, 2
  {
    var base, q := Base(p.spec, PLAIN), Qualified(p.quals);
    BasePending(p.spec, q);
    LoopKeeps(base, q, p.declarator);
    hide GrokLoop;
    var (t, r) := GrokLoop(base, q, p.declarator).value;
    match t
    case Array(element, _, _) => VariantBuilt(element, r);
    case _ =>
  }

  lemma {:induction false} AllKeep(decls: seq<ParmDecl>)
    requires GrokAll(decls).Some?
    ensures AllDeclarable(GrokAll(decls).value) && AllConsistent(GrokAll(decls).value)
    decreases decls
  {
    hide GrokParm;
    if decls != [] {
      ParmKeeps(decls[0]);
      AllKeep(decls[1..]);
      var first, others := GrokParm(decls[0]).value, GrokAll(decls[1..]).value;
      assert ([first] + others)[1..] == others;
    }
  }

  lemma {:induction false} ParmsKeep(parms: ParmList)
    requires GrokParms(parms).Some?
    ensures var r := GrokParms(parms).value; r.Prototype? ==> AllDeclarable(r.types) && AllConsistent(r.types)
    decreases parms, 1
  {
    if parms.decls != [] {
      AllKeep(parms.decls);
    }
    hide GrokAll;
  }

  /** Every type that is read from any text is one that the compiler builds: there are no arrays of functions
      or of void, no functions that return arrays or functions, and an array has the qualifiers of its
      elements. */
  lemma ReadIsBuilt(ts: Text)
    requires ReadDeclaration(ts).Some?
    ensures Declarable(ReadDeclaration(ts).value.1) && Consistent(ReadDeclaration(ts).value.1)
  {
    var d := ReadParm(ts).value.0;
    BasePending(d.spec, Qualified(d.quals));
    LoopKeeps(Base(d.spec, PLAIN), Qualified(d.quals), d.declarator);
    var (t, q) := GrokLoop(Base(d.spec, PLAIN), Qualified(d.quals), d.declarator).value;
    hide GrokLoop, ReadParm;
    VariantBuilt(t, q);
  }
}
