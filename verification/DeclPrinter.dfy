/**
 The printer as it runs, with `data_type` as the variable that every part of it overwrites, and the
 loop of `grokdeclarator`.
 */
module DeclPrinter {
  import opened Helpers
  import opened Declarators
  import opened DeclTheorem

  lemma {:induction false} FormalTextsSnoc(types: seq<CType>, t: CType)
    ensures var first := Affix(DataType(t), GenType([], t));
      FormalTexts(types + [t]) == if types == [] then first else FormalTexts(types) + ([Comma] + first)
  {
    if |types| > 0 {
      assert (types + [t])[1..] == types[1..] + [t];
      FormalTextsSnoc(types[1..], t);
      if |types| > 1 {
        var first := Affix(DataType(t), GenType([], t));
        var head := Affix(DataType(types[0]), GenType([], types[0]));
        assert head + [Comma] + (FormalTexts(types[1..]) + ([Comma] + first)) == (head + [Comma] + FormalTexts(types[1..])) + ([Comma] + first);
      }
    } else {
      assert types + [t] == [t];
    }
  }

  /** One more qualifier passed in front of the place for the data type. */
  lemma QualifierPassed(dataType: string, text: Text, p: nat)
    requires p < |text| && IsQual(text[p])
    ensures text[..p] + Affix(dataType, text[p..]) == text[..p + 1] + Affix(dataType, text[p + 1..])
  {
    assert text[p..][1..] == text[p + 1..];
    var rest := Affix(dataType, text[p + 1..]);
    assert Affix(dataType, text[p..]) == [text[p]] + rest;
    hide Affix;
    assert text[..p + 1] == text[..p] + [text[p]];
  }

  lemma NoQualifier(dataType: string, text: Text)
    requires text == [] || !IsQual(text[0])
    ensures Affix(dataType, text) == [Spec(dataType)] + text
  {
  }

  lemma NoFormals()
    ensures FormalTexts([]) == []
  {
  }

  class TypePrinter {
    var dataType: string

    constructor ()
      ensures dataType == ""
    {
      dataType := "";
    }

    /** `affix_data_type`: skip the qualifiers in front, then insert the type. */
    method AffixDataType(text: Text) returns (r: Text)
      ensures r == Affix(dataType, text)
    {
      hide Affix;
      var p := 0;
      assert text[0..] == text && text[..0] + Affix(dataType, text) == Affix(dataType, text);
      while p < |text| && IsQual(text[p])
        invariant 0 <= p <= |text|
        invariant Affix(dataType, text) == text[..p] + Affix(dataType, text[p..])
      {
        QualifierPassed(dataType, text, p);
        p := p + 1;
      }
      NoQualifier(dataType, text[p..]);
      r := text[..p] + ([Spec(dataType)] + text[p..]);
    }

    /** `gen_type`. The parameters of a function leave their own types in `data_type`; the result type
        of the function, which comes after them, puts it right. */
    method PrintType(seed: Text, t: CType) returns (r: Text)
      modifies this
      ensures r == GenType(seed, t) && dataType == DataType(t)
      decreases t, 0
    {
      hide QText, SizeText, FormalList;
      r := seed;
      match t {
        case Base(name, _) =>
          dataType := name;
        case Pointer(target, q) =>
          r := [Star] + (QText(q) + r);
          if Suffixed(target) {
            r := [Open] + r + [Close];
          }
          r := PrintType(r, target);
          return;
        case Array(element, size, _) =>
          r := PrintType(r + SizeText(size), element);
        case Function(result, parms, _) =>
          var list := PrintFormals(parms);
          r := PrintType(r + list, result);
      }
      r := Qualify(t.q, r);
    }

    /** The qualifiers go in front, one after the other. */
    method Qualify(q: Quals, text: Text) returns (r: Text)
      ensures r == QText(q) + text
    {
      r := text;
      if q.isConst {
        r := [ConstTok] + r;
      }
      if q.isVolatile {
        r := [VolatileTok] + r;
      }
    }

    /** `gen_formal_list_for_type` */
    method PrintFormals(parms: Parms) returns (r: Text)
      modifies this
      ensures r == FormalList(parms)
      decreases parms, 1
    {
      hide FormalTexts;
      var list := [];
      if parms.Prototype? {
        list := PrintTypes(parms.types);
        if parms.types == [] {
          list := [Spec("void")];
        } else if parms.variadic {
          list := list + [Comma, Ellipsis];
        }
      }
      r := [Open] + list + [Close];
    }

    /** The loop over the parameters. */
    method PrintTypes(types: seq<CType>) returns (list: Text)
      modifies this
      ensures list == FormalTexts(types)
      decreases types
    {
      hide GenType, Affix, DataType, FormalTexts;
      list := [];
      NoFormals();
      var k := 0;
      while k < |types|
        invariant 0 <= k <= |types| && list == FormalTexts(types[..k])
      {
        if k > 0 {
          list := list + [Comma];
        }
        var text := PrintType([], types[k]);
        text := AffixDataType(text);
        FormalTextsSnoc(types[..k], types[k]);
        assert types[..k + 1] == types[..k] + [types[k]];
        list := list + text;
        k := k + 1;
      }
      assert types[..k] == types;
    }

    /** The text of a declaration: `gen_type` first, `affix_data_type` on its result. */
    method PrintDeclaration(name: Option<string>, t: CType) returns (r: Text)
      modifies this
      ensures r == Declaration(name, t)
    {
      r := PrintType(if name.Some? then [Name(name.value)] else [], t);
      r := AffixDataType(r);
    }
  }

  /** The loop of `grokdeclarator` over the layers of the declarator, outermost first. */
  method Grok(spec: Quals, base: CType, declarator: Declarator) returns (r: Option<(CType, Quals)>)
    ensures r == GrokLoop(base, spec, declarator)
  {
    var t, pending, d := base, spec, declarator;
    while !d.Identifier? && !d.Omitted?
      invariant GrokLoop(t, pending, d) == GrokLoop(base, spec, declarator)
      decreases d
    {
      match d {
        case ArrayRef(inner, size) =>
          if t.Function? || IsVoid(t) {
            return None;
          }
          t := VariantIf(Array(t, size, PLAIN), pending);
        case CallExpr(inner, parms) =>
          var arguments := GrokParms(parms);
          if arguments.None? {
            return None;
          }
          if Suffixed(t) {
            t := Base("int", PLAIN);
          }
          t := Function(VariantIf(t, pending), arguments.value, PLAIN);
          pending := PLAIN;
        case IndirectRef(quals, inner) =>
          t := Pointer(VariantIf(t, pending), PLAIN);
          pending := Qualified(quals);
      }
      d := d.inner;
    }
    r := Some((t, pending));
  }
}
