/**
 Which chains of conversions are reasonable, said of the typecodes that they go through.
 */
module ConversionSteps {
  import opened Helpers
  import opened Conversions
  import opened ConversionSearch

  /** The typecodes of a chain from the first to the last. */
  function Types(c: Chain): seq<Typecode> {
    if c.Nil? then [] else Types(c.prev) + [c.to]
  }

  predicate Integer(t: Typecode) { t.kind == Signed || t.kind == Unsigned }

  /** Step `i` goes from an integer to a floating type, or the other way. */
  predicate FloatsAt(ts: seq<Typecode>, i: nat)
    requires i + 1 < |ts|
  {
    Integer(ts[i]) && ts[i + 1].kind == Floating
  }

  predicate TruncatesAt(ts: seq<Typecode>, i: nat)
    requires i + 1 < |ts|
  {
    ts[i].kind == Floating && Integer(ts[i + 1])
  }

  /** It goes to a larger type of the same kind. */
  predicate ExtendsAt(ts: seq<Typecode>, i: nat, kind: Kind)
    requires i + 1 < |ts|
  {
    ts[i].kind == kind && ts[i + 1].kind == kind && ts[i].size < ts[i + 1].size
  }

  /** It goes from one kind of integer to the other. */
  predicate ChangesSignAt(ts: seq<Typecode>, i: nat)
    requires i + 1 < |ts|
  {
    Integer(ts[i]) && Integer(ts[i + 1]) && ts[i].kind != ts[i + 1].kind
  }

  predicate WidensAt(ts: seq<Typecode>, i: nat)
    requires i + 1 < |ts|
  {
    Integer(ts[i]) && Integer(ts[i + 1]) && ts[i].size < ts[i + 1].size
  }

  predicate Distinct(ts: seq<Typecode>) {
    forall i, j :: 0 <= i < j < |ts| ==> ts[i] != ts[j]
  }

  predicate Growing(ts: seq<Typecode>) {
    forall i, j :: 0 <= i < j < |ts| ==> ts[i].size <= ts[j].size
  }

  predicate Shrinking(ts: seq<Typecode>) {
    forall i, j :: 0 <= i < j < |ts| ==> ts[i].size >= ts[j].size
  }

  /** Floating values are not entered and left. */
  predicate OneSideOfFloating(ts: seq<Typecode>) {
    forall i, j :: 0 <= i < |ts| - 1 && 0 <= j < |ts| - 1 ==> !(FloatsAt(ts, i) && TruncatesAt(ts, j))
  }

  predicate OneExtension(ts: seq<Typecode>) {
    forall i, j :: 0 <= i < |ts| - 1 && 0 <= j < |ts| - 1 ==> !(ExtendsAt(ts, i, Signed) && ExtendsAt(ts, j, Unsigned))
  }

  predicate WidensFirst(ts: seq<Typecode>) {
    forall i, j :: 0 <= i < j < |ts| - 1 ==> !(ChangesSignAt(ts, i) && WidensAt(ts, j))
  }

  /** No type comes twice, the sizes go one way, sign and zero extension are not mixed, nor conversions to
      and from floating types, and no integer is widened behind a change of its sign. */
  predicate Sensible(ts: seq<Typecode>) {
    && Distinct(ts) && (Growing(ts) || Shrinking(ts))
    && OneSideOfFloating(ts) && OneExtension(ts) && WidensFirst(ts)
  }

  /** A chain from `from` whose links are conversions of the table. */
  predicate Linked(c: Chain, table: seq<Conversion>, from: Typecode) {
    c == Node(-1, from, 0, Nil) || (c.Node? && c.prev.Node? && Linked(c.prev, table, from) && LinkOf(c, table))
  }

  predicate LinkOf(c: Chain, table: seq<Conversion>)
    requires c.Node? && c.prev.Node?
  {
    exists i :: 0 <= i < |table| && table[i].from == c.prev.to
                && table[i].to == c.to && table[i].opcode == c.opcode && table[i].cost == c.cost
  }

  // ---------------------------------------------------------------- one more step

  lemma {:induction false} AppearsIn(t: Typecode, c: Chain)
    ensures Appears(t, c) <==> t in Types(c)
  {
    if c.Node? {
      AppearsIn(t, c.prev);
    }
  }

  lemma {:induction false} TypesLength(c: Chain)
    ensures |Types(c)| == Length(c)
    ensures c.Node? ==> |Types(c)| > 0 && Types(c)[|Types(c)| - 1] == c.to && Types(c)[..|Types(c)| - 1] == Types(c.prev)
  {
    if c.Node? {
      TypesLength(c.prev);
    }
  }

  predicate StepAt(k: StepKind, ts: seq<Typecode>, i: nat)
    requires i + 1 < |ts|
  {
    match k
    case IntToFloat => FloatsAt(ts, i)
    case FloatToInt => TruncatesAt(ts, i)
    case SignExtend => ExtendsAt(ts, i, Signed)
    case ZeroExtend => ExtendsAt(ts, i, Unsigned)
    case SignedToUnsigned => ChangesSignAt(ts, i) && ts[i].kind == Signed
    case UnsignedToSigned => ChangesSignAt(ts, i) && ts[i].kind == Unsigned
  }

  predicate SomeStep(k: StepKind, ts: seq<Typecode>) {
    exists i :: 0 <= i < |ts| - 1 && StepAt(k, ts, i)
  }

  lemma StepIs(k: StepKind, ts: seq<Typecode>, i: nat)
    requires i + 1 < |ts|
    ensures StepAt(k, ts, i) <==> IsStep(k, ts[i], ts[i + 1])
  {
  }

  lemma SomeStepSnoc(k: StepKind, ts: seq<Typecode>, t: Typecode)
    requires ts != []
    ensures SomeStep(k, ts + [t]) <==> SomeStep(k, ts) || IsStep(k, ts[|ts| - 1], t)
  {
    var all := ts + [t];
    StepIs(k, all, |ts| - 1);
    forall i | 0 <= i < |ts| - 1
      ensures StepAt(k, all, i) <==> StepAt(k, ts, i)
    {
      StepIs(k, all, i);
      StepIs(k, ts, i);
    }
    hide StepAt, IsStep;
  }

  lemma {:induction false} HasStepIs(k: StepKind, c: Chain)
    ensures HasStep(k, c) <==> SomeStep(k, Types(c))
  {
    hide IsStep, StepAt;
    if c.Node? && c.prev.Node? {
      HasStepIs(k, c.prev);
      TypesLength(c.prev);
      SomeStepSnoc(k, Types(c.prev), c.to);
    }
  }

  lemma {:induction false} RisesIs(size: nat, c: Chain)
    ensures Rises(size, c) <==> Growing(Types(c)) && forall i :: 0 <= i < |Types(c)| ==> Types(c)[i].size <= size
    decreases c
  {
    if c.Node? {
      RisesIs(c.to.size, c.prev);
      GrowingSnoc(Types(c.prev), c.to);
      assert forall i :: 0 <= i < |Types(c.prev)| ==> Types(c)[i] == Types(c.prev)[i];
      assert Types(c)[|Types(c.prev)|] == c.to;
    }
  }

  lemma GrowingSnoc(ts: seq<Typecode>, t: Typecode)
    ensures Growing(ts + [t]) <==> Growing(ts) && forall i :: 0 <= i < |ts| ==> ts[i].size <= t.size
  {
    var all := ts + [t];
    assert forall i :: 0 <= i < |ts| ==> all[i] == ts[i];
    assert all[|ts|] == t;
  }

  lemma {:induction false} FallsIs(size: nat, c: Chain)
    ensures Falls(size, c) <==> Shrinking(Types(c)) && forall i :: 0 <= i < |Types(c)| ==> Types(c)[i].size >= size
    decreases c
  {
    if c.Node? {
      FallsIs(c.to.size, c.prev);
      ShrinkingSnoc(Types(c.prev), c.to);
      assert forall i :: 0 <= i < |Types(c.prev)| ==> Types(c)[i] == Types(c.prev)[i];
      assert Types(c)[|Types(c.prev)|] == c.to;
    }
  }

  lemma ShrinkingSnoc(ts: seq<Typecode>, t: Typecode)
    ensures Shrinking(ts + [t]) <==> Shrinking(ts) && forall i :: 0 <= i < |ts| ==> ts[i].size >= t.size
  {
    var all := ts + [t];
    assert forall i :: 0 <= i < |ts| ==> all[i] == ts[i];
    assert all[|ts|] == t;
  }

  lemma DistinctSnoc(ts: seq<Typecode>, t: Typecode)
    ensures Distinct(ts + [t]) <==> Distinct(ts) && t !in ts
  {
    var all := ts + [t];
    assert forall i :: 0 <= i < |ts| ==> all[i] == ts[i];
    assert all[|ts|] == t;
  }

  lemma MixesAre(ts: seq<Typecode>)
    ensures OneSideOfFloating(ts) <==> !(SomeStep(IntToFloat, ts) && SomeStep(FloatToInt, ts))
    ensures OneExtension(ts) <==> !(SomeStep(SignExtend, ts) && SomeStep(ZeroExtend, ts))
  {
    hide FloatsAt, TruncatesAt, ExtendsAt, ChangesSignAt;
    forall i | 0 <= i < |ts| - 1
      ensures StepAt(IntToFloat, ts, i) == FloatsAt(ts, i) && StepAt(FloatToInt, ts, i) == TruncatesAt(ts, i)
      ensures StepAt(SignExtend, ts, i) == ExtendsAt(ts, i, Signed) && StepAt(ZeroExtend, ts, i) == ExtendsAt(ts, i, Unsigned)
    {
    }
  }

  lemma SignChanges(ts: seq<Typecode>, i: nat)
    requires i + 1 < |ts|
    ensures ChangesSignAt(ts, i) <==> StepAt(SignedToUnsigned, ts, i) || StepAt(UnsignedToSigned, ts, i)
  {
  }

  lemma WidensFirstSnoc(ts: seq<Typecode>, t: Typecode)
    requires ts != []
    ensures var last := ts[|ts| - 1];
      WidensFirst(ts + [t]) <==>
        WidensFirst(ts)
        && !(Integer(last) && Integer(t) && last.size < t.size
             && (SomeStep(SignedToUnsigned, ts) || SomeStep(UnsignedToSigned, ts)))
  {
    var all := ts + [t];
    forall i | 0 <= i < |ts| - 1
      ensures ChangesSignAt(all, i) == ChangesSignAt(ts, i) && WidensAt(all, i) == WidensAt(ts, i)
      ensures ChangesSignAt(ts, i) <==> StepAt(SignedToUnsigned, ts, i) || StepAt(UnsignedToSigned, ts, i)
    {
      SignChanges(ts, i);
    }
    assert WidensAt(all, |ts| - 1) <==> Integer(ts[|ts| - 1]) && Integer(t) && ts[|ts| - 1].size < t.size;
    hide ChangesSignAt, WidensAt, StepAt;
  }

  /** A sensible sequence and one more type. */
  lemma SensibleSnoc(ts: seq<Typecode>, t: Typecode)
    requires ts != []
    ensures var all, last := ts + [t], ts[|ts| - 1];
      Sensible(all) <==>
        && Distinct(ts) && t !in ts && (Growing(all) || Shrinking(all))
        && !((SomeStep(IntToFloat, ts) || IsStep(IntToFloat, last, t)) && (SomeStep(FloatToInt, ts) || IsStep(FloatToInt, last, t)))
        && !((SomeStep(SignExtend, ts) || IsStep(SignExtend, last, t)) && (SomeStep(ZeroExtend, ts) || IsStep(ZeroExtend, last, t)))
        && WidensFirst(ts)
        && !(Integer(last) && Integer(t) && last.size < t.size
             && (SomeStep(SignedToUnsigned, ts) || SomeStep(UnsignedToSigned, ts)))
    ensures Sensible(ts + [t]) ==> Sensible(ts)
  {
    DistinctSnoc(ts, t);
    MixesAre(ts + [t]);
    MixesAre(ts);
    WidensFirstSnoc(ts, t);
    SomeStepSnoc(IntToFloat, ts, t);
    SomeStepSnoc(FloatToInt, ts, t);
    SomeStepSnoc(SignExtend, ts, t);
    SomeStepSnoc(ZeroExtend, ts, t);
    GrowingSnoc(ts, t);
    ShrinkingSnoc(ts, t);
    hide Distinct, OneSideOfFloating, OneExtension, WidensFirst, SomeStep, IsStep, Growing, Shrinking, Integer;
  }

  /** What `conversion_reasonable_p` accepts at the end of a sensible chain: exactly the steps with which it
      stays sensible. */
  lemma ReasonableMeans(v: Conversion, list: Chain)
    requires list.Node? && v.from == list.to && Sensible(Types(list))
    ensures Reasonable(v, list) <==> Sensible(Types(list) + [v.to])
  {
    var ts := Types(list);
    TypesLength(list);
    AppearsIn(v.to, list);
    HasStepIs(IntToFloat, list);
    HasStepIs(FloatToInt, list);
    HasStepIs(SignExtend, list);
    HasStepIs(ZeroExtend, list);
    HasStepIs(SignedToUnsigned, list);
    HasStepIs(UnsignedToSigned, list);
    RisesIs(v.to.size, list);
    FallsIs(v.to.size, list);
    GrowingSnoc(ts, v.to);
    ShrinkingSnoc(ts, v.to);
    SensibleSnoc(ts, v.to);
    assert WidensInteger(v) <==> Integer(v.from) && Integer(v.to) && v.from.size < v.to.size;
    hide Types, Distinct, OneSideOfFloating, OneExtension, WidensFirst, SomeStep, IsStep, Growing, Shrinking, Integer, HasStep, Rises, Falls, Appears;
  }

  lemma FirstIsSensible(from: Typecode)
    ensures Sensible(Types(First(from)))
  {
    assert Types(First(from)) == [from];
  }

  /** The chains that the search builds are exactly the linked ones that are sensible. */
  lemma {:induction false} StepwiseExactly(c: Chain, table: seq<Conversion>, from: Typecode)
    ensures Stepwise(c, table, from) <==> Linked(c, table, from) && Sensible(Types(c))
    decreases c
  {
    hide Sensible, Reasonable;
    if c == First(from) {
      FirstIsSensible(from);
    } else if c.Node? && c.prev.Node? {
      StepwiseExactly(c.prev, table, from);
      TypesLength(c.prev);
      SensibleSnoc(Types(c.prev), c.to);
      if Sensible(Types(c.prev)) {
        forall i | 0 <= i < |table| && table[i].from == c.prev.to && table[i].to == c.to
          ensures Reasonable(table[i], c.prev) <==> Sensible(Types(c))
        {
          ReasonableMeans(table[i], c.prev);
        }
        LinkFits(c, table);
      }
    }
  }

  lemma LinkFits(c: Chain, table: seq<Conversion>)
    requires c.Node? && c.prev.Node?
    requires forall i :: 0 <= i < |table| && table[i].from == c.prev.to && table[i].to == c.to ==>
      (Reasonable(table[i], c.prev) <==> Sensible(Types(c)))
    ensures Extends(c, table) <==> LinkOf(c, table) && Sensible(Types(c))
  {
    hide Sensible, Reasonable, Types;
    if LinkOf(c, table) && Sensible(Types(c)) {
      var i :| 0 <= i < |table| && table[i].from == c.prev.to
               && table[i].to == c.to && table[i].opcode == c.opcode && table[i].cost == c.cost;
      assert Fits(table[i], c.prev) && c == Add(table[i], c.prev);
    }
    if Extends(c, table) {
      var i :| 0 <= i < |table| && Fits(table[i], c.prev) && c == Add(table[i], c.prev);
      assert table[i].from == c.prev.to && table[i].to == c.to;
    }
  }

  /** The search finds something exactly if some linked and sensible chain ends in the target. */
  lemma FindsSensible(table: seq<Conversion>, from: Typecode, to: Typecode)
    ensures Collected(table, from, to) != [] <==>
            exists c :: Linked(c, table, from) && Sensible(Types(c)) && c.Node? && c.to == to
  {
    FindsExactly(table, from, to);
    forall c
      ensures Leads(c, table, from, to) <==> c.Node? && Linked(c, table, from) && Sensible(Types(c)) && c.to == to
    {
      StepwiseExactly(c, table, from);
    }
    hide Collected, Leads, Linked, Sensible, Types;
  }

  // ---------------------------------------------------------------- what a recipe does

  /** What the bytecodes do to a value; the step that emits nothing leaves it alone. */
  function Perform<V>(meaning: (Opcode, V) -> V, o: Opcode, v: V): V {
    if o == -1 then v else meaning(o, v)
  }

  /** The bytecodes performed one after the other. */
  function Execute<V>(meaning: (Opcode, V) -> V, opcodes: seq<Opcode>, v: V): V {
    if opcodes == [] then v
    else meaning(opcodes[|opcodes| - 1], Execute(meaning, opcodes[..|opcodes| - 1], v))
  }

  /** The conversion makes values of its target type of the values of its source type. */
  ghost predicate Converts<V(!new)>(meaning: (Opcode, V) -> V, represents: (Typecode, V) -> bool, conv: Conversion) {
    forall v :: represents(conv.from, v) ==> represents(conv.to, Perform(meaning, conv.opcode, v))
  }

  lemma ExecuteSnoc<V>(meaning: (Opcode, V) -> V, opcodes: seq<Opcode>, o: Opcode, v: V)
    ensures Execute(meaning, opcodes + [o], v) == meaning(o, Execute(meaning, opcodes, v))
  {
    assert (opcodes + [o])[..|opcodes|] == opcodes;
  }

  lemma {:induction false} ChainConverts<V(!new)>(meaning: (Opcode, V) -> V, represents: (Typecode, V) -> bool,
                                                  table: seq<Conversion>, from: Typecode, c: Chain, v: V)
    requires forall i :: 0 <= i < |table| ==> Converts(meaning, represents, table[i])
    requires Linked(c, table, from) && represents(from, v)
    ensures represents(c.to, Execute(meaning, Opcodes(c), v))
    decreases c
  {
    if c != Node(-1, from, 0, Nil) {
      ChainConverts(meaning, represents, table, from, c.prev, v);
      hide Execute, Linked;
      if c.opcode != -1 {
        ExecuteSnoc(meaning, Opcodes(c.prev), c.opcode, v);
      } else {
        assert Opcodes(c.prev) + [] == Opcodes(c.prev);
      }
    } else {
      assert Opcodes(c) == [];
    }
  }

  /** What a recipe is for: if each conversion of the table converts the values of its source type, whatever
      the bytecodes are, the recipe converts those of the type the search starts from. */
  lemma RecipeConverts<V(!new)>(meaning: (Opcode, V) -> V, represents: (Typecode, V) -> bool, table: seq<Conversion>,
                                from: Typecode, to: Typecode, recipe: Recipe, v: V)
    requires forall i :: 0 <= i < |table| ==> Converts(meaning, represents, table[i])
    requires IsRecipe(Some(recipe), Collected(table, from, to)) && represents(from, v)
    ensures represents(to, Execute(meaning, recipe.opcodes, v))
  {
    hide *;
    RecipeFacts(table, from, to, recipe);
    var c :| Leads(c, table, from, to) && recipe == Recipe(Opcodes(c), Cost(c));
    LeadsIsLinked(c, table, from, to);
    ChainConverts(meaning, represents, table, from, c, v);
  }

  lemma LeadsIsLinked(c: Chain, table: seq<Conversion>, from: Typecode, to: Typecode)
    requires Leads(c, table, from, to)
    ensures c.Node? && c.to == to && Linked(c, table, from)
  {
    StepwiseExactly(c, table, from);
  }
}
