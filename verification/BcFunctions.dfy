/**
 The symbol table, and functions: bytecode with labels that are patched at the end, put into the text
 together with the pointer constants.
 */
module BcFunctions {
  import opened Helpers
  import opened BcItems
  import opened BcSegments

  // ---------------------------------------------------------------- symbols

  const HASH_SIZE := 509
  const WORD_32 := 0x1_0000_0000

  /** The 32-bit hash: rotate left by three, then add the character. */
  function HashFrom(name: string, h: nat): nat
    requires h < WORD_32
    decreases |name|
  {
    if name == [] then h
    else HashFrom(name[1..], (h * 8 % WORD_32 + h / 0x2000_0000 + name[0] as int) % WORD_32)
  }

  function Hash(name: string): (h: nat)
    ensures h < HASH_SIZE
  {
    HashFrom(name, 0) % HASH_SIZE
  }

  ghost predicate Holds(hashtab: seq<seq<BcSym>>, s: BcSym)
    requires |hashtab| == HASH_SIZE
  {
    s in hashtab[Hash(s.name)]
  }

  class SymbolTable {
    var hashtab: seq<seq<BcSym>>

    /** Every symbol is in the bucket of its name, once. */
    ghost predicate Valid() reads this {
      && |hashtab| == HASH_SIZE
      && (forall i, j :: 0 <= i < HASH_SIZE && 0 <= j < |hashtab[i]| ==> Hash(hashtab[i][j].name) == i)
      && (forall i, j, k :: 0 <= i < HASH_SIZE && 0 <= j < k < |hashtab[i]| ==> hashtab[i][j].name != hashtab[i][k].name)
    }

    constructor ()
      ensures Valid() && forall i :: 0 <= i < HASH_SIZE ==> hashtab[i] == []
    {
      hashtab := seq(HASH_SIZE, _ => []);
    }

    /** `sym_lookup`: the one symbol of that name, made if there is none. */
    method Lookup(name: string) returns (s: BcSym)
      requires Valid()
      modifies this
      ensures Valid() && Holds(hashtab, s) && s.name == name
      ensures forall t :: Holds(old(hashtab), t) ==> Holds(hashtab, t)
      ensures forall t :: Holds(hashtab, t) && t.name == name ==> t == s
      ensures Holds(old(hashtab), s) || (fresh(s) && !s.defined && s.val == 0)
    {
      var i := Hash(name);
      var k := 0;
      while k < |hashtab[i]|
        invariant 0 <= k <= |hashtab[i]| && hashtab == old(hashtab)
        invariant forall j :: 0 <= j < k ==> hashtab[i][j].name != name
      {
        if hashtab[i][k].name == name {
          return hashtab[i][k];
        }
        k := k + 1;
      }
      s := new BcSym(name);
      hashtab := hashtab[i := [s] + hashtab[i]];
      assert s == hashtab[i][0];
    }
  }

  // ---------------------------------------------------------------- labels

  class Label {
    var defined: bool
    var offset: nat

    constructor ()
      ensures !defined
    {
      defined, offset := false, 0;
    }
  }

  datatype LabelRef = LabelRef(target: Label, offset: nat)

  /** A place to be patched, and the address that goes there, if the label is defined. */
  datatype Slot = Slot(offset: nat, defined: bool, address: nat)

  ghost function Slots(refs: seq<LabelRef>): (r: seq<Slot>)
    reads set x | x in refs :: x.target
    ensures |r| == |refs|
    ensures forall i :: 0 <= i < |refs| ==> r[i] == Slot(refs[i].offset, refs[i].target.defined, refs[i].target.offset)
  {
    if refs == [] then []
    else [Slot(refs[0].offset, refs[0].target.defined, refs[0].target.offset)] + Slots(refs[1..])
  }

  /** The words lie inside the first `size` bytes and do not overlap, newest first. */
  predicate Spaced(slots: seq<Slot>, size: nat) {
    slots == [] || (slots[0].offset + 4 <= size && Spaced(slots[1..], slots[0].offset))
  }

  /** An `int` as it lies in memory. */
  function Word(n: nat): (r: seq<Byte>)
    ensures |r| == 4
  {
    [n % 0x100, n / 0x100 % 0x100, n / 0x1_0000 % 0x100, n / 0x100_0000 % 0x100]
  }

  /** The number that an `int` in memory is, lowest byte first. */
  function ReadWord(word: seq<Byte>): nat
    requires |word| == 4
  {
    word[0] as int + 0x100 * (word[1] as int) + 0x1_0000 * (word[2] as int) + 0x100_0000 * (word[3] as int)
  }

  lemma WordReadsBack(n: nat)
    ensures ReadWord(Word(n)) == n % WORD_32
    ensures n < WORD_32 ==> ReadWord(Word(n)) == n
  {
    DivideOnce(n);
    DivideAgain(n);
    DivideLast(n);
    var a, b, c := n / 0x100, n / 0x1_0000, n / 0x100_0000;
    assert n == n % 0x100 + 0x100 * a && a == a % 0x100 + 0x100 * b && b == b % 0x100 + 0x100 * c;
    assert c == c % 0x100 + 0x100 * (n / WORD_32);
  }

  lemma DivideOnce(n: nat)
    ensures n / 0x1_0000 == n / 0x100 / 0x100
  {
  }

  lemma DivideAgain(n: nat)
    ensures n / 0x100_0000 == n / 0x1_0000 / 0x100
  {
  }

  lemma DivideLast(n: nat)
    ensures n / WORD_32 == n / 0x100_0000 / 0x100
  {
  }

  function Overwrite(bytes: seq<Byte>, offset: nat, word: seq<Byte>): (r: seq<Byte>)
    requires offset + |word| <= |bytes|
    ensures |r| == |bytes|
  {
    bytes[..offset] + word + bytes[offset + |word|..]
  }

  /** The bytes with the words of all defined labels in place. */
  function Patched(bytes: seq<Byte>, slots: seq<Slot>): (r: seq<Byte>)
    requires Spaced(slots, |bytes|)
    ensures |r| == |bytes|
    decreases |slots|
  {
    if slots == [] then bytes
    else
      SpacedLess(slots[1..], slots[0].offset, |bytes|);
      Patched(if slots[0].defined then Overwrite(bytes, slots[0].offset, Word(slots[0].address)) else bytes, slots[1..])
  }

  lemma {:induction false} SpacedLess(slots: seq<Slot>, size: nat, more: nat)
    requires Spaced(slots, size) && size <= more
    ensures Spaced(slots, more)
  {
  }

  /** Byte `k` belongs to the word of slot `s`. */
  predicate Covers(s: Slot, k: int) { s.offset <= k < s.offset + 4 }

  lemma {:induction false} SpacedBelow(slots: seq<Slot>, size: nat, i: nat)
    requires Spaced(slots, size) && i < |slots|
    ensures slots[i].offset + 4 <= size
  {
    if i > 0 {
      SpacedBelow(slots[1..], slots[0].offset, i - 1);
    }
  }

  /** Patching overwrites the words of the references to defined labels with the offsets of the labels,
      and nothing else. */
  lemma {:induction false} PatchedExactly(bytes: seq<Byte>, slots: seq<Slot>, k: nat)
    requires Spaced(slots, |bytes|) && k < |bytes|
    ensures forall i :: 0 <= i < |slots| && Covers(slots[i], k) ==>
      Patched(bytes, slots)[k] == if slots[i].defined then Word(slots[i].address)[k - slots[i].offset] else bytes[k]
    ensures (forall i :: 0 <= i < |slots| ==> !Covers(slots[i], k)) ==> Patched(bytes, slots)[k] == bytes[k]
    decreases |slots|
  {
    if slots != [] {
      var next := if slots[0].defined then Overwrite(bytes, slots[0].offset, Word(slots[0].address)) else bytes;
      SpacedLess(slots[1..], slots[0].offset, |bytes|);
      PatchedExactly(next, slots[1..], k);
      forall i | 0 < i < |slots| ensures slots[i].offset + 4 <= slots[0].offset && slots[i] == slots[1..][i - 1] {
        SpacedBelow(slots[1..], slots[0].offset, i - 1);
      }
      assert forall i :: 0 <= i < |slots[1..]| ==> slots[1..][i] == slots[i + 1];
    }
  }

  /** Read back from the patched bytes, the word of every reference to a defined label is the offset of the
      label; those of other references are as they were. */
  lemma PatchedAddress(bytes: seq<Byte>, slots: seq<Slot>, i: nat)
    requires Spaced(slots, |bytes|) && i < |slots|
    ensures slots[i].offset + 4 <= |bytes|
    ensures var word := Patched(bytes, slots)[slots[i].offset..slots[i].offset + 4];
      if slots[i].defined then
        ReadWord(word) == slots[i].address % WORD_32 && (slots[i].address < WORD_32 ==> ReadWord(word) == slots[i].address)
      else word == bytes[slots[i].offset..slots[i].offset + 4]
  {
    SpacedBelow(slots, |bytes|, i);
    var at := slots[i].offset;
    var word := Patched(bytes, slots)[at..at + 4];
    forall k | at <= k < at + 4
      ensures Patched(bytes, slots)[k] == if slots[i].defined then Word(slots[i].address)[k - at] else bytes[k]
    {
      PatchedExactly(bytes, slots, k);
      assert Covers(slots[i], k);
    }
    hide Patched, Spaced;
    if slots[i].defined {
      assert word == Word(slots[i].address);
      WordReadsBack(slots[i].address);
    } else {
      assert word == bytes[at..at + 4];
    }
  }

  lemma OneMoreSlot(slots: seq<Slot>, slot: Slot, size: nat)
    requires Spaced(slots, slot.offset) && slot.offset + 4 <= size
    ensures Spaced([slot] + slots, size)
  {
    assert ([slot] + slots)[1..] == slots;
  }

  /** The code of one function, with the labels it refers to. */
  class FunctionCode {
    const bytecode: Segment
    var labelrefs: seq<LabelRef>

    constructor ()
      ensures fresh(bytecode) && fresh(bytecode.data) && Valid() && bytecode.items == [] && labelrefs == []
    {
      bytecode := new Segment();
      labelrefs := [];
    }

    /** The bytecode is bytes only, and every reference has a word of its own in it. */
    ghost predicate Valid()
      reads this, bytecode, bytecode.data, bytecode.syms, set x | x in labelrefs :: x.target
    {
      && bytecode.Valid() && bytecode.items == DataItems(bytecode.data[..bytecode.size])
      && Spaced(Slots(labelrefs), bytecode.size)
    }

    /** The bytes emitted so far. */
    ghost function Code(): seq<Byte>
      reads this, bytecode, bytecode.data
      requires bytecode.size <= bytecode.data.Length
    {
      bytecode.data[..bytecode.size]
    }

    /** `bc_emit_bytecode_const` */
    method EmitConst(bytes: seq<Byte>)
      requires Valid()
      modifies bytecode, bytecode.data
      ensures Valid() && (bytecode.data == old(bytecode.data) || fresh(bytecode.data))
      ensures Code() == old(Code()) + bytes
    {
      ghost var code := Code();
      ghost var slots := Slots(labelrefs);
      SpacedLess(slots, bytecode.size, bytecode.size + |bytes|);
      hide Spaced, Slots;
      bytecode.SegData(bytes);
      MoreData(code, bytes);
      assert Slots(labelrefs) == slots;
    }

    /** `bc_emit_bytecode_labelref`: a word to be patched later. */
    method EmitLabelRef(l: Label)
      requires Valid()
      modifies this, bytecode, bytecode.data
      ensures Valid() && (bytecode.data == old(bytecode.data) || fresh(bytecode.data))
      ensures Code() == old(Code()) + [0, 0, 0, 0]
      ensures labelrefs == [LabelRef(l, old(bytecode.size))] + old(labelrefs)
    {
      var offset := bytecode.size;
      ghost var slots := Slots(labelrefs);
      ghost var slot := Slot(offset, l.defined, l.offset);
      OneMoreSlot(slots, slot, offset + 4);
      hide Spaced, Slots, Segment.Valid;
      EmitConst([0, 0, 0, 0]);
      assert Slots(labelrefs) == slots;
      Refer(l, offset);
    }

    /** One more reference, to the word at `offset`. */
    method Refer(l: Label, offset: nat)
      requires bytecode.Valid() && bytecode.items == DataItems(Code())
      requires Spaced([Slot(offset, l.defined, l.offset)] + Slots(labelrefs), bytecode.size)
      modifies this`labelrefs
      ensures Valid() && labelrefs == [LabelRef(l, offset)] + old(labelrefs)
    {
      hide Segment.DataOk, Segment.RelocsOk, Spaced, Syms, Relocs, Reverse, Bytes;
      labelrefs := [LabelRef(l, offset)] + labelrefs;
      assert labelrefs[1..] == old(labelrefs);
    }

    /** `bc_emit_bytecode_labeldef`: a label is defined once, at the current place. */
    method DefineLabel(l: Label) returns (ok: bool)
      requires Valid()
      modifies l
      ensures Valid() && ok == !old(l.defined)
      ensures l.defined && l.offset == if ok then bytecode.size else old(l.offset)
    {
      ghost var slots := Slots(labelrefs);
      ok := !l.defined;
      if ok {
        l.offset := bytecode.size;
        l.defined := true;
      }
      SameOffsets(slots, Slots(labelrefs), bytecode.size);
    }

    /** Backpatch the label references in the bytecode. */
    method Backpatch()
      requires Valid()
      modifies bytecode`items, bytecode.data
      ensures Valid() && bytecode.Valid() && bytecode.syms == []
      ensures bytecode.items == DataItems(Patched(old(Code()), old(Slots(labelrefs))))
    {
      NoLists(bytecode);
      hide Spaced, Slots, Patched;
      PatchAll(labelrefs, bytecode.data, bytecode.size);
      bytecode.items := DataItems(Code());
      ByNoLists(bytecode);
    }
  }

  lemma NoLists(seg: Segment)
    requires seg.Valid() && seg.items == DataItems(seg.data[..seg.size])
    ensures seg.syms == [] && seg.relocs == []
  {
    NoSymsInData(seg.data[..seg.size], 0);
  }

  lemma ByNoLists(seg: Segment)
    requires seg.size <= seg.data.Length && seg.data.Length > 0 && seg.items == DataItems(seg.data[..seg.size])
    requires seg.syms == [] && seg.relocs == []
    ensures seg.Valid()
  {
    NoSymsInData(seg.data[..seg.size], 0);
    BytesOfData(seg.data[..seg.size]);
  }

  /** The loop over the references. */
  method PatchAll(refs: seq<LabelRef>, data: array<Byte>, size: nat)
    requires size <= data.Length && Spaced(Slots(refs), size)
    modifies data
    ensures data[..size] == Patched(old(data[..size]), Slots(refs))
  {
    ghost var slots, code := Slots(refs), data[..size];
    var k := 0;
    assert slots[0..] == slots;
    while k < |refs|
      invariant 0 <= k <= |refs| && Slots(refs) == slots && Spaced(slots[k..], size)
      invariant Patched(data[..size], slots[k..]) == Patched(code, slots)
    {
      assert slots[k..][1..] == slots[k + 1..] && slots[k..][0] == slots[k];
      SpacedLess(slots[k + 1..], slots[k].offset, size);
      if refs[k].target.defined {
        StoreWord(data, size, refs[k].offset, Word(refs[k].target.offset));
      }
      k := k + 1;
    }
  }

  method StoreWord(data: array<Byte>, ghost size: nat, offset: nat, word: seq<Byte>)
    requires offset + |word| <= size <= data.Length
    modifies data
    ensures data[..size] == Overwrite(old(data[..size]), offset, word)
  {
    var i := 0;
    while i < |word|
      invariant 0 <= i <= |word|
      invariant forall j :: 0 <= j < size ==> data[j] == if offset <= j < offset + i then word[j - offset] else old(data[j])
    {
      data[offset + i] := word[i];
      i := i + 1;
    }
  }

  lemma {:induction false} SameOffsets(a: seq<Slot>, b: seq<Slot>, size: nat)
    requires Spaced(a, size) && |a| == |b| && forall i :: 0 <= i < |a| ==> a[i].offset == b[i].offset
    ensures Spaced(b, size)
    decreases |a|
  {
    if a != [] {
      SameOffsets(a[1..], b[1..], a[0].offset);
    }
  }

  // ---------------------------------------------------------------- the end of a function

  function Pad(items: seq<Item>, log: nat): seq<Item> {
    items + DataItems(Zeros(Padding(|Bytes(items)|, log)))
  }

  /** What a function leaves in the text: its entry, its code, the label of its pointer constants and
      the constants, each part aligned. */
  function FunctionItems(entry: seq<Item>, code: seq<Byte>, label_: seq<Item>, pointers: seq<Item>, log: nat): seq<Item> {
    Pad(Pad(Pad(entry, log) + DataItems(code), log) + label_, log) + pointers
  }

  predicate Apart(a: seq<BcSym>, b: seq<BcSym>) {
    forall s :: s in a ==> s !in b
  }

  /** The patched code goes behind the entry. */
  method AddCode(f: FunctionCode, entry: Segment, log: nat)
    requires f.Valid() && entry.Valid() && f.bytecode != entry && entry.data != f.bytecode.data
    modifies entry, entry.data, f.bytecode`items, f.bytecode.data
    ensures entry.Valid() && (entry.data == old(entry.data) || fresh(entry.data)) && entry.syms == old(entry.syms)
    ensures entry.items == old(entry.items) + DataItems(Zeros(Padding(|Bytes(old(entry.items))|, log)))
                           + DataItems(Patched(old(f.Code()), old(Slots(f.labelrefs))))
  {
    assert f.bytecode.size <= f.bytecode.data.Length;
    hide *;
    f.Backpatch();
    assert [] + entry.syms == entry.syms;
    entry.SegConcat(f.bytecode, log);
  }

  /** The label of the pointer constants, and the constants behind it. */
  method AddPointers(entry: Segment, pointers: Segment, pointersLabel: BcSym, log: nat)
    requires entry.Valid() && pointers.Valid() && entry != pointers && entry.data != pointers.data
    requires Apart(pointers.syms, entry.syms)
    modifies entry, entry.data, pointersLabel, pointers.syms
    ensures entry.Valid() && (entry.data == old(entry.data) || fresh(entry.data))
    ensures entry.items ==
      Pad(Pad(old(entry.items), log) + (if old(pointersLabel.defined) then [] else [Def(pointersLabel.name)]), log)
      + old(pointers.items)
    ensures forall s :: s in entry.syms ==> s in old(entry.syms) || s in old(pointers.syms) || s == pointersLabel
  {
    hide Reverse, Syms, Relocs, Bytes, Segment.Valid, Segment.DataOk, Segment.RelocsOk, Padding;
    entry.SegAlign(log);
    var ok := DefineIn(entry, pointers, pointersLabel);
    entry.SegConcat(pointers, log);
  }

  /** A symbol is defined once. */
  method DefineIn(entry: Segment, other: Segment, sym: BcSym) returns (ok: bool)
    requires entry.Valid() && other.Valid() && Apart(other.syms, entry.syms) && entry != other
    modifies entry`syms, entry`items, sym
    ensures entry.Valid() && other.Valid() && Apart(other.syms, entry.syms)
    ensures entry.items == old(entry.items) + (if old(sym.defined) then [] else [Def(sym.name)])
    ensures forall s :: s in entry.syms ==> s in old(entry.syms) || s == sym
  {
    hide Segment.DataOk, Segment.RelocsOk, Syms, Relocs, Bytes, Reverse, WellSized;
    assert !sym.defined ==> sym !in other.syms;
    ghost var all, seen := other.syms, View(other.syms);
    ok := entry.SegDefsym(sym);
    forall i | 0 <= i < |all|
      ensures View(all)[i] == seen[i] && all[i] !in entry.syms
    {
      assert all[i] in all;
    }
    assert View(all) == seen;
    assert other.SymsOk();
  }

  /** The function's parts are put together in its entry segment. */
  method Assemble(f: FunctionCode, entry: Segment, pointers: Segment, pointersLabel: BcSym, log: nat)
    requires f.Valid() && entry.Valid() && pointers.Valid() && entry != pointers && f.bytecode !in {entry, pointers}
    requires entry.data !in {pointers.data, f.bytecode.data} && pointers.data != f.bytecode.data
    requires Apart(pointers.syms, entry.syms)
    modifies entry, entry.data, f.bytecode`items, f.bytecode.data, pointersLabel, pointers.syms
    ensures entry.Valid() && (entry.data == old(entry.data) || fresh(entry.data))
    ensures forall s :: s in entry.syms ==> s in old(entry.syms) || s in old(pointers.syms) || s == pointersLabel
    ensures entry.items == FunctionItems(old(entry.items), Patched(old(f.Code()), old(Slots(f.labelrefs))),
                                         (if old(pointersLabel.defined) then [] else [Def(pointersLabel.name)]), old(pointers.items), log)
  {
    AddCode(f, entry, log);
    AddPointers(entry, pointers, pointersLabel, log);
  }

  lemma MoreData(a: seq<Byte>, b: seq<Byte>)
    ensures DataItems(a) + DataItems(b) == DataItems(a + b) && Bytes(DataItems(a + b)) == a + b
  {
    BytesOfData(a + b);
  }

  /** Where a segment lands when it is concatenated: at the next boundary, with its own bytes there and
      its symbols and relocations at that place plus their own offsets; what was before stays. */
  lemma Lands(a: seq<Item>, b: seq<Item>, log: nat)
    ensures var all := Pad(a, log) + b; var at := AlignUp(|Bytes(a)|, log);
      && at % Unit(log) == 0 && |Bytes(a)| <= at < |Bytes(a)| + Unit(log)
      && Bytes(all) == Bytes(a) + Zeros(at - |Bytes(a)|) + Bytes(b)
      && Syms(all, 0) == Syms(a, 0) + ShiftSyms(Syms(b, 0), at)
      && Relocs(all, 0) == Relocs(a, 0) + ShiftRelocs(Relocs(b, 0), at)
  {
    var pad := Zeros(Padding(|Bytes(a)|, log));
    AlignUpIsLeast(|Bytes(a)|, log);
    BytesOfData(pad);
    assert |pad| == AlignUp(|Bytes(a)|, log) - |Bytes(a)|;
    hide *;
    BytesAppend(a, DataItems(pad));
    NothingAdded(a, pad);
    PadIs(a, log);
    BytesAppend(Pad(a, log), b);
    SymsAppend(Pad(a, log), b, 0);
    RelocsAppend(Pad(a, log), b, 0);
    SymsShift(b, 0, AlignUp(|Bytes(a)|, log));
    RelocsShift(b, 0, AlignUp(|Bytes(a)|, log));
  }

  lemma PadIs(a: seq<Item>, log: nat)
    ensures Pad(a, log) == a + DataItems(Zeros(Padding(|Bytes(a)|, log)))
  {
  }

  /** A boundary is its own next boundary. */
  lemma AlignedStays(size: nat, log: nat)
    requires size % Unit(log) == 0
    ensures AlignUp(size, log) == size
  {
    var r, unit := AlignUp(size, log), Unit(log);
    AlignUpIsLeast(size, log);
    hide AlignUp, Unit;
    Multiples(r, size, unit);
    SmallMultiple(r / unit - size / unit, unit, r - size);
  }

  lemma Multiples(r: nat, s: nat, unit: nat)
    requires unit >= 1 && r % unit == 0 && s % unit == 0
    ensures unit * (r / unit - s / unit) == r - s
  {
    assert r == unit * (r / unit) && s == unit * (s / unit);
  }

  /** A function without pointer constants leaves the label of its constants at the very end of the
      text, so that writing the text aborts unless something is emitted behind it. */
  lemma NoPointersEndWithLabel(entry: seq<Item>, code: seq<Byte>, name: string, log: nat)
    ensures EndsWithDef(FunctionItems(entry, code, [Def(name)], [], log))
  {
    var body := Pad(Pad(entry, log) + DataItems(code), log);
    var labelled := body + [Def(name)];
    Lands(Pad(entry, log) + DataItems(code), [], log);
    assert Pad(Pad(entry, log) + DataItems(code), log) + [] == body;
    assert Bytes([]) == [];
    DefAdded(body, name);
    assert |Bytes(labelled)| % Unit(log) == 0;
    hide Bytes, Unit, AlignUp;
    AlignedStays(|Bytes(labelled)|, log);
    assert Pad(labelled, log) == labelled;
  }
}
