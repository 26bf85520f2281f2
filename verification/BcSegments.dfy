/**
 Segments as growable buffers with lists of symbols and relocations, newest first.
 */
module BcSegments {
  import opened Helpers
  import opened BcItems

  class BcSym {
    const name: string
    var defined: bool
    var val: nat

    constructor (name: string)
      ensures this.name == name && !defined && val == 0
    {
      this.name, defined, val := name, false, 0;
    }
  }

  /** The names and values of symbols. */
  function View(syms: seq<BcSym>): (r: seq<(string, nat)>)
    reads syms
    ensures |r| == |syms| && forall i :: 0 <= i < |syms| ==> r[i] == (syms[i].name, syms[i].val)
  {
    seq(|syms|, i requires 0 <= i < |syms| reads syms => (syms[i].name, syms[i].val))
  }

  ghost predicate NoRepeats(syms: seq<BcSym>) {
    forall i, j :: 0 <= i < j < |syms| ==> syms[i] != syms[j]
  }

  class Segment {
    var data: array<Byte>
    var size: nat
    var syms: seq<BcSym>
    var relocs: seq<Reloc>
    ghost var items: seq<Item>

    /** The bytes are those of the items. */
    ghost predicate DataOk() reads this`data, this`size, this`items, data {
      size <= data.Length && data.Length > 0 && data[..size] == Bytes(items) && WellSized(items)
    }

    /** Every symbol has the value of its place among the items. */
    ghost predicate SymsOk() reads this`syms, this`items, syms {
      View(syms) == Reverse(Syms(items, 0)) && NoRepeats(syms) && forall s :: s in syms ==> s.defined
    }

    ghost predicate RelocsOk() reads this`relocs, this`items {
      relocs == Reverse(Relocs(items, 0))
    }

    ghost predicate Valid() reads this, data, syms {
      DataOk() && SymsOk() && RelocsOk()
    }

    /** `seg_create` */
    constructor ()
      ensures Valid() && fresh(data) && items == [] && syms == []
    {
      data := new Byte[256](_ => 0);
      size, syms, relocs, items := 0, [], [], [];
    }

    /** Double the buffer until there is room, keeping what is in it. */
    method Reserve(wanted: nat)
      requires size <= data.Length && data.Length > 0
      modifies this`data
      ensures wanted <= data.Length && old(data.Length) <= data.Length && data[..size] == old(data[..size])
      ensures data == old(data) || fresh(data)
    {
      var alloc := data.Length;
      while wanted > alloc
        invariant alloc >= data.Length > 0
        decreases wanted - alloc
      {
        alloc := alloc * 2;
      }
      if alloc > data.Length {
        var bigger := new Byte[alloc](_ => 0);
        var i := 0;
        while i < size
          invariant 0 <= i <= size && data == old(data) && data[..] == old(data[..]) && bigger[..i] == data[..i]
        {
          bigger[i] := data[i];
          i := i + 1;
        }
        data := bigger;
      }
    }

    /** `bcopy` of new bytes to the end. */
    method Store(bytes: seq<Byte>)
      requires size + |bytes| <= data.Length
      modifies this`size, data
      ensures size == old(size) + |bytes| && data[..size] == old(data[..size]) + bytes
    {
      var i := 0;
      while i < |bytes|
        invariant 0 <= i <= |bytes| && size == old(size) && data[..size] == old(data[..size])
        invariant data[size..size + i] == bytes[..i]
      {
        data[size + i] := bytes[i];
        i := i + 1;
      }
      size := size + |bytes|;
    }

    /** `seg_data`: append bytes, as the given items. */
    method Append(bytes: seq<Byte>, ghost more: seq<Item>)
      requires DataOk() && Bytes(more) == bytes && WellSized(more)
      modifies this`data, this`size, this`items, data
      ensures DataOk() && items == old(items) + more && (data == old(data) || fresh(data))
    {
      Reserve(size + |bytes|);
      Store(bytes);
      BytesAppend(items, more);
      items := items + more;
    }

    /** `seg_data` */
    method SegData(bytes: seq<Byte>)
      requires Valid()
      modifies this`data, this`size, this`items, data
      ensures Valid() && items == old(items) + DataItems(bytes) && (data == old(data) || fresh(data))
    {
      BytesOfData(bytes);
      NothingAdded(items, bytes);
      Append(bytes, DataItems(bytes));
    }

    /** `seg_skip` */
    method SegSkip(count: nat)
      requires Valid()
      modifies this`data, this`size, this`items, data
      ensures Valid() && items == old(items) + DataItems(Zeros(count)) && (data == old(data) || fresh(data))
    {
      SegData(Zeros(count));
    }

    /** `seg_align`: zeros up to the next boundary. */
    method SegAlign(log: nat)
      requires Valid()
      modifies this`data, this`size, this`items, data
      ensures Valid() && (data == old(data) || fresh(data))
      ensures items == old(items) + DataItems(Zeros(Padding(|Bytes(old(items))|, log)))
    {
      var pad := Padding(size, log);
      assert size == |Bytes(items)|;
      hide *;
      SegSkip(pad);
    }

    /** `seg_refsym`: a relocation at the end, and the word it adjusts. */
    method SegRefsym(name: string, word: seq<Byte>)
      requires Valid() && |word| == 4
      modifies this`data, this`size, this`items, this`relocs, data
      ensures Valid() && items == old(items) + [Ref(name, word)] && (data == old(data) || fresh(data))
    {
      RefAdded(items, name, word);
      relocs := [Reloc(size, name)] + relocs;
      Append(word, [Ref(name, word)]);
    }

    /** `seg_defsym`, once the symbol is looked up: a symbol is defined once. */
    method SegDefsym(sym: BcSym) returns (ok: bool)
      requires Valid()
      modifies this`syms, this`items, sym
      ensures Valid() && ok == !old(sym.defined)
      ensures ok ==> items == old(items) + [Def(sym.name)] && syms == [sym] + old(syms) && sym.defined
      ensures !ok ==> items == old(items) && syms == old(syms) && sym.defined && sym.val == old(sym.val)
    {
      if sym.defined {
        return false;
      }
      ghost var before := items;
      DefAdded(before, sym.name);
      assert WellSized(before + [Def(sym.name)]);
      hide Syms, Relocs, Bytes, Reverse, SymsOk, WellSized;
      Place(sym);
      ok := true;
    }

    /** The symbol gets the place at the end, and the front of the list. */
    method Place(sym: BcSym)
      requires SymsOk() && !sym.defined && size == |Bytes(items)|
      modifies this`syms, this`items, sym
      ensures SymsOk() && items == old(items) + [Def(sym.name)] && syms == [sym] + old(syms) && sym.defined
    {
      assert sym !in syms;
      ghost var seen := View(syms);
      DefAdded(items, sym.name);
      assert seen == Reverse(Syms(items, 0)) && NoRepeats(syms);
      hide Syms, Relocs, Bytes, Reverse, WellSized;
      sym.defined := true;
      sym.val := size;
      assert View(syms) == seen;
      syms := [sym] + syms;
      assert View(syms) == [(sym.name, size)] + seen;
      items := items + [Def(sym.name)];
    }

    /** `seg_concat`: align, append the bytes of `seg`, and move its symbols and relocations along. */
    method SegConcat(seg: Segment, log: nat)
      requires Valid() && seg.Valid() && seg != this && seg.data != data && forall s :: s in seg.syms ==> s !in syms
      modifies this, data, seg.syms
      ensures Valid() && (data == old(data) || fresh(data)) && syms == old(seg.syms) + old(syms)
      ensures items == old(items) + DataItems(Zeros(Padding(|Bytes(old(items))|, log))) + old(seg.items)
      ensures forall s :: s in old(seg.syms) ==> s.defined
    {
      SegAlign(log);
      Take(seg);
    }

    /** `seg_concat` after the alignment. */
    method Take(seg: Segment)
      requires Valid() && seg.Valid() && seg != this && seg.data != data && forall s :: s in seg.syms ==> s !in syms
      modifies this, data, seg.syms
      ensures Valid() && (data == old(data) || fresh(data)) && syms == old(seg.syms) + old(syms)
      ensures items == old(items) + old(seg.items) && forall s :: s in old(seg.syms) ==> s.defined
    {
      TakeFacts(seg, items, seg.items);
      TakeParts(seg.data[..seg.size], seg.syms, seg.relocs, seg.items);
    }

    /** The parts of a segment that is gone. */
    method TakeParts(bytes: seq<Byte>, more: seq<BcSym>, moreRelocs: seq<Reloc>, ghost b: seq<Item>)
      requires DataOk() && SymsOk() && size == |Bytes(items)| && bytes == Bytes(b) && WellSized(b)
      requires View(syms) == Reverse(Syms(items, 0)) && View(more) == Reverse(Syms(b, 0))
      requires Reverse(Relocs(items + b, 0)) == ShiftRelocs(moreRelocs, size) + relocs
      requires NoRepeats(syms) && NoRepeats(more) && forall s :: s in more ==> s !in syms && s.defined
      requires forall s :: s in syms ==> s.defined
      modifies this, data, more
      ensures Valid() && (data == old(data) || fresh(data)) && syms == more + old(syms)
      ensures items == old(items) + b && forall s :: s in more ==> s.defined
    {
      hide *;
      ghost var a := items;
      var fix := size;
      TakeBytes(bytes, moreRelocs, b);
      Adopt(more, a, b, fix);
      AllOk();
    }

    /** The bytes taken go to the end, the relocations in front, moved along. */
    method TakeBytes(bytes: seq<Byte>, more: seq<Reloc>, ghost b: seq<Item>)
      requires DataOk() && bytes == Bytes(b) && WellSized(b)
      requires Reverse(Relocs(items + b, 0)) == ShiftRelocs(more, size) + relocs
      modifies this`data, this`size, this`items, this`relocs, data
      ensures DataOk() && RelocsOk() && items == old(items) + b && (data == old(data) || fresh(data))
    {
      hide Relocs, Reverse, Bytes, ShiftRelocs, WellSized, DataOk;
      relocs := ShiftRelocs(more, size) + relocs;
      Append(bytes, b);
    }

    lemma TakeFacts(seg: Segment, a: seq<Item>, b: seq<Item>)
      requires Valid() && seg.Valid() && a == items && b == seg.items
      ensures DataOk() && size == |Bytes(a)| && seg.data[..seg.size] == Bytes(b) && WellSized(b)
      ensures View(syms) == Reverse(Syms(a, 0)) && View(seg.syms) == Reverse(Syms(b, 0))
      ensures NoRepeats(syms) && NoRepeats(seg.syms)
      ensures (forall s :: s in syms ==> s.defined) && (forall s :: s in seg.syms ==> s.defined)
      ensures Reverse(Relocs(a + b, 0)) == ShiftRelocs(seg.relocs, size) + relocs
    {
      ConcatRelocs(a, b);
    }

    lemma AllOk()
      requires DataOk() && SymsOk() && RelocsOk()
      ensures Valid()
    {
    }

    /** The symbols of the segment taken come in front, moved along. */
    method Adopt(more: seq<BcSym>, ghost a: seq<Item>, ghost b: seq<Item>, fix: nat)
      requires View(syms) == Reverse(Syms(a, 0)) && View(more) == Reverse(Syms(b, 0)) && items == a + b
      requires NoRepeats(syms) && NoRepeats(more) && forall s :: s in more ==> s !in syms && s.defined
      requires forall s :: s in syms ==> s.defined
      requires fix == |Bytes(a)|
      modifies this`syms, more
      ensures SymsOk() && syms == more + old(syms)
      ensures forall s :: s in more ==> s.defined
    {
      ConcatSyms(a, b);
      hide Syms, Reverse, Bytes, ShiftSyms, Relocs, ShiftRelocs;
      ghost var seen := View(syms);
      assert forall i :: 0 <= i < |syms| ==> syms[i] !in more;
      ShiftSymbols(more, fix);
      assert forall i :: 0 <= i < |syms| ==> syms[i].val == old(syms[i].val) && syms[i].defined;
      assert View(syms) == seen;
      ViewAppend(more, syms);
      syms := more + syms;
    }

    /** `bc_seg_write`: turn the lists round, then write. What is written is what was emitted, and the
        program aborts exactly when a symbol stands at the very end. */
    method SegWrite() returns (out: seq<Item>, aborted: bool)
      requires Valid()
      modifies this`syms, this`relocs
      ensures aborted == EndsWithDef(items) && (!aborted ==> out == items)
      ensures syms == Reverse(old(syms)) && relocs == Reverse(old(relocs))
    {
      hide *;
      var turned := TurnRound(syms);
      var turnedRelocs := TurnRound(relocs);
      WriteFacts();
      out, aborted := WriteOut(data[..size], View(turned), turnedRelocs);
      syms := turned;
      relocs := turnedRelocs;
    }

    lemma WriteFacts()
      requires Valid()
      ensures size <= data.Length
      ensures var w := WriteFrom(data[..size], 0, View(Reverse(syms)), Reverse(relocs));
        w.1 == EndsWithDef(items) && (!w.1 ==> w.0 == items)
      ensures var l := Reverse(relocs); forall i :: 0 <= i < |l| ==> l[i].offset + 4 <= |data[..size]|
    {
      assert data[..size][0..] == data[..size];
      WriteRecovers(items, data[..size], 0);
      RelocsInside(items, 0);
      hide Syms, Relocs, Bytes, Reverse, WriteFrom;
      ReverseTwice(Syms(items, 0));
      ReverseTwice(Relocs(items, 0));
      ReverseView(syms);
    }
  }

  lemma {:induction false} ReverseView(syms: seq<BcSym>)
    ensures View(Reverse(syms)) == Reverse(View(syms))
  {
    if syms != [] {
      ReverseView(syms[1..]);
      assert View(syms)[1..] == View(syms[1..]);
      ViewAppend(Reverse(syms[1..]), [syms[0]]);
    }
  }

  /** The symbols of a segment get the place where it lands added to their values. */
  method ShiftSymbols(syms: seq<BcSym>, fix: nat)
    requires NoRepeats(syms)
    modifies syms
    ensures View(syms) == ShiftSyms(old(View(syms)), fix)
    ensures forall s :: s in syms ==> s.defined == old(s.defined)
  {
    var k := 0;
    while k < |syms|
      invariant 0 <= k <= |syms|
      invariant forall i :: 0 <= i < |syms| ==> syms[i].defined == old(syms[i].defined)
      invariant forall i :: 0 <= i < k ==> syms[i].val == old(syms[i].val) + fix
      invariant forall i :: k <= i < |syms| ==> syms[i].val == old(syms[i].val)
    {
      syms[k].val := syms[k].val + fix;
      k := k + 1;
    }
  }

  lemma ViewAppend(a: seq<BcSym>, b: seq<BcSym>)
    ensures View(a + b) == View(a) + View(b)
  {
  }

  /** The lists of two segments put together. */
  lemma ConcatSyms(a: seq<Item>, b: seq<Item>)
    ensures Reverse(Syms(a + b, 0)) == ShiftSyms(Reverse(Syms(b, 0)), |Bytes(a)|) + Reverse(Syms(a, 0))
  {
    hide *;
    var fix := |Bytes(a)|;
    SymsAppend(a, b, 0);
    SymsShift(b, 0, fix);
    ReverseAppend(Syms(a, 0), Syms(b, 0 + fix));
    ReverseShift(Syms(b, 0), fix);
  }

  lemma ConcatRelocs(a: seq<Item>, b: seq<Item>)
    ensures Reverse(Relocs(a + b, 0)) == ShiftRelocs(Reverse(Relocs(b, 0)), |Bytes(a)|) + Reverse(Relocs(a, 0))
  {
    hide *;
    var fix := |Bytes(a)|;
    RelocsAppend(a, b, 0);
    RelocsShift(b, 0, fix);
    ReverseAppend(Relocs(a, 0), Relocs(b, 0 + fix));
    ReverseShiftRelocs(Relocs(b, 0), fix);
  }

  lemma NothingAdded(items: seq<Item>, bytes: seq<Byte>)
    ensures Syms(items + DataItems(bytes), 0) == Syms(items, 0)
    ensures Relocs(items + DataItems(bytes), 0) == Relocs(items, 0)
  {
    NoSymsInData(bytes, |Bytes(items)|);
    SymsAppend(items, DataItems(bytes), 0);
    RelocsAppend(items, DataItems(bytes), 0);
  }

  lemma RefAdded(items: seq<Item>, name: string, word: seq<Byte>)
    requires |word| == 4
    ensures var ref := [Ref(name, word)];
      && Bytes(ref) == word && Syms(items + ref, 0) == Syms(items, 0)
      && Reverse(Relocs(items + ref, 0)) == [Reloc(|Bytes(items)|, name)] + Reverse(Relocs(items, 0))
  {
    var item := Ref(name, word);
    BytesOfOne(item);
    SymsOfOne(item, |Bytes(items)|);
    RelocsOfOne(item, |Bytes(items)|);
    hide Syms, Relocs, Bytes, BytesOf;
    SymsAppend(items, [item], 0);
    RelocsAppend(items, [item], 0);
    NewestFirst(Relocs(items, 0), Reloc(|Bytes(items)|, name));
  }

  lemma DefAdded(items: seq<Item>, name: string)
    ensures var def := [Def(name)];
      && Bytes(items + def) == Bytes(items) && Relocs(items + def, 0) == Relocs(items, 0)
      && Reverse(Syms(items + def, 0)) == [(name, |Bytes(items)|)] + Reverse(Syms(items, 0))
  {
    hide Syms, Relocs, Reverse;
    var item := Def(name);
    BytesOfOne(item);
    SymsOfOne(item, |Bytes(items)|);
    RelocsOfOne(item, |Bytes(items)|);
    assert Bytes([item]) == [];
    var s := |Bytes(items)|;
    assert 0 + s == s;
    hide *;
    DefBytes(items, item);
    SymsAppend(items, [item], 0);
    NewestFirst(Syms(items, 0), (name, s));
  }

  lemma DefBytes(items: seq<Item>, item: Item)
    requires Bytes([item]) == [] && Relocs([item], |Bytes(items)|) == []
    ensures Bytes(items + [item]) == Bytes(items) && Relocs(items + [item], 0) == Relocs(items, 0)
  {
    hide *;
    BytesAppend(items, [item]);
    RelocsAppend(items, [item], 0);
  }

  lemma NewestFirst<T>(s: seq<T>, x: T)
    ensures Reverse(s + [x]) == [x] + Reverse(s)
  {
    ReverseAppend(s, [x]);
    assert Reverse([x]) == [x];
  }
}
