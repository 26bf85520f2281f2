/**
 What has been emitted into a segment, in order, and how the segment's bytes, symbols and relocations
 follow from it. The writer of a segment gives the items back.
 */
module BcItems {
  import opened Helpers

  type Byte = b: int | 0 <= b < 256

  /** A symbol at this place, a four-byte reference to a symbol, or one byte of data. */
  datatype Item = Def(name: string) | Ref(name: string, word: seq<Byte>) | Data(byte: Byte)

  predicate WellSized(items: seq<Item>) {
    forall i :: 0 <= i < |items| && items[i].Ref? ==> |items[i].word| == 4
  }

  function BytesOf(item: Item): seq<Byte> {
    match item
    case Def(_) => []
    case Ref(_, word) => word
    case Data(b) => [b]
  }

  function Bytes(items: seq<Item>): seq<Byte> {
    if items == [] then [] else BytesOf(items[0]) + Bytes(items[1..])
  }

  /** The symbols in order, with their values when the items start at `base`. */
  function Syms(items: seq<Item>, base: nat): seq<(string, nat)>
    decreases |items|
  {
    if items == [] then []
    else (if items[0].Def? then [(items[0].name, base)] else []) + Syms(items[1..], base + |BytesOf(items[0])|)
  }

  datatype Reloc = Reloc(offset: nat, name: string)

  function Relocs(items: seq<Item>, base: nat): seq<Reloc>
    decreases |items|
  {
    if items == [] then []
    else (if items[0].Ref? then [Reloc(base, items[0].name)] else []) + Relocs(items[1..], base + |BytesOf(items[0])|)
  }

  function DataItems(bytes: seq<Byte>): (r: seq<Item>)
    ensures |r| == |bytes| && forall i :: 0 <= i < |r| ==> r[i] == Data(bytes[i])
  {
    seq(|bytes|, i requires 0 <= i < |bytes| => Data(bytes[i]))
  }

  function Zeros(n: nat): (r: seq<Byte>)
    ensures |r| == n && forall i :: 0 <= i < n ==> r[i] == 0
  {
    seq(n, _ => 0)
  }

  lemma {:induction false} BytesAppend(a: seq<Item>, b: seq<Item>)
    ensures Bytes(a + b) == Bytes(a) + Bytes(b)
  {
    if a == [] {
      assert a + b == b;
    } else {
      assert (a + b)[1..] == a[1..] + b;
      BytesAppend(a[1..], b);
    }
  }

  lemma {:induction false} BytesOfData(bytes: seq<Byte>)
    ensures Bytes(DataItems(bytes)) == bytes
  {
    if bytes != [] {
      assert DataItems(bytes)[1..] == DataItems(bytes[1..]);
      BytesOfData(bytes[1..]);
    }
  }

  lemma BytesOfOne(item: Item)
    ensures Bytes([item]) == BytesOf(item)
  {
    assert [item][1..] == [];
  }

  lemma SymsOne(item: Item, rest: seq<Item>, base: nat)
    ensures Syms([item] + rest, base) == Syms([item], base) + Syms(rest, base + |BytesOf(item)|)
  {
    SymsOfOne(item, base);
    assert ([item] + rest)[1..] == rest;
  }

  lemma SymsOfOne(item: Item, base: nat)
    ensures Syms([item], base) == if item.Def? then [(item.name, base)] else []
  {
    assert [item][1..] == [];
  }

  lemma RelocsOne(item: Item, rest: seq<Item>, base: nat)
    ensures Relocs([item] + rest, base) == Relocs([item], base) + Relocs(rest, base + |BytesOf(item)|)
  {
    RelocsOfOne(item, base);
    assert ([item] + rest)[1..] == rest;
  }

  lemma RelocsOfOne(item: Item, base: nat)
    ensures Relocs([item], base) == if item.Ref? then [Reloc(base, item.name)] else []
  {
    assert [item][1..] == [];
  }

  /** What comes after keeps its symbols at the place where it lands plus their own offset. */
  lemma {:induction false} SymsAppend(a: seq<Item>, b: seq<Item>, base: nat)
    ensures Syms(a + b, base) == Syms(a, base) + Syms(b, base + |Bytes(a)|)
    decreases |a|
  {
    hide Syms, Bytes, BytesOf;
    if a == [] {
      SymsNone(base);
      assert a + b == b && [] + Syms(b, base) == Syms(b, base);
    } else {
      var item, rest := a[0], a[1..];
      var next := base + |BytesOf(item)|;
      SymsAppend(rest, b, next);
      SymsOne(item, rest, base);
      SymsOne(item, rest + b, base);
      BytesOfOne(item);
      BytesAppend([item], rest);
      assert [item] + (rest + b) == a + b && [item] + rest == a;
      var x, y, z := Syms([item], base), Syms(rest, next), Syms(b, base + |Bytes(a)|);
      assert x + (y + z) == x + y + z;
    }
  }

  lemma SymsNone(base: nat)
    ensures Syms([], base) == [] && |Bytes([])| == 0
  {
  }

  lemma {:induction false} RelocsAppend(a: seq<Item>, b: seq<Item>, base: nat)
    ensures Relocs(a + b, base) == Relocs(a, base) + Relocs(b, base + |Bytes(a)|)
    decreases |a|
  {
    hide Relocs, Bytes, BytesOf;
    if a == [] {
      RelocsNone(base);
      assert a + b == b && [] + Relocs(b, base) == Relocs(b, base);
    } else {
      var item, rest := a[0], a[1..];
      var next := base + |BytesOf(item)|;
      RelocsAppend(rest, b, next);
      RelocsOne(item, rest, base);
      RelocsOne(item, rest + b, base);
      BytesOfOne(item);
      BytesAppend([item], rest);
      assert [item] + (rest + b) == a + b && [item] + rest == a;
      var x, y, z := Relocs([item], base), Relocs(rest, next), Relocs(b, base + |Bytes(a)|);
      assert x + (y + z) == x + y + z;
    }
  }

  lemma RelocsNone(base: nat)
    ensures Relocs([], base) == [] && |Bytes([])| == 0
  {
  }

  lemma {:induction false} NoSymsInData(bytes: seq<Byte>, base: nat)
    ensures Syms(DataItems(bytes), base) == [] && Relocs(DataItems(bytes), base) == []
    decreases |bytes|
  {
    if bytes != [] {
      assert DataItems(bytes)[1..] == DataItems(bytes[1..]);
      NoSymsInData(bytes[1..], base + 1);
    }
  }

  function ShiftSyms(s: seq<(string, nat)>, fix: nat): (r: seq<(string, nat)>)
    ensures |r| == |s| && forall i :: 0 <= i < |s| ==> r[i] == (s[i].0, s[i].1 + fix)
  {
    seq(|s|, i requires 0 <= i < |s| => (s[i].0, s[i].1 + fix))
  }

  function ShiftRelocs(s: seq<Reloc>, fix: nat): (r: seq<Reloc>)
    ensures |r| == |s| && forall i :: 0 <= i < |s| ==> r[i] == Reloc(s[i].offset + fix, s[i].name)
  {
    seq(|s|, i requires 0 <= i < |s| => Reloc(s[i].offset + fix, s[i].name))
  }

  lemma SymsShiftOne(item: Item, base: nat, fix: nat)
    ensures Syms([item], base + fix) == ShiftSyms(Syms([item], base), fix)
  {
    SymsOfOne(item, base);
    SymsOfOne(item, base + fix);
  }

  lemma ShiftSymsAppend(a: seq<(string, nat)>, b: seq<(string, nat)>, fix: nat)
    ensures ShiftSyms(a + b, fix) == ShiftSyms(a, fix) + ShiftSyms(b, fix)
  {
  }

  lemma {:induction false} SymsShift(items: seq<Item>, base: nat, fix: nat)
    ensures Syms(items, base + fix) == ShiftSyms(Syms(items, base), fix)
    decreases |items|
  {
    if items != [] {
      var item, rest, size := items[0], items[1..], |BytesOf(items[0])|;
      SymsShift(rest, base + size, fix);
      SymsOne(item, rest, base);
      SymsOne(item, rest, base + fix);
      assert [item] + rest == items;
      hide Syms, ShiftSyms;
      SymsShiftOne(item, base, fix);
      ShiftSymsAppend(Syms([item], base), Syms(rest, base + size), fix);
      assert base + size + fix == base + fix + size;
    }
  }

  lemma RelocsShiftOne(item: Item, base: nat, fix: nat)
    ensures Relocs([item], base + fix) == ShiftRelocs(Relocs([item], base), fix)
  {
    RelocsOfOne(item, base);
    RelocsOfOne(item, base + fix);
  }

  lemma ShiftRelocsAppend(a: seq<Reloc>, b: seq<Reloc>, fix: nat)
    ensures ShiftRelocs(a + b, fix) == ShiftRelocs(a, fix) + ShiftRelocs(b, fix)
  {
  }

  lemma {:induction false} RelocsShift(items: seq<Item>, base: nat, fix: nat)
    ensures Relocs(items, base + fix) == ShiftRelocs(Relocs(items, base), fix)
    decreases |items|
  {
    if items != [] {
      var item, rest, size := items[0], items[1..], |BytesOf(items[0])|;
      RelocsShift(rest, base + size, fix);
      RelocsOne(item, rest, base);
      RelocsOne(item, rest, base + fix);
      assert [item] + rest == items;
      hide Relocs, ShiftRelocs;
      RelocsShiftOne(item, base, fix);
      ShiftRelocsAppend(Relocs([item], base), Relocs(rest, base + size), fix);
      assert base + size + fix == base + fix + size;
    }
  }

  lemma {:induction false} ReverseShift(s: seq<(string, nat)>, fix: nat)
    ensures Reverse(ShiftSyms(s, fix)) == ShiftSyms(Reverse(s), fix)
  {
    if s != [] {
      assert ShiftSyms(s, fix)[1..] == ShiftSyms(s[1..], fix);
      ReverseShift(s[1..], fix);
    }
  }

  lemma {:induction false} ReverseShiftRelocs(s: seq<Reloc>, fix: nat)
    ensures Reverse(ShiftRelocs(s, fix)) == ShiftRelocs(Reverse(s), fix)
  {
    if s != [] {
      assert ShiftRelocs(s, fix)[1..] == ShiftRelocs(s[1..], fix);
      ReverseShiftRelocs(s[1..], fix);
    }
  }

  // ---------------------------------------------------------------- writing

  /** The next boundary of `2^log` bytes. */
  function AlignUp(size: nat, log: nat): nat {
    var unit := Unit(log);
    (size + unit - 1) / unit * unit
  }

  function Unit(log: nat): (r: nat)
    ensures r >= 1
  {
    if log == 0 then 1 else 2 * Unit(log - 1)
  }

  /** The least multiple that is not less. */
  lemma AlignUpIsLeast(size: nat, log: nat)
    ensures var r := AlignUp(size, log); size <= r < size + Unit(log) && r % Unit(log) == 0
  {
    var unit := Unit(log);
    var q := (size + unit - 1) / unit;
    DivFacts(size + unit - 1, unit);
    ModTimes(q, unit);
  }

  function Padding(size: nat, log: nat): (r: nat)
    ensures size + r == AlignUp(size, log)
  {
    AlignUpIsLeast(size, log);
    AlignUp(size, log) - size
  }

  lemma DivFacts(x: nat, unit: nat)
    requires unit >= 1
    ensures x / unit * unit <= x < x / unit * unit + unit
  {
    assert x == unit * (x / unit) + x % unit;
  }

  lemma ModTimes(q: nat, unit: nat)
    requires unit >= 1
    ensures q * unit % unit == 0
  {
    var m := q * unit;
    assert m == unit * (m / unit) + m % unit;
    assert unit * (q - m / unit) == m % unit;
    SmallMultiple(q - m / unit, unit, m % unit);
  }

  lemma SmallMultiple(k: int, unit: nat, r: nat)
    requires unit * k == r < unit
    ensures r == 0
  {
    TimesGrows(k, unit);
  }

  lemma TimesGrows(k: int, unit: nat)
    ensures k >= 1 ==> unit * k >= unit
    ensures k <= -1 ==> unit * k <= 0 - unit
  {
    assert unit * k == unit * (k - 1) + unit == unit * (k + 1) - unit;
  }

  /** No symbol or relocation lies before the place where the items start. */
  lemma {:induction false} NotBefore(items: seq<Item>, base: nat)
    ensures forall i :: 0 <= i < |Syms(items, base)| ==> base <= Syms(items, base)[i].1 <= base + |Bytes(items)|
    ensures forall i :: 0 <= i < |Relocs(items, base)| ==> base <= Relocs(items, base)[i].offset
    decreases |items|
  {
    if items != [] {
      NotBefore(items[1..], base + |BytesOf(items[0])|);
    }
  }

  /** The loop of `bc_seg_write` from byte `i`: the symbols whose value is `i`, then the word of a
      relocation at `i` or else one byte. Also, whether symbols or relocations are left at the end. */
  function WriteFrom(data: seq<Byte>, i: nat, syms: seq<(string, nat)>, relocs: seq<Reloc>): (seq<Item>, bool)
    decreases |data| - i, |syms|
  {
    if i >= |data| then ([], syms != [] || relocs != [])
    else if syms != [] && syms[0].1 == i then
      var r := WriteFrom(data, i, syms[1..], relocs);
      ([Def(syms[0].0)] + r.0, r.1)
    else if relocs != [] && relocs[0].offset == i && i + 4 <= |data| then
      var r := WriteFrom(data, i + 4, syms, relocs[1..]);
      ([Ref(relocs[0].name, data[i..i + 4])] + r.0, r.1)
    else
      var r := WriteFrom(data, i + 1, syms, relocs);
      ([Data(data[i])] + r.0, r.1)
  }

  predicate EndsWithDef(items: seq<Item>) {
    items != [] && items[|items| - 1].Def?
  }

  /** The writer gives back the items, every one once and in order, and aborts exactly when the last of
      them is a symbol, which no byte follows. */
  lemma {:induction false} WriteRecovers(items: seq<Item>, data: seq<Byte>, i: nat)
    requires WellSized(items) && i <= |data| && data[i..] == Bytes(items)
    ensures var r := WriteFrom(data, i, Syms(items, i), Relocs(items, i));
      r.1 == EndsWithDef(items) && (!r.1 ==> r.0 == items)
    decreases |items|
  {
    hide *;
    if items == [] {
      Nothing(data, i);
    } else if i == |data| {
      NoBytes(items, data, i);
      Stuck(items, data, i);
    } else {
      var item, rest := items[0], items[1..];
      var next := i + |BytesOf(item)|;
      assert items == [item] + rest;
      FirstFacts(item, rest, data, i);
      WriteRecovers(rest, data, next);
      WriteStep(item, Syms(rest, next), Relocs(rest, next), data, i);
    }
  }

  lemma NoBytes(items: seq<Item>, data: seq<Byte>, i: nat)
    requires i == |data| && data[i..] == Bytes(items)
    ensures Bytes(items) == []
  {
  }

  lemma Nothing(data: seq<Byte>, i: nat)
    requires i <= |data| && data[i..] == Bytes([])
    ensures WriteFrom(data, i, Syms([], i), Relocs([], i)) == ([], false) && !EndsWithDef([])
  {
    assert i == |data|;
  }

  lemma Stuck(items: seq<Item>, data: seq<Byte>, i: nat)
    requires WellSized(items) && i == |data| && Bytes(items) == [] && items != []
    ensures WriteFrom(data, i, Syms(items, i), Relocs(items, i)).1 && EndsWithDef(items)
  {
    OnlyDefs(items, i);
  }

  /** What is written first, and what is left. */
  lemma FirstFacts(item: Item, rest: seq<Item>, data: seq<Byte>, i: nat)
    requires WellSized([item] + rest) && i < |data| && data[i..] == Bytes([item] + rest)
    ensures var items := [item] + rest; var next := i + |BytesOf(item)|;
      && Syms(items, i) == (if item.Def? then [(item.name, i)] else []) + Syms(rest, next)
      && Relocs(items, i) == (if item.Ref? then [Reloc(i, item.name)] else []) + Relocs(rest, next)
      && (!item.Def? && Syms(rest, next) != [] ==> Syms(rest, next)[0].1 > i)
      && (item.Data? && Relocs(rest, next) != [] ==> Relocs(rest, next)[0].offset > i)
      && next <= |data| && data[next..] == Bytes(rest) && data[i..next] == BytesOf(item)
      && WellSized(rest) && (item.Ref? ==> |item.word| == 4) && EndsWithDef(items) == EndsWithDef(rest)
  {
    var items, next := [item] + rest, i + |BytesOf(item)|;
    RestBytes(item, rest, data, i);
    assert item == items[0];
    assert rest != [] ==> rest[|rest| - 1] == items[|items| - 1];
    assert |BytesOf(item)| > 0 || item.Def?;
    hide Syms, Relocs, Bytes;
    SymsOfOne(item, i);
    RelocsOfOne(item, i);
    SymsOne(item, rest, i);
    RelocsOne(item, rest, i);
    NotBefore(rest, next);
  }

  lemma RestBytes(item: Item, rest: seq<Item>, data: seq<Byte>, i: nat)
    requires WellSized([item] + rest) && i < |data| && data[i..] == Bytes([item] + rest)
    ensures var next := i + |BytesOf(item)|;
      && next <= |data| && data[next..] == Bytes(rest) && data[i..next] == BytesOf(item)
      && WellSized(rest) && (item.Ref? ==> |item.word| == 4) && (item.Def? ==> rest != [])
  {
    assert ([item] + rest)[0] == item && ([item] + rest)[1..] == rest;
    var b := BytesOf(item);
    assert data[i..] == b + Bytes(rest);
    assert data[i..][|b|..] == data[i + |b|..] && data[i..][..|b|] == data[i..i + |b|];
    forall k | 0 <= k < |rest| && rest[k].Ref? ensures |rest[k].word| == 4 {
      assert ([item] + rest)[k + 1] == rest[k];
    }
  }

  /** One item written. */
  lemma {:induction false} WriteStep(item: Item, syms: seq<(string, nat)>, relocs: seq<Reloc>, data: seq<Byte>, i: nat)
    requires i < |data| && i + |BytesOf(item)| <= |data| && data[i..i + |BytesOf(item)|] == BytesOf(item)
    requires item.Ref? ==> |item.word| == 4
    requires !item.Def? && syms != [] ==> syms[0].1 > i
    requires item.Data? && relocs != [] ==> relocs[0].offset > i
    ensures var s := (if item.Def? then [(item.name, i)] else []) + syms;
      var l := (if item.Ref? then [Reloc(i, item.name)] else []) + relocs;
      var r := WriteFrom(data, i + |BytesOf(item)|, syms, relocs);
      WriteFrom(data, i, s, l) == ([item] + r.0, r.1)
  {
    var s := (if item.Def? then [(item.name, i)] else []) + syms;
    var l := (if item.Ref? then [Reloc(i, item.name)] else []) + relocs;
    assert item.Def? ==> s[1..] == syms;
    if item.Ref? {
      assert l[1..] == relocs;
      assert BytesOf(item) == item.word && i + 4 == i + |BytesOf(item)|;
    }
    assert !item.Def? ==> s == syms;
    assert !item.Ref? ==> l == relocs;
    assert item.Data? ==> data[i] == data[i..i + 1][0];
  }

  /** Without bytes there are only symbols. */
  lemma {:induction false} OnlyDefs(items: seq<Item>, base: nat)
    requires WellSized(items) && Bytes(items) == [] && items != []
    ensures EndsWithDef(items) && Syms(items, base) != []
  {
    assert BytesOf(items[0]) == [];
    if |items| > 1 {
      OnlyDefs(items[1..], base);
      assert items[1..][|items| - 2] == items[|items| - 1];
    }
  }

  /** Every relocation has its whole word inside the segment. */
  lemma {:induction false} RelocsInside(items: seq<Item>, base: nat)
    requires WellSized(items)
    ensures forall i :: 0 <= i < |Relocs(items, base)| ==> Relocs(items, base)[i].offset + 4 <= base + |Bytes(items)|
    decreases |items|
  {
    if items != [] {
      RelocsInside(items[1..], base + |BytesOf(items[0])|);
    }
  }

  /** The loop that turns a list round. */
  method TurnRound<T>(list: seq<T>) returns (r: seq<T>)
    ensures r == Reverse(list)
  {
    r := [];
    var k := 0;
    while k < |list|
      invariant 0 <= k <= |list| && r == Reverse(list[..k])
    {
      ReverseAppend(list[..k], [list[k]]);
      assert list[..k + 1] == list[..k] + [list[k]] && Reverse([list[k]]) == [list[k]];
      r := [list[k]] + r;
      k := k + 1;
    }
    assert list[..k] == list;
  }

  /** The main loop of `bc_seg_write` over the lists in ascending order. */
  method WriteOut(data: seq<Byte>, syms: seq<(string, nat)>, relocs: seq<Reloc>) returns (out: seq<Item>, left: bool)
    requires forall i :: 0 <= i < |relocs| ==> relocs[i].offset + 4 <= |data|
    ensures out == WriteFrom(data, 0, syms, relocs).0 && left == WriteFrom(data, 0, syms, relocs).1
  {
    out := [];
    var i, k, r := 0, 0, 0;
    while i < |data|
      invariant 0 <= k <= |syms| && 0 <= r <= |relocs|
      invariant Written(data, syms, relocs, out, i, k, r)
      decreases |data| - i
    {
      while k < |syms| && syms[k].1 == i
        invariant 0 <= k <= |syms| && Written(data, syms, relocs, out, i, k, r)
      {
        SymTurn(data, syms, relocs, out, i, k, r);
        out := out + [Def(syms[k].0)];
        k := k + 1;
      }
      ByteTurn(data, syms, relocs, out, i, k, r);
      if r < |relocs| && relocs[r].offset == i {
        out := out + [Ref(relocs[r].name, data[i..i + 4])];
        r := r + 1;
        i := i + 4;
      } else {
        out := out + [Data(data[i])];
        i := i + 1;
      }
    }
    left := k < |syms| || r < |relocs|;
  }

  ghost predicate Written(data: seq<Byte>, syms: seq<(string, nat)>, relocs: seq<Reloc>, out: seq<Item>, i: nat, k: nat, r: nat)
    requires k <= |syms| && r <= |relocs|
  {
    var all, rest := WriteFrom(data, 0, syms, relocs), WriteFrom(data, i, syms[k..], relocs[r..]);
    all.0 == out + rest.0 && all.1 == rest.1
  }

  lemma SymTurn(data: seq<Byte>, syms: seq<(string, nat)>, relocs: seq<Reloc>, out: seq<Item>, i: nat, k: nat, r: nat)
    requires k < |syms| && r <= |relocs| && i < |data| && syms[k].1 == i
    requires Written(data, syms, relocs, out, i, k, r)
    ensures Written(data, syms, relocs, out + [Def(syms[k].0)], i, k + 1, r)
  {
    assert syms[k..][1..] == syms[k + 1..];
    var rest := WriteFrom(data, i, syms[k + 1..], relocs[r..]);
    assert out + ([Def(syms[k].0)] + rest.0) == out + [Def(syms[k].0)] + rest.0;
  }

  lemma ByteTurn(data: seq<Byte>, syms: seq<(string, nat)>, relocs: seq<Reloc>, out: seq<Item>, i: nat, k: nat, r: nat)
    requires k <= |syms| && r <= |relocs| && i < |data| && (k < |syms| ==> syms[k].1 != i)
    requires r < |relocs| ==> relocs[r].offset + 4 <= |data|
    requires Written(data, syms, relocs, out, i, k, r)
    ensures if r < |relocs| && relocs[r].offset == i
            then Written(data, syms, relocs, out + [Ref(relocs[r].name, data[i..i + 4])], i + 4, k, r + 1)
            else Written(data, syms, relocs, out + [Data(data[i])], i + 1, k, r)
  {
    if r < |relocs| && relocs[r].offset == i {
      assert relocs[r..][1..] == relocs[r + 1..];
      var rest := WriteFrom(data, i + 4, syms[k..], relocs[r + 1..]);
      var item := Ref(relocs[r].name, data[i..i + 4]);
      assert out + ([item] + rest.0) == out + [item] + rest.0;
    } else {
      var rest := WriteFrom(data, i + 1, syms[k..], relocs[r..]);
      assert out + ([Data(data[i])] + rest.0) == out + [Data(data[i])] + rest.0;
    }
  }
}
