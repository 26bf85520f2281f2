/**
 The text of the object file: functions are put behind each other as they end.
 */
module BcText {
  import opened Helpers
  import opened BcItems
  import opened BcSegments
  import opened BcFunctions

  /** What is put into the text at a time, behind the next boundary of `log`: a function, an alignment
      without items, or what is emitted directly, for which every place is a boundary. */
  datatype Piece = Piece(items: seq<Item>, log: nat)

  /** The text after the first `k` of the pieces, from `text` on. */
  function TextAfter(text: seq<Item>, ps: seq<Piece>, k: nat): seq<Item>
    requires k <= |ps|
  {
    if k == 0 then text else Pad(TextAfter(text, ps, k - 1), ps[k - 1].log) + ps[k - 1].items
  }

  /** Where piece `k` comes to stand. */
  function Place(text: seq<Item>, ps: seq<Piece>, k: nat): nat
    requires k < |ps|
  {
    AlignUp(|Bytes(TextAfter(text, ps, k))|, ps[k].log)
  }

  /** The symbols and relocations of the first `k` pieces, moved to where these stand. */
  function AllSyms(text: seq<Item>, ps: seq<Piece>, k: nat): seq<(string, nat)>
    requires k <= |ps|
  {
    if k == 0 then Syms(text, 0)
    else AllSyms(text, ps, k - 1) + ShiftSyms(Syms(ps[k - 1].items, 0), Place(text, ps, k - 1))
  }

  function AllRelocs(text: seq<Item>, ps: seq<Piece>, k: nat): seq<Reloc>
    requires k <= |ps|
  {
    if k == 0 then Relocs(text, 0)
    else AllRelocs(text, ps, k - 1) + ShiftRelocs(Relocs(ps[k - 1].items, 0), Place(text, ps, k - 1))
  }

  /** What is emitted directly comes right behind the text. */
  lemma EmittedDirectly(text: seq<Item>, items: seq<Item>)
    ensures TextAfter(text, [Piece(items, 0)], 1) == text + items
  {
    var size := |Bytes(text)|;
    assert AlignUp(size, 0) == size;
    assert Zeros(0) == [] && DataItems(Zeros(0)) == [];
    assert TextAfter(text, [Piece(items, 0)], 0) == text;
    assert Pad(text, 0) == text;
  }

  /** `bc_end_function`: the function is put together and goes behind the text. */
  method EndFunction(text: Segment, f: FunctionCode, entry: Segment, pointers: Segment, pointersLabel: BcSym, log: nat)
    requires text.Valid() && f.Valid() && entry.Valid() && pointers.Valid()
    requires entry != pointers && f.bytecode !in {entry, pointers, text} && text !in {entry, pointers}
    requires entry.data !in {pointers.data, f.bytecode.data} && pointers.data != f.bytecode.data
    requires text.data !in {entry.data, pointers.data, f.bytecode.data}
    requires Apart(pointers.syms, entry.syms) && Apart(entry.syms, text.syms) && Apart(pointers.syms, text.syms)
    requires pointersLabel !in text.syms
    modifies text, text.data, entry, entry.data, f.bytecode`items, f.bytecode.data, pointersLabel, entry.syms, pointers.syms
    ensures text.Valid()
    ensures text.items == Pad(old(text.items), log) +
      FunctionItems(old(entry.items), Patched(old(f.Code()), old(Slots(f.labelrefs))),
                    if old(pointersLabel.defined) then [] else [Def(pointersLabel.name)], old(pointers.items), log)
  {
    hide FunctionItems, Patched, Slots, Padding, Bytes, Segment.DataOk, Segment.RelocsOk, Syms, Relocs, Reverse;
    ghost var syms := text.syms;
    ghost var seen := View(syms);
    Assemble(f, entry, pointers, pointersLabel, log);
    forall i | 0 <= i < |syms|
      ensures View(syms)[i] == seen[i]
    {
      assert syms[i] in syms && unchanged(syms[i]);
    }
    assert View(syms) == seen;
    assert text.SymsOk();
    assert forall i :: 0 <= i < |entry.syms| ==>
      entry.syms[i] in old(entry.syms) || entry.syms[i] in old(pointers.syms) || entry.syms[i] == pointersLabel;
    text.SegConcat(entry, log);
  }

  // ---------------------------------------------------------------- runs

  lemma {:induction false} SymsOfText(text: seq<Item>, ps: seq<Piece>, k: nat)
    requires k <= |ps|
    ensures Syms(TextAfter(text, ps, k), 0) == AllSyms(text, ps, k)
    ensures Relocs(TextAfter(text, ps, k), 0) == AllRelocs(text, ps, k)
  {
    hide Syms, Relocs, Bytes, ShiftSyms, ShiftRelocs, AlignUp, Pad, Unit;
    if k > 0 {
      SymsOfText(text, ps, k - 1);
      Lands(TextAfter(text, ps, k - 1), ps[k - 1].items, ps[k - 1].log);
    }
  }

  /** Later pieces do not disturb what is there. */
  lemma {:induction false} TextGrows(text: seq<Item>, ps: seq<Piece>, j: nat, k: nat)
    requires j <= k <= |ps|
    ensures Bytes(TextAfter(text, ps, j)) <= Bytes(TextAfter(text, ps, k))
    decreases k
  {
    hide Bytes, Pad;
    if j < k {
      TextGrows(text, ps, j, k - 1);
      LandsBehind(TextAfter(text, ps, k - 1), ps[k - 1].items, ps[k - 1].log);
    }
  }

  lemma LandsBehind(a: seq<Item>, b: seq<Item>, log: nat)
    ensures Bytes(a) <= Bytes(Pad(a, log) + b)
  {
    hide Bytes, AlignUp, Pad, Unit, Syms, Relocs, ShiftSyms, ShiftRelocs;
    Lands(a, b, log);
  }

  /** In the finished text every piece stands unchanged at its place, the next boundary behind the pieces
      before it; the symbols and relocations are those of all pieces, each at the place of its piece plus
      its offset there. */
  lemma PiecesLand(text: seq<Item>, ps: seq<Piece>, k: nat)
    requires k < |ps|
    ensures var all := TextAfter(text, ps, |ps|);
      var at := Place(text, ps, k);
      var end := |Bytes(TextAfter(text, ps, k))|;
      && at % Unit(ps[k].log) == 0 && end <= at < end + Unit(ps[k].log)
      && at + |Bytes(ps[k].items)| <= |Bytes(all)|
      && Bytes(all)[at..at + |Bytes(ps[k].items)|] == Bytes(ps[k].items)
      && Bytes(text) <= Bytes(all)
      && Syms(all, 0) == AllSyms(text, ps, |ps|) && Relocs(all, 0) == AllRelocs(text, ps, |ps|)
  {
    hide Syms, Relocs, Bytes, AllSyms, AllRelocs, Pad, AlignUp, Unit;
    SymsOfText(text, ps, |ps|);
    TextGrows(text, ps, 0, |ps|);
    TextGrows(text, ps, k + 1, |ps|);
    Lands(TextAfter(text, ps, k), ps[k].items, ps[k].log);
  }
}
