/**
 Byte strings written by `ASM_OUTPUT_ASCII`, and read back piece by piece as string constants.
 */
module AsciiRoundTrip {
  import opened LexEscape
  import opened LexNumber

  const QUOTE := 34
  const BACKSLASH := 92
  const NEW_LINE := 10

  /** The directive in front of a piece, with its opening quote. */
  const DIRECTIVE: Text := [9, 46, 97, 115, 99, 105, 105, 32, 34]

  // ---------------------------------------------------------------- writing

  /** `%o` */
  function Octal(c: Byte): (t: Text)
    ensures 1 <= |t| <= 3 && forall i :: 0 <= i < |t| ==> IsOctal(t[i])
  {
    if c < 8 then [48 + c]
    else if c < 64 then [48 + c / 8, 48 + c % 8]
    else [48 + c / 64, 48 + c / 8 % 8, 48 + c % 8]
  }

  predicate IsOctal(c: int) { 48 <= c <= 55 }

  predicate IsDigit(c: int) { 48 <= c <= 57 }

  predicate Printable(c: int) { 32 <= c < 127 }

  /** What is written for one byte. */
  function Escaped(c: Byte): Text {
    (if c == QUOTE || c == BACKSLASH then [BACKSLASH] else [])
    + (if Printable(c) then [c] else [BACKSLASH] + Octal(c))
  }

  /** After an octal escape in front of a digit the piece ends and another starts. */
  function Split(p: seq<Byte>, i: nat): Text
    requires i < |p|
  {
    if !Printable(p[i]) && i + 1 < |p| && IsDigit(p[i + 1]) then [QUOTE, NEW_LINE] + DIRECTIVE else []
  }

  /** What is written from byte `i` on, to the end of the last piece. */
  function Written(p: seq<Byte>, i: nat): Text
    requires i <= |p|
    decreases |p| - i
  {
    if i == |p| then [QUOTE, NEW_LINE] else Escaped(p[i]) + (Split(p, i) + Written(p, i + 1))
  }

  /** `ASM_OUTPUT_ASCII` */
  method OutputAscii(p: seq<Byte>) returns (out: Text)
    ensures out == DIRECTIVE + Written(p, 0)
  {
    out := DIRECTIVE;
    var i := 0;
    while i < |p|
      invariant 0 <= i <= |p| && out + Written(p, i) == DIRECTIVE + Written(p, 0)
    {
      hide *;
      var t := OutputByte(p, i);
      WrittenStep(p, i);
      assert out + (t + Written(p, i + 1)) == out + t + Written(p, i + 1);
      out := out + t;
      i := i + 1;
    }
    out := out + [QUOTE, NEW_LINE];
  }

  lemma WrittenStep(p: seq<Byte>, i: nat)
    requires i < |p|
    ensures Written(p, i) == Escaped(p[i]) + Split(p, i) + Written(p, i + 1)
  {
    hide Escaped, Split, DIRECTIVE;
    var a, b, c := Escaped(p[i]), Split(p, i), Written(p, i + 1);
    assert a + (b + c) == a + b + c;
  }

  /** The body of the loop. */
  method OutputByte(p: seq<Byte>, i: nat) returns (out: Text)
    requires i < |p|
    ensures out == Escaped(p[i]) + Split(p, i)
  {
    hide Octal, DIRECTIVE;
    out := [];
    var c := p[i];
    if c == QUOTE || c == BACKSLASH {
      out := out + [BACKSLASH];
    }
    if c >= 32 && c < 127 {
      out := out + [c];
    } else {
      out := out + ([BACKSLASH] + Octal(c));
      if i < |p| - 1 && p[i + 1] >= 48 && p[i + 1] <= 57 {
        out := out + ([QUOTE, NEW_LINE] + DIRECTIVE);
      }
    }
  }

  /** The text has printable characters, tabs and new lines only. */
  predicate Plain(text: Text) {
    forall k :: 0 <= k < |text| ==> 32 <= text[k] < 127 || text[k] == 9 || text[k] == NEW_LINE
  }

  lemma PlainByte(c: Byte)
    ensures Plain(Escaped(c))
  {
  }

  lemma {:induction false} WrittenIsPlain(p: seq<Byte>, i: nat)
    requires i <= |p|
    ensures Plain(Written(p, i))
    decreases |p| - i
  {
    hide *;
    if i < |p| {
      WrittenIsPlain(p, i + 1);
      PlainByte(p[i]);
      SplitIsPlain(p, i);
      OneWritten(p, i);
      BothPlain(Split(p, i), Written(p, i + 1));
      BothPlain(Escaped(p[i]), Split(p, i) + Written(p, i + 1));
    } else {
      NoneWritten(p);
      EndIsPlain();
    }
  }

  lemma SplitIsPlain(p: seq<Byte>, i: nat)
    requires i < |p|
    ensures Plain(Split(p, i))
  {
  }

  lemma EndIsPlain()
    ensures Plain([QUOTE, NEW_LINE])
  {
  }

  lemma BothPlain(a: Text, b: Text)
    requires Plain(a) && Plain(b)
    ensures Plain(a + b)
  {
  }

  /** Where nothing needs an escape the bytes are copied. */
  lemma {:induction false} PlainIsCopied(p: seq<Byte>, i: nat)
    requires i <= |p| && forall k :: i <= k < |p| ==> 32 <= p[k] < 127 && p[k] != QUOTE && p[k] != BACKSLASH
    ensures Written(p, i) == p[i..] + [QUOTE, NEW_LINE]
    decreases |p| - i
  {
    hide *;
    if i < |p| {
      PlainIsCopied(p, i + 1);
      PlainStep(p, i);
      OneInFront(p, i, [QUOTE, NEW_LINE]);
    } else {
      NoneWritten(p);
      assert p[i..] + [QUOTE, NEW_LINE] == [QUOTE, NEW_LINE];
    }
  }

  lemma OneInFront(p: seq<Byte>, i: nat, end: Text)
    requires i < |p|
    ensures [p[i]] + (p[i + 1..] + end) == p[i..] + end
  {
  }

  lemma PlainStep(p: seq<Byte>, i: nat)
    requires i < |p| && 32 <= p[i] < 127 && p[i] != QUOTE && p[i] != BACKSLASH
    ensures Written(p, i) == [p[i]] + Written(p, i + 1)
  {
    hide Written, Octal, DIRECTIVE;
    WrittenStep(p, i);
    var rest := Written(p, i + 1);
    assert Escaped(p[i]) == [p[i]] && Split(p, i) == [];
    assert [p[i]] + [] + rest == [p[i]] + rest;
  }

  // ---------------------------------------------------------------- reading

  /** The octal case of `readescape`: up to three digits, the first of them seen already. */
  function OctalFrom(text: Text, count: nat, code: nat): (nat, Text)
    requires count <= 3
  {
    if count < 3 && text != [] && IsOctal(text[0]) then OctalFrom(text[1..], count + 1, code * 8 + (text[0] - 48))
    else (code, text)
  }

  /** The control characters by their letters. */
  function Control(c: int): int {
    if c == 'n' as int then 10 else if c == 't' as int then 9 else if c == 'r' as int then 13
    else if c == 'f' as int then 12 else if c == 'b' as int then 8 else if c == 'a' as int then 7
    else if c == 'v' as int then 11 else if c == 'e' as int || c == 'E' as int then 27 else c
  }

  /** `readescape` on the text behind the backslash: the character, nothing for a backslash in front of a
      new line, and the text behind the escape. */
  function ReadEscape(text: Text): (r: (seq<int>, Text))
    requires text != []
    ensures |r.1| < |text|
  {
    var c := text[0];
    if c == 'x' as int then
      var n := HexLength(text[1..]);
      ([Int32(HexValue(text[1..], n))], text[1..][n..])
    else if IsOctal(c) then
      OctalShrinks(text[1..], 1, c - 48);
      var r := OctalFrom(text[1..], 1, c - 48);
      ([r.0], r.1)
    else if c == NEW_LINE then ([], text[1..])
    else ([Control(c)], text[1..])
  }

  const CONTROLS := "abtnvfr"

  /** The letters in `CONTROLS` stand for the codes from 7 on, an `e` for 27, and every other character
      that starts no octal or hex escape for itself. */
  lemma EscapeMeans(c: char, rest: Text)
    ensures forall k :: 0 <= k < 7 && c == CONTROLS[k] ==> ReadEscape([c as int] + rest) == ([7 + k], rest)
    ensures c in "eE" ==> ReadEscape([c as int] + rest) == ([27], rest)
    ensures c !in CONTROLS && c !in "eEx01234567" && c as int != NEW_LINE ==>
              ReadEscape([c as int] + rest) == ([c as int], rest)
    ensures c as int == NEW_LINE ==> ReadEscape([c as int] + rest) == ([], rest)
  {
    assert ([c as int] + rest)[1..] == rest;
    hide HexLength, HexValue, OctalFrom;
  }

  lemma {:induction false} OctalShrinks(text: Text, count: nat, code: nat)
    requires count <= 3
    ensures |OctalFrom(text, count, code).1| <= |text|
  {
    if count < 3 && text != [] && IsOctal(text[0]) {
      OctalShrinks(text[1..], count + 1, code * 8 + (text[0] - 48));
    }
  }

  /** One turn of the string loop: the bytes stored, and the text that is left. */
  function Turn(text: Text): (r: (seq<Byte>, Text))
    requires text != []
    ensures |r.1| < |text|
  {
    if text[0] == BACKSLASH && |text| > 1 then
      var e := ReadEscape(text[1..]);
      (Stored(e.0), e.1)
    else (Stored([text[0]]), text[1..])
  }

  /** The string loop of the scanner, behind the opening quote: the bytes, and the text behind the
      closing quote. */
  function ReadString(text: Text): (r: (seq<Byte>, Text))
    ensures |r.1| <= |text|
    decreases |text|
  {
    if text == [] then ([], [])
    else if text[0] == QUOTE then ([], text[1..])
    else
      var t := Turn(text);
      var r := ReadString(t.1);
      (t.0 + r.0, r.1)
  }

  /** A character is stored in a byte. */
  function Stored(c: seq<int>): (r: seq<Byte>)
    ensures |r| == |c|
  {
    if c == [] then [] else [c[0] % 256] + Stored(c[1..])
  }

  /** The string loop as it runs. */
  method ScanString(text: Text) returns (bytes: seq<Byte>, rest: Text)
    ensures bytes == ReadString(text).0 && rest == ReadString(text).1
  {
    hide Turn;
    bytes, rest := [], text;
    while rest != [] && rest[0] != QUOTE
      invariant bytes + ReadString(rest).0 == ReadString(text).0 && ReadString(rest).1 == ReadString(text).1
      decreases |rest|
    {
      var t := Turn(rest);
      assert bytes + (t.0 + ReadString(t.1).0) == bytes + t.0 + ReadString(t.1).0;
      bytes, rest := bytes + t.0, t.1;
    }
    if rest != [] {
      rest := rest[1..];
    }
  }

  /** The pieces read one after the other and joined; the text stands behind an opening quote. */
  function ReadPieces(text: Text): seq<Byte>
    decreases |text|
  {
    var r := ReadString(text);
    if |r.1| > |DIRECTIVE| && r.1[1..|DIRECTIVE| + 1] == DIRECTIVE && |text| > 0 then
      r.0 + ReadPieces(r.1[|DIRECTIVE| + 1..])
    else r.0
  }

  // ---------------------------------------------------------------- the round trip

  /** The text does not go on with an octal digit. */
  predicate Stops(text: Text) { text == [] || !IsOctal(text[0]) }

  lemma NextDigit(d: int, rest: Text, count: nat, code: nat)
    requires 0 <= d < 8 && count < 3
    ensures OctalFrom([48 + d] + rest, count, code) == OctalFrom(rest, count + 1, code * 8 + d)
  {
    assert ([48 + d] + rest)[1..] == rest;
  }

  /** An octal escape is read up to the next character that is not an octal digit. */
  lemma OctalRead(c: Byte, text: Text)
    requires Stops(text)
    ensures ReadEscape(Octal(c) + text) == ([c], text)
  {
    var t := Octal(c) + text;
    if c < 8 {
      assert t[1..] == text;
    } else if c < 64 {
      assert t[1..] == [48 + c % 8] + text;
      NextDigit(c % 8, text, 1, c / 8);
      assert c / 8 * 8 + c % 8 == c;
    } else {
      assert t[1..] == [48 + c / 8 % 8] + ([48 + c % 8] + text);
      NextDigit(c / 8 % 8, [48 + c % 8] + text, 1, c / 64);
      NextDigit(c % 8, text, 2, c / 64 * 8 + c / 8 % 8);
      assert (c / 64 * 8 + c / 8 % 8) * 8 + c % 8 == c;
    }
  }

  lemma StoredOne(c: Byte)
    ensures Stored([c]) == [c]
  {
    assert [c][1..] == [];
  }

  /** What is written for a byte is read in one turn. */
  lemma TurnBack(c: Byte, text: Text)
    requires !Printable(c) ==> Stops(text)
    ensures var t := Escaped(c) + text; t[0] != QUOTE && Turn(t) == ([c], text)
  {
    var t := Escaped(c) + text;
    if Printable(c) {
      if c == QUOTE || c == BACKSLASH {
        assert t == [BACKSLASH] + ([c] + text) && t[1..] == [c] + text && ([c] + text)[1..] == text;
      } else {
        assert t == [c] + text && t[1..] == text && t[0] == c;
      }
      StoredOne(c);
    } else {
      OctalRead(c, text);
      assert t == [BACKSLASH] + (Octal(c) + text) && t[1..] == Octal(c) + text;
      StoredOne(c);
    }
  }

  /** The pieces written from byte `i` on, joined, are the bytes from `i` on. */
  lemma {:induction false} ReadBack(p: seq<Byte>, i: nat)
    requires i <= |p|
    ensures ReadPieces(Written(p, i)) == p[i..]
    decreases |p| - i
  {
    hide *;
    if i == |p| {
      NoneWritten(p);
      LastPiece();
      assert p[i..] == [];
    } else {
      ReadBack(p, i + 1);
      OneWritten(p, i);
      StopsAfter(p, i);
      OneReadBack(p, i, Written(p, i + 1));
      assert p[i..] == [p[i]] + p[i + 1..];
    }
  }

  lemma NoneWritten(p: seq<Byte>)
    ensures Written(p, |p|) == [QUOTE, NEW_LINE]
  {
  }

  lemma OneWritten(p: seq<Byte>, i: nat)
    requires i < |p|
    ensures Written(p, i) == Escaped(p[i]) + (Split(p, i) + Written(p, i + 1))
  {
  }

  lemma OneReadBack(p: seq<Byte>, i: nat, rest: Text)
    requires i < |p| && (!Printable(p[i]) ==> Stops(Split(p, i) + rest))
    ensures ReadPieces(Escaped(p[i]) + (Split(p, i) + rest)) == [p[i]] + ReadPieces(rest)
  {
    hide Escaped, Turn, ReadPieces, ReadString, DIRECTIVE, Octal, Stops;
    TurnBack(p[i], Split(p, i) + rest);
    var gap, c := Split(p, i), p[i];
    assert gap == [] || gap == [QUOTE, NEW_LINE] + DIRECTIVE;
    GapRead(gap, rest);
    OneMore(Escaped(c) + (gap + rest), c, gap + rest);
  }

  /** Nothing that is read as a digit follows an octal escape, whether the reader counts digits or not. */
  lemma StopsAfter(p: seq<Byte>, i: nat)
    requires i < |p|
    ensures p[i] < 32 || p[i] >= 127 ==>
      var rest := Split(p, i) + Written(p, i + 1); rest != [] && !('0' as int <= rest[0] <= '9' as int)
    ensures !Printable(p[i]) ==> Stops(Split(p, i) + Written(p, i + 1))
  {
  }

  lemma LastPiece()
    ensures ReadPieces([QUOTE, NEW_LINE]) == []
  {
  }

  /** The end of a piece and the start of the next leave no trace. */
  lemma GapRead(gap: Text, rest: Text)
    requires gap == [] || gap == [QUOTE, NEW_LINE] + DIRECTIVE
    ensures ReadPieces(gap + rest) == ReadPieces(rest)
  {
    if gap != [] {
      var t := gap + rest;
      assert t[1..] == [NEW_LINE] + DIRECTIVE + rest;
      assert t[1..][1..|DIRECTIVE| + 1] == DIRECTIVE && t[1..][|DIRECTIVE| + 1..] == rest;
    } else {
      assert gap + rest == rest;
    }
  }

  lemma OneMore(text: Text, c: Byte, rest: Text)
    requires text != [] && text[0] != QUOTE && Turn(text) == ([c], rest)
    ensures ReadPieces(text) == [c] + ReadPieces(rest)
  {
    hide Turn, DIRECTIVE;
  }

  /** Every byte string comes back from what is written for it. */
  lemma WrittenReadsBack(p: seq<Byte>)
    ensures var out := DIRECTIVE + Written(p, 0);
      out[..|DIRECTIVE|] == DIRECTIVE && ReadPieces(out[|DIRECTIVE|..]) == p
  {
    ReadBack(p, 0);
    assert (DIRECTIVE + Written(p, 0))[|DIRECTIVE|..] == Written(p, 0);
  }
}
