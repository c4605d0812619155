/** What each notation in LS_COLORS stands for (readline/parse-colors.c). The characters are given by their
    codes: 92 is the backslash, 94 the caret, 58 the colon, 61 the equal sign. */
module ColorNotation {
  import opened Chars
  import opened ColorSpec

  // ---- Numbers ----

  lemma DigitsEndAt(s: seq<Byte>, hex: bool, i: nat, e: nat)
    requires i <= e <= |s| && (forall j :: i <= j < e ==> IsDigitOf(hex, s[j])) && (e < |s| ==> !IsDigitOf(hex, s[e]))
    ensures DigitsEnd(s, hex, i) == e
  {
    hide DigitsEnd;
    assert DigitsEnd(s, hex, i) >= e;
  }

  /** Two digits, three digits. */
  lemma ValueOf(s: seq<Byte>, hex: bool, i: nat)
    requires i + 2 <= |s| && IsDigitOf(hex, s[i]) && IsDigitOf(hex, s[i + 1])
    ensures Value(s, hex, i, i + 2) == Shift(hex, Shift(hex, 0, s[i]), s[i + 1])
    ensures i + 2 < |s| && IsDigitOf(hex, s[i + 2]) ==>
            Value(s, hex, i, i + 3) == Shift(hex, Shift(hex, Shift(hex, 0, s[i]), s[i + 1]), s[i + 2])
  {
    assert Value(s, hex, i, i) == 0;
    assert Value(s, hex, i, i + 1) == Shift(hex, 0, s[i]);
    assert Value(s, hex, i, i + 2) == Shift(hex, Value(s, hex, i, i + 1), s[i + 1]);
  }

  /** `text` stands in `s` at `i`. */
  predicate Stands(s: seq<Byte>, i: nat, text: seq<Byte>) {
    i + |text| <= |s| && forall j :: 0 <= j < |text| ==> s[i + j] == text[j]
  }

  /** The octal digits of a byte. */
  function OctalDigits(b: Byte): (d: (nat, nat, nat))
    ensures d.0 < 8 && d.1 < 8 && d.2 < 8 && (d.0 * 8 + d.1) * 8 + d.2 == b
  {
    (b / 64, b / 8 % 8, b % 8)
  }

  function OctalByte(b: Byte): (t: seq<Byte>)
    ensures |t| == 4
  {
    var (x, y, z) := OctalDigits(b);
    [92, x + 48, y + 48, z + 48]
  }

  /** A backslash and three octal digits are the byte that they spell, where no octal digit follows. */
  lemma OctalReads(s: seq<Byte>, i: nat, b: Byte, equalsEnd: bool)
    requires NulFree(s) && Stands(s, i, OctalByte(b)) && !(48 <= At(s, i + 4) <= 55)
    ensures Decode(s, i, equalsEnd) == Push(b, Decode(s, i + 4, equalsEnd))
  {
    hide OctalDigits, Decode;
    var t, d := OctalByte(b), OctalDigits(b);
    assert s[i] == t[0] && s[i + 1] == t[1] && s[i + 2] == t[2] && s[i + 3] == t[3];
    OctalTaken(s, i, d.0, d.1, d.2, equalsEnd);
    hide *;
    TakenFirst(s, i, equalsEnd);
  }

  lemma OctalTaken(s: seq<Byte>, i: nat, x: nat, y: nat, z: nat, equalsEnd: bool)
    requires NulFree(s) && i + 4 <= |s| && x < 8 && y < 8 && z < 8 && !(48 <= At(s, i + 4) <= 55)
    requires s[i] == 92 && s[i + 1] == x + 48 && s[i + 2] == y + 48 && s[i + 3] == z + 48
    ensures Taken(s, i, equalsEnd) == Some((((x * 8 + y) * 8 + z) % 256, i + 4))
  {
    hide Value, DigitsEnd;
    DigitsEndAt(s, false, i + 1, i + 4);
    ValueOf(s, false, i + 1);
  }

  lemma TakenFirst(s: seq<Byte>, i: nat, equalsEnd: bool)
    requires NulFree(s) && i <= |s| && Taken(s, i, equalsEnd).Some?
    ensures var t := Taken(s, i, equalsEnd).value; Decode(s, i, equalsEnd) == Push(t.0, Decode(s, t.1, equalsEnd))
  {
    hide Taken;
  }

  /** `x` or `X`, and digits in lower or upper case. */
  function HexByte(b: Byte, x: Byte, first: Byte): (t: seq<Byte>)
    requires (x == 120 || x == 88) && (first == 97 || first == 65)
    ensures |t| == 4
  {
    [92, x, HexChar(b / 16, first), HexChar(b % 16, first)]
  }

  predicate HexDigit(c: Byte) {
    48 <= c <= 57 || 97 <= c <= 102 || 65 <= c <= 70
  }

  /** A backslash, an `x` and two hexadecimal digits are the byte that they spell, where none follows. */
  lemma HexReads(s: seq<Byte>, i: nat, b: Byte, x: Byte, first: Byte, equalsEnd: bool)
    requires (x == 120 || x == 88) && (first == 97 || first == 65)
    requires NulFree(s) && Stands(s, i, HexByte(b, x, first)) && !HexDigit(At(s, i + 4))
    ensures Decode(s, i, equalsEnd) == Push(b, Decode(s, i + 4, equalsEnd))
  {
    var t := HexByte(b, x, first);
    assert s[i] == t[0] && s[i + 1] == t[1] && s[i + 2] == t[2] && s[i + 3] == t[3];
    DigitsEndAt(s, true, i + 2, i + 4);
    ValueOf(s, true, i + 2);
    assert (b / 16) * 16 + b % 16 == b;
    assert Taken(s, i, equalsEnd) == Some((b, i + 4));
    hide Taken;
  }

  // ---- Letters and carets ----

  lemma Escaped(s: seq<Byte>, i: nat, c: Byte, equalsEnd: bool)
    requires NulFree(s) && i + 1 < |s| && s[i] == 92 && !(48 <= s[i + 1] <= 55) && s[i + 1] != 120 && s[i + 1] != 88
    requires Escape(s[i + 1]) == c
    ensures Decode(s, i, equalsEnd) == Push(c, Decode(s, i + 2, equalsEnd))
  {
    assert Taken(s, i, equalsEnd) == Some((c, i + 2));
    hide Taken;
  }

  /** The byte that a character after a backslash stands for. */
  function LetterCode(c: Byte): Byte {
    match c
    case 97 => 7
    case 98 => 8
    case 101 => 27
    case 102 => 12
    case 110 => 10
    case 114 => 13
    case 116 => 9
    case 118 => 11
    case 63 => 127
    case 95 => 32
    case _ => c
  }

  /** `\a`, `\b`, `\e`, `\f`, `\n`, `\r`, `\t`, `\v`, `\?` and `\_`; any other character is itself. */
  lemma LetterReads(s: seq<Byte>, i: nat, equalsEnd: bool)
    requires NulFree(s) && i + 1 < |s| && s[i] == 92 && !(48 <= s[i + 1] <= 55) && s[i + 1] != 120 && s[i + 1] != 88
    ensures Decode(s, i, equalsEnd) == Push(LetterCode(s[i + 1]), Decode(s, i + 2, equalsEnd))
  {
    Escaped(s, i, LetterCode(s[i + 1]), equalsEnd);
  }

  /** A caret and a character from `@` to `~` are its control character. */
  lemma CaretReads(s: seq<Byte>, i: nat, equalsEnd: bool)
    requires NulFree(s) && i + 1 < |s| && s[i] == 94 && 64 <= s[i + 1] <= 126
    ensures Decode(s, i, equalsEnd) ==
            Push(if s[i + 1] < 96 then s[i + 1] - 64 else s[i + 1] - 96, Decode(s, i + 2, equalsEnd))
  {
    var c: Byte := if s[i + 1] < 96 then s[i + 1] - 64 else s[i + 1] - 96;
    assert Taken(s, i, equalsEnd) == Some((c, i + 2));
    hide Taken;
  }

  /** A caret before anything else but the question mark is an error. */
  lemma CaretFails(s: seq<Byte>, i: nat, equalsEnd: bool)
    requires NulFree(s) && i < |s| && s[i] == 94 && !(63 <= At(s, i + 1) <= 126)
    ensures Decode(s, i, equalsEnd) == Decoded([], i + 1, false)
  {
  }

  /** The string ends at a colon, at the terminator, and at an equal sign where it is to. */
  predicate Finished(c: Byte, equalsEnd: bool) {
    c == 58 || c == 0 || (c == 61 && equalsEnd)
  }

  lemma FinishedReads(s: seq<Byte>, i: nat, equalsEnd: bool)
    requires NulFree(s) && i <= |s| && Finished(At(s, i), equalsEnd)
    ensures Decode(s, i, equalsEnd) == Decoded([], i, true)
  {
  }

  /** Any other character is itself. */
  lemma PlainReads(s: seq<Byte>, i: nat, equalsEnd: bool)
    requires NulFree(s) && i < |s| && !Finished(s[i], equalsEnd) && s[i] != 92 && s[i] != 94
    ensures Decode(s, i, equalsEnd) == Push(s[i], Decode(s, i + 1, equalsEnd))
  {
    assert Taken(s, i, equalsEnd) == Some((s[i], i + 1));
    hide Taken;
  }

  // ---- Whole strings ----

  /** A byte as a number, octal or hexadecimal. */
  datatype Notation = Octal | Hex(x: Byte, first: Byte) {
    predicate Valid() {
      Hex? ==> (x == 120 || x == 88) && (first == 97 || first == 65)
    }
  }

  function ByteAs(n: Notation, b: Byte): (t: seq<Byte>)
    requires n.Valid()
    ensures |t| == 4 && t[0] == 92
  {
    match n
    case Octal => OctalByte(b)
    case Hex(x, first) => HexByte(b, x, first)
  }

  /** Bytes, each in a notation of its own. */
  function NumbersText(ns: seq<Notation>, w: seq<Byte>): (t: seq<Byte>)
    requires |ns| == |w| && forall k :: 0 <= k < |ns| ==> ns[k].Valid()
    ensures w != [] ==> t != [] && t[0] == 92
  {
    if w == [] then [] else ByteAs(ns[0], w[0]) + NumbersText(ns[1..], w[1..])
  }

  lemma StandsBoth(s: seq<Byte>, i: nat, a: seq<Byte>, b: seq<Byte>)
    requires Stands(s, i, a + b)
    ensures Stands(s, i, a) && Stands(s, i + |a|, b)
  {
    forall j | 0 <= j < |a| ensures s[i + j] == a[j] {
      assert s[i + j] == (a + b)[j];
    }
    forall j | 0 <= j < |b| ensures s[i + |a| + j] == b[j] {
      assert s[i + (|a| + j)] == (a + b)[|a| + j];
    }
  }

  lemma StandsInside(s: seq<Byte>, i: nat, text: seq<Byte>)
    requires Stands(s, i, text)
    ensures i + |text| <= |s|
  {
  }

  /** Any bytes written as numbers are read back, wherever they stand. */
  lemma {:induction false} NumbersReadBack(ns: seq<Notation>, w: seq<Byte>, s: seq<Byte>, i: nat, equalsEnd: bool)
    requires |ns| == |w| && (forall k :: 0 <= k < |ns| ==> ns[k].Valid()) && NulFree(s)
    requires Stands(s, i, NumbersText(ns, w)) && Finished(At(s, i + |NumbersText(ns, w)|), equalsEnd)
    ensures Decode(s, i, equalsEnd) == Decoded(w, i + |NumbersText(ns, w)|, true)
    decreases |w|
  {
    hide Decode, ByteAs, Stands;
    StandsInside(s, i, NumbersText(ns, w));
    if w == [] {
      FinishedReads(s, i, equalsEnd);
    } else {
      var t, more := ByteAs(ns[0], w[0]), NumbersText(ns[1..], w[1..]);
      assert NumbersText(ns, w) == t + more;
      StandsBoth(s, i, t, more);
      StandsInside(s, i + 4, more);
      NotADigit(s, i + 4, more, equalsEnd);
      ByteReads(ns[0], w[0], s, i, equalsEnd);
      NumbersReadBack(ns[1..], w[1..], s, i + 4, equalsEnd);
    }
  }

  /** After a number comes a backslash, or the string ends. */
  lemma NotADigit(s: seq<Byte>, i: nat, more: seq<Byte>, equalsEnd: bool)
    requires Stands(s, i, more) && (more != [] ==> more[0] == 92)
    requires more == [] ==> Finished(At(s, i), equalsEnd)
    ensures !HexDigit(At(s, i)) && !(48 <= At(s, i) <= 55)
  {
    if more != [] {
      assert s[i + 0] == more[0];
    }
  }

  lemma ByteReads(n: Notation, b: Byte, s: seq<Byte>, i: nat, equalsEnd: bool)
    requires n.Valid() && NulFree(s) && Stands(s, i, ByteAs(n, b))
    requires !HexDigit(At(s, i + 4)) && !(48 <= At(s, i + 4) <= 55)
    ensures i + 4 <= |s| && Decode(s, i, equalsEnd) == Push(b, Decode(s, i + 4, equalsEnd))
  {
    hide Decode;
    match n
    case Octal => OctalReads(s, i, b, equalsEnd);
    case Hex(x, first) => HexReads(s, i, b, x, first, equalsEnd);
  }

  // ---- A value ----

  /** The names of the indicators in order: lc rc ec rs no fi di ln, pi so bd cd mi or ex do, su sg st ow tw
      ca mh cl. */
  lemma NamesAre()
    ensures NAMES == [
      (108, 99), (114, 99), (101, 99), (114, 115), (110, 111), (102, 105), (100, 105), (108, 110),
      (112, 105), (115, 111), (98, 100), (99, 100), (109, 105), (111, 114), (101, 120), (100, 111),
      (115, 117), (115, 103), (115, 116), (111, 119), (116, 119), (99, 97), (109, 104), (99, 108)]
  {
  }

  /** `*.c=01:di=34` sets the extension `.c` and the indicator of directories, which is number 6. */
  lemma ValueExample()
    ensures var s: seq<Byte> := [42, 46, 99, 61, 48, 49, 58, 100, 105, 61, 51, 52];
      NulFree(s) && Parse(s, 0, Colors([], map[])) == Parsed(Colors([Extension([46, 99], [48, 49])], map[6 := [51, 52]]))
  {
    var s: seq<Byte> := [42, 46, 99, 61, 48, 49, 58, 100, 105, 61, 51, 52];
    ExampleStrings(s);
    var none, one := Colors([], map[]), Colors([Extension([46, 99], [48, 49])], map[]);
    var all := Colors(one.exts, map[6 := [51, 52]]);
    assert s[0] == 42 && s[3] == 61 && s[6] == 58 && s[7] == 100 && s[8] == 105 && s[9] == 61;
    hide Decode, NAMES, IndexOf, Parse, NulFree;
    ExampleName();
    ParseExtension(s, 0, none);
    assert [Extension([46, 99], [48, 49])] + none.exts == one.exts;
    ParseOn(s, 6, one);
    ParseIndicator(s, 7, one);
    assert one.indicators[6 := [51, 52]] == all.indicators;
    ParseAll(s, all);
  }

  lemma ParseOn(s: seq<Byte>, i: nat, colors: Colors)
    requires NulFree(s) && i < |s| && s[i] == 58
    ensures Parse(s, i, colors) == Parse(s, i + 1, colors)
  {
    hide Decode, NAMES, IndexOf;
  }

  lemma ExampleStrings(s: seq<Byte>)
    requires s == [42, 46, 99, 61, 48, 49, 58, 100, 105, 61, 51, 52]
    ensures NulFree(s)
    ensures Decode(s, 1, true) == Decoded([46, 99], 3, true)
    ensures Decode(s, 4, false) == Decoded([48, 49], 6, true)
    ensures Decode(s, 10, false) == Decoded([51, 52], 12, true)
  {
    TwoPlain(s, 1, true);
    TwoPlain(s, 4, false);
    TwoPlain(s, 10, false);
  }

  lemma TwoPlain(s: seq<Byte>, i: nat, equalsEnd: bool)
    requires NulFree(s) && i + 2 <= |s| && Finished(At(s, i + 2), equalsEnd)
    requires !Finished(s[i], equalsEnd) && s[i] != 92 && s[i] != 94
    requires !Finished(s[i + 1], equalsEnd) && s[i + 1] != 92 && s[i + 1] != 94
    ensures Decode(s, i, equalsEnd) == Decoded([s[i], s[i + 1]], i + 2, true)
  {
    hide Decode;
    PlainReads(s, i, equalsEnd);
    PlainReads(s, i + 1, equalsEnd);
    FinishedReads(s, i + 2, equalsEnd);
    assert [s[i]] + ([s[i + 1]] + []) == [s[i], s[i + 1]];
  }

  lemma ExampleName()
    ensures IndexOf(NAMES, (100, 105), 0) == Some(6)
  {
    hide IndexOf;
    assert NAMES[6] == (100, 105) && NAMES[0..] == NAMES;
    var k := IndexOf(NAMES, (100, 105), 0);
    assert k.Some?;
  }
}
