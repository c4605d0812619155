/** What each notation for a key stands for (`rl_translate_keyseq`, readline/bind.c). The characters are given
    by their codes: 92 is the backslash, 45 the dash, 67 and 77 are `C` and `M`. */
module KeyNotation {
  import opened Chars
  import opened KeySequences

  /** One notation before `rest`. */
  lemma Reads(text: seq<Byte>, c: Byte, rest: seq<Byte>)
    requires text != [] && NextPiece(text + rest) == Piece([c], |text|)
    ensures Translate(text + rest) == ReadThen(c, Translate(rest))
  {
    hide NextPiece;
    TranslateStep(text + rest, |text|, [c]);
    assert (text + rest)[|text|..] == rest;
  }

  /** `rest` starts with `C-`, or with `M-`. */
  predicate Prefixed(rest: seq<Byte>, letter: Byte) {
    |rest| > 1 && rest[0] == letter && rest[1] == 45
  }

  // ---- Prefixes ----

  /** `\M-c` is the byte 128 more than `c`, unless it is the start of `\M-\C-`. */
  lemma MetaReads(b: Byte, rest: seq<Byte>)
    requires b >= 128 && !(b == 220 && Prefixed(rest, 67))
    ensures Translate([92, 77, 45, b - 128] + rest) == ReadThen(b, Translate(rest))
  {
    var t := [92, 77, 45, b - 128];
    assert At(t + rest, 4) == At(rest, 0) && At(t + rest, 5) == At(rest, 1);
    Reads(t, b, rest);
  }

  /** The control character of a letter in either case, of a character beside the letters, of the question
      mark, or of any other. */
  function Controlled(c: Byte): (r: Byte)
    ensures r < 128
  {
    if c == 63 then 127
    else if 97 <= c <= 122 then c - 96
    else if 64 <= c <= 95 then c - 64
    else c % 32
  }

  /** `\C-c`, unless it is the start of `\C-\M-`. */
  lemma ControlReads(c: Byte, rest: seq<Byte>)
    requires !(c == 92 && Prefixed(rest, 77))
    ensures Translate([92, 67, 45, c] + rest) == ReadThen(Controlled(c), Translate(rest))
  {
    var t := [92, 67, 45, c];
    assert At(t + rest, 4) == At(rest, 0) && At(t + rest, 5) == At(rest, 1);
    Reads(t, Controlled(c), rest);
  }

  /** `\M-\C-c` is 128 more than `\C-c`. */
  lemma MetaControlReads(c: Byte, rest: seq<Byte>)
    ensures Translate([92, 77, 45, 92, 67, 45, c] + rest) == ReadThen(Controlled(c) + 128, Translate(rest))
  {
    Reads([92, 77, 45, 92, 67, 45, c], Controlled(c) + 128, rest);
  }

  lemma BothPrefixes(c: Byte, rest: seq<Byte>)
    requires c != 63
    ensures NextPiece([92, 67, 45, 92, 77, 45, c] + rest) == Piece([27, Controlled(c)], 7)
  {
  }

  /** `\C-\M-c` is ESC and then `\C-c`. */
  lemma ControlMetaReads(c: Byte, rest: seq<Byte>)
    requires c != 63
    ensures Translate([92, 67, 45, 92, 77, 45, c] + rest) ==
            ReadThen(27, ReadThen(Controlled(c), Translate(rest)))
  {
    var t := [92, 67, 45, 92, 77, 45, c];
    BothPrefixes(c, rest);
    hide NextPiece;
    TranslateStep(t + rest, 7, [27, Controlled(c)]);
    assert (t + rest)[7..] == rest;
    if Translate(rest).Some? {
      var v := Translate(rest).value;
      assert [27] + ([Controlled(c)] + v) == [27, Controlled(c)] + v;
    }
  }

  // ---- Numbers ----

  /** Three octal digits are the byte that they spell. */
  lemma OctalReads(b: Byte, rest: seq<Byte>)
    ensures Translate([92, b / 64 + 48, b / 8 % 8 + 48, b % 8 + 48] + rest) == ReadThen(b, Translate(rest))
  {
    var t := [92, b / 64 + 48, b / 8 % 8 + 48, b % 8 + 48];
    assert ((b / 64) * 8 + b / 8 % 8) * 8 + b % 8 == b;
    Reads(t, b, rest);
  }

  /** One or two of them do as well where no digit follows. */
  lemma ShortOctalReads(b: Byte, rest: seq<Byte>)
    requires b < 64 && !(48 <= At(rest, 0) <= 55)
    ensures Translate([92, b / 8 + 48, b % 8 + 48] + rest) == ReadThen(b, Translate(rest))
    ensures b < 8 ==> Translate([92, b + 48] + rest) == ReadThen(b, Translate(rest))
  {
    var t := [92, b / 8 + 48, b % 8 + 48];
    assert At(t + rest, 3) == At(rest, 0);
    Reads(t, b, rest);
    if b < 8 {
      assert At([92, b + 48] + rest, 2) == At(rest, 0);
      Reads([92, b + 48], b, rest);
    }
  }

  /** `\x` and two hexadecimal digits, in either case, are the byte that they spell. */
  lemma HexReads(b: Byte, high: Byte, low: Byte, rest: seq<Byte>)
    requires (high == 97 || high == 65) && (low == 97 || low == 65)
    ensures Translate([92, 120, HexChar(b / 16, high), HexChar(b % 16, low)] + rest) == ReadThen(b, Translate(rest))
  {
    var t := [92, 120, HexChar(b / 16, high), HexChar(b % 16, low)];
    assert HexValue(t[2]) == b / 16 && HexValue(t[3]) == b % 16;
    assert (t + rest)[2] == t[2] && (t + rest)[3] == t[3];
    Reads(t, b, rest);
  }

  /** One digit does where none follows; where none follows the `x`, it is an `x`. */
  lemma ShortHexReads(d: nat, first: Byte, rest: seq<Byte>)
    requires d < 16 && (first == 97 || first == 65)
    requires !(48 <= At(rest, 0) <= 57) && !(97 <= At(rest, 0) <= 102) && !(65 <= At(rest, 0) <= 70)
    ensures Translate([92, 120, HexChar(d, first)] + rest) == ReadThen(d, Translate(rest))
    ensures Translate([92, 120] + rest) == ReadThen(120, Translate(rest))
  {
    var t := [92, 120, HexChar(d, first)];
    assert HexValue(t[2]) == d && (t + rest)[2] == t[2];
    assert At(t + rest, 3) == At(rest, 0) && At([92, 120] + rest, 2) == At(rest, 0);
    Reads(t, d, rest);
    Reads([92, 120], 120, rest);
  }

  // ---- Letters and other characters ----

  /** The letters that stand for something else: `\a`, `\b`, `\d`, `\e`, `\f`, `\n`, `\r`, `\t`, `\v`. */
  lemma LetterReads(rest: seq<Byte>)
    ensures Translate([92, 97] + rest) == ReadThen(7, Translate(rest))
    ensures Translate([92, 98] + rest) == ReadThen(8, Translate(rest))
    ensures Translate([92, 100] + rest) == ReadThen(127, Translate(rest))
    ensures Translate([92, 101] + rest) == ReadThen(27, Translate(rest))
    ensures Translate([92, 102] + rest) == ReadThen(12, Translate(rest))
    ensures Translate([92, 110] + rest) == ReadThen(10, Translate(rest))
    ensures Translate([92, 114] + rest) == ReadThen(13, Translate(rest))
    ensures Translate([92, 116] + rest) == ReadThen(9, Translate(rest))
    ensures Translate([92, 118] + rest) == ReadThen(11, Translate(rest))
  {
    LetterRead(97, 7, rest);
    LetterRead(98, 8, rest);
    LetterRead(100, 127, rest);
    LetterRead(101, 27, rest);
    LetterRead(102, 12, rest);
    LetterRead(110, 10, rest);
    LetterRead(114, 13, rest);
    LetterRead(116, 9, rest);
    LetterRead(118, 11, rest);
  }

  lemma LetterRead(letter: Byte, c: Byte, rest: seq<Byte>)
    requires 97 <= letter && letter != 120 && Letter(letter) == c
    ensures Translate([92, letter] + rest) == ReadThen(c, Translate(rest))
  {
    Reads([92, letter], c, rest);
  }

  /** Any other character is itself after a backslash, and every character but the backslash without one. */
  lemma OtherReads(c: Byte, rest: seq<Byte>)
    ensures !(48 <= c <= 55) && c !in {97, 98, 100, 101, 102, 110, 114, 116, 118, 120}
            && !((c == 67 || c == 77) && At(rest, 0) == 45) ==>
            Translate([92, c] + rest) == ReadThen(c, Translate(rest))
    ensures c != 92 ==> Translate([c] + rest) == ReadThen(c, Translate(rest))
  {
    assert At([92, c] + rest, 2) == At(rest, 0);
    if !(48 <= c <= 55) && c !in {97, 98, 100, 101, 102, 110, 114, 116, 118, 120}
       && !((c == 67 || c == 77) && At(rest, 0) == 45)
    {
      Reads([92, c], c, rest);
    }
    if c != 92 {
      Reads([c], c, rest);
    }
  }

  /** A backslash at the end stands for nothing. */
  lemma LastBackslash()
    ensures Translate([92]) == Some([])
  {
  }

  // ---- What is printed ----

  /** The letters that are printed after a backslash for the codes from 7 on: `abtnvfr`. */
  function LetterOf(c: Byte): Byte
    requires 7 <= c <= 13
  {
    [97, 98, 116, 110, 118, 102, 114][c - 7]
  }

  /** ESC is `\e`; with escapes, 7 to 13 are a backslash and a letter; a control character is `\C-` and a
      letter in lower case or the character 64 more, quoted if it is a backslash; DEL is `\C-?`; a quote and a
      backslash have a backslash before them; anything else is itself. */
  lemma ShownAs(c: Byte, useEscapes: bool)
    ensures Show(c, useEscapes) ==
      if c == 27 then [92, 101]
      else if useEscapes && 7 <= c <= 13 then [92, LetterOf(c)]
      else if c == 28 then [92, 67, 45, 92, 92]
      else if 1 <= c <= 26 then [92, 67, 45, c + 96]
      else if c < 32 then [92, 67, 45, c + 64]
      else if c == 127 then [92, 67, 45, 63]
      else if c == 34 || c == 92 then [92, c]
      else [c]
  {
  }
}
