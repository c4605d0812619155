/** The escape syntax for key sequences: reading it (`rl_translate_keyseq`) and printing it
    (`_rl_untranslate_macro_value`), readline/bind.c. Strings are C strings without their
    terminator; `char` is signed, and convert-meta is off. */
module KeySequences {
  import opened Chars

  const BACKSLASH: Byte := 92
  const DQUOTE: Byte := 34
  const QUESTION: Byte := 63
  const DASH: Byte := 45
  const C_UPPER: Byte := 67
  const M_UPPER: Byte := 77
  const E_LOWER: Byte := 101
  const FIELD_SEPARATOR: Byte := 28

  function OctValue(c: Byte): int {
    c as int - 48
  }

  // ---- Reading ----

  /** What one round of the reading loop does: emit `out` for `used` characters, stop at a trailing
      backslash, or step over the terminator. */
  datatype Piece = Piece(out: seq<Byte>, used: nat) | Stop | PastEnd

  /** `\C-x`: RUBOUT for `?`, else the control character. */
  function ControlOf(c: Byte): Byte {
    if c == QUESTION then RUBOUT else Ctrl(ToUpper(c))
  }

  function Letter(c: Byte): Byte {
    match c
    case 97 => 7
    case 98 => 8
    case 100 => RUBOUT
    case 101 => ESC
    case 102 => 12
    case 110 => NEWLINE
    case 114 => RETURN
    case 116 => TAB
    case 118 => 11
    case _ => c
  }

  /** An escape whose last character is `At(s, i)`, which must not be the terminator. */
  function EndingAt(s: seq<Byte>, i: nat, out: Byte): Piece {
    if i < |s| then Piece([out], i + 1) else PastEnd
  }

  function PrefixPiece(s: seq<Byte>): (p: Piece)
    requires |s| > 2 && s[0] == BACKSLASH && s[1] in {C_UPPER, M_UPPER} && s[2] == DASH
    ensures p.Piece? ==> |p.out| <= p.used && 0 < p.used <= |s|
  {
    if s[1] == C_UPPER && At(s, 3) == BACKSLASH && At(s, 4) == M_UPPER && At(s, 5) == DASH then
      Piece([ESC, Ctrl(ToUpper(At(s, 6)))], if |s| > 6 then 7 else 6)
    else if s[1] == C_UPPER then EndingAt(s, 3, ControlOf(At(s, 3)))
    else if At(s, 3) == BACKSLASH && At(s, 4) == C_UPPER && At(s, 5) == DASH then
      EndingAt(s, 6, Meta(ControlOf(At(s, 6))))
    else EndingAt(s, 3, Meta(At(s, 3)))
  }

  function OctalPiece(s: seq<Byte>): (p: Piece)
    requires |s| > 1 && IsOctal(s[1])
    ensures p.Piece? && |p.out| <= p.used && 0 < p.used <= |s|
  {
    var d := OctValue(s[1]);
    if !IsOctal(At(s, 2)) then Piece([d], 2)
    else if !IsOctal(At(s, 3)) then Piece([d * 8 + OctValue(s[2])], 3)
    else Piece([((d * 8 + OctValue(s[2])) * 8 + OctValue(s[3])) % 256], 4)
  }

  function HexPiece(s: seq<Byte>): (p: Piece)
    requires |s| > 1
    ensures p.Piece? && |p.out| <= p.used && 0 < p.used <= |s|
  {
    if !IsHex(At(s, 2)) then Piece([s[1]], 2)
    else if !IsHex(At(s, 3)) then Piece([HexValue(s[2])], 3)
    else Piece([HexValue(s[2]) * 16 + HexValue(s[3])], 4)
  }

  function NextPiece(s: seq<Byte>): (p: Piece)
    requires s != []
    ensures p.Piece? ==> |p.out| <= p.used && 0 < p.used <= |s|
  {
    if s[0] != BACKSLASH then Piece([s[0]], 1)
    else if |s| == 1 then Stop
    else if s[1] in {C_UPPER, M_UPPER} && At(s, 2) == DASH then PrefixPiece(s)
    else if IsOctal(s[1]) then OctalPiece(s)
    else if s[1] == 120 then HexPiece(s)
    else Piece([Letter(s[1])], 2)
  }

  /** The keys that a string stands for; `None` when reading it steps over the terminator. */
  function Translate(s: seq<Byte>): (r: Option<seq<Byte>>)
    ensures r.Some? ==> |r.value| <= |s|
    decreases |s|
  {
    if s == [] then Some([])
    else match NextPiece(s)
      case Stop => Some([])
      case PastEnd => None
      case Piece(out, used) =>
        var rest := Translate(s[used..]);
        if rest.Some? then Some(out + rest.value) else None
  }

  lemma TranslateStep(s: seq<Byte>, used: nat, out: seq<Byte>)
    requires s != [] && NextPiece(s) == Piece(out, used)
    ensures Translate(s) == if Translate(s[used..]).Some? then Some(out + Translate(s[used..]).value) else None
  {
  }

  // ---- Stepping over the terminator ----

  /** A prefix with nothing after it: `\C-`, `\M-` or `\M-\C-`. */
  predicate BarePrefix(s: seq<Byte>) {
    || s == [BACKSLASH, C_UPPER, DASH]
    || s == [BACKSLASH, M_UPPER, DASH]
    || s == [BACKSLASH, M_UPPER, DASH, BACKSLASH, C_UPPER, DASH]
  }

  lemma PastEndPiece(s: seq<Byte>)
    requires s != [] && NulFree(s)
    ensures NextPiece(s).PastEnd? <==> BarePrefix(s)
  {
    if |s| >= 4 {
      assert s[3] != NUL;
    }
    if |s| >= 6 && s[..6] == [BACKSLASH, M_UPPER, DASH, BACKSLASH, C_UPPER, DASH] {
      assert s == s[..6] + s[6..];
    }
  }

  /** What is left of the string where reading takes its last step. */
  function LastStep(s: seq<Byte>): (r: seq<Byte>)
    ensures |r| <= |s| && r == s[|s| - |r|..]
    decreases |s|
  {
    if s == [] then s
    else match NextPiece(s)
      case Piece(_, used) =>
        var r := LastStep(s[used..]);
        assert s[used..][|s| - used - |r|..] == s[|s| - |r|..];
        r
      case _ => s
  }

  /** The terminator is stepped over if and only if the last thing that is read is a prefix with nothing
      after it. */
  lemma {:induction false} PastEndIff(s: seq<Byte>)
    requires NulFree(s)
    ensures Translate(s) == None <==> BarePrefix(LastStep(s))
    decreases |s|
  {
    hide BarePrefix, NextPiece;
    if s == [] {
      NotBare();
    } else {
      PastEndPiece(s);
      var p := NextPiece(s);
      if p.Piece? {
        TranslateStep(s, p.used, p.out);
        PastEndIff(s[p.used..]);
      }
    }
  }

  lemma NotBare()
    ensures !BarePrefix([])
  {
  }

  /** `\C-` does it, and `\\C-`, where the backslash is quoted, does not. */
  lemma PastEndExamples()
    ensures Translate([BACKSLASH, C_UPPER, DASH]) == None
    ensures Translate([BACKSLASH, BACKSLASH, C_UPPER, DASH]) == Some([BACKSLASH, C_UPPER, DASH])
  {
    var s := [BACKSLASH, BACKSLASH, C_UPPER, DASH];
    PastEndPiece([BACKSLASH, C_UPPER, DASH]);
    OneByte(DASH);
    TranslateStep([C_UPPER, DASH], 1, [C_UPPER]);
    assert [C_UPPER, DASH][1..] == [DASH] && [C_UPPER] + [DASH] == [C_UPPER, DASH];
    TranslateStep(s, 2, [BACKSLASH]);
    assert s[2..] == [C_UPPER, DASH] && [BACKSLASH] + [C_UPPER, DASH] == [BACKSLASH, C_UPPER, DASH];
  }

  // ---- Printing ----

  predicate IsEscape(c: Byte) {
    c in {7, 8, 9, 10, 11, 12, 13}
  }

  function EscChar(c: Byte): Byte {
    match c
    case 7 => 97
    case 8 => 98
    case 12 => 102
    case 10 => 110
    case 13 => 114
    case 9 => 116
    case 11 => 118
    case _ => c
  }

  function Quoted(c: Byte): seq<Byte> {
    if c == BACKSLASH || c == DQUOTE then [BACKSLASH, c] else [c]
  }

  /** How one character of a macro is printed. */
  function Show(c: Byte, useEscapes: bool): (s: seq<Byte>)
    ensures 0 < |s| <= 5
  {
    if c == ESC then [BACKSLASH, E_LOWER]
    else if CtrlChar(c) then
      if useEscapes && IsEscape(c) then [BACKSLASH, EscChar(c)]
      else [BACKSLASH, C_UPPER, DASH] + Quoted(ToLower(UnCtrl(c)))
    else if c == RUBOUT then [BACKSLASH, C_UPPER, DASH, QUESTION]
    else Quoted(c)
  }

  function ShowAll(s: seq<Byte>, useEscapes: bool): (r: seq<Byte>)
    ensures |r| <= 5 * |s|
  {
    if s == [] then [] else Show(s[0], useEscapes) + ShowAll(s[1..], useEscapes)
  }

  /** What is printed for `c` reads back as `c` whatever follows, exactly when `c` is not
      control-backslash. */
  lemma ShowReadsBack(c: Byte, useEscapes: bool)
    requires c != NUL
    ensures (forall rest :: Translate(Show(c, useEscapes) + rest) == ReadThen(c, Translate(rest)))
            <==> c != FIELD_SEPARATOR
  {
    if c != FIELD_SEPARATOR {
      forall rest ensures Translate(Show(c, useEscapes) + rest) == ReadThen(c, Translate(rest)) {
        ShowThen(c, useEscapes, rest);
      }
    } else {
      SeparatorBeforeN(useEscapes);
      OneByte(110);
      assert Translate(Show(c, useEscapes) + [110]).value[1] != ReadThen(c, Translate([110])).value[1];
    }
  }

  /** `c` is read, and then the rest. */
  function ReadThen(c: Byte, rest: Option<seq<Byte>>): Option<seq<Byte>> {
    if rest.Some? then Some([c] + rest.value) else None
  }

  lemma ShowThen(c: Byte, useEscapes: bool, rest: seq<Byte>)
    requires c != NUL && c != FIELD_SEPARATOR
    ensures Translate(Show(c, useEscapes) + rest) == ReadThen(c, Translate(rest))
  {
    ShowPiece(c, useEscapes, rest);
    hide NextPiece, Show;
    TranslateStep(Show(c, useEscapes) + rest, |Show(c, useEscapes)|, [c]);
    assert (Show(c, useEscapes) + rest)[|Show(c, useEscapes)|..] == rest;
  }

  lemma ShowPiece(c: Byte, useEscapes: bool, rest: seq<Byte>)
    requires c != NUL && c != FIELD_SEPARATOR
    ensures NextPiece(Show(c, useEscapes) + rest) == Piece([c], |Show(c, useEscapes)|)
  {
    var s := Show(c, useEscapes) + rest;
    if c == ESC {
      assert s[1] == E_LOWER;
    } else if CtrlChar(c) && !(useEscapes && IsEscape(c)) {
      var x := ToLower(c + 64);
      assert Show(c, useEscapes) == [BACKSLASH, C_UPPER, DASH, x];
      assert s[3] == x && Ctrl(ToUpper(x)) == c;
    } else if c == RUBOUT {
      assert s[3] == QUESTION;
    }
  }

  /** Control-backslash reads back too, but the backslash that quotes it is left before the rest. */
  lemma SeparatorThen(useEscapes: bool, rest: seq<Byte>)
    ensures Translate(Show(FIELD_SEPARATOR, useEscapes) + rest) ==
            ReadThen(FIELD_SEPARATOR, Translate([BACKSLASH] + rest))
  {
    var s := Show(FIELD_SEPARATOR, useEscapes) + rest;
    assert s == [BACKSLASH, C_UPPER, DASH, BACKSLASH] + ([BACKSLASH] + rest);
    assert NextPiece(s) == Piece([FIELD_SEPARATOR], 4);
    hide NextPiece;
    TranslateStep(s, 4, [FIELD_SEPARATOR]);
    assert s[4..] == [BACKSLASH] + rest;
  }

  lemma SeparatorBeforeN(useEscapes: bool)
    ensures Translate(Show(FIELD_SEPARATOR, useEscapes) + [110]) == Some([FIELD_SEPARATOR, NEWLINE])
  {
    hide Show;
    SeparatorThen(useEscapes, [110]);
    var t: seq<Byte>, none: seq<Byte> := [BACKSLASH] + [110], [];
    TranslateStep(t, 2, [NEWLINE]);
    assert t[2..] == none && [NEWLINE] + none == [NEWLINE];
    assert [FIELD_SEPARATOR] + [NEWLINE] == [FIELD_SEPARATOR, NEWLINE];
  }

  lemma OneByte(c: Byte)
    requires c != BACKSLASH
    ensures Translate([c]) == Some([c])
  {
    var none: seq<Byte> := [];
    TranslateStep([c], 1, [c]);
    assert [c][1..] == none && [c] + none == [c];
  }

  // ---- What survives ----

  /** `c` is printed as itself. */
  predicate Plain(c: Byte) {
    !CtrlChar(c) && c != RUBOUT && c != DQUOTE && c != BACKSLASH
  }

  /** A backslash before what is printed for `s` quotes its first character, and stands for nothing more. */
  predicate ReadsAsItself(s: seq<Byte>) {
    var c := At(s, 0);
    && Plain(c) && Letter(c) == c && !IsOctal(c)
    && (c == 120 ==> !IsHex(At(s, 1)))
    && (c in {C_UPPER, M_UPPER} ==> At(s, 1) != DASH)
  }

  /** Each control-backslash leaves a stray backslash. It does no harm at the end, before a
      backslash, which takes its place and leaves another, or before a character that it quotes. */
  predicate Survives(s: seq<Byte>, stray: bool) {
    if s == [] then true
    else if !stray then Survives(s[1..], s[0] == FIELD_SEPARATOR)
    else if s[0] == BACKSLASH then Survives(s[1..], true)
    else ReadsAsItself(s) && Survives(s[1..], false)
  }

  function Stray(stray: bool): seq<Byte> {
    if stray then [BACKSLASH] else []
  }

  /** Reading undoes printing if and only if every stray backslash does no harm. */
  lemma RoundTrip(s: seq<Byte>, useEscapes: bool)
    requires NulFree(s)
    ensures Translate(ShowAll(s, useEscapes)) == Some(s) <==> Survives(s, false)
  {
    RoundTripFrom(s, useEscapes, false);
    assert Stray(false) + ShowAll(s, useEscapes) == ShowAll(s, useEscapes);
  }

  /** A macro without control-backslash survives. */
  lemma {:induction false} PlainMacroSurvives(s: seq<Byte>)
    requires FIELD_SEPARATOR !in s
    ensures Survives(s, false)
  {
    if s != [] {
      PlainMacroSurvives(s[1..]);
    }
  }

  /** Control-backslash survives alone, before `z` and before a backslash, but not before `n`. */
  lemma SeparatorExamples(useEscapes: bool)
    ensures Translate(ShowAll([28], useEscapes)) == Some([28])
    ensures Translate(ShowAll([28, 122], useEscapes)) == Some([28, 122])
    ensures Translate(ShowAll([28, 92], useEscapes)) == Some([28, 92])
    ensures Translate(ShowAll([28, 110], useEscapes)) == Some([28, NEWLINE])
  {
    SeparatorBeforeN(useEscapes);
    ShowTwo(28, 110, useEscapes);
    RoundTrip([28], useEscapes);
    SeparatorAnd(122, useEscapes);
    SeparatorAnd(92, useEscapes);
  }

  lemma ShowTwo(c: Byte, d: Byte, useEscapes: bool)
    requires Plain(d)
    ensures ShowAll([c, d], useEscapes) == Show(c, useEscapes) + [d]
  {
    var none: seq<Byte> := [];
    assert [c, d][1..] == [d] && [d][1..] == none;
    assert ShowAll([d], useEscapes) == Show(d, useEscapes) + none;
  }

  lemma SeparatorAnd(c: Byte, useEscapes: bool)
    requires c != NUL && (c == BACKSLASH || ReadsAsItself([c]))
    ensures Translate(ShowAll([FIELD_SEPARATOR, c], useEscapes)) == Some([FIELD_SEPARATOR, c])
  {
    hide Translate, Show, ShowAll, ReadsAsItself;
    var none: seq<Byte> := [];
    assert [FIELD_SEPARATOR, c][1..] == [c] && [c][1..] == none;
    assert Survives([c], true);
    RoundTrip([FIELD_SEPARATOR, c], useEscapes);
  }

  lemma {:induction false} RoundTripFrom(s: seq<Byte>, useEscapes: bool, stray: bool)
    requires NulFree(s)
    ensures Translate(Stray(stray) + ShowAll(s, useEscapes)) == Some(s) <==> Survives(s, stray)
    decreases |s|
  {
    if s == [] {
      assert Stray(stray) + ShowAll(s, useEscapes) == Stray(stray);
    } else {
      var c, more := s[0], s[1..];
      assert s == [c] + more;
      hide Translate, Show, ShowAll, ReadsAsItself, Stray;
      if !stray {
        RoundTripFrom(more, useEscapes, c == FIELD_SEPARATOR);
        NothingBefore(s, useEscapes);
        ReadThenIs(c, Translate(Stray(c == FIELD_SEPARATOR) + ShowAll(more, useEscapes)), more);
      } else if c == BACKSLASH {
        RoundTripFrom(more, useEscapes, true);
        BackslashBefore(s, useEscapes);
        ReadThenIs(c, Translate(Stray(true) + ShowAll(more, useEscapes)), more);
      } else if ReadsAsItself(s) {
        RoundTripFrom(more, useEscapes, false);
        QuotedThen(s, useEscapes);
        StrayIs(ShowAll(s, useEscapes));
        StrayIs(ShowAll(more, useEscapes));
        ReadThenIs(c, Translate(ShowAll(more, useEscapes)), more);
      } else {
        Harmed(s, useEscapes);
        StrayIs(ShowAll(s, useEscapes));
      }
    }
  }

  lemma StrayIs(s: seq<Byte>)
    ensures Stray(true) + s == [BACKSLASH] + s && Stray(false) + s == s
  {
  }

  lemma NothingBefore(s: seq<Byte>, useEscapes: bool)
    requires NulFree(s) && s != []
    ensures Translate(Stray(false) + ShowAll(s, useEscapes)) ==
            ReadThen(s[0], Translate(Stray(s[0] == FIELD_SEPARATOR) + ShowAll(s[1..], useEscapes)))
  {
    var rest := ShowAll(s[1..], useEscapes);
    assert ShowAll(s, useEscapes) == Show(s[0], useEscapes) + rest;
    hide Translate, Show, ShowAll;
    StrayIs(ShowAll(s, useEscapes));
    StrayIs(rest);
    if s[0] == FIELD_SEPARATOR {
      SeparatorThen(useEscapes, rest);
    } else {
      ShowThen(s[0], useEscapes, rest);
    }
  }

  lemma BackslashBefore(s: seq<Byte>, useEscapes: bool)
    requires s != [] && s[0] == BACKSLASH
    ensures Translate(Stray(true) + ShowAll(s, useEscapes)) ==
            ReadThen(s[0], Translate(Stray(true) + ShowAll(s[1..], useEscapes)))
  {
    var rest := ShowAll(s[1..], useEscapes);
    assert ShowAll(s, useEscapes) == [BACKSLASH, BACKSLASH] + rest;
    hide Translate, ShowAll;
    BackslashThen(rest);
    assert [BACKSLASH] + ([BACKSLASH, BACKSLASH] + rest) == [BACKSLASH, BACKSLASH] + ([BACKSLASH] + rest);
  }

  lemma ReadThenIs(c: Byte, rest: Option<seq<Byte>>, more: seq<Byte>)
    ensures ReadThen(c, rest) == Some([c] + more) <==> rest == Some(more)
  {
    if rest.Some? && [c] + rest.value == [c] + more {
      assert rest.value == ([c] + rest.value)[1..] == ([c] + more)[1..] == more;
    }
  }

  lemma BackslashThen(rest: seq<Byte>)
    ensures Translate([BACKSLASH, BACKSLASH] + ([BACKSLASH] + rest)) == ReadThen(BACKSLASH, Translate([BACKSLASH] + rest))
  {
    var s := [BACKSLASH, BACKSLASH] + ([BACKSLASH] + rest);
    TranslateStep(s, 2, [BACKSLASH]);
    assert s[2..] == [BACKSLASH] + rest;
  }

  /** What the first printed character can be. */
  lemma FirstShown(s: seq<Byte>, useEscapes: bool)
    requires NulFree(s)
    ensures var r := ShowAll(s, useEscapes);
      if s == [] then r == []
      else if Plain(s[0]) then r == [s[0]] + ShowAll(s[1..], useEscapes)
      else r != [] && r[0] == BACKSLASH
  {
  }

  lemma QuotedThen(s: seq<Byte>, useEscapes: bool)
    requires NulFree(s) && s != [] && ReadsAsItself(s)
    ensures Translate([BACKSLASH] + ShowAll(s, useEscapes)) == ReadThen(s[0], Translate(ShowAll(s[1..], useEscapes)))
  {
    var c, rest := s[0], ShowAll(s[1..], useEscapes);
    FirstShown(s, useEscapes);
    FirstShown(s[1..], useEscapes);
    hide ShowAll, Show;
    var t := [BACKSLASH] + ShowAll(s, useEscapes);
    assert t == [BACKSLASH, c] + rest;
    assert At(t, 2) == At(rest, 0);
    assert NextPiece(t) == Piece([c], 2);
    TranslateStep(t, 2, [c]);
    assert t[2..] == rest;
  }

  // ---- The ways to be harmed ----

  lemma Harmed(s: seq<Byte>, useEscapes: bool)
    requires NulFree(s) && s != [] && s[0] != BACKSLASH && !ReadsAsItself(s)
    ensures Translate([BACKSLASH] + ShowAll(s, useEscapes)) != Some(s)
  {
    hide ShowAll, Show, Translate, NextPiece;
    FirstShown(s, useEscapes);
    var t := [BACKSLASH] + ShowAll(s, useEscapes);
    if !Plain(s[0]) {
      WrongBackslash(t, s);
    } else if IsOctal(s[0]) || (s[0] == 120 && IsHex(At(s, 1))) {
      WrongNumber(s, useEscapes);
    } else if s[0] in {C_UPPER, M_UPPER} && At(s, 1) == DASH {
      FirstShown(s[1..], useEscapes);
      WrongPrefix(t, s);
    } else {
      WrongLetter(t, s);
    }
  }

  lemma WrongBackslash(t: seq<Byte>, s: seq<Byte>)
    requires |t| > 1 && t[0] == t[1] == BACKSLASH && s != [] && s[0] != BACKSLASH
    ensures Translate(t) != Some(s)
  {
    hide Translate;
    WrongFirst(t, s);
  }

  lemma WrongLetter(t: seq<Byte>, s: seq<Byte>)
    requires |t| > 1 && t[0] == BACKSLASH && s != [] && t[1] == s[0] && Letter(s[0]) != s[0]
    ensures Translate(t) != Some(s)
  {
    hide Translate;
    WrongFirst(t, s);
  }

  /** The first byte that is read is not the first one that was printed. */
  lemma WrongFirst(t: seq<Byte>, s: seq<Byte>)
    requires t != [] && s != []
    requires var p := NextPiece(t); p.PastEnd? || (p.Piece? && p.out != [] && p.out[0] != s[0])
    ensures Translate(t) != Some(s)
  {
    hide NextPiece;
    var p := NextPiece(t);
    if p.Piece? {
      TranslateStep(t, p.used, p.out);
      if Translate(t[p.used..]).Some? {
        assert (p.out + Translate(t[p.used..]).value)[0] == p.out[0];
      }
    }
  }

  lemma WrongPrefix(t: seq<Byte>, s: seq<Byte>)
    requires s != [] && s[0] in {C_UPPER, M_UPPER}
    requires |t| > 2 && t[0] == BACKSLASH && t[1] == s[0] && t[2] == DASH
    ensures Translate(t) != Some(s)
  {
    hide Translate;
    WrongFirst(t, s);
  }

  /** A number is another byte, or it has swallowed digits that are then missing. */
  lemma WrongNumber(s: seq<Byte>, useEscapes: bool)
    requires NulFree(s) && s != [] && (IsOctal(s[0]) || (s[0] == 120 && IsHex(At(s, 1))))
    ensures Translate([BACKSLASH] + ShowAll(s, useEscapes)) != Some(s)
  {
    hide ShowAll, Show, Translate;
    FirstShown(s, useEscapes);
    var t := [BACKSLASH] + ShowAll(s, useEscapes);
    var r1 := ShowAll(s[1..], useEscapes);
    assert t == [BACKSLASH, s[0]] + r1;
    FirstShown(s[1..], useEscapes);
    assert At(t, 2) == At(r1, 0) && At(t, 3) == At(r1, 1);
    var p := NextPiece(t);
    assert p.Piece? && |p.out| == 1;
    if p.out[0] != s[0] {
      WrongFirst(t, s);
    } else {
      assert p.used > 2;
      var r2 := ShowAll(s[2..], useEscapes);
      assert s[1..][1..] == s[2..] && r1 == [s[1]] + r2 && IsHex(s[1]);
      assert t[3..] == r2;
      if p.used == 3 {
        Swallowed(s, 1, t, useEscapes);
      } else {
        FirstShown(s[2..], useEscapes);
        assert At(r1, 1) == At(r2, 0) && IsHex(At(r2, 0));
        assert s[2..][1..] == s[3..] && r2 == [s[2]] + ShowAll(s[3..], useEscapes);
        assert t[4..] == ShowAll(s[3..], useEscapes);
        Swallowed(s, 2, t, useEscapes);
      }
    }
  }

  lemma Swallowed(s: seq<Byte>, k: nat, t: seq<Byte>, useEscapes: bool)
    requires NulFree(s) && 0 < k < |s| && forall j :: 1 <= j <= k ==> IsHex(s[j])
    requires k + 2 <= |t| && NextPiece(t) == Piece([s[0]], k + 2)
    requires t[k + 2..] == ShowAll(s[k + 1..], useEscapes)
    ensures Translate(t) != Some(s)
  {
    hide NextPiece, IsHex, ShowAll;
    TranslateStep(t, k + 2, [s[0]]);
    hide Translate;
    NeverAhead(s[1..k + 1], s[k + 1..], useEscapes);
    var v := Translate(t[k + 2..]);
    assert s == [s[0]] + (s[1..k + 1] + s[k + 1..]);
    ReadThenIs(s[0], v, s[1..k + 1] + s[k + 1..]);
  }

  lemma Rotated(w: seq<Byte>, r: seq<Byte>)
    requires w != [] && r != [] && w[0] == r[0]
    ensures w + r == [r[0]] + (w[1..] + [r[0]] + r[1..])
  {
  }

  /** Reading never gives the macro with digits before it: each digit would have to come round again. */
  lemma {:induction false} NeverAhead(w: seq<Byte>, r: seq<Byte>, useEscapes: bool)
    requires NulFree(r) && w != [] && forall j :: 0 <= j < |w| ==> IsHex(w[j])
    ensures Translate(ShowAll(r, useEscapes)) != Some(w + r)
    decreases |r|
  {
    if r != [] && Translate(ShowAll(r, useEscapes)) == Some(w + r) {
      var c, more := r[0], r[1..];
      var rest := ShowAll(more, useEscapes);
      assert (w + r)[0] == w[0];
      hide Translate, Show, IsHex;
      if c == FIELD_SEPARATOR {
        SeparatorThen(useEscapes, rest);
      } else {
        ShowThen(c, useEscapes, rest);
        assert c == w[0];
        var round := w[1..] + [c];
        Rotated(w, r);
        ReadThenIs(c, Translate(rest), round + more);
        NeverAhead(round, more, useEscapes);
      }
    }
  }

  // ---- The buffers ----

  /** Store `c` at `l` and step past it. */
  method Emit(buf: array<Byte>, l: nat, c: Byte) returns (l': nat)
    requires l < buf.Length
    modifies buf
    ensures l' == l + 1 && buf[..l'] == old(buf[..l]) + [c]
  {
    buf[l] := c;
    l' := l + 1;
  }

  /** Store the control prefix. */
  method EmitControl(buf: array<Byte>, l: nat) returns (l': nat)
    requires l + 3 <= buf.Length
    modifies buf
    ensures l' == l + 3 && buf[..l'] == old(buf[..l]) + [BACKSLASH, C_UPPER, DASH]
  {
    buf[l] := BACKSLASH;
    buf[l + 1] := C_UPPER;
    buf[l + 2] := DASH;
    l' := l + 3;
  }

  /** `out` has been read from `s[..i]`. */
  ghost predicate ReadUpTo(s: seq<Byte>, i: nat, out: seq<Byte>)
    requires i <= |s|
  {
    Translate(s) == if Translate(s[i..]).Some? then Some(out + Translate(s[i..]).value) else None
  }

  lemma ReadStart(s: seq<Byte>)
    ensures ReadUpTo(s, 0, [])
  {
    assert s[0..] == s;
    if Translate(s).Some? {
      assert [] + Translate(s).value == Translate(s).value;
    }
  }

  lemma ReadEnd(s: seq<Byte>, out: seq<Byte>)
    requires ReadUpTo(s, |s|, out)
    ensures Translate(s) == Some(out)
  {
    assert s[|s|..] == [] && out + [] == out;
  }

  lemma ReadOn(s: seq<Byte>, i: nat, out: seq<Byte>)
    requires i < |s| && ReadUpTo(s, i, out)
    ensures match NextPiece(s[i..])
      case Stop => Translate(s) == Some(out)
      case PastEnd => Translate(s) == None
      case Piece(more, used) => ReadUpTo(s, i + used, out + more)
  {
    var p := NextPiece(s[i..]);
    if p.Piece? {
      TranslateStep(s[i..], p.used, p.out);
      assert s[i..][p.used..] == s[i + p.used..];
      if Translate(s[i + p.used..]).Some? {
        assert out + (p.out + Translate(s[i + p.used..]).value) == out + p.out + Translate(s[i + p.used..]).value;
      }
    } else if p.Stop? {
      assert out + [] == out;
    }
  }

  /** The `\C-` and `\M-` prefixes, `i` standing on the letter. The index of the last character
      read comes back; it is past the text when the prefix was the end of it. */
  method ReadPrefix(s: seq<Byte>, i: nat, buf: array<Byte>, l: nat) returns (i': nat, l': nat)
    requires 0 < i && i + 1 < |s| && s[i - 1] == BACKSLASH && s[i] in {C_UPPER, M_UPPER} && s[i + 1] == DASH
    requires l + 2 <= buf.Length
    modifies buf
    ensures i <= i' && l < l' <= l + 2
    ensures var p := NextPiece(s[i - 1..]);
      if i' < |s| then p.Piece? && p.used == i' + 2 - i && buf[..l'] == old(buf[..l]) + p.out else p == PastEnd
  {
    i', l' := i, l;
    ghost var t := s[i - 1..];
    assert forall j: nat :: At(t, j) == At(s, i - 1 + j);
    if s[i] == C_UPPER && At(s, i + 2) == BACKSLASH && At(s, i + 3) == M_UPPER && At(s, i + 4) == DASH {
      l' := Emit(buf, l', ESC);
      i' := i' + 5;
      l' := Emit(buf, l', Ctrl(ToUpper(At(s, i'))));
      if At(s, i') == NUL && i' == |s| {
        i' := i' - 1;
      }
    } else if s[i] == M_UPPER {
      i' := i' + 1;
      if At(s, i' + 1) == BACKSLASH && At(s, i' + 2) == C_UPPER && At(s, i' + 3) == DASH {
        i' := i' + 4;
        var temp: Byte := if At(s, i') == QUESTION then RUBOUT else Ctrl(ToUpper(At(s, i')));
        l' := Emit(buf, l', Meta(temp));
      } else {
        i' := i' + 1;
        l' := Emit(buf, l', Meta(At(s, i')));
      }
    } else {
      i' := i' + 2;
      l' := Emit(buf, l', if At(s, i') == QUESTION then RUBOUT else Ctrl(ToUpper(At(s, i'))));
    }
  }

  /** Up to three octal digits, the first at `i`. */
  method ReadOctal(s: seq<Byte>, i: nat) returns (c: Byte, i': nat)
    requires 0 < i < |s| && IsOctal(s[i])
    ensures i <= i' < |s| && OctalPiece(s[i - 1..]) == Piece([c], i' + 2 - i)
  {
    ghost var t := s[i - 1..];
    assert t[1] == s[i] && At(t, 2) == At(s, i + 1) && At(t, 3) == At(s, i + 2);
    i' := i + 1;
    var temp, v := 2, OctValue(s[i]);
    while IsOctal(At(s, i')) && temp > 0
      invariant 0 <= temp <= 2 && i' == i + 3 - temp <= |s|
      invariant temp < 2 ==> IsOctal(s[i + 1])
      invariant temp < 1 ==> IsOctal(s[i + 2])
      invariant temp == 2 ==> v == OctValue(s[i])
      invariant temp == 1 ==> v == OctValue(s[i]) * 8 + OctValue(s[i + 1])
      invariant temp == 0 ==> v == (OctValue(s[i]) * 8 + OctValue(s[i + 1])) * 8 + OctValue(s[i + 2])
    {
      temp := temp - 1;
      v := v * 8 + OctValue(s[i']);
      i' := i' + 1;
    }
    i' := i' - 1;
    c := v % 256;
  }

  /** Up to two hexadecimal digits after the `x` at `i`, or the `x` itself. */
  method ReadHex(s: seq<Byte>, i: nat) returns (c: Byte, i': nat)
    requires 0 < i < |s| && s[i] == 120
    ensures i <= i' < |s| && HexPiece(s[i - 1..]) == Piece([c], i' + 2 - i)
  {
    ghost var t := s[i - 1..];
    assert t[1] == s[i] && At(t, 2) == At(s, i + 1) && At(t, 3) == At(s, i + 2);
    i' := i + 1;
    var temp, v: int := 2, 0;
    while IsHex(At(s, i')) && temp > 0
      invariant 0 <= temp <= 2 && i' == i + 3 - temp <= |s|
      invariant temp < 2 ==> IsHex(s[i + 1])
      invariant temp < 1 ==> IsHex(s[i + 2])
      invariant temp == 2 ==> v == 0
      invariant temp == 1 ==> v == HexValue(s[i + 1])
      invariant temp == 0 ==> v == HexValue(s[i + 1]) * 16 + HexValue(s[i + 2])
    {
      temp := temp - 1;
      v := v * 16 + HexValue(s[i']);
      i' := i' + 1;
    }
    if temp == 2 {
      v := 120;
    }
    i' := i' - 1;
    c := v % 256;
  }

  /** The other escapes, `i` standing on the character after the backslash. */
  method ReadEscape(s: seq<Byte>, i: nat) returns (c: Byte, i': nat)
    requires 0 < i < |s| && s[i - 1] == BACKSLASH
    requires !(s[i] in {C_UPPER, M_UPPER} && At(s, i + 1) == DASH)
    ensures i <= i' < |s| && NextPiece(s[i - 1..]) == Piece([c], i' + 2 - i)
  {
    assert At(s[i - 1..], 2) == At(s, i + 1);
    if IsOctal(s[i]) {
      c, i' := ReadOctal(s, i);
    } else if s[i] == 120 {
      c, i' := ReadHex(s, i);
    } else {
      c, i' := Letter(s[i]), i;
    }
  }

  /** One round of the loop, which leaves `i` on the last character read. A trailing backslash
      ends the loop with `i` at the terminator. */
  method ReadOne(s: seq<Byte>, i: nat, buf: array<Byte>, l: nat) returns (i': nat, l': nat, stop: bool)
    requires i < |s| && l <= i && buf.Length == 2 * |s| + 1
    requires ReadUpTo(s, i, buf[..l])
    modifies buf
    ensures i <= i'
    ensures stop ==> l' <= |s| && Translate(s) == Some(buf[..l'])
    ensures !stop && i' < |s| ==> l' <= i' + 1 && ReadUpTo(s, i' + 1, buf[..l'])
    ensures !stop && |s| <= i' ==> Translate(s) == None
  {
    hide Translate, ReadUpTo;
    ReadOn(s, i, buf[..l]);
    i', l', stop := i, l, false;
    if s[i'] == BACKSLASH {
      i' := i' + 1;
      if i' == |s| {
        stop := true;
      } else if s[i'] in {C_UPPER, M_UPPER} && At(s, i' + 1) == DASH {
        i', l' := ReadPrefix(s, i', buf, l');
      } else {
        var c;
        c, i' := ReadEscape(s, i');
        l' := Emit(buf, l', c);
      }
    } else {
      l' := Emit(buf, l', s[i']);
    }
  }

  /** `rl_translate_keyseq` into a buffer of the size its callers allocate. The length comes back,
      or nothing when reading steps over the terminator. */
  method TranslateKeyseq(s: seq<Byte>, buf: array<Byte>) returns (len: Option<nat>)
    requires NulFree(s) && buf.Length == 2 * |s| + 1
    modifies buf
    ensures len.None? <==> BarePrefix(LastStep(s))
    ensures len.Some? ==> len.value <= |s| && Translate(s) == Some(buf[..len.value]) && buf[len.value] == NUL
  {
    hide Translate, ReadUpTo, BarePrefix, LastStep;
    PastEndIff(s);
    var i: nat, l: nat, stop := 0, 0, false;
    ReadStart(s);
    assert buf[..0] == [];
    while i < |s| && !stop
      invariant !stop ==> l <= i <= |s| && ReadUpTo(s, i, buf[..l])
      invariant stop ==> l <= |s| && Translate(s) == Some(buf[..l])
      decreases |s| - i, !stop
    {
      i, l, stop := ReadOne(s, i, buf, l);
      if !stop {
        if i >= |s| {
          return None;
        }
        i := i + 1;
      }
    }
    if !stop {
      ReadEnd(s, buf[..l]);
    }
    ghost var out := buf[..l];
    buf[l] := NUL;
    assert buf[..l] == out;
    len := Some(l);
  }

  /** Store `c`, with a backslash before it where one is needed. */
  method EmitQuoted(buf: array<Byte>, l: nat, c: Byte) returns (l': nat)
    requires l + 2 <= buf.Length
    modifies buf
    ensures l' == l + |Quoted(c)| && buf[..l'] == old(buf[..l]) + Quoted(c)
  {
    l' := l;
    if c == BACKSLASH || c == DQUOTE {
      l' := Emit(buf, l', BACKSLASH);
    }
    l' := Emit(buf, l', c);
  }

  /** Print one character at `r`. */
  method PutChar(ch: Byte, useEscapes: bool, buf: array<Byte>, r: nat) returns (r': nat)
    requires r + 5 <= buf.Length
    modifies buf
    ensures r <= r' <= r + 5 && buf[..r'] == old(buf[..r]) + Show(ch, useEscapes)
  {
    var c := ch;
    r' := r;
    ghost var before := buf[..r];
    ghost var head: seq<Byte> := [];
    assert before + head == before;
    if c == ESC {
      r' := Emit(buf, r', BACKSLASH);
      head := [BACKSLASH];
      c := E_LOWER;
    } else if CtrlChar(c) {
      if useEscapes && IsEscape(c) {
        r' := Emit(buf, r', BACKSLASH);
        head := [BACKSLASH];
        c := EscChar(c);
      } else {
        r' := EmitControl(buf, r');
        head := [BACKSLASH, C_UPPER, DASH];
        c := ToLower(UnCtrl(c));
      }
    } else if c == RUBOUT {
      r' := EmitControl(buf, r');
      head := [BACKSLASH, C_UPPER, DASH];
      c := QUESTION;
    }
    assert Show(ch, useEscapes) == head + Quoted(c);
    hide Show;
    Associates(before, head, Quoted(c));
    r' := EmitQuoted(buf, r', c);
  }

  lemma ShowMore(s: seq<Byte>, k: nat, useEscapes: bool, out: seq<Byte>)
    requires k < |s|
    ensures out + ShowAll(s[k..], useEscapes) == out + Show(s[k], useEscapes) + ShowAll(s[k + 1..], useEscapes)
  {
    assert s[k..][1..] == s[k + 1..];
  }

  /** `_rl_untranslate_macro_value` into the buffer that it allocates. */
  method UntranslateMacroValue(s: seq<Byte>, useEscapes: bool) returns (buf: array<Byte>, len: nat)
    requires NulFree(s)
    ensures fresh(buf) && buf.Length == 7 * |s| + 1
    ensures len < buf.Length && buf[..len] == ShowAll(s, useEscapes) && buf[len] == NUL
  {
    buf := new Byte[7 * |s| + 1](_ => 0);
    var r, k := 0, 0;
    while k < |s|
      invariant k <= |s| && r <= 5 * k
      invariant ShowAll(s, useEscapes) == buf[..r] + ShowAll(s[k..], useEscapes)
    {
      ShowMore(s, k, useEscapes, buf[..r]);
      r := PutChar(s[k], useEscapes, buf, r);
      k := k + 1;
    }
    ghost var out := buf[..r];
    assert s[k..] == [] && out + [] == out;
    buf[r] := NUL;
    assert buf[..r] == out;
    len := r;
  }
}
