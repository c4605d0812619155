/** The value of LS_COLORS (readline/parse-colors.c). */
module ColorSpec {
  import opened Chars

  const COLON: Byte := ':' as int
  const EQUALS: Byte := '=' as int
  const STAR: Byte := '*' as int
  const BACKSLASH: Byte := '\\' as int
  const CARET: Byte := '^' as int
  const QUESTION: Byte := '?' as int
  const AT_SIGN: Byte := '@' as int

  // ---- Numbers ----

  predicate IsDigitOf(hex: bool, c: Byte) {
    if hex then IsHex(c) else IsOctal(c)
  }

  function DigitsEnd(s: seq<Byte>, hex: bool, i: nat): (e: nat)
    requires i <= |s|
    ensures i <= e <= |s| && (e < |s| ==> !IsDigitOf(hex, s[e])) && forall j :: i <= j < e ==> IsDigitOf(hex, s[j])
    decreases |s| - i
  {
    if i < |s| && IsDigitOf(hex, s[i]) then DigitsEnd(s, hex, i + 1) else i
  }

  function Shift(hex: bool, v: int, c: Byte): int
    requires IsDigitOf(hex, c)
  {
    if hex then v * 16 + HexValue(c) else v * 8 + (c - '0' as int)
  }

  /** The number that digits spell, however many there are. */
  function Value(s: seq<Byte>, hex: bool, i: nat, e: nat): nat
    requires i <= e <= |s| && forall j :: i <= j < e ==> IsDigitOf(hex, s[j])
    decreases e - i
  {
    if i == e then 0 else Shift(hex, Value(s, hex, i, e - 1), s[e - 1])
  }

  /** A character that is escaped by a backslash and is not a number. */
  function Escape(c: Byte): Byte {
    if c == 'a' as int then 7
    else if c == 'b' as int then 8
    else if c == 'e' as int then 27
    else if c == 'f' as int then 12
    else if c == 'n' as int then 10
    else if c == 'r' as int then 13
    else if c == 't' as int then 9
    else if c == 'v' as int then 11
    else if c == QUESTION then 127
    else if c == '_' as int then 32
    else c
  }

  // ---- Strings ----

  /** What a string stands for, where it ends, and whether it is well formed. */
  datatype Decoded = Decoded(out: seq<Byte>, next: nat, ok: bool)

  function Push(c: Byte, d: Decoded): Decoded {
    d.(out := [c] + d.out)
  }

  predicate Ends(c: Byte, equalsEnd: bool) {
    c == COLON || c == NUL || (c == EQUALS && equalsEnd)
  }

  /** The byte that the character or escape at `i` stands for, and where the next one is taken from;
      nothing where the string ends or is not well formed. */
  function Taken(s: seq<Byte>, i: nat, equalsEnd: bool): (t: Option<(Byte, nat)>)
    requires NulFree(s) && i <= |s|
    ensures t.Some? ==> i < t.value.1 <= |s|
  {
    var c := At(s, i);
    if Ends(c, equalsEnd) then None
    else if c == BACKSLASH then
      if i + 1 == |s| then None
      else if IsOctal(s[i + 1]) then
        var e := DigitsEnd(s, false, i + 1);
        Some((Value(s, false, i + 1, e) % 256, e))
      else if s[i + 1] == 'x' as int || s[i + 1] == 'X' as int then
        var e := DigitsEnd(s, true, i + 2);
        Some((Value(s, true, i + 2, e) % 256, e))
      else Some((Escape(s[i + 1]), i + 2))
    else if c == CARET then
      if AT_SIGN <= At(s, i + 1) <= '~' as int then Some((s[i + 1] % 32, i + 2))
      else if At(s, i + 1) == QUESTION then Some((127, i + 1))
      else None
    else Some((c, i + 1))
  }

  /** Nothing more is taken at `i`. A backslash before the terminator is an error that steps over it. */
  function Stopped(s: seq<Byte>, i: nat, equalsEnd: bool): Decoded
    requires i <= |s|
  {
    if Ends(At(s, i), equalsEnd) then Decoded([], i, true)
    else Decoded([], if At(s, i) == BACKSLASH then i + 2 else i + 1, false)
  }

  /** The string at `i`, escape by escape. */
  function Decode(s: seq<Byte>, i: nat, equalsEnd: bool): (d: Decoded)
    requires NulFree(s) && i <= |s|
    ensures i <= d.next && |d.out| <= d.next - i && i + |d.out| <= |s|
    ensures d.next <= |s| || (d.next == |s| + 1 && !d.ok)
    decreases |s| - i
  {
    match Taken(s, i, equalsEnd)
    case None => Stopped(s, i, equalsEnd)
    case Some((c, next)) => Push(c, Decode(s, next, equalsEnd))
  }

  // ---- The caret and the question mark ----

  predicate DeleteAt(s: seq<Byte>, i: nat) {
    At(s, i) == CARET && At(s, i + 1) == QUESTION
  }

  /** The string at `i` as it is meant, the question mark of `^?` belonging to its escape. */
  function Meant(s: seq<Byte>, i: nat, equalsEnd: bool): (d: Decoded)
    requires NulFree(s) && i <= |s|
    decreases |s| - i
  {
    match Taken(s, i, equalsEnd)
    case None => Stopped(s, i, equalsEnd)
    case Some((c, next)) => Push(c, Meant(s, if DeleteAt(s, i) then i + 2 else next, equalsEnd))
  }

  /** `^?` is met on the way from `i`. */
  predicate MeetsDelete(s: seq<Byte>, i: nat, equalsEnd: bool)
    requires NulFree(s) && i <= |s|
    decreases |s| - i
  {
    match Taken(s, i, equalsEnd)
    case None => false
    case Some((_, next)) => DeleteAt(s, i) || MeetsDelete(s, next, equalsEnd)
  }

  /** The question mark of `^?` is taken again. */
  lemma TakenTwice(s: seq<Byte>, i: nat, equalsEnd: bool)
    requires NulFree(s) && i <= |s| && DeleteAt(s, i)
    ensures i + 2 <= |s|
    ensures Decode(s, i, equalsEnd) == Push(127, Push(QUESTION, Decode(s, i + 2, equalsEnd)))
    ensures Meant(s, i, equalsEnd) == Push(127, Meant(s, i + 2, equalsEnd))
  {
    assert Taken(s, i, equalsEnd) == Some((127, i + 1));
    assert Taken(s, i + 1, equalsEnd) == Some((QUESTION, i + 2));
    hide Taken;
  }

  lemma {:induction false} NoShorter(s: seq<Byte>, i: nat, equalsEnd: bool)
    requires NulFree(s) && i <= |s|
    ensures |Meant(s, i, equalsEnd).out| <= |Decode(s, i, equalsEnd).out|
    decreases |s| - i
  {
    hide Taken;
    if DeleteAt(s, i) {
      TakenTwice(s, i, equalsEnd);
      NoShorter(s, i + 2, equalsEnd);
    } else if Taken(s, i, equalsEnd).Some? {
      NoShorter(s, Taken(s, i, equalsEnd).value.1, equalsEnd);
    }
  }

  /** A string is decoded as it is meant if and only if `^?` is not met on the way. */
  lemma {:induction false} DecodesAsMeant(s: seq<Byte>, i: nat, equalsEnd: bool)
    requires NulFree(s) && i <= |s|
    ensures Decode(s, i, equalsEnd) == Meant(s, i, equalsEnd) <==> !MeetsDelete(s, i, equalsEnd)
    decreases |s| - i
  {
    if DeleteAt(s, i) {
      assert Taken(s, i, equalsEnd).Some?;
      hide Taken;
      TakenTwice(s, i, equalsEnd);
      NoShorter(s, i + 2, equalsEnd);
    } else {
      hide Taken;
      var t := Taken(s, i, equalsEnd);
      if t.Some? {
        DecodesAsMeant(s, t.value.1, equalsEnd);
        PushIs(t.value.0, Decode(s, t.value.1, equalsEnd), Meant(s, t.value.1, equalsEnd));
      }
    }
  }

  lemma PushIs(c: Byte, d: Decoded, e: Decoded)
    ensures Push(c, d) == Push(c, e) <==> d == e
  {
    if Push(c, d) == Push(c, e) {
      assert d.out == Push(c, d).out[1..] == Push(c, e).out[1..] == e.out;
    }
  }

  /** `^?` alone is DEL and a question mark. */
  lemma DeleteExample(equalsEnd: bool)
    ensures Decode([CARET, QUESTION], 0, equalsEnd) == Decoded([127, QUESTION], 2, true)
    ensures Meant([CARET, QUESTION], 0, equalsEnd) == Decoded([127], 2, true)
  {
    var s := [CARET, QUESTION];
    assert Taken(s, 2, equalsEnd) == None;
    TakenTwice(s, 0, equalsEnd);
  }

  /** One way to write any byte at all. */
  function EncodeByte(c: Byte): seq<Byte> {
    if c == NUL then [CARET, AT_SIGN]
    else if c == COLON || c == EQUALS || c == BACKSLASH || c == CARET then [BACKSLASH, c]
    else [c]
  }

  function Encode(w: seq<Byte>): seq<Byte> {
    if w == [] then [] else EncodeByte(w[0]) + Encode(w[1..])
  }

  lemma PlainByteReadsBack(s: seq<Byte>, i: nat, equalsEnd: bool)
    requires NulFree(s) && i < |s| && EncodeByte(s[i]) == [s[i]]
    ensures Decode(s, i, equalsEnd) == Push(s[i], Decode(s, i + 1, equalsEnd))
  {
  }

  lemma EscapedByteReadsBack(s: seq<Byte>, i: nat, equalsEnd: bool)
    requires NulFree(s) && i + 1 < |s| && s[i] == BACKSLASH && EncodeByte(s[i + 1]) == [BACKSLASH, s[i + 1]]
    ensures Decode(s, i, equalsEnd) == Push(s[i + 1], Decode(s, i + 2, equalsEnd))
  {
  }

  lemma NulReadsBack(s: seq<Byte>, i: nat, equalsEnd: bool)
    requires NulFree(s) && i + 1 < |s| && s[i] == CARET && s[i + 1] == AT_SIGN
    ensures Decode(s, i, equalsEnd) == Push(NUL, Decode(s, i + 2, equalsEnd))
  {
  }

  lemma EncodedByteReadsBack(c: Byte, s: seq<Byte>, i: nat, equalsEnd: bool)
    requires NulFree(s) && i <= |s| && EncodeByte(c) <= s[i..]
    ensures Decode(s, i, equalsEnd) == Push(c, Decode(s, i + |EncodeByte(c)|, equalsEnd))
  {
    hide Decode;
    var rest, code := s[i..], EncodeByte(c);
    assert s[i] == rest[0] == code[0];
    if |code| == 1 {
      PlainByteReadsBack(s, i, equalsEnd);
    } else {
      assert s[i + 1] == rest[1] == code[1];
      if c == NUL {
        NulReadsBack(s, i, equalsEnd);
      } else {
        EscapedByteReadsBack(s, i, equalsEnd);
      }
    }
  }

  /** What is written in that way is read back, wherever it stands. */
  lemma {:induction false} EncodedReadsBack(w: seq<Byte>, s: seq<Byte>, i: nat, equalsEnd: bool)
    requires NulFree(s) && i <= |s| && Encode(w) <= s[i..]
    requires Ends(At(s, i + |Encode(w)|), equalsEnd)
    ensures Decode(s, i, equalsEnd) == Decoded(w, i + |Encode(w)|, true)
    decreases |w|
  {
    hide Decode, Ends, EncodeByte, Encode;
    if w == [] {
      EncodedNothing(s, i, equalsEnd);
    } else {
      EncodeCons(w);
      var code, more := EncodeByte(w[0]), Encode(w[1..]);
      PrefixOfSum(code, more, s, i);
      EncodedByteReadsBack(w[0], s, i, equalsEnd);
      EncodedReadsBack(w[1..], s, i + |code|, equalsEnd);
    }
  }

  lemma EncodedNothing(s: seq<Byte>, i: nat, equalsEnd: bool)
    requires NulFree(s) && i <= |s|
    ensures Encode([]) == [] && (Ends(At(s, i), equalsEnd) ==> Decode(s, i, equalsEnd) == Decoded([], i, true))
  {
  }

  lemma EncodeCons(w: seq<Byte>)
    requires w != []
    ensures Encode(w) == EncodeByte(w[0]) + Encode(w[1..])
  {
  }

  lemma PrefixOfSum(a: seq<Byte>, b: seq<Byte>, s: seq<Byte>, i: nat)
    requires i <= |s| && a + b <= s[i..]
    ensures a <= s[i..] && i + |a| <= |s| && b <= s[i + |a|..]
  {
    var rest := s[i..];
    assert a == rest[..|a|];
    assert b == rest[|a|..|a| + |b|];
    assert rest[|a|..] == s[i + |a|..];
  }

  // ---- The whole value ----

  const NAMES: seq<(Byte, Byte)> := [
    ('l' as int, 'c' as int), ('r' as int, 'c' as int), ('e' as int, 'c' as int), ('r' as int, 's' as int),
    ('n' as int, 'o' as int), ('f' as int, 'i' as int), ('d' as int, 'i' as int), ('l' as int, 'n' as int),
    ('p' as int, 'i' as int), ('s' as int, 'o' as int), ('b' as int, 'd' as int), ('c' as int, 'd' as int),
    ('m' as int, 'i' as int), ('o' as int, 'r' as int), ('e' as int, 'x' as int), ('d' as int, 'o' as int),
    ('s' as int, 'u' as int), ('s' as int, 'g' as int), ('s' as int, 't' as int), ('o' as int, 'w' as int),
    ('t' as int, 'w' as int), ('c' as int, 'a' as int), ('m' as int, 'h' as int), ('c' as int, 'l' as int)]

  function IndexOf(names: seq<(Byte, Byte)>, name: (Byte, Byte), k: nat): (r: Option<nat>)
    requires k <= |names|
    ensures r.Some? ==> k <= r.value < |names| && names[r.value] == name && name !in names[k..r.value]
    ensures r.None? ==> name !in names[k..]
    decreases |names| - k
  {
    if k == |names| then None
    else if names[k] == name then Some(k)
    else
      var r := IndexOf(names, name, k + 1);
      assert r.Some? ==> names[k..r.value] == [names[k]] + names[k + 1..r.value];
      assert names[k..] == [names[k]] + names[k + 1..];
      r
  }

  datatype Extension = Extension(ext: seq<Byte>, sequence: seq<Byte>)

  /** The extensions, the last one first, and the indicators that are not the built-in ones. */
  datatype Colors = Colors(exts: seq<Extension>, indicators: map<nat, seq<Byte>>)

  function SkipToColon(s: seq<Byte>, i: nat): (j: nat)
    requires i <= |s|
    ensures i <= j <= |s| && (j == |s| || s[j] == COLON) && forall k :: i <= k < j ==> s[k] != COLON
    decreases |s| - i
  {
    if i == |s| || s[i] == COLON then i else SkipToColon(s, i + 1)
  }

  /** The tables that a value stands for, or that it cannot be parsed, or that reading it goes past its end. */
  datatype Outcome = Parsed(colors: Colors) | Unparsable | PastEnd

  /** The entries from `i` on. */
  function Parse(s: seq<Byte>, i: nat, colors: Colors): Outcome
    requires NulFree(s) && i <= |s|
    decreases |s| - i
  {
    if i == |s| then Parsed(colors)
    else if s[i] == COLON then Parse(s, i + 1, colors)
    else if s[i] == STAR then
      var ext := Decode(s, i + 1, true);
      if !ext.ok || At(s, ext.next) != EQUALS then Unparsable
      else
        var d := Decode(s, ext.next + 1, false);
        if !d.ok then Unparsable
        else Parse(s, d.next, colors.(exts := [Extension(ext.out, d.out)] + colors.exts))
    else if At(s, i + 1) == NUL || At(s, i + 2) != EQUALS then Unparsable
    else
      match IndexOf(NAMES, (s[i], s[i + 1]), 0)
      case None => Parse(s, SkipToColon(s, i + 3), colors)
      case Some(no) =>
        var d := Decode(s, i + 3, false);
        if d.next > |s| then PastEnd
        else Parse(s, if d.ok then d.next else SkipToColon(s, d.next),
                   colors.(indicators := colors.indicators[no := d.out]))
  }

  lemma ParseAll(s: seq<Byte>, colors: Colors)
    requires NulFree(s)
    ensures Parse(s, |s|, colors) == Parsed(colors)
  {
  }

  lemma ParseExtension(s: seq<Byte>, m: nat, colors: Colors)
    requires NulFree(s) && m < |s| && s[m] == STAR
    ensures var x := Decode(s, m + 1, true);
      if !x.ok || At(s, x.next) != EQUALS then Parse(s, m, colors) == Unparsable
      else
        var d := Decode(s, x.next + 1, false);
        Parse(s, m, colors) ==
        if d.ok then Parse(s, d.next, colors.(exts := [Extension(x.out, d.out)] + colors.exts)) else Unparsable
  {
    hide Decode;
  }

  lemma ParseIndicator(s: seq<Byte>, m: nat, colors: Colors)
    requires NulFree(s) && m + 2 < |s| && s[m] != STAR && s[m] != COLON && s[m + 2] == EQUALS
    ensures var no, d := IndexOf(NAMES, (s[m], s[m + 1]), 0), Decode(s, m + 3, false);
      Parse(s, m, colors) ==
      if no.None? then Parse(s, SkipToColon(s, m + 3), colors)
      else if d.next > |s| then PastEnd
      else Parse(s, if d.ok then d.next else SkipToColon(s, d.next),
                 colors.(indicators := colors.indicators[no.value := d.out]))
  {
    hide Decode, NAMES, IndexOf, SkipToColon;
  }

  /** Where nothing more is taken. */
  function StopsAt(s: seq<Byte>, i: nat, equalsEnd: bool): (j: nat)
    requires NulFree(s) && i <= |s|
    ensures i <= j <= |s|
    decreases |s| - i
  {
    match Taken(s, i, equalsEnd)
    case None => i
    case Some((_, next)) => StopsAt(s, next, equalsEnd)
  }

  /** The terminator is stepped over if and only if the string runs up to a last backslash that no escape
      has taken. */
  lemma {:induction false} PastEndIff(s: seq<Byte>, i: nat, equalsEnd: bool)
    requires NulFree(s) && i <= |s|
    ensures Decode(s, i, equalsEnd).next > |s| <==>
            StopsAt(s, i, equalsEnd) + 1 == |s| && s[|s| - 1] == BACKSLASH
    decreases |s| - i
  {
    var t := Taken(s, i, equalsEnd);
    if t.Some? {
      hide Taken;
      PastEndIff(s, t.value.1, equalsEnd);
    }
  }

  /** An indicator with a name that is known stands at `m`. */
  predicate IndicatorAt(s: seq<Byte>, m: nat) {
    && m + 2 < |s| && s[m] != STAR && s[m] != COLON && s[m + 2] == EQUALS
    && IndexOf(NAMES, (s[m], s[m + 1]), 0).Some?
  }

  /** The entry from `i` on at which reading the value stops, or its end. */
  function LastEntry(s: seq<Byte>, i: nat): (m: nat)
    requires NulFree(s) && i <= |s|
    ensures i <= m <= |s|
    decreases |s| - i
  {
    if i == |s| then i
    else if s[i] == COLON then LastEntry(s, i + 1)
    else if s[i] == STAR then
      var ext := Decode(s, i + 1, true);
      if !ext.ok || At(s, ext.next) != EQUALS then i
      else
        var d := Decode(s, ext.next + 1, false);
        if d.ok then LastEntry(s, d.next) else i
    else if At(s, i + 1) == NUL || At(s, i + 2) != EQUALS then i
    else if !IndicatorAt(s, i) then LastEntry(s, SkipToColon(s, i + 3))
    else
      var d := Decode(s, i + 3, false);
      if d.next > |s| then i else LastEntry(s, if d.ok then d.next else SkipToColon(s, d.next))
  }

  /** The indicator at `m` has a sequence that runs up to a last backslash which no escape has taken. */
  predicate RunsOver(s: seq<Byte>, m: nat)
    requires NulFree(s)
  {
    IndicatorAt(s, m) && StopsAt(s, m + 3, false) + 1 == |s| && s[|s| - 1] == BACKSLASH
  }

  lemma LastEntryExtension(s: seq<Byte>, i: nat)
    requires NulFree(s) && i < |s| && s[i] == STAR
    ensures var ext := Decode(s, i + 1, true);
      if !ext.ok || At(s, ext.next) != EQUALS then LastEntry(s, i) == i
      else
        var d := Decode(s, ext.next + 1, false);
        LastEntry(s, i) == if d.ok then LastEntry(s, d.next) else i
  {
    hide Decode;
  }

  lemma LastEntryIndicator(s: seq<Byte>, i: nat)
    requires NulFree(s) && i + 2 < |s| && s[i] != STAR && s[i] != COLON && s[i + 2] == EQUALS
    ensures var no, d := IndexOf(NAMES, (s[i], s[i + 1]), 0), Decode(s, i + 3, false);
      && (no.Some? <==> IndicatorAt(s, i))
      && LastEntry(s, i) ==
         if no.None? then LastEntry(s, SkipToColon(s, i + 3))
         else if d.next > |s| then i
         else LastEntry(s, if d.ok then d.next else SkipToColon(s, d.next))
  {
    hide Decode, NAMES, IndexOf, SkipToColon;
  }

  lemma LastEntryOther(s: seq<Byte>, i: nat, colors: Colors)
    requires NulFree(s) && i <= |s|
    ensures i == |s| ==> LastEntry(s, i) == i && !Parse(s, i, colors).PastEnd?
    ensures i < |s| && s[i] == COLON ==>
              LastEntry(s, i) == LastEntry(s, i + 1) && Parse(s, i, colors) == Parse(s, i + 1, colors)
    ensures i < |s| && s[i] != COLON && s[i] != STAR && (At(s, i + 1) == NUL || At(s, i + 2) != EQUALS) ==>
              LastEntry(s, i) == i && !Parse(s, i, colors).PastEnd?
  {
    hide Decode, NAMES, IndexOf, SkipToColon;
  }

  lemma NotOver(s: seq<Byte>, i: nat)
    requires NulFree(s)
    ensures i >= |s| || s[i] == STAR || At(s, i + 1) == NUL || At(s, i + 2) != EQUALS ==> !RunsOver(s, i)
  {
    hide NAMES, IndexOf, StopsAt;
  }

  lemma OverIff(s: seq<Byte>, i: nat)
    requires NulFree(s) && IndicatorAt(s, i)
    ensures RunsOver(s, i) <==> Decode(s, i + 3, false).next > |s|
  {
    hide NAMES, IndexOf, Decode;
    PastEndIff(s, i + 3, false);
  }

  /** Reading a value goes past its end if and only if the entry at which it stops is an indicator that runs
      over. */
  lemma {:induction false} ParsePastEndIff(s: seq<Byte>, i: nat, colors: Colors)
    requires NulFree(s) && i <= |s|
    ensures Parse(s, i, colors).PastEnd? <==> RunsOver(s, LastEntry(s, i))
    decreases |s| - i
  {
    hide *;
    LastEntryOther(s, i, colors);
    NotOver(s, i);
    if i < |s| && s[i] == COLON {
      ParsePastEndIff(s, i + 1, colors);
    } else if i < |s| && s[i] == STAR {
      LastEntryExtension(s, i);
      ParseExtension(s, i, colors);
      var ext := Decode(s, i + 1, true);
      if ext.ok && At(s, ext.next) == EQUALS {
        EqualsInside(s, ext.next);
        var d := Decode(s, ext.next + 1, false);
        if d.ok {
          ParsePastEndIff(s, d.next, colors.(exts := [Extension(ext.out, d.out)] + colors.exts));
        }
      }
    } else if i < |s| && At(s, i + 1) != NUL && At(s, i + 2) == EQUALS {
      EqualsInside(s, i + 2);
      LastEntryIndicator(s, i);
      ParseIndicator(s, i, colors);
      var no, d := IndexOf(NAMES, (s[i], s[i + 1]), 0), Decode(s, i + 3, false);
      if no.None? {
        ParsePastEndIff(s, SkipToColon(s, i + 3), colors);
      } else {
        OverIff(s, i);
        if d.next <= |s| {
          ParsePastEndIff(s, if d.ok then d.next else SkipToColon(s, d.next),
                          colors.(indicators := colors.indicators[no.value := d.out]));
        }
      }
    }
  }

  lemma EqualsInside(s: seq<Byte>, i: nat)
    requires At(s, i) == EQUALS
    ensures i < |s| && s[i] == EQUALS
  {
  }

  /** So a value that does not end in a backslash is read inside. */
  lemma InsideUnlessBackslash(s: seq<Byte>, colors: Colors)
    requires NulFree(s) && (s == [] || s[|s| - 1] != BACKSLASH)
    ensures !Parse(s, 0, colors).PastEnd?
  {
    hide Parse, LastEntry, StopsAt, NAMES, IndexOf;
    ParsePastEndIff(s, 0, colors);
  }

  /** A directory colour that is one backslash goes past the end; one that is an escaped backslash does not. */
  lemma PastEndExample(colors: Colors)
    ensures Parse([100, 105, EQUALS, BACKSLASH], 0, colors) == PastEnd
    ensures Parse([100, 105, EQUALS, BACKSLASH, BACKSLASH], 0, colors).Parsed?
  {
    hide NAMES, IndexOf, Parse;
    DirectoryIsKnown();
    var no := IndexOf(NAMES, (100, 105), 0);
    var s, t := [100, 105, EQUALS, BACKSLASH], [100, 105, EQUALS, BACKSLASH, BACKSLASH];
    ParseIndicator(s, 0, colors);
    ParseIndicator(t, 0, colors);
    EscapedBackslash(t);
    ParseAll(t, colors.(indicators := colors.indicators[no.value := [BACKSLASH]]));
  }

  lemma DirectoryIsKnown()
    ensures IndexOf(NAMES, (100, 105), 0).Some?
  {
    hide IndexOf;
    assert NAMES[6] == (100, 105);
    assert NAMES[0..] == NAMES;
  }

  lemma EscapedBackslash(t: seq<Byte>)
    requires t == [100, 105, EQUALS, BACKSLASH, BACKSLASH]
    ensures Decode(t, 3, false) == Decoded([BACKSLASH], 5, true)
  {
    assert Taken(t, 3, false) == Some((BACKSLASH, 5)) && Taken(t, 5, false) == None;
    assert Decode(t, 3, false) == Push(BACKSLASH, Decode(t, 5, false));
  }
}

/** Values of LS_COLORS for any tables. */
module ColorText {
  import opened Chars
  import opened ColorSpec

  /** A sequence for an extension, or for an indicator by its name. */
  datatype Setting = ForExtension(ext: seq<Byte>, sequence: seq<Byte>) | ForIndicator(name: (Byte, Byte), sequence: seq<Byte>)

  predicate Known(x: Setting) {
    x.ForIndicator? ==> x.name in NAMES
  }

  /** How an entry can be written. */
  function Text(x: Setting): seq<Byte> {
    match x
    case ForExtension(ext, sequence) => [STAR] + Encode(ext) + [EQUALS] + Encode(sequence) + [COLON]
    case ForIndicator(name, sequence) => [name.0, name.1, EQUALS] + Encode(sequence) + [COLON]
  }

  function Value(xs: seq<Setting>): seq<Byte> {
    if xs == [] then [] else Text(xs[0]) + Value(xs[1..])
  }

  /** What an entry is for: the first extension in the list wins, and the last setting of an indicator. */
  function Apply(x: Setting, colors: Colors): Colors
    requires Known(x)
  {
    match x
    case ForExtension(ext, sequence) => colors.(exts := [Extension(ext, sequence)] + colors.exts)
    case ForIndicator(name, sequence) =>
      var no := IndexOf(NAMES, name, 0);
      assert NAMES[0..] == NAMES;
      colors.(indicators := colors.indicators[no.value := sequence])
  }

  function ApplyAll(xs: seq<Setting>, colors: Colors): Colors
    requires forall k :: 0 <= k < |xs| ==> Known(xs[k])
  {
    if xs == [] then colors else ApplyAll(xs[1..], Apply(xs[0], colors))
  }

  lemma NamesAreLetters(name: (Byte, Byte))
    requires name in NAMES
    ensures 'a' as int <= name.0 <= 'z' as int && 'a' as int <= name.1 <= 'z' as int
  {
  }

  lemma {:induction false} EncodeNulFree(w: seq<Byte>)
    ensures NulFree(Encode(w))
  {
    if w != [] {
      EncodeNulFree(w[1..]);
    }
  }

  lemma TextNulFree(x: Setting)
    requires Known(x)
    ensures NulFree(Text(x))
  {
    EncodeNulFree(x.sequence);
    if x.ForExtension? {
      EncodeNulFree(x.ext);
    } else {
      NamesAreLetters(x.name);
    }
    hide NAMES, Encode;
  }

  lemma {:induction false} ValueNulFree(xs: seq<Setting>)
    requires forall k :: 0 <= k < |xs| ==> Known(xs[k])
    ensures NulFree(Value(xs))
  {
    hide Text, Known;
    if xs != [] {
      TextNulFree(xs[0]);
      ValueNulFree(xs[1..]);
    }
  }

  /** The part of `s` from `i` on starts with `t`. */
  predicate Starts(s: seq<Byte>, i: nat, t: seq<Byte>) {
    i + |t| <= |s| && t <= s[i..]
  }

  lemma StartsBoth(s: seq<Byte>, i: nat, a: seq<Byte>, b: seq<Byte>)
    requires Starts(s, i, a + b)
    ensures Starts(s, i, a) && Starts(s, i + |a|, b)
  {
    PrefixOfSum(a, b, s, i);
  }

  lemma StartsWith(s: seq<Byte>, i: nat, c: Byte)
    requires Starts(s, i, [c])
    ensures i < |s| && s[i] == c
  {
    assert s[i] == s[i..][0];
  }

  /** A sequence and the colon after it. */
  lemma SequenceReadsBack(w: seq<Byte>, s: seq<Byte>, i: nat, colors: Colors)
    requires NulFree(s) && Starts(s, i, Encode(w) + [COLON])
    ensures Decode(s, i, false) == Decoded(w, i + |Encode(w)|, true)
    ensures Parse(s, i + |Encode(w)|, colors) == Parse(s, i + |Encode(w)| + 1, colors)
  {
    hide Encode, Decode, NAMES;
    StartsBoth(s, i, Encode(w), [COLON]);
    StartsWith(s, i + |Encode(w)|, COLON);
    EncodedReadsBack(w, s, i, false);
  }

  lemma ExtensionParts(x: Setting, s: seq<Byte>, i: nat)
    requires x.ForExtension? && Starts(s, i, Text(x))
    ensures var n := |Encode(x.ext)|;
      && |Text(x)| == n + |Encode(x.sequence)| + 3 && i < |s| && s[i] == STAR
      && Starts(s, i + 1, Encode(x.ext)) && i + 1 + n < |s| && s[i + 1 + n] == EQUALS
      && Starts(s, i + 2 + n, Encode(x.sequence) + [COLON])
  {
    hide Encode, Starts;
    var a, c := Encode(x.ext), Encode(x.sequence);
    Associates([STAR] + a + [EQUALS], c, [COLON]);
    FourParts(s, i, a, c + [COLON]);
  }

  lemma FourParts(s: seq<Byte>, i: nat, a: seq<Byte>, b: seq<Byte>)
    requires Starts(s, i, [STAR] + a + [EQUALS] + b)
    ensures i < |s| && s[i] == STAR && Starts(s, i + 1, a) && i + 1 + |a| < |s| && s[i + 1 + |a|] == EQUALS
    ensures Starts(s, i + 2 + |a|, b)
  {
    hide Starts;
    StartsBoth(s, i, [STAR] + a + [EQUALS], b);
    StartsBoth(s, i, [STAR] + a, [EQUALS]);
    StartsBoth(s, i, [STAR], a);
    StartsWith(s, i, STAR);
    StartsWith(s, i + 1 + |a|, EQUALS);
  }

  lemma ExtensionReadsBack(x: Setting, s: seq<Byte>, i: nat, colors: Colors)
    requires x.ForExtension? && NulFree(s) && Starts(s, i, Text(x))
    ensures Parse(s, i, colors) == Parse(s, i + |Text(x)|, Apply(x, colors))
  {
    hide Encode, Decode, NAMES, Starts, Parse, Text;
    ExtensionParts(x, s, i);
    var n := |Encode(x.ext)|;
    StartsIs(s, i + 1, Encode(x.ext));
    EncodedReadsBack(x.ext, s, i + 1, true);
    SequenceReadsBack(x.sequence, s, i + 2 + n, Apply(x, colors));
    ParseExtension(s, i, colors);
  }

  lemma StartsIs(s: seq<Byte>, i: nat, t: seq<Byte>)
    requires Starts(s, i, t)
    ensures i <= |s| && t <= s[i..]
  {
  }

  lemma IndicatorParts(x: Setting, s: seq<Byte>, i: nat)
    requires x.ForIndicator? && Starts(s, i, Text(x))
    ensures |Text(x)| == |Encode(x.sequence)| + 4 && i + 2 < |s|
    ensures s[i] == x.name.0 && s[i + 1] == x.name.1 && s[i + 2] == EQUALS
    ensures Starts(s, i + 3, Encode(x.sequence) + [COLON])
  {
    hide Encode;
    var head, b := [x.name.0, x.name.1, EQUALS], Encode(x.sequence);
    assert Text(x) == head + (b + [COLON]);
    StartsBoth(s, i, head, b + [COLON]);
    var rest := s[i..];
    assert s[i] == rest[0] == head[0] && s[i + 1] == rest[1] == head[1] && s[i + 2] == rest[2] == head[2];
  }

  lemma IndicatorReadsBack(x: Setting, s: seq<Byte>, i: nat, colors: Colors)
    requires x.ForIndicator? && Known(x) && NulFree(s) && Starts(s, i, Text(x))
    ensures Parse(s, i, colors) == Parse(s, i + |Text(x)|, Apply(x, colors))
  {
    hide Encode, Decode, NAMES, Starts, IndexOf, Parse, Text;
    NamesAreLetters(x.name);
    IndicatorParts(x, s, i);
    SequenceReadsBack(x.sequence, s, i + 3, Apply(x, colors));
    assert NAMES[0..] == NAMES;
    ParseIndicator(s, i, colors);
  }

  /** Any settings can be written as a value that is parsed back to them. */
  lemma {:induction false} ValueReadsBack(xs: seq<Setting>, s: seq<Byte>, i: nat, colors: Colors)
    requires (forall k :: 0 <= k < |xs| ==> Known(xs[k])) && NulFree(s) && i <= |s| && s[i..] == Value(xs)
    ensures Parse(s, i, colors) == Parsed(ApplyAll(xs, colors))
    decreases |xs|
  {
    hide Text, NAMES, Apply, Known, Parse;
    if xs == [] {
      ParseAll(s, colors);
    } else {
      var t := Text(xs[0]);
      Remaining(s, i, t, Value(xs[1..]));
      if xs[0].ForExtension? {
        ExtensionReadsBack(xs[0], s, i, colors);
      } else {
        IndicatorReadsBack(xs[0], s, i, colors);
      }
      ValueReadsBack(xs[1..], s, i + |t|, Apply(xs[0], colors));
    }
  }

  /** ... so there is a value for any tables that settings make. */
  lemma AnySettingsCanBeWritten(xs: seq<Setting>, colors: Colors)
    requires forall k :: 0 <= k < |xs| ==> Known(xs[k])
    ensures NulFree(Value(xs)) && Parse(Value(xs), 0, colors) == Parsed(ApplyAll(xs, colors))
  {
    ValueNulFree(xs);
    assert Value(xs)[0..] == Value(xs);
    ValueReadsBack(xs, Value(xs), 0, colors);
  }

  lemma Remaining(s: seq<Byte>, i: nat, t: seq<Byte>, rest: seq<Byte>)
    requires i <= |s| && s[i..] == t + rest
    ensures Starts(s, i, t) && s[i + |t|..] == rest
  {
    assert s[i..][|t|..] == s[i + |t|..];
  }
}

module LsColors {
  import opened Chars
  import opened ColorSpec

  /** A character of the value or its terminator, and nothing behind it. */
  function CharAt(s: seq<Byte>, i: nat): Byte
    requires i <= |s|
  {
    At(s, i)
  }

  // ---- The inner machine ----

  datatype State = Gnd | Backslash | Octal | Hex | Caret | End | Error

  /** Some steps change only the state, so it takes part in the measure. */
  function Rank(state: State): nat {
    match state
    case Octal => 2
    case Hex => 2
    case Caret => 2
    case Backslash => 1
    case Gnd => 1
    case _ => 0
  }

  function Prepend(w: seq<Byte>, d: Decoded): Decoded {
    d.(out := w + d.out)
  }

  /** Where the escape started that the state is about, and the number so far. */
  predicate Within(s: seq<Byte>, state: State, m: nat, p: nat, num: int)
    requires NulFree(s) && p <= |s|
  {
    match state
    case Gnd => m == p
    case Backslash => m + 1 == p && s[m] == BACKSLASH
    case Octal => m + 2 <= p && s[m] == BACKSLASH && IsOctal(s[m + 1]) && Numeral(s, false, m + 1, p, num)
    case Hex =>
      && m + 2 <= p && s[m] == BACKSLASH && !IsOctal(s[m + 1])
      && (s[m + 1] == 'x' as int || s[m + 1] == 'X' as int) && Numeral(s, true, m + 2, p, num)
    case Caret => m + 1 == p && s[m] == CARET
    case _ => m == p
  }

  predicate Numeral(s: seq<Byte>, hex: bool, from: nat, p: nat, num: int)
    requires from <= p <= |s|
  {
    p <= DigitsEnd(s, hex, from) && num == Value(s, hex, from, p) % 256
  }

  /** What is still to come. */
  function Rest(s: seq<Byte>, state: State, m: nat, p: nat, equalsEnd: bool): Decoded
    requires NulFree(s) && (state != Error ==> m <= |s|)
  {
    match state
    case End => Decoded([], p, true)
    case Error => Decoded([], p, false)
    case _ => Decode(s, m, equalsEnd)
  }

  lemma ShiftMod(hex: bool, v: nat, c: Byte)
    requires IsDigitOf(hex, c)
    ensures Shift(hex, v % 256, c) % 256 == Shift(hex, v, c) % 256
  {
    var q, r := v / 256, v % 256;
    assert v == 256 * q + r;
    if hex {
      ModPlus(r * 16 + HexValue(c), 16 * q);
    } else {
      ModPlus(r * 8 + (c - '0' as int), 8 * q);
    }
  }

  lemma ModPlus(a: int, k: int)
    ensures (a + 256 * k) % 256 == a % 256
  {
  }

  lemma NextDigit(s: seq<Byte>, hex: bool, from: nat, p: nat, num: int)
    requires from <= p < |s| && Numeral(s, hex, from, p, num) && IsDigitOf(hex, s[p])
    ensures Numeral(s, hex, from, p + 1, Shift(hex, num, s[p]) % 256)
  {
    ShiftMod(hex, Value(s, hex, from, p), s[p]);
  }

  /** A number ends: it is what the state machine has added up. */
  lemma NumberEnds(s: seq<Byte>, state: State, m: nat, p: nat, num: int, equalsEnd: bool)
    requires NulFree(s) && p <= |s| && (state == Octal || state == Hex) && Within(s, state, m, p, num)
    requires p == |s| || !IsDigitOf(state == Hex, s[p])
    ensures 0 <= num < 256 && Decode(s, m, equalsEnd) == Push(num, Decode(s, p, equalsEnd))
  {
  }

  lemma PushPrepend(w: seq<Byte>, c: Byte, d: Decoded)
    ensures Prepend(w, Push(c, d)) == Prepend(w + [c], d)
  {
    assert w + ([c] + d.out) == w + [c] + d.out;
  }

  /** `w` has been written from `q` on. */
  predicate Written(text: seq<Byte>, q: nat, w: seq<Byte>) {
    q + |w| <= |text| && forall j :: 0 <= j < |w| ==> text[q + j] == w[j]
  }

  /** `get_funky_string` from `p0` of the value to `q0` of the buffer, which is no longer than the value. */
  method GetFunkyString(s: seq<Byte>, buf: array<Byte>, p0: nat, q0: nat, equalsEnd: bool)
    returns (ok: bool, p: nat, q: nat)
    requires NulFree(s) && q0 <= p0 <= |s| && buf.Length == |s| + 1
    modifies buf
    ensures var d := Decode(s, p0, equalsEnd);
      p == d.next && ok == d.ok && q == q0 + |d.out| && Written(buf[..], q0, d.out)
    ensures q <= p && q <= |s| && forall k :: 0 <= k < q0 ==> buf[k] == old(buf[k])
  {
    hide Decode, Written;
    var num: Byte, state := 0, Gnd;
    p, q := p0, q0;
    ghost var w: seq<Byte>, m: nat := [], p0;
    ghost var d := Decode(s, p0, equalsEnd);
    NothingWritten(buf[..], q0);
    assert Prepend(w, d) == d;
    while state != End && state != Error
      invariant m <= p && (if state == Error then p <= |s| + 1 else p <= |s| && m <= |s|)
      invariant state != Error ==> Within(s, state, m, p, num)
      invariant q == q0 + |w| && |w| + (if state in {Gnd, End, Error} then 0 else 1) <= p - p0
      invariant Prepend(w, Rest(s, state, m, p, equalsEnd)) == d
      invariant Written(buf[..], q0, w) && forall k :: 0 <= k < q0 ==> buf[k] == old(buf[k])
      decreases |s| + 1 - p, Rank(state)
    {
      var byte: Option<Byte>;
      state, p, num, byte := Step(s, state, p, num, equalsEnd, m);
      if byte.Some? {
        ghost var was := buf[..];
        buf[q] := byte.value;
        q := q + 1;
        WriteOne(was, buf[..], q0, w, byte.value);
        PushPrepend(w, byte.value, Rest(s, Gnd, p, p, equalsEnd));
        w := w + [byte.value];
      }
      if state in {Gnd, End, Error} {
        m := p;
      }
    }
    ok := state != Error;
    assert w + [] == w;
  }

  lemma NothingWritten(text: seq<Byte>, q: nat)
    requires q <= |text|
    ensures Written(text, q, [])
  {
  }

  lemma WriteOne(was: seq<Byte>, now: seq<Byte>, q0: nat, w: seq<Byte>, c: Byte)
    requires Written(was, q0, w) && q0 + |w| < |was| && now == was[q0 + |w| := c]
    ensures Written(now, q0, w + [c])
  {
  }

  /** One turn of the loop: the new state, and the byte that is written, if any. */
  method Step(s: seq<Byte>, state: State, p0: nat, num0: Byte, equalsEnd: bool, ghost m: nat)
    returns (state': State, p: nat, num: Byte, byte: Option<Byte>)
    requires NulFree(s) && p0 <= |s| && m <= |s| && state != End && state != Error
    requires Within(s, state, m, p0, num0)
    ensures p0 <= p <= |s| + 1 && (p == p0 ==> Rank(state') < Rank(state)) && (p > |s| ==> state' == Error)
    ensures var m' := if state' in {Gnd, End, Error} then p else m;
      && (state' != Error ==> Within(s, state', m', p, num))
      && Rest(s, state, m, p0, equalsEnd) ==
         if byte.Some? then Push(byte.value, Rest(s, state', m', p, equalsEnd)) else Rest(s, state', m', p, equalsEnd)
    ensures byte.Some? ==> state' == Gnd && (state == Gnd ==> p > p0)
    ensures state == Gnd && state' in {Backslash, Caret} ==> p == p0 + 1
    ensures state' in {Octal, Hex, Backslash, Caret} ==> state == Gnd ==> p > p0
  {
    p, num, byte, state' := p0, num0, None, Gnd;
    match state
    case Gnd => state', p, byte := Ground(s, p0, equalsEnd);
    case Backslash => state', p, num, byte := AfterBackslash(s, p0, equalsEnd);
    case Octal => state', p, num, byte := Digit(s, Octal, p0, num0, equalsEnd, m);
    case Hex => state', p, num, byte := Digit(s, Hex, p0, num0, equalsEnd, m);
    case Caret => state', p, byte := AfterCaret(s, p0, equalsEnd);
  }

  method Ground(s: seq<Byte>, p0: nat, equalsEnd: bool) returns (state: State, p: nat, byte: Option<Byte>)
    requires NulFree(s) && p0 <= |s|
    ensures p0 <= p <= |s| && state in {Gnd, Backslash, Caret, End} && byte.Some? == (state == Gnd)
    ensures p == if state == End then p0 else p0 + 1
    ensures state == Backslash ==> s[p0] == BACKSLASH
    ensures state == Caret ==> s[p0] == CARET
    ensures state == End ==> Decode(s, p0, equalsEnd) == Decoded([], p0, true)
    ensures state == Gnd ==> Decode(s, p0, equalsEnd) == Push(byte.value, Decode(s, p, equalsEnd))
  {
    var c := CharAt(s, p0);
    p, byte := p0, None;
    if c == COLON || c == NUL {
      state := End;
    } else if c == BACKSLASH {
      state, p := Backslash, p + 1;
    } else if c == CARET {
      state, p := Caret, p + 1;
    } else if c == EQUALS && equalsEnd {
      state := End;
    } else {
      state, p, byte := Gnd, p + 1, Some(c);
    }
  }

  method AfterBackslash(s: seq<Byte>, p0: nat, equalsEnd: bool)
    returns (state: State, p: nat, num: Byte, byte: Option<Byte>)
    requires NulFree(s) && 0 < p0 <= |s| && s[p0 - 1] == BACKSLASH
    ensures p == p0 + 1 <= |s| + 1 && state in {Gnd, Octal, Hex, Error} && byte.Some? == (state == Gnd)
    ensures state != Error ==> p <= |s|
    ensures state in {Octal, Hex} ==> Within(s, state, p0 - 1, p, num)
    ensures state == Error ==> Decode(s, p0 - 1, equalsEnd) == Decoded([], p, false)
    ensures state == Gnd ==> Decode(s, p0 - 1, equalsEnd) == Push(byte.value, Decode(s, p, equalsEnd))
  {
    var c := CharAt(s, p0);
    byte, num := None, 0;
    if IsOctal(c) {
      state, num := Octal, c - '0' as int;
      assert Value(s, false, p0, p0) == 0 && Value(s, false, p0, p0 + 1) == num;
    } else if c == 'x' as int || c == 'X' as int {
      state := Hex;
    } else if c == NUL {
      state := Error;
    } else {
      state, byte := Gnd, Some(Escape(c));
    }
    p := p0 + 1;
  }

  method Digit(s: seq<Byte>, state: State, p0: nat, num0: Byte, equalsEnd: bool, ghost m: nat)
    returns (state': State, p: nat, num: Byte, byte: Option<Byte>)
    requires NulFree(s) && p0 <= |s| && (state == Octal || state == Hex) && Within(s, state, m, p0, num0)
    ensures state' in {state, Gnd} && byte.Some? == (state' == Gnd)
    ensures p <= |s| && p == if state' == Gnd then p0 else p0 + 1
    ensures state' == state ==> Within(s, state, m, p, num)
    ensures state' == Gnd ==> Decode(s, m, equalsEnd) == Push(byte.value, Decode(s, p, equalsEnd))
  {
    hide Decode;
    var c := CharAt(s, p0);
    p, num, byte := p0, num0, None;
    if !IsDigitOf(state == Hex, c) {
      NumberEnds(s, state, m, p0, num0, equalsEnd);
      state', byte := Gnd, Some(num);
    } else {
      NextDigit(s, state == Hex, if state == Hex then m + 2 else m + 1, p0, num0);
      num := Shift(state == Hex, num0, c) % 256;
      state', p := state, p + 1;
    }
  }

  method AfterCaret(s: seq<Byte>, p0: nat, equalsEnd: bool) returns (state: State, p: nat, byte: Option<Byte>)
    requires NulFree(s) && 0 < p0 <= |s| && s[p0 - 1] == CARET
    ensures p0 <= p <= |s| && state in {Gnd, Error} && byte.Some? == (state == Gnd)
    ensures state == Gnd ==> Decode(s, p0 - 1, equalsEnd) == Push(byte.value, Decode(s, p, equalsEnd))
    ensures state == Error ==> Decode(s, p0 - 1, equalsEnd) == Decoded([], p, false)
  {
    var c := CharAt(s, p0);
    state, p, byte := Gnd, p0, None;
    if AT_SIGN <= c <= '~' as int {
      byte, p := Some(c % 32), p + 1;
    } else if c == QUESTION {
      byte := Some(127);
    } else {
      state := Error;
    }
  }

  // ---- The outer machine ----

  /** A string in the color buffer. */
  datatype BinStr = BinStr(offset: nat, len: nat)

  datatype ExtEntry = ExtEntry(ext: BinStr, sequence: BinStr)

  /** A string of the buffer, all before `q`, holds `w`. */
  predicate Holds(text: seq<Byte>, q: nat, b: BinStr, w: seq<Byte>) {
    b.len == |w| && b.offset + b.len <= q && Written(text, b.offset, w)
  }

  lemma StillHolds(text: seq<Byte>, text': seq<Byte>, q: nat, q': nat, b: BinStr, w: seq<Byte>)
    requires Holds(text, q, b, w) && q <= q' && q <= |text| <= |text'|
    requires forall k :: 0 <= k < q ==> text'[k] == text[k]
    ensures Holds(text', q', b, w)
  {
  }

  /** The tables point to the decoded strings. */
  predicate Tables(text: seq<Byte>, q: nat, exts: seq<ExtEntry>, indicators: map<nat, BinStr>, colors: Colors) {
    && |exts| == |colors.exts| && indicators.Keys == colors.indicators.Keys
    && (forall k :: 0 <= k < |exts| ==>
          Holds(text, q, exts[k].ext, colors.exts[k].ext) && Holds(text, q, exts[k].sequence, colors.exts[k].sequence))
    && (forall k :: k in indicators ==> Holds(text, q, indicators[k], colors.indicators[k]))
  }

  lemma StillTables(text: seq<Byte>, text': seq<Byte>, q: nat, q': nat, exts: seq<ExtEntry>,
                    indicators: map<nat, BinStr>, colors: Colors)
    requires Tables(text, q, exts, indicators, colors) && q <= q' && q <= |text| <= |text'|
    requires forall k :: 0 <= k < q ==> text'[k] == text[k]
    ensures Tables(text', q', exts, indicators, colors)
  {
    hide Holds;
    forall k | 0 <= k < |exts|
      ensures Holds(text', q', exts[k].ext, colors.exts[k].ext)
      ensures Holds(text', q', exts[k].sequence, colors.exts[k].sequence)
    {
      StillHolds(text, text', q, q', exts[k].ext, colors.exts[k].ext);
      StillHolds(text, text', q, q', exts[k].sequence, colors.exts[k].sequence);
    }
    forall k | k in indicators ensures Holds(text', q', indicators[k], colors.indicators[k]) {
      StillHolds(text, text', q, q', indicators[k], colors.indicators[k]);
    }
  }

  const NO_COLORS := Colors([], map[])

  class ColorTable {
    var colorBuf: array<Byte>
    var extList: seq<ExtEntry>
    var indicators: map<nat, BinStr>

    /** The scanner has reached `p` of the value and `q` of the buffer. */
    ghost predicate Filled(s: seq<Byte>, p: nat, q: nat, colors: Colors)
      reads this, colorBuf
    {
      && NulFree(s) && q <= p <= |s| && colorBuf.Length == |s| + 1
      && Tables(colorBuf[..], q, extList, indicators, colors)
    }

    constructor ()
      ensures extList == [] && indicators == map[] && fresh(colorBuf)
    {
      colorBuf, extList, indicators := new Byte[0], [], map[];
    }

    /** `_rl_parse_colors` on a value of the variable. State 1 is before an entry, 2 and 3 are inside its
        label, 4 is after its extension; `m` is where the entry started. */
    method ParseColors(s: seq<Byte>) returns (inside: bool, ok: bool)
      requires NulFree(s) && extList == [] && indicators == map[]
      modifies this
      ensures ok == Parse(s, 0, NO_COLORS).Parsed?
      ensures !inside <==> RunsOver(s, LastEntry(s, 0))
      ensures ok ==> Tables(colorBuf[..], colorBuf.Length, extList, indicators, Parse(s, 0, NO_COLORS).colors)
      ensures inside && !ok ==> extList == []
    {
      hide Parse, Decode, Tables, Holds, NAMES, LastEntry, RunsOver;
      ParsePastEndIff(s, 0, NO_COLORS);
      var buf := new Byte[|s| + 1](i requires 0 <= i <= |s| => At(s, i));
      colorBuf := buf;
      ghost var colors, m: nat := NO_COLORS, 0;
      ghost var end := Parse(s, 0, NO_COLORS);
      EmptyTables(buf[..]);
      var p, q, state, ext := 0, 0, 1, BinStr(0, 0);
      var label0: Byte, label1: Byte := QUESTION, QUESTION;
      while state > 0
        invariant fresh(colorBuf) && -1 <= state <= 4 && m <= p <= |s| + 1
        invariant state >= 0 ==> Filled(s, p, q, colors)
        invariant end == if state == -1 then Unparsable else if state == 0 then Parsed(colors) else Parse(s, m, colors)
        invariant state in {0, 1} ==> m == p
        invariant state in {2, 3} ==> m < |s| && p == m + state - 1 && s[m] != COLON && s[m] != STAR && label0 == s[m]
        invariant state == 3 ==> label1 == s[m + 1]
        invariant state == 4 ==> m < |s| && s[m] == STAR && Pending(s, colorBuf[..], m, p, q, ext)
        decreases |s| + 1 - p, state > 0
      {
        if state == 1 {
          var c := CharAt(s, p);
          if c == COLON {
            ParseColon(s, p, colors);
            p, m := p + 1, p + 1;
          } else if c == STAR {
            state, p, q, ext := StartExtension(s, p, q, colors);
          } else if c == NUL {
            ParseAll(s, colors);
            state := 0;
          } else {
            label0, p, state := c, p + 1, 2;
          }
        } else if state == 2 {
          if CharAt(s, p) != NUL {
            label1, p, state := s[p], p + 1, 3;
          } else {
            BadLabel(s, m, colors);
            state := -1;
          }
        } else if state == 3 {
          if CharAt(s, p) == EQUALS {
            inside, p, q, colors := SetIndicator(s, p, q, (label0, label1), colors);
            if !inside {
              return false, false;
            }
            state, m := 1, p;
          } else {
            BadLabel(s, m, colors);
            state, p := -1, p + 1;
          }
        } else {
          state, p, q, colors := FinishExtension(s, p, q, ext, colors, m);
          m := p;
        }
      }
      inside, ok := true, state == 0;
      if ok {
        StillTables(colorBuf[..], colorBuf[..], q, colorBuf.Length, extList, indicators, colors);
      } else {
        extList := [];
      }
    }

    /** State 1 at a `*`: the extension goes to the buffer. */
    method StartExtension(s: seq<Byte>, p0: nat, q0: nat, ghost colors: Colors)
      returns (state: int, p: nat, q: nat, ext: BinStr)
      requires Filled(s, p0, q0, colors) && p0 < |s| && s[p0] == STAR
      modifies colorBuf
      ensures p0 < p <= |s| + 1 && (state == 4 || state == -1)
      ensures state == 4 ==> Filled(s, p, q, colors) && Pending(s, colorBuf[..], p0, p, q, ext)
      ensures state == -1 ==> Parse(s, p0, colors) == Unparsable
    {
      hide Decode, Tables, Parse;
      ParseExtension(s, p0, colors);
      ghost var text := colorBuf[..];
      var ok;
      ok, p, q := GetFunkyString(s, colorBuf, p0 + 1, q0, true);
      ext := BinStr(q0, q - q0);
      assert Holds(colorBuf[..], q, ext, Decode(s, p0 + 1, true).out);
      StillTables(text, colorBuf[..], q0, q, extList, indicators, colors);
      state := if ok then 4 else -1;
    }

    /** State 4: an equal sign and the sequence of the extension. */
    method FinishExtension(s: seq<Byte>, p0: nat, q0: nat, ext: BinStr, ghost colors0: Colors, ghost m: nat)
      returns (state: int, p: nat, q: nat, ghost colors: Colors)
      requires Filled(s, p0, q0, colors0) && m < |s| && s[m] == STAR && Pending(s, colorBuf[..], m, p0, q0, ext)
      modifies this`extList, colorBuf
      ensures p0 < p <= |s| + 1
      ensures (state == 1 && Filled(s, p, q, colors)) || state == -1
      ensures Parse(s, m, colors0) == if state == 1 then Parse(s, p, colors) else Unparsable
    {
      hide Decode, Tables, Parse;
      ParseExtension(s, m, colors0);
      state, p, q, colors := -1, p0 + 1, q0, colors0;
      if CharAt(s, p0) != EQUALS {
        return;
      }
      ghost var x := Decode(s, m + 1, true).out;
      ghost var text0 := colorBuf[..];
      var ok;
      ok, p, q := GetFunkyString(s, colorBuf, p, q0, false);
      if !ok {
        return;
      }
      state := 1;
      ghost var d := Decode(s, p0 + 1, false).out;
      ghost var text := colorBuf[..];
      var b := BinStr(q0, q - q0);
      StillHolds(text0, text, q0, q, ext, x);
      StillTables(text0, text, q0, q, extList, indicators, colors);
      AddExtension(text, q, extList, indicators, colors, ExtEntry(ext, b), Extension(x, d));
      extList := [ExtEntry(ext, b)] + extList;
      colors := colors.(exts := [Extension(x, d)] + colors.exts);
    }

    /** State 3 at the equal sign after a label. A label that is not known, or a sequence that is not
        well formed, is skipped up to the next colon. */
    method SetIndicator(s: seq<Byte>, p0: nat, q0: nat, name: (Byte, Byte), ghost colors0: Colors)
      returns (inside: bool, p: nat, q: nat, ghost colors: Colors)
      requires 2 <= p0 < |s| && s[p0 - 2] != STAR && s[p0 - 2] != COLON && name == (s[p0 - 2], s[p0 - 1])
      requires s[p0] == EQUALS && Filled(s, p0, q0, colors0)
      modifies this`indicators, colorBuf
      ensures p0 < p && (inside ==> p <= |s| && Filled(s, p, q, colors))
      ensures Parse(s, p0 - 2, colors0) == if inside then Parse(s, p, colors) else PastEnd
    {
      hide Decode, Tables, NAMES, Parse;
      ParseIndicator(s, p0 - 2, colors0);
      inside, p, q, colors := true, p0 + 1, q0, colors0;
      ghost var text0 := colorBuf[..];
      var no := FindName(name);
      var ok := false;
      if no < |NAMES| {
        ok, p, q := GetFunkyString(s, colorBuf, p, q0, false);
        ghost var d := Decode(s, p0 + 1, false);
        StillTables(text0, colorBuf[..], q0, q, extList, indicators, colors);
        AddIndicator(colorBuf[..], q, extList, indicators, colors, no, BinStr(q0, q - q0), d.out);
        indicators := indicators[no := BinStr(q0, q - q0)];
        colors := colors.(indicators := colors.indicators[no := d.out]);
      }
      inside := p <= |s|;
      if !ok && inside {
        p := Recover(s, p);
      }
    }
  }

  /** The extension of the entry at `m` has been read up to `p`. */
  predicate Pending(s: seq<Byte>, text: seq<Byte>, m: nat, p: nat, q: nat, ext: BinStr)
    requires NulFree(s) && m < |s|
  {
    var d := Decode(s, m + 1, true);
    d.ok && p == d.next && Holds(text, q, ext, d.out)
  }

  lemma BadLabel(s: seq<Byte>, m: nat, colors: Colors)
    requires NulFree(s) && m < |s| && s[m] != COLON && s[m] != STAR
    requires At(s, m + 1) == NUL || At(s, m + 2) != EQUALS
    ensures Parse(s, m, colors) == Unparsable
  {
  }

  /** Skip to the next colon. */
  method Recover(s: seq<Byte>, p0: nat) returns (p: nat)
    requires NulFree(s) && p0 <= |s|
    ensures p == SkipToColon(s, p0)
  {
    p := p0;
    while CharAt(s, p) != NUL && CharAt(s, p) != COLON
      invariant p0 <= p <= |s| && SkipToColon(s, p) == SkipToColon(s, p0)
      decreases |s| - p
    {
      p := p + 1;
    }
  }

  /** The number of an indicator, or the number of indicators. */
  method FindName(name: (Byte, Byte)) returns (no: nat)
    ensures no == match IndexOf(NAMES, name, 0) case Some(k) => k case None => |NAMES|
  {
    hide NAMES;
    no := 0;
    while no < |NAMES| && NAMES[no] != name
      invariant no <= |NAMES| && IndexOf(NAMES, name, no) == IndexOf(NAMES, name, 0)
    {
      no := no + 1;
    }
  }

  lemma EmptyTables(text: seq<Byte>)
    ensures Tables(text, 0, [], map[], NO_COLORS)
  {
  }

  lemma ParseColon(s: seq<Byte>, p: nat, colors: Colors)
    requires NulFree(s) && p < |s| && s[p] == COLON
    ensures Parse(s, p, colors) == Parse(s, p + 1, colors)
  {
  }

  lemma AddExtension(text: seq<Byte>, q: nat, exts: seq<ExtEntry>, indicators: map<nat, BinStr>, colors: Colors,
                     e: ExtEntry, x: Extension)
    requires Tables(text, q, exts, indicators, colors)
    requires Holds(text, q, e.ext, x.ext) && Holds(text, q, e.sequence, x.sequence)
    ensures Tables(text, q, [e] + exts, indicators, colors.(exts := [x] + colors.exts))
  {
    hide Holds;
  }

  lemma AddIndicator(text: seq<Byte>, q: nat, exts: seq<ExtEntry>, indicators: map<nat, BinStr>, colors: Colors,
                     no: nat, b: BinStr, w: seq<Byte>)
    requires Tables(text, q, exts, indicators, colors) && Holds(text, q, b, w)
    ensures Tables(text, q, exts, indicators[no := b], colors.(indicators := colors.indicators[no := w]))
  {
    hide Holds;
  }
}
