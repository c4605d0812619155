/** The history file (readline/histfile.c): writing entries to a buffer, reading a buffer back, and
    keeping only its last lines. */
module HistoryFileSpec {
  import opened Chars
  import opened HistorySpec

  /** The macro `HIST_TIMESTAMP_START` */
  predicate IsStamp(s: seq<Byte>, commentChar: Byte) {
    At(s, 0) == commentChar && IsDigit(At(s, 1))
  }

  // ---- Lines ----

  function FirstNewline(s: seq<Byte>): (e: nat)
    ensures e <= |s| && (e < |s| ==> s[e] == NEWLINE)
    ensures forall i :: 0 <= i < e ==> s[i] != NEWLINE
  {
    if s == [] || s[0] == NEWLINE then 0 else FirstNewline(s[1..]) + 1
  }

  /** The lines that newlines end; an unfinished one at the end is not a line. */
  function Split(s: seq<Byte>): (ls: seq<seq<Byte>>)
    ensures forall i :: 0 <= i < |ls| ==> NEWLINE !in ls[i]
    decreases |s|
  {
    var e := FirstNewline(s);
    if e == |s| then [] else [s[..e]] + Split(s[e + 1..])
  }

  lemma FirstNewlineIs(s: seq<Byte>, e: nat)
    requires e < |s| && s[e] == NEWLINE && forall i :: 0 <= i < e ==> s[i] != NEWLINE
    ensures FirstNewline(s) == e
  {
  }

  lemma SplitLine(l: seq<Byte>, rest: seq<Byte>)
    requires NEWLINE !in l
    ensures Split(l + [NEWLINE] + rest) == [l] + Split(rest)
  {
    var s := l + [NEWLINE] + rest;
    assert s[..|l|] == l && s[|l| + 1..] == rest;
    FirstNewlineIs(s, |l|);
  }

  lemma SplitEmpty()
    ensures Split([]) == []
  {
  }

  predicate EndsLine(s: seq<Byte>) {
    s != [] ==> s[|s| - 1] == NEWLINE
  }

  lemma {:induction false} SplitConcat(a: seq<Byte>, b: seq<Byte>)
    requires EndsLine(a)
    ensures Split(a + b) == Split(a) + Split(b)
    decreases |a|
  {
    hide Split, FirstNewline;
    if a == [] {
      SplitEmpty();
      assert a + b == b;
    } else {
      var e := FirstNewline(a);
      assert a[|a| - 1] == NEWLINE;
      var l, rest := a[..e], a[e + 1..];
      assert a == l + [NEWLINE] + rest;
      assert a + b == l + [NEWLINE] + (rest + b);
      SplitLine(l, rest);
      SplitLine(l, rest + b);
      assert EndsLine(rest);
      SplitConcat(rest, b);
    }
  }

  /** Lines joined by newlines: the text of an entry. */
  function Glue(ls: seq<seq<Byte>>): seq<Byte>
    requires ls != []
  {
    if |ls| == 1 then ls[0] else Glue(ls[..|ls| - 1]) + [NEWLINE] + ls[|ls| - 1]
  }

  /** The physical lines of an entry. */
  function Physical(line: seq<Byte>): seq<seq<Byte>> {
    Split(line + [NEWLINE])
  }

  lemma {:induction false} GlueCons(l: seq<Byte>, ls: seq<seq<Byte>>)
    requires ls != []
    ensures Glue([l] + ls) == l + [NEWLINE] + Glue(ls)
  {
    if |ls| == 1 {
      assert ([l] + ls)[..1] == [l];
    } else {
      var front, last := ls[..|ls| - 1], ls[|ls| - 1];
      assert ([l] + ls)[..|ls|] == [l] + front;
      GlueCons(l, front);
    }
  }

  lemma {:induction false} GluePhysical(line: seq<Byte>)
    ensures Physical(line) != [] && Glue(Physical(line)) == line
    decreases |line|
  {
    hide Split, FirstNewline;
    var e := FirstNewline(line);
    SplitEmpty();
    if e == |line| {
      SplitLine(line, []);
      assert line + [NEWLINE] + [] == line + [NEWLINE] && line[..e] == line;
      assert Physical(line) == [line];
    } else {
      var l, rest := line[..e], line[e + 1..];
      assert line == l + [NEWLINE] + rest && line + [NEWLINE] == l + [NEWLINE] + (rest + [NEWLINE]);
      SplitLine(l, rest + [NEWLINE]);
      GluePhysical(rest);
      GlueCons(l, Physical(rest));
    }
  }

  // ---- Writing ----

  function EntryText(e: Entry, stamps: bool): seq<Byte> {
    (if stamps && e.timestamp != [] then e.timestamp + [NEWLINE] else []) + e.line + [NEWLINE]
  }

  function FileText(es: seq<Entry>, stamps: bool): seq<Byte> {
    if es == [] then [] else FileText(es[..|es| - 1], stamps) + EntryText(es[|es| - 1], stamps)
  }

  // ---- Reading ----

  /** The list so far, and the time stamp for the next entry. */
  datatype Reader = Reader(hist: Hist, lastTs: Option<seq<Byte>>)

  /** What is fixed while a file is read; `now` is the time stamp of entries that have none. */
  datatype Mode = Mode(commentChar: Byte, multiline: bool, now: seq<Byte>)

  /** A line of the file as the C string that it becomes. */
  function Cleaned(raw: seq<Byte>): seq<Byte> {
    CutAtNul(if raw != [] && raw[|raw| - 1] == RETURN then raw[..|raw| - 1] else raw)
  }

  function AppendLast(h: Hist, s: seq<Byte>): Hist {
    if h.entries == [] then h
    else
      var n := |h.entries| - 1;
      h.(entries := h.entries[n := h.entries[n].(line := h.entries[n].line + [NEWLINE] + s)])
  }

  function StampLast(h: Hist, ts: seq<Byte>): Hist {
    if h.entries == [] then h
    else
      var n := |h.entries| - 1;
      h.(entries := h.entries[n := h.entries[n].(timestamp := ts)])
  }

  function ReadLine(m: Mode, st: Reader, raw: seq<Byte>): Reader {
    var s := Cleaned(raw);
    if s == [] then st
    else if IsStamp(s, m.commentChar) then st.(lastTs := Some(s))
    else
      var h := if st.lastTs.None? && m.multiline then AppendLast(st.hist, s)
               else Apply(st.hist, Add(Entry(s, m.now, 0)));
      Reader(if st.lastTs.Some? then StampLast(h, st.lastTs.value) else h, None)
  }

  function ReadLines(m: Mode, st: Reader, ls: seq<seq<Byte>>): Reader
    decreases |ls|
  {
    if ls == [] then st else ReadLines(m, ReadLine(m, st, ls[0]), ls[1..])
  }

  lemma ReadNothing(m: Mode, st: Reader)
    ensures ReadLines(m, st, []) == st
  {
  }

  lemma {:induction false} ReadConcat(m: Mode, st: Reader, a: seq<seq<Byte>>, b: seq<seq<Byte>>)
    ensures ReadLines(m, st, a + b) == ReadLines(m, ReadLines(m, st, a), b)
    decreases |a|
  {
    if a == [] {
      assert a + b == b;
    } else {
      assert (a + b)[1..] == a[1..] + b;
      ReadConcat(m, ReadLine(m, st, a[0]), a[1..], b);
    }
  }

  // ---- What is written is read back ----

  /** A line that reading takes as it stands. */
  predicate Plain(s: seq<Byte>) {
    s != [] && NulFree(s) && s[|s| - 1] != RETURN
  }

  lemma {:induction false} CutNothing(s: seq<Byte>)
    requires NulFree(s)
    ensures CutAtNul(s) == s
  {
  }

  /** An entry that can be written: stamped, and with physical lines that do not look like stamps. */
  ghost predicate Writable(e: Entry, commentChar: Byte) {
    && Plain(e.timestamp) && NEWLINE !in e.timestamp && IsStamp(e.timestamp, commentChar)
    && var ls := Physical(e.line);
       forall i :: 0 <= i < |ls| ==> Plain(ls[i]) && !IsStamp(ls[i], commentChar)
  }

  ghost predicate AllWritable(es: seq<Entry>, commentChar: Byte) {
    forall i :: 0 <= i < |es| ==> Writable(es[i], commentChar)
  }

  lemma EntryLines(e: Entry, commentChar: Byte)
    requires Writable(e, commentChar)
    ensures Split(EntryText(e, true)) == [e.timestamp] + Physical(e.line)
  {
    SplitLine(e.timestamp, e.line + [NEWLINE]);
    assert EntryText(e, true) == e.timestamp + [NEWLINE] + (e.line + [NEWLINE]);
  }

  function SetLast(h: Hist, line: seq<Byte>): Hist
    requires h.entries != []
  {
    var n := |h.entries| - 1;
    h.(entries := h.entries[n := h.entries[n].(line := line)])
  }

  lemma ReadFrom(m: Mode, st: Reader, ls: seq<seq<Byte>>, k: nat)
    requires k < |ls|
    ensures ReadLines(m, st, ls[k..]) == ReadLines(m, ReadLine(m, st, ls[k]), ls[k + 1..])
  {
    var rest := ls[k..];
    assert rest[0] == ls[k] && rest[1..] == ls[k + 1..];
  }

  lemma AppendPlain(m: Mode, h: Hist, s: seq<Byte>)
    requires m.multiline && h.entries != [] && Plain(s) && !IsStamp(s, m.commentChar)
    ensures ReadLine(m, Reader(h, None), s) ==
            Reader(SetLast(h, h.entries[|h.entries| - 1].line + [NEWLINE] + s), None)
  {
    CutNothing(s);
  }

  lemma SetTwice(h: Hist, a: seq<Byte>, b: seq<Byte>)
    requires h.entries != []
    ensures SetLast(SetLast(h, a), b) == SetLast(h, b)
  {
  }

  lemma GlueSnoc(ls: seq<seq<Byte>>, k: nat)
    requires 0 < k < |ls|
    ensures Glue(ls[..k + 1]) == Glue(ls[..k]) + [NEWLINE] + ls[k]
  {
    var more := ls[..k + 1];
    assert more[..k] == ls[..k];
  }

  /** The further physical lines of an entry are put back together. */
  lemma {:induction false} ReadMoreLines(m: Mode, h: Hist, ls: seq<seq<Byte>>, k: nat)
    requires m.multiline && 0 < k <= |ls| && h.entries != []
    requires forall i :: 0 <= i < |ls| ==> Plain(ls[i]) && !IsStamp(ls[i], m.commentChar)
    ensures ReadLines(m, Reader(SetLast(h, Glue(ls[..k])), None), ls[k..]) == Reader(SetLast(h, Glue(ls)), None)
    decreases |ls| - k
  {
    hide ReadLines, ReadLine, Plain, IsStamp, Glue;
    var h0 := SetLast(h, Glue(ls[..k]));
    if k == |ls| {
      assert ls[k..] == [] && ls[..k] == ls;
      ReadNothing(m, Reader(h0, None));
    } else {
      AppendPlain(m, h0, ls[k]);
      GlueSnoc(ls, k);
      SetTwice(h, Glue(ls[..k]), Glue(ls[..k + 1]));
      ReadFrom(m, Reader(h0, None), ls, k);
      ReadMoreLines(m, h, ls, k + 1);
    }
  }

  lemma ReadEntry(m: Mode, h: Hist, e: Entry)
    requires m.multiline && !h.stifled && Writable(e, m.commentChar) && e.data == 0
    ensures ReadLines(m, Reader(h, None), Split(EntryText(e, true))) == Reader(h.(entries := h.entries + [e]), None)
  {
    hide ReadLines, Glue, Split, EntryText;
    EntryLines(e, m.commentChar);
    var ls := Physical(e.line);
    GluePhysical(e.line);
    var all := [e.timestamp] + ls;
    assert all[0..] == all && all[1..] == ls && all[2..] == ls[1..];
    var st1 := Reader(h, Some(e.timestamp));
    CutNothing(e.timestamp);
    assert ReadLine(m, Reader(h, None), e.timestamp) == st1;
    ReadFrom(m, Reader(h, None), all, 0);
    CutNothing(ls[0]);
    var h2 := h.(entries := h.entries + [Entry(ls[0], e.timestamp, 0)]);
    assert ReadLine(m, st1, ls[0]) == Reader(h2, None);
    ReadFrom(m, st1, all, 1);
    GlueOne(ls);
    assert SetLast(h2, Glue(ls[..1])) == h2;
    ReadMoreLines(m, h2, ls, 1);
    assert SetLast(h2, Glue(ls)).entries == h.entries + [e];
  }

  lemma GlueOne(ls: seq<seq<Byte>>)
    requires ls != []
    ensures Glue(ls[..1]) == ls[0]
  {
  }

  lemma {:induction false} FileEndsLine(es: seq<Entry>, stamps: bool)
    ensures EndsLine(FileText(es, stamps))
  {
  }

  /** Reading what was written into an unstifled list adds every entry, with its time stamp and all
      its lines. */
  lemma {:induction false} RoundTrip(m: Mode, h: Hist, es: seq<Entry>)
    requires m.multiline && !h.stifled
    requires forall i :: 0 <= i < |es| ==> Writable(es[i], m.commentChar) && es[i].data == 0
    ensures ReadLines(m, Reader(h, None), Split(FileText(es, true))) == Reader(h.(entries := h.entries + es), None)
  {
    hide Split, ReadLines, EntryText, Physical, EndsLine, Writable;
    if es == [] {
      SplitEmpty();
      ReadNothing(m, Reader(h, None));
      assert h.entries + es == h.entries;
    } else {
      var front, last := es[..|es| - 1], es[|es| - 1];
      RoundTrip(m, h, front);
      FileEndsLine(front, true);
      SplitConcat(FileText(front, true), EntryText(last, true));
      ReadConcat(m, Reader(h, None), Split(FileText(front, true)), Split(EntryText(last, true)));
      ReadEntry(m, h.(entries := h.entries + front), last);
      assert h.entries + front + [last] == h.entries + es;
    }
  }

  // ---- The whole of writing and reading ----

  const HASH: Byte := '#' as int

  /** The comment character that reading uses: `#` is guessed for a file that starts with a stamp. */
  function GuessedComment(text: seq<Byte>, commentChar: Byte): Byte {
    if commentChar == NUL && IsStamp(text, HASH) then HASH else commentChar
  }

  function ModeOf(text: seq<Byte>, commentChar: Byte, multiline: nat, stamps: bool, now: seq<Byte>): Mode {
    var c := GuessedComment(text, commentChar);
    Mode(c, multiline > 0 || (IsStamp(text, c) && stamps), now)
  }

  function ReadFile(m: Mode, h: Hist, text: seq<Byte>): Hist {
    ReadLines(m, Reader(h, None), Split(text)).hist
  }

  lemma {:induction false} FileStartsWithStamp(es: seq<Entry>, c: Byte)
    requires es != [] && Writable(es[0], c)
    ensures IsStamp(FileText(es, true), c)
  {
    hide Physical;
    if |es| > 1 {
      FileStartsWithStamp(es[..|es| - 1], c);
    }
  }

  /** A list written with time stamps and read back into an unstifled list is added to it whole,
      also when the comment character has to be guessed. */
  lemma WriteThenRead(es: seq<Entry>, h: Hist, commentChar: Byte, multiline: nat, now: seq<Byte>)
    requires !h.stifled
    requires var c := if commentChar == NUL then HASH else commentChar;
      forall i :: 0 <= i < |es| ==> Writable(es[i], c) && es[i].data == 0
    ensures var text := FileText(es, true);
      ReadFile(ModeOf(text, commentChar, multiline, true, now), h, text) == h.(entries := h.entries + es)
  {
    hide Split, ReadLines, Physical;
    var text := FileText(es, true);
    var m := ModeOf(text, commentChar, multiline, true, now);
    if es == [] {
      SplitEmpty();
      ReadNothing(m, Reader(h, None));
      assert h.entries + es == h.entries;
    } else {
      FileStartsWithStamp(es, if commentChar == NUL then HASH else commentChar);
      RoundTrip(m, h, es);
    }
  }

  /** Reading never has to append a line to an empty list. */
  predicate Safe(m: Mode, st: Reader, ls: seq<seq<Byte>>)
    decreases |ls|
  {
    ls != [] ==> (Appends(m, st, ls[0]) ==> st.hist.entries != []) && Safe(m, ReadLine(m, st, ls[0]), ls[1..])
  }

  predicate Appends(m: Mode, st: Reader, raw: seq<Byte>) {
    var s := Cleaned(raw);
    m.multiline && st.lastTs.None? && s != [] && !IsStamp(s, m.commentChar)
  }

  /** The lines of a file that are not empty, as C strings. */
  function Contents(ls: seq<seq<Byte>>): seq<seq<Byte>> {
    if ls == [] then []
    else (if Cleaned(ls[0]) == [] then [] else [Cleaned(ls[0])]) + Contents(ls[1..])
  }

  /** A list that can hold entries at all. */
  predicate HasRoom(h: Hist) {
    h.stifled ==> 0 < h.max && |h.entries| <= h.max
  }

  /** The file starts with a time stamp, if it has any text. */
  predicate StampFirst(m: Mode, ls: seq<seq<Byte>>) {
    var cs := Contents(ls);
    cs != [] ==> IsStamp(cs[0], m.commentChar)
  }

  /** For a list that can hold entries, reading is safe if and only if lines are not joined, or there is
      an entry to join them to, or a time stamp comes first. */
  lemma {:induction false} SafeIff(m: Mode, h: Hist, ts: Option<seq<Byte>>, ls: seq<seq<Byte>>)
    requires HasRoom(h)
    ensures Safe(m, Reader(h, ts), ls) <==> !m.multiline || h.entries != [] || ts.Some? || StampFirst(m, ls)
    decreases |ls|
  {
    hide Cleaned, IsStamp;
    if ls != [] {
      var st := ReadLine(m, Reader(h, ts), ls[0]);
      SafeIff(m, st.hist, st.lastTs, ls[1..]);
    }
  }

  /** The same for a file: the comment character and the mode are those that reading works out. */
  lemma SafeFile(h: Hist, text: seq<Byte>, commentChar: Byte, multiline: nat, stamps: bool, now: seq<Byte>)
    requires HasRoom(h)
    ensures var m := ModeOf(text, commentChar, multiline, stamps, now);
      Safe(m, Reader(h, None), Split(text)) <==> !m.multiline || h.entries != [] || StampFirst(m, Split(text))
  {
    SafeIff(ModeOf(text, commentChar, multiline, stamps, now), h, None, Split(text));
  }

  lemma {:induction false} FileCons(es: seq<Entry>, stamps: bool)
    requires es != []
    ensures FileText(es, stamps) == EntryText(es[0], stamps) + FileText(es[1..], stamps)
    decreases |es|
  {
    hide EntryText;
    if |es| == 1 {
      assert es[1..] == [] && es[..0] == [];
      assert [] + EntryText(es[0], stamps) == EntryText(es[0], stamps) + [];
    } else {
      var front, last := es[..|es| - 1], es[|es| - 1];
      FileCons(front, stamps);
      assert es[1..][..|es| - 2] == front[1..];
      var a, b, c := EntryText(es[0], stamps), FileText(front[1..], stamps), EntryText(last, stamps);
      assert a + b + c == a + (b + c);
    }
  }

  /** A file of writable entries is read safely into any list that can hold entries. */
  lemma WrittenIsSafe(m: Mode, h: Hist, es: seq<Entry>)
    requires HasRoom(h) && forall i :: 0 <= i < |es| ==> Writable(es[i], m.commentChar)
    ensures Safe(m, Reader(h, None), Split(FileText(es, true)))
  {
    hide Split, Safe, EntryText, FileText, Physical;
    var ls := Split(FileText(es, true));
    SafeIff(m, h, None, ls);
    if es == [] {
      NoFile();
    } else {
      FileCons(es, true);
      EntryEndsLine(es[0]);
      SplitConcat(EntryText(es[0], true), FileText(es[1..], true));
      EntryLines(es[0], m.commentChar);
      assert ls[0] == es[0].timestamp;
      CutNothing(es[0].timestamp);
    }
  }

  lemma NoFile()
    ensures Split(FileText([], true)) == []
  {
  }

  lemma EntryEndsLine(e: Entry)
    ensures EndsLine(EntryText(e, true))
  {
  }

  /** So what `WriteThenRead` writes is read safely. */
  lemma WriteThenReadIsSafe(es: seq<Entry>, h: Hist, commentChar: Byte, multiline: nat, now: seq<Byte>)
    requires HasRoom(h)
    requires var c := if commentChar == NUL then HASH else commentChar;
      forall i :: 0 <= i < |es| ==> Writable(es[i], c)
    ensures var text := FileText(es, true);
      Safe(ModeOf(text, commentChar, multiline, true, now), Reader(h, None), Split(text))
  {
    hide Split, Safe, Physical, FileText;
    if es == [] {
      NoFile();
      NothingIsSafe(ModeOf(FileText(es, true), commentChar, multiline, true, now), Reader(h, None));
    } else {
      FileStartsWithStamp(es, if commentChar == NUL then HASH else commentChar);
      WrittenIsSafe(ModeOf(FileText(es, true), commentChar, multiline, true, now), h, es);
    }
  }

  lemma NothingIsSafe(m: Mode, st: Reader)
    ensures Safe(m, st, [])
  {
  }

  /** Line `i` is a time stamp or follows one; `pending` is for the first line. */
  predicate Led(c: Byte, pending: bool, cs: seq<seq<Byte>>, i: nat)
    requires i < |cs|
  {
    IsStamp(cs[i], c) || if i == 0 then pending else IsStamp(cs[i - 1], c)
  }

  predicate StampBeforeEach(c: Byte, pending: bool, cs: seq<seq<Byte>>) {
    forall i :: 0 <= i < |cs| ==> Led(c, pending, cs, i)
  }

  lemma StampBeforeCons(c: Byte, pending: bool, x: seq<Byte>, cs: seq<seq<Byte>>)
    ensures StampBeforeEach(c, pending, [x] + cs) <==>
            (IsStamp(x, c) || pending) && StampBeforeEach(c, IsStamp(x, c), cs)
  {
    hide IsStamp;
    var all := [x] + cs;
    assert Led(c, pending, all, 0) <==> IsStamp(x, c) || pending;
    forall i | 0 <= i < |cs| ensures Led(c, IsStamp(x, c), cs, i) <==> Led(c, pending, all, i + 1) {
      assert all[i + 1] == cs[i] && all[i] == if i == 0 then x else cs[i - 1];
    }
    if StampBeforeEach(c, IsStamp(x, c), cs) {
      forall i | 0 < i < |all| ensures Led(c, pending, all, i) {
        assert Led(c, IsStamp(x, c), cs, i - 1);
      }
    }
  }

  /** A list whose maximum is 0 stays empty, so joining lines is safe if and only if there are none to join. */
  lemma {:induction false} SafeIffNoRoom(m: Mode, h: Hist, ts: Option<seq<Byte>>, ls: seq<seq<Byte>>)
    requires h.stifled && h.max == 0 && h.entries == []
    ensures Safe(m, Reader(h, ts), ls) <==> !m.multiline || StampBeforeEach(m.commentChar, ts.Some?, Contents(ls))
    decreases |ls|
  {
    hide Cleaned, IsStamp, StampBeforeEach;
    if ls == [] {
      NoneBefore(m.commentChar, ts.Some?);
    } else {
      var st := ReadLine(m, Reader(h, ts), ls[0]);
      SafeIffNoRoom(m, st.hist, st.lastTs, ls[1..]);
      if Cleaned(ls[0]) != [] {
        StampBeforeCons(m.commentChar, ts.Some?, Cleaned(ls[0]), Contents(ls[1..]));
      } else {
        assert Contents(ls) == Contents(ls[1..]);
      }
    }
  }

  lemma NoneBefore(c: Byte, pending: bool)
    ensures StampBeforeEach(c, pending, [])
  {
  }

  /** A plain line read into an empty list, after an earlier file has turned the joining of lines on. */
  lemma UnsafeExample(stamps: bool, now: seq<Byte>)
    ensures !Safe(ModeOf([97, 10], HASH, 1, stamps, now), Reader(START, None), Split([97, 10]))
  {
    var m := ModeOf([97, 10], HASH, 1, stamps, now);
    SplitLine([97], []);
    SplitEmpty();
    assert [97] + [NEWLINE] + [] == [97, 10];
    assert Cleaned([97]) == [97] by {
      CutNothing([97]);
    }
    SafeFile(START, [97, 10], HASH, 1, stamps, now);
  }

  /** The count that reading reports: all lines but the time stamps. */
  function CountRead(c: Byte, ls: seq<seq<Byte>>): nat {
    if ls == [] then 0
    else (if Cleaned(ls[0]) != [] && IsStamp(Cleaned(ls[0]), c) then 0 else 1) + CountRead(c, ls[1..])
  }

  // ---- Lines and time stamps by their characters ----

  /** The comment character and a digit (48 to 57) start a time stamp. */
  predicate LooksLikeStamp(s: seq<Byte>, commentChar: Byte) {
    |s| > 1 && s[0] == commentChar && 48 <= s[1] <= 57
  }

  /** Such a line is kept for the next entry. */
  lemma StampReads(m: Mode, st: Reader, s: seq<Byte>)
    requires Plain(s) && LooksLikeStamp(s, m.commentChar)
    ensures ReadLine(m, st, s) == Reader(st.hist, Some(s))
  {
    CutNothing(s);
  }

  /** Any other line is an entry, with the time stamp before it or the time of reading; when lines are joined
      it needs the time stamp, and otherwise goes on the entry before it. */
  lemma LineReads(m: Mode, h: Hist, ts: seq<Byte>, s: seq<Byte>)
    requires Plain(s) && !LooksLikeStamp(s, m.commentChar) && !h.stifled
    ensures ReadLine(m, Reader(h, Some(ts)), s) ==
            Reader(h.(entries := h.entries + [Entry(s, ts, 0)]), None)
    ensures !m.multiline ==>
      ReadLine(m, Reader(h, None), s) == Reader(h.(entries := h.entries + [Entry(s, m.now, 0)]), None)
    ensures m.multiline && h.entries != [] ==>
      var n := |h.entries| - 1;
      var last := h.entries[n].(line := h.entries[n].line + [10] + s);
      ReadLine(m, Reader(h, None), s) == Reader(h.(entries := h.entries[n := last]), None)
  {
    CutNothing(s);
    assert (h.entries + [Entry(s, m.now, 0)])[|h.entries| := Entry(s, ts, 0)] == h.entries + [Entry(s, ts, 0)];
  }

  /** An entry is written as its time stamp, if it has one and they are written, and its line. A file that
      starts with `#1` has `#` for its comment character where none is set, and joins lines. */
  lemma WritesAndGuesses(now: seq<Byte>)
    ensures FileText([Entry([97], [35, 49], 0)], true) == [35, 49, 10, 97, 10]
    ensures FileText([Entry([97], [35, 49], 0)], false) == [97, 10]
    ensures FileText([Entry([97], [], 0)], true) == [97, 10]
    ensures ModeOf([35, 49, 10, 97, 10], 0, 0, true, now) == Mode(35, true, now)
    ensures ModeOf([35, 49, 10, 97, 10], 0, 0, false, now) == Mode(35, false, now)
    ensures ModeOf([97, 10], 0, 0, true, now) == Mode(0, false, now)
  {
    OneEntryText(Entry([97], [35, 49], 0), true);
    OneEntryText(Entry([97], [35, 49], 0), false);
    OneEntryText(Entry([97], [], 0), true);
  }

  lemma OneEntryText(e: Entry, stamps: bool)
    ensures FileText([e], stamps) == EntryText(e, stamps)
  {
    var none: seq<Entry> := [];
    assert [e][..0] == none && FileText(none, stamps) == [];
  }

  // ---- Keeping the last lines ----

  /** Position `p` ends a line that truncation counts: no time stamp follows it. */
  predicate Counted(text: seq<Byte>, commentChar: Byte, p: nat)
    requires p < |text|
  {
    text[p] == NEWLINE && !IsStamp(text[p + 1..], commentChar)
  }

  /** The counted line ends from `p` on. */
  function Ends(text: seq<Byte>, commentChar: Byte, p: nat): nat
    requires p <= |text|
    decreases |text| - p
  {
    if p == |text| then 0
    else (if Counted(text, commentChar, p) then 1 else 0) + Ends(text, commentChar, p + 1)
  }

  predicate NoStamps(text: seq<Byte>, commentChar: Byte) {
    forall p :: 0 <= p < |text| && text[p] == NEWLINE ==> Counted(text, commentChar, p)
  }

  lemma SplitOne(s: seq<Byte>)
    requires s != []
    ensures |Split(s)| == (if s[0] == NEWLINE then 1 else 0) + |Split(s[1..])|
  {
    if s[0] == NEWLINE {
      SplitLine([], s[1..]);
      assert s == [] + [NEWLINE] + s[1..];
    } else {
      var e, f := FirstNewline(s), FirstNewline(s[1..]);
      assert e == f + 1;
      if e < |s| {
        assert s[1..][f + 1..] == s[e + 1..];
      }
    }
  }

  lemma {:induction false} EndsAreLines(text: seq<Byte>, commentChar: Byte, p: nat)
    requires NoStamps(text, commentChar) && p <= |text|
    ensures Ends(text, commentChar, p) == |Split(text[p..])|
    decreases |text| - p
  {
    hide Split;
    if p == |text| {
      SplitEmpty();
      assert text[p..] == [];
    } else {
      SplitOne(text[p..]);
      assert text[p..][1..] == text[p + 1..];
      EndsAreLines(text, commentChar, p + 1);
    }
  }

  /** Where truncation to `lines` lines starts to copy a file. */
  predicate CutAt(text: seq<Byte>, commentChar: Byte, lines: int, start: nat)
    requires text != []
  {
    && start <= |text| && start != 1
    && if start > 0 then Counted(text, commentChar, start - 1) && Ends(text, commentChar, start) == lines
       else lines < 0 || Ends(text, commentChar, 1) <= lines
  }

  function LastLines(ls: seq<seq<Byte>>, n: nat): seq<seq<Byte>> {
    if |ls| <= n then ls else ls[|ls| - n..]
  }

  /** Without time stamps, the truncated file has exactly the last lines of the file, or all of them
      when there are fewer; only an empty first line is kept by mistake. */
  lemma TruncationKeepsLastLines(text: seq<Byte>, commentChar: Byte, lines: nat, start: nat)
    requires text != [] && NoStamps(text, commentChar) && CutAt(text, commentChar, lines, start)
    ensures Split(text[start..]) == LastLines(Split(text), lines)
       <==> !(text[0] == NEWLINE && |Split(text)| == lines + 1)
  {
    hide Split, Ends, NoStamps;
    EndsAreLines(text, commentChar, start);
    EndsAreLines(text, commentChar, 1);
    SplitOne(text);
    if start > 0 {
      var head, tail := text[..start], text[start..];
      assert text == head + tail && EndsLine(head) && EndsLine(head[1..]);
      SplitConcat(head, tail);
      SplitOne(head);
      HasLine(head);
      HasLine(head[1..]);
      assert Split(text)[|Split(head)|..] == Split(tail);
    } else {
      assert text[start..] == text;
    }
  }

  /** A file that starts with an empty line: truncating it to one line keeps both. */
  lemma EmptyLineIsKept(commentChar: Byte)
    requires !IsDigit(commentChar)
    ensures var text := [10, 97, 10];
      && CutAt(text, commentChar, 1, 0) && NoStamps(text, commentChar)
      && Split(text[0..]) == [[], [97]] && LastLines(Split(text), 1) == [[97]]
  {
    var text: seq<Byte> := [10, 97, 10];
    SplitEmpty();
    SplitLine([97], []);
    SplitLine([], [97, 10]);
    assert [97] + [NEWLINE] + [] == [97, 10] && [] + [NEWLINE] + [97, 10] == text;
    assert text[0..] == text && text[1..] == [97, 10];
    EndsAreLines(text, commentChar, 1);
  }

  /** Every line its own entry. */
  function OneEach(ls: seq<seq<Byte>>, now: seq<Byte>): seq<Entry> {
    seq(|ls|, i requires 0 <= i < |ls| => Entry(ls[i], now, 0))
  }

  lemma {:induction false} ReadPlainLines(m: Mode, h: Hist, ls: seq<seq<Byte>>)
    requires !m.multiline && !h.stifled
    requires forall i :: 0 <= i < |ls| ==> Plain(ls[i]) && !IsStamp(ls[i], m.commentChar)
    ensures ReadLines(m, Reader(h, None), ls) == Reader(h.(entries := h.entries + OneEach(ls, m.now)), None)
    decreases |ls|
  {
    hide Plain, IsStamp, ReadLines, ReadLine;
    if ls == [] {
      ReadNothing(m, Reader(h, None));
      assert h.entries + OneEach(ls, m.now) == h.entries;
    } else {
      var h1 := h.(entries := h.entries + [Entry(ls[0], m.now, 0)]);
      AddPlain(m, h, ls[0]);
      assert ls[0..] == ls;
      ReadFrom(m, Reader(h, None), ls, 0);
      ReadPlainLines(m, h1, ls[1..]);
      assert h1.entries + OneEach(ls[1..], m.now) == h.entries + OneEach(ls, m.now);
    }
  }

  lemma AddPlain(m: Mode, h: Hist, s: seq<Byte>)
    requires !m.multiline && !h.stifled && Plain(s) && !IsStamp(s, m.commentChar)
    ensures ReadLine(m, Reader(h, None), s) == Reader(h.(entries := h.entries + [Entry(s, m.now, 0)]), None)
  {
    CutNothing(s);
  }

  /** Truncating a file of plain lines and reading it back adds exactly its last lines. */
  lemma TruncateThenRead(text: seq<Byte>, m: Mode, lines: nat, start: nat, h: Hist)
    requires text != [] && NoStamps(text, m.commentChar) && CutAt(text, m.commentChar, lines, start)
    requires !m.multiline && !h.stifled
    requires var ls := Split(text);
      forall i :: 0 <= i < |ls| ==> Plain(ls[i]) && !IsStamp(ls[i], m.commentChar)
    ensures ReadFile(m, h, text[start..]) == h.(entries := h.entries + OneEach(LastLines(Split(text), lines), m.now))
  {
    hide Split, ReadLines, NoStamps, CutAt, IsStamp;
    assert text[0] == NEWLINE ==> Split(text) != [] && Split(text)[0] == [] by {
      if text[0] == NEWLINE {
        FirstLineEmpty(text);
      }
    }
    TruncationKeepsLastLines(text, m.commentChar, lines, start);
    ReadPlainLines(m, h, LastLines(Split(text), lines));
  }

  lemma FirstLineEmpty(text: seq<Byte>)
    requires text != [] && text[0] == NEWLINE
    ensures Split(text) != [] && Split(text)[0] == []
  {
  }

  lemma HasLine(s: seq<Byte>)
    requires s != [] && EndsLine(s)
    ensures Split(s) != []
  {
    assert FirstNewline(s) < |s|;
  }
}

module HistoryFile {
  import opened Chars
  import opened HistorySpec
  import opened HistoryList
  import opened HistoryFileSpec

  // ---- Writing ----

  /** `strcpy` into a buffer that is known to be long enough, then a newline over the terminator. */
  method CopyLine(buffer: array<Byte>, j: nat, s: seq<Byte>)
    requires j + |s| < buffer.Length
    modifies buffer
    ensures buffer[..j + |s| + 1] == old(buffer[..j]) + (s + [NEWLINE])
  {
    ghost var was := buffer[..j];
    var k := 0;
    while k < |s|
      invariant 0 <= k <= |s|
      invariant buffer[..j] == was && forall i :: 0 <= i < k ==> buffer[j + i] == s[i]
    {
      buffer[j + k] := s[k];
      k := k + 1;
    }
    buffer[j + |s|] := NUL;
    buffer[j + |s|] := NEWLINE;
  }

  /** The buffer size that `history_do_write` computes before it fills the buffer. */
  method BufferSize(h: History, from: nat, stamps: bool) returns (size: nat)
    requires h.Valid() && from <= h.length
    ensures size == |FileText(h.entries[from..], stamps)|
  {
    size := 0;
    var i := from;
    while i < h.length
      invariant from <= i <= h.length
      invariant size == |FileText(h.entries[from..i], stamps)|
    {
      var e := h.theHistory[i].entry;
      FileSnoc(h.entries, from, i, stamps);
      if stamps && |e.timestamp| > 0 {
        size := size + |e.timestamp| + 1;
      }
      size := size + |e.line| + 1;
      i := i + 1;
    }
    assert h.entries[from..i] == h.entries[from..];
  }

  lemma FileSnoc(es: seq<Entry>, from: nat, i: nat, stamps: bool)
    requires from <= i < |es|
    ensures FileText(es[from..i + 1], stamps) == FileText(es[from..i], stamps) + EntryText(es[i], stamps)
  {
    var more := es[from..i + 1];
    assert more[..|more| - 1] == es[from..i];
  }

  lemma {:induction false} FilePrefix(es: seq<Entry>, i: nat, stamps: bool)
    requires i <= |es|
    ensures FileText(es[..i], stamps) <= FileText(es, stamps)
    decreases |es|
  {
    if i == |es| {
      assert es[..i] == es;
    } else {
      var front := es[..|es| - 1];
      FilePrefix(front, i, stamps);
      assert front[..i] == es[..i];
    }
  }

  /** `history_do_write` up to the system call: the last `nelements` entries, in a buffer of exactly
      the size that was computed first. */
  method DoWrite(h: History, nelements: nat, stamps: bool) returns (buffer: array<Byte>)
    requires h.Valid()
    ensures fresh(buffer)
    ensures var n := if nelements > h.length then h.length else nelements;
      buffer[..] == FileText(h.entries[h.length - n..], stamps)
  {
    hide FileText, EntryText;
    var from := h.length - if nelements > h.length then h.length else nelements;
    ghost var es := h.entries[from..];
    var size := BufferSize(h, from, stamps);
    buffer := new Byte[size];
    var j, i := 0, from;
    assert es[..0] == [];
    NoText(stamps);
    while i < h.length
      invariant from <= i <= h.length && h.Valid() && fresh(buffer) && es == h.entries[from..]
      invariant 0 <= j <= size == buffer.Length && buffer[..j] == FileText(es[..i - from], stamps)
    {
      var e := h.theHistory[i].entry;
      FileSnoc(es, 0, i - from, stamps);
      FilePrefix(es, i - from + 1, stamps);
      j := WriteEntry(buffer, j, e, stamps);
      i := i + 1;
    }
    assert es[..i - from] == es;
    assert buffer[..j] == buffer[..];
  }

  lemma NoText(stamps: bool)
    ensures FileText([], stamps) == []
  {
  }

  method WriteEntry(buffer: array<Byte>, j0: nat, e: Entry, stamps: bool) returns (j: nat)
    requires j0 + |EntryText(e, stamps)| <= buffer.Length
    modifies buffer
    ensures j == j0 + |EntryText(e, stamps)|
    ensures buffer[..j] == old(buffer[..j0]) + EntryText(e, stamps)
  {
    ghost var before := buffer[..j0];
    ghost var stamp := if stamps && e.timestamp != [] then e.timestamp + [NEWLINE] else [];
    j := j0;
    if stamps && |e.timestamp| > 0 {
      CopyLine(buffer, j, e.timestamp);
      j := j + |e.timestamp| + 1;
    }
    assert buffer[..j] == before + stamp;
    CopyLine(buffer, j, e.line);
    j := j + |e.line| + 1;
    assert before + stamp + (e.line + [NEWLINE]) == before + EntryText(e, stamps);
  }

  // ---- Reading ----

  /** The C string at a position of a buffer. */
  predicate StringAt(text: seq<Byte>, i: nat, s: seq<Byte>) {
    && i + |s| < |text| && text[i + |s|] == NUL && NulFree(s)
    && forall j :: 0 <= j < |s| ==> text[i + j] == s[j]
  }

  method ReadString(buffer: array<Byte>, i: nat, ghost there: seq<Byte>) returns (s: seq<Byte>)
    requires StringAt(buffer[..], i, there)
    ensures s == there
  {
    s := [];
    while buffer[i + |s|] != NUL
      invariant |s| <= |there| && s == there[..|s|]
      invariant |s| < |there| ==> buffer[i + |s|] == there[|s|] != NUL
      decreases |there| - |s|
    {
      s := s + [buffer[i + |s|]];
    }
  }

  /** Turn the end of the line `lineStart..lineEnd` into a terminator. */
  method EndLine(buffer: array<Byte>, lineStart: nat, lineEnd: nat)
    requires lineStart <= lineEnd < buffer.Length && buffer[lineEnd] == NEWLINE
    modifies buffer
    ensures forall k :: 0 <= k < lineStart || lineEnd < k < buffer.Length ==> buffer[k] == old(buffer[k])
    ensures StringAt(buffer[..], lineStart, Cleaned(old(buffer[lineStart..lineEnd])))
    ensures lineStart + |Cleaned(old(buffer[lineStart..lineEnd]))| <= lineEnd
  {
    hide CutAtNul, StringAt;
    ghost var raw := buffer[lineStart..lineEnd];
    if lineEnd > lineStart && buffer[lineEnd - 1] == RETURN {
      buffer[lineEnd - 1] := NUL;
      Terminated(buffer[..], lineStart, raw[..|raw| - 1]);
    } else {
      buffer[lineEnd] := NUL;
      Terminated(buffer[..], lineStart, raw);
    }
  }

  lemma Terminated(text: seq<Byte>, i: nat, t: seq<Byte>)
    requires i + |t| < |text| && text[i + |t|] == NUL
    requires forall j :: 0 <= j < |t| ==> text[i + j] == t[j]
    ensures StringAt(text, i, CutAtNul(t))
  {
    hide CutAtNul;
    var s := CutAtNul(t);
    forall j | 0 <= j < |s| ensures text[i + j] == s[j] {
      assert s[j] == t[j];
    }
  }

  /** What a line does to the list. It is not `ok` when the line has to be joined to an entry that does
      not exist: the program then follows a pointer from before the array. */
  method TakeLine(h: History, s: seq<Byte>, lastTs: Option<seq<Byte>>, m: Mode, ghost raw: seq<Byte>) returns (ok: bool)
    requires h.Valid() && s == Cleaned(raw) && s != [] && !IsStamp(s, m.commentChar)
    modifies h, h.theHistory
    ensures h.Valid() && (h.theHistory == old(h.theHistory) || fresh(h.theHistory))
    ensures ok <==> !(lastTs.None? && m.multiline && old(h.length) == 0)
    ensures ok ==> ReadLine(m, Reader(old(h.Abs()), lastTs), raw) == Reader(h.Abs(), None)
  {
    ok := true;
    if lastTs.None? && m.multiline {
      if h.length == 0 {
        return false;
      }
      h.AppendHistoryLine(h.length - 1, s);
    } else {
      h.AddHistory(s, m.now);
    }
    if lastTs.Some? {
      h.AddHistoryTime(lastTs.value);
    }
  }

  /** `lastTs` points to the time stamp that the reader has seen, before `lineStart`. */
  predicate PointsTo(text: seq<Byte>, lastTs: Option<nat>, ts: Option<seq<Byte>>, lineStart: nat) {
    match ts
    case None => lastTs.None?
    case Some(s) => lastTs.Some? && lastTs.value + |s| < lineStart && StringAt(text, lastTs.value, s)
  }

  /** The body of the reading loop at the end of a line. */
  method GobbleLine(h: History, buffer: array<Byte>, lineStart: nat, lineEnd: nat, lastTs0: Option<nat>, m: Mode,
                    ghost st: Reader)
    returns (ok: bool, lastTs: Option<nat>, isStamp: bool)
    requires h.Valid() && h.Abs() == st.hist
    requires lineStart <= lineEnd < buffer.Length && buffer[lineEnd] == NEWLINE
    requires PointsTo(buffer[..], lastTs0, st.lastTs, lineStart)
    modifies h, h.theHistory, buffer
    ensures h.Valid() && (h.theHistory == old(h.theHistory) || fresh(h.theHistory))
    ensures ok <==> (Appends(m, st, old(buffer[lineStart..lineEnd])) ==> st.hist.entries != [])
    ensures forall k :: 0 <= k < lineStart || lineEnd < k < buffer.Length ==> buffer[k] == old(buffer[k])
    ensures ok ==>
      var st' := ReadLine(m, st, old(buffer[lineStart..lineEnd]));
      h.Abs() == st'.hist && PointsTo(buffer[..], lastTs, st'.lastTs, lineEnd + 1)
    ensures var s := Cleaned(old(buffer[lineStart..lineEnd]));
      isStamp == (s != [] && IsStamp(s, m.commentChar))
  {
    hide ReadLine, Cleaned;
    ghost var raw := buffer[lineStart..lineEnd];
    ok, lastTs, isStamp := true, lastTs0, false;
    EndLine(buffer, lineStart, lineEnd);
    var line := ReadString(buffer, lineStart, Cleaned(raw));
    if line == [] {
      SkipLine(m, st, raw);
    } else if IsStamp(line, m.commentChar) {
      lastTs, isStamp := Some(lineStart), true;
      StampLine(m, st, raw);
    } else {
      var stamp: Option<seq<Byte>> := None;
      if lastTs.Some? {
        var ts := ReadString(buffer, lastTs.value, st.lastTs.value);
        stamp := Some(ts);
      }
      ok := TakeLine(h, line, stamp, m, raw);
      lastTs := None;
    }
  }

  /** What reading makes of the first two bytes; behind the text stands a terminator. */
  method GuessMode(buffer: array<Byte>, commentChar: Byte, multiline: nat, stamps: bool, now: seq<Byte>)
    returns (m: Mode, multilineNow: nat)
    ensures m == ModeOf(buffer[..], commentChar, multiline, stamps, now) && (multilineNow > 0) == m.multiline
  {
    var n := buffer.Length;
    var first, second := if n > 0 then buffer[0] else NUL, if n > 1 then buffer[1] else NUL;
    var comment := if commentChar == NUL && first == HASH && IsDigit(second) then HASH else commentChar;
    var hasTimestamps := first == comment && IsDigit(second);
    multilineNow := multiline + if hasTimestamps && stamps then 1 else 0;
    m := Mode(comment, multilineNow > 0, now);
  }

  /** `read_history_range` from the first line to the last, on the bytes of the file. */
  method ReadHistory(h: History, buffer: array<Byte>, commentChar: Byte, multiline: nat, stamps: bool, now: seq<Byte>)
    returns (ok: bool, multilineNow: nat, linesRead: int)
    requires h.Valid()
    modifies h, h.theHistory, buffer
    ensures h.Valid()
    ensures var text := old(buffer[..]);
      var m := ModeOf(text, commentChar, multiline, stamps, now);
      && (multilineNow > 0) == m.multiline && (ok <==> Safe(m, Reader(old(h.Abs()), None), Split(text)))
      && (ok ==> h.Abs() == ReadFile(m, old(h.Abs()), text) && linesRead == CountRead(m.commentChar, Split(text)))
  {
    hide Split, ReadLines, ReadLine, Safe, Cleaned, Appends, StringAt, CountRead, ModeOf, IsStamp;
    ghost var text := buffer[..];
    var n := buffer.Length;
    var m;
    m, multilineNow := GuessMode(buffer, commentChar, multiline, stamps, now);
    var lineStart, lineEnd := 0, 0;
    var lastTs: Option<nat> := None;
    ghost var st0, st := Reader(h.Abs(), None), Reader(h.Abs(), None);
    assert text[0..] == text;
    ok, linesRead := true, 0;
    while lineEnd < n
      invariant h.Valid() && h.Abs() == st.hist && (h.theHistory == old(h.theHistory) || fresh(h.theHistory))
      invariant 0 <= lineStart <= lineEnd <= n == buffer.Length == |text| && linesRead <= lineStart && ok
      invariant forall k :: lineStart <= k < n ==> buffer[k] == text[k]
      invariant NEWLINE !in text[lineStart..lineEnd]
      invariant Onward(m, st0, text, 0, 0, st, lineStart, linesRead)
      invariant PointsTo(buffer[..], lastTs, st.lastTs, lineStart)
    {
      if buffer[lineEnd] == NEWLINE {
        ghost var raw := text[lineStart..lineEnd];
        assert buffer[lineStart..lineEnd] == raw;
        NextLine(m, st, text, lineStart, lineEnd, linesRead);
        var isStamp;
        ok, lastTs, isStamp := GobbleLine(h, buffer, lineStart, lineEnd, lastTs, m, st);
        if !ok {
          return;
        }
        if isStamp {
          linesRead := linesRead - 1;
        }
        st := ReadLine(m, st, raw);
        linesRead := linesRead + 1;
        if linesRead >= n {
          assert text[lineEnd + 1..] == [];
          SplitEmpty();
          LastLine(m, st);
          return;
        }
        lineStart := lineEnd + 1;
      }
      lineEnd := lineEnd + 1;
    }
    SplitNone(text[lineStart..]);
    LastLine(m, st);
  }

  /** Reading on from `st` at `i`, with `count` lines read, is what reading from `st0` at `i0` is. */
  ghost predicate Onward(m: Mode, st0: Reader, text: seq<Byte>, i0: nat, count0: int, st: Reader, i: nat, count: int)
    requires i0 <= |text| && i <= |text|
  {
    && Safe(m, st0, Split(text[i0..])) == Safe(m, st, Split(text[i..]))
    && ReadLines(m, st0, Split(text[i0..])) == ReadLines(m, st, Split(text[i..]))
    && count0 + CountRead(m.commentChar, Split(text[i0..])) == count + CountRead(m.commentChar, Split(text[i..]))
  }

  lemma LastLine(m: Mode, st: Reader)
    ensures Safe(m, st, []) && ReadLines(m, st, []) == st && CountRead(m.commentChar, []) == 0
  {
  }

  lemma SplitNone(s: seq<Byte>)
    requires NEWLINE !in s
    ensures Split(s) == []
  {
  }

  lemma NextLine(m: Mode, st: Reader, text: seq<Byte>, start: nat, end: nat, count: int)
    requires start <= end < |text| && NEWLINE !in text[start..end] && text[end] == NEWLINE
    ensures var raw := text[start..end];
      if Appends(m, st, raw) && st.hist.entries == [] then !Safe(m, st, Split(text[start..]))
      else Onward(m, st, text, start, count, ReadLine(m, st, raw), end + 1,
                  count + if Cleaned(raw) != [] && IsStamp(Cleaned(raw), m.commentChar) then 0 else 1)
  {
    hide ReadLine, Split, Appends, Cleaned;
    var raw, rest := text[start..end], text[end + 1..];
    assert text[start..] == raw + [NEWLINE] + rest;
    SplitLine(raw, rest);
    var ls := Split(text[start..]);
    assert ls[0] == raw && ls[1..] == Split(rest);
  }

  lemma SkipLine(m: Mode, st: Reader, raw: seq<Byte>)
    requires Cleaned(raw) == []
    ensures ReadLine(m, st, raw) == st
  {
  }

  lemma StampLine(m: Mode, st: Reader, raw: seq<Byte>)
    requires Cleaned(raw) != [] && IsStamp(Cleaned(raw), m.commentChar)
    ensures ReadLine(m, st, raw) == st.(lastTs := Some(Cleaned(raw)))
  {
  }

  // ---- Truncating ----

  /** `history_truncate_file`: the offset that it copies from, and the lines that it says it has written.
      At 0 the file is left as it is. */
  method TruncateFrom(buffer: array<Byte>, lines0: int, commentChar: Byte) returns (start: nat, written: int)
    requires buffer.Length > 0
    ensures CutAt(buffer[..], commentChar, lines0, start)
    ensures written == if start > 0 then lines0 else Ends(buffer[..], commentChar, 1)
  {
    ghost var text := buffer[..];
    var lines := lines0;
    var bp := buffer.Length - 1;
    var bp1 := bp;
    while lines != 0 && bp > 0
      invariant 0 <= bp <= bp1 < |text| && (bp1 == bp + 1 || bp1 == bp == |text| - 1)
      invariant lines + Ends(text, commentChar, bp + 1) == lines0
      invariant lines0 >= 0 ==> lines >= 0
      decreases bp
    {
      var stamp := StampAt(buffer, bp1, commentChar);
      if buffer[bp] == NEWLINE && !stamp {
        lines := lines - 1;
      }
      bp1 := bp;
      bp := bp - 1;
    }
    while bp > 0
      invariant 0 <= bp <= bp1 < |text| && (bp1 == bp + 1 || bp1 == bp == |text| - 1)
      invariant lines + Ends(text, commentChar, bp + 1) == lines0
      invariant lines0 >= 0 ==> lines >= 0
      invariant lines == 0 || bp == 0
      decreases bp
    {
      var stamp := StampAt(buffer, bp1, commentChar);
      if buffer[bp] == NEWLINE && !stamp {
        return bp + 1, lines0 - lines;
      }
      bp1 := bp;
      bp := bp - 1;
    }
    start, written := 0, lines0 - lines;
  }

  /** The macro `HIST_TIMESTAMP_START` at a position of a buffer; a terminator follows the text. */
  method StampAt(buffer: array<Byte>, i: nat, commentChar: Byte) returns (b: bool)
    requires i < buffer.Length
    ensures b == IsStamp(buffer[i..], commentChar)
  {
    b := buffer[i] == commentChar && IsDigit(if i + 1 < buffer.Length then buffer[i + 1] else NUL);
  }
}
