/** Truncating a history file that holds time stamps (readline/histfile.c). */
module HistoryTruncation {
  import opened Chars
  import opened HistorySpec
  import opened HistoryFileSpec

  // ---- What is left of the file ----

  function LinesText(ls: seq<seq<Byte>>): seq<Byte> {
    if ls == [] then [] else ls[0] + [NEWLINE] + LinesText(ls[1..])
  }

  /** Physical lines, and entries with their time stamps after them. */
  function Kept(ls: seq<seq<Byte>>, es: seq<Entry>): seq<Byte> {
    LinesText(ls) + FileText(es, true)
  }

  /** The physical lines of entries. */
  function Count(es: seq<Entry>): nat {
    if es == [] then 0 else |Physical(es[0].line)| + Count(es[1..])
  }

  predicate TextLine(l: seq<Byte>, c: Byte) {
    Plain(l) && NEWLINE !in l && !IsStamp(l, c)
  }

  predicate TextLines(ls: seq<seq<Byte>>, c: Byte) {
    forall i :: 0 <= i < |ls| ==> TextLine(ls[i], c)
  }

  lemma PhysicalLines(e: Entry, c: Byte)
    requires Writable(e, c)
    ensures Physical(e.line) != [] && TextLines(Physical(e.line), c)
  {
    hide Split, IsStamp, Plain;
    GluePhysical(e.line);
  }

  lemma {:induction false} SplitText(s: seq<Byte>)
    requires EndsLine(s)
    ensures LinesText(Split(s)) == s
    decreases |s|
  {
    hide Split, FirstNewline;
    if s == [] {
      SplitEmpty();
    } else {
      var e := FirstNewline(s);
      assert s[|s| - 1] == NEWLINE;
      var l, rest := s[..e], s[e + 1..];
      assert s == l + [NEWLINE] + rest;
      SplitText(rest);
      SplitLine(l, rest);
      assert ([l] + Split(rest))[1..] == Split(rest);
    }
  }

  lemma {:induction false} LinesSplit(ls: seq<seq<Byte>>, c: Byte)
    requires TextLines(ls, c)
    ensures Split(LinesText(ls)) == ls && EndsLine(LinesText(ls))
  {
    hide Split, Plain, IsStamp;
    if ls == [] {
      SplitEmpty();
    } else {
      assert TextLine(ls[0], c);
      LinesSplit(ls[1..], c);
      SplitLine(ls[0], LinesText(ls[1..]));
    }
  }

  lemma {:induction false} LinesTextConcat(a: seq<seq<Byte>>, b: seq<seq<Byte>>)
    ensures LinesText(a + b) == LinesText(a) + LinesText(b)
    decreases |a|
  {
    if a == [] {
      assert a + b == b;
    } else {
      LinesTextConcat(a[1..], b);
      assert (a + b)[1..] == a[1..] + b;
      var x, y, z := a[0] + [NEWLINE], LinesText(a[1..]), LinesText(b);
      assert x + y + z == x + (y + z);
    }
  }

  /** A file starts with a time stamp, and goes on with the lines of its first entry. */
  lemma FileIs(es: seq<Entry>, c: Byte)
    requires es != [] && Writable(es[0], c)
    ensures FileText(es, true) == es[0].timestamp + [NEWLINE] + Kept(Physical(es[0].line), es[1..])
  {
    hide Split, FileText;
    FileCons(es, true);
    var line := es[0].line + [NEWLINE];
    SplitText(line);
    var ts, rest := es[0].timestamp + [NEWLINE], FileText(es[1..], true);
    assert EntryText(es[0], true) == ts + line;
    assert ts + line + rest == ts + (line + rest);
  }

  // ---- Counting line ends ----

  lemma {:induction false} EndsSuffix(text: seq<Byte>, c: Byte, p: nat)
    requires p <= |text|
    ensures Ends(text, c, p) == Ends(text[p..], c, 0)
    decreases |text| - p
  {
    if p < |text| {
      var t := text[p..];
      EndsSuffix(text, c, p + 1);
      EndsSuffix(t, c, 1);
      assert t[1..] == text[p + 1..];
    } else {
      assert text[p..] == [];
    }
  }

  lemma EndsStep(t: seq<Byte>, c: Byte)
    requires t != []
    ensures Ends(t, c, 0) == (if t[0] == NEWLINE && !IsStamp(t[1..], c) then 1 else 0) + Ends(t[1..], c, 0)
  {
    EndsSuffix(t, c, 1);
  }

  /** The end of a line is counted unless a time stamp follows. */
  lemma {:induction false} LineEnds(x: seq<Byte>, rest: seq<Byte>, c: Byte)
    requires NEWLINE !in x
    ensures Ends(x + [NEWLINE] + rest, c, 0) == (if IsStamp(rest, c) then 0 else 1) + Ends(rest, c, 0)
    decreases |x|
  {
    hide Ends, IsStamp;
    var t := x + [NEWLINE] + rest;
    EndsStep(t, c);
    if x == [] {
      assert t[1..] == rest;
    } else {
      assert t[0] == x[0] && x[0] in x && t[1..] == x[1..] + [NEWLINE] + rest;
      LineEnds(x[1..], rest, c);
    }
  }

  lemma StampInFront(x: seq<Byte>, rest: seq<Byte>, c: Byte)
    requires x != []
    ensures IsStamp(x + [NEWLINE] + rest, c) <==> IsStamp(x, c)
  {
    var t := x + [NEWLINE] + rest;
    assert t[0] == x[0] && t[1] == if |x| > 1 then x[1] else NEWLINE;
  }

  /** Exactly the physical lines are counted, and they do not start with a time stamp. */
  lemma {:induction false} KeptEnds(ls: seq<seq<Byte>>, es: seq<Entry>, c: Byte)
    requires ls != [] && TextLines(ls, c) && AllWritable(es, c)
    ensures Ends(Kept(ls, es), c, 0) == |ls| + Count(es) && !IsStamp(Kept(ls, es), c)
    decreases |es|, |ls|
  {
    hide Ends, IsStamp, FileText, Physical;
    var rest := Kept(ls[1..], es);
    KeptCons(ls, es);
    assert TextLine(ls[0], c);
    StampInFront(ls[0], rest, c);
    LineEnds(ls[0], rest, c);
    if |ls| > 1 {
      KeptEnds(ls[1..], es, c);
    } else if es == [] {
      NothingKept(ls[1..], c);
    } else {
      FileIs(es, c);
      PhysicalLines(es[0], c);
      assert ls[1..] == [];
      var more := Kept(Physical(es[0].line), es[1..]);
      assert rest == es[0].timestamp + [NEWLINE] + more;
      StampInFront(es[0].timestamp, more, c);
      LineEnds(es[0].timestamp, more, c);
      KeptEnds(Physical(es[0].line), es[1..], c);
    }
  }

  lemma KeptCons(ls: seq<seq<Byte>>, es: seq<Entry>)
    requires ls != []
    ensures Kept(ls, es) == ls[0] + [NEWLINE] + Kept(ls[1..], es)
    ensures Kept([], es) == FileText(es, true)
  {
    hide FileText;
    var a, b, d := ls[0] + [NEWLINE], LinesText(ls[1..]), FileText(es, true);
    assert a + b + d == a + (b + d);
    assert LinesText([]) == [] && [] + d == d;
  }

  lemma NothingKept(ls: seq<seq<Byte>>, c: Byte)
    requires ls == []
    ensures Ends(Kept(ls, []), c, 0) == 0 && !IsStamp(Kept(ls, []), c) && Count([]) == 0
  {
  }

  lemma {:induction false} EndsPast(text: seq<Byte>, c: Byte, p: nat, q: nat)
    requires p < q <= |text| && Counted(text, c, q - 1)
    ensures Ends(text, c, p) >= 1 + Ends(text, c, q)
    decreases q - p
  {
    hide Counted;
    if p + 1 < q {
      EndsPast(text, c, p + 1, q);
    }
  }

  /** There is one place after a counted line end that leaves a number of line ends, and that is the cut. */
  lemma OnlyCut(text: seq<Byte>, c: Byte, lines: nat, start: nat, p: nat)
    requires text != [] && CutAt(text, c, lines, start)
    requires 1 < p <= |text| && Counted(text, c, p - 1) && Ends(text, c, p) == lines
    ensures start == p
  {
    hide Ends, Counted;
    EndsPast(text, c, 1, p);
    if 0 < start < p {
      EndsPast(text, c, start, p);
    } else if p < start {
      EndsPast(text, c, p, start);
    }
  }

  // ---- Where the cut is ----

  /** `kept` is what is left from line `j` of entry `k` on, which is `lines` physical lines. */
  predicate Keeps(es: seq<Entry>, k: nat, j: nat, lines: nat, kept: seq<Byte>) {
    && k < |es| && j < |Physical(es[k].line)|
    && |Physical(es[k].line)| - j + Count(es[k + 1..]) == lines
    && kept == Kept(Physical(es[k].line)[j..], es[k + 1..])
  }

  /** Each line of each entry has text before it, at least its time stamp. */
  lemma {:induction false} TextBefore(es: seq<Entry>, c: Byte, k: nat, j: nat) returns (pre: seq<Byte>)
    requires AllWritable(es, c) && k < |es| && j < |Physical(es[k].line)|
    ensures FileText(es, true) == pre + Kept(Physical(es[k].line)[j..], es[k + 1..])
    ensures |pre| > 1 && pre[|pre| - 1] == NEWLINE
    decreases k
  {
    hide FileText, IsStamp, Physical;
    var ts := es[0].timestamp + [NEWLINE];
    FileIs(es, c);
    if k == 0 {
      var ls := Physical(es[0].line);
      pre := ts + LinesText(ls[..j]);
      assert ls == ls[..j] + ls[j..];
      LinesTextConcat(ls[..j], ls[j..]);
      TwoParts(ts, LinesText(ls[..j]), LinesText(ls[j..]), FileText(es[1..], true));
      EndsInNewline(ts, ls[..j]);
    } else {
      var more := TextBefore(es[1..], c, k - 1, j);
      assert es[1..][k..] == es[k + 1..];
      var ls := LinesText(Physical(es[0].line));
      pre := ts + ls + more;
      TwoParts(ts, ls, more, Kept(Physical(es[k].line)[j..], es[k + 1..]));
    }
  }

  lemma TwoParts(a: seq<Byte>, b: seq<Byte>, c: seq<Byte>, d: seq<Byte>)
    ensures a + (b + c + d) == a + b + (c + d) && a + (b + (c + d)) == a + b + c + d
  {
  }

  lemma {:induction false} EndsInNewline(a: seq<Byte>, ls: seq<seq<Byte>>)
    requires a != [] && a[|a| - 1] == NEWLINE
    ensures var t := a + LinesText(ls); |t| >= |a| && t[|t| - 1] == NEWLINE
    decreases |ls|
  {
    if ls == [] {
      assert a + [] == a;
    } else {
      var b := a + (ls[0] + [NEWLINE]);
      EndsInNewline(b, ls[1..]);
      assert a + (ls[0] + [NEWLINE] + LinesText(ls[1..])) == b + LinesText(ls[1..]);
    }
  }

  /** Every number of lines up to all of them is what is left from some line of some entry on. */
  lemma {:induction false} SomeLine(es: seq<Entry>, lines: nat) returns (k: nat, j: nat)
    requires 0 < lines <= Count(es)
    ensures k < |es| && j < |Physical(es[k].line)| && |Physical(es[k].line)| - j + Count(es[k + 1..]) == lines
    decreases |es|
  {
    hide Physical;
    var n := Count(es[1..]);
    if lines <= n {
      k, j := SomeLine(es[1..], lines);
      assert es[1..][k + 1..] == es[k + 2..];
      k := k + 1;
    } else {
      k, j := 0, |Physical(es[0].line)| - (lines - n);
    }
  }

  lemma CutIsThere(es: seq<Entry>, c: Byte, k: nat, j: nat, lines: nat, start: nat)
    requires es != [] && AllWritable(es, c) && k < |es| && j < |Physical(es[k].line)|
    requires |Physical(es[k].line)| - j + Count(es[k + 1..]) == lines
    requires FileText(es, true) != [] && CutAt(FileText(es, true), c, lines, start)
    ensures start > 0 && FileText(es, true)[start..] == Kept(Physical(es[k].line)[j..], es[k + 1..])
  {
    hide FileText, Ends, IsStamp, Physical, CutAt;
    var text := FileText(es, true);
    var pre := TextBefore(es, c, k, j);
    var kept := Kept(Physical(es[k].line)[j..], es[k + 1..]);
    PhysicalLines(es[k], c);
    KeptEnds(Physical(es[k].line)[j..], es[k + 1..], c);
    var p := |pre|;
    assert text[p..] == kept && text[p - 1] == NEWLINE;
    EndsSuffix(text, c, p);
    OnlyCut(text, c, lines, start, p);
  }

  /** Truncating a file of writable entries keeps exactly the last physical lines, with the time stamps that
      stand between them; the time stamp of the oldest one is always cut off, also when the file had just
      that many lines. A file with fewer lines stays whole. */
  lemma StampedTruncation(es: seq<Entry>, c: Byte, lines: nat, start: nat)
    requires es != [] && AllWritable(es, c) && 0 < lines
    requires FileText(es, true) != [] && CutAt(FileText(es, true), c, lines, start)
    ensures if lines <= Count(es) then start > 0 && exists k: nat, j: nat :: Keeps(es, k, j, lines, FileText(es, true)[start..])
            else start == 0
  {
    hide FileText, Physical, CutAt, Keeps;
    if lines <= Count(es) {
      var k, j := SomeLine(es, lines);
      CutIsThere(es, c, k, j, lines, start);
      IsKept(es, k, j, lines);
    } else {
      FewerLines(es, c, lines, start);
    }
  }

  lemma IsKept(es: seq<Entry>, k: nat, j: nat, lines: nat)
    requires k < |es| && j < |Physical(es[k].line)| && |Physical(es[k].line)| - j + Count(es[k + 1..]) == lines
    ensures Keeps(es, k, j, lines, Kept(Physical(es[k].line)[j..], es[k + 1..]))
  {
  }

  lemma FewerLines(es: seq<Entry>, c: Byte, lines: nat, start: nat)
    requires es != [] && AllWritable(es, c) && lines > Count(es)
    requires FileText(es, true) != [] && CutAt(FileText(es, true), c, lines, start)
    ensures start == 0
  {
    hide FileText, Ends, IsStamp, Physical, Counted;
    var text, ls := FileText(es, true), Physical(es[0].line);
    FileIs(es, c);
    PhysicalLines(es[0], c);
    KeptEnds(ls, es[1..], c);
    LineEnds(es[0].timestamp, Kept(ls, es[1..]), c);
    if start > 0 {
      EndsPast(text, c, 0, start);
    }
  }

  // ---- The count that reading reports ----

  lemma {:induction false} CountBoth(c: Byte, a: seq<seq<Byte>>, b: seq<seq<Byte>>)
    ensures CountRead(c, a + b) == CountRead(c, a) + CountRead(c, b)
    decreases |a|
  {
    hide Cleaned, IsStamp;
    if a == [] {
      assert a + b == b;
    } else {
      assert (a + b)[1..] == a[1..] + b;
      CountBoth(c, a[1..], b);
    }
  }

  lemma {:induction false} CountLines(c: Byte, ls: seq<seq<Byte>>)
    requires TextLines(ls, c)
    ensures CountRead(c, ls) == |ls|
    decreases |ls|
  {
    if ls != [] {
      assert TextLine(ls[0], c);
      CutNothing(ls[0]);
      CountLines(c, ls[1..]);
    }
  }

  lemma CountStamp(c: Byte, ts: seq<Byte>)
    requires Plain(ts) && IsStamp(ts, c)
    ensures CountRead(c, [ts]) == 0
  {
    CutNothing(ts);
    assert CountRead(c, [ts][1..]) == 0;
  }

  /** Of a file of writable entries, reading reports the physical lines. */
  lemma {:induction false} CountIsLines(es: seq<Entry>, c: Byte)
    requires AllWritable(es, c)
    ensures CountRead(c, Split(FileText(es, true))) == Count(es)
    decreases |es|
  {
    hide Split, FileText, EntryText, CountRead, Plain, IsStamp;
    if es == [] {
      NoFile();
      CountLines(c, []);
    } else {
      var e, ls := es[0], Physical(es[0].line);
      FileCons(es, true);
      EntryEndsLine(e);
      SplitConcat(EntryText(e, true), FileText(es[1..], true));
      EntryLines(e, c);
      PhysicalLines(e, c);
      CountBoth(c, [e.timestamp] + ls, Split(FileText(es[1..], true)));
      CountBoth(c, [e.timestamp], ls);
      CountStamp(c, e.timestamp);
      CountLines(c, ls);
      CountIsLines(es[1..], c);
    }
  }

  // ---- Reading what is left ----

  /** An entry as it is read when lines are not joined: only its first line gets the time stamp. */
  function Singly(e: Entry, now: seq<Byte>): seq<Entry>
    requires Physical(e.line) != []
  {
    var ls := Physical(e.line);
    [Entry(ls[0], e.timestamp, 0)] + OneEach(ls[1..], now)
  }

  ghost function AllSingly(es: seq<Entry>, now: seq<Byte>): seq<Entry>
  {
    if es == [] then []
    else
      GluePhysical(es[|es| - 1].line);
      AllSingly(es[..|es| - 1], now) + Singly(es[|es| - 1], now)
  }

  lemma ReadSingly(m: Mode, h: Hist, e: Entry)
    requires !m.multiline && !h.stifled && Writable(e, m.commentChar) && Physical(e.line) != []
    ensures ReadLines(m, Reader(h, None), Split(EntryText(e, true))) ==
            Reader(h.(entries := h.entries + Singly(e, m.now)), None)
  {
    hide ReadLines, Split, EntryText;
    EntryLines(e, m.commentChar);
    var ls := Physical(e.line);
    var all := [e.timestamp] + ls;
    assert all[0..] == all && all[1..] == ls && all[2..] == ls[1..];
    var st1 := Reader(h, Some(e.timestamp));
    CutNothing(e.timestamp);
    assert ReadLine(m, Reader(h, None), e.timestamp) == st1;
    ReadFrom(m, Reader(h, None), all, 0);
    CutNothing(ls[0]);
    var h2 := h.(entries := h.entries + [Entry(ls[0], e.timestamp, 0)]);
    assert ReadLine(m, st1, ls[0]) == Reader(h2, None);
    ReadFrom(m, st1, all, 1);
    ReadPlainLines(m, h2, ls[1..]);
    assert h.entries + [Entry(ls[0], e.timestamp, 0)] + OneEach(ls[1..], m.now) == h.entries + Singly(e, m.now);
  }

  lemma {:induction false} ReadAllSingly(m: Mode, h: Hist, es: seq<Entry>)
    requires !m.multiline && !h.stifled && AllWritable(es, m.commentChar)
    ensures ReadLines(m, Reader(h, None), Split(FileText(es, true))) ==
            Reader(h.(entries := h.entries + AllSingly(es, m.now)), None)
  {
    hide Split, ReadLines, EntryText, Physical, EndsLine, Writable, Singly;
    if es == [] {
      SplitEmpty();
      ReadNothing(m, Reader(h, None));
      assert h.entries + [] == h.entries;
    } else {
      var front, last := es[..|es| - 1], es[|es| - 1];
      GluePhysical(last.line);
      ReadAllSingly(m, h, front);
      FileEndsLine(front, true);
      SplitConcat(FileText(front, true), EntryText(last, true));
      ReadConcat(m, Reader(h, None), Split(FileText(front, true)), Split(EntryText(last, true)));
      ReadSingly(m, h.(entries := h.entries + AllSingly(front, m.now)), last);
      assert h.entries + AllSingly(front, m.now) + Singly(last, m.now) == h.entries + AllSingly(es, m.now);
    }
  }

  lemma ReadKept(m: Mode, h: Hist, ls: seq<seq<Byte>>, es: seq<Entry>)
    requires !m.multiline && !h.stifled && TextLines(ls, m.commentChar) && AllWritable(es, m.commentChar)
    ensures ReadFile(m, h, Kept(ls, es)) ==
            h.(entries := h.entries + OneEach(ls, m.now) + AllSingly(es, m.now))
  {
    hide Split, ReadLines, FileText, AllSingly, Writable, IsStamp, Plain;
    LinesSplit(ls, m.commentChar);
    SplitConcat(LinesText(ls), FileText(es, true));
    ReadConcat(m, Reader(h, None), ls, Split(FileText(es, true)));
    assert forall i :: 0 <= i < |ls| ==> TextLine(ls[i], m.commentChar);
    ReadPlainLines(m, h, ls);
    ReadAllSingly(m, h.(entries := h.entries + OneEach(ls, m.now)), es);
  }

  /** Reading the truncated file, which does not start with a time stamp, does not join lines: the lines of
      the oldest entry that are left become entries of this moment, and of each later entry the first line
      has its time stamp. */
  lemma TruncateStampedThenRead(es: seq<Entry>, c: Byte, lines: nat, start: nat, h: Hist, stamps: bool, now: seq<Byte>)
    requires es != [] && AllWritable(es, c) && c != NUL && !h.stifled && 0 < lines <= Count(es)
    requires FileText(es, true) != [] && CutAt(FileText(es, true), c, lines, start)
    ensures var kept := FileText(es, true)[start..];
      exists k: nat, j: nat :: Keeps(es, k, j, lines, kept) &&
        ReadFile(ModeOf(kept, c, 0, stamps, now), h, kept) ==
        h.(entries := h.entries + OneEach(Physical(es[k].line)[j..], now) + AllSingly(es[k + 1..], now))
  {
    hide FileText, Physical, CutAt, Keeps, IsStamp, ReadLines, Split, AllSingly, Plain;
    var k, j := SomeLine(es, lines);
    CutIsThere(es, c, k, j, lines, start);
    IsKept(es, k, j, lines);
    PhysicalLines(es[k], c);
    var ls := Physical(es[k].line)[j..];
    KeptEnds(ls, es[k + 1..], c);
    ReadKept(Mode(c, false, now), h, ls, es[k + 1..]);
  }

  // ---- Entries of one line ----

  predicate OneLine(e: Entry) {
    NEWLINE !in e.line && e.data == 0
  }

  predicate OneLines(es: seq<Entry>) {
    forall i :: 0 <= i < |es| ==> OneLine(es[i])
  }

  lemma OnePhysical(e: Entry, now: seq<Byte>)
    requires OneLine(e)
    ensures Physical(e.line) == [e.line] && Singly(e, now) == [e]
  {
    hide Split;
    SplitLine(e.line, []);
    SplitEmpty();
    assert e.line + [NEWLINE] + [] == e.line + [NEWLINE];
    assert OneEach([e.line][1..], now) == [];
  }

  lemma {:induction false} OneLineEach(es: seq<Entry>, now: seq<Byte>)
    requires OneLines(es)
    ensures AllSingly(es, now) == es
    decreases |es|
  {
    hide Physical, Singly, OneLine;
    if es != [] {
      var front, last := es[..|es| - 1], es[|es| - 1];
      OneLineEach(front, now);
      OnePhysical(last, now);
      assert front + [last] == es;
    }
  }

  lemma {:induction false} OneLineCount(es: seq<Entry>)
    requires OneLines(es)
    ensures Count(es) == |es|
    decreases |es|
  {
    hide Physical, OneLine;
    if es != [] {
      OnePhysical(es[0], []);
      OneLineCount(es[1..]);
    }
  }

  /** For entries of one line, truncating to `lines` and reading gives the last entries, the oldest of them
      with a time stamp of this moment. */
  lemma OldestLosesStamp(es: seq<Entry>, c: Byte, lines: nat, start: nat, h: Hist, stamps: bool, now: seq<Byte>)
    requires AllWritable(es, c) && c != NUL && !h.stifled && 0 < lines <= |es| && OneLines(es)
    requires FileText(es, true) != [] && CutAt(FileText(es, true), c, lines, start)
    ensures var kept, n := FileText(es, true)[start..], |es| - lines;
      ReadFile(ModeOf(kept, c, 0, stamps, now), h, kept) ==
      h.(entries := h.entries + [es[n].(timestamp := now)] + es[n + 1..])
  {
    hide *;
    var n := |es| - lines;
    Later(es, c, n);
    OneLineCut(es, c, lines, start);
    ReadOneLines(es[n], es[n + 1..], c, h, stamps, now);
  }

  lemma OneLineCut(es: seq<Entry>, c: Byte, lines: nat, start: nat)
    requires AllWritable(es, c) && 0 < lines <= |es| && OneLines(es)
    requires FileText(es, true) != [] && CutAt(FileText(es, true), c, lines, start)
    ensures var n := |es| - lines; FileText(es, true)[start..] == Kept([es[n].line], es[n + 1..])
  {
    hide *;
    var n := |es| - lines;
    Later(es, c, n);
    OnePhysical(es[n], []);
    OneLineCount(es[n + 1..]);
    CutIsThere(es, c, n, 0, lines, start);
    assert [es[n].line][0..] == [es[n].line];
  }

  lemma ReadOneLines(e: Entry, later: seq<Entry>, c: Byte, h: Hist, stamps: bool, now: seq<Byte>)
    requires Writable(e, c) && OneLine(e) && AllWritable(later, c) && OneLines(later) && c != NUL && !h.stifled
    ensures var kept := Kept([e.line], later);
      ReadFile(ModeOf(kept, c, 0, stamps, now), h, kept) ==
      h.(entries := h.entries + [e.(timestamp := now)] + later)
  {
    hide *;
    OnePhysical(e, now);
    PhysicalLines(e, c);
    KeptEnds([e.line], later, c);
    NotJoined(Kept([e.line], later), c, stamps, now);
    ReadKept(Mode(c, false, now), h, [e.line], later);
    OneLineEach(later, now);
    OneNow(e, now);
  }

  lemma Later(es: seq<Entry>, c: Byte, n: nat)
    requires n < |es| && AllWritable(es, c) && OneLines(es)
    ensures Writable(es[n], c) && OneLine(es[n]) && AllWritable(es[n + 1..], c) && OneLines(es[n + 1..])
  {
    hide Writable, OneLine;
  }

  lemma NotJoined(kept: seq<Byte>, c: Byte, stamps: bool, now: seq<Byte>)
    requires !IsStamp(kept, c) && c != NUL
    ensures ModeOf(kept, c, 0, stamps, now) == Mode(c, false, now)
  {
  }

  lemma OneNow(e: Entry, now: seq<Byte>)
    requires OneLine(e)
    ensures OneEach([e.line], now) == [e.(timestamp := now)]
  {
  }
}
