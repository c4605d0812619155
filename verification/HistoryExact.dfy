/** Exactly which history lists survive being written to a file and read back (readline/histfile.c). */
module HistoryExact {
  import opened Chars
  import opened HistorySpec
  import opened HistoryFileSpec

  // ---- Nothing is lost only if every line is plain ----

  /** The bytes that entries take in a file, each with its time stamp. */
  function Weight(es: seq<Entry>): nat {
    if es == [] then 0 else Weight(es[..|es| - 1]) + WeightOf(es[|es| - 1])
  }

  function WeightOf(e: Entry): nat {
    |e.timestamp| + 1 + |e.line| + 1
  }

  lemma WeightSnoc(es: seq<Entry>, e: Entry)
    ensures Weight(es + [e]) == Weight(es) + WeightOf(e)
  {
    assert (es + [e])[..|es|] == es;
  }

  lemma WeightLast(es: seq<Entry>, e: Entry)
    requires es != []
    ensures Weight(es[|es| - 1 := e]) == Weight(es) - WeightOf(es[|es| - 1]) + WeightOf(e)
    ensures WeightOf(es[|es| - 1]) <= Weight(es)
  {
    assert es[|es| - 1 := e][..|es| - 1] == es[..|es| - 1];
  }

  lemma {:induction false} WeightSum(a: seq<Entry>, b: seq<Entry>)
    ensures Weight(a + b) == Weight(a) + Weight(b)
    decreases |b|
  {
    if b == [] {
      assert a + b == a;
    } else {
      var front := b[..|b| - 1];
      assert a + b == (a + front) + [b[|b| - 1]] && b == front + [b[|b| - 1]];
      WeightSum(a, front);
      WeightSnoc(a + front, b[|b| - 1]);
    }
  }

  function Total(st: Reader): nat {
    Weight(st.hist.entries) + if st.lastTs.Some? then |st.lastTs.value| + 1 else 0
  }

  function RawWeight(ls: seq<seq<Byte>>): nat {
    if ls == [] then 0 else |ls[0]| + 1 + RawWeight(ls[1..])
  }

  lemma {:induction false} LinesWeigh(s: seq<Byte>)
    requires EndsLine(s)
    ensures RawWeight(Split(s)) == |s|
    decreases |s|
  {
    hide FirstNewline;
    if s == [] {
      SplitEmpty();
    } else {
      var e := FirstNewline(s);
      assert s[|s| - 1] == NEWLINE;
      LinesWeigh(s[e + 1..]);
      assert Split(s)[1..] == Split(s[e + 1..]);
    }
  }

  lemma CleanedIsPlain(raw: seq<Byte>)
    ensures |Cleaned(raw)| <= |raw|
    ensures |Cleaned(raw)| == |raw| && raw != [] ==> Plain(raw)
  {
    hide CutAtNul;
  }

  /** A line adds at most its own length, and less if it is not plain. */
  lemma LineWeighs(m: Mode, st: Reader, raw: seq<Byte>)
    requires m.multiline && !st.hist.stifled
    ensures var st' := ReadLine(m, st, raw);
      && !st'.hist.stifled && Total(st') <= Total(st) + |raw| + 1
      && (Total(st') == Total(st) + |raw| + 1 ==> Plain(raw))
  {
    hide Weight, Plain;
    CleanedIsPlain(raw);
    var s, es := Cleaned(raw), st.hist.entries;
    hide Cleaned;
    if s == [] || IsStamp(s, m.commentChar) {
    } else if st.lastTs.Some? {
      WeightSnoc(es, Entry(s, m.now, 0));
      WeightLast(es + [Entry(s, m.now, 0)], Entry(s, st.lastTs.value, 0));
    } else if es != [] {
      var last := es[|es| - 1];
      WeightLast(es, last.(line := last.line + [NEWLINE] + s));
    }
  }

  lemma {:induction false} LinesAdd(m: Mode, st: Reader, ls: seq<seq<Byte>>)
    requires m.multiline && !st.hist.stifled
    ensures var st' := ReadLines(m, st, ls);
      && Total(st') <= Total(st) + RawWeight(ls)
      && (Total(st') == Total(st) + RawWeight(ls) ==> forall i :: 0 <= i < |ls| ==> Plain(ls[i]))
    decreases |ls|
  {
    if ls != [] {
      hide ReadLine, Plain, Total;
      LineWeighs(m, st, ls[0]);
      LinesAdd(m, ReadLine(m, st, ls[0]), ls[1..]);
      assert forall i :: 0 < i < |ls| ==> ls[i] == ls[1..][i - 1];
    }
  }

  // ---- What reading makes is stamped ----

  /** An entry with a time stamp of one line, and no line that looks like one. */
  ghost predicate Stamped(e: Entry, c: Byte) {
    && IsStamp(e.timestamp, c) && NEWLINE !in e.timestamp
    && var ls := Physical(e.line);
       forall i :: 0 <= i < |ls| ==> !IsStamp(ls[i], c)
  }

  ghost predicate StampedFrom(st: Reader, n: nat, c: Byte) {
    && n <= |st.hist.entries| && (forall i :: n <= i < |st.hist.entries| ==> Stamped(st.hist.entries[i], c))
    && (st.lastTs.Some? ==> IsStamp(st.lastTs.value, c) && NEWLINE !in st.lastTs.value)
  }

  lemma PhysicalMore(line: seq<Byte>, s: seq<Byte>)
    requires NEWLINE !in s
    ensures Physical(line + [NEWLINE] + s) == Physical(line) + [s] && Physical(s) == [s]
  {
    hide Split;
    SplitEmpty();
    SplitLine(s, []);
    assert s + [NEWLINE] + [] == s + [NEWLINE];
    SplitConcat(line + [NEWLINE], s + [NEWLINE]);
    assert line + [NEWLINE] + (s + [NEWLINE]) == line + [NEWLINE] + s + [NEWLINE];
  }

  lemma AppendStaysStamped(e: Entry, s: seq<Byte>, c: Byte)
    requires Stamped(e, c) && NEWLINE !in s && !IsStamp(s, c)
    ensures Stamped(e.(line := e.line + [NEWLINE] + s), c)
  {
    hide Physical, IsStamp;
    PhysicalMore(e.line, s);
  }

  lemma NewIsStamped(s: seq<Byte>, ts: seq<Byte>, c: Byte)
    requires NEWLINE !in s && !IsStamp(s, c) && IsStamp(ts, c) && NEWLINE !in ts
    ensures Stamped(Entry(s, ts, 0), c)
  {
    hide Physical, IsStamp;
    PhysicalMore([], s);
  }

  lemma CleanedStaysLine(raw: seq<Byte>)
    requires NEWLINE !in raw
    ensures NEWLINE !in Cleaned(raw)
  {
    hide CutAtNul;
    var s := Cleaned(raw);
    assert forall i :: 0 <= i < |s| ==> s[i] == raw[i];
  }

  lemma LineStaysStamped(m: Mode, st: Reader, raw: seq<Byte>, n: nat)
    requires m.multiline && !st.hist.stifled && NEWLINE !in raw && StampedFrom(st, n, m.commentChar)
    ensures StampedFrom(ReadLine(m, st, raw), n, m.commentChar) && !ReadLine(m, st, raw).hist.stifled
  {
    CleanedStaysLine(raw);
    var s, es := Cleaned(raw), st.hist.entries;
    hide Cleaned, IsStamp, Stamped;
    if s == [] || IsStamp(s, m.commentChar) {
    } else if st.lastTs.Some? {
      NewIsStamped(s, st.lastTs.value, m.commentChar);
    } else if |es| > n {
      AppendStaysStamped(es[|es| - 1], s, m.commentChar);
    }
  }

  lemma {:induction false} LinesStayStamped(m: Mode, st: Reader, ls: seq<seq<Byte>>, n: nat)
    requires m.multiline && !st.hist.stifled && StampedFrom(st, n, m.commentChar)
    requires forall i :: 0 <= i < |ls| ==> NEWLINE !in ls[i]
    ensures StampedFrom(ReadLines(m, st, ls), n, m.commentChar)
    decreases |ls|
  {
    if ls != [] {
      hide ReadLine, StampedFrom;
      LineStaysStamped(m, st, ls[0], n);
      LinesStayStamped(m, ReadLine(m, st, ls[0]), ls[1..], n);
    }
  }

  // ---- Both together ----

  lemma {:induction false} TextWeighs(es: seq<Entry>)
    ensures |FileText(es, true)| <= Weight(es)
  {
    if es != [] {
      TextWeighs(es[..|es| - 1]);
    }
  }

  predicate AllPlain(ls: seq<seq<Byte>>) {
    forall i :: 0 <= i < |ls| ==> Plain(ls[i])
  }

  lemma PlainParts(a: seq<seq<Byte>>, b: seq<seq<Byte>>)
    requires AllPlain(a + b)
    ensures AllPlain(a) && AllPlain(b)
  {
    hide Plain;
    forall i | 0 <= i < |a| ensures Plain(a[i]) {
      assert (a + b)[i] == a[i];
    }
    forall i | 0 <= i < |b| ensures Plain(b[i]) {
      assert (a + b)[|a| + i] == b[i];
    }
  }

  lemma {:induction false} PlainEntries(es: seq<Entry>, c: Byte)
    requires AllPlain(Split(FileText(es, true))) && forall i :: 0 <= i < |es| ==> Stamped(es[i], c)
    ensures forall i :: 0 <= i < |es| ==> Writable(es[i], c)
    decreases |es|
  {
    hide Split, EntryText, Plain, Stamped, Writable, AllPlain;
    if es != [] {
      var front, last := es[..|es| - 1], es[|es| - 1];
      FileEndsLine(front, true);
      SplitConcat(FileText(front, true), EntryText(last, true));
      PlainParts(Split(FileText(front, true)), Split(EntryText(last, true)));
      PlainEntries(front, c);
      PlainEntry(last, c);
    }
  }

  lemma PlainEntry(e: Entry, c: Byte)
    requires Stamped(e, c) && AllPlain(Split(EntryText(e, true)))
    ensures Writable(e, c)
  {
    hide Split, Plain;
    assert e.timestamp != [];
    SplitLine(e.timestamp, e.line + [NEWLINE]);
    assert EntryText(e, true) == e.timestamp + [NEWLINE] + (e.line + [NEWLINE]);
    assert Split(EntryText(e, true)) == [e.timestamp] + Physical(e.line);
    PlainParts([e.timestamp], Physical(e.line));
    assert Plain([e.timestamp][0]);
  }

  /** A list comes back from its file only if all its entries are writable. */
  lemma OnlyWritable(m: Mode, h: Hist, es: seq<Entry>)
    requires m.multiline && !h.stifled
    requires ReadFile(m, h, FileText(es, true)) == h.(entries := h.entries + es)
    ensures forall i :: 0 <= i < |es| ==> Writable(es[i], m.commentChar)
  {
    hide ReadFile, Split, Stamped, Plain, Writable, FileText;
    OnlyPlain(m, h, es);
    OnlyStamped(m, h, es);
    PlainEntries(es, m.commentChar);
  }

  lemma OnlyPlain(m: Mode, h: Hist, es: seq<Entry>)
    requires m.multiline && !h.stifled
    requires ReadFile(m, h, FileText(es, true)) == h.(entries := h.entries + es)
    ensures AllPlain(Split(FileText(es, true)))
  {
    hide ReadLines, Split, Plain, Weight, RawWeight, FileText;
    var text, st := FileText(es, true), Reader(h, None);
    FileEndsLine(es, true);
    LinesWeigh(text);
    TextWeighs(es);
    WeightSum(h.entries, es);
    LinesAdd(m, st, Split(text));
  }

  lemma OnlyStamped(m: Mode, h: Hist, es: seq<Entry>)
    requires m.multiline && !h.stifled
    requires ReadFile(m, h, FileText(es, true)) == h.(entries := h.entries + es)
    ensures forall i :: 0 <= i < |es| ==> Stamped(es[i], m.commentChar)
  {
    hide ReadLines, Split, Stamped, FileText;
    var st, ls := Reader(h, None), Split(FileText(es, true));
    LinesStayStamped(m, st, ls, |h.entries|);
    var all := ReadLines(m, st, ls).hist.entries;
    forall i | 0 <= i < |es| ensures Stamped(es[i], m.commentChar) {
      assert all[|h.entries| + i] == es[i];
    }
  }

  /** In multi-line mode, entries come back from their file if and only if all of them are writable. */
  lemma RoundTripIffWritable(m: Mode, h: Hist, es: seq<Entry>)
    requires m.multiline && !h.stifled && forall i :: 0 <= i < |es| ==> es[i].data == 0
    ensures ReadFile(m, h, FileText(es, true)) == h.(entries := h.entries + es)
       <==> forall i :: 0 <= i < |es| ==> Writable(es[i], m.commentChar)
  {
    hide ReadLines, Split, Writable, FileText;
    if ReadFile(m, h, FileText(es, true)) == h.(entries := h.entries + es) {
      OnlyWritable(m, h, es);
    }
    if forall i :: 0 <= i < |es| ==> Writable(es[i], m.commentChar) {
      RoundTrip(m, h, es);
    }
  }
}
