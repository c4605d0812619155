/** Writing a history list to a file and reading it into a new list (readline/histfile.c). */
module HistorySession {
  import opened Chars
  import opened HistorySpec
  import opened HistoryList
  import opened HistoryFileSpec
  import opened HistoryFile
  import HistoryExact

  /** Reading into a list without a limit changes nothing but its entries. */
  lemma {:induction false} OnlyEntriesChange(m: Mode, st: Reader, ls: seq<seq<Byte>>)
    requires !st.hist.stifled
    ensures var h := ReadLines(m, st, ls).hist; h == st.hist.(entries := h.entries)
    decreases |ls|
  {
    hide Cleaned, IsStamp;
    if ls != [] {
      OnlyEntriesChange(m, ReadLine(m, st, ls[0]), ls[1..]);
    }
  }

  /** The list that reading the file of `es` gives, and whether it can be read. */
  ghost predicate ComesBack(m: Mode, es: seq<Entry>) {
    var text := FileText(es, true);
    Safe(m, Reader(START, None), Split(text)) && ReadFile(m, START, text).entries == es
  }

  /** In multi-line mode, entries come back if and only if they are all writable. */
  lemma ComesBackIff(m: Mode, es: seq<Entry>)
    requires m.multiline && forall i :: 0 <= i < |es| ==> es[i].data == 0
    ensures ComesBack(m, es) <==> AllWritable(es, m.commentChar)
  {
    hide Safe, Split, ReadLines, FileText, Writable;
    HistoryExact.RoundTripIffWritable(m, START, es);
    OnlyEntriesChange(m, Reader(START, None), Split(FileText(es, true)));
    assert [] + es == es;
    if AllWritable(es, m.commentChar) {
      WrittenIsSafe(m, START, es);
    }
  }

  /** The last `nelements` entries of `h`, written with their time stamps and read into a new list. They come
      back if all are writable; in multi-line mode, only then. */
  method SaveAndLoad(h: History, nelements: nat, commentChar: Byte, multiline: nat, now: seq<Byte>)
    returns (ok: bool, h': History)
    requires h.Valid() && forall i :: 0 <= i < |h.entries| ==> h.entries[i].data == 0
    ensures fresh(h') && h'.Valid()
    ensures var es := h.entries[h.length - (if nelements > h.length then h.length else nelements)..];
      var m := ModeOf(FileText(es, true), commentChar, multiline, true, now);
      && (AllWritable(es, if commentChar == NUL then HASH else commentChar) ==> ok && h'.entries == es)
      && (m.multiline ==> (ok && h'.entries == es <==> AllWritable(es, m.commentChar)))
  {
    hide Safe, Split, ReadLines, FileText, Writable;
    ghost var es := h.entries[h.length - (if nelements > h.length then h.length else nelements)..];
    ghost var m := ModeOf(FileText(es, true), commentChar, multiline, true, now);
    var buffer := DoWrite(h, nelements, true);
    h' := new History();
    var mode, count;
    ok, mode, count := ReadHistory(h', buffer, commentChar, multiline, true, now);
    if m.multiline {
      ComesBackIff(m, es);
    }
    if AllWritable(es, if commentChar == NUL then HASH else commentChar) {
      WriteThenReadIsSafe(es, START, commentChar, multiline, now);
      WriteThenRead(es, START, commentChar, multiline, now);
      assert START.entries + es == es;
    }
  }
}
