/** The history list (readline/history.c). */
module HistorySpec {
  import opened Chars

  datatype Entry = Entry(line: seq<Byte>, timestamp: seq<Byte>, data: nat)

  /** The list as its users see it. `base` is the number of the first entry. */
  datatype Hist = Hist(entries: seq<Entry>, stifled: bool, max: nat, base: nat)

  const START := Hist([], false, 0, 1)

  datatype Op =
    | Add(entry: Entry)
    | Remove(which: int)
    | Replace(which: int, line: seq<Byte>, data: nat)
    | Stifle(newMax: int)
    | Unstifle

  function Dropped(h: Hist, max: nat): nat {
    if |h.entries| > max then |h.entries| - max else 0
  }

  function Without(s: seq<Entry>, which: nat): (r: seq<Entry>)
    requires which < |s|
    ensures |r| == |s| - 1 && forall i :: 0 <= i < |r| ==> r[i] == s[if i < which then i else i + 1]
  {
    s[..which] + s[which + 1..]
  }

  /** A full stifled list drops its oldest entry; stifling keeps the newest ones. */
  function Apply(h: Hist, op: Op): Hist {
    match op
    case Add(e) =>
      if !h.stifled || |h.entries| != h.max then h.(entries := h.entries + [e])
      else if h.entries == [] then h
      else h.(entries := h.entries[1..] + [e], base := h.base + 1)
    case Remove(which) =>
      if 0 <= which < |h.entries| then h.(entries := Without(h.entries, which)) else h
    case Replace(which, line, data) =>
      if 0 <= which < |h.entries|
      then h.(entries := h.entries[which := Entry(line, h.entries[which].timestamp, data)])
      else h
    case Stifle(newMax) =>
      var max := if newMax < 0 then 0 else newMax;
      var dropped := Dropped(h, max);
      h.(entries := h.entries[dropped..], stifled := true, max := max,
         base := if dropped > 0 then dropped else h.base)
    case Unstifle => h.(stifled := false)
  }

  function ApplyAll(h: Hist, ops: seq<Op>): Hist {
    if ops == [] then h else Apply(ApplyAll(h, ops[..|ops| - 1]), ops[|ops| - 1])
  }

  /** `history_get` */
  function Get(h: Hist, n: int): Option<Entry> {
    if 0 <= n - h.base < |h.entries| then Some(h.entries[n - h.base]) else None
  }

  /** On every run a stifled list holds at most its maximum. */
  lemma {:induction false} StifledIsBounded(ops: seq<Op>)
    ensures var h := ApplyAll(START, ops); h.stifled ==> |h.entries| <= h.max
  {
    if ops != [] {
      StifledIsBounded(ops[..|ops| - 1]);
    }
  }

  /** While entries are only added, a number keeps naming its entry until that is dropped. */
  lemma {:induction false} NumbersAreStable(h: Hist, ops: seq<Op>, n: int)
    requires forall i :: 0 <= i < |ops| ==> ops[i].Add?
    requires Get(h, n).Some?
    ensures var h' := ApplyAll(h, ops);
      && h.base <= h'.base
      && Get(h', n) == if n < h'.base then None else Get(h, n)
  {
    if ops != [] {
      var front := ops[..|ops| - 1];
      NumbersAreStable(h, front, n);
      var h1, e := ApplyAll(h, front), ops[|ops| - 1].entry;
      assert ops[|ops| - 1].Add?;
      AddKeepsNumbers(h1, e, n);
    }
  }

  lemma AddKeepsNumbers(h: Hist, e: Entry, n: int)
    requires n < h.base + |h.entries|
    ensures var h' := Apply(h, Add(e));
      && h.base <= h'.base && n < h'.base + |h'.entries|
      && Get(h', n) == if n < h'.base then None else Get(h, n)
  {
  }

  /** The number that `history_get` knows entry `i` by. */
  function NumberOf(h: Hist, i: int): int {
    h.base + i
  }

  /** Stifling sets the number of the first entry to the count of those dropped, so the entries that
      are left keep their numbers exactly if none is dropped or the first number was 0. */
  lemma StifleNumbering(h: Hist, newMax: int)
    requires Apply(h, Stifle(newMax)).entries != []
    ensures var h' := Apply(h, Stifle(newMax));
      var dropped := Dropped(h, h'.max);
      (forall i :: 0 <= i < |h'.entries| ==> NumberOf(h', i) == NumberOf(h, i + dropped)) <==>
      dropped == 0 || h.base == 0
  {
    var h' := Apply(h, Stifle(newMax));
    var dropped := Dropped(h, h'.max);
    assert NumberOf(h', 0) == NumberOf(h, 0 + dropped) <==> dropped == 0 || h.base == 0;
  }

  /** What each operation does to the list, entry by entry. */
  lemma EntriesAfter(h: Hist, e: Entry, k: nat, line: seq<Byte>, data: nat, max: nat)
    ensures var es := Apply(h, Add(e)).entries;
      if h.stifled && |h.entries| == h.max then
        if h.max == 0 then es == [] else |es| == h.max && es[h.max - 1] == e && es[..h.max - 1] == h.entries[1..]
      else |es| == |h.entries| + 1 && es[|es| - 1] == e && es[..|es| - 1] == h.entries
    ensures k < |h.entries| ==>
      var es := Apply(h, Remove(k)).entries;
      |es| == |h.entries| - 1 && es[..k] + [h.entries[k]] + es[k..] == h.entries
    ensures k < |h.entries| ==>
      var es := Apply(h, Replace(k, line, data)).entries;
      && |es| == |h.entries| && es[..k] == h.entries[..k] && es[k + 1..] == h.entries[k + 1..]
      && es[k].line == line && es[k].data == data && es[k].timestamp == h.entries[k].timestamp
    ensures var h' := Apply(h, Stifle(max));
      && h'.stifled && h'.max == max
      && h'.entries == if |h.entries| <= max then h.entries else h.entries[|h.entries| - max..]
    ensures Apply(h, Unstifle) == Hist(h.entries, false, h.max, h.base)
  {
    if k < |h.entries| {
      var es := Apply(h, Remove(k)).entries;
      assert es[..k] == h.entries[..k] && es[k..] == h.entries[k + 1..];
    }
  }

  /** Three lines in a new list, which is then stifled to one: the third is now the second. */
  lemma StifleRenumbers(a: Entry, b: Entry, c: Entry)
    ensures var h := ApplyAll(START, [Add(a), Add(b), Add(c)]);
      && Get(h, 3) == Some(c) && Get(Apply(h, Stifle(1)), 3) == None && Get(Apply(h, Stifle(1)), 2) == Some(c)
  {
    ApplyMore(START, [], Add(a));
    ApplyMore(START, [Add(a)], Add(b));
    ApplyMore(START, [Add(a), Add(b)], Add(c));
    assert [] + [Add(a)] == [Add(a)] && [Add(a)] + [Add(b)] == [Add(a), Add(b)];
    assert [Add(a), Add(b)] + [Add(c)] == [Add(a), Add(b), Add(c)];
  }

  lemma ApplyMore(h: Hist, ops: seq<Op>, op: Op)
    ensures ApplyAll(h, ops + [op]) == Apply(ApplyAll(h, ops), op)
  {
    assert (ops + [op])[..|ops|] == ops;
  }
}

module HistoryList {
  import opened Chars
  import opened HistorySpec

  const DEFAULT_HISTORY_INITIAL_SIZE := 502
  const MAX_HISTORY_INITIAL_SIZE := 8192
  const DEFAULT_HISTORY_GROW_SIZE := 50

  /** A pointer to an entry. */
  datatype Slot = Null | Ptr(entry: Entry)

  /** Copy the `n` slots from `from` on to the slots from `to` on, which are lower. */
  method MoveDown(a: array<Slot>, to: nat, from: nat, n: nat)
    requires to <= from && from + n <= a.Length
    modifies a
    ensures forall k :: to <= k < to + n ==> a[k] == old(a[..])[k - to + from]
    ensures forall k :: 0 <= k < to || to + n <= k < a.Length ==> a[k] == old(a[..])[k]
  {
    ghost var was := a[..];
    var i := 0;
    while i < n
      invariant 0 <= i <= n
      invariant forall k :: to <= k < to + i ==> a[k] == was[k - to + from]
      invariant forall k :: 0 <= k < to || to + i <= k < a.Length ==> a[k] == was[k]
    {
      a[to + i] := a[from + i];
      i := i + 1;
    }
  }

  class History {
    var theHistory: array<Slot>
    var length: nat
    var size: nat
    var stifled: bool
    var maxEntries: nat
    var base: nat
    ghost var entries: seq<Entry>

    /** The array holds `entries` and ends with a null pointer, within what is allocated. */
    ghost predicate Valid()
      reads this, theHistory
    {
      && theHistory.Length == size && |entries| == length
      && (if size == 0 then length == 0 else length < size && theHistory[length] == Null)
      && (forall i :: 0 <= i < length ==> theHistory[i] == Ptr(entries[i]))
      && (stifled ==> length <= maxEntries)
    }

    ghost function Abs(): Hist
      reads this
    {
      Hist(entries, stifled, maxEntries, base)
    }

    constructor ()
      ensures Valid() && Abs() == START && fresh(theHistory)
    {
      theHistory := new Slot[0];
      length, size, stifled, maxEntries, base, entries := 0, 0, false, 0, 1, [];
    }

    /** `add_history`, `stamp` being the time stamp that `hist_inittime` makes. */
    method AddHistory(line: seq<Byte>, stamp: seq<Byte>)
      requires Valid()
      modifies this, theHistory
      ensures Valid() && Abs() == Apply(old(Abs()), Add(Entry(line, stamp, 0)))
      ensures theHistory == old(theHistory) || fresh(theHistory)
    {
      if stifled && length == maxEntries {
        if length == 0 {
          return;
        }
        DropOldest();
      } else {
        MakeRoom();
      }
      theHistory[length + 1] := Null;
      theHistory[length] := Ptr(Entry(line, stamp, 0));
      length := length + 1;
      entries := entries + [Entry(line, stamp, 0)];
    }

    /** Move the entries down over the first, with the null pointer after them. */
    method DropOldest()
      requires Valid() && length > 0
      modifies this`length, this`base, this`entries, theHistory
      ensures Valid() && entries == old(entries)[1..] && base == old(base) + 1 && length + 1 < size
    {
      MoveDown(theHistory, 0, 1, length);
      length := length - 1;
      base := base + 1;
      entries := entries[1..];
    }

    /** Allocate the array, or make it larger, if there is no room for another entry. */
    method MakeRoom()
      requires Valid()
      modifies this`theHistory, this`size
      ensures Valid() && length + 1 < size
      ensures theHistory == old(theHistory) || fresh(theHistory)
    {
      if size == 0 {
        if stifled && maxEntries > 0 {
          size := if maxEntries > MAX_HISTORY_INITIAL_SIZE then MAX_HISTORY_INITIAL_SIZE else maxEntries + 2;
        } else {
          size := DEFAULT_HISTORY_INITIAL_SIZE;
        }
        theHistory := new Slot[size](_ => Null);
      } else if length == size - 1 {
        Grow();
      }
    }

    /** Reallocate the array with more room. */
    method Grow()
      requires Valid() && size > 0
      modifies this`theHistory, this`size
      ensures Valid() && fresh(theHistory) && size == old(size) + DEFAULT_HISTORY_GROW_SIZE
    {
      var smaller := theHistory;
      var bigger := new Slot[size + DEFAULT_HISTORY_GROW_SIZE](_ => Null);
      var i := 0;
      while i < smaller.Length
        invariant 0 <= i <= smaller.Length && theHistory == smaller && size == old(size)
        invariant forall k :: 0 <= k < i ==> bigger[k] == smaller[k]
      {
        bigger[i] := smaller[i];
        i := i + 1;
      }
      theHistory, size := bigger, size + DEFAULT_HISTORY_GROW_SIZE;
    }

    /** `remove_history` */
    method RemoveHistory(which: int) returns (removed: Option<Entry>)
      requires Valid()
      modifies this, theHistory
      ensures Valid() && Abs() == Apply(old(Abs()), Remove(which)) && theHistory == old(theHistory)
      ensures removed == if 0 <= which < old(length) then Some(old(entries)[which]) else None
    {
      if which < 0 || which >= length || length == 0 || size == 0 {
        return None;
      }
      hide Without;
      removed := Some(theHistory[which].entry);
      MoveDown(theHistory, which, which + 1, length - which);
      length := length - 1;
      entries := Without(entries, which);
    }

    /** `replace_history_entry` */
    method ReplaceHistoryEntry(which: int, line: seq<Byte>, data: nat) returns (was: Option<Entry>)
      requires Valid()
      modifies this, theHistory
      ensures Valid() && Abs() == Apply(old(Abs()), Replace(which, line, data)) && theHistory == old(theHistory)
      ensures was == if 0 <= which < old(length) then Some(old(entries)[which]) else None
    {
      if which < 0 || which >= length {
        return None;
      }
      var oldValue := theHistory[which].entry;
      theHistory[which] := Ptr(Entry(line, oldValue.timestamp, data));
      entries := entries[which := Entry(line, oldValue.timestamp, data)];
      was := Some(oldValue);
    }

    /** `stifle_history` */
    method StifleHistory(newMax: int)
      requires Valid()
      modifies this, theHistory
      ensures Valid() && Abs() == Apply(old(Abs()), Stifle(newMax)) && theHistory == old(theHistory)
    {
      var max: nat := if newMax < 0 then 0 else newMax;
      if length > max {
        var dropped := length - max;
        base := dropped;
        MoveDown(theHistory, 0, dropped, max);
        theHistory[max] := Null;
        entries := entries[dropped..];
        length := max;
      }
      stifled := true;
      maxEntries := max;
    }

    /** `unstifle_history` */
    method UnstifleHistory() returns (r: int)
      requires Valid()
      modifies this
      ensures Valid() && Abs() == Apply(old(Abs()), Unstifle) && theHistory == old(theHistory)
      ensures r == if old(stifled) then maxEntries else 0 - maxEntries as int
    {
      if stifled {
        stifled := false;
        r := maxEntries;
      } else {
        r := 0 - maxEntries as int;
      }
    }

    /** `history_get` */
    method HistoryGet(offset: int) returns (e: Option<Entry>)
      requires Valid()
      ensures e == Get(Abs(), offset)
    {
      var localIndex := offset - base;
      e := if localIndex >= length || localIndex < 0 || size == 0 then None else Some(theHistory[localIndex].entry);
    }

    /** `add_history_time` */
    method AddHistoryTime(stamp: seq<Byte>)
      requires Valid()
      modifies this`entries, theHistory
      ensures Valid() && theHistory == old(theHistory)
      ensures entries == if length == 0 then old(entries)
                         else old(entries)[length - 1 := old(entries)[length - 1].(timestamp := stamp)]
    {
      if length < 1 {
        return;
      }
      theHistory[length - 1] := Ptr(theHistory[length - 1].entry.(timestamp := stamp));
      entries := entries[length - 1 := entries[length - 1].(timestamp := stamp)];
    }

    /** `_hs_append_history_line` */
    method AppendHistoryLine(which: nat, line: seq<Byte>)
      requires Valid() && which < length
      modifies this`entries, theHistory
      ensures Valid() && theHistory == old(theHistory)
      ensures entries == old(entries)[which := old(entries)[which].(line := old(entries)[which].line + [NEWLINE] + line)]
    {
      var hent := theHistory[which].entry;
      theHistory[which] := Ptr(hent.(line := hent.line + [NEWLINE] + line));
      entries := entries[which := hent.(line := hent.line + [NEWLINE] + line)];
    }
  }
}
