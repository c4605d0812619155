/** Bringing one screen row up to date (readline/display.c), in byte-oriented mode, without invisible
    prompt characters and without horizontal scrolling. */
module Terminal {
  import opened Chars

  /** What readline sends to the terminal. */
  datatype Command =
    | Put(c: Byte)
    | CarriageReturn
    | Backspace
    | Insert(n: nat)
    | EnterInsertMode
    | ExitInsertMode
    | Delete(n: nat)
    | ClearToEol

  /** A capability string: missing, empty, or one that does what it is for. */
  datatype Capability = Absent | Empty | Works

  datatype Terminal = Terminal(
    columns: nat, autowrap: bool,
    IC: Capability, im: Capability, ei: Capability, ic: Capability,
    DC: Capability, dc: Capability, clreol: Capability)
  {
    /** The last column is not used on a terminal that does not wrap by itself. */
    function ScreenWidth(): nat {
      if autowrap || columns == 0 then columns else columns - 1
    }

    predicate CanInsert() {
      IC != Absent || im != Absent || ic != Absent
    }
  }

  /** One row of the screen, with the cursor on it. Column `columns` stands for the state of having
      just written the last column. */
  datatype Row = Row(cells: seq<Byte>, col: nat, inserting: bool)

  function Blanks(n: nat): (s: seq<Byte>)
    ensures |s| == n && forall i :: 0 <= i < n ==> s[i] == SPACE
  {
    seq(n, _ => SPACE)
  }

  function Overwritten(cells: seq<Byte>, at: nat, s: seq<Byte>): (r: seq<Byte>)
    requires at + |s| <= |cells|
    ensures |r| == |cells|
    ensures forall i :: 0 <= i < |r| ==> r[i] == if at <= i < at + |s| then s[i - at] else cells[i]
  {
    cells[..at] + s + cells[at + |s|..]
  }

  /** The cells from `at` on move right by `n`; those moved past the edge are lost. */
  function Inserted(cells: seq<Byte>, at: nat, n: nat): (r: seq<Byte>)
    ensures |r| == |cells|
    ensures forall i :: 0 <= i < |r| ==>
      r[i] == if i < at then cells[i] else if i < at + n then SPACE else cells[i - n]
  {
    seq(|cells|, i requires 0 <= i < |cells| =>
      if i < at then cells[i] else if i < at + n then SPACE else cells[i - n])
  }

  /** The cells from `at + n` on move left by `n`, and blanks come in at the edge. */
  function Deleted(cells: seq<Byte>, at: nat, n: nat): (r: seq<Byte>)
    ensures |r| == |cells|
    ensures forall i :: 0 <= i < |r| ==>
      r[i] == if i < at then cells[i] else if i + n < |cells| then cells[i + n] else SPACE
  {
    seq(|cells|, i requires 0 <= i < |cells| =>
      if i < at then cells[i] else if i + n < |cells| then cells[i + n] else SPACE)
  }

  /** One command. Nothing is known of a row once a character is written past its edge, or once the
      cursor moves back from the state of having just written the last column. */
  function Step(t: Terminal, row: Row, cmd: Command): Option<Row>
    requires |row.cells| == t.columns
  {
    var onRow := row.col < t.columns;
    match cmd
    case Put(c) =>
      if !onRow then None
      else
        var cells := if row.inserting then Inserted(row.cells, row.col, 1) else row.cells;
        Some(row.(cells := Overwritten(cells, row.col, [c]), col := row.col + 1))
    case CarriageReturn => Some(row.(col := 0))
    case Backspace => if onRow && row.col > 0 then Some(row.(col := row.col - 1)) else None
    case Insert(n) => if onRow then Some(row.(cells := Inserted(row.cells, row.col, n))) else None
    case EnterInsertMode => Some(row.(inserting := true))
    case ExitInsertMode => Some(row.(inserting := false))
    case Delete(n) => if onRow then Some(row.(cells := Deleted(row.cells, row.col, n))) else None
    case ClearToEol =>
      if onRow then Some(row.(cells := row.cells[..row.col] + Blanks(t.columns - row.col))) else None
  }

  /** What a stream of commands makes of a row. */
  function Run(t: Terminal, row: Row, cmds: seq<Command>): (r: Option<Row>)
    requires |row.cells| == t.columns
    ensures r.Some? ==> |r.value.cells| == t.columns
  {
    if cmds == [] then Some(row)
    else
      var before := Run(t, row, cmds[..|cmds| - 1]);
      if before.None? then None else Step(t, before.value, cmds[|cmds| - 1])
  }

  lemma RunSnoc(t: Terminal, row: Row, cmds: seq<Command>, cmd: Command)
    requires |row.cells| == t.columns
    ensures Run(t, row, cmds + [cmd]) ==
            if Run(t, row, cmds).None? then None else Step(t, Run(t, row, cmds).value, cmd)
  {
    assert (cmds + [cmd])[..|cmds|] == cmds;
  }

  /** The row shows `s` and blanks after it. */
  ghost predicate Shows(cells: seq<Byte>, s: seq<Byte>) {
    && |s| <= |cells|
    && (forall i :: 0 <= i < |s| ==> cells[i] == s[i])
    && (forall i :: |s| <= i < |cells| ==> cells[i] == SPACE)
  }
}

module ScreenUpdate {
  import opened Chars
  import opened Terminal

  // ---- What the capabilities do ----

  /** The row after `open_some_spaces`. */
  function Opened(t: Terminal, row: Row, n: nat): (r: Row)
    ensures |r.cells| == |row.cells| && r.col == row.col
  {
    var widened := row.(cells := Inserted(row.cells, row.col, n));
    if t.IC != Absent then (if t.IC == Works then widened else row)
    else if t.im == Works then widened.(inserting := t.ei != Works)
    else if t.ic == Works then widened
    else row
  }

  /** Opening spaces works: the capability that is chosen is not an empty string, and insert mode can
      be left again. */
  predicate Opens(t: Terminal) {
    if t.IC != Absent then t.IC == Works
    else if t.im == Works then t.ei == Works
    else t.ic == Works
  }

  /** Spaces are opened, and nothing else changes, on every row exactly when opening works. */
  lemma OpensSpaces(t: Terminal)
    ensures Opens(t) <==>
      forall row: Row, n: nat :: !row.inserting ==> Opened(t, row, n) == row.(cells := Inserted(row.cells, row.col, n))
  {
    if !Opens(t) {
      var row := Row([65], 0, false);
      assert Inserted(row.cells, 0, 1)[0] == SPACE;
      assert Opened(t, row, 1) != row.(cells := Inserted(row.cells, row.col, 1));
    }
  }

  /** The row after `delete_chars`. */
  function DeletedFrom(t: Terminal, row: Row, n: nat): (r: Row)
    ensures |r.cells| == |row.cells| && r.col == row.col && r.inserting == row.inserting
  {
    if n <= t.ScreenWidth() && Deletes(t) then row.(cells := Deleted(row.cells, row.col, n)) else row
  }

  predicate Deletes(t: Terminal) {
    t.DC == Works || t.dc == Works
  }

  /** Characters are deleted, and nothing else changes, on every row exactly when one of the two
      capabilities works. */
  lemma DeletesChars(t: Terminal)
    requires t.ScreenWidth() > 0
    ensures Deletes(t) <==>
      forall row: Row, n: nat :: n <= t.ScreenWidth() ==>
        DeletedFrom(t, row, n) == row.(cells := Deleted(row.cells, row.col, n))
  {
    if !Deletes(t) {
      var row := Row([65], 0, false);
      assert Deleted(row.cells, 0, 1)[0] == SPACE;
      assert DeletedFrom(t, row, 1) != row.(cells := Deleted(row.cells, row.col, 1));
    }
  }

  /** The row after `_rl_clear_to_eol`. */
  function ClearedFrom(t: Terminal, row: Row, count: nat): Row
    requires row.col + count <= |row.cells|
  {
    if t.clreol == Works then row.(cells := row.cells[..row.col] + Blanks(|row.cells| - row.col))
    else if t.clreol == Absent then
      row.(cells := Overwritten(row.cells, row.col, Blanks(count)), col := row.col + count)
    else row
  }

  /** `count` characters are all that is left of the row. */
  predicate AllThatIsLeft(row: Row, count: nat) {
    row.col + count <= |row.cells| && forall i :: row.col + count <= i < |row.cells| ==> row.cells[i] == SPACE
  }

  predicate Cleared(t: Terminal, row: Row, count: nat)
    requires row.col + count <= |row.cells|
  {
    ClearedFrom(t, row, count).cells == row.cells[..row.col] + Blanks(|row.cells| - row.col)
  }

  /** The rest of every row is cleared exactly when the capability is missing or works. */
  lemma ClearsRest(t: Terminal)
    ensures t.clreol != Empty <==> forall row: Row, count: nat :: AllThatIsLeft(row, count) ==> Cleared(t, row, count)
  {
    if t.clreol == Empty {
      var row := Row([65], 0, false);
      assert AllThatIsLeft(row, 1);
      assert (row.cells[..0] + Blanks(1))[0] == SPACE;
      assert !Cleared(t, row, 1);
    }
  }

  /** Every capability that `update_line` finds present does its work. */
  predicate Usable(t: Terminal) {
    && (t.CanInsert() ==> Opens(t))
    && (t.dc != Absent ==> Deletes(t))
    && t.clreol != Empty
  }

  lemma NoChange(cells: seq<Byte>, at: nat)
    requires at <= |cells|
    ensures Deleted(cells, at, 0) == cells && Overwritten(cells, at, []) == cells && Blanks(0) == []
  {
  }

  lemma InsertedMore(cells: seq<Byte>, at: nat, i: nat)
    requires at + i < |cells|
    ensures Inserted(Inserted(cells, at, i), at, 1) == Inserted(cells, at, i + 1)
    ensures Overwritten(Inserted(Inserted(cells, at, i), at + i, 1), at + i, [SPACE]) == Inserted(cells, at, i + 1)
  {
  }

  lemma DeletedMore(cells: seq<Byte>, at: nat, i: nat)
    ensures Deleted(Deleted(cells, at, i), at, 1) == Deleted(cells, at, i + 1)
  {
  }

  /** The row after characters are written. */
  function Typed(row: Row, s: seq<Byte>): (r: Row)
    requires row.col + |s| <= |row.cells|
    ensures |r.cells| == |row.cells| && r.col == row.col + |s| && r.inserting == row.inserting
  {
    var cells := if row.inserting then Inserted(row.cells, row.col, |s|) else row.cells;
    row.(cells := Overwritten(cells, row.col, s), col := row.col + |s|)
  }

  lemma TypedNothing(row: Row)
    requires row.col <= |row.cells|
    ensures Typed(row, []) == row
  {
    assert Typed(row, []).cells == row.cells;
  }

  lemma TypedMore(t: Terminal, row: Row, s: seq<Byte>, c: Byte)
    requires |row.cells| == t.columns && row.col + |s| < t.columns
    ensures Step(t, Typed(row, s), Put(c)) == Some(Typed(row, s + [c]))
  {
    hide Overwritten, Inserted;
    if row.inserting {
      InsertMore(row.cells, row.col, s, c);
    } else {
      OverwriteMore(row.cells, row.col, s, c);
    }
  }

  lemma OverwriteMore(cells: seq<Byte>, at: nat, s: seq<Byte>, c: Byte)
    requires at + |s| < |cells|
    ensures Overwritten(Overwritten(cells, at, s), at + |s|, [c]) == Overwritten(cells, at, s + [c])
  {
    hide Overwritten;
  }

  lemma InsertedAt(cells: seq<Byte>, at: nat, n: nat, i: nat)
    requires i < |cells|
    ensures Inserted(cells, at, n)[i] == if i < at then cells[i] else if i < at + n then SPACE else cells[i - n]
  {
  }

  lemma OverwrittenAt(cells: seq<Byte>, at: nat, s: seq<Byte>, i: nat)
    requires at + |s| <= |cells| && i < |cells|
    ensures Overwritten(cells, at, s)[i] == if at <= i < at + |s| then s[i - at] else cells[i]
  {
  }

  lemma InsertMore(cells: seq<Byte>, at: nat, s: seq<Byte>, c: Byte)
    requires at + |s| < |cells|
    ensures Overwritten(Inserted(Overwritten(Inserted(cells, at, |s|), at, s), at + |s|, 1), at + |s|, [c]) ==
            Overwritten(Inserted(cells, at, |s + [c]|), at, s + [c])
  {
    hide Overwritten, Inserted;
    var a := Overwritten(Inserted(cells, at, |s|), at, s);
    var r := Overwritten(Inserted(a, at + |s|, 1), at + |s|, [c]);
    var all := Overwritten(Inserted(cells, at, |s| + 1), at, s + [c]);
    forall i | 0 <= i < |cells| ensures r[i] == all[i] {
      InsertMoreAt(cells, at, s, c, a, i);
    }
  }

  lemma InsertMoreAt(cells: seq<Byte>, at: nat, s: seq<Byte>, c: Byte, a: seq<Byte>, i: nat)
    requires at + |s| < |cells| && i < |cells| && a == Overwritten(Inserted(cells, at, |s|), at, s)
    ensures Overwritten(Inserted(a, at + |s|, 1), at + |s|, [c])[i] ==
            Overwritten(Inserted(cells, at, |s| + 1), at, s + [c])[i]
  {
    hide Overwritten, Inserted;
    var n := at + |s|;
    var k := if i > n then i - 1 else i;
    OverwrittenAt(Inserted(a, n, 1), n, [c], i);
    InsertedAt(a, n, 1, i);
    OverwrittenAt(Inserted(cells, at, |s|), at, s, k);
    InsertedAt(cells, at, |s|, k);
    OverwrittenAt(Inserted(cells, at, |s| + 1), at, s + [c], i);
    InsertedAt(cells, at, |s| + 1, i);
  }

  // ---- Comparing the lines ----

  /** Where the line that starts at `s` ends: at its terminator, or after `max` characters. */
  function LineEnd(s: seq<Byte>, i: nat, max: nat): (e: nat)
    requires i <= max
    ensures i <= e <= max && (e == max || At(s, e) == NUL)
    ensures forall j :: i <= j < e ==> At(s, j) != NUL
    ensures i < e ==> e <= |s|
    decreases max - i
  {
    if i == max || At(s, i) == NUL then i else LineEnd(s, i + 1, max)
  }

  /** Where the lines differ first from `i` on, or where the old one ends. */
  function FirstDiff(old_: seq<Byte>, new_: seq<Byte>, omax: nat, i: nat): (f: nat)
    requires i <= omax
    ensures i <= f <= LineEnd(old_, i, omax) && (i < f ==> f <= |old_| && f <= |new_|)
    ensures forall j :: i <= j < f ==> At(old_, j) == At(new_, j) != NUL
    ensures f == LineEnd(old_, i, omax) || At(old_, f) != At(new_, f)
    decreases omax - i
  {
    if i < omax && At(old_, i) != NUL && At(old_, i) == At(new_, i) then FirstDiff(old_, new_, omax, i + 1) else i
  }

  method FirstDifference(old_: seq<Byte>, new_: seq<Byte>, omax: nat) returns (f: nat)
    ensures f == FirstDiff(old_, new_, omax, 0)
  {
    f := 0;
    while f < omax && At(old_, f) != NUL && At(old_, f) == At(new_, f)
      invariant f <= omax && FirstDiff(old_, new_, omax, f) == FirstDiff(old_, new_, omax, 0)
    {
      f := f + 1;
    }
  }

  method ScanToEnd(s: seq<Byte>, f: nat, max: nat) returns (e: nat)
    requires f <= LineEnd(s, 0, max)
    ensures e == LineEnd(s, 0, max)
    ensures forall j :: 0 <= j < e && j < |s| ==> s[j] != NUL
  {
    e := f;
    while e < max && At(s, e) != NUL
      invariant f <= e <= LineEnd(s, 0, max)
    {
      e := e + 1;
    }
    assert forall j :: 0 <= j < e && j < |s| ==> s[j] == At(s, j);
  }

  /** Where the comparison from the ends stops, and whether only blanks have agreed. */
  datatype Back = Back(o: int, n: int, blank: bool)

  function BackFrom(old_: seq<Byte>, new_: seq<Byte>, f: nat, o: int, n: int, blank: bool): (b: Back)
    requires f - 1 <= o < |old_| && f - 1 <= n < |new_|
    ensures f - 1 <= b.o <= o && f - 1 <= b.n <= n && o - b.o == n - b.n
    ensures forall j :: b.o < j <= o ==> old_[j] == new_[j - o + n]
    ensures blank && !b.blank ==> f <= b.o < o && f <= b.n < n
    ensures f <= o && f <= n ==> f <= b.o && f <= b.n
    decreases o - f + 1
  {
    if o > f && n > f && old_[o] == new_[n] then BackFrom(old_, new_, f, o - 1, n - 1, blank && old_[o] == SPACE)
    else Back(o, n, blank)
  }

  /** The indices from which the lines agree to their ends. Trailing blanks that agree are not used. */
  function Sames(old_: seq<Byte>, new_: seq<Byte>, f: nat, oe: nat, ne: nat): (r: (nat, nat))
    requires f <= oe <= |old_| && f <= ne <= |new_|
    requires forall j :: 0 <= j < oe ==> old_[j] != NUL
    requires forall j :: 0 <= j < ne ==> new_[j] != NUL
    ensures f <= r.0 <= oe && f <= r.1 <= ne && oe - r.0 == ne - r.1
    ensures forall j :: r.0 <= j < oe ==> old_[j] == new_[j - r.0 + r.1]
  {
    var b := BackFrom(old_, new_, f, oe - 1, ne - 1, true);
    if b.blank then (oe, ne)
    else if old_[b.o] != new_[b.n] then (b.o + 1, b.n + 1)
    else (b.o, b.n)
  }

  /** The agreement goes as far back as the lines agree, short of the first difference, unless only blanks
      agree. */
  lemma SamesGoBack(old_: seq<Byte>, new_: seq<Byte>, f: nat, oe: nat, ne: nat)
    requires f <= oe <= |old_| && f <= ne <= |new_|
    requires forall j :: 0 <= j < oe ==> old_[j] != NUL
    requires forall j :: 0 <= j < ne ==> new_[j] != NUL
    ensures var (ols, nls) := Sames(old_, new_, f, oe, ne);
      if ols < oe then
        && (ols == f || nls == f || old_[ols - 1] != new_[nls - 1])
        && exists j :: ols <= j < oe && old_[j] != SPACE
      else
        forall k :: 0 < k && f < oe - k && f < ne - k && AgreeFor(old_, new_, oe, ne, k) ==> old_[oe - k] == SPACE
  {
    BackStops(old_, new_, f, oe - 1, ne - 1, true);
    var b := BackFrom(old_, new_, f, oe - 1, ne - 1, true);
    if b.blank {
      forall k | 0 < k && f < oe - k && f < ne - k && AgreeFor(old_, new_, oe, ne, k)
        ensures old_[oe - k] == SPACE
      {
        AgreesBackTo(old_, new_, f, oe, ne, k, b.o);
      }
    }
  }

  lemma AgreesBackTo(old_: seq<Byte>, new_: seq<Byte>, f: nat, oe: nat, ne: nat, k: nat, o: int)
    requires oe <= |old_| && ne <= |new_| && f < oe - k && f < ne - k && AgreeFor(old_, new_, oe, ne, k)
    requires f - 1 <= o < oe && f - 1 <= o - oe + ne
    requires o <= f || o - oe + ne <= f || old_[o] != new_[o - oe + ne]
    ensures o < oe - k
  {
  }

  /** The last `k` characters agree. */
  predicate AgreeFor(old_: seq<Byte>, new_: seq<Byte>, oe: nat, ne: nat, k: nat)
    requires oe <= |old_| && ne <= |new_|
  {
    k <= oe && k <= ne && forall j :: oe - k <= j < oe ==> old_[j] == new_[j - oe + ne]
  }

  lemma {:induction false} BackStops(old_: seq<Byte>, new_: seq<Byte>, f: nat, o: int, n: int, blank: bool)
    requires f - 1 <= o < |old_| && f - 1 <= n < |new_|
    ensures var b := BackFrom(old_, new_, f, o, n, blank);
      && (b.o <= f || b.n <= f || old_[b.o] != new_[b.n])
      && (b.blank <==> blank && forall j :: b.o < j <= o ==> old_[j] == SPACE)
    decreases o - f + 1
  {
    if o > f && n > f && old_[o] == new_[n] {
      BackStops(old_, new_, f, o - 1, n - 1, blank && old_[o] == SPACE);
    }
  }

  method LastSame(old_: seq<Byte>, new_: seq<Byte>, f: nat, oe: nat, ne: nat) returns (ols: nat, nls: nat)
    requires f <= oe <= |old_| && f <= ne <= |new_|
    requires forall j :: 0 <= j < oe ==> old_[j] != NUL
    requires forall j :: 0 <= j < ne ==> new_[j] != NUL
    ensures (ols, nls) == Sames(old_, new_, f, oe, ne)
  {
    var wsatend := true;
    var o, n := oe as int - 1, ne as int - 1;
    while o > f && n > f && old_[o] == new_[n]
      invariant f - 1 <= o < oe && f - 1 <= n < ne
      invariant !wsatend ==> f <= o && f <= n
      invariant BackFrom(old_, new_, f, o, n, wsatend) == BackFrom(old_, new_, f, oe - 1, ne - 1, true)
    {
      if old_[o] != SPACE {
        wsatend := false;
      }
      o, n := o - 1, n - 1;
    }
    if wsatend {
      o, n := oe, ne;
    } else if old_[o] != new_[n] {
      if old_[o] != NUL {
        o := o + 1;
      }
      if new_[n] != NUL {
        n := n + 1;
      }
    }
    ols, nls := o, n;
  }

  /** The lines `old_[..oe]` and `new_[..ne]` agree up to `f`, and from `ols` and `nls` on. */
  datatype Edit = Edit(old_: seq<Byte>, new_: seq<Byte>, f: nat, oe: nat, ne: nat, ols: nat, nls: nat) {
    ghost predicate Valid() {
      && f <= ols <= oe <= |old_| && f <= nls <= ne <= |new_| && oe - ols == ne - nls
      && (forall j :: 0 <= j < f ==> old_[j] == new_[j])
      && (forall j :: ols <= j < oe ==> old_[j] == new_[j - ols + nls])
    }
  }

  /** What is in column `i` of a row that shows `s`. */
  function Column(s: seq<Byte>, i: nat): Byte {
    if i < |s| then s[i] else SPACE
  }

  lemma ShowsAt(cells: seq<Byte>, s: seq<Byte>, i: nat)
    requires Shows(cells, s) && i < |cells|
    ensures cells[i] == Column(s, i)
  {
  }

  lemma ShowsIf(cells: seq<Byte>, s: seq<Byte>)
    requires |s| <= |cells| && forall i :: 0 <= i < |cells| ==> cells[i] == Column(s, i)
    ensures Shows(cells, s)
  {
  }

  lemma Agree(e: Edit, i: nat)
    requires e.Valid()
    ensures i < e.f ==> e.old_[i] == e.new_[i]
    ensures e.ols <= i < e.oe ==> e.old_[i] == e.new_[i - e.ols + e.nls]
  {
  }

  lemma InsertShows(cells: seq<Byte>, e: Edit)
    requires e.Valid() && e.ols < e.nls && e.ne <= |cells| && Shows(cells, e.old_[..e.oe])
    ensures Shows(Overwritten(Inserted(cells, e.f, e.nls - e.ols), e.f, e.new_[e.f..e.nls]), e.new_[..e.ne])
  {
    hide Shows, Inserted, Overwritten, Column;
    var r := Overwritten(Inserted(cells, e.f, e.nls - e.ols), e.f, e.new_[e.f..e.nls]);
    forall i | 0 <= i < |cells| ensures r[i] == Column(e.new_[..e.ne], i) {
      InsertShowsAt(cells, e, i);
    }
    ShowsIf(r, e.new_[..e.ne]);
  }

  lemma InsertShowsAt(cells: seq<Byte>, e: Edit, i: nat)
    requires e.Valid() && e.ols < e.nls && e.ne <= |cells| && Shows(cells, e.old_[..e.oe]) && i < |cells|
    ensures Overwritten(Inserted(cells, e.f, e.nls - e.ols), e.f, e.new_[e.f..e.nls])[i] == Column(e.new_[..e.ne], i)
  {
    hide Shows, Inserted, Overwritten;
    OverwrittenAt(Inserted(cells, e.f, e.nls - e.ols), e.f, e.new_[e.f..e.nls], i);
    InsertedAt(cells, e.f, e.nls - e.ols, i);
    var k := if i < e.nls then i else i - (e.nls - e.ols);
    ShowsAt(cells, e.old_[..e.oe], k);
    Agree(e, k);
  }

  lemma OverwriteShows(cells: seq<Byte>, e: Edit)
    requires e.Valid() && e.oe <= e.ne <= |cells| && Shows(cells, e.old_[..e.oe])
    ensures Shows(Overwritten(cells, e.f, e.new_[e.f..e.ne]), e.new_[..e.ne])
  {
    hide Shows, Overwritten;
    var r := Overwritten(cells, e.f, e.new_[e.f..e.ne]);
    forall i | 0 <= i < |cells| ensures r[i] == Column(e.new_[..e.ne], i) {
      OverwrittenAt(cells, e.f, e.new_[e.f..e.ne], i);
      ShowsAt(cells, e.old_[..e.oe], i);
      Agree(e, i);
    }
    ShowsIf(r, e.new_[..e.ne]);
  }

  lemma DeleteShows(cells: seq<Byte>, e: Edit)
    requires e.Valid() && e.nls <= e.ols && Shows(cells, e.old_[..e.oe])
    ensures e.f + |e.new_[e.f..e.nls]| <= |cells|
    ensures Shows(Overwritten(Deleted(cells, e.f, e.ols - e.nls), e.f, e.new_[e.f..e.nls]), e.new_[..e.ne])
  {
    ShowsFits(cells, e.old_[..e.oe]);
    hide Shows, Deleted, Overwritten, Column;
    var r := Overwritten(Deleted(cells, e.f, e.ols - e.nls), e.f, e.new_[e.f..e.nls]);
    forall i | 0 <= i < |cells| ensures r[i] == Column(e.new_[..e.ne], i) {
      DeleteShowsAt(cells, e, i);
    }
    ShowsIf(r, e.new_[..e.ne]);
  }

  lemma ShowsFits(cells: seq<Byte>, s: seq<Byte>)
    requires Shows(cells, s)
    ensures |s| <= |cells|
  {
  }

  lemma DeletedAt(cells: seq<Byte>, at: nat, n: nat, i: nat)
    requires i < |cells|
    ensures Deleted(cells, at, n)[i] == if i < at then cells[i] else if i + n < |cells| then cells[i + n] else SPACE
  {
  }

  lemma DeleteShowsAt(cells: seq<Byte>, e: Edit, i: nat)
    requires e.Valid() && e.nls <= e.ols && e.oe <= |cells| && Shows(cells, e.old_[..e.oe]) && i < |cells|
    ensures Overwritten(Deleted(cells, e.f, e.ols - e.nls), e.f, e.new_[e.f..e.nls])[i] == Column(e.new_[..e.ne], i)
  {
    hide Shows, Deleted, Overwritten;
    var n := e.ols - e.nls;
    OverwrittenAt(Deleted(cells, e.f, n), e.f, e.new_[e.f..e.nls], i);
    DeletedAt(cells, e.f, n, i);
    if i < e.f {
      ShowsAt(cells, e.old_[..e.oe], i);
      Agree(e, i);
    } else if e.nls <= i && i + n < |cells| {
      ShowsAt(cells, e.old_[..e.oe], i + n);
      Agree(e, i + n);
    }
  }

  lemma ClearShows(cells: seq<Byte>, e: Edit)
    requires e.Valid() && e.ne <= e.oe && Shows(cells, e.old_[..e.oe])
    ensures e.f + |e.new_[e.f..e.ne]| <= |cells| && e.oe <= |cells|
    ensures var r := Overwritten(cells, e.f, e.new_[e.f..e.ne]);
      && (forall i :: e.oe <= i < |cells| ==> r[i] == SPACE)
      && Shows(Overwritten(r, e.ne, Blanks(e.oe - e.ne)), e.new_[..e.ne])
      && Shows(r[..e.ne] + Blanks(|cells| - e.ne), e.new_[..e.ne])
  {
    ShowsFits(cells, e.old_[..e.oe]);
    hide Shows, Overwritten, Blanks;
    var r, b := Overwritten(cells, e.f, e.new_[e.f..e.ne]), Blanks(e.oe - e.ne);
    forall i | 0 <= i < |cells| ensures i < e.ne ==> r[i] == e.new_[i]
      ensures e.oe <= i ==> r[i] == SPACE
      ensures Overwritten(r, e.ne, b)[i] == Column(e.new_[..e.ne], i)
    {
      OverwrittenAt(cells, e.f, e.new_[e.f..e.ne], i);
      ShowsAt(cells, e.old_[..e.oe], i);
      Agree(e, i);
      OverwrittenAt(r, e.ne, b, i);
    }
    ShowsIf(Overwritten(r, e.ne, b), e.new_[..e.ne]);
    ShowsIf(r[..e.ne] + Blanks(|cells| - e.ne), e.new_[..e.ne]);
  }

  // ---- The whole update ----

  /** The row after the branch for a line that gets longer. */
  function Lengthened(t: Terminal, row: Row, e: Edit, growing: bool): (r: Row)
    requires e.Valid() && row.col == e.f && e.ols < e.nls && e.ne <= |row.cells|
    ensures |r.cells| == |row.cells|
  {
    var lendiff, temp := e.nls - e.ols, e.ne - e.f;
    if t.CanInsert() && (2 * temp >= lendiff || t.IC != Absent) && (!t.autowrap || !growing) && At(e.old_, e.ols) != NUL
    then Typed(Opened(t, row, lendiff), e.new_[e.f..e.nls])
    else Typed(row, e.new_[e.f..e.ne])
  }

  /** The row after the branch for a line that does not. */
  function Shortened(t: Terminal, row: Row, e: Edit, above: bool): (r: Row)
    requires e.Valid() && row.col == e.f && e.nls <= e.ols && e.oe <= |row.cells|
    ensures |r.cells| == |row.cells|
  {
    var lendiff, temp := e.ols - e.nls, e.ne - e.f;
    if t.dc != Absent && 2 * temp >= lendiff then
      Typed(if lendiff > 0 then DeletedFrom(t, row, lendiff) else row, e.new_[e.f..e.nls])
    else
      var r := Typed(row, e.new_[e.f..e.ne]);
      if e.oe == e.ne then r
      else if t.autowrap && above then Typed(r, Blanks(e.oe - e.ne))
      else ClearedFrom(t, r, e.oe - e.ne)
  }

  /** The row shows the old line, and the new one fits it. A line that no terminator ends fills the screen. */
  ghost predicate CanUpdate(t: Terminal, row: Row, old_: seq<Byte>, new_: seq<Byte>, omax: nat, nmax: nat) {
    var oe, ne := LineEnd(old_, 0, omax), LineEnd(new_, 0, nmax);
    && oe <= |old_| && ne <= |new_| && |row.cells| == t.columns && !row.inserting
    && oe <= t.ScreenWidth() && (At(old_, oe) == NUL || oe == t.ScreenWidth())
    && ne <= t.ScreenWidth() && (At(new_, ne) == NUL || ne == t.ScreenWidth())
    && Shows(row.cells, old_[..oe])
  }

  /** The edit that `update_line` works out. */
  function EditOf(old_: seq<Byte>, new_: seq<Byte>, omax: nat, nmax: nat): (e: Edit)
    requires var oe, ne := LineEnd(old_, 0, omax), LineEnd(new_, 0, nmax);
      FirstDiff(old_, new_, omax, 0) <= ne && oe <= |old_| && ne <= |new_|
    ensures e.Valid() && e.oe == LineEnd(old_, 0, omax) && e.ne == LineEnd(new_, 0, nmax)
    ensures e.f == FirstDiff(old_, new_, omax, 0) && e.old_ == old_ && e.new_ == new_
  {
    var f, oe, ne := FirstDiff(old_, new_, omax, 0), LineEnd(old_, 0, omax), LineEnd(new_, 0, nmax);
    NoTerminator(old_, oe);
    NoTerminator(new_, ne);
    AgreesBefore(old_, new_, f);
    var (ols, nls) := Sames(old_, new_, f, oe, ne);
    Edit(old_, new_, f, oe, ne, ols, nls)
  }

  lemma NoTerminator(s: seq<Byte>, e: nat)
    requires e <= |s| && forall j :: 0 <= j < e ==> At(s, j) != NUL
    ensures forall j :: 0 <= j < e ==> s[j] != NUL
  {
    assert forall j :: 0 <= j < e ==> s[j] == At(s, j);
  }

  lemma AgreesBefore(old_: seq<Byte>, new_: seq<Byte>, f: nat)
    requires f <= |old_| && f <= |new_| && forall j :: 0 <= j < f ==> At(old_, j) == At(new_, j)
    ensures forall j :: 0 <= j < f ==> old_[j] == new_[j]
  {
    forall j | 0 <= j < f ensures old_[j] == new_[j] {
      assert At(old_, j) == At(new_, j);
    }
  }

  lemma FitsNew(t: Terminal, row: Row, old_: seq<Byte>, new_: seq<Byte>, omax: nat, nmax: nat)
    requires CanUpdate(t, row, old_, new_, omax, nmax)
    ensures FirstDiff(old_, new_, omax, 0) <= LineEnd(new_, 0, nmax)
  {
    var f, ne := FirstDiff(old_, new_, omax, 0), LineEnd(new_, 0, nmax);
    assert ne < f ==> At(new_, ne) != NUL;
  }

  /** The row after `update_line`. */
  ghost function Updated(t: Terminal, row: Row, old_: seq<Byte>, new_: seq<Byte>, omax: nat, nmax: nat,
                         growing: bool, above: bool): (r: Row)
    requires CanUpdate(t, row, old_, new_, omax, nmax)
    ensures |r.cells| == |row.cells|
  {
    FitsNew(t, row, old_, new_, omax, nmax);
    var e := EditOf(old_, new_, omax, nmax);
    if e.f == e.oe && e.f == e.ne then row
    else if e.nls > e.ols then Lengthened(t, row.(col := e.f), e, growing)
    else Shortened(t, row.(col := e.f), e, above)
  }

  lemma LengthenedShows(t: Terminal, row: Row, e: Edit, growing: bool)
    requires Usable(t) && e.Valid() && row.col == e.f && e.ols < e.nls && e.ne <= |row.cells| && !row.inserting
    requires Shows(row.cells, e.old_[..e.oe])
    ensures var r := Lengthened(t, row, e, growing); !r.inserting && Shows(r.cells, e.new_[..e.ne])
  {
    hide Shows, Inserted, Overwritten;
    if t.CanInsert() {
      InsertShows(row.cells, e);
    }
    OverwriteShows(row.cells, e);
  }

  lemma ShortenedShows(t: Terminal, row: Row, e: Edit, above: bool)
    requires Usable(t) && e.Valid() && row.col == e.f && e.nls <= e.ols && e.oe <= |row.cells| && !row.inserting
    requires e.oe <= t.ScreenWidth() && Shows(row.cells, e.old_[..e.oe])
    ensures var r := Shortened(t, row, e, above); !r.inserting && Shows(r.cells, e.new_[..e.ne])
  {
    hide Shows, Deleted, Overwritten, Cleared, AllThatIsLeft, ClearedFrom;
    var temp := e.ne - e.f;
    NoChange(row.cells, e.f);
    if t.dc != Absent && 2 * temp >= e.ols - e.nls {
      DeleteShows(row.cells, e);
    } else {
      ClearShows(row.cells, e);
      var r := Typed(row, e.new_[e.f..e.ne]);
      NoChange(r.cells, e.ne);
      if e.oe != e.ne && !(t.autowrap && above) {
        ClearsLine(t, r, e.oe - e.ne);
      } else if e.oe == e.ne {
        assert Blanks(e.oe - e.ne) == [];
      }
    }
  }

  lemma ClearsLine(t: Terminal, row: Row, count: nat)
    requires t.clreol != Empty && row.col + count <= |row.cells|
    requires forall i :: row.col + count <= i < |row.cells| ==> row.cells[i] == SPACE
    ensures var r := ClearedFrom(t, row, count);
      r.cells == row.cells[..row.col] + Blanks(|row.cells| - row.col) && r.inserting == row.inserting
  {
    ClearsRest(t);
    assert AllThatIsLeft(row, count);
  }

  /** The update shows the new line. */
  ghost predicate Succeeds(t: Terminal, row: Row, old_: seq<Byte>, new_: seq<Byte>, omax: nat, nmax: nat,
                           growing: bool, above: bool)
    requires CanUpdate(t, row, old_, new_, omax, nmax)
  {
    Shows(Updated(t, row, old_, new_, omax, nmax, growing, above).cells, new_[..LineEnd(new_, 0, nmax)])
  }

  lemma UsableSucceeds(t: Terminal, row: Row, old_: seq<Byte>, new_: seq<Byte>, omax: nat, nmax: nat,
                       growing: bool, above: bool)
    requires Usable(t) && CanUpdate(t, row, old_, new_, omax, nmax)
    ensures Succeeds(t, row, old_, new_, omax, nmax, growing, above)
    ensures !Updated(t, row, old_, new_, omax, nmax, growing, above).inserting
  {
    hide Usable, Lengthened, Shortened, Shows;
    FitsNew(t, row, old_, new_, omax, nmax);
    var e := EditOf(old_, new_, omax, nmax);
    var row1 := row.(col := e.f);
    if e.f == e.oe && e.f == e.ne {
      assert new_[..e.ne] == old_[..e.oe];
    } else if e.nls > e.ols {
      LengthenedShows(t, row1, e, growing);
    } else {
      ShortenedShows(t, row1, e, above);
    }
  }

  /** Every update shows the new line. */
  ghost predicate AlwaysSucceeds(t: Terminal) {
    forall row: Row, old_: seq<Byte>, new_: seq<Byte>, omax: nat, nmax: nat, growing: bool, above: bool ::
      CanUpdate(t, row, old_, new_, omax, nmax) ==> Succeeds(t, row, old_, new_, omax, nmax, growing, above)
  }

  /** On a screen of at least three columns, every update shows the new line if and only if every capability
      that is found present does its work. */
  lemma UsableIff(t: Terminal)
    requires t.ScreenWidth() >= 3
    ensures Usable(t) <==> AlwaysSucceeds(t)
  {
    hide Succeeds, CanUpdate;
    if Usable(t) {
      forall row: Row, old_: seq<Byte>, new_: seq<Byte>, omax: nat, nmax: nat, growing: bool, above: bool |
        CanUpdate(t, row, old_, new_, omax, nmax)
        ensures Succeeds(t, row, old_, new_, omax, nmax, growing, above)
      {
        UsableSucceeds(t, row, old_, new_, omax, nmax, growing, above);
      }
    } else if t.CanInsert() && !Opens(t) {
      InsertFails(t);
    } else if t.dc != Absent && !Deletes(t) {
      DeleteFails(t);
    } else {
      ClearFails(t);
    }
  }

  /** A row that shows `s`. */
  function Showing(t: Terminal, s: seq<Byte>): (row: Row)
    requires |s| <= t.columns
    ensures Shows(row.cells, s) && |row.cells| == t.columns && row.col == 0 && !row.inserting
  {
    Row(s + Blanks(t.columns - |s|), 0, false)
  }

  lemma Ends(s: seq<Byte>)
    requires |s| <= 3 && NulFree(s)
    ensures LineEnd(s, 0, |s|) == |s| && s[..|s|] == s
  {
    assert forall j :: 0 <= j < |s| ==> At(s, j) == s[j];
  }

  lemma CanShow(t: Terminal, old_: seq<Byte>, new_: seq<Byte>)
    requires |old_| <= 3 <= t.ScreenWidth() && |new_| <= 3 && NulFree(old_) && NulFree(new_)
    ensures CanUpdate(t, Showing(t, old_), old_, new_, |old_|, |new_|)
  {
    Ends(old_);
    Ends(new_);
  }

  lemma Fails(t: Terminal, old_: seq<Byte>, new_: seq<Byte>)
    requires |old_| <= 3 <= t.ScreenWidth() && |new_| <= 3 && NulFree(old_) && NulFree(new_)
    requires CanUpdate(t, Showing(t, old_), old_, new_, |old_|, |new_|)
    requires !Shows(Updated(t, Showing(t, old_), old_, new_, |old_|, |new_|, false, false).cells, new_)
    ensures !AlwaysSucceeds(t)
  {
    hide Shows, Updated, CanUpdate;
    Ends(new_);
    assert !Succeeds(t, Showing(t, old_), old_, new_, |old_|, |new_|, false, false);
  }

  lemma EditToShorter()
    ensures EditOf([97, 98], [98], 2, 1) == Edit([97, 98], [98], 0, 2, 1, 2, 1)
  {
    Ends([97, 98]);
    Ends([98]);
  }

  lemma EditToLonger()
    ensures EditOf([98, 99], [97, 98, 99], 2, 3) == Edit([98, 99], [97, 98, 99], 0, 2, 3, 0, 1)
  {
    var old_, new_ := [98, 99], [97, 98, 99];
    Ends(old_);
    Ends(new_);
    assert BackFrom(old_, new_, 0, 1, 2, true) == BackFrom(old_, new_, 0, 0, 1, false);
  }

  lemma EditToNothing()
    ensures EditOf([97], [], 1, 0) == Edit([97], [], 0, 1, 0, 1, 0)
  {
    Ends([97]);
    Ends([]);
  }

  /** Without a way to delete, `b` is written over the `a` of `ab`, and `bb` is left. */
  lemma DeleteFails(t: Terminal)
    requires t.ScreenWidth() >= 3 && t.dc != Absent && !Deletes(t)
    ensures !AlwaysSucceeds(t)
    ensures var old_, new_ := [97, 98], [98];
      && CanUpdate(t, Showing(t, old_), old_, new_, 2, 1)
      && Shows(Updated(t, Showing(t, old_), old_, new_, 2, 1, false, false).cells, [98, 98])
  {
    hide AlwaysSucceeds, EditOf, CanUpdate, Showing, LineEnd, FirstDiff;
    var old_, new_ := [97, 98], [98];
    var row := Showing(t, old_);
    CanShow(t, old_, new_);
    FitsNew(t, row, old_, new_, 2, 1);
    EditToShorter();
    var r := Updated(t, row, old_, new_, 2, 1, false, false);
    assert new_[0..1] == [98];
    assert r == Typed(row, [98]);
    assert r.cells[1] == 98;
    Fails(t, old_, new_);
  }

  /** Where nothing is opened, or insert mode is not left again, `bc` does not become `abc`. */
  lemma InsertFails(t: Terminal)
    requires t.ScreenWidth() >= 3 && t.CanInsert() && !Opens(t)
    ensures !AlwaysSucceeds(t)
  {
    hide AlwaysSucceeds, EditOf, CanUpdate, Showing, LineEnd, FirstDiff, Opened, Opens, Typed, Shows, Shortened;
    var old_, new_ := [98, 99], [97, 98, 99];
    var row := Showing(t, old_);
    CanShow(t, old_, new_);
    FitsNew(t, row, old_, new_, 2, 3);
    EditToLonger();
    var r := Updated(t, row, old_, new_, 2, 3, false, false);
    assert new_[0..1] == [97];
    assert r == Typed(Opened(t, row, 1), [97]);
    ShowsAt(row.cells, old_, 1);
    NotOpened(t, row);
    OtherColumn(r.cells, new_, 1);
    Fails(t, old_, new_);
  }

  lemma OtherColumn(cells: seq<Byte>, s: seq<Byte>, i: nat)
    requires i < |cells| && cells[i] != Column(s, i)
    ensures !Shows(cells, s)
  {
  }

  lemma NotOpened(t: Terminal, row: Row)
    requires !Opens(t) && |row.cells| >= 3 && row.col == 0 && !row.inserting && row.cells[1] == 99
    ensures Typed(Opened(t, row, 1), [97]).cells[1] != 98
  {
    var o := Opened(t, row, 1);
    if o != row {
      assert o.inserting && o.cells[0] == SPACE;
      assert Inserted(o.cells, 0, 1)[1] == SPACE;
    }
  }

  /** Where nothing is cleared, `a` stays when the line is emptied. */
  lemma ClearFails(t: Terminal)
    requires t.ScreenWidth() >= 3 && t.clreol == Empty
    ensures !AlwaysSucceeds(t)
  {
    hide AlwaysSucceeds, EditOf, CanUpdate, Showing, LineEnd, FirstDiff, Typed, Shows, Shortened, Lengthened;
    var old_: seq<Byte>, new_: seq<Byte> := [97], [];
    var row := Showing(t, old_);
    CanShow(t, old_, new_);
    FitsNew(t, row, old_, new_, 1, 0);
    EditToNothing();
    StaysAsItIs(t, row, Edit(old_, new_, 0, 1, 0, 1, 0));
    assert Updated(t, row, old_, new_, 1, 0, false, false) == row;
    ShowsAt(row.cells, old_, 0);
    OtherColumn(row.cells, new_, 0);
    Fails(t, old_, new_);
  }

  lemma StaysAsItIs(t: Terminal, row: Row, e: Edit)
    requires t.clreol == Empty && row.col == 0 <= |row.cells| && e.Valid()
    requires e.f == 0 && e.ne == 0 && e.nls == 0 && e.oe == 1 && e.ols == 1 && |row.cells| > 0
    ensures Shortened(t, row, e, false) == row
  {
    hide Typed;
    TypedNothing(row);
    assert e.new_[0..0] == [];
  }

  class Display {
    const t: Terminal
    var lastCPos: nat
    var out: seq<Command>
    ghost const start: Row
    ghost var row: Row

    constructor (t: Terminal, row: Row)
      requires t.columns > 0 && |row.cells| == t.columns && row.col <= t.ScreenWidth() && !row.inserting
      ensures Valid() && this.t == t && this.row == row && out == []
    {
      this.t, lastCPos, out := t, row.col, [];
      start, this.row := row, row;
    }

    /** `row` is what the commands sent so far have made of the row, and `_rl_last_c_pos` is where its
        cursor is. */
    ghost predicate Valid()
      reads this
    {
      && t.columns == |start.cells| > 0 && Run(t, start, out) == Some(row) && |row.cells| == t.columns
      && lastCPos == row.col <= t.ScreenWidth() && !row.inserting
    }

    ghost predicate Sound()
      reads this
    {
      t.columns == |start.cells| > 0 && Run(t, start, out) == Some(row) && |row.cells| == t.columns
    }

    method Send(cmd: Command)
      requires Sound() && Step(t, row, cmd).Some?
      modifies this`out, this`row
      ensures Sound() && row == Step(t, old(row), cmd).value
    {
      RunSnoc(t, start, out, cmd);
      row := Step(t, row, cmd).value;
      out := out + [cmd];
    }

    /** `_rl_output_some_chars` and the loops that write characters one by one. */
    method OutputChars(s: seq<Byte>)
      requires Sound() && row.col + |s| <= t.columns
      modifies this`out, this`row
      ensures Sound() && row == Typed(old(row), s)
    {
      hide Run, Typed, Step;
      ghost var row0 := row;
      var i := 0;
      assert s[..0] == [];
      TypedNothing(row0);
      while i < |s|
        invariant 0 <= i <= |s| && Sound() && row == Typed(row0, s[..i])
      {
        TypedMore(t, row0, s[..i], s[i]);
        Send(Put(s[i]));
        assert s[..i + 1] == s[..i] + [s[i]];
        i := i + 1;
      }
      assert s[..i] == s;
    }

    /** `_rl_backspace` */
    method Backspaces(n: nat)
      requires Sound() && n <= row.col < t.columns
      modifies this`out, this`row
      ensures Sound() && row == old(row).(col := old(row.col) - n)
    {
      hide Run;
      var i := 0;
      while i < n
        invariant 0 <= i <= n && Sound() && row == old(row).(col := old(row.col) - i)
      {
        Send(Command.Backspace);
        i := i + 1;
      }
    }

    /** `_rl_move_cursor_relative`, where the row shows `data` up to column `new_`. */
    method MoveCursorRelative(new_: nat, data: seq<Byte>)
      requires Valid() && new_ <= |data| && new_ <= t.ScreenWidth()
      requires forall i :: 0 <= i < new_ ==> row.cells[i] == data[i]
      modifies this
      ensures Valid() && row == old(row).(col := new_)
    {
      hide Run;
      var cpos, dpos := lastCPos, new_;
      if cpos == dpos {
        return;
      }
      if dpos == 0 || dpos + 1 < lastCPos - dpos || (t.autowrap && lastCPos == t.ScreenWidth()) {
        Send(CarriageReturn);
        cpos, lastCPos := 0, 0;
      }
      if cpos < dpos {
        OutputChars(data[cpos..dpos]);
        assert row.cells == old(row.cells);
      } else if cpos > dpos {
        Backspaces(cpos - dpos);
      }
      lastCPos := dpos;
    }

    /** `open_some_spaces` */
    method OpenSomeSpaces(n: nat)
      requires Sound() && !row.inserting && row.col + n < t.columns
      modifies this`out, this`row
      ensures Sound() && row == Opened(t, old(row), n)
    {
      hide Run;
      if t.IC != Absent {
        if t.IC == Works {
          Send(Insert(n));
        }
      } else if t.im == Works {
        Send(EnterInsertMode);
        InsertSpaces(n);
        if t.ei == Works {
          Send(ExitInsertMode);
        }
        Backspaces(n);
      } else if t.ic == Works {
        InsertOneByOne(n);
      }
    }

    /** Write spaces in insert mode. */
    method InsertSpaces(n: nat)
      requires Sound() && row.inserting && row.col + n < t.columns
      modifies this`out, this`row
      ensures Sound() && row == old(row).(cells := Inserted(old(row.cells), old(row.col), n), col := old(row.col) + n)
    {
      hide Run;
      ghost var row0 := row;
      var i := 0;
      assert Inserted(row.cells, row.col, 0) == row.cells;
      while i < n
        invariant 0 <= i <= n && Sound()
        invariant row == row0.(cells := Inserted(row0.cells, row0.col, i), col := row0.col + i)
      {
        InsertedMore(row0.cells, row0.col, i);
        Send(Put(SPACE));
        i := i + 1;
      }
    }

    method InsertOneByOne(n: nat)
      requires Sound() && row.col + n < t.columns
      modifies this`out, this`row
      ensures Sound() && row == old(row).(cells := Inserted(old(row.cells), old(row.col), n))
    {
      hide Run;
      ghost var row0 := row;
      var i := 0;
      assert Inserted(row.cells, row.col, 0) == row.cells;
      while i < n
        invariant 0 <= i <= n && Sound() && row == row0.(cells := Inserted(row0.cells, row0.col, i))
      {
        InsertedMore(row0.cells, row0.col, i);
        Send(Insert(1));
        i := i + 1;
      }
    }

    /** `delete_chars` */
    method DeleteChars(n: nat)
      requires Sound() && row.col < t.columns
      modifies this`out, this`row
      ensures Sound() && row == DeletedFrom(t, old(row), n)
    {
      hide Run;
      if n > t.ScreenWidth() {
        return;
      }
      if t.DC == Works {
        Send(Delete(n));
      } else if t.dc == Works {
        ghost var row0 := row;
        var i := 0;
        assert Deleted(row.cells, row.col, 0) == row.cells;
        while i < n
          invariant 0 <= i <= n && Sound() && row == row0.(cells := Deleted(row0.cells, row0.col, i))
        {
          DeletedMore(row0.cells, row0.col, i);
          Send(Delete(1));
          i := i + 1;
        }
      }
    }

    /** `space_to_eol` */
    method SpaceToEol(count: nat)
      requires Valid() && row.col + count <= t.ScreenWidth()
      modifies this
      ensures Valid() && row == Typed(old(row), Blanks(count))
    {
      hide Run;
      OutputChars(Blanks(count));
      lastCPos := lastCPos + count;
    }

    /** `_rl_clear_to_eol` of at least `count` characters. */
    method ClearEol(count: nat)
      requires Valid() && row.col + count <= t.ScreenWidth() && row.col < t.columns
      modifies this
      ensures Valid() && row == ClearedFrom(t, old(row), count)
    {
      hide Run;
      NoChange(row.cells, row.col);
      if t.clreol == Works {
        Send(ClearToEol);
      } else if t.clreol == Absent && count > 0 {
        SpaceToEol(count);
      }
    }

    /** The part of `update_line` for a line that gets longer. The lines agree up to `f`, and from
        `ols` and `nls` to their ends `oe` and `ne`. */
    method Lengthen(old_: seq<Byte>, new_: seq<Byte>, f: nat, oe: nat, ne: nat, ols: nat, nls: nat, growing: bool)
      requires Valid() && row.col == f && Edit(old_, new_, f, oe, ne, ols, nls).Valid()
      requires ols < nls && ne <= t.ScreenWidth() && (At(old_, ols) == NUL <==> ols == oe)
      modifies this
      ensures Sound() && lastCPos == row.col <= t.ScreenWidth()
      ensures row == Lengthened(t, old(row), Edit(old_, new_, f, oe, ne, ols, nls), growing)
    {
      hide Run, Typed, Opened;
      var lendiff, temp, toInsert := nls - ols, ne - f, nls - f;
      if t.CanInsert() && (2 * temp >= lendiff || t.IC != Absent) && (!t.autowrap || !growing) {
        if At(old_, ols) != NUL {
          OpenSomeSpaces(lendiff);
          OutputChars(new_[f..f + toInsert]);
          lastCPos := lastCPos + toInsert;
        } else {
          OutputChars(new_[f..f + temp]);
          lastCPos := lastCPos + temp;
        }
      } else {
        OutputChars(new_[f..f + temp]);
        lastCPos := lastCPos + temp;
      }
    }

    /** The part of `update_line` for a line that does not get longer. */
    method Shorten(old_: seq<Byte>, new_: seq<Byte>, f: nat, oe: nat, ne: nat, ols: nat, nls: nat, above: bool)
      requires Valid() && row.col == f && Edit(old_, new_, f, oe, ne, ols, nls).Valid()
      requires nls <= ols && oe <= t.ScreenWidth() && (f < oe || f < ne)
      modifies this
      ensures Sound() && lastCPos == row.col <= t.ScreenWidth()
      ensures row == Shortened(t, old(row), Edit(old_, new_, f, oe, ne, ols, nls), above)
    {
      hide Run, Typed, DeletedFrom, ClearedFrom;
      var lendiff, temp, toInsert := ols - nls, ne - f, nls - f;
      if t.dc != Absent && 2 * temp >= lendiff {
        if lendiff > 0 {
          DeleteChars(lendiff);
        }
        TypedNothing(row);
        assert toInsert == 0 ==> new_[f..nls] == [];
        if toInsert > 0 {
          OutputChars(new_[f..f + toInsert]);
          lastCPos := lastCPos + toInsert;
        }
      } else {
        TypedNothing(row);
        assert temp == 0 ==> new_[f..ne] == [];
        if temp > 0 {
          OutputChars(new_[f..f + temp]);
          lastCPos := lastCPos + temp;
        }
        var excess := oe - ne;
        if excess != 0 {
          if t.autowrap && above {
            SpaceToEol(excess);
          } else {
            ClearEol(excess);
          }
        }
      }
    }

    /** `update_line` on a row that the cursor is already on, whatever the capabilities do. When all that are
        present work, the row shows the new line. */
    method UpdateLine(old_: seq<Byte>, new_: seq<Byte>, currentLine: int, omax: nat, nmax: nat, invBotlin: int, visBotlin: int)
      requires Valid() && CanUpdate(t, row, old_, new_, omax, nmax)
      modifies this
      ensures Sound() && lastCPos == row.col <= t.ScreenWidth()
      ensures row.cells == Updated(t, old(row), old_, new_, omax, nmax,
                                   currentLine >= visBotlin && invBotlin > visBotlin, currentLine < invBotlin).cells
      ensures Usable(t) ==> Valid() && Shows(row.cells, new_[..LineEnd(new_, 0, nmax)])
    {
      hide Run, Usable, Lengthened, Shortened, Shows, Sames, FirstDiff, LineEnd;
      var growing := currentLine >= visBotlin && invBotlin > visBotlin;
      var above := currentLine < invBotlin;
      ghost var row0 := row;
      if Usable(t) {
        UsableSucceeds(t, row0, old_, new_, omax, nmax, growing, above);
      }
      FitsNew(t, row, old_, new_, omax, nmax);
      var f := FirstDifference(old_, new_, omax);
      var oe := ScanToEnd(old_, f, omax);
      var ne := ScanToEnd(new_, f, nmax);
      if f == oe && f == ne {
        return;
      }
      var ols, nls := LastSame(old_, new_, f, oe, ne);
      assert EditOf(old_, new_, omax, nmax) == Edit(old_, new_, f, oe, ne, ols, nls);
      ShownBefore(row.cells, old_, oe, f);
      MoveCursorRelative(f, old_);
      if nls > ols {
        Lengthen(old_, new_, f, oe, ne, ols, nls, growing);
      } else {
        Shorten(old_, new_, f, oe, ne, ols, nls, above);
      }
    }
  }

  lemma ShownBefore(cells: seq<Byte>, s: seq<Byte>, e: nat, f: nat)
    requires f <= e <= |s| && Shows(cells, s[..e])
    ensures |cells| >= f && forall i :: 0 <= i < f ==> cells[i] == s[i]
  {
  }
}
