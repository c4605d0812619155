/** The rows of PocketDB as bytes (pocketDB/input.c, pocketDB/output.c). */
module RowSpec {
  import opened Chars

  const STRING: Byte := 4
  const MAXLIMIT := 254

  /** A cell that holds a string. */
  datatype Cell = Cell(name: seq<Byte>, value: seq<Byte>)

  /** What the lengths of a cell leave room for. */
  predicate CellFits(c: Cell) {
    NulFree(c.name) && NulFree(c.value) && |c.name| <= MAXLIMIT && |c.value| <= MAXLIMIT
  }

  predicate Fits(cells: seq<Cell>) {
    0 < |cells| <= 255 && forall i :: 0 <= i < |cells| ==> CellFits(cells[i])
  }

  /** Only the value of the last cell may be empty. */
  predicate ComesBack(cells: seq<Cell>) {
    forall i :: 0 <= i < |cells| ==> cells[i].name != [] && (cells[i].value != [] || i == |cells| - 1)
  }

  function CellBytes(c: Cell): seq<Byte>
    requires CellFits(c)
  {
    [STRING, |c.name|] + c.name + [|c.value|] + c.value
  }

  function CellsBytes(cells: seq<Cell>): seq<Byte>
    requires forall i :: 0 <= i < |cells| ==> CellFits(cells[i])
  {
    if cells == [] then [] else CellBytes(cells[0]) + CellsBytes(cells[1..])
  }

  /** `data_compact`: the number of cells, and each cell with its lengths. */
  function Compact(cells: seq<Cell>): seq<Byte>
    requires Fits(cells)
  {
    [|cells|] + CellsBytes(cells)
  }

  /** The cell at `i` of a byte array and where the next one starts, if it is whole. */
  function CellAt(val: seq<Byte>, i: nat): (r: Option<(Cell, nat)>)
    ensures r.Some? ==> i < r.value.1 <= |val|
  {
    if i + 2 < |val| && val[i] == STRING then
      var n := i + 2 + val[i + 1];
      if n < |val| && n + 1 + val[n] <= |val| then
        var name, value := val[i + 2..n], val[n + 1..n + 1 + val[n]];
        if NulFree(name) && NulFree(value) then Some((Cell(name, value), n + 1 + val[n])) else None
      else None
    else None
  }

  function Cells(val: seq<Byte>, i: nat, count: nat): Option<seq<Cell>>
    decreases count
  {
    if count == 0 then Some([])
    else
      match CellAt(val, i)
      case None => None
      case Some((c, next)) =>
        match Cells(val, next, count - 1)
        case None => None
        case Some(cs) => Some([c] + cs)
  }

  /** `data_expand`, as far as the array reaches. */
  function Expand(val: seq<Byte>): Option<seq<Cell>> {
    if val == [] then Some([]) else Cells(val, 1, val[0])
  }

  /** What `strdup` keeps of a byte array: the bytes up to the first zero, and that zero. */
  function Stored(cells: seq<Cell>): seq<Byte>
    requires Fits(cells)
  {
    CutAtNul(Compact(cells)) + [NUL]
  }

  // ---- The block that is allocated ----

  /** The highest index that is written for cells from `i` on: the copy of a value leaves a zero behind it. */
  function HighestWrite(cells: seq<Cell>, i: nat): nat
    requires cells != [] && forall k :: 0 <= k < |cells| ==> CellFits(cells[k])
  {
    var end := i + |CellBytes(cells[0])|;
    if |cells| == 1 then end
    else
      var later := HighestWrite(cells[1..], end);
      if later < end then end else later
  }

  lemma {:induction false} HighestWriteIs(cells: seq<Cell>, i: nat)
    requires cells != [] && forall k :: 0 <= k < |cells| ==> CellFits(cells[k])
    ensures HighestWrite(cells, i) == i + |CellsBytes(cells)|
    decreases |cells|
  {
    hide CellFits, CellBytes;
    if |cells| == 1 {
      assert cells[1..] == [];
    } else {
      HighestWriteIs(cells[1..], i + |CellBytes(cells[0])|);
    }
  }

  /** Every row is written one byte past a block of its length. */
  lemma WritesPastBlock(cells: seq<Cell>)
    requires Fits(cells)
    ensures HighestWrite(cells, 1) == |Compact(cells)|
  {
    HighestWriteIs(cells, 1);
  }

  /** For a cell named `a` that holds `b`, six bytes are allocated and byte 6 is written. */
  lemma WritesPastBlockOfOne()
    ensures var cells := [Cell([97], [98])];
      Fits(cells) && Compact(cells) == [1, 4, 1, 97, 1, 98] && HighestWrite(cells, 1) == 6
  {
    var cells := [Cell([97], [98])];
    assert cells[1..] == [];
    assert CellsBytes(cells) == CellBytes(cells[0]) + [];
  }

  // ---- Round trip ----

  /** `part` stands in `val` at `i`. */
  predicate Stands(val: seq<Byte>, i: nat, part: seq<Byte>) {
    i + |part| <= |val| && forall j :: 0 <= j < |part| ==> val[i + j] == part[j]
  }

  lemma CellReadsBack(val: seq<Byte>, i: nat, c: Cell)
    requires CellFits(c) && Stands(val, i, CellBytes(c))
    ensures CellAt(val, i) == Some((c, i + |CellBytes(c)|))
  {
    var b := CellBytes(c);
    var n := i + 2 + |c.name|;
    assert val[i] == b[0] && val[i + 1] == b[1];
    assert val[n] == b[2 + |c.name|];
    assert forall j :: 0 <= j < |c.name| ==> b[2 + j] == c.name[j];
    assert forall j :: 0 <= j < |c.value| ==> b[3 + |c.name| + j] == c.value[j];
    SliceIs(val, i, b, 2, c.name);
    SliceIs(val, i, b, 3 + |c.name|, c.value);
  }

  lemma SliceIs(val: seq<Byte>, i: nat, b: seq<Byte>, k: nat, w: seq<Byte>)
    requires Stands(val, i, b) && k + |w| <= |b| && forall j :: 0 <= j < |w| ==> b[k + j] == w[j]
    ensures val[i + k..i + k + |w|] == w
  {
    forall j | 0 <= j < |w| ensures val[i + k + j] == w[j] {
      assert val[i + (k + j)] == b[k + j];
    }
  }

  lemma {:induction false} CellsReadBack(val: seq<Byte>, i: nat, cells: seq<Cell>)
    requires (forall k :: 0 <= k < |cells| ==> CellFits(cells[k])) && Stands(val, i, CellsBytes(cells))
    ensures Cells(val, i, |cells|) == Some(cells)
    decreases |cells|
  {
    if cells != [] {
      var b, more := CellBytes(cells[0]), CellsBytes(cells[1..]);
      StandsBoth(val, i, b, more);
      hide *;
      CellReadsBack(val, i, cells[0]);
      CellsReadBack(val, i + |b|, cells[1..]);
      CellsNext(val, i, |cells[1..]|);
      assert [cells[0]] + cells[1..] == cells;
    }
  }

  lemma StandsBoth(val: seq<Byte>, i: nat, a: seq<Byte>, b: seq<Byte>)
    requires Stands(val, i, a + b)
    ensures Stands(val, i, a) && Stands(val, i + |a|, b)
  {
    forall j | 0 <= j < |a| ensures val[i + j] == a[j] {
      assert val[i + j] == (a + b)[j];
    }
    forall j | 0 <= j < |b| ensures val[i + |a| + j] == b[j] {
      assert val[i + (|a| + j)] == (a + b)[|a| + j];
    }
  }

  /** A whole array reads back as the row. */
  lemma CompactReadsBack(cells: seq<Cell>)
    requires Fits(cells)
    ensures Expand(Compact(cells)) == Some(cells)
  {
    hide CellsBytes;
    CellsReadBack(Compact(cells), 1, cells);
  }

  // ---- Zero bytes ----

  lemma {:induction false} CutPast(a: seq<Byte>, b: seq<Byte>)
    requires NulFree(a)
    ensures CutAtNul(a + b) == a + CutAtNul(b)
    decreases |a|
  {
    hide CutAtNul;
    if a == [] {
      assert a + b == b;
    } else {
      var rest := a[1..];
      CutPast(rest, b);
      CutNext(a[0], rest + b);
      FirstOut(a, b);
      FirstOut(a, CutAtNul(b));
    }
  }

  lemma FirstOut(a: seq<Byte>, b: seq<Byte>)
    requires a != []
    ensures a + b == [a[0]] + (a[1..] + b)
  {
  }

  lemma CutNext(c: Byte, rest: seq<Byte>)
    requires c != NUL
    ensures CutAtNul([c] + rest) == [c] + CutAtNul(rest)
  {
    assert ([c] + rest)[1..] == rest;
  }

  lemma NulFreeSum(a: seq<Byte>, b: seq<Byte>)
    requires NulFree(a) && NulFree(b)
    ensures NulFree(a + b)
  {
  }

  lemma CutHere(b: seq<Byte>)
    requires b != [] && b[0] == NUL
    ensures CutAtNul(b) == []
  {
  }

  /** What is left of a cell whose name is empty. */
  lemma NamelessCell(pre: seq<Byte>, c: Cell, rest: seq<Byte>)
    requires CellFits(c) && NulFree(pre) && c.name == []
    ensures CellAt(CutAtNul(pre + CellBytes(c) + rest) + [NUL], |pre|) == None
  {
    hide CutAtNul;
    var a, b := pre + [STRING], [0] + [|c.value|] + c.value + rest;
    assert pre + CellBytes(c) + rest == a + b;
    NulFreeSum(pre, [STRING]);
    CutPast(a, b);
    CutHere(b);
  }

  /** What is left of a cell whose value is empty: the zero that ends the string is its length. */
  lemma ValuelessCell(pre: seq<Byte>, c: Cell, rest: seq<Byte>)
    requires CellFits(c) && NulFree(pre) && c.name != [] && c.value == []
    ensures var t := CutAtNul(pre + CellBytes(c) + rest) + [NUL];
      CellAt(t, |pre|) == Some((c, |t|))
  {
    hide CutAtNul;
    var head := [STRING, |c.name|] + c.name;
    assert pre + CellBytes(c) + rest == (pre + head) + ([0] + rest);
    NulFreeSum([STRING, |c.name|], c.name);
    NulFreeSum(pre, head);
    CutPast(pre + head, [0] + rest);
    CutHere([0] + rest);
    var t := pre + head + [NUL];
    assert CutAtNul(pre + CellBytes(c) + rest) + [NUL] == t;
    var i, n := |pre|, |pre| + 2 + |c.name|;
    assert t[i] == STRING && t[i + 1] == |c.name| && t[n] == NUL;
    assert t[i + 2..n] == c.name && t[n + 1..n + 1] == [];
  }

  lemma FullCell(pre: seq<Byte>, c: Cell, rest: seq<Byte>)
    requires CellFits(c) && NulFree(pre) && c.name != [] && c.value != []
    ensures NulFree(pre + CellBytes(c))
    ensures CellAt(CutAtNul(pre + CellBytes(c) + rest) + [NUL], |pre|) == Some((c, |pre + CellBytes(c)|))
  {
    hide CutAtNul;
    var b := CellBytes(c);
    assert NulFree(b);
    NulFreeSum(pre, b);
    CutPast(pre + b, rest);
    var t := CutAtNul(pre + b + rest) + [NUL];
    hide CellBytes, CellAt;
    forall j | 0 <= j < |b| ensures t[|pre| + j] == b[j] {
      assert t[|pre| + j] == (pre + b)[|pre| + j];
    }
    CellReadsBack(t, |pre|, c);
  }

  /** Reading cells from what is left of them when the first zero has ended the string. */
  lemma {:induction false} LeftOver(pre: seq<Byte>, cells: seq<Cell>)
    requires NulFree(pre) && forall k :: 0 <= k < |cells| ==> CellFits(cells[k])
    ensures Cells(CutAtNul(pre + CellsBytes(cells)) + [NUL], |pre|, |cells|) ==
            if ComesBack(cells) then Some(cells) else None
    decreases |cells|
  {
    if cells != [] {
      var c, more := cells[0], cells[1..];
      var b, rest := CellBytes(c), CellsBytes(more);
      Associates(pre, b, rest);
      assert CellsBytes(cells) == b + rest;
      hide *;
      assert cells == [c] + more;
      var t := CutAtNul(pre + b + rest) + [NUL];
      ComesBackCons(c, more);
      CellsNext(t, |pre|, |more|);
      if c.name == [] {
        NamelessCell(pre, c, rest);
      } else if c.value == [] {
        ValuelessCell(pre, c, rest);
        PastEnd(t, |more|);
      } else {
        FullCell(pre, c, rest);
        LeftOver(pre + b, more);
      }
    }
  }

  lemma CellsNext(t: seq<Byte>, i: nat, count: nat)
    ensures CellAt(t, i).None? ==> Cells(t, i, 1 + count) == None
    ensures CellAt(t, i).Some? ==>
              var (c, next) := CellAt(t, i).value;
              match Cells(t, next, count)
              case None => Cells(t, i, 1 + count) == None
              case Some(cs) => Cells(t, i, 1 + count) == Some([c] + cs)
  {
    hide CellAt;
  }

  lemma ComesBackCons(c: Cell, more: seq<Cell>)
    ensures ComesBack([c] + more) <==> c.name != [] && (c.value != [] || more == []) && ComesBack(more)
  {
    var all := [c] + more;
    if ComesBack(all) {
      forall i | 0 <= i < |more| ensures more[i].name != [] && (more[i].value != [] || i == |more| - 1) {
        assert all[i + 1] == more[i];
      }
      assert all[0] == c;
    }
  }

  lemma PastEnd(t: seq<Byte>, count: nat)
    ensures Cells(t, |t|, count) == if count == 0 then Some([]) else None
  {
  }

  /** A stored row comes back as it was if only its last value is empty, if any; otherwise reading it goes
      past the end of what is stored. */
  lemma StoredReadsBack(cells: seq<Cell>)
    requires Fits(cells)
    ensures Expand(Stored(cells)) == if ComesBack(cells) then Some(cells) else None
  {
    hide CellsBytes, Cells, ComesBack, CutAtNul;
    LeftOver([|cells|], cells);
    var t := Stored(cells);
    assert t[0] == |cells| by {
      CutPast([|cells|], CellsBytes(cells));
    }
  }

  /** The row with one cell named `a` comes back with an empty value, and is lost with a cell after it. */
  lemma EmptyValueExamples()
    ensures Expand(Stored([Cell([97], [])])) == Some([Cell([97], [])])
    ensures Expand(Stored([Cell([97], []), Cell([98], [99])])) == None
  {
    StoredReadsBack([Cell([97], [])]);
    var two := [Cell([97], []), Cell([98], [99])];
    StoredReadsBack(two);
    assert two[0].value == [];
  }
}

/** Search trees of keys and byte arrays (pocketDB/treemap.c). */
module TreeSpec {
  import opened Chars
  import opened RowSpec

  type Key = seq<Byte>

  // ---- The order of keys ----

  /** The order of `strcmp` on C strings. */
  predicate Before(a: Key, b: Key)
    decreases |a|
  {
    b != [] && (a == [] || a[0] < b[0] || (a[0] == b[0] && Before(a[1..], b[1..])))
  }

  /** The keys agree up to `k`, where the first one ends or has the smaller byte. */
  predicate DiffersAt(a: Key, b: Key, k: nat) {
    k <= |a| && k < |b| && a[..k] == b[..k] && (k == |a| || a[k] < b[k])
  }

  lemma DiffersFirst(a: Key, b: Key, k: nat)
    requires DiffersAt(a, b, k)
    ensures k == 0 || (a != [] && b != [] && a[0] == b[0])
  {
    if k > 0 {
      assert a[0] == a[..k][0] && b[0] == b[..k][0];
    }
  }

  /** It is the order at the first byte that differs, the end coming before every byte. */
  lemma {:induction false} BeforeIff(a: Key, b: Key)
    ensures Before(a, b) <==> exists k: nat :: DiffersAt(a, b, k)
    decreases |a|
  {
    if a == [] || b == [] || a[0] != b[0] {
      if a == [] || (b != [] && a[0] < b[0]) {
        assert b != [] ==> DiffersAt(a, b, 0);
      }
      if k: nat :| DiffersAt(a, b, k) {
        DiffersFirst(a, b, k);
      }
    } else {
      BeforeIff(a[1..], b[1..]);
      if k: nat :| DiffersAt(a[1..], b[1..], k) {
        assert a[..k + 1] == [a[0]] + a[1..][..k] && b[..k + 1] == [b[0]] + b[1..][..k];
        assert DiffersAt(a, b, k + 1);
      }
      if k: nat :| DiffersAt(a, b, k) {
        assert k > 0;
        assert a[1..][..k - 1] == a[..k][1..] && b[1..][..k - 1] == b[..k][1..];
        assert DiffersAt(a[1..], b[1..], k - 1);
      }
    }
  }

  lemma {:induction false} BeforeTransitive(a: Key, b: Key, c: Key)
    requires Before(a, b) && Before(b, c)
    ensures Before(a, c)
    decreases |a|
  {
    if a != [] && a[0] == b[0] == c[0] {
      BeforeTransitive(a[1..], b[1..], c[1..]);
    }
  }

  lemma {:induction false} BeforeTotal(a: Key, b: Key)
    ensures !Before(a, a)
    ensures a == b || Before(a, b) || Before(b, a)
    ensures !(Before(a, b) && Before(b, a))
    decreases |a|
  {
    if a != [] && b != [] {
      BeforeTotal(a[1..], b[1..]);
      assert a == [a[0]] + a[1..] && b == [b[0]] + b[1..];
    } else if a != [] {
      BeforeTotal(a[1..], []);
    }
  }

  // ---- Trees ----

  datatype Tree = Empty | Fork(left: Tree, key: Key, value: seq<Byte>, right: Tree)

  /** `new_node` */
  function Insert(t: Tree, key: Key, value: seq<Byte>): Tree {
    match t
    case Empty => Fork(Empty, key, value, Empty)
    case Fork(l, k, v, r) =>
      if key == k then Fork(l, k, value, r)
      else if Before(key, k) then Fork(Insert(l, key, value), k, v, r)
      else Fork(l, k, v, Insert(r, key, value))
  }

  /** The mapping that a tree stands for. */
  function Model(t: Tree): map<Key, seq<Byte>> {
    match t
    case Empty => map[]
    case Fork(l, k, v, r) => (Model(l) + Model(r))[k := v]
  }

  predicate AllBefore(t: Tree, k: Key) {
    forall j :: j in Model(t) ==> Before(j, k)
  }

  predicate AllAfter(t: Tree, k: Key) {
    forall j :: j in Model(t) ==> Before(k, j)
  }

  predicate Search(t: Tree) {
    match t
    case Empty => true
    case Fork(l, k, v, r) => Search(l) && Search(r) && AllBefore(l, k) && AllAfter(r, k)
  }

  /** Inserting keeps the order and updates the mapping at one key. */
  lemma {:induction false} InsertUpdates(t: Tree, key: Key, value: seq<Byte>)
    requires Search(t)
    ensures Search(Insert(t, key, value)) && Model(Insert(t, key, value)) == Model(t)[key := value]
    decreases t
  {
    match t
    case Empty =>
    case Fork(l, k, v, r) =>
      hide Before, Search, Model;
      Unfold(t);
      Unfold(Insert(t, key, value));
      BeforeTotal(key, k);
      if key == k {
      } else if Before(key, k) {
        InsertUpdates(l, key, value);
        assert key !in Model(r);
        UpdateLeft(Model(l), Model(r), k, v, key, value);
      } else {
        InsertUpdates(r, key, value);
        UpdateRight(Model(l), Model(r), k, v, key, value);
      }
  }

  lemma Unfold(t: Tree)
    requires t.Fork?
    ensures Model(t) == (Model(t.left) + Model(t.right))[t.key := t.value]
    ensures Search(t) == (Search(t.left) && Search(t.right) && AllBefore(t.left, t.key) && AllAfter(t.right, t.key))
  {
  }

  lemma UpdateLeft(l: map<Key, seq<Byte>>, r: map<Key, seq<Byte>>, k: Key, v: seq<Byte>, key: Key, value: seq<Byte>)
    requires key != k && key !in r
    ensures (l[key := value] + r)[k := v] == (l + r)[k := v][key := value]
  {
  }

  lemma UpdateRight(l: map<Key, seq<Byte>>, r: map<Key, seq<Byte>>, k: Key, v: seq<Byte>, key: Key, value: seq<Byte>)
    requires key != k
    ensures (l + r[key := value])[k := v] == (l + r)[k := v][key := value]
  {
  }

  // ---- Visiting ----

  datatype Entry = Entry(key: Key, value: seq<Byte>)

  function InOrder(t: Tree): seq<Entry> {
    match t
    case Empty => []
    case Fork(l, k, v, r) => InOrder(l) + [Entry(k, v)] + InOrder(r)
  }

  predicate Ascending(es: seq<Entry>) {
    forall i, j :: 0 <= i < j < |es| ==> Before(es[i].key, es[j].key)
  }

  /** The visit lists the mapping. */
  lemma {:induction false} InOrderLists(t: Tree, e: Entry)
    requires Search(t)
    ensures e in InOrder(t) <==> e.key in Model(t) && Model(t)[e.key] == e.value
    decreases t
  {
    match t
    case Empty =>
    case Fork(l, k, v, r) =>
      InOrderLists(l, e);
      InOrderLists(r, e);
      BeforeTotal(k, e.key);
      hide Before;
      if e.key in Model(l) {
        assert Before(e.key, k);
      }
      if e.key in Model(r) {
        assert Before(k, e.key);
      }
  }

  /** Every key is visited once, in strictly ascending order. */
  lemma {:induction false} InOrderAscends(t: Tree)
    requires Search(t)
    ensures Ascending(InOrder(t))
    decreases t
  {
    match t
    case Empty =>
    case Fork(l, k, v, r) =>
      InOrderAscends(l);
      InOrderAscends(r);
      var a, b := InOrder(l), InOrder(r);
      forall e | e in a ensures Before(e.key, k) {
        InOrderLists(l, e);
      }
      forall e | e in b ensures Before(k, e.key) {
        InOrderLists(r, e);
      }
      AscendingAround(a, Entry(k, v), b);
  }

  lemma AscendingAround(a: seq<Entry>, e: Entry, b: seq<Entry>)
    requires Ascending(a) && Ascending(b)
    requires (forall x :: x in a ==> Before(x.key, e.key)) && (forall x :: x in b ==> Before(e.key, x.key))
    ensures Ascending(a + [e] + b)
  {
    hide Before;
    var s := a + [e] + b;
    forall i, j | 0 <= i < j < |s| ensures Before(s[i].key, s[j].key) {
      if i < |a| < j {
        assert s[i] == a[i] && s[j] == b[j - |a| - 1];
        BeforeTransitive(s[i].key, e.key, s[j].key);
      } else if i > |a| {
        assert s[i] == b[i - |a| - 1] && s[j] == b[j - |a| - 1];
      } else if i == |a| {
        assert s[j] == b[j - |a| - 1];
      } else {
        assert s[i] == a[i];
      }
    }
  }

  // ---- Runs ----

  datatype Put = Put(key: Key, row: seq<Cell>)

  predicate Storable(puts: seq<Put>) {
    forall i :: 0 <= i < |puts| ==> Fits(puts[i].row)
  }

  function TreeAfter(puts: seq<Put>): Tree
    requires Storable(puts)
  {
    if puts == [] then Empty
    else
      var last := puts[|puts| - 1];
      Insert(TreeAfter(puts[..|puts| - 1]), last.key, Stored(last.row))
  }

  /** The row that was put last under a key. */
  function LastRow(puts: seq<Put>, key: Key): Option<seq<Cell>> {
    if puts == [] then None
    else if puts[|puts| - 1].key == key then Some(puts[|puts| - 1].row)
    else LastRow(puts[..|puts| - 1], key)
  }

  lemma {:induction false} TreeAfterIs(puts: seq<Put>)
    requires Storable(puts)
    ensures Search(TreeAfter(puts))
    ensures forall key :: key in Model(TreeAfter(puts)) <==> LastRow(puts, key).Some?
    ensures forall key :: key in Model(TreeAfter(puts)) ==> StoredAs(LastRow(puts, key), Model(TreeAfter(puts))[key])
    decreases |puts|
  {
    if puts != [] {
      var front, last := puts[..|puts| - 1], puts[|puts| - 1];
      TreeAfterIs(front);
      InsertUpdates(TreeAfter(front), last.key, Stored(last.row));
      StoredReadsBack(last.row);
    }
  }

  predicate StoredAs(row: Option<seq<Cell>>, value: seq<Byte>) {
    row.Some? && Expand(value) == Restored(row.value)
  }

  /** What comes back of a row. */
  function Restored(row: seq<Cell>): Option<seq<Cell>> {
    if ComesBack(row) then Some(row) else None
  }

  /** `tree_get_all`: each key with its row. */
  datatype Shown = Shown(key: Key, row: Option<seq<Cell>>)

  function Visit(es: seq<Entry>): (s: seq<Shown>)
    ensures |s| == |es| && forall i :: 0 <= i < |s| ==> s[i] == Shown(es[i].key, Expand(es[i].value))
  {
    if es == [] then [] else [Shown(es[0].key, Expand(es[0].value))] + Visit(es[1..])
  }

  /** After any puts, the visit meets each key once, in strictly ascending order, with what comes back of
      the row that was put last under it. */
  lemma VisitShowsLastRows(puts: seq<Put>)
    requires Storable(puts)
    ensures var shown := Visit(InOrder(TreeAfter(puts)));
      && (forall i, j :: 0 <= i < j < |shown| ==> Before(shown[i].key, shown[j].key))
      && (forall x: Shown :: x in shown <==>
            var last := LastRow(puts, x.key); last.Some? && x.row == Restored(last.value))
  {
    var t := TreeAfter(puts);
    var es := InOrder(t);
    var shown := Visit(es);
    TreeAfterIs(puts);
    InOrderAscends(t);
    hide TreeAfter, InOrder, Before, Search, Model, Restored;
    forall x: Shown
      ensures x in shown <==> var last := LastRow(puts, x.key); last.Some? && x.row == Restored(last.value)
    {
      var last := LastRow(puts, x.key);
      if x in shown {
        var i :| 0 <= i < |shown| && shown[i] == x;
        assert es[i] in es;
        InOrderLists(t, es[i]);
      }
      if last.Some? && x.row == Restored(last.value) {
        var e := Entry(x.key, Model(t)[x.key]);
        InOrderLists(t, e);
        var i :| 0 <= i < |es| && es[i] == e;
        assert shown[i] == x;
      }
    }
  }

  /** All values of a tree hold whole rows. */
  predicate Readable(t: Tree) {
    match t
    case Empty => true
    case Fork(l, k, v, r) => Readable(l) && Expand(v).Some? && Readable(r)
  }

  lemma {:induction false} ReadableMeans(t: Tree)
    ensures Readable(t) <==> forall e :: e in InOrder(t) ==> Expand(e.value).Some?
    decreases t
  {
    match t
    case Empty =>
    case Fork(l, k, v, r) =>
      hide Expand;
      ReadableMeans(l);
      ReadableMeans(r);
      assert Entry(k, v) in InOrder(t);
      assert forall e :: e in InOrder(t) <==> e in InOrder(l) || e == Entry(k, v) || e in InOrder(r);
  }

  /** The row that is under a key, if any, comes back. */
  predicate KeyComesBack(puts: seq<Put>, key: Key) {
    LastRow(puts, key).Some? ==> ComesBack(LastRow(puts, key).value)
  }

  ghost predicate AllComeBack(puts: seq<Put>) {
    forall key: Key :: KeyComesBack(puts, key)
  }

  /** After any puts, everything can be shown if and only if every row that is still there comes back. */
  lemma ReadableAfter(puts: seq<Put>)
    requires Storable(puts)
    ensures Readable(TreeAfter(puts)) <==> AllComeBack(puts)
  {
    var t := TreeAfter(puts);
    ReadableMeans(t);
    hide *;
    if Readable(t) {
      forall key: Key ensures KeyComesBack(puts, key) {
        ReadableKey(puts, key);
      }
      AllKeys(puts);
    }
    if AllComeBack(puts) {
      forall e | e in InOrder(t) ensures Expand(e.value).Some? {
        OneKey(puts, e.key);
        ReadableEntry(puts, e);
      }
    }
  }

  lemma AllKeys(puts: seq<Put>)
    requires forall key: Key :: KeyComesBack(puts, key)
    ensures AllComeBack(puts)
  {
  }

  lemma OneKey(puts: seq<Put>, key: Key)
    requires AllComeBack(puts)
    ensures KeyComesBack(puts, key)
  {
  }

  lemma ReadableKey(puts: seq<Put>, key: Key)
    requires Storable(puts) && Readable(TreeAfter(puts))
    ensures KeyComesBack(puts, key)
  {
    var t := TreeAfter(puts);
    TreeAfterIs(puts);
    ReadableMeans(t);
    hide TreeAfter, InOrder, Search, Model, Readable, Expand, ComesBack, LastRow;
    if LastRow(puts, key).Some? {
      var e := Entry(key, Model(t)[key]);
      InOrderLists(t, e);
      assert StoredAs(LastRow(puts, key), e.value) && Expand(e.value).Some?;
    }
  }

  lemma ReadableEntry(puts: seq<Put>, e: Entry)
    requires Storable(puts) && e in InOrder(TreeAfter(puts)) && KeyComesBack(puts, e.key)
    ensures Expand(e.value).Some?
  {
    var t := TreeAfter(puts);
    TreeAfterIs(puts);
    hide TreeAfter, InOrder, Search, Model, Expand, ComesBack, LastRow;
    InOrderLists(t, e);
    assert StoredAs(LastRow(puts, e.key), e.value);
  }
}

module PocketDB {
  import opened Chars
  import opened RowSpec
  import opened TreeSpec

  // ---- Rows ----

  class CellNode {
    var cell: Cell
    var nextCell: CellNode?

    constructor (cell: Cell)
      ensures this.cell == cell && nextCell == null
    {
      this.cell, nextCell := cell, null;
    }
  }

  function Nth(nodes: seq<CellNode>, i: nat): CellNode? {
    if i < |nodes| then nodes[i] else null
  }

  /** `nodes` are the nodes of the linked list that starts at `first`. */
  ghost predicate Chain(nodes: seq<CellNode>, first: CellNode?)
    reads nodes
  {
    && first == Nth(nodes, 0)
    && (forall i :: 0 <= i < |nodes| ==> nodes[i].nextCell == Nth(nodes, i + 1))
    && (forall i, j :: 0 <= i < j < |nodes| ==> nodes[i] != nodes[j])
  }

  ghost function Row(nodes: seq<CellNode>): (cells: seq<Cell>)
    reads nodes
    ensures |cells| == |nodes| && forall i :: 0 <= i < |cells| ==> cells[i] == nodes[i].cell
  {
    seq(|nodes|, i requires 0 <= i < |nodes| reads nodes => nodes[i].cell)
  }

  /** `linked_list`: walk to the last node and hang the new one there. */
  method LinkedList(first: CellNode?, newCell: CellNode, ghost nodes: seq<CellNode>) returns (r: CellNode)
    requires Chain(nodes, first) && newCell !in nodes && newCell.nextCell == null
    modifies nodes
    ensures Chain(nodes + [newCell], r) && Row(nodes + [newCell]) == old(Row(nodes)) + [newCell.cell]
  {
    if first == null {
      return newCell;
    }
    var temp := first;
    ghost var k := 0;
    while temp.nextCell != null
      invariant 0 <= k < |nodes| && temp == nodes[k]
      decreases |nodes| - k
    {
      assert nodes[k].nextCell == Nth(nodes, k + 1);
      temp := temp.nextCell;
      k := k + 1;
    }
    assert nodes[k].nextCell == Nth(nodes, k + 1);
    temp.nextCell := newCell;
    r := first;
    ghost var more := nodes + [newCell];
    forall i | 0 <= i < |more| ensures more[i].nextCell == Nth(more, i + 1) {
      assert i < k ==> nodes[i].nextCell == Nth(nodes, i + 1);
    }
  }

  lemma {:induction false} CellsSnoc(cells: seq<Cell>, c: Cell)
    requires CellFits(c) && forall i :: 0 <= i < |cells| ==> CellFits(cells[i])
    ensures CellsBytes(cells + [c]) == CellsBytes(cells) + CellBytes(c)
    decreases |cells|
  {
    hide CellFits, CellBytes;
    var more := cells + [c];
    if cells == [] {
      assert more[1..] == [];
    } else {
      assert more[1..] == cells[1..] + [c];
      CellsSnoc(cells[1..], c);
    }
  }

  lemma NextCell(cells: seq<Cell>, k: nat)
    requires k < |cells| && forall i :: 0 <= i < |cells| ==> CellFits(cells[i])
    ensures CellsBytes(cells[..k + 1]) == CellsBytes(cells[..k]) + CellBytes(cells[k])
  {
    CellsSnoc(cells[..k], cells[k]);
    assert cells[..k + 1] == cells[..k] + [cells[k]];
  }

  /** `row_length` */
  method RowLength(first: CellNode?, ghost nodes: seq<CellNode>) returns (len: nat)
    requires Chain(nodes, first) && Fits(Row(nodes))
    ensures len == |Compact(Row(nodes))|
  {
    hide CellsBytes;
    ghost var cells := Row(nodes);
    len := 1;
    var rootc := first;
    ghost var k := 0;
    NoCells();
    while rootc != null
      invariant 0 <= k <= |nodes| && rootc == Nth(nodes, k)
      invariant len == 1 + |CellsBytes(cells[..k])|
      decreases |nodes| - k
    {
      NextCell(cells, k);
      assert nodes[k].nextCell == Nth(nodes, k + 1);
      len := len + 3;
      len := len + |rootc.cell.name| + |rootc.cell.value|;
      rootc := rootc.nextCell;
      k := k + 1;
    }
    assert cells[..k] == cells;
  }

  lemma NoCells()
    ensures CellsBytes([]) == []
  {
  }

  /** `strcpy`; not `ok` when the zero at the end falls outside the memory that there is. */
  method StrCpy(buf: array<Byte>, at: nat, s: seq<Byte>) returns (ok: bool)
    requires at + |s| <= buf.Length
    modifies buf
    ensures ok <==> at + |s| < buf.Length
    ensures Stands(buf[..], at, s) && (ok ==> buf[at + |s|] == NUL)
    ensures forall k :: 0 <= k < at ==> buf[k] == old(buf[k])
  {
    var j := 0;
    while j < |s|
      invariant 0 <= j <= |s| && forall k :: 0 <= k < j ==> buf[at + k] == s[k]
      invariant forall k :: 0 <= k < at ==> buf[k] == old(buf[k])
    {
      buf[at + j] := s[j];
      j := j + 1;
    }
    ok := at + |s| < buf.Length;
    if ok {
      buf[at + |s|] := NUL;
    }
  }

  /** One turn of the loop of `data_compact`. */
  method WriteCell(buf: array<Byte>, i0: nat, c: Cell) returns (ok: bool, i: nat)
    requires CellFits(c) && i0 + |CellBytes(c)| <= buf.Length
    modifies buf
    ensures ok <==> i < buf.Length
    ensures i == i0 + |CellBytes(c)| && Stands(buf[..], i0, CellBytes(c)) && (ok ==> buf[i] == NUL)
    ensures forall k :: 0 <= k < i0 ==> buf[k] == old(buf[k])
  {
    i := i0;
    buf[i] := STRING;
    i := i + 1;
    buf[i] := |c.name|;
    i := i + 1;
    ok := StrCpy(buf, i, c.name);
    i := i + |c.name|;
    buf[i] := |c.value|;
    i := i + 1;
    ok := StrCpy(buf, i, c.value);
    i := i + |c.value|;
    CellStands(buf[..], i0, c);
  }

  lemma CellStands(text: seq<Byte>, i: nat, c: Cell)
    requires CellFits(c) && i + |CellBytes(c)| <= |text|
    requires text[i] == STRING && text[i + 1] == |c.name| && Stands(text, i + 2, c.name)
    requires text[i + 2 + |c.name|] == |c.value| && Stands(text, i + 3 + |c.name|, c.value)
    ensures Stands(text, i, CellBytes(c))
  {
    var b, n := CellBytes(c), |c.name|;
    forall j | 0 <= j < |b| ensures text[i + j] == b[j] {
      if 2 <= j < 2 + n {
        assert text[i + 2 + (j - 2)] == c.name[j - 2];
      } else if j >= 3 + n {
        assert text[i + 3 + n + (j - 3 - n)] == c.value[j - 3 - n];
      }
    }
  }

  /** The loop of `data_compact`. */
  method FillCells(buf: array<Byte>, dataLen: nat, first: CellNode?, ghost nodes: seq<CellNode>)
    returns (ok: bool, cols: nat)
    requires Chain(nodes, first) && Fits(Row(nodes))
    requires dataLen == 1 + |CellsBytes(Row(nodes))| <= buf.Length
    modifies buf
    ensures ok <==> dataLen < buf.Length
    ensures cols == |nodes| && Stands(buf[..], 1, CellsBytes(Row(nodes))) && (ok ==> buf[dataLen] == NUL)
  {
    hide CellsBytes, CellBytes, Stands, CellFits, Chain, Row, Nth;
    ghost var cells := Row(nodes);
    ChainStart(nodes, first);
    var i := 1;
    ok, cols := true, 0;
    var rootc := first;
    NoCells();
    NothingStands(buf[..], 1);
    while rootc != null && i < dataLen
      invariant cols <= |nodes| && rootc == Nth(nodes, cols) && Chain(nodes, first) && Row(nodes) == cells
      invariant i == 1 + |CellsBytes(cells[..cols])| <= dataLen && Stands(buf[..], 1, CellsBytes(cells[..cols]))
      invariant cols > 0 ==> (ok <==> i < buf.Length) && (ok ==> buf[i] == NUL)
      decreases |nodes| - cols
    {
      ChainStep(nodes, first, cols);
      NextCell(cells, cols);
      BytesPrefix(cells, cols + 1);
      ghost var was := buf[..];
      ok, i := WriteCell(buf, i, rootc.cell);
      StandsMore(was, buf[..], CellsBytes(cells[..cols]), CellBytes(cells[cols]));
      cols := cols + 1;
      rootc := rootc.nextCell;
    }
    ChainEnd(nodes, cols);
    AllWritten(cells, cols);
  }

  lemma ChainStart(nodes: seq<CellNode>, first: CellNode?)
    requires Chain(nodes, first)
    ensures first == Nth(nodes, 0)
  {
  }

  lemma ChainStep(nodes: seq<CellNode>, first: CellNode?, k: nat)
    requires Chain(nodes, first) && Nth(nodes, k) != null
    ensures k < |nodes| && Nth(nodes, k) == nodes[k] && nodes[k].nextCell == Nth(nodes, k + 1)
    ensures nodes[k].cell == Row(nodes)[k]
  {
  }

  lemma ChainEnd(nodes: seq<CellNode>, k: nat)
    requires k <= |nodes|
    ensures Nth(nodes, k) == null <==> k == |nodes|
  {
  }

  /** `data_compact`: a block of the length of the row is filled with its bytes. `slack` bytes behind the
      block can be written to; it is not `ok` when the last copy writes outside them. The program stops on an
      empty row. */
  method DataCompact(first: CellNode?, slack: nat, ghost nodes: seq<CellNode>) returns (ok: bool, buf: array<Byte>)
    requires Chain(nodes, first) && Fits(Row(nodes))
    ensures fresh(buf) && buf.Length == |Compact(Row(nodes))| + slack
    ensures ok <==> HighestWrite(Row(nodes), 1) < buf.Length
    ensures Compact(Row(nodes)) <= buf[..]
    ensures ok ==> |Compact(Row(nodes))| < buf.Length && buf[|Compact(Row(nodes))|] == NUL
  {
    hide CellsBytes, Stands, HighestWrite;
    ghost var cells := Row(nodes);
    var dataLen := RowLength(first, nodes);
    buf := new Byte[dataLen + slack];
    var cols;
    ok, cols := FillCells(buf, dataLen, first, nodes);
    ghost var was := buf[..];
    buf[0] := cols;
    StandsAfter(was, buf[..], CellsBytes(cells));
    Whole(buf[..], cells);
    WritesPastBlock(cells);
  }

  lemma NothingStands(text: seq<Byte>, i: nat)
    requires i <= |text|
    ensures Stands(text, i, [])
  {
  }

  lemma {:induction false} BytesPrefix(cells: seq<Cell>, k: nat)
    requires k <= |cells| && forall i :: 0 <= i < |cells| ==> CellFits(cells[i])
    ensures |CellsBytes(cells[..k])| <= |CellsBytes(cells)|
    ensures k < |cells| ==> |CellsBytes(cells[..k])| < |CellsBytes(cells)|
    decreases |cells| - k
  {
    hide CellsBytes;
    if k == |cells| {
      assert cells[..k] == cells;
    } else {
      NextCell(cells, k);
      BytesPrefix(cells, k + 1);
    }
  }

  lemma StandsMore(was: seq<Byte>, now: seq<Byte>, a: seq<Byte>, b: seq<Byte>)
    requires Stands(was, 1, a) && |was| == |now| && (forall k :: 0 <= k < 1 + |a| ==> now[k] == was[k])
    requires Stands(now, 1 + |a|, b)
    ensures Stands(now, 1, a + b)
  {
    forall j | 0 <= j < |a| + |b| ensures now[1 + j] == (a + b)[j] {
      if j >= |a| {
        assert now[1 + |a| + (j - |a|)] == b[j - |a|];
      }
    }
  }

  lemma StandsAfter(was: seq<Byte>, now: seq<Byte>, a: seq<Byte>)
    requires Stands(was, 1, a) && |was| == |now| && forall k :: 0 < k < |now| ==> now[k] == was[k]
    ensures Stands(now, 1, a)
  {
  }

  lemma AllWritten(cells: seq<Cell>, k: nat)
    requires k <= |cells| && forall i :: 0 <= i < |cells| ==> CellFits(cells[i])
    ensures |CellsBytes(cells[..k])| == |CellsBytes(cells)| ==> k == |cells|
    ensures cells[..|cells|] == cells
  {
    BytesPrefix(cells, k);
  }

  lemma Whole(text: seq<Byte>, cells: seq<Cell>)
    requires Fits(cells) && text != [] && text[0] == |cells| && Stands(text, 1, CellsBytes(cells))
    ensures Compact(cells) <= text
  {
    hide CellsBytes;
    var b := Compact(cells);
    forall j | 0 <= j < |b| ensures text[j] == b[j] {
      if 0 < j {
        assert text[1 + (j - 1)] == CellsBytes(cells)[j - 1];
      }
    }
  }

  /** `strdup` of a byte array. */
  method StrDup(buf: array<Byte>) returns (s: seq<Byte>)
    requires exists k :: 0 <= k < buf.Length && buf[k] == NUL
    ensures s == CutAtNul(buf[..]) + [NUL]
  {
    ghost var end :| 0 <= end < buf.Length && buf[end] == NUL;
    var n := 0;
    while buf[n] != NUL
      invariant n <= end && forall k :: 0 <= k < n ==> buf[k] != NUL
      decreases end - n
    {
      n := n + 1;
    }
    s := buf[..n] + [NUL];
    CutIs(buf[..], n);
  }

  lemma CutIs(t: seq<Byte>, n: nat)
    requires n < |t| && t[n] == NUL && forall k :: 0 <= k < n ==> t[k] != NUL
    ensures CutAtNul(t) == t[..n]
  {
    hide CutAtNul;
    var r := CutAtNul(t);
    assert forall k :: 0 <= k < |r| ==> t[k] == r[k];
    assert |r| == n;
  }

  /** The zero behind a row does not change what is kept of it, whatever comes after. */
  lemma {:induction false} CutTerminated(t: seq<Byte>, buf: seq<Byte>)
    requires |t| < |buf| && t <= buf && buf[|t|] == NUL
    ensures CutAtNul(buf) == CutAtNul(t)
    decreases |t|
  {
    if t != [] && t[0] != NUL {
      CutTerminated(t[1..], buf[1..]);
    }
  }

  /** `data_expand`. It is not `ok` when the array ends within a row. */
  method DataExpand(val: seq<Byte>) returns (ok: bool, first: CellNode?, ghost nodes: seq<CellNode>)
    requires val != []
    ensures ok <==> Expand(val).Some?
    ensures fresh(nodes) && Chain(nodes, first) && (ok ==> Some(Row(nodes)) == Expand(val))
  {
    hide CellAt, Cells, Chain;
    ok, first, nodes := true, null, [];
    var i, dataLen := 1, val[0];
    NoNodes();
    ContinuesStart(val);
    assert Row(nodes) == [];
    while dataLen > 0
      invariant 0 <= dataLen && fresh(nodes) && Chain(nodes, first)
      invariant Continues(val, Row(nodes), i, dataLen)
    {
      dataLen := dataLen - 1;
      CellNext(val, Row(nodes), i, dataLen);
      var cell := ReadCell(val, i);
      if cell.None? {
        return false, first, nodes;
      }
      var newCell := new CellNode(cell.value.0);
      ghost var before := Row(nodes);
      first := LinkedList(first, newCell, nodes);
      nodes := nodes + [newCell];
      i := cell.value.1;
    }
    LastCell(val, i);
    assert Row(nodes) + [] == Row(nodes);
  }

  /** After the cells `done`, the array goes on at `i` with `count` cells. */
  ghost predicate Continues(val: seq<Byte>, done: seq<Cell>, i: nat, count: nat) {
    Expand(val) == match Cells(val, i, count)
      case None => None
      case Some(cs) => Some(done + cs)
  }

  lemma NoNodes()
    ensures Chain([], null)
  {
  }

  lemma LastCell(val: seq<Byte>, i: nat)
    ensures Cells(val, i, 0) == Some([])
  {
  }

  lemma ContinuesStart(val: seq<Byte>)
    requires val != []
    ensures Continues(val, [], 1, val[0])
  {
    hide Cells;
    var rest := Cells(val, 1, val[0]);
    if rest.Some? {
      assert [] + rest.value == rest.value;
    }
  }

  lemma CellNext(val: seq<Byte>, done: seq<Cell>, i: nat, count: nat)
    requires Continues(val, done, i, count + 1)
    ensures CellAt(val, i).None? ==> Expand(val) == None
    ensures CellAt(val, i).Some? ==> Continues(val, done + [CellAt(val, i).value.0], CellAt(val, i).value.1, count)
  {
    hide CellAt, Expand;
    if CellAt(val, i).Some? {
      var (c, next) := CellAt(val, i).value;
      var rest := Cells(val, next, count);
      if rest.Some? {
        assert done + ([c] + rest.value) == done + [c] + rest.value;
      }
    }
  }

  /** One turn of its loop; nothing when the array ends too soon. */
  method ReadCell(val: seq<Byte>, i0: nat) returns (r: Option<(Cell, nat)>)
    ensures r == CellAt(val, i0)
  {
    var i := i0;
    if i + 2 >= |val| || val[i] != STRING {
      return None;
    }
    var nameLen := val[i + 1];
    i := i + 2;
    if i + nameLen >= |val| {
      return None;
    }
    var name := val[i..i + nameLen];
    i := i + nameLen;
    var valLen := val[i];
    i := i + 1;
    if i + valLen > |val| {
      return None;
    }
    var value := val[i..i + valLen];
    i := i + valLen;
    if !NulFree(name) || !NulFree(value) {
      return None;
    }
    r := Some((Cell(name, value), i));
  }

  // ---- The tree ----

  /** `strcmp` */
  method StrCmp(a: Key, b: Key) returns (cond: int)
    requires NulFree(a) && NulFree(b)
    ensures cond == 0 <==> a == b
    ensures cond < 0 <==> Before(a, b)
  {
    var i := 0;
    assert a[0..] == a && b[0..] == b;
    while At(a, i) == At(b, i) && At(a, i) != NUL
      invariant i <= |a| && i <= |b| && (a == b <==> a[i..] == b[i..]) && (Before(a, b) <==> Before(a[i..], b[i..]))
      decreases |a| - i
    {
      CompareNext(a, b, i);
      i := i + 1;
    }
    cond := At(a, i) as int - At(b, i) as int;
    CompareLast(a, b, i);
  }

  lemma CompareNext(a: Key, b: Key, i: nat)
    requires i < |a| && i < |b| && a[i] == b[i]
    ensures a[i..] == b[i..] <==> a[i + 1..] == b[i + 1..]
    ensures Before(a[i..], b[i..]) <==> Before(a[i + 1..], b[i + 1..])
  {
    assert a[i..] == [a[i]] + a[i + 1..] && b[i..] == [b[i]] + b[i + 1..];
  }

  lemma CompareLast(a: Key, b: Key, i: nat)
    requires NulFree(a) && NulFree(b) && i <= |a| && i <= |b| && (At(a, i) != At(b, i) || At(a, i) == NUL)
    ensures a[i..] == b[i..] <==> At(a, i) == At(b, i)
    ensures Before(a[i..], b[i..]) <==> At(a, i) < At(b, i)
  {
    if i < |a| && i < |b| {
      assert a[i..][0] == a[i] && b[i..][0] == b[i];
    }
  }

  class Node {
    var leftChild: Node?
    var rightChild: Node?
    var key: Key
    var value: seq<Byte>
    ghost var tree: Tree
    ghost var Repr: set<Node>

    ghost predicate Valid()
      reads this, Repr
      decreases Repr
    {
      && this in Repr && NulFree(key) && value != []
      && (leftChild != null ==>
            leftChild in Repr && leftChild.Repr <= Repr && this !in leftChild.Repr && leftChild.Valid())
      && (rightChild != null ==>
            rightChild in Repr && rightChild.Repr <= Repr && this !in rightChild.Repr && rightChild.Valid())
      && (leftChild != null && rightChild != null ==> leftChild.Repr !! rightChild.Repr)
      && tree == Fork(if leftChild == null then Empty else leftChild.tree, key, value,
                      if rightChild == null then Empty else rightChild.tree)
    }

    constructor (key: Key, value: seq<Byte>)
      requires NulFree(key) && value != []
      ensures Valid() && fresh(Repr) && tree == Fork(Empty, key, value, Empty)
    {
      leftChild, rightChild, this.key, this.value := null, null, key, value;
      tree := Fork(Empty, key, value, Empty);
      Repr := {this};
    }
  }

  ghost function TreeOf(root: Node?): Tree
    reads root
  {
    if root == null then Empty else root.tree
  }

  ghost function ReprOf(root: Node?): set<Node>
    reads root
  {
    if root == null then {} else root.Repr
  }

  ghost predicate ValidRoot(root: Node?)
    reads root, ReprOf(root)
  {
    root != null ==> root.Valid()
  }

  /** `new_node` with the copy of the value that it stores. */
  method NewNode(root: Node?, key: Key, value: seq<Byte>) returns (r: Node)
    requires ValidRoot(root) && NulFree(key) && value != []
    modifies ReprOf(root)
    ensures r.Valid() && r.tree == Insert(old(TreeOf(root)), key, value)
    ensures (root != null ==> r == root) && forall n :: n in r.Repr ==> n in old(ReprOf(root)) || fresh(n)
    decreases ReprOf(root)
  {
    hide Insert, Before, NulFree;
    InsertOne(TreeOf(root), key, value);
    if root == null {
      r := new Node(key, value);
      return;
    }
    r := root;
    var cond := StrCmp(key, root.key);
    if cond == 0 {
      root.value := value;
      root.tree := root.tree.(value := value);
    } else if cond < 0 {
      Apart(root);
      ghost var other := root.rightChild;
      var l := NewNode(root.leftChild, key, value);
      assert root.rightChild == other && ValidRoot(other);
      SetLeft(root, l);
    } else {
      Apart(root);
      ghost var other := root.leftChild;
      var r' := NewNode(root.rightChild, key, value);
      assert root.leftChild == other && ValidRoot(other);
      SetRight(root, r');
    }
  }

  lemma Apart(root: Node)
    requires root.Valid()
    ensures var l, r := root.leftChild, root.rightChild;
      && ReprOf(l) !! ReprOf(r) && ReprOf(l) + ReprOf(r) < root.Repr && root !in ReprOf(l) + ReprOf(r)
      && ValidRoot(l) && ValidRoot(r) && (l != null ==> l in l.Repr) && (r != null ==> r in r.Repr)
  {
  }

  method SetLeft(root: Node, l: Node)
    requires root.tree.Fork? && root.tree.key == root.key && root.tree.value == root.value != [] && NulFree(root.key)
    requires root.tree.right == TreeOf(root.rightChild) && ValidRoot(root.rightChild)
    requires l.Valid() && root !in l.Repr && root !in ReprOf(root.rightChild) && l.Repr !! ReprOf(root.rightChild)
    modifies root
    ensures root.Valid() && root.tree == old(root.tree).(left := l.tree)
    ensures root.Repr == {root} + l.Repr + old(ReprOf(root.rightChild))
  {
    root.leftChild := l;
    root.tree := root.tree.(left := l.tree);
    root.Repr := {root} + l.Repr + ReprOf(root.rightChild);
  }

  method SetRight(root: Node, r: Node)
    requires root.tree.Fork? && root.tree.key == root.key && root.tree.value == root.value != [] && NulFree(root.key)
    requires root.tree.left == TreeOf(root.leftChild) && ValidRoot(root.leftChild)
    requires r.Valid() && root !in r.Repr && root !in ReprOf(root.leftChild) && r.Repr !! ReprOf(root.leftChild)
    modifies root
    ensures root.Valid() && root.tree == old(root.tree).(right := r.tree)
    ensures root.Repr == {root} + r.Repr + old(ReprOf(root.leftChild))
  {
    root.rightChild := r;
    root.tree := root.tree.(right := r.tree);
    root.Repr := {root} + r.Repr + ReprOf(root.leftChild);
  }

  lemma InsertOne(t: Tree, key: Key, value: seq<Byte>)
    ensures Insert(t, key, value) ==
            if t.Empty? then Fork(Empty, key, value, Empty)
            else if key == t.key then t.(value := value)
            else if Before(key, t.key) then t.(left := Insert(t.left, key, value))
            else t.(right := Insert(t.right, key, value))
  {
  }

  /** `tree_get_all`: what is displayed, in order. It is not `ok` when a value does not hold a whole row. */
  method TreeGetAll(root: Node?) returns (ok: bool, shown: seq<Shown>)
    requires ValidRoot(root)
    ensures ok <==> Readable(TreeOf(root))
    ensures ok ==> shown == Visit(InOrder(TreeOf(root)))
    decreases ReprOf(root)
  {
    ok, shown := true, [];
    if root != null {
      var l, r;
      ok, l := TreeGetAll(root.leftChild);
      if !ok {
        return;
      }
      var row;
      ok, row := ReadValue(root.value);
      if !ok {
        return;
      }
      ok, r := TreeGetAll(root.rightChild);
      shown := l + [Shown(root.key, Some(row))] + r;
      VisitSum(InOrder(TreeOf(root.leftChild)), Entry(root.key, root.value), InOrder(TreeOf(root.rightChild)));
    }
  }

  /** Expand a value and go through its cells, if it holds a whole row. */
  method ReadValue(value: seq<Byte>) returns (ok: bool, row: seq<Cell>)
    requires value != []
    ensures ok <==> Expand(value).Some?
    ensures ok ==> Expand(value) == Some(row)
  {
    var first: CellNode?;
    ghost var nodes;
    ok, first, nodes := DataExpand(value);
    row := [];
    if ok {
      row := ReadRow(first, nodes);
    }
  }

  lemma VisitSum(a: seq<Entry>, e: Entry, b: seq<Entry>)
    ensures Visit(a + [e] + b) == Visit(a) + [Shown(e.key, Expand(e.value))] + Visit(b)
  {
    hide Visit;
    var s := a + [e] + b;
    assert |Visit(s)| == |a| + 1 + |b|;
  }

  /** The cells of a list, as they are displayed. */
  method ReadRow(first: CellNode?, ghost nodes: seq<CellNode>) returns (cells: seq<Cell>)
    requires Chain(nodes, first)
    ensures cells == Row(nodes)
  {
    cells := [];
    var rootc := first;
    while rootc != null
      invariant |cells| <= |nodes| && rootc == Nth(nodes, |cells|)
      invariant forall i :: 0 <= i < |cells| ==> cells[i] == nodes[i].cell
      decreases |nodes| - |cells|
    {
      assert nodes[|cells|].nextCell == Nth(nodes, |cells| + 1);
      cells := cells + [rootc.cell];
      rootc := rootc.nextCell;
    }
  }

  lemma AfterPut(puts: seq<Put>, key: Key, row: seq<Cell>)
    requires Storable(puts) && Fits(row)
    ensures var more := puts + [Put(key, row)];
      Storable(more) && TreeAfter(more) == Insert(TreeAfter(puts), key, Stored(row))
  {
    hide Fits, Insert;
    var more := puts + [Put(key, row)];
    assert more[..|puts|] == puts;
  }

  class TreeMap {
    var root: Node?
    ghost var puts: seq<Put>

    /** The tree is the one that the puts so far make. */
    ghost predicate Valid()
      reads this, root, ReprOf(root)
    {
      ValidRoot(root) && Storable(puts) && TreeOf(root) == TreeAfter(puts)
    }

    constructor ()
      ensures Valid() && puts == [] && root == null
    {
      root, puts := null, [];
    }

    /** `tree_put`, as far as `data_compact` does not write outside the memory that there is: the block and
        `slack` bytes behind it. */
    method TreePut(key: Key, rowData: CellNode?, slack: nat, ghost nodes: seq<CellNode>) returns (ok: bool)
      requires Valid() && NulFree(key) && Chain(nodes, rowData) && Fits(Row(nodes))
      modifies this, ReprOf(root)
      ensures Valid() && (ok <==> slack > 0)
      ensures puts == if ok then old(puts) + [Put(key, old(Row(nodes)))] else old(puts)
    {
      hide Compact, Insert, Fits, TreeAfter, Storable, CutAtNul, HighestWrite;
      ghost var row := Row(nodes);
      WritesPastBlock(row);
      var buf;
      ok, buf := DataCompact(rowData, slack, nodes);
      if !ok {
        return;
      }
      var value := StrDup(buf);
      CutTerminated(Compact(row), buf[..]);
      root := NewNode(root, key, value);
      AfterPut(puts, key, row);
      puts := puts + [Put(key, row)];
    }

    /** Everything in the map, if every row that is still there comes back: each key once, in strictly
        ascending order, with the row put last under it. */
    method GetAll() returns (ok: bool, shown: seq<Shown>)
      requires Valid()
      ensures ok <==> AllComeBack(puts)
      ensures ok ==> forall i, j :: 0 <= i < j < |shown| ==> Before(shown[i].key, shown[j].key)
      ensures ok ==> forall x: Shown :: x in shown <==> x.row.Some? && x.row == LastRow(puts, x.key)
    {
      hide TreeAfter, ComesBack, Readable, Visit, InOrder, Before, LastRow, AllComeBack;
      ReadableAfter(puts);
      ok, shown := TreeGetAll(root);
      VisitShowsLastRows(puts);
      if ok {
        forall x: Shown ensures x in shown <==> x.row.Some? && x.row == LastRow(puts, x.key) {
          OneKey(puts, x.key);
        }
      }
    }
  }
}
