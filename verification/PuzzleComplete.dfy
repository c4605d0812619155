/** Which boards of the fifteen puzzle can be solved: all those whose parity is right. The board is read
    along a snake, row by row and back again, so that moving the blank along it changes nothing. */
module PuzzleComplete {
  import opened Permutations
  import opened PuzzleSpec

  // ---- Boards along the snake ----

  /** The cell at a place of the snake, and also the place of a cell. */
  function Cell(p: nat): (c: nat)
    requires p < 16
    ensures c < 16
  {
    if p < 4 then p else if p < 8 then 11 - p else if p < 12 then p else 27 - p
  }

  lemma CellTwice(p: nat)
    requires p < 16
    ensures Cell(Cell(p)) == p
  {
  }

  /** The board whose tiles along the snake are `path`, with the blank at place `p`. */
  function BoardOf(path: seq<int>, p: nat): (b: Board)
    requires |path| == 16 && p < 16
    ensures OnBoard(b)
  {
    Board(seq(16, c requires 0 <= c < 16 => path[Cell(c)]), Cell(p) % 4, Cell(p) / 4)
  }

  predicate Beside(c: nat, d: nat) {
    (c + 1 == d && d % 4 != 0) || (d + 1 == c && c % 4 != 0) || c + 4 == d || d + 4 == c
  }

  function Toward(c: nat, d: nat): int {
    if d == c + 1 then RIGHT else if d + 1 == c then LEFT else if d == c + 4 then DOWN else UP
  }

  lemma AtOf(c: nat)
    ensures At(c % 4, c / 4) == c
  {
  }

  lemma TowardMoves(c: nat, d: nat)
    requires c < 16 && d < 16 && Beside(c, d)
    ensures Toward(c, d) in Candidates(c % 4, c / 4) && Moved(c % 4, c / 4, Toward(c, d)) == (d % 4, d / 4)
  {
  }

  /** The blank moves to the cell of place `q`, which is beside its own. */
  lemma OneStep(path: seq<int>, p: nat, q: nat)
    requires |path| == 16 && p < 16 && q < 16 && path[p] == 0 && Beside(Cell(p), Cell(q))
    ensures Reachable(BoardOf(path, p), BoardOf(Swap(path, p, q), q))
  {
    var b, b' := BoardOf(path, p), BoardOf(Swap(path, p, q), q);
    var c, d := Cell(p), Cell(q);
    TowardMoves(c, d);
    AtOf(c);
    AtOf(d);
    CellTwice(p);
    CellTwice(q);
    var s := Slide(b, Toward(c, d));
    forall k | 0 <= k < 16 ensures s.cells[k] == b'.cells[k] {
      CellTwice(k);
    }
    assert s.cells == b'.cells;
    OneMove(b, Toward(c, d), b');
  }

  lemma ReachableTransitive(a: Board, b: Board, c: Board)
    requires OnBoard(a) && OnBoard(b) && Reachable(a, b) && Reachable(b, c)
    ensures Reachable(a, c)
  {
    hide Run;
    var ds :| Run(a, ds, b);
    var es :| Run(b, es, c);
    RunConcat(a, ds, b, es, c);
  }

  lemma ReachableSelf(a: Board)
    requires OnBoard(a)
    ensures Reachable(a, a)
  {
    assert Run(a, [], a);
  }

  lemma ReachableBack(a: Board, b: Board)
    requires Valid(a) && Reachable(a, b)
    ensures Valid(b) && Reachable(b, a) && Parity(a) == Parity(b)
  {
    hide Run, Parity;
    var ds :| Run(a, ds, b);
    RunKeeps(a, ds, b);
    RunBackwards(a, ds, b);
  }

  // ---- Orders of the tiles ----

  /** The tiles along the snake without the blank. */
  predicate Order(o: seq<int>) {
    && |o| == 15 && Distinct(o)
    && (forall i :: 0 <= i < 15 ==> 0 < o[i] < 16)
    && (forall v :: 0 < v < 16 ==> v in o)
  }

  function Path(o: seq<int>, p: nat): seq<int>
    requires p <= |o|
  {
    o[..p] + [0] + o[p..]
  }

  function Place(o: seq<int>, p: nat): (b: Board)
    requires |o| == 15 && p < 16
    ensures OnBoard(b)
  {
    BoardOf(Path(o, p), p)
  }

  lemma PlaceIsValid(o: seq<int>, p: nat)
    requires Order(o) && p < 16
    ensures Valid(Place(o, p))
  {
    var path := Path(o, p);
    var b := Place(o, p);
    AtOf(Cell(p));
    CellTwice(p);
    PathIsPermutation(o, p);
    SnakeKeepsPermutation(path, p);
  }

  lemma PathIsPermutation(o: seq<int>, p: nat)
    requires Order(o) && p < 16
    ensures var path := Path(o, p);
      && Distinct(path) && (forall i :: 0 <= i < 16 ==> 0 <= path[i] < 16)
      && (forall v :: 0 <= v < 16 ==> v in path)
  {
    var path := Path(o, p);
    assert forall i :: 0 <= i < 16 ==> path[i] == if i < p then o[i] else if i == p then 0 else o[i - 1];
    forall v | 0 <= v < 16 ensures v in path {
      if v == 0 {
        assert path[p] == 0;
      } else {
        assert v in o;
        var k :| 0 <= k < |o| && o[k] == v;
        assert path[if k < p then k else k + 1] == v;
      }
    }
  }

  lemma SnakeKeepsPermutation(path: seq<int>, p: nat)
    requires |path| == 16 && p < 16 && Distinct(path) && (forall i :: 0 <= i < 16 ==> 0 <= path[i] < 16)
    requires forall v :: 0 <= v < 16 ==> v in path
    ensures var s := BoardOf(path, p).cells;
      Distinct(s) && (forall i :: 0 <= i < 16 ==> 0 <= s[i] < 16) && (forall v :: 0 <= v < 16 ==> v in s)
  {
    var s := BoardOf(path, p).cells;
    forall i, j | 0 <= i < j < 16 ensures s[i] != s[j] {
      CellTwice(i);
      CellTwice(j);
    }
    forall v | 0 <= v < 16 ensures v in s {
      assert v in path;
      var k :| 0 <= k < |path| && path[k] == v;
      CellTwice(k);
      assert s[Cell(k)] == v;
    }
  }

  /** Every board is some order with the blank at some place. */
  lemma BoardIsPlaced(b: Board) returns (o: seq<int>, p: nat)
    requires Valid(b)
    ensures Order(o) && p < 16 && b == Place(o, p)
  {
    var c := At(b.x, b.y);
    p := Cell(c);
    CellTwice(c);
    var path := seq(16, i requires 0 <= i < 16 => b.cells[Cell(i)]);
    o := path[..p] + path[p + 1..];
    assert Path(o, p) == path;
    forall k | 0 <= k < 16 ensures BoardOf(path, p).cells[k] == b.cells[k] {
      CellTwice(k);
    }
    assert BoardOf(path, p).cells == b.cells;
    WithoutBlank(b, path, o, p);
  }

  lemma WithoutBlank(b: Board, path: seq<int>, o: seq<int>, p: nat)
    requires Valid(b) && p == Cell(At(b.x, b.y)) && path == seq(16, i requires 0 <= i < 16 => b.cells[Cell(i)])
    requires o == path[..p] + path[p + 1..]
    ensures Order(o)
  {
    CellTwice(At(b.x, b.y));
    forall i, j | 0 <= i < j < 16 ensures path[i] != path[j] {
      CellTwice(i);
      CellTwice(j);
    }
    assert forall i :: 0 <= i < 15 ==> o[i] == path[if i < p then i else i + 1];
    forall v | 0 < v < 16 ensures v in o {
      TileInOrder(b, path, o, p, v);
    }
  }

  lemma TileInOrder(b: Board, path: seq<int>, o: seq<int>, p: nat, v: int)
    requires Valid(b) && p == Cell(At(b.x, b.y)) && path == seq(16, i requires 0 <= i < 16 => b.cells[Cell(i)])
    requires o == path[..p] + path[p + 1..] && 0 < v < 16
    ensures v in o
  {
    assert v in b.cells;
    var k :| 0 <= k < |b.cells| && b.cells[k] == v;
    CellTwice(k);
    CellTwice(At(b.x, b.y));
    var q := Cell(k);
    assert path[q] == v;
    assert o[if q < p then q else q - 1] == v;
  }

  // ---- What moves do to the order ----

  /** Two orders whose boards can be reached from each other. */
  ghost predicate Same(o: seq<int>, o': seq<int>) {
    && Order(o) && Order(o') && Reachable(Place(o, 15), Place(o', 15))
  }

  lemma SameSelf(o: seq<int>)
    requires Order(o)
    ensures Same(o, o)
  {
    ReachableSelf(Place(o, 15));
  }

  lemma SameBack(o: seq<int>, o': seq<int>)
    requires Same(o, o')
    ensures Same(o', o)
  {
    hide Reachable, Distinct;
    PlaceIsValid(o, 15);
    ReachableBack(Place(o, 15), Place(o', 15));
  }

  lemma SameTransitive(a: seq<int>, b: seq<int>, c: seq<int>)
    requires Same(a, b) && Same(b, c)
    ensures Same(a, c)
  {
    hide Reachable, Distinct;
    ReachableTransitive(Place(a, 15), Place(b, 15), Place(c, 15));
  }

  /** The blank moves along the snake to its end. */
  lemma {:induction false} ToEnd(o: seq<int>, p: nat)
    requires |o| == 15 && p < 16
    ensures Reachable(Place(o, p), Place(o, 15))
    decreases 15 - p
  {
    hide Reachable, BoardOf;
    if p == 15 {
      ReachableSelf(Place(o, p));
    } else {
      OneStep(Path(o, p), p, p + 1);
      assert Swap(Path(o, p), p, p + 1) == Path(o, p + 1);
      ToEnd(o, p + 1);
      ReachableTransitive(Place(o, p), Place(o, p + 1), Place(o, 15));
    }
  }

  /** The last of `n` elements from `p` on comes before the others. */
  function Rotate(o: seq<int>, p: nat, n: nat): (r: seq<int>)
    requires 0 < n && p + n <= |o|
    ensures |r| == |o|
    ensures forall i :: 0 <= i < |o| ==>
      r[i] == o[if i == p then p + n - 1 else if p < i < p + n then i - 1 else i]
  {
    o[..p] + [o[p + n - 1]] + o[p..p + n - 1] + o[p + n..]
  }

  function RotateBack(o: seq<int>, p: nat, n: nat): (r: seq<int>)
    requires 0 < n && p + n <= |o|
    ensures |r| == |o|
    ensures forall i :: 0 <= i < |o| ==>
      r[i] == o[if i == p + n - 1 then p else if p <= i < p + n - 1 then i + 1 else i]
  {
    o[..p] + o[p + 1..p + n] + [o[p]] + o[p + n..]
  }

  /** `f` says where the elements of `r` come from, and `g` where those of `o` go. */
  lemma Rearranged(o: seq<int>, r: seq<int>, f: int -> int, g: int -> int)
    requires Order(o) && |r| == 15
    requires forall i :: 0 <= i < 15 ==> 0 <= f(i) < 15 && r[i] == o[f(i)] && g(f(i)) == i
    requires forall i :: 0 <= i < 15 ==> 0 <= g(i) < 15 && f(g(i)) == i
    ensures Order(r)
  {
    forall i, j | 0 <= i < j < 15 ensures r[i] != r[j] {
      assert g(f(i)) == i && g(f(j)) == j;
    }
    forall v | 0 < v < 16 ensures v in r {
      assert v in o;
      var k :| 0 <= k < |o| && o[k] == v;
      assert r[g(k)] == v;
    }
  }

  lemma RotatedIsOrder(o: seq<int>, p: nat, n: nat)
    requires Order(o) && 0 < n && p + n <= 15
    ensures Order(Rotate(o, p, n))
  {
    hide Rotate, Distinct;
    Rearranged(o, Rotate(o, p, n), i => if i == p then p + n - 1 else if p < i < p + n then i - 1 else i,
               i => if i == p + n - 1 then p else if p <= i < p + n - 1 then i + 1 else i);
  }

  lemma RotatedBackIsOrder(o: seq<int>, p: nat, n: nat)
    requires Order(o) && 0 < n && p + n <= 15
    ensures Order(RotateBack(o, p, n))
  {
    hide RotateBack, Distinct;
    Rearranged(o, RotateBack(o, p, n), i => if i == p + n - 1 then p else if p <= i < p + n - 1 then i + 1 else i,
               i => if i == p then p + n - 1 else if p < i < p + n then i - 1 else i);
  }

  lemma RotateUndoes(o: seq<int>, p: nat, n: nat)
    requires 0 < n && p + n <= |o|
    ensures Rotate(RotateBack(o, p, n), p, n) == o
  {
    hide Rotate, RotateBack;
  }

  lemma SwapIsRotated(o: seq<int>, p: nat, n: nat)
    requires |o| == 15 && 0 < n && p + n < 16
    ensures |Path(o, p)| == 16 && Path(o, p)[p] == 0
    ensures Swap(Path(o, p), p, p + n) == Path(Rotate(o, p, n), p + n)
  {
    hide Rotate;
    var a, b := Swap(Path(o, p), p, p + n), Path(Rotate(o, p, n), p + n);
    forall i | 0 <= i < 16 ensures a[i] == b[i] {
    }
  }

  /** A move off the snake rotates the tiles that it passes. */
  lemma JumpRotates(o: seq<int>, p: nat, n: nat)
    requires Order(o) && 0 < n && p + n < 16 && Beside(Cell(p), Cell(p + n))
    ensures Same(o, Rotate(o, p, n))
  {
    hide Reachable, BoardOf, Beside, Path, Rotate, Swap, Distinct, Valid;
    var r := Rotate(o, p, n);
    RotatedIsOrder(o, p, n);
    SwapIsRotated(o, p, n);
    OneStep(Path(o, p), p, p + n);
    PlaceIsValid(o, p);
    ToEnd(o, p);
    ReachableBack(Place(o, p), Place(o, 15));
    ToEnd(r, p + n);
    ReachableTransitive(Place(o, 15), Place(o, p), Place(r, p + n));
    ReachableTransitive(Place(o, 15), Place(r, p + n), Place(r, 15));
  }

  // ---- Every three neighbours can be rotated ----

  ghost predicate Three(j: nat)
    requires j <= 12
  {
    forall o :: Order(o) ==> Same(o, Rotate(o, j, 3))
  }

  lemma Conjugate(o: seq<int>, a: nat, j: nat)
    requires |o| == 15 && a <= j && j + 3 <= a + 6 && a + 7 <= 15
    ensures Rotate(Rotate(o, j, 3), a, 7) == Rotate(Rotate(o, a, 7), j + 1, 3)
  {
    hide Rotate;
  }

  lemma Seven(o: seq<int>, a: nat)
    requires Order(o) && a in {0, 4, 8}
    ensures Same(o, Rotate(o, a, 7)) && Order(Rotate(o, a, 7))
  {
    assert Beside(Cell(a), Cell(a + 7));
    JumpRotates(o, a, 7);
  }

  lemma ThreeDown(a: nat, j: nat)
    requires a in {0, 4, 8} && a <= j && j + 3 <= a + 6 && Three(j + 1)
    ensures Three(j)
  {
    forall o | Order(o) ensures Same(o, Rotate(o, j, 3)) {
      hide Same, Order, Rotate, Three;
      ThreeDownAt(o, a, j);
    }
  }

  lemma ThreeDownAt(o: seq<int>, a: nat, j: nat)
    requires Order(o) && a in {0, 4, 8} && a <= j && j + 3 <= a + 6 && Three(j + 1)
    ensures Same(o, Rotate(o, j, 3))
  {
    hide Same, Order, Rotate, Three;
    OrderLength(o);
    var x, y := Rotate(o, j, 3), Rotate(o, a, 7);
    RotatedIsOrder(o, j, 3);
    Conjugate(o, a, j);
    Seven(o, a);
    Seven(x, a);
    UseThree(y, j + 1);
    var z := Rotate(x, a, 7);
    SameBack(x, z);
    SameTransitive(o, y, z);
    SameTransitive(o, z, x);
  }

  lemma UseThree(o: seq<int>, j: nat)
    requires Order(o) && j <= 12 && Three(j)
    ensures Same(o, Rotate(o, j, 3))
  {
  }

  lemma ThreeUp(a: nat, j: nat)
    requires a in {0, 4, 8} && a <= j && j + 3 <= a + 6 && Three(j)
    ensures Three(j + 1)
  {
    forall o | Order(o) ensures Same(o, Rotate(o, j + 1, 3)) {
      hide Same, Order, Rotate, Three;
      ThreeUpAt(o, a, j);
    }
  }

  lemma ThreeUpAt(o: seq<int>, a: nat, j: nat)
    requires Order(o) && a in {0, 4, 8} && a <= j && j + 3 <= a + 6 && Three(j)
    ensures Same(o, Rotate(o, j + 1, 3))
  {
    hide Same, Order, Rotate, RotateBack, Three;
    OrderLength(o);
    var back := RotateBack(o, a, 7);
    RotatedBackIsOrder(o, a, 7);
    RotateUndoes(o, a, 7);
    var x := Rotate(back, j, 3);
    RotatedIsOrder(back, j, 3);
    Conjugate(back, a, j);
    Seven(back, a);
    Seven(x, a);
    UseThree(back, j);
    SameBack(back, o);
    SameTransitive(o, back, x);
    SameTransitive(o, x, Rotate(x, a, 7));
  }

  lemma ThreeIn(a: nat)
    requires a in {0, 4, 8}
    ensures Three(a) && Three(a + 1) && Three(a + 2) && Three(a + 3) && Three(a + 4)
  {
    forall o | Order(o) ensures Same(o, Rotate(o, a + 2, 3)) {
      hide Same, Order, Rotate;
      assert Beside(Cell(a + 2), Cell(a + 5));
      JumpRotates(o, a + 2, 3);
    }
    hide Three;
    ThreeDown(a, a + 1);
    ThreeDown(a, a);
    ThreeUp(a, a + 2);
    ThreeUp(a, a + 3);
  }

  lemma RotateThree(o: seq<int>, j: nat)
    requires Order(o) && j <= 12
    ensures Same(o, Rotate(o, j, 3)) && Order(Rotate(o, j, 3))
  {
    hide Same, Order, Rotate;
    RotatedIsOrder(o, j, 3);
    var a := if j <= 4 then 0 else if j <= 8 then 4 else 8;
    ThreeIn(a);
    assert Three(j);
  }

  // ---- Sorting by rotations of three ----

  /** Bring the tile at `j` to `i`, leaving the tiles before `i` alone. */
  lemma {:induction false} Bring(o: seq<int>, i: nat, j: nat) returns (r: seq<int>)
    requires Order(o) && i <= j < 15 && i <= 12
    ensures Same(o, r) && Order(r) && r[..i] == o[..i] && r[i] == o[j]
    decreases j
  {
    hide Same, Rotate;
    if j == i {
      r := o;
      SameSelf(o);
    } else if j == i + 1 {
      var o1 := Rotate(o, i, 3);
      RotateThree(o, i);
      RotateThree(o1, i);
      r := Rotate(o1, i, 3);
      SameTransitive(o, o1, r);
    } else {
      var o1 := Rotate(o, j - 2, 3);
      RotateThree(o, j - 2);
      r := Bring(o1, i, j - 2);
      SameTransitive(o, o1, r);
      assert o1[..i] == o[..i];
    }
  }

  /** All but the last two tiles can be put in the order `t`. */
  lemma {:induction false} SortTo(o: seq<int>, t: seq<int>, i: nat) returns (r: seq<int>)
    requires Order(o) && Order(t) && i <= 13 && o[..i] == t[..i]
    ensures Same(o, r) && Order(r) && r[..13] == t[..13]
    decreases 13 - i
  {
    hide Same;
    if i == 13 {
      r := o;
      SameSelf(o);
    } else {
      assert t[i] in o;
      var j :| 0 <= j < |o| && o[j] == t[i];
      NotBefore(o, t, i, j);
      var o1 := Bring(o, i, j);
      assert o1[..i + 1] == o1[..i] + [o1[i]] && t[..i + 1] == t[..i] + [t[i]];
      r := SortTo(o1, t, i + 1);
      SameTransitive(o, o1, r);
    }
  }

  lemma NotBefore(o: seq<int>, t: seq<int>, i: nat, j: nat)
    requires Order(o) && Order(t) && i < 15 && j < 15 && o[..i] == t[..i] && o[j] == t[i]
    ensures i <= j
  {
    assert forall k :: 0 <= k < i ==> o[k] == o[..i][k] == t[..i][k] == t[k];
  }

  lemma LastTwo(o: seq<int>, t: seq<int>)
    requires Order(o) && Order(t) && o[..13] == t[..13]
    ensures o == t || o == Swap(t, 13, 14)
  {
    assert t[13] in o;
    var j :| 0 <= j < |o| && o[j] == t[13];
    NotBefore(o, t, 13, j);
    assert t[14] in o;
    var k :| 0 <= k < |o| && o[k] == t[14];
    assert forall i :: 0 <= i < 13 ==> o[i] == o[..13][i] == t[..13][i] == t[i];
    assert k >= 13;
  }

  // ---- Parity decides ----

  lemma SwappedParity(t: seq<int>)
    requires Order(t) && Order(Swap(t, 13, 14))
    ensures Parity(Place(Swap(t, 13, 14), 15)) != Parity(Place(t, 15))
  {
    var b := Place(t, 15);
    PlaceIsValid(t, 15);
    assert Place(Swap(t, 13, 14), 15).cells == Swap(b.cells, 13, 14);
    hide Parity, BoardOf;
    ExchangeChangesParity(b, 13, 14);
  }

  /** Every proper board of the right parity can be reached from the solved one. */
  lemma OddIsReachable(b: Board)
    requires Valid(b) && Parity(b) == 1
    ensures Reachable(Solved(), b)
  {
    hide Reachable, Valid, Parity, Solved, Order;
    SolvedIsValid();
    var s, ps := BoardIsPlaced(Solved());
    var o, p := BoardIsPlaced(b);
    OrderLength(s);
    OrderLength(o);
    ToEnd(s, ps);
    ToEnd(o, p);
    ReachableBack(Solved(), Place(s, 15));
    ReachableBack(b, Place(o, 15));
    var r := SortTo(s, o, 0);
    SameReaches(s, r);
    ReachableBack(Place(s, 15), Place(r, 15));
    LastTwo(r, o);
    if r != o {
      SwappedParity(o);
    }
    ReachableTransitive(Solved(), Place(s, 15), Place(o, 15));
    ReachableTransitive(Solved(), Place(o, 15), b);
  }

  lemma OrderLength(o: seq<int>)
    requires Order(o)
    ensures |o| == 15
  {
  }

  lemma SameReaches(o: seq<int>, o': seq<int>)
    requires Same(o, o')
    ensures |o| == 15 == |o'| && Reachable(Place(o, 15), Place(o', 15))
  {
  }

  /** The boards that play reaches are exactly the proper boards of odd parity, and from each of them
      the puzzle can be solved. */
  lemma ReachableIffOdd(b: Board)
    requires OnBoard(b)
    ensures Reachable(Solved(), b) <==> Valid(b) && Parity(b) == 1
    ensures Valid(b) ==> (Reachable(b, Solved()) <==> Parity(b) == 1)
  {
    hide Valid, Parity, Reachable;
    SolvedIsValid();
    if Reachable(Solved(), b) {
      ReachableIsSolvable(b);
    }
    if Valid(b) && Parity(b) == 1 {
      OddIsReachable(b);
      ReachableIsSolvable(b);
    }
    if Valid(b) && Reachable(b, Solved()) {
      ReachableBack(b, Solved());
    }
  }
}
