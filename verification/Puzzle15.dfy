/** The fifteen puzzle (15-puzzle-1.cpp). */
module Permutations {

  /** How many elements are less than `v`. */
  function Less(s: seq<int>, v: int): nat {
    if s == [] then 0 else (if s[0] < v then 1 else 0) + Less(s[1..], v)
  }

  /** The number of inversions, pairs that stand in the wrong order. */
  function Inversions(s: seq<int>): nat {
    if s == [] then 0 else Less(s[1..], s[0]) + Inversions(s[1..])
  }

  predicate Distinct(s: seq<int>) {
    forall i, j :: 0 <= i < j < |s| ==> s[i] != s[j]
  }

  function Swap(s: seq<int>, i: nat, j: nat): seq<int>
    requires i < |s| && j < |s|
  {
    s[i := s[j]][j := s[i]]
  }

  lemma {:induction false} LessSwap(s: seq<int>, i: nat, v: int)
    requires i + 1 < |s|
    ensures Less(Swap(s, i, i + 1), v) == Less(s, v)
  {
    var t := Swap(s, i, i + 1);
    if i == 0 {
      assert t[1..][1..] == s[1..][1..];
    } else {
      LessSwap(s[1..], i - 1, v);
      assert t[1..] == Swap(s[1..], i - 1, i);
    }
  }

  /** Swapping neighbours adds or removes one inversion. */
  lemma {:induction false} SwapNeighbours(s: seq<int>, i: nat)
    requires i + 1 < |s| && s[i] != s[i + 1]
    ensures Inversions(Swap(s, i, i + 1)) == Inversions(s) + (if s[i] < s[i + 1] then 1 else -1)
  {
    var t := Swap(s, i, i + 1);
    if i == 0 {
      var rest := s[1..][1..];
      assert t[1..][1..] == rest;
      assert Inversions(s) == Less(s[1..], s[0]) + Less(rest, s[1]) + Inversions(rest);
      assert Inversions(t) == Less(t[1..], s[1]) + Less(rest, s[0]) + Inversions(rest);
    } else {
      assert t[1..] == Swap(s[1..], i - 1, i);
      LessSwap(s[1..], i - 1, s[0]);
      SwapNeighbours(s[1..], i - 1);
    }
  }

  /** Any exchange changes the parity of the permutation. */
  lemma {:induction false} SwapChangesParity(s: seq<int>, i: nat, j: nat)
    requires i < j < |s| && Distinct(s)
    ensures (Inversions(Swap(s, i, j)) + Inversions(s)) % 2 == 1
    decreases j - i
  {
    hide Inversions;
    if j == i + 1 {
      SwapNeighbours(s, i);
    } else {
      var s1 := Swap(s, i, i + 1);
      var s2 := Swap(s1, i + 1, j);
      assert Swap(s2, i, i + 1) == Swap(s, i, j);
      SwapNeighbours(s, i);
      SwapChangesParity(s1, i + 1, j);
      SwapNeighbours(s2, i);
    }
  }
}

module PuzzleSpec {
  import opened Permutations

  const UP := 1
  const RIGHT := 2
  const DOWN := 4
  const LEFT := 8

  /** The tiles row by row, 0 being the blank, which is in column `x` of row `y`. */
  datatype Board = Board(cells: seq<int>, x: int, y: int)

  function At(x: int, y: int): int {
    x + y * 4
  }

  function Moved(x: int, y: int, d: int): (int, int) {
    if d == UP then (x, y - 1)
    else if d == RIGHT then (x + 1, y)
    else if d == DOWN then (x, y + 1)
    else if d == LEFT then (x - 1, y)
    else (x, y)
  }

  /** The directions in which the blank can move, in the order in which the program lists them. */
  function Candidates(x: int, y: int): seq<int> {
    (if x < 3 then [RIGHT] else []) + (if x > 0 then [LEFT] else []) +
    (if y < 3 then [DOWN] else []) + (if y > 0 then [UP] else [])
  }

  predicate Legal(b: Board, d: int) {
    d in Candidates(b.x, b.y)
  }

  predicate OnBoard(b: Board) {
    |b.cells| == 16 && 0 <= b.x < 4 && 0 <= b.y < 4
  }

  /** Every number from 0 to 15 stands once on the board, and the blank is where it should be. */
  predicate Valid(b: Board) {
    && OnBoard(b) && b.cells[At(b.x, b.y)] == 0
    && Distinct(b.cells)
    && (forall i :: 0 <= i < 16 ==> 0 <= b.cells[i] < 16)
    && (forall v :: 0 <= v < 16 ==> v in b.cells)
  }

  function Slide(b: Board, d: int): Board
    requires OnBoard(b) && Legal(b, d)
  {
    var (x, y) := Moved(b.x, b.y, d);
    Board(b.cells[At(b.x, b.y) := b.cells[At(x, y)]][At(x, y) := 0], x, y)
  }

  function Opposite(d: int): int {
    if d == UP then DOWN else if d == DOWN then UP else if d == LEFT then RIGHT else LEFT
  }

  function Solved(): Board {
    Board(seq(16, i => if i < 15 then i + 1 else 0), 3, 3)
  }

  /** `b'` comes from `b` by the legal moves `ds`. */
  predicate Run(b: Board, ds: seq<int>, b': Board)
    requires OnBoard(b)
    decreases |ds|
  {
    if ds == [] then b == b' else Legal(b, ds[0]) && Run(Slide(b, ds[0]), ds[1..], b')
  }

  ghost predicate Reachable(b: Board, b': Board)
    requires OnBoard(b)
  {
    exists ds :: Run(b, ds, b')
  }

  // ---- One move ----

  lemma LegalStays(b: Board, d: int)
    requires OnBoard(b) && Legal(b, d)
    ensures OnBoard(Slide(b, d)) && d in {UP, RIGHT, DOWN, LEFT}
  {
  }

  /** A move swaps the blank with its neighbour. */
  lemma SlideIsSwap(b: Board, d: int)
    requires Valid(b) && Legal(b, d)
    ensures var b' := Slide(b, d);
      b'.cells == Swap(b.cells, At(b.x, b.y), At(b'.x, b'.y)) && At(b'.x, b'.y) != At(b.x, b.y)
  {
  }

  lemma SwapKeepsPermutation(s: seq<int>, i: nat, j: nat)
    requires i < |s| && j < |s| && Distinct(s)
    ensures Distinct(Swap(s, i, j)) && forall v :: v in s <==> v in Swap(s, i, j)
  {
    var t := Swap(s, i, j);
    forall v ensures v in s <==> v in t {
      if v in s {
        var k :| 0 <= k < |s| && s[k] == v;
        assert t[if k == i then j else if k == j then i else k] == v;
      }
    }
  }

  lemma SwapSymmetric(s: seq<int>, i: nat, j: nat)
    requires i < |s| && j < |s|
    ensures Swap(s, i, j) == Swap(s, j, i)
  {
  }

  lemma SlideStaysValid(b: Board, d: int)
    requires Valid(b) && Legal(b, d)
    ensures Valid(Slide(b, d))
  {
    LegalStays(b, d);
    SlideIsSwap(b, d);
    var b' := Slide(b, d);
    hide Slide, Legal, Distinct;
    SwapKeepsPermutation(b.cells, At(b.x, b.y), At(b'.x, b'.y));
  }

  /** The opposite move is legal and takes the board back. */
  lemma Undo(b: Board, d: int)
    requires Valid(b) && Legal(b, d)
    ensures Legal(Slide(b, d), Opposite(d)) && OnBoard(Slide(b, d)) && Slide(Slide(b, d), Opposite(d)) == b
  {
    LegalStays(b, d);
    var b1 := Slide(b, d);
    var b2 := Slide(b1, Opposite(d));
    assert b2.x == b.x && b2.y == b.y;
    assert b2.cells == b.cells;
  }

  /** The parity of the permutation follows the parity of the blank's place. */
  function Parity(b: Board): int {
    (Inversions(b.cells) + b.x + b.y) % 2
  }

  lemma OddChange(a: int, b: int, c: int)
    requires (a + b) % 2 == 1
    ensures (a + c) % 2 != (b + c) % 2 && (a + c + 1) % 2 == (b + c) % 2 && (a + c - 1) % 2 == (b + c) % 2
  {
  }

  lemma SlideKeepsParity(b: Board, d: int)
    requires Valid(b) && Legal(b, d)
    ensures Parity(Slide(b, d)) == Parity(b)
  {
    LegalStays(b, d);
    SlideIsSwap(b, d);
    var b' := Slide(b, d);
    var i, j := At(b.x, b.y), At(b'.x, b'.y);
    assert b'.x + b'.y == b.x + b.y + 1 || b'.x + b'.y == b.x + b.y - 1;
    hide Inversions, Slide, Legal, Swap;
    if i < j {
      SwapChangesParity(b.cells, i, j);
    } else {
      SwapSymmetric(b.cells, i, j);
      SwapChangesParity(b.cells, j, i);
    }
    OddChange(Inversions(b'.cells), Inversions(b.cells), b.x + b.y);
  }

  // ---- Whole runs ----

  lemma {:induction false} RunKeeps(b: Board, ds: seq<int>, b': Board)
    requires Valid(b) && Run(b, ds, b')
    ensures Valid(b') && Parity(b') == Parity(b)
    decreases |ds|
  {
    if ds != [] {
      hide Slide, Legal, Parity;
      SlideStaysValid(b, ds[0]);
      SlideKeepsParity(b, ds[0]);
      RunKeeps(Slide(b, ds[0]), ds[1..], b');
    }
  }

  lemma {:induction false} RunConcat(b: Board, ds: seq<int>, b1: Board, es: seq<int>, b2: Board)
    requires OnBoard(b) && Run(b, ds, b1) && OnBoard(b1) && Run(b1, es, b2)
    ensures Run(b, ds + es, b2)
    decreases |ds|
  {
    hide Slide, Legal;
    if ds == [] {
      assert ds + es == es;
    } else {
      LegalStays(b, ds[0]);
      assert (ds + es)[1..] == ds[1..] + es;
      RunConcat(Slide(b, ds[0]), ds[1..], b1, es, b2);
    }
  }

  /** Every move takes the blank to a field of the other colour. */
  lemma {:induction false} RunColours(b: Board, ds: seq<int>, b': Board)
    requires OnBoard(b) && Run(b, ds, b')
    ensures (b'.x + b'.y + |ds|) % 2 == (b.x + b.y) % 2
    decreases |ds|
  {
    hide Slide, Legal;
    if ds != [] {
      LegalStays(b, ds[0]);
      OtherColour(b, ds[0]);
      RunColours(Slide(b, ds[0]), ds[1..], b');
    }
  }

  lemma OtherColour(b: Board, d: int)
    requires OnBoard(b) && Legal(b, d)
    ensures var b' := Slide(b, d); (b'.x + b'.y + 1) % 2 == (b.x + b.y) % 2
  {
  }

  function Backwards(ds: seq<int>): seq<int> {
    if ds == [] then [] else Backwards(ds[1..]) + [Opposite(ds[0])]
  }

  /** Every legal run can be undone by legal moves. */
  lemma {:induction false} RunBackwards(b: Board, ds: seq<int>, b': Board)
    requires Valid(b) && Run(b, ds, b')
    ensures OnBoard(b') && Run(b', Backwards(ds), b)
    decreases |ds|
  {
    hide Slide, Legal, Valid, Opposite;
    RunKeeps(b, ds, b');
    ValidIsOnBoard(b);
    ValidIsOnBoard(b');
    if ds != [] {
      var b1 := Slide(b, ds[0]);
      SlideStaysValid(b, ds[0]);
      RunBackwards(b1, ds[1..], b');
      Undo(b, ds[0]);
      OneMove(b1, Opposite(ds[0]), b);
      RunConcat(b', Backwards(ds[1..]), b1, [Opposite(ds[0])], b);
    }
  }

  lemma ValidIsOnBoard(b: Board)
    requires Valid(b)
    ensures OnBoard(b)
  {
  }

  lemma OneMove(b: Board, d: int, b': Board)
    requires OnBoard(b) && Legal(b, d) && Slide(b, d) == b'
    ensures Run(b, [d], b')
  {
    assert [d][1..] == [];
  }

  // ---- The solved board ----

  lemma {:induction false} SolvedLess(k: nat, v: int)
    requires k <= 15 && 0 < v <= k + 1
    ensures Less(Solved().cells[k..], v) == 1
    decreases 15 - k
  {
    var s := Solved().cells[k..];
    if k < 15 {
      SolvedLess(k + 1, v);
      assert s[1..] == Solved().cells[k + 1..];
    } else {
      assert s == [0];
    }
  }

  lemma {:induction false} SolvedInversions(k: nat)
    requires k <= 15
    ensures Inversions(Solved().cells[k..]) == 15 - k
    decreases 15 - k
  {
    var s := Solved().cells[k..];
    if k < 15 {
      SolvedInversions(k + 1);
      SolvedLess(k + 1, k + 1);
      assert s[1..] == Solved().cells[k + 1..] && s[0] == k + 1;
    } else {
      assert s == [0];
    }
  }

  lemma SolvedIsPermutation()
    ensures var s := Solved().cells; Distinct(s) && forall v :: 0 <= v < 16 ==> v in s
  {
    var s := Solved().cells;
    forall v | 0 <= v < 16 ensures v in s {
      assert s[if v == 0 then 15 else v - 1] == v;
    }
  }

  lemma SolvedIsValid()
    ensures OnBoard(Solved()) && Valid(Solved()) && Parity(Solved()) == 1
  {
    hide Inversions, Distinct;
    SolvedIsPermutation();
    SolvedInversions(0);
    var s := Solved().cells;
    assert s[0..] == s;
  }

  /** Every board that play reaches can be solved. */
  lemma ReachableIsSolvable(b: Board)
    requires Reachable(Solved(), b)
    ensures Valid(b) && Parity(b) == 1 && Reachable(b, Solved())
  {
    SolvedIsValid();
    hide Valid, Parity, Run;
    ValidIsOnBoard(Solved());
    var ds :| Run(Solved(), ds, b);
    RunKeeps(Solved(), ds, b);
    ValidIsOnBoard(b);
    RunBackwards(Solved(), ds, b);
  }

  /** Exchanging two tiles of a board that play can reach gives one that it cannot reach. */
  lemma ExchangeIsUnreachable(b: Board, i: nat, j: nat)
    requires i < j < 16 && OnBoard(b) && Reachable(Solved(), b) && b.cells[i] != 0 && b.cells[j] != 0
    ensures var b' := b.(cells := Swap(b.cells, i, j)); Valid(b') && !Reachable(Solved(), b')
  {
    ReachableIsSolvable(b);
    var b' := b.(cells := Swap(b.cells, i, j));
    ExchangedIsValid(b, i, j);
    ExchangeChangesParity(b, i, j);
    hide Parity, Valid, Reachable, Swap, Solved;
    if Reachable(Solved(), b') {
      ReachableIsSolvable(b');
    }
  }

  lemma ExchangeChangesParity(b: Board, i: nat, j: nat)
    requires i < j < |b.cells| && Distinct(b.cells)
    ensures Parity(b.(cells := Swap(b.cells, i, j))) != Parity(b)
  {
    hide Inversions, Swap;
    SwapChangesParity(b.cells, i, j);
    OddChange(Inversions(Swap(b.cells, i, j)), Inversions(b.cells), b.x + b.y);
  }

  lemma ExchangedIsValid(b: Board, i: nat, j: nat)
    requires Valid(b) && i < j < 16 && b.cells[i] != 0 && b.cells[j] != 0
    ensures Valid(b.(cells := Swap(b.cells, i, j)))
  {
    SwapKeepsPermutation(b.cells, i, j);
    hide Distinct;
  }
}

module Puzzle {
  import opened PuzzleSpec

  class P15 {
    const brd: array<int>
    var x: int
    var y: int

    ghost function Abs(): Board
      reads this, brd
    {
      Board(brd[..], x, y)
    }

    /** On every run of the program: the board can be reached from the solved one. */
    ghost predicate InPlay()
      reads this, brd
    {
      OnBoard(Abs()) && Reachable(Solved(), Abs())
    }

    constructor ()
      ensures fresh(brd) && brd.Length == 16
    {
      brd := new int[16];
    }

    /** `createBoard`, with what the random number generator yields. */
    method CreateBoard(random: nat -> nat) returns (ghost moves: seq<int>)
      requires brd.Length == 16
      modifies this, brd
      ensures InPlay() && |moves| == 1000 && Run(Solved(), moves, Abs()) && (x + y) % 2 == 0
    {
      hide Run, Slide, Legal, Candidates;
      Reset();
      moves := [];
      NoMoves(Abs());
      for i := 0 to 1000
        invariant OnBoard(Abs()) && |moves| == i && Run(Solved(), moves, Abs())
      {
        var v := GetCandidates();
        SomeCandidate(Abs());
        ghost var b := Abs();
        var d := v[random(i) % |v|];
        IsLegal(b, d);
        Move(d);
        MoveMore(moves, b, d);
        moves := moves + [d];
      }
      RunColours(Solved(), moves, Abs());
    }

    /** The solved board. */
    method Reset()
      requires brd.Length == 16
      modifies this, brd
      ensures OnBoard(Abs()) && Abs() == Solved()
    {
      for i := 1 to 16
        invariant forall k :: 0 <= k < i - 1 ==> brd[k] == k + 1
      {
        brd[i - 1] := i;
      }
      brd[15] := 0;
      x, y := 3, 3;
      assert brd[..] == Solved().cells;
    }

    /** `move` */
    method Move(d: int)
      requires OnBoard(Abs()) && Legal(Abs(), d)
      modifies this, brd
      ensures Abs() == Slide(old(Abs()), d)
      ensures old(InPlay()) ==> InPlay()
    {
      ghost var b := Abs();
      var t := At(x, y);
      x, y := if d == RIGHT then x + 1 else if d == LEFT then x - 1 else x,
              if d == UP then y - 1 else if d == DOWN then y + 1 else y;
      brd[t] := brd[At(x, y)];
      brd[At(x, y)] := 0;
      assert Abs().cells == Slide(b, d).cells;
      StillReachable(b, d);
    }

    method GetCandidates() returns (v: seq<int>)
      ensures v == Candidates(x, y)
    {
      v := [];
      if x < 3 { v := v + [RIGHT]; }
      if x > 0 { v := v + [LEFT]; }
      if y < 3 { v := v + [DOWN]; }
      if y > 0 { v := v + [UP]; }
    }

    /** `getTiles`: the tiles that the moves `v` would slide. */
    method GetTiles(v: seq<int>) returns (p: seq<int>)
      requires OnBoard(Abs()) && forall i :: 0 <= i < |v| ==> Legal(Abs(), v[i])
      ensures |p| == |v|
      ensures forall i :: 0 <= i < |p| ==> var (xx, yy) := Moved(x, y, v[i]); 0 <= At(xx, yy) < 16 && p[i] == brd[At(xx, yy)]
    {
      p := [];
      for t := 0 to |v|
        invariant |p| == t
        invariant forall i :: 0 <= i < t ==> var (xx, yy) := Moved(x, y, v[i]); 0 <= At(xx, yy) < 16 && p[i] == brd[At(xx, yy)]
      {
        var (xx, yy) := Moved(x, y, v[t]);
        p := p + [brd[At(xx, yy)]];
      }
    }

    /** `getMove` for one number typed: a tile beside the blank slides into it, any other number is refused. */
    method GetMove(z: int) returns (moved: bool)
      requires InPlay()
      modifies this, brd
      ensures InPlay()
      ensures moved ==> exists d :: Legal(old(Abs()), d) && Abs() == Slide(old(Abs()), d) && old(Abs()).cells[At(x, y)] == z
      ensures !moved ==> Abs() == old(Abs())
      ensures !moved ==> forall d :: Legal(old(Abs()), d) ==> Tile(old(Abs()), d) != z
    {
      var v := GetCandidates();
      var p := GetTiles(v);
      for i := 0 to |p|
        invariant Abs() == old(Abs()) && InPlay()
        invariant forall k :: 0 <= k < i ==> p[k] != z
      {
        if z == p[i] {
          Move(v[i]);
          return true;
        }
      }
      return false;
    }

    /** `isDone` */
    method IsDone() returns (done: bool)
      requires InPlay()
      ensures done <==> Abs() == Solved()
    {
      hide Valid, Reachable, Run, Parity;
      ReachableIsSolvable(Abs());
      for i := 0 to 15
        invariant forall k :: 0 <= k < i ==> brd[k] == k + 1
      {
        if brd[i] != i + 1 {
          return false;
        }
      }
      DoneIsSolved(Abs());
      return true;
    }
  }

  /** The tile that a move slides. */
  function Tile(b: Board, d: int): int
    requires OnBoard(b) && Legal(b, d)
  {
    var (x, y) := Moved(b.x, b.y, d);
    b.cells[At(x, y)]
  }

  lemma StillReachable(b: Board, d: int)
    requires OnBoard(b) && Legal(b, d)
    ensures Reachable(Solved(), b) ==> OnBoard(Slide(b, d)) && Reachable(Solved(), Slide(b, d))
  {
    hide Slide, Legal, Run;
    LegalStays(b, d);
    if Reachable(Solved(), b) {
      var ds :| Run(Solved(), ds, b);
      MoveMore(ds, b, d);
    }
  }

  lemma NoMoves(b: Board)
    requires OnBoard(b)
    ensures Run(b, [], b)
  {
  }

  lemma SomeCandidate(b: Board)
    requires OnBoard(b)
    ensures Candidates(b.x, b.y) != []
  {
  }

  lemma IsLegal(b: Board, d: int)
    requires d in Candidates(b.x, b.y)
    ensures Legal(b, d)
  {
  }

  lemma MoveMore(ds: seq<int>, b: Board, d: int)
    requires OnBoard(b) && Legal(b, d) && Run(Solved(), ds, b)
    ensures OnBoard(Slide(b, d)) && Run(Solved(), ds + [d], Slide(b, d))
  {
    hide Slide, Legal, Run;
    LegalStays(b, d);
    OneMove(b, d, Slide(b, d));
    RunConcat(Solved(), ds, b, [d], Slide(b, d));
  }

  lemma DoneIsSolved(b: Board)
    requires Valid(b) && forall k :: 0 <= k < 15 ==> b.cells[k] == k + 1
    ensures b == Solved()
  {
    assert At(b.x, b.y) == 15;
    assert b.cells == Solved().cells;
  }
}
