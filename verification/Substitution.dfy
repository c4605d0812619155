/** The substitution modifiers of history expansion (readline/histexpand.c). */
module SubstitutionSpec {
  import opened Chars

  const AMPERSAND: Byte := '&' as int
  const BACKSLASH: Byte := '\\' as int
  const CARET: Byte := '^' as int
  const BANG: Byte := '!' as int
  const COLON: Byte := ':' as int
  const LETTER_S: Byte := 's' as int

  // ---- Replacing ----

  predicate MatchAt(t: seq<Byte>, l: seq<Byte>, i: int) {
    0 <= i && i + |l| <= |t| && t[i..i + |l|] == l
  }

  ghost predicate Occurs(t: seq<Byte>, l: seq<Byte>) {
    exists i :: MatchAt(t, l, i)
  }

  ghost predicate FirstMatch(t: seq<Byte>, l: seq<Byte>, k: int) {
    MatchAt(t, l, k) && forall j :: 0 <= j < k ==> !MatchAt(t, l, j)
  }

  /** The pieces between the occurrences of `l` that a reader from left to right meets. */
  function Pieces(t: seq<Byte>, l: seq<Byte>): (ps: seq<seq<Byte>>)
    requires l != []
    ensures ps != []
    decreases |t|
  {
    if |t| < |l| then [t]
    else if MatchAt(t, l, 0) then [[]] + Pieces(t[|l|..], l)
    else
      var ps := Pieces(t[1..], l);
      [[t[0]] + ps[0]] + ps[1..]
  }

  function Join(ps: seq<seq<Byte>>, s: seq<Byte>): seq<Byte>
    requires ps != []
  {
    if |ps| == 1 then ps[0] else ps[0] + s + Join(ps[1..], s)
  }

  /** Every occurrence replaced, from left to right, without looking at what was put in. */
  function ReplaceAll(t: seq<Byte>, l: seq<Byte>, r: seq<Byte>): seq<Byte>
    requires l != []
  {
    Join(Pieces(t, l), r)
  }

  lemma {:induction false} PiecesMakeUpText(t: seq<Byte>, l: seq<Byte>)
    requires l != []
    ensures Join(Pieces(t, l), l) == t
    decreases |t|
  {
    hide Join, MatchAt;
    if |t| < |l| {
      JoinOne(t, l);
    } else if MatchAt(t, l, 0) {
      PiecesMakeUpText(t[|l|..], l);
      JoinCons([], Pieces(t[|l|..], l), l);
      MatchHead(t, l);
    } else {
      PiecesMakeUpText(t[1..], l);
      JoinPush(t[0], Pieces(t[1..], l), l);
      assert [t[0]] + t[1..] == t;
    }
  }

  lemma MatchHead(t: seq<Byte>, l: seq<Byte>)
    requires |l| <= |t| && MatchAt(t, l, 0)
    ensures [] + l + t[|l|..] == t
  {
  }

  lemma JoinOne(p: seq<Byte>, s: seq<Byte>)
    ensures Join([p], s) == p
  {
  }

  lemma JoinCons(p: seq<Byte>, ps: seq<seq<Byte>>, s: seq<Byte>)
    requires ps != []
    ensures Join([p] + ps, s) == p + s + Join(ps, s)
  {
    assert ([p] + ps)[1..] == ps;
  }

  lemma JoinPush(c: Byte, ps: seq<seq<Byte>>, s: seq<Byte>)
    requires ps != []
    ensures Join([[c] + ps[0]] + ps[1..], s) == [c] + Join(ps, s)
  {
    var qs := [[c] + ps[0]] + ps[1..];
    assert qs[1..] == ps[1..];
    if |ps| > 1 {
      assert [c] + ps[0] + s + Join(ps[1..], s) == [c] + (ps[0] + s + Join(ps[1..], s));
    }
  }

  /** Each piece ends at the first occurrence that is left, and there is none in the last piece. */
  lemma {:induction false} PiecesAreLeftmost(t: seq<Byte>, l: seq<Byte>)
    requires l != []
    ensures var ps := Pieces(t, l);
      if |ps| == 1 then ps[0] == t && !Occurs(t, l)
      else FirstMatch(t, l, |ps[0]|) && ps[0] == t[..|ps[0]|] && ps[1..] == Pieces(t[|ps[0]| + |l|..], l)
    decreases |t|
  {
    hide Occurs, FirstMatch, MatchAt, Pieces;
    var ps := Pieces(t, l);
    if |t| < |l| {
      NoPieces(t, l);
      NoMatch(t, l);
    } else if MatchAt(t, l, 0) {
      PiecesStep(t, l);
      assert ps[0] == [] && ps[1..] == Pieces(t[|l|..], l);
      MatchesFirst(t, l);
    } else {
      PiecesStep(t, l);
      var t1 := t[1..];
      var qs := Pieces(t1, l);
      PiecesAreLeftmost(t1, l);
      assert ps[0] == [t[0]] + qs[0] && ps[1..] == qs[1..];
      if |qs| == 1 {
        assert !Occurs(t1, l);
        NoMatchTail(t, l);
        assert [t[0]] + t1 == t;
      } else {
        InBounds(t1, l, |qs[0]|);
        FirstMatchTail(t, l, |qs[0]|);
        assert t1[|qs[0]| + |l|..] == t[|ps[0]| + |l|..];
        assert [t[0]] + t1[..|qs[0]|] == t[..|ps[0]|];
      }
    }
  }

  lemma InBounds(t: seq<Byte>, l: seq<Byte>, k: int)
    requires FirstMatch(t, l, k)
    ensures MatchAt(t, l, k) && 0 <= k && k + |l| <= |t|
  {
  }

  lemma NoPieces(t: seq<Byte>, l: seq<Byte>)
    requires |t| < |l|
    ensures Pieces(t, l) == [t]
  {
  }

  lemma PiecesStep(t: seq<Byte>, l: seq<Byte>)
    requires l != [] && |l| <= |t|
    ensures Pieces(t, l) == if MatchAt(t, l, 0) then [[]] + Pieces(t[|l|..], l)
                            else [[t[0]] + Pieces(t[1..], l)[0]] + Pieces(t[1..], l)[1..]
  {
  }

  lemma MatchesFirst(t: seq<Byte>, l: seq<Byte>)
    requires MatchAt(t, l, 0)
    ensures FirstMatch(t, l, 0)
  {
  }

  lemma NoMatch(t: seq<Byte>, l: seq<Byte>)
    requires |t| < |l|
    ensures !Occurs(t, l)
  {
  }

  lemma MatchTail(t: seq<Byte>, l: seq<Byte>, i: int)
    requires t != [] && i > 0
    ensures MatchAt(t, l, i) <==> MatchAt(t[1..], l, i - 1)
  {
    if i + |l| <= |t| {
      assert t[1..][i - 1..i - 1 + |l|] == t[i..i + |l|];
    }
  }

  lemma NoMatchTail(t: seq<Byte>, l: seq<Byte>)
    requires t != [] && !MatchAt(t, l, 0) && !Occurs(t[1..], l)
    ensures !Occurs(t, l)
  {
    forall i ensures !MatchAt(t, l, i) {
      if i > 0 {
        MatchTail(t, l, i);
      }
    }
  }

  lemma FirstMatchTail(t: seq<Byte>, l: seq<Byte>, k: nat)
    requires t != [] && !MatchAt(t, l, 0) && FirstMatch(t[1..], l, k)
    ensures FirstMatch(t, l, k + 1)
  {
    MatchTail(t, l, k + 1);
    forall j | 0 <= j < k + 1 ensures !MatchAt(t, l, j) {
      if j > 0 {
        MatchTail(t, l, j);
      }
    }
  }

  lemma ReplaceHere(t: seq<Byte>, l: seq<Byte>, r: seq<Byte>)
    requires l != [] && |l| <= |t|
    ensures ReplaceAll(t, l, r) ==
            if MatchAt(t, l, 0) then r + ReplaceAll(t[|l|..], l, r) else [t[0]] + ReplaceAll(t[1..], l, r)
  {
    if MatchAt(t, l, 0) {
      JoinCons([], Pieces(t[|l|..], l), r);
    } else {
      JoinPush(t[0], Pieces(t[1..], l), r);
    }
  }

  lemma ReplaceShort(t: seq<Byte>, l: seq<Byte>, r: seq<Byte>)
    requires |t| < |l|
    ensures ReplaceAll(t, l, r) == t
  {
  }

  /** The text with `l` replaced by `r`, at the first occurrence or everywhere. */
  ghost predicate Replaced(t: seq<Byte>, l: seq<Byte>, r: seq<Byte>, globally: bool, t': seq<Byte>)
    requires l != []
  {
    if globally then t' == ReplaceAll(t, l, r)
    else exists k :: FirstMatch(t, l, k) && t' == t[..k] + r + t[k + |l|..]
  }

  // ---- The pattern and its replacement ----

  /** How many characters stand before the first unquoted delimiter. */
  function Extent(s: seq<Byte>, delimiter: Byte): (n: nat)
    ensures n <= |s| && (n < |s| ==> s[n] == delimiter)
    decreases |s|
  {
    if s == [] || s[0] == delimiter then 0
    else if s[0] == BACKSLASH && |s| > 1 && s[1] == delimiter then 2 + Extent(s[2..], delimiter)
    else 1 + Extent(s[1..], delimiter)
  }

  /** What they spell, the delimiters among them without their backslashes. */
  function Pattern(s: seq<Byte>, delimiter: Byte): seq<Byte>
    decreases |s|
  {
    if s == [] || s[0] == delimiter then []
    else if s[0] == BACKSLASH && |s| > 1 && s[1] == delimiter then [delimiter] + Pattern(s[2..], delimiter)
    else [s[0]] + Pattern(s[1..], delimiter)
  }

  function Quote(w: seq<Byte>, delimiter: Byte): seq<Byte> {
    if w == [] then []
    else (if w[0] == delimiter then [BACKSLASH, delimiter] else [w[0]]) + Quote(w[1..], delimiter)
  }

  /** A pattern whose delimiters are quoted is read back, unless a backslash at its end quotes the
      delimiter that should end it. */
  lemma {:induction false} QuotedReadsBack(w: seq<Byte>, delimiter: Byte, rest: seq<Byte>)
    requires delimiter != BACKSLASH
    ensures var s := Quote(w, delimiter) + [delimiter] + rest;
      Pattern(s, delimiter) == w && Extent(s, delimiter) == |Quote(w, delimiter)|
      <==> w == [] || w[|w| - 1] != BACKSLASH
    decreases |w|
  {
    hide Pattern, Extent, Quote;
    var q := Quote(w, delimiter);
    var s := q + [delimiter] + rest;
    QuoteStep(w, delimiter);
    ScanStep(s, delimiter);
    if w != [] {
      var w1 := w[1..];
      var q1 := Quote(w1, delimiter);
      var s1 := q1 + [delimiter] + rest;
      QuoteStep(w1, delimiter);
      QuotedReadsBack(w1, delimiter, rest);
      ConsSame(w, Pattern(s1, delimiter));
      if w[0] == delimiter {
        FrontOf([BACKSLASH, delimiter], q1, [delimiter], rest);
      } else {
        FrontOf([w[0]], q1, [delimiter], rest);
      }
    }
  }

  lemma FrontOf(a: seq<Byte>, b: seq<Byte>, c: seq<Byte>, d: seq<Byte>)
    ensures var s, s1 := a + b + c + d, b + c + d;
      s == a + s1 && s[|a|..] == s1 && (|s1| > 0 ==> |s| > |a| && s[|a|] == s1[0])
      && forall i :: 0 <= i < |a| ==> s[i] == a[i]
  {
    var s, s1 := a + b + c + d, b + c + d;
    assert s == a + s1;
  }

  lemma QuoteStep(w: seq<Byte>, delimiter: Byte)
    ensures Quote(w, delimiter) ==
            if w == [] then []
            else (if w[0] == delimiter then [BACKSLASH, delimiter] else [w[0]]) + Quote(w[1..], delimiter)
  {
  }

  lemma ScanStep(s: seq<Byte>, delimiter: Byte)
    requires s != []
    ensures var two := s[0] == BACKSLASH && |s| > 1 && s[1] == delimiter;
      if s[0] == delimiter then Pattern(s, delimiter) == [] && Extent(s, delimiter) == 0
      else if two then
        Pattern(s, delimiter) == [delimiter] + Pattern(s[2..], delimiter) && Extent(s, delimiter) == 2 + Extent(s[2..], delimiter)
      else
        Pattern(s, delimiter) == [s[0]] + Pattern(s[1..], delimiter) && Extent(s, delimiter) == 1 + Extent(s[1..], delimiter)
  {
  }

  lemma ConsSame(w: seq<Byte>, t: seq<Byte>)
    requires w != []
    ensures [w[0]] + t == w <==> t == w[1..]
  {
    assert ([w[0]] + t)[1..] == t;
  }

  /** The replacement with `&` standing for the pattern. */
  function Interpolate(rhs: seq<Byte>, lhs: seq<Byte>): seq<Byte>
    decreases |rhs|
  {
    if rhs == [] then []
    else if rhs[0] == AMPERSAND then lhs + Interpolate(rhs[1..], lhs)
    else if rhs[0] == BACKSLASH && At(rhs, 1) == AMPERSAND then [AMPERSAND] + Interpolate(rhs[2..], lhs)
    else [rhs[0]] + Interpolate(rhs[1..], lhs)
  }

  /** A quoted `&` stands for itself. */
  lemma {:induction false} QuotedAmpersand(w: seq<Byte>, lhs: seq<Byte>)
    ensures Interpolate(Quote(w, AMPERSAND), lhs) == w
    decreases |w|
  {
    if w != [] {
      QuotedAmpersand(w[1..], lhs);
      var q, q1 := Quote(w, AMPERSAND), Quote(w[1..], AMPERSAND);
      if w[0] == AMPERSAND {
        assert q[2..] == q1;
      } else {
        assert q[1..] == q1;
        assert w[1..] != [] ==> q1[0] != AMPERSAND;
      }
    }
  }

  /** An `&` (38) stands for the pattern, between whatever comes before it and after it; one after a backslash
      (92) does not. */
  lemma {:induction false} AmpersandIsPattern(before: seq<Byte>, rest: seq<Byte>, lhs: seq<Byte>)
    requires 38 !in before && (before == [] || before[|before| - 1] != 92)
    ensures Interpolate(before + [38] + rest, lhs) == before + lhs + Interpolate(rest, lhs)
    ensures Interpolate(before + [92, 38] + rest, lhs) == before + [38] + Interpolate(rest, lhs)
    decreases |before|
  {
    var s, t := before + [38] + rest, before + [92, 38] + rest;
    if before == [] {
      assert s[1..] == rest && t[2..] == rest;
      assert [] + lhs == lhs && [] + [38] == [38];
    } else {
      var more := before[1..];
      assert before[0] in before && s[0] == before[0] && t[0] == before[0];
      assert s[1..] == more + [38] + rest && t[1..] == more + [92, 38] + rest;
      assert more != [] ==> more[0] in before && s[1] == more[0] && t[1] == more[0];
      AmpersandIsPattern(more, rest, lhs);
      FirstOut(before, lhs, Interpolate(rest, lhs));
      FirstOut(before, [38], Interpolate(rest, lhs));
    }
  }

  lemma FirstOut(a: seq<Byte>, b: seq<Byte>, c: seq<Byte>)
    requires a != []
    ensures a + b + c == [a[0]] + (a[1..] + b + c)
  {
  }

  lemma {:induction false} NoAmpersand(rhs: seq<Byte>, lhs: seq<Byte>)
    requires AMPERSAND !in rhs
    ensures Interpolate(rhs, lhs) == rhs && Ampersands(rhs) == 0
    decreases |rhs|
  {
    if rhs != [] {
      assert rhs[0] in rhs && (|rhs| > 1 ==> rhs[1] in rhs);
      NoAmpersand(rhs[1..], lhs);
    }
  }

  /** How many `&` of the replacement stand for the pattern. */
  function Ampersands(rhs: seq<Byte>): nat
    decreases |rhs|
  {
    if rhs == [] then 0
    else if rhs[0] == AMPERSAND then 1 + Ampersands(rhs[1..])
    else if rhs[0] == BACKSLASH && At(rhs, 1) == AMPERSAND then Ampersands(rhs[2..])
    else Ampersands(rhs[1..])
  }

  /** Each of them puts in the pattern, so the replacement depends on the pattern if and only if there is one. */
  lemma {:induction false} InterpolateLength(rhs: seq<Byte>, lhs: seq<Byte>)
    ensures |Interpolate(rhs, lhs)| == |Interpolate(rhs, [])| + Ampersands(rhs) * |lhs|
    ensures |Interpolate(rhs, [])| + Ampersands(rhs) <= |rhs|
    ensures AMPERSAND in rhs ==> |Interpolate(rhs, [])| < |rhs|
    decreases |rhs|
  {
    if rhs != [] {
      var two := rhs[0] == BACKSLASH && At(rhs, 1) == AMPERSAND;
      var rest := rhs[if two then 2 else 1..];
      InterpolateLength(rest, lhs);
      if rhs[0] == AMPERSAND {
        assert (1 + Ampersands(rest)) * |lhs| == |lhs| + Ampersands(rest) * |lhs|;
      } else if !two {
        assert AMPERSAND in rhs ==> AMPERSAND in rest;
      }
    }
  }

  // ---- The block for the replacement ----

  /** The size that the block reaches, `j` bytes being written of the `size` that it has. */
  function Block(rhs: seq<Byte>, l: nat, j: nat, size: nat): (r: nat)
    ensures r >= size
    decreases |rhs|
  {
    if rhs == [] then size
    else if rhs[0] == AMPERSAND then Block(rhs[1..], l, j + l, if j + l >= size then size * 2 + l else size)
    else
      var two := rhs[0] == BACKSLASH && At(rhs, 1) == AMPERSAND;
      Block(rhs[if two then 2 else 1..], l, j + 1, if j >= size then size * 2 else size)
  }

  /** There is room for the zero after the replacement. */
  predicate Room(rhs: seq<Byte>, lhs: seq<Byte>) {
    |Interpolate(rhs, lhs)| < Block(rhs, |lhs|, 0, |rhs| + |lhs|)
  }

  /** The block holds the replacement, so the zero is at most one byte behind it. */
  lemma {:induction false} BlockHolds(rhs: seq<Byte>, lhs: seq<Byte>, j: nat, size: nat)
    requires j <= size && (rhs != [] ==> size > 0)
    ensures j + |Interpolate(rhs, lhs)| <= Block(rhs, |lhs|, j, size)
    decreases |rhs|
  {
    var l := |lhs|;
    if rhs != [] {
      var two := rhs[0] == BACKSLASH && At(rhs, 1) == AMPERSAND;
      var rest := rhs[if two then 2 else 1..];
      if rhs[0] == AMPERSAND {
        BlockHolds(rest, lhs, j + l, if j + l >= size then size * 2 + l else size);
      } else {
        BlockHolds(rest, lhs, j + 1, if j >= size then size * 2 else size);
      }
    }
  }

  /** There is room if the replacement is shorter than the two strings together; and it is for no more than
      one `&`. */
  lemma RoomWhenShort(rhs: seq<Byte>, lhs: seq<Byte>)
    ensures |Interpolate(rhs, lhs)| < |rhs| + |lhs| ==> Room(rhs, lhs)
    ensures AMPERSAND in rhs && Ampersands(rhs) <= 1 ==> Room(rhs, lhs)
  {
    InterpolateLength(rhs, lhs);
    hide Interpolate, Ampersands, Block;
    if Ampersands(rhs) == 1 {
      assert Ampersands(rhs) * |lhs| == |lhs|;
    } else if Ampersands(rhs) == 0 {
      assert Ampersands(rhs) * |lhs| == 0;
    }
  }

  /** The last thing in the replacement is an `&` that stands for the pattern. */
  predicate EndsInPattern(rhs: seq<Byte>)
    decreases |rhs|
  {
    && rhs != []
    && var two := rhs[0] == BACKSLASH && At(rhs, 1) == AMPERSAND;
       var rest := rhs[if two then 2 else 1..];
       if rest == [] then rhs[0] == AMPERSAND else EndsInPattern(rest)
  }

  lemma {:induction false} NothingIsPattern(rhs: seq<Byte>, lhs: seq<Byte>)
    requires rhs != [] && Interpolate(rhs, lhs) == []
    ensures EndsInPattern(rhs)
    decreases |rhs|
  {
    if |rhs| > 1 {
      assert rhs[0] == AMPERSAND;
      NothingIsPattern(rhs[1..], lhs);
    }
  }

  /** A replacement that fills the block makes it grow if and only if the pattern is the last thing in it. */
  lemma {:induction false} BlockGrows(rhs: seq<Byte>, lhs: seq<Byte>, j: nat, size: nat)
    requires j + |Interpolate(rhs, lhs)| == size > 0
    ensures Block(rhs, |lhs|, j, size) > size <==> EndsInPattern(rhs)
    decreases |rhs|
  {
    if rhs != [] {
      var two := rhs[0] == BACKSLASH && At(rhs, 1) == AMPERSAND;
      var rest := rhs[if two then 2 else 1..];
      if rhs[0] == AMPERSAND {
        if rest == [] {
          assert Interpolate(rest, lhs) == [];
        } else if Interpolate(rest, lhs) == [] {
          NothingIsPattern(rest, lhs);
        } else {
          BlockGrows(rest, lhs, j + |lhs|, size);
        }
      } else {
        BlockGrows(rest, lhs, j + 1, size);
      }
    }
  }

  /** A replacement no longer than the two strings together has room if and only if it is shorter, or the
      pattern is the last thing in it. */
  lemma RoomIff(rhs: seq<Byte>, lhs: seq<Byte>)
    requires |Interpolate(rhs, lhs)| <= |rhs| + |lhs|
    ensures Room(rhs, lhs) <==> |Interpolate(rhs, lhs)| < |rhs| + |lhs| || EndsInPattern(rhs)
  {
    hide Interpolate, Block, EndsInPattern;
    if rhs == [] {
      EmptyReplacement(lhs);
    } else if |Interpolate(rhs, lhs)| == |rhs| + |lhs| {
      BlockGrows(rhs, lhs, 0, |rhs| + |lhs|);
    }
  }

  lemma EmptyReplacement(lhs: seq<Byte>)
    ensures Interpolate([], lhs) == [] && Block([], |lhs|, 0, |lhs|) == |lhs| && !EndsInPattern([])
  {
  }

  /** For `xy` and `&&a` five bytes are allocated, and the zero is the sixth. */
  lemma NoRoomExample()
    ensures var x: Byte, y: Byte, a: Byte := 'x' as int, 'y' as int, 'a' as int;
      !Room([AMPERSAND, AMPERSAND, a], [x, y]) && Interpolate([AMPERSAND, AMPERSAND, a], [x, y]) == [x, y, x, y, a]
  {
    var x: Byte, y: Byte, a: Byte := 'x' as int, 'y' as int, 'a' as int;
    var none: seq<Byte> := [];
    var r3, r2, r1 := [AMPERSAND, AMPERSAND, a], [AMPERSAND, a], [a];
    assert r3[1..] == r2 && r2[1..] == r1 && r1[1..] == none;
    assert Interpolate(r1, [x, y]) == [a] + none;
    assert Interpolate(r2, [x, y]) == [x, y] + [a];
    assert Block(r1, 2, 4, 5) == Block(none, 2, 5, 5);
    assert Block(r2, 2, 2, 5) == Block(r1, 2, 4, 5);
  }

  lemma {:induction false} PlainPattern(w: seq<Byte>, s: seq<Byte>, delimiter: Byte)
    requires delimiter !in w && BACKSLASH !in w
    requires w <= s && (|w| == |s| || s[|w|] == delimiter)
    ensures Pattern(s, delimiter) == w && Extent(s, delimiter) == |w|
    decreases |w|
  {
    if w != [] {
      assert s[0] == w[0] && w[0] in w;
      PlainPattern(w[1..], s[1..], delimiter);
    }
  }

  // ---- The modifier ----

  /** The pattern and the replacement that the last `:s` has set. */
  datatype Subst = Subst(lhs: Option<seq<Byte>>, rhs: seq<Byte>)

  datatype Outcome =
    | Done(text: seq<Byte>, next: nat)
    | NoDelimiter
    | NullDereference
    | NoPrevSubst(next: nat)
    | SubstFailed(next: nat)

  /** The pattern, the replacement as it is written, and where the text of the `:s` at `i` ends; an empty
      pattern is the last one, or what was last searched for. */
  function SubstText(str: seq<Byte>, i: nat, st: Subst, search: Option<seq<Byte>>)
    : (r: (Option<seq<Byte>>, seq<Byte>, nat))
    requires i + 2 < |str|
    ensures r.2 <= |str|
  {
    var d := str[i + 2];
    var left := str[i + 3..];
    var n := Extent(left, d);
    var right := left[if n < |left| then n + 1 else n..];
    var m := Extent(right, d);
    var lhs := if n > 0 then Some(Pattern(left, d))
               else if st.lhs.Some? then st.lhs
               else if search.Some? && search.value != [] then search
               else None;
    (lhs, Pattern(right, d), |str| - |right| + if m < |right| then m + 1 else m)
  }

  /** A pattern that is given is taken; otherwise the one that is remembered, and only then what was last
      searched for. */
  lemma PatternComesFrom(str: seq<Byte>, i: nat, st: Subst, search: Option<seq<Byte>>)
    requires i + 2 < |str|
    ensures var d, left, lhs := str[i + 2], str[i + 3..], SubstText(str, i, st, search).0;
      if left != [] && left[0] != d then lhs == Some(Pattern(left, d)) && Pattern(left, d) != []
      else if st.lhs.Some? then lhs == st.lhs
      else if search.Some? && search.value != [] then lhs == search
      else lhs == None
  {
    var d, left := str[i + 2], str[i + 3..];
    assert Extent(left, d) == 0 <==> left == [] || left[0] == d;
  }

  function OrEmpty(lhs: Option<seq<Byte>>): seq<Byte> {
    if lhs.Some? then lhs.value else []
  }

  /** `&` stands for a pattern that there is not. */
  predicate NullPattern(lhs: Option<seq<Byte>>, rhs: seq<Byte>) {
    lhs.None? && Ampersands(rhs) > 0
  }

  /** What `:s` at `i` makes of the remembered substitution; nothing when a null pattern is copied. */
  function NewSubst(str: seq<Byte>, i: nat, st: Subst, search: Option<seq<Byte>>): (r: Option<(Subst, nat)>)
    requires i + 2 < |str|
    ensures r.Some? ==> r.value.1 <= |str|
  {
    var (lhs, rhs, next) := SubstText(str, i, st, search);
    if NullPattern(lhs, rhs) then None else Some((Subst(lhs, Interpolate(rhs, OrEmpty(lhs))), next))
  }

  /** The block for the replacement of the `:s` at `i` holds it and the zero after it. */
  predicate HasRoom(str: seq<Byte>, i: nat, st: Subst, search: Option<seq<Byte>>)
    requires i + 2 < |str|
  {
    var (lhs, rhs, _) := SubstText(str, i, st, search);
    AMPERSAND in rhs ==> Room(rhs, OrEmpty(lhs))
  }

  /** A null pattern is copied if and only if the pattern is left empty, none is remembered, nothing has been
      searched for, and some `&` of the replacement is not quoted. */
  lemma NullPatternIff(str: seq<Byte>, i: nat, st: Subst, search: Option<seq<Byte>>)
    requires i + 2 < |str|
    ensures var d, left := str[i + 2], str[i + 3..];
      NewSubst(str, i, st, search) == None <==>
      && (left == [] || left[0] == d) && st.lhs.None? && OrEmpty(search) == []
      && Ampersands(Pattern(if left == [] then [] else left[1..], d)) > 0
  {
    hide Pattern, Interpolate, Ampersands;
    var d, left := str[i + 2], str[i + 3..];
    assert Extent(left, d) == 0 <==> left == [] || left[0] == d;
  }

  /** With nothing remembered and nothing searched for, `^^&^` copies a null pattern; `^^\&^` does not. */
  lemma NullPatternExample(rhs: seq<Byte>)
    ensures NewSubst([BANG, BANG, COLON, LETTER_S, CARET, CARET, AMPERSAND, CARET], 2, Subst(None, rhs), None) == None
    ensures NewSubst([BANG, BANG, COLON, LETTER_S, CARET, CARET, BACKSLASH, AMPERSAND, CARET], 2,
                     Subst(None, rhs), None).Some?
  {
    var s := [BANG, BANG, COLON, LETTER_S, CARET, CARET, AMPERSAND, CARET];
    var t := [BANG, BANG, COLON, LETTER_S, CARET, CARET, BACKSLASH, AMPERSAND, CARET];
    var none: seq<Byte> := [];
    PlainPattern([AMPERSAND], s[6..], CARET);
    assert s[5..][1..] == s[6..] && t[5..][1..] == t[6..];
    var right := t[6..];
    assert right == [BACKSLASH, AMPERSAND, CARET] && right[1..] == [AMPERSAND, CARET];
    PlainPattern([AMPERSAND], right[1..], CARET);
    assert Pattern(right, CARET) == [BACKSLASH, AMPERSAND];
    assert [BACKSLASH, AMPERSAND][2..] == none && [AMPERSAND][1..] == none;
    assert Ampersands([BACKSLASH, AMPERSAND]) == 0 && Ampersands([AMPERSAND]) == 1;
    assert Extent(s[5..], CARET) == 0 && Extent(t[5..], CARET) == 0;
  }

  /** The outcome of substituting in `temp`. */
  ghost predicate Outcomes(temp: seq<Byte>, st: Subst, globally: bool, next: nat, o: Outcome) {
    if st.lhs.None? || st.lhs.value == [] then o == NoPrevSubst(next)
    else if !Occurs(temp, st.lhs.value) then o == SubstFailed(next)
    else o.Done? && o.next == next && Replaced(temp, st.lhs.value, st.rhs, globally, o.text)
  }

  /** `^old^new` asks for the first `old` to become `new`, whether or not a delimiter ends it. */
  lemma QuickPattern(old': seq<Byte>, new': seq<Byte>, tail: seq<Byte>, st: Subst, search: Option<seq<Byte>>)
    requires old' != [] && CARET !in old' && BACKSLASH !in old'
    requires CARET !in new' && BACKSLASH !in new' && AMPERSAND !in new'
    requires tail == [] || tail == [CARET]
    ensures var str := [BANG, BANG, COLON, LETTER_S, CARET] + old' + [CARET] + new' + tail;
      NewSubst(str, 2, st, search) == Some((Subst(Some(old'), new'), |str|))
  {
    hide Extent, Pattern, Interpolate, Ampersands;
    var str := [BANG, BANG, COLON, LETTER_S, CARET] + old' + [CARET] + new' + tail;
    QuickParts(old', new', tail);
    PlainPattern(old', str[5..], CARET);
    PlainPattern(new', str[6 + |old'|..], CARET);
    NoAmpersand(new', old');
  }

  lemma QuickParts(old': seq<Byte>, new': seq<Byte>, tail: seq<Byte>)
    requires tail == [] || tail == [CARET]
    ensures var str := [BANG, BANG, COLON, LETTER_S, CARET] + old' + [CARET] + new' + tail;
      var left, right := str[5..], str[6 + |old'|..];
      && |str| == 6 + |old'| + |new'| + |tail| && str[4] == CARET
      && old' <= left && left[|old'|] == CARET && left[|old'| + 1..] == right
      && new' <= right && (|right| == |new'| || right[|new'|] == CARET) && |right| == |new'| + |tail|
  {
    var str := [BANG, BANG, COLON, LETTER_S, CARET] + old' + [CARET] + new' + tail;
    assert str[5..] == old' + [CARET] + new' + tail;
    assert str[6 + |old'|..] == new' + tail;
  }
}

module Substitution {
  import opened Chars
  import opened HistorySpec
  import opened HistoryList
  import opened SubstitutionSpec

  /** The first loop of `get_subst_pattern` finds the end of the pattern. */
  method PatternEnd(str: seq<Byte>, start: nat, delimiter: Byte) returns (si: nat)
    requires NulFree(str) && start <= |str| && delimiter != NUL
    ensures si == start + Extent(str[start..], delimiter)
  {
    hide Extent, Pattern;
    si := start;
    while At(str, si) != NUL && At(str, si) != delimiter
      invariant start <= si <= |str|
      invariant si + Extent(str[si..], delimiter) == start + Extent(str[start..], delimiter)
      decreases |str| - si
    {
      ScanOne(str, si, delimiter);
      if str[si] == BACKSLASH && At(str, si + 1) == delimiter {
        si := si + 1;
      }
      si := si + 1;
    }
    ScanEnd(str[si..], delimiter);
  }

  /** Its second loop copies the pattern. */
  method CopyPattern(str: seq<Byte>, start: nat, end: nat, delimiter: Byte) returns (s: seq<Byte>)
    requires start <= |str| && delimiter != NUL && end == start + Extent(str[start..], delimiter)
    ensures s == Pattern(str[start..], delimiter)
  {
    hide Extent, Pattern;
    s := [];
    var k := start;
    while k < end
      invariant start <= k <= end && k + Extent(str[k..], delimiter) == end
      invariant s + Pattern(str[k..], delimiter) == Pattern(str[start..], delimiter)
    {
      ScanEnd(str[k..], delimiter);
      ScanOne(str, k, delimiter);
      if str[k] == BACKSLASH && At(str, k + 1) == delimiter {
        k := k + 1;
      }
      s := s + [str[k]];
      k := k + 1;
    }
    ScanEnd(str[k..], delimiter);
  }

  /** `get_subst_pattern` */
  method GetSubstPattern(str: seq<Byte>, start: nat, delimiter: Byte, isRhs: bool)
    returns (r: Option<seq<Byte>>, i: nat)
    requires NulFree(str) && start <= |str| && delimiter != NUL
    ensures var left := str[start..]; var n := Extent(left, delimiter);
      && r == (if n > 0 || isRhs then Some(Pattern(left, delimiter)) else None)
      && i == start + if n < |left| then n + 1 else n
  {
    hide Extent, Pattern;
    var si := PatternEnd(str, start, delimiter);
    r := None;
    if si > start || isRhs {
      var s := CopyPattern(str, start, si, delimiter);
      r := Some(s);
    }
    i := if At(str, si) != NUL then si + 1 else si;
  }

  lemma ScanEnd(s: seq<Byte>, delimiter: Byte)
    ensures Extent(s, delimiter) == 0 <==> s == [] || s[0] == delimiter
    ensures Extent(s, delimiter) == 0 ==> Pattern(s, delimiter) == []
  {
  }

  lemma ScanOne(str: seq<Byte>, k: nat, delimiter: Byte)
    requires k < |str| && str[k] != delimiter && delimiter != NUL
    ensures var two := str[k] == BACKSLASH && At(str, k + 1) == delimiter;
      var m := if two then 2 else 1;
      && k + m <= |str|
      && Extent(str[k..], delimiter) == m + Extent(str[k + m..], delimiter)
      && Pattern(str[k..], delimiter) == [if two then delimiter else str[k]] + Pattern(str[k + m..], delimiter)
  {
    var s := str[k..];
    assert |s| > 1 ==> s[1] == At(str, k + 1) && s[2..] == str[k + 2..];
    assert s[1..] == str[k + 1..];
  }

  /** `postproc_subst_rhs`, which stops when it copies a null pattern; `room` says whether the zero that it
      writes at the end is inside the block. */
  method PostprocRhs(rhs: seq<Byte>, lhs: Option<seq<Byte>>) returns (r: Option<seq<Byte>>, room: bool)
    ensures r.None? <==> NullPattern(lhs, rhs)
    ensures r.Some? ==> r.value == Interpolate(rhs, OrEmpty(lhs)) && room == Room(rhs, OrEmpty(lhs))
  {
    hide Interpolate, Block, Ampersands, Made;
    var l := |OrEmpty(lhs)|;
    var new', size := [], |rhs| + l;
    var i := 0;
    MadeNothing(rhs, OrEmpty(lhs));
    while i < |rhs|
      invariant 0 <= i <= |rhs| && |new'| <= size && |rhs| + l <= size
      invariant Made(rhs, OrEmpty(lhs), i, new')
      invariant Block(rhs[i..], l, |new'|, size) == Block(rhs, l, 0, |rhs| + l)
      invariant lhs.None? ==> Ampersands(rhs[i..]) == Ampersands(rhs)
    {
      MadeMore(rhs, OrEmpty(lhs), i, new');
      BlockOne(rhs, i, l, |new'|, size);
      if rhs[i] == AMPERSAND {
        if |new'| + l >= size {
          size := size * 2 + l;
        }
        if lhs.None? {
          return None, false;
        }
        new' := new' + lhs.value;
        assert |new'| < size;
      } else {
        if rhs[i] == BACKSLASH && At(rhs, i + 1) == AMPERSAND {
          i := i + 1;
        }
        if |new'| >= size {
          size := size * 2;
        }
        assert |new'| < size;
        new' := new' + [rhs[i]];
      }
      i := i + 1;
    }
    assert rhs[i..] == [];
    MadeAll(rhs, OrEmpty(lhs), new');
    NothingLeft(l, |new'|, size);
    r, room := Some(new'), |new'| < size;
  }

  /** `done` has been made of the replacement up to `i`. */
  ghost predicate Made(rhs: seq<Byte>, lhs: seq<Byte>, i: nat, done: seq<Byte>)
    requires i <= |rhs|
  {
    done + Interpolate(rhs[i..], lhs) == Interpolate(rhs, lhs)
  }

  lemma MadeNothing(rhs: seq<Byte>, lhs: seq<Byte>)
    ensures Made(rhs, lhs, 0, []) && rhs[0..] == rhs
  {
    assert rhs[0..] == rhs;
  }

  lemma MadeMore(rhs: seq<Byte>, lhs: seq<Byte>, i: nat, done: seq<Byte>)
    requires i < |rhs| && Made(rhs, lhs, i, done)
    ensures var two := rhs[i] == BACKSLASH && At(rhs, i + 1) == AMPERSAND;
      if two then Made(rhs, lhs, i + 2, done + [AMPERSAND])
      else Made(rhs, lhs, i + 1, done + if rhs[i] == AMPERSAND then lhs else [rhs[i]])
  {
    hide Interpolate;
    InterpolateOne(rhs, i, lhs);
    var two := rhs[i] == BACKSLASH && At(rhs, i + 1) == AMPERSAND;
    var one := if two then [AMPERSAND] else if rhs[i] == AMPERSAND then lhs else [rhs[i]];
    Associates(done, one, Interpolate(rhs[if two then i + 2 else i + 1..], lhs));
  }

  lemma MadeAll(rhs: seq<Byte>, lhs: seq<Byte>, done: seq<Byte>)
    requires Made(rhs, lhs, |rhs|, done)
    ensures done == Interpolate(rhs, lhs)
  {
    assert rhs[|rhs|..] == [] && done + [] == done;
  }

  lemma NothingLeft(l: nat, j: nat, size: nat)
    ensures Block([], l, j, size) == size && Ampersands([]) == 0
  {
  }

  lemma BlockOne(rhs: seq<Byte>, i: nat, l: nat, j: nat, size: nat)
    requires i < |rhs|
    ensures var two := rhs[i] == BACKSLASH && At(rhs, i + 1) == AMPERSAND;
      if rhs[i] == AMPERSAND then
        && Block(rhs[i..], l, j, size) == Block(rhs[i + 1..], l, j + l, if j + l >= size then size * 2 + l else size)
        && Ampersands(rhs[i..]) > 0
      else
        var rest := rhs[if two then i + 2 else i + 1..];
        && Block(rhs[i..], l, j, size) == Block(rest, l, j + 1, if j >= size then size * 2 else size)
        && Ampersands(rhs[i..]) == Ampersands(rest)
  {
    var rest := rhs[i..];
    assert rest[1..] == rhs[i + 1..] && (|rest| > 1 ==> rest[1] == rhs[i + 1] && rest[2..] == rhs[i + 2..]);
  }

  lemma InterpolateOne(rhs: seq<Byte>, i: nat, lhs: seq<Byte>)
    requires i < |rhs|
    ensures var two := rhs[i] == BACKSLASH && At(rhs, i + 1) == AMPERSAND;
      Interpolate(rhs[i..], lhs) ==
      if two then [AMPERSAND] + Interpolate(rhs[i + 2..], lhs)
      else (if rhs[i] == AMPERSAND then lhs else [rhs[i]]) + Interpolate(rhs[i + 1..], lhs)
  {
    var rest := rhs[i..];
    assert rest[1..] == rhs[i + 1..] && (|rest| > 1 ==> rest[1] == rhs[i + 1] && rest[2..] == rhs[i + 2..]);
  }

  /** The loop of `:s`, or of `:gs`: the text that is left to look at shrinks even when what is put in
      is longer than what it replaces. */
  method SubstLoop(temp0: seq<Byte>, lhs: seq<Byte>, rhs: seq<Byte>, globally: bool)
    returns (failed: bool, temp: seq<Byte>)
    requires lhs != []
    ensures failed == !Occurs(temp0, lhs)
    ensures if failed then temp == temp0 else Replaced(temp0, lhs, rhs, globally, temp)
  {
    hide ReplaceAll, Occurs, Passed;
    temp, failed := temp0, true;
    var si := 0;
    PassedNothing(temp0, lhs, rhs);
    while si + |lhs| <= |temp|
      invariant 0 <= si <= |temp| && Passed(temp0, lhs, rhs, temp, si)
      invariant failed ==> temp == temp0 && forall j :: 0 <= j < si ==> !MatchAt(temp0, lhs, j)
      invariant !failed ==> globally && Occurs(temp0, lhs)
      decreases |temp| - si
    {
      PassedMore(temp0, lhs, rhs, temp, si);
      if temp[si..si + |lhs|] == lhs {
        var newEvent := temp[..si] + rhs + temp[si + |lhs|..];
        if failed {
          Found(temp0, lhs, si);
        }
        failed := false;
        if !globally {
          return failed, newEvent;
        }
        temp := newEvent;
        si := si + |rhs| - 1;
      }
      si := si + 1;
    }
    PassedAll(temp0, lhs, rhs, temp, si);
    if failed {
      NotFound(temp0, lhs, si);
    }
  }

  /** The text is what it is to be up to `i`, and has not been looked at from there. */
  ghost predicate Passed(t0: seq<Byte>, l: seq<Byte>, r: seq<Byte>, t: seq<Byte>, i: nat)
    requires l != [] && i <= |t|
  {
    ReplaceAll(t0, l, r) == t[..i] + ReplaceAll(t[i..], l, r)
  }

  lemma PassedNothing(t: seq<Byte>, l: seq<Byte>, r: seq<Byte>)
    requires l != []
    ensures Passed(t, l, r, t, 0)
  {
    assert t[0..] == t;
  }

  lemma PassedMore(t0: seq<Byte>, l: seq<Byte>, r: seq<Byte>, t: seq<Byte>, i: nat)
    requires l != [] && i + |l| <= |t| && Passed(t0, l, r, t, i)
    ensures var next := t[..i] + r + t[i + |l|..];
      if t[i..i + |l|] == l then Passed(t0, l, r, next, i + |r|) else Passed(t0, l, r, t, i + 1)
  {
    hide ReplaceAll;
    ReplaceAt(t, i, l, r);
    if t[i..i + |l|] == l {
      var next := t[..i] + r + t[i + |l|..];
      assert next[..i + |r|] == t[..i] + r && next[i + |r|..] == t[i + |l|..];
      Associates(t[..i], r, ReplaceAll(t[i + |l|..], l, r));
    } else {
      assert t[..i + 1] == t[..i] + [t[i]];
      Associates(t[..i], [t[i]], ReplaceAll(t[i + 1..], l, r));
    }
  }

  lemma PassedAll(t0: seq<Byte>, l: seq<Byte>, r: seq<Byte>, t: seq<Byte>, i: nat)
    requires i <= |t| < i + |l| && Passed(t0, l, r, t, i)
    ensures t == ReplaceAll(t0, l, r)
  {
    hide ReplaceAll;
    ReplaceShort(t[i..], l, r);
    assert t[..i] + t[i..] == t;
  }

  lemma ReplaceAt(t: seq<Byte>, i: nat, l: seq<Byte>, r: seq<Byte>)
    requires l != [] && i + |l| <= |t|
    ensures ReplaceAll(t[i..], l, r) ==
            if t[i..i + |l|] == l then r + ReplaceAll(t[i + |l|..], l, r) else [t[i]] + ReplaceAll(t[i + 1..], l, r)
  {
    hide ReplaceAll;
    var rest := t[i..];
    ReplaceHere(rest, l, r);
    assert rest[..|l|] == t[i..i + |l|] && rest[|l|..] == t[i + |l|..] && rest[1..] == t[i + 1..];
  }

  lemma Found(t: seq<Byte>, l: seq<Byte>, k: nat)
    requires MatchAt(t, l, k)
    ensures Occurs(t, l)
  {
  }

  lemma NotFound(t: seq<Byte>, l: seq<Byte>, n: nat)
    requires n + |l| > |t| && forall j :: 0 <= j < n ==> !MatchAt(t, l, j)
    ensures !Occurs(t, l)
  {
  }

  class Expander {
    var substLhs: Option<seq<Byte>>
    var substRhs: seq<Byte>
    var searchString: Option<seq<Byte>>

    ghost function Abs(): Subst
      reads this
    {
      Subst(substLhs, substRhs)
    }

    /** The modifier `:s` or `:&` that stands at `i` of `str`, applied to `temp`. */
    method Modify(str: seq<Byte>, i: nat, temp: seq<Byte>, globally: bool) returns (o: Outcome, room: bool)
      requires NulFree(str) && i + 1 < |str| && (str[i + 1] == LETTER_S || str[i + 1] == AMPERSAND)
      modifies this
      ensures searchString == old(searchString)
      ensures str[i + 1] == LETTER_S && i + 2 == |str| ==> o == NoDelimiter && room && Abs() == old(Abs())
      ensures str[i + 1] == LETTER_S && i + 2 < |str| ==>
        match NewSubst(str, i, old(Abs()), searchString)
        case None => o == NullDereference
        case Some((st, next)) =>
          Abs() == st && Outcomes(temp, st, globally, next, o) && room == HasRoom(str, i, old(Abs()), searchString)
      ensures str[i + 1] != LETTER_S ==> Abs() == old(Abs()) && room && Outcomes(temp, Abs(), globally, i + 2, o)
    {
      hide NewSubst, HasRoom, Occurs, Replaced;
      var next := i + 2;
      room := true;
      if str[i + 1] == LETTER_S {
        if i + 2 >= |str| {
          return NoDelimiter, true;
        }
        var after;
        after, room := ReadSubst(str, i);
        if after.None? {
          return NullDereference, false;
        }
        next := after.value;
      }
      o := Perform(temp, globally, next);
    }

    /** Set the pattern and the replacement from the text of a `:s`. */
    method ReadSubst(str: seq<Byte>, i: nat) returns (next: Option<nat>, room: bool)
      requires NulFree(str) && i + 2 < |str|
      modifies this
      ensures searchString == old(searchString)
      ensures next.Some? == NewSubst(str, i, old(Abs()), searchString).Some?
      ensures next.Some? ==>
        && NewSubst(str, i, old(Abs()), searchString) == Some((Abs(), next.value))
        && room == HasRoom(str, i, old(Abs()), searchString)
    {
      hide Extent, Pattern, Interpolate, Room, Ampersands;
      var delimiter := str[i + 2];
      var t, n', r;
      t, n' := GetSubstPattern(str, i + 3, delimiter, false);
      if t.Some? {
        substLhs := t;
      } else if substLhs.None? {
        if searchString.Some? && |searchString.value| > 0 {
          substLhs := searchString;
        }
      }
      ghost var left := str[i + 3..];
      ghost var n := Extent(left, delimiter);
      assert str[n'..] == left[if n < |left| then n + 1 else n..];
      r, n' := GetSubstPattern(str, n', delimiter, true);
      substRhs := r.value;
      room := true;
      if AMPERSAND in substRhs {
        r, room := PostprocRhs(substRhs, substLhs);
        if r.None? {
          return None, false;
        }
        substRhs := r.value;
      } else {
        NoAmpersand(substRhs, OrEmpty(substLhs));
      }
      next := Some(n');
    }

    method Perform(temp: seq<Byte>, globally: bool, next: nat) returns (o: Outcome)
      ensures Outcomes(temp, Abs(), globally, next, o)
    {
      hide Replaced;
      var lhs := if substLhs.Some? then substLhs.value else [];
      if |lhs| == 0 {
        return NoPrevSubst(next);
      }
      if |lhs| > |temp| {
        NoMatch(temp, lhs);
        return SubstFailed(next);
      }
      var failed, text := SubstLoop(temp, lhs, substRhs, globally);
      o := if failed then SubstFailed(next) else Done(text, next);
    }

    /** A line `^old^new^` or `^old^new`, as `history_expand` and `history_expand_internal` treat it:
        `!!:s` is put before it and the event is the last history line. */
    method QuickSubstitution(h: History, line: seq<Byte>) returns (o: Option<Outcome>, room: bool)
      requires h.Valid() && NulFree(line) && line != [] && line[0] == CARET
      modifies this
      ensures o.None? <==> h.entries == []
      ensures o.Some? ==>
        match NewSubst([BANG, BANG, COLON, LETTER_S] + line, 2, old(Abs()), old(searchString))
        case None => o.value == NullDereference
        case Some((st, next)) =>
          && Outcomes(h.entries[|h.entries| - 1].line, st, false, next, o.value)
          && room == HasRoom([BANG, BANG, COLON, LETTER_S] + line, 2, old(Abs()), old(searchString))
    {
      hide NewSubst, Outcomes, HasRoom;
      var str := [BANG, BANG, COLON, LETTER_S] + line;
      var event := h.HistoryGet(h.base + (h.length - 1));
      if event.None? {
        return None, true;
      }
      var outcome;
      outcome, room := Modify(str, 2, event.value.line, false);
      o := Some(outcome);
    }
  }

  /** What `^old^new^` does, for plain `old` and `new`. */
  lemma QuickSubstitutionMeans(last: seq<Byte>, old': seq<Byte>, new': seq<Byte>, tail: seq<Byte>,
                               st: Subst, search: Option<seq<Byte>>, o: Outcome)
    requires old' != [] && CARET !in old' && BACKSLASH !in old'
    requires CARET !in new' && BACKSLASH !in new' && AMPERSAND !in new'
    requires tail == [] || tail == [CARET]
    requires var str := [BANG, BANG, COLON, LETTER_S] + ([CARET] + old' + [CARET] + new' + tail);
      match NewSubst(str, 2, st, search)
      case None => false
      case Some((st', next)) => Outcomes(last, st', false, next, o)
    ensures var n := 7 + |old'| + |new'| + |tail| - 1;
      if !Occurs(last, old') then o == SubstFailed(n)
      else exists k :: FirstMatch(last, old', k) && o == Done(last[..k] + new' + last[k + |old'|..], n)
  {
    hide NewSubst, Occurs, FirstMatch;
    QuickPattern(old', new', tail, st, search);
    assert [BANG, BANG, COLON, LETTER_S] + ([CARET] + old' + [CARET] + new' + tail)
        == [BANG, BANG, COLON, LETTER_S, CARET] + old' + [CARET] + new' + tail;
  }

  /** `^a^b^` as it is expanded, `!!:s^a^b^`, by the codes of its characters. */
  lemma QuickExample(st: Subst, search: Option<seq<Byte>>)
    ensures [BANG, BANG, COLON, LETTER_S] == [33, 33, 58, 115] && CARET == 94
    ensures NewSubst([33, 33, 58, 115, 94, 97, 94, 98, 94], 2, st, search) == Some((Subst(Some([97]), [98]), 9))
  {
    hide NewSubst;
    QuickPattern([97], [98], [94], st, search);
    assert [33, 33, 58, 115, 94] + [97] + [94] + [98] + [94] == [33, 33, 58, 115, 94, 97, 94, 98, 94];
  }
}
