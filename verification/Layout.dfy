/** Laying the edited text out into screen rows (the first half of `rl_redisplay`, readline/display.c),
    in byte-oriented mode and without invisible prompt characters. */
module Layout {
  import opened Chars

  /** Screen width; `output-meta`; whether newlines start a new row. */
  datatype Options = Options(width: nat, outputMeta: bool, multiline: bool)

  /** The buffer being filled, where each row starts in it, and the column reached. */
  datatype Grid = Grid(line: seq<Byte>, lbreaks: seq<nat>, lpos: nat)

  const EMPTY := Grid([], [0], 0)

  // ---- The simple form: one cell at a time ----

  function PutCell(o: Options, g: Grid, c: Byte): Grid {
    var line := g.line + [c];
    if g.lpos + 1 >= o.width then Grid(line, g.lbreaks + [|line|], 0) else Grid(line, g.lbreaks, g.lpos + 1)
  }

  function PutCells(o: Options, g: Grid, cells: seq<Byte>): Grid {
    if cells == [] then g else PutCell(o, PutCells(o, g, cells[..|cells| - 1]), cells[|cells| - 1])
  }

  function OctalEscape(c: Byte): (s: seq<Byte>)
    requires c >= 128
    ensures |s| == 4
  {
    [92, c / 64 + 48, (c / 8) % 8 + 48, c % 8 + 48]
  }

  /** How a character that does not start a row looks in column `lpos`. */
  function Rendered(o: Options, c: Byte, lpos: nat): (s: seq<Byte>)
    ensures 0 < |s| <= 8
  {
    if c >= 128 && !o.outputMeta then OctalEscape(c)
    else if c == TAB then seq(8 - lpos % 8, _ => SPACE)
    else if CtrlChar(c) then [94, UnCtrl(c)]
    else if c == RUBOUT then [94, 63]
    else [c]
  }

  predicate StartsRow(o: Options, c: Byte) {
    c == NEWLINE && o.multiline
  }

  /** A newline leaves a terminator in the buffer and starts a row. */
  function PutChar(o: Options, g: Grid, c: Byte): Grid {
    if StartsRow(o, c) then Grid(g.line + [NUL], g.lbreaks + [|g.line| + 1], 0)
    else PutCells(o, g, Rendered(o, c, g.lpos))
  }

  function PutText(o: Options, g: Grid, text: seq<Byte>): Grid {
    if text == [] then g else PutChar(o, PutText(o, g, text[..|text| - 1]), text[|text| - 1])
  }

  // ---- What the cells hold ----

  /** The cells of a character in column `lpos`, by their codes: a backslash (92) and three octal digits that
      spell it, blanks (32) up to the next multiple of eight, a caret (94) and a character, or itself. */
  predicate CellsOf(o: Options, c: Byte, lpos: nat, cells: seq<Byte>) {
    if c >= 128 && !o.outputMeta then
      && |cells| == 4 && cells[0] == 92 && (forall i :: 1 <= i < 4 ==> 48 <= cells[i] <= 55)
      && ((cells[1] as int - 48) * 8 + (cells[2] as int - 48)) * 8 + (cells[3] as int - 48) == c
    else if c == 9 then
      0 < |cells| <= 8 && (lpos + |cells|) % 8 == 0 && forall i :: 0 <= i < |cells| ==> cells[i] == 32
    else if c < 32 then cells == [94, c + 64]
    else if c == 127 then cells == [94, 63]
    else cells == [c]
  }

  lemma RenderedIs(o: Options, c: Byte, lpos: nat)
    ensures CellsOf(o, c, lpos, Rendered(o, c, lpos))
  {
    if c == 9 {
      assert (lpos + (8 - lpos % 8)) % 8 == 0;
    }
  }

  lemma {:induction false} PutCellsLine(o: Options, g: Grid, cells: seq<Byte>)
    ensures PutCells(o, g, cells).line == g.line + cells
    decreases |cells|
  {
    if cells == [] {
      assert g.line + cells == g.line;
    } else {
      var front, last := cells[..|cells| - 1], cells[|cells| - 1];
      PutCellsLine(o, g, front);
      assert g.line + cells == (g.line + front) + [last];
    }
  }

  /** Each character adds its cells to the buffer, and a newline that starts a row a terminator. */
  lemma CharAddsCells(o: Options, g: Grid, c: Byte)
    ensures g.line <= PutChar(o, g, c).line
    ensures var cells := PutChar(o, g, c).line[|g.line|..];
      if c == 10 && o.multiline then cells == [0] else CellsOf(o, c, g.lpos, cells)
  {
    hide PutCells, Rendered, CellsOf;
    var s := Rendered(o, c, g.lpos);
    PutCellsLine(o, g, s);
    RenderedIs(o, c, g.lpos);
    assert (g.line + s)[|g.line|..] == s && (g.line + [NUL])[|g.line|..] == [NUL];
  }

  // ---- What holds of every layout ----

  /** The row between two breaks is no wider than the screen, and is exactly full or was ended by a
      newline. */
  ghost predicate RowOk(o: Options, line: seq<Byte>, start: nat, end: nat) {
    start < end <= |line| && end - start <= o.width && (end - start == o.width || line[end - 1] == NUL)
  }

  /** Every row but the last is in order, and the last has `lpos` cells so far. */
  ghost predicate Rows(o: Options, g: Grid) {
    && |g.lbreaks| > 0 && g.lbreaks[0] == 0
    && (forall r :: 0 < r < |g.lbreaks| ==> RowOk(o, g.line, g.lbreaks[r - 1], g.lbreaks[r]))
    && g.lpos == |g.line| - g.lbreaks[|g.lbreaks| - 1] && g.lpos < o.width
  }

  /** `g` goes on from `g0`: what was laid out stays, and new rows start after it. */
  ghost predicate Extends(g0: Grid, g: Grid) {
    && g0.line <= g.line && g0.lbreaks <= g.lbreaks
    && forall r :: |g0.lbreaks| <= r < |g.lbreaks| ==> |g0.line| < g.lbreaks[r]
  }

  lemma ExtendsTrans(g0: Grid, g1: Grid, g2: Grid)
    requires Extends(g0, g1) && Extends(g1, g2)
    ensures Extends(g0, g2)
  {
    forall r | |g0.lbreaks| <= r < |g2.lbreaks|
      ensures |g0.line| < g2.lbreaks[r]
    {
      if r < |g1.lbreaks| {
        assert g2.lbreaks[r] == g1.lbreaks[r];
      }
    }
  }

  /** A cell is added to the last row, and the row ends with it if `full`. */
  lemma AddCell(o: Options, g: Grid, c: Byte, full: bool)
    requires Rows(o, g) && (full ==> g.lpos + 1 == o.width || c == NUL) && (!full ==> g.lpos + 1 < o.width)
    ensures var line := g.line + [c];
      var g' := if full then Grid(line, g.lbreaks + [|line|], 0) else Grid(line, g.lbreaks, g.lpos + 1);
      Rows(o, g') && Extends(g, g')
  {
    var line := g.line + [c];
    var g' := if full then Grid(line, g.lbreaks + [|line|], 0) else Grid(line, g.lbreaks, g.lpos + 1);
    var n := |g.lbreaks|;
    forall r | 0 < r < |g'.lbreaks|
      ensures RowOk(o, line, g'.lbreaks[r - 1], g'.lbreaks[r])
    {
      if r < n {
        assert RowOk(o, g.line, g.lbreaks[r - 1], g.lbreaks[r]);
        assert g'.lbreaks[r] == g.lbreaks[r] && g'.lbreaks[r - 1] == g.lbreaks[r - 1];
      }
    }
  }

  lemma PutCellRows(o: Options, g: Grid, c: Byte)
    requires Rows(o, g)
    ensures Rows(o, PutCell(o, g, c)) && Extends(g, PutCell(o, g, c))
  {
    AddCell(o, g, c, g.lpos + 1 >= o.width);
  }

  lemma {:induction false} PutCellsRows(o: Options, g: Grid, cells: seq<Byte>)
    requires Rows(o, g)
    ensures Rows(o, PutCells(o, g, cells)) && Extends(g, PutCells(o, g, cells))
  {
    hide Rows;
    if cells != [] {
      PutCellsRows(o, g, cells[..|cells| - 1]);
      PutCellRows(o, PutCells(o, g, cells[..|cells| - 1]), cells[|cells| - 1]);
      ExtendsTrans(g, PutCells(o, g, cells[..|cells| - 1]), PutCells(o, g, cells));
    }
  }

  lemma PutCharRows(o: Options, g: Grid, c: Byte)
    requires Rows(o, g)
    ensures Rows(o, PutChar(o, g, c)) && Extends(g, PutChar(o, g, c))
  {
    if StartsRow(o, c) {
      AddCell(o, g, NUL, true);
    } else {
      PutCellsRows(o, g, Rendered(o, c, g.lpos));
    }
  }

  lemma {:induction false} PutTextRows(o: Options, g: Grid, text: seq<Byte>)
    requires Rows(o, g)
    ensures Rows(o, PutText(o, g, text)) && Extends(g, PutText(o, g, text))
  {
    hide Rows;
    if text != [] {
      PutTextRows(o, g, text[..|text| - 1]);
      PutCharRows(o, PutText(o, g, text[..|text| - 1]), text[|text| - 1]);
      ExtendsTrans(g, PutText(o, g, text[..|text| - 1]), PutText(o, g, text));
    }
  }

  // ---- The form of the source: a whole character at a time ----

  /** `cells` go to the buffer at once, with one row break among them if they reach the edge. */
  function PutBlock(o: Options, g: Grid, cells: seq<Byte>): (g': Grid)
    requires g.lpos <= |g.line|
    ensures g'.lpos <= |g'.line|
  {
    if g.lpos + |cells| >= o.width then
      Grid(g.line + cells, g.lbreaks + [|g.line| + o.width - g.lpos], g.lpos + |cells| - o.width)
    else Grid(g.line + cells, g.lbreaks, g.lpos + |cells|)
  }

  predicate IsBlock(o: Options, c: Byte) {
    (c >= 128 && !o.outputMeta) || c == TAB
  }

  /** One round of the drawing loop. */
  function DrawChar(o: Options, g: Grid, c: Byte): (g': Grid)
    requires g.lpos <= |g.line|
    ensures g'.lpos <= |g'.line|
  {
    if IsBlock(o, c) then PutBlock(o, g, Rendered(o, c, g.lpos))
    else if StartsRow(o, c) then PutChar(o, g, c)
    else if CtrlChar(c) || c == RUBOUT then
      PutCell(o, PutCell(o, g, 94), if CtrlChar(c) then UnCtrl(c) else 63)
    else PutCell(o, g, c)
  }

  function DrawText(o: Options, g: Grid, text: seq<Byte>): (g': Grid)
    requires g.lpos <= |g.line|
    ensures g'.lpos <= |g'.line|
  {
    if text == [] then g else DrawChar(o, DrawText(o, g, text[..|text| - 1]), text[|text| - 1])
  }

  lemma {:induction false} BlockIsCells(o: Options, g: Grid, cells: seq<Byte>)
    requires g.lpos < o.width && g.lpos <= |g.line| && g.lpos + |cells| < 2 * o.width
    ensures PutCells(o, g, cells) == PutBlock(o, g, cells)
  {
    if cells == [] {
      assert g.line + cells == g.line;
    } else {
      var front, last := cells[..|cells| - 1], cells[|cells| - 1];
      BlockIsCells(o, g, front);
      assert g.line + cells == (g.line + front) + [last];
    }
  }

  /** On a screen of five columns or more, drawing whole characters is drawing cell by cell. */
  lemma DrawIsPut(o: Options, g: Grid, c: Byte)
    requires g.lpos < o.width && g.lpos <= |g.line| && o.width >= 5
    ensures DrawChar(o, g, c) == PutChar(o, g, c)
  {
    if IsBlock(o, c) {
      BlockIsCells(o, g, Rendered(o, c, g.lpos));
    } else if !StartsRow(o, c) {
      var s := Rendered(o, c, g.lpos);
      OneCell(o, g, s[0]);
      if |s| == 2 {
        assert s == [s[0]] + [s[1]];
        PutCellsConcat(o, g, [s[0]], [s[1]]);
        OneCell(o, PutCell(o, g, s[0]), s[1]);
      } else {
        assert s == [s[0]];
      }
    }
  }

  lemma OneCell(o: Options, g: Grid, c: Byte)
    ensures PutCells(o, g, [c]) == PutCell(o, g, c)
  {
    assert [c][..0] == [];
  }

  /** ... and on a narrower one it is not: a tab in column 0 leaves the column past the edge. */
  lemma WidthFive(width: nat)
    requires width > 0
    ensures width >= 5 <==>
      forall o: Options, g: Grid, c: Byte ::
        o.width == width && g.lpos < width && g.lpos <= |g.line| ==> DrawChar(o, g, c) == PutChar(o, g, c)
  {
    if width >= 5 {
      forall o: Options, g: Grid, c: Byte | o.width == width && g.lpos < width && g.lpos <= |g.line|
        ensures DrawChar(o, g, c) == PutChar(o, g, c)
      {
        DrawIsPut(o, g, c);
      }
    } else {
      var o := Options(width, true, true);
      assert Rows(o, EMPTY);
      PutCharRows(o, EMPTY, TAB);
      assert DrawChar(o, EMPTY, TAB).lpos >= width > PutChar(o, EMPTY, TAB).lpos;
    }
  }

  /** On a screen of five columns or more, the drawing loop lays the text out cell by cell. */
  lemma {:induction false} DrawTextIsPutText(o: Options, g: Grid, text: seq<Byte>)
    requires Rows(o, g) && o.width >= 5
    ensures DrawText(o, g, text) == PutText(o, g, text)
  {
    if text != [] {
      DrawTextIsPutText(o, g, text[..|text| - 1]);
      PutTextRows(o, g, text[..|text| - 1]);
      DrawIsPut(o, PutText(o, g, text[..|text| - 1]), text[|text| - 1]);
    }
  }

  // ---- The prompt ----

  lemma {:induction false} PutCellsConcat(o: Options, g: Grid, a: seq<Byte>, b: seq<Byte>)
    ensures PutCells(o, g, a + b) == PutCells(o, PutCells(o, g, a), b)
    decreases |b|
  {
    if b == [] {
      assert a + b == a;
    } else {
      var front, last := b[..|b| - 1], b[|b| - 1];
      assert a + b == (a + front) + [last];
      assert ((a + front) + [last])[..|a + b| - 1] == a + front;
      PutCellsConcat(o, g, a, front);
    }
  }

  /** The next `n` cells of the prompt go into a new row. */
  lemma PromptRow(o: Options, prompt: seq<Byte>, e: nat, n: nat, lbreaks: seq<nat>)
    requires o.width > 0 && e + n <= |prompt| && n <= o.width
    requires PutCells(o, EMPTY, prompt[..e]) == Grid(prompt[..e], lbreaks, 0)
    ensures PutCells(o, EMPTY, prompt[..e + n]) ==
            if n == o.width then Grid(prompt[..e + n], lbreaks + [e + n], 0) else Grid(prompt[..e + n], lbreaks, n)
  {
    hide PutCells;
    var row := prompt[e..e + n];
    assert prompt[..e + n] == prompt[..e] + row;
    PutCellsConcat(o, EMPTY, prompt[..e], row);
    BlockIsCells(o, Grid(prompt[..e], lbreaks, 0), row);
  }

  function Multiple(k: nat, w: nat): (m: nat) {
    k * w
  }

  lemma NextMultiple(k: nat, w: nat)
    ensures Multiple(0, w) == 0 && Multiple(k + 1, w) == Multiple(k, w) + w
  {
  }

  lemma {:induction false} MultiplesGrow(k: nat, n: nat, w: nat)
    requires k <= n
    ensures Multiple(k, w) <= Multiple(n, w)
    decreases n - k
  {
    hide Multiple;
    if k < n {
      NextMultiple(k, w);
      MultiplesGrow(k + 1, n, w);
    }
  }

  lemma FewerMultiples(k: nat, n: nat, w: nat, r: nat)
    requires r < w
    ensures k < n <==> Multiple(k, w) + r < Multiple(n, w)
  {
    hide Multiple;
    if k < n {
      NextMultiple(k, w);
      MultiplesGrow(k + 1, n, w);
    } else {
      MultiplesGrow(n, k, w);
    }
  }

  /** The row breaks that there is room for at first. */
  const LBREAKS_SIZE: nat := 256

  /** Break the rows that the prompt alone fills. The loop does not look at the room for row breaks, which
      suffices if and only if the prompt has fewer than that many screen rows. */
  method LayPrompt(o: Options, prompt: seq<Byte>) returns (lbreaks: seq<nat>, lpos: nat)
    requires o.width > 0
    ensures Grid(prompt, lbreaks, lpos) == PutCells(o, EMPTY, prompt)
    ensures |lbreaks| <= LBREAKS_SIZE <==> |prompt| < Multiple(LBREAKS_SIZE, o.width)
  {
    lbreaks, lpos := [0], |prompt|;
    ghost var e: nat := 0;
    hide PutCells, Multiple, Laid;
    LaidNothing(o, prompt);
    while lpos >= o.width
      invariant e <= |prompt| && lpos == |prompt| - e && Laid(o, prompt, e, lbreaks)
    {
      LaidMore(o, prompt, e, lbreaks);
      var newlines := |lbreaks| - 1;
      lbreaks := lbreaks + [Multiple(newlines + 1, o.width)];
      lpos := lpos - o.width;
      e := e + o.width;
    }
    LaidAll(o, prompt, e, lbreaks);
  }

  /** The first `e` cells of the prompt fill rows, and have been laid out. */
  ghost predicate Laid(o: Options, prompt: seq<Byte>, e: nat, lbreaks: seq<nat>) {
    && e <= |prompt| && |lbreaks| > 0 && Multiple(|lbreaks| - 1, o.width) == e
    && PutCells(o, EMPTY, prompt[..e]) == Grid(prompt[..e], lbreaks, 0)
  }

  lemma LaidNothing(o: Options, prompt: seq<Byte>)
    ensures Laid(o, prompt, 0, [0])
  {
    assert prompt[..0] == [];
    assert PutCells(o, EMPTY, []) == EMPTY;
    NextMultiple(0, o.width);
  }

  lemma LaidMore(o: Options, prompt: seq<Byte>, e: nat, lbreaks: seq<nat>)
    requires o.width > 0 && Laid(o, prompt, e, lbreaks) && e + o.width <= |prompt|
    ensures |lbreaks| > 0 && Laid(o, prompt, e + o.width, lbreaks + [Multiple(|lbreaks|, o.width)])
  {
    hide PutCells, Multiple;
    PromptRow(o, prompt, e, o.width, lbreaks);
    NextMultiple(|lbreaks| - 1, o.width);
  }

  lemma LaidAll(o: Options, prompt: seq<Byte>, e: nat, lbreaks: seq<nat>)
    requires Laid(o, prompt, e, lbreaks) && |prompt| - e < o.width
    ensures Grid(prompt, lbreaks, |prompt| - e) == PutCells(o, EMPTY, prompt)
    ensures |lbreaks| <= LBREAKS_SIZE <==> |prompt| < Multiple(LBREAKS_SIZE, o.width)
  {
    FewerMultiples(|lbreaks| - 1, LBREAKS_SIZE, o.width, |prompt| - e);
    hide Multiple;
    LastRow(o, prompt, e, lbreaks);
  }

  lemma LastRow(o: Options, prompt: seq<Byte>, e: nat, lbreaks: seq<nat>)
    requires Laid(o, prompt, e, lbreaks) && |prompt| - e < o.width
    ensures Grid(prompt, lbreaks, |prompt| - e) == PutCells(o, EMPTY, prompt)
  {
    hide PutCells, Multiple;
    PromptRow(o, prompt, e, |prompt| - e, lbreaks);
    assert prompt[..e + (|prompt| - e)] == prompt;
  }

  // ---- The drawing loop ----

  /** The macro `CHECK_LPOS`, `out` being the length of the buffer. */
  method CheckLpos(o: Options, lbreaks: seq<nat>, lpos: nat, out: nat) returns (lbreaks': seq<nat>, lpos': nat)
    ensures if lpos + 1 >= o.width then lbreaks' == lbreaks + [out] && lpos' == 0
            else lbreaks' == lbreaks && lpos' == lpos + 1
  {
    lbreaks', lpos' := lbreaks, lpos + 1;
    if lpos' >= o.width {
      lbreaks', lpos' := lbreaks' + [out], 0;
    }
  }

  method DrawOne(o: Options, g: Grid, c: Byte) returns (g': Grid)
    requires g.lpos <= |g.line|
    ensures g' == DrawChar(o, g, c)
    ensures |g'.line| <= |g.line| + 8 && |g.lbreaks| <= |g'.lbreaks|
  {
    var line, lbreaks, lpos := g.line, g.lbreaks, g.lpos;
    if c >= 128 && !o.outputMeta {
      var out := |line|;
      line := line + OctalEscape(c);
      if lpos + 4 >= o.width {
        var temp: int := o.width - lpos;
        lbreaks := lbreaks + [out + temp];
        lpos := 4 - temp;
      } else {
        lpos := lpos + 4;
      }
    } else if c == TAB {
      var out := |line|;
      var newout := out + 8 - lpos % 8;
      var temp := newout - out;
      if lpos + temp >= o.width {
        var temp2: int := o.width - lpos;
        lbreaks := lbreaks + [out + temp2];
        line := PadTo(line, newout);
        lpos := temp - temp2;
      } else {
        line := PadTo(line, newout);
        lpos := lpos + temp;
      }
    } else if c == NEWLINE && o.multiline {
      line := line + [NUL];
      lbreaks := lbreaks + [|line|];
      lpos := 0;
    } else if CtrlChar(c) || c == RUBOUT {
      line := line + [94];
      lbreaks, lpos := CheckLpos(o, lbreaks, lpos, |line|);
      line := line + [if CtrlChar(c) then UnCtrl(c) else 63];
      lbreaks, lpos := CheckLpos(o, lbreaks, lpos, |line|);
    } else {
      line := line + [c];
      lbreaks, lpos := CheckLpos(o, lbreaks, lpos, |line|);
    }
    g' := Grid(line, lbreaks, lpos);
  }

  method PadTo(line: seq<Byte>, newout: nat) returns (line': seq<Byte>)
    requires |line| <= newout
    ensures line' == line + seq(newout - |line|, _ => SPACE)
  {
    line' := line;
    while |line'| < newout
      invariant |line| <= |line'| <= newout && line' == line + seq(|line'| - |line|, _ => SPACE)
    {
      line' := line' + [SPACE];
    }
  }

  /** Draw the prompt and the text, noting where the cursor is. `lineSize` is the room allocated for
      the buffer. */
  method DrawLine(o: Options, prompt: seq<Byte>, text: seq<Byte>, point: nat, lineSize0: nat)
    returns (g: Grid, cursor: nat, cursorLine: nat, lineSize: nat)
    requires o.width > 0 && lineSize0 >= 1024 && |prompt| + 2 < lineSize0
    ensures var g0 := PutCells(o, EMPTY, prompt);
      && g0.lpos <= |g0.line| && g == DrawText(o, g0, text)
      && var here := DrawText(o, g0, text[..if point < |text| then point else |text|]);
         cursor == |here.line| && cursorLine == |here.lbreaks| - 1
    ensures |g.line| < lineSize
  {
    hide PutCells, PutCell, DrawChar;
    var lbreaks, lpos := LayPrompt(o, prompt);
    g, lineSize := Grid(prompt, lbreaks, lpos), lineSize0;
    cursor, cursorLine := 0, 0;
    ghost var g0 := g;
    PromptPos(o, prompt);
    var in_ := 0;
    while in_ < |text|
      invariant 0 <= in_ <= |text| && g == DrawText(o, g0, text[..in_]) && lineSize >= 1024 && |g.line| < lineSize
      invariant |g.lbreaks| > 0
      invariant point < in_ ==> var here := DrawText(o, g0, text[..point]);
        cursor == |here.line| && cursorLine == |here.lbreaks| - 1
    {
      if |g.line| + 8 >= lineSize {
        lineSize := lineSize * 2;
      }
      if in_ == point {
        cursor, cursorLine := |g.line|, |g.lbreaks| - 1;
      }
      assert text[..in_ + 1][..in_] == text[..in_];
      g := DrawOne(o, g, text[in_]);
      in_ := in_ + 1;
    }
    assert text[..in_] == text;
    if point >= |text| {
      cursor, cursorLine := |g.line|, |g.lbreaks| - 1;
    }
  }

  lemma {:induction false} PromptPos(o: Options, prompt: seq<Byte>)
    ensures var g := PutCells(o, EMPTY, prompt); g.lpos <= |g.line| && |g.lbreaks| > 0
  {
    if prompt != [] {
      PromptPos(o, prompt[..|prompt| - 1]);
    }
  }

  /** What the loop draws on a screen of five columns or more: rows in order, and the cursor in the
      row that is noted for it. */
  lemma DrawnRows(o: Options, prompt: seq<Byte>, text: seq<Byte>, point: nat)
    requires o.width >= 5 && point <= |text|
    ensures var g0 := PutCells(o, EMPTY, prompt);
      && g0.lpos <= |g0.line|
      && var g, here := DrawText(o, g0, text), DrawText(o, g0, text[..point]);
         && g == PutText(o, g0, text) && Rows(o, g)
         && var row := |here.lbreaks| - 1;
            && 0 <= row < |g.lbreaks| && g.lbreaks[row] <= |here.line| <= |g.line|
            && (row + 1 < |g.lbreaks| ==> |here.line| < g.lbreaks[row + 1])
  {
    hide DrawText, PutText, PutCells, RowOk;
    var g0 := PutCells(o, EMPTY, prompt);
    PutCellsRows(o, EMPTY, prompt);
    DrawTextIsPutText(o, g0, text);
    DrawTextIsPutText(o, g0, text[..point]);
    PutTextRows(o, g0, text);
    PutTextRows(o, g0, text[..point]);
    PutTextConcat(o, g0, text[..point], text[point..]);
    assert text == text[..point] + text[point..];
    PutTextRows(o, PutText(o, g0, text[..point]), text[point..]);
  }

  lemma {:induction false} PutTextConcat(o: Options, g: Grid, a: seq<Byte>, b: seq<Byte>)
    ensures PutText(o, g, a + b) == PutText(o, PutText(o, g, a), b)
    decreases |b|
  {
    if b == [] {
      assert a + b == a;
    } else {
      var front, last := b[..|b| - 1], b[|b| - 1];
      assert a + b == (a + front) + [last];
      assert ((a + front) + [last])[..|a + b| - 1] == a + front;
      PutTextConcat(o, g, a, front);
    }
  }
}
