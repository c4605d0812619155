/** The rows that the layout makes are rows that the screen update can bring to the screen. */
module Redisplay {
  import opened Chars
  import opened Layout
  import opened ScreenUpdate

  /** Each row fits the screen, and one that no terminator ends fills it. */
  lemma RowsCanBeShown(o: Options, g: Grid, r: nat)
    requires Rows(o, g) && r < |g.lbreaks|
    ensures g.lbreaks[r] <= |g.line|
    ensures var new_ := g.line[g.lbreaks[r]..];
      var nmax := (if r + 1 < |g.lbreaks| then g.lbreaks[r + 1] else |g.line|) - g.lbreaks[r];
      && 0 <= nmax
      && var ne := LineEnd(new_, 0, nmax);
         ne <= |new_| && ne <= o.width && (At(new_, ne) == NUL || ne == o.width)
  {
    if r + 1 < |g.lbreaks| {
      assert RowOk(o, g.line, g.lbreaks[r], g.lbreaks[r + 1]);
      var new_, nmax := g.line[g.lbreaks[r]..], g.lbreaks[r + 1] - g.lbreaks[r];
      if nmax < o.width {
        assert At(new_, nmax - 1) == NUL;
      }
    }
  }
}
