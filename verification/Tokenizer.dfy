/** Splitting a history line into words (readline/histexpand.c). */
module TokenSpec {
  import opened Chars

  const LPAREN: Byte := '(' as int
  const RPAREN: Byte := ')' as int
  const LESS: Byte := '<' as int
  const GREATER: Byte := '>' as int
  const AMP: Byte := '&' as int
  const BAR: Byte := '|' as int
  const DOLLAR: Byte := '$' as int
  const DASH: Byte := '-' as int
  const BACKSLASH: Byte := '\\' as int
  const SINGLE: Byte := '\'' as int

  predicate IsBracket(c: Byte) {
    c == LPAREN || c == RPAREN || c == NEWLINE
  }

  predicate IsOperator(c: Byte) {
    c == LESS || c == GREATER || c == ';' as int || c == AMP || c == BAR || c == DOLLAR
  }

  predicate IsGlob(c: Byte) {
    c == '!' as int || c == '@' as int || c == '?' as int || c == '+' as int || c == '*' as int
  }

  predicate IsQuote(c: Byte) {
    c == '"' as int || c == SINGLE || c == '`' as int
  }

  /** The word delimiters and the comment character, which is NUL when there is none. */
  datatype Config = Config(delimiters: seq<Byte>, commentChar: Byte)

  // ---- Where a word ends ----

  /** How the next character of a word is to be read. */
  datatype Context =
    | Bare
    | Quoted(quote: Byte)
    | Nested(depth: nat)
    | Escaped(back: Context)

  /** The context after a character, one character at a time. */
  function Next(k: Context, c: Byte): Context {
    match k
    case Bare => if c == BACKSLASH then Escaped(k) else if IsQuote(c) then Quoted(c) else k
    case Quoted(q) => if c == BACKSLASH && q != SINGLE then Escaped(k) else if c == q then Bare else k
    case Nested(n) =>
      if c == BACKSLASH then Escaped(k)
      else if c == LPAREN then Nested(n + 1)
      else if c == RPAREN then if n <= 1 then Bare else Nested(n - 1)
      else k
    case Escaped(back) => back
  }

  /** The first delimiter that is neither quoted, nor escaped, nor inside parentheses. An escape with
      nothing after it takes the terminator, and the end is behind it. */
  function WordEnd(s: seq<Byte>, i: nat, k: Context, delimiters: seq<Byte>): (e: nat)
    requires i <= |s|
    ensures i <= e <= |s| + 1
    decreases |s| - i
  {
    if i == |s| then if k.Escaped? then i + 1 else i
    else if k.Bare? && s[i] != BACKSLASH && s[i] in delimiters then i
    else WordEnd(s, i + 1, Next(k, s[i]), delimiters)
  }

  /** The end of the word whose text starts at `i`; a quote there is not a delimiter. */
  function WordFrom(s: seq<Byte>, i: nat, delimiters: seq<Byte>): (e: nat)
    requires i <= |s|
    ensures i <= e <= |s| + 1
  {
    if IsQuote(At(s, i)) then WordEnd(s, i + 1, Quoted(s[i]), delimiters) else WordEnd(s, i, Bare, delimiters)
  }

  function DigitsEnd(s: seq<Byte>, i: nat): (e: nat)
    requires i <= |s|
    ensures i <= e <= |s| && (e < |s| ==> !IsDigit(s[e])) && forall j :: i <= j < e ==> IsDigit(s[j])
    decreases |s| - i
  {
    if i < |s| && IsDigit(s[i]) then DigitsEnd(s, i + 1) else i
  }

  function GlobFrom(s: seq<Byte>, i: nat, delimiters: seq<Byte>): (e: nat)
    requires i <= |s|
    ensures i <= e <= |s| + 1
  {
    if IsGlob(At(s, i)) && At(s, i + 1) == LPAREN then WordEnd(s, i + 2, Nested(1), delimiters)
    else WordFrom(s, i, delimiters)
  }

  /** Shell operators: `<<-`, `<<<`, `>&2-`, `$(...)` and so on. */
  function OperatorFrom(s: seq<Byte>, i: nat, delimiters: seq<Byte>): (e: nat)
    requires i < |s|
    ensures i <= e <= |s| + 1
  {
    var c, peek := s[i], At(s, i + 1);
    if !IsOperator(c) then GlobFrom(s, i, delimiters)
    else if peek == c && c != DOLLAR then
      if c == LESS && (At(s, i + 2) == DASH || At(s, i + 2) == LESS) then i + 3 else i + 2
    else if peek == AMP && (c == GREATER || c == LESS) then
      var j := DigitsEnd(s, i + 2);
      if At(s, j) == DASH then j + 1 else j
    else if (peek == GREATER && c == AMP) || (peek == BAR && c == GREATER) then i + 2
    else if peek == LPAREN && (c == GREATER || c == LESS || c == DOLLAR) then WordEnd(s, i + 2, Nested(1), delimiters)
    else if c != DOLLAR then i + 1
    else GlobFrom(s, i, delimiters)
  }

  function TokenEnd(s: seq<Byte>, i: nat, delimiters: seq<Byte>): (e: nat)
    requires i < |s|
    ensures i <= e <= |s| + 1
  {
    if IsBracket(s[i]) then i + 1
    else if IsDigit(s[i]) then
      var j := DigitsEnd(s, i);
      if j == |s| then j
      else if s[j] == LESS || s[j] == GREATER then OperatorFrom(s, j, delimiters)
      else WordFrom(s, j, delimiters)
    else OperatorFrom(s, i, delimiters)
  }

  // ---- Operators ----

  predicate IsControl(c: Byte) {
    IsOperator(c) && c != DOLLAR
  }

  /** `<&`, `>&`, perhaps a file descriptor, perhaps a dash. */
  predicate IsDuplication(w: seq<Byte>) {
    && |w| >= 2 && (w[0] == LESS || w[0] == GREATER) && w[1] == AMP
    && forall k :: 2 <= k < |w| ==> IsDigit(w[k]) || (k == |w| - 1 && w[k] == DASH)
  }

  /** The operators of the shell that the tokenizer knows. */
  predicate IsOperatorText(w: seq<Byte>) {
    || (|w| == 1 && IsControl(w[0]))
    || (|w| == 2 && IsControl(w[0]) && w[1] == w[0])
    || w == [LESS, LESS, DASH] || w == [LESS, LESS, LESS]
    || w == [AMP, GREATER] || w == [GREATER, BAR]
    || IsDuplication(w)
  }

  /** Outside process substitution, an operator token is the longest operator that the text starts with. */
  lemma OperatorIsLongest(s: seq<Byte>, i: nat, delimiters: seq<Byte>)
    requires i < |s| && IsControl(s[i]) && !(At(s, i + 1) == LPAREN && (s[i] == LESS || s[i] == GREATER))
    ensures var e := OperatorFrom(s, i, delimiters);
      i < e <= |s| && IsOperatorText(s[i..e]) && forall e' :: e < e' <= |s| ==> !IsOperatorText(s[i..e'])
  {
    var e := OperatorFrom(s, i, delimiters);
    if At(s, i + 1) == AMP && (s[i] == LESS || s[i] == GREATER) {
      DuplicationIsLongest(s, i);
    } else {
      assert s[i..e][0] == s[i];
      forall e' | e < e' <= |s| ensures !IsOperatorText(s[i..e']) {
        var w := s[i..e'];
        assert w[0] == s[i] && w[1] == s[i + 1] && (|w| > 2 ==> w[2] == s[i + 2]);
      }
    }
  }

  lemma DuplicationIsLongest(s: seq<Byte>, i: nat)
    requires i + 1 < |s| && (s[i] == LESS || s[i] == GREATER) && s[i + 1] == AMP
    ensures var j := DigitsEnd(s, i + 2);
      var e := if At(s, j) == DASH then j + 1 else j;
      IsOperatorText(s[i..e]) && forall e' :: e < e' <= |s| ==> !IsOperatorText(s[i..e'])
  {
    var j := DigitsEnd(s, i + 2);
    var e := if At(s, j) == DASH then j + 1 else j;
    var t := s[i..e];
    assert forall k :: 0 <= k < |t| ==> t[k] == s[i + k];
    forall e' | e < e' <= |s| ensures !IsOperatorText(s[i..e']) {
      var w := s[i..e'];
      assert w[0] == s[i] && w[1] == s[i + 1] && w[j - i] == s[j];
    }
  }

  // ---- The words of a line ----

  function SkipSpace(s: seq<Byte>, i: nat): (j: nat)
    requires i <= |s|
    ensures i <= j <= |s| && (j < |s| ==> !Whitespace(s[j])) && forall k :: i <= k < j ==> Whitespace(s[k])
    decreases |s| - i
  {
    if i < |s| && Whitespace(s[i]) then SkipSpace(s, i + 1) else i
  }

  function DelimitersEnd(s: seq<Byte>, i: nat, delimiters: seq<Byte>): (j: nat)
    requires i <= |s|
    ensures i <= j <= |s|
    decreases |s| - i
  {
    if i < |s| && s[i] in delimiters then DelimitersEnd(s, i + 1, delimiters) else i
  }

  function FieldEnd(s: seq<Byte>, i: nat, delimiters: seq<Byte>): (e: nat)
    requires i < |s|
    ensures i < e <= |s| + 1
  {
    var e := TokenEnd(s, i, delimiters);
    if e == i then DelimitersEnd(s, i + 1, delimiters) else e
  }

  datatype Span = Span(start: nat, end: nat)

  /** The words from `i` on, as far as the terminator is not stepped over. */
  function Tokens(s: seq<Byte>, i: nat, cfg: Config): (ts: seq<Span>)
    requires i <= |s|
    decreases |s| - i
  {
    var j := SkipSpace(s, i);
    if j == |s| || s[j] == cfg.commentChar then []
    else
      var e := FieldEnd(s, j, cfg.delimiters);
      [Span(j, e)] + if e > |s| then [] else Tokens(s, e, cfg)
  }

  /** All of them end inside the line. */
  predicate Inside(s: seq<Byte>, ts: seq<Span>) {
    forall k :: 0 <= k < |ts| ==> ts[k].end <= |s|
  }

  lemma InsideCons(s: seq<Byte>, t: Span, ts: seq<Span>)
    ensures Inside(s, [t] + ts) <==> t.end <= |s| && Inside(s, ts)
  {
    if Inside(s, [t] + ts) {
      assert ([t] + ts)[0] == t;
      forall k | 0 <= k < |ts| ensures ts[k].end <= |s| {
        assert ([t] + ts)[k + 1] == ts[k];
      }
    }
  }

  // ---- Stepping over the terminator ----

  /** The context in which a word ends, `Bare` at a delimiter. */
  function EndContext(s: seq<Byte>, i: nat, k: Context, delimiters: seq<Byte>): Context
    requires i <= |s|
    decreases |s| - i
  {
    if i == |s| then k
    else if k.Bare? && s[i] != BACKSLASH && s[i] in delimiters then k
    else EndContext(s, i + 1, Next(k, s[i]), delimiters)
  }

  /** A word ends behind the terminator if and only if it ends escaped; then the line ends in a backslash. */
  lemma {:induction false} WordPastEnd(s: seq<Byte>, i: nat, k: Context, delimiters: seq<Byte>)
    requires i <= |s|
    ensures WordEnd(s, i, k, delimiters) > |s| <==> EndContext(s, i, k, delimiters).Escaped?
    ensures WordEnd(s, i, k, delimiters) > |s| ==> k.Escaped? || (i < |s| && s[|s| - 1] == BACKSLASH)
    decreases |s| - i
  {
    if i < |s| {
      WordPastEnd(s, i + 1, Next(k, s[i]), delimiters);
      if i + 1 < |s| && Next(k, s[i]) == Escaped(k) {
        WordPastEnd(s, i + 2, k, delimiters);
      }
    }
  }

  /** Where the text of a word is read from, and in which context. */
  datatype Scan = Scan(from: nat, context: Context)

  function WordScan(s: seq<Byte>, i: nat): (r: Scan)
    requires i <= |s|
    ensures i <= r.from <= |s| && !r.context.Escaped?
  {
    if IsQuote(At(s, i)) then Scan(i + 1, Quoted(s[i])) else Scan(i, Bare)
  }

  function GlobScan(s: seq<Byte>, i: nat): (r: Scan)
    requires i <= |s|
    ensures i <= r.from <= |s| && !r.context.Escaped?
  {
    if IsGlob(At(s, i)) && At(s, i + 1) == LPAREN then Scan(i + 2, Nested(1)) else WordScan(s, i)
  }

  /** Nothing is scanned for an operator, unless it opens a parenthesis. */
  function OperatorScan(s: seq<Byte>, i: nat): (r: Option<Scan>)
    requires i < |s|
    ensures r.Some? ==> i <= r.value.from <= |s| && !r.value.context.Escaped?
  {
    var c, peek := s[i], At(s, i + 1);
    if !IsOperator(c) then Some(GlobScan(s, i))
    else if peek == LPAREN && (c == GREATER || c == LESS || c == DOLLAR) then Some(Scan(i + 2, Nested(1)))
    else if c == DOLLAR then Some(GlobScan(s, i))
    else None
  }

  function TokenScan(s: seq<Byte>, i: nat): (r: Option<Scan>)
    requires i < |s|
    ensures r.Some? ==> i <= r.value.from <= |s| && !r.value.context.Escaped?
  {
    if IsBracket(s[i]) then None
    else if IsDigit(s[i]) then
      var j := DigitsEnd(s, i);
      if j == |s| then None
      else if s[j] == LESS || s[j] == GREATER then OperatorScan(s, j)
      else Some(WordScan(s, j))
    else OperatorScan(s, i)
  }

  /** The token at `i` ends escaped. */
  predicate EndsEscaped(s: seq<Byte>, i: nat, delimiters: seq<Byte>) {
    && i < |s| && TokenScan(s, i).Some?
    && var scan := TokenScan(s, i).value; EndContext(s, scan.from, scan.context, delimiters).Escaped?
  }

  lemma OperatorScanned(s: seq<Byte>, i: nat, delimiters: seq<Byte>)
    requires i < |s|
    ensures match OperatorScan(s, i)
      case Some(scan) => OperatorFrom(s, i, delimiters) == WordEnd(s, scan.from, scan.context, delimiters)
      case None => OperatorFrom(s, i, delimiters) <= |s|
  {
    hide WordEnd, DigitsEnd;
  }

  lemma TokenScanned(s: seq<Byte>, i: nat, delimiters: seq<Byte>)
    requires i < |s|
    ensures match TokenScan(s, i)
      case Some(scan) => TokenEnd(s, i, delimiters) == WordEnd(s, scan.from, scan.context, delimiters)
      case None => TokenEnd(s, i, delimiters) <= |s|
  {
    hide WordEnd, DigitsEnd, OperatorFrom, OperatorScan;
    if !IsBracket(s[i]) && !IsDigit(s[i]) {
      OperatorScanned(s, i, delimiters);
    } else if IsDigit(s[i]) {
      var j := DigitsEnd(s, i);
      if j < |s| && (s[j] == LESS || s[j] == GREATER) {
        OperatorScanned(s, j, delimiters);
      }
    }
  }

  /** A token ends behind the terminator if and only if it ends escaped; then the line ends in a backslash. */
  lemma TokenPastEnd(s: seq<Byte>, i: nat, delimiters: seq<Byte>)
    requires i < |s|
    ensures TokenEnd(s, i, delimiters) > |s| <==> EndsEscaped(s, i, delimiters)
    ensures TokenEnd(s, i, delimiters) > |s| ==> s[|s| - 1] == BACKSLASH
  {
    hide WordEnd, TokenEnd, TokenScan, EndContext;
    TokenScanned(s, i, delimiters);
    var r := TokenScan(s, i);
    if r.Some? {
      WordPastEnd(s, r.value.from, r.value.context, delimiters);
    }
  }

  /** A line is scanned inside if and only if its last word does not end escaped. */
  lemma {:induction false} InsideIff(s: seq<Byte>, i: nat, cfg: Config)
    requires i <= |s|
    ensures var ts := Tokens(s, i, cfg);
      Inside(s, ts) <==> ts == [] || !EndsEscaped(s, ts[|ts| - 1].start, cfg.delimiters)
    decreases |s| - i
  {
    hide TokenEnd, SkipSpace, EndsEscaped, Inside;
    var j, ts := SkipSpace(s, i), Tokens(s, i, cfg);
    if ts == [] {
      InsideNothing(s);
    } else {
      var e := FieldEnd(s, j, cfg.delimiters);
      var more := if e > |s| then [] else Tokens(s, e, cfg);
      assert ts == [Span(j, e)] + more;
      InsideCons(s, Span(j, e), more);
      TokenPastEnd(s, j, cfg.delimiters);
      InsideNothing(s);
      if e <= |s| {
        InsideIff(s, e, cfg);
      }
    }
  }

  lemma InsideNothing(s: seq<Byte>)
    ensures Inside(s, [])
  {
  }

  /** Every line that does not end in a backslash is scanned inside. */
  lemma {:induction false} InsideUnlessBackslash(s: seq<Byte>, i: nat, cfg: Config)
    requires i <= |s| && (s == [] || s[|s| - 1] != BACKSLASH)
    ensures Inside(s, Tokens(s, i, cfg))
    decreases |s| - i
  {
    var j := SkipSpace(s, i);
    if j < |s| && s[j] != cfg.commentChar {
      hide TokenEnd, SkipSpace, EndsEscaped;
      TokenPastEnd(s, j, cfg.delimiters);
      var e := FieldEnd(s, j, cfg.delimiters);
      InsideUnlessBackslash(s, e, cfg);
      InsideCons(s, Span(j, e), Tokens(s, e, cfg));
    }
  }

  /** A backslash at the end that is itself escaped, or that stands in single quotes, does no harm; one that
      has nothing to escape does. */
  lemma PastEndExamples(delimiters: seq<Byte>)
    requires BACKSLASH !in delimiters && SINGLE !in delimiters
    ensures TokenEnd([BACKSLASH, BACKSLASH], 0, delimiters) == 2
    ensures TokenEnd([SINGLE, BACKSLASH], 0, delimiters) == 2
    ensures TokenEnd([BACKSLASH], 0, delimiters) == 2
  {
    var a, b, c := [BACKSLASH, BACKSLASH], [SINGLE, BACKSLASH], [BACKSLASH];
    assert WordEnd(a, 1, Escaped(Bare), delimiters) == WordEnd(a, 2, Bare, delimiters);
    assert WordEnd(b, 1, Quoted(SINGLE), delimiters) == WordEnd(b, 2, Quoted(SINGLE), delimiters);
    assert WordEnd(c, 0, Bare, delimiters) == WordEnd(c, 1, Escaped(Bare), delimiters);
  }

  predicate Blank(s: seq<Byte>, i: nat, j: nat)
    requires i <= j <= |s|
  {
    forall k :: i <= k < j ==> Whitespace(s[k])
  }

  /** Non-empty slices in order, with only spaces and tabs between them, up to the end of the line or
      to a comment character at the start of a word. */
  ghost predicate Covers(s: seq<Byte>, ts: seq<Span>, i: nat, commentChar: Byte)
    requires i <= |s|
    decreases |ts|
  {
    if ts == [] then
      exists j :: i <= j <= |s| && Blank(s, i, j) && (j == |s| || s[j] == commentChar)
    else
      var t := ts[0];
      && i <= t.start < t.end <= |s|
      && Blank(s, i, t.start) && !Whitespace(s[t.start]) && s[t.start] != commentChar
      && Covers(s, ts[1..], t.end, commentChar)
  }

  lemma {:induction false} TokensCover(s: seq<Byte>, i: nat, cfg: Config)
    requires i <= |s| && Inside(s, Tokens(s, i, cfg))
    ensures Covers(s, Tokens(s, i, cfg), i, cfg.commentChar)
    decreases |s| - i
  {
    hide FieldEnd;
    var j := SkipSpace(s, i);
    if j == |s| || s[j] == cfg.commentChar {
      assert Blank(s, i, j);
    } else {
      var e := FieldEnd(s, j, cfg.delimiters);
      assert Tokens(s, i, cfg)[0] == Span(j, e);
      InsideCons(s, Span(j, e), Tokens(s, e, cfg));
      TokensCover(s, e, cfg);
      assert Tokens(s, i, cfg)[1..] == Tokens(s, e, cfg);
    }
  }

  predicate Contains(t: Span, ind: int) {
    t.start <= ind < t.end
  }

  /** Slices in order: an index lies in at most one of them. */
  lemma {:induction false} CoversInOrder(s: seq<Byte>, ts: seq<Span>, i: nat, c: Byte, a: nat, b: nat)
    requires i <= |s| && Covers(s, ts, i, c) && a < b < |ts|
    ensures i <= ts[a].start < ts[a].end <= ts[b].start < ts[b].end <= |s|
    decreases |ts|
  {
    if a > 0 {
      CoversInOrder(s, ts[1..], ts[0].end, c, a - 1, b - 1);
    } else if b > 1 {
      CoversInOrder(s, ts[1..], ts[0].end, c, 0, b - 1);
    }
  }

  function Slice(s: seq<Byte>, t: Span): seq<Byte> {
    if t.start <= t.end <= |s| then s[t.start..t.end] else []
  }

  // ---- Words and lines ----

  function JoinWords(ws: seq<seq<Byte>>): seq<Byte>
    requires ws != []
  {
    if |ws| == 1 then ws[0] else ws[0] + [SPACE] + JoinWords(ws[1..])
  }

  function Slices(s: seq<Byte>, ts: seq<Span>): (ws: seq<seq<Byte>>)
    ensures |ws| == |ts| && forall i :: 0 <= i < |ws| ==> ws[i] == Slice(s, ts[i])
  {
    if ts == [] then [] else [Slice(s, ts[0])] + Slices(s, ts[1..])
  }

  lemma SlicesCons(s: seq<Byte>, t: Span, ts: seq<Span>)
    ensures Slices(s, [t] + ts) == [Slice(s, t)] + Slices(s, ts)
  {
    assert ([t] + ts)[1..] == ts;
  }

  lemma NothingLeft(s: seq<Byte>, cfg: Config)
    ensures Tokens(s, |s|, cfg) == [] && Slices(s, []) == []
  {
  }

  lemma SkipOne(s: seq<Byte>, i: nat, cfg: Config)
    requires i < |s| && s[i] == SPACE
    ensures Tokens(s, i, cfg) == Tokens(s, i + 1, cfg)
  {
  }
}

module Tokenizer {
  import opened Chars
  import opened TokenSpec

  /** A character of the line or its terminator, and nothing behind it. */
  function CharAt(s: seq<Byte>, i: nat): Byte
    requires i <= |s|
  {
    At(s, i)
  }

  /** The scanner's variables as a context. */
  function ContextOf(delimiter: Byte, nestdelim: nat): Context {
    if delimiter == NUL then Bare else if nestdelim > 0 then Nested(nestdelim) else Quoted(delimiter)
  }

  lemma WordStep(s: seq<Byte>, i: nat, k: Context, delimiters: seq<Byte>)
    requires i < |s| && !(k.Bare? && s[i] != BACKSLASH && s[i] in delimiters)
    ensures WordEnd(s, i, k, delimiters) == WordEnd(s, i + 1, Next(k, s[i]), delimiters)
  {
  }

  /** A backslash and what it quotes are passed over at once; inside single quotes this is only done for
      a newline, where it makes no difference. */
  lemma PassPair(s: seq<Byte>, i: nat, k: Context, delimiters: seq<Byte>)
    requires i < |s| && s[i] == BACKSLASH && !k.Escaped?
    requires k != Quoted(SINGLE) || At(s, i + 1) == NEWLINE
    ensures WordEnd(s, i, k, delimiters) == if i + 1 < |s| then WordEnd(s, i + 2, k, delimiters) else i + 2
  {
    WordStep(s, i, k, delimiters);
    if i + 1 < |s| {
      WordStep(s, i + 1, Next(k, s[i]), delimiters);
    }
  }

  /** The loop of `history_tokenize_word` after the label `get_word`, as far as the index is inside. */
  method GetWord(s: seq<Byte>, i0: nat, delimiter0: Byte, nestdelim0: nat, delimiters: seq<Byte>) returns (i: nat)
    requires NulFree(s) && i0 <= |s| && (if nestdelim0 > 0 then delimiter0 == RPAREN else delimiter0 == NUL)
    ensures i == if nestdelim0 > 0 then WordEnd(s, i0, Nested(nestdelim0), delimiters)
                 else WordFrom(s, i0, delimiters)
  {
    hide WordEnd;
    i := i0;
    var delimiter, nestdelim := delimiter0, nestdelim0;
    if delimiter == NUL && IsQuote(CharAt(s, i)) {
      delimiter := s[i];
      i := i + 1;
    }
    ghost var end := WordEnd(s, i, ContextOf(delimiter, nestdelim), delimiters);
    while CharAt(s, i) != NUL
      invariant i <= |s| && WordEnd(s, i, ContextOf(delimiter, nestdelim), delimiters) == end
      invariant nestdelim > 0 ==> delimiter == RPAREN
      invariant nestdelim == 0 && delimiter != NUL ==> IsQuote(delimiter)
      decreases |s| - i
    {
      ghost var k := ContextOf(delimiter, nestdelim);
      if s[i] == BACKSLASH && CharAt(s, i + 1) == NEWLINE {
        PassPair(s, i, k, delimiters);
        i := i + 2;
        continue;
      }
      if s[i] == BACKSLASH && delimiter != SINGLE {
        PassPair(s, i, k, delimiters);
        i := i + 2;
        if i > |s| {
          return;
        }
        continue;
      }
      if delimiter == NUL && s[i] in delimiters {
        WordStops(s, i, delimiters);
        break;
      }
      WordStep(s, i, k, delimiters);
      if nestdelim > 0 && s[i] == LPAREN {
        nestdelim := nestdelim + 1;
      } else if nestdelim > 0 && s[i] == delimiter {
        nestdelim := nestdelim - 1;
        if nestdelim == 0 {
          delimiter := NUL;
        }
      } else if delimiter != NUL && s[i] == delimiter {
        delimiter := NUL;
      } else if delimiter == NUL && IsQuote(s[i]) {
        delimiter := s[i];
      }
      i := i + 1;
    }
    if i == |s| {
      WordStops(s, i, delimiters);
    }
  }

  lemma WordStops(s: seq<Byte>, i: nat, delimiters: seq<Byte>)
    requires i <= |s|
    ensures i == |s| ==> forall k: Context :: !k.Escaped? ==> WordEnd(s, i, k, delimiters) == i
    ensures i < |s| && s[i] != BACKSLASH && s[i] in delimiters ==> WordEnd(s, i, Bare, delimiters) == i
  {
  }

  method SkipDigits(s: seq<Byte>, i: nat) returns (j: nat)
    requires NulFree(s) && i <= |s|
    ensures j == DigitsEnd(s, i)
  {
    j := i;
    while CharAt(s, j) != NUL && IsDigit(CharAt(s, j))
      invariant i <= j <= |s| && DigitsEnd(s, j) == DigitsEnd(s, i)
      decreases |s| - j
    {
      j := j + 1;
    }
  }

  /** `history_tokenize_word` */
  method TokenizeWord(s: seq<Byte>, ind: nat, delimiters: seq<Byte>) returns (r: nat)
    requires NulFree(s) && ind < |s|
    ensures r == TokenEnd(s, ind, delimiters)
  {
    hide WordEnd, DigitsEnd, WordFrom;
    var i := ind;
    if IsBracket(s[i]) {
      return i + 1;
    }
    if IsDigit(s[i]) {
      var j := SkipDigits(s, i);
      if CharAt(s, j) == NUL {
        return j;
      }
      i := j;
      if s[j] != LESS && s[j] != GREATER {
        r := GetWord(s, i, NUL, 0, delimiters);
        return;
      }
    }
    if IsOperator(s[i]) {
      var peek := CharAt(s, i + 1);
      if peek == s[i] && peek != DOLLAR {
        if peek == LESS && CharAt(s, i + 2) == DASH {
          i := i + 1;
        } else if peek == LESS && CharAt(s, i + 2) == LESS {
          i := i + 1;
        }
        return i + 2;
      } else if peek == AMP && (s[i] == GREATER || s[i] == LESS) {
        var j := SkipDigits(s, i + 2);
        if CharAt(s, j) == DASH {
          j := j + 1;
        }
        return j;
      } else if (peek == GREATER && s[i] == AMP) || (peek == BAR && s[i] == GREATER) {
        return i + 2;
      } else if (peek == LPAREN && (s[i] == GREATER || s[i] == LESS)) || (peek == LPAREN && s[i] == DOLLAR) {
        r := GetWord(s, i + 2, RPAREN, 1, delimiters);
        return;
      }
      if s[i] != DOLLAR {
        return i + 1;
      }
    }
    if IsGlob(s[i]) && CharAt(s, i + 1) == LPAREN {
      r := GetWord(s, i + 2, RPAREN, 1, delimiters);
    } else {
      r := GetWord(s, i, NUL, 0, delimiters);
    }
  }

  /** `indp` is the number of a span that holds index `wind`, or -1 if there is none. */
  predicate Holds(ts: seq<Span>, indp: int, wind: int) {
    if indp == -1 then forall k :: 0 <= k < |ts| ==> !Contains(ts[k], wind)
    else 0 <= indp < |ts| && Contains(ts[indp], wind)
  }

  lemma NoneHolds(wind: int)
    ensures Holds([], -1, wind)
  {
  }

  lemma HoldsMore(ts: seq<Span>, indp: int, wind: int, t: Span)
    ensures Holds(ts, indp, wind) ==> Holds(ts + [t], if Contains(t, wind) then |ts| else indp, wind)
  {
  }

  /** `history_tokenize_internal`: the words, and the number of the one that holds index `wind`; or the
      terminator is stepped over. */
  method TokenizeInternal(s: seq<Byte>, wind: int, cfg: Config)
    returns (inside: bool, words: seq<seq<Byte>>, indp: int)
    requires NulFree(s)
    ensures var ts := Tokens(s, 0, cfg);
      inside <==> ts == [] || !EndsEscaped(s, ts[|ts| - 1].start, cfg.delimiters)
    ensures inside ==>
      var ts := Tokens(s, 0, cfg);
      words == Slices(s, ts) && (wind != -1 ==> Holds(ts, indp, wind)) && (wind == -1 ==> indp == -1)
  {
    hide Slices, FieldEnd, SkipSpace, Holds, Inside, Tokens, EndsEscaped;
    InsideIff(s, 0, cfg);
    NoneHolds(wind);
    inside, words, indp := true, [], -1;
    InsideNothing(s);
    ghost var ts: seq<Span> := [];
    var i := 0;
    while CharAt(s, i) != NUL
      invariant i <= |s| && ts + Tokens(s, i, cfg) == Tokens(s, 0, cfg)
      invariant words == Slices(s, ts) && Inside(s, ts)
      invariant (wind != -1 ==> Holds(ts, indp, wind)) && (wind == -1 ==> indp == -1)
      decreases |s| - i
    {
      NextToken(s, i, cfg);
      var start := SkipWhitespace(s, i);
      if CharAt(s, start) == NUL || s[start] == cfg.commentChar {
        assert ts + [] == ts;
        return;
      }
      i := Field(s, start, cfg.delimiters);
      FirstAndRest(ts, Span(start, i), if i > |s| then [] else Tokens(s, i, cfg));
      if i > |s| {
        OneOutside(s, ts, Span(start, i));
        return false, words, indp;
      }
      InsideMore(s, ts, Span(start, i));
      HoldsMore(ts, indp, wind, Span(start, i));
      if wind != -1 && wind >= start && wind < i {
        indp := |words|;
      }
      SlicesSnoc(s, ts, Span(start, i));
      ts := ts + [Span(start, i)];
      words := words + [s[start..i]];
    }
    NothingLeft(s, cfg);
    assert ts + [] == ts;
  }

  lemma NextToken(s: seq<Byte>, i: nat, cfg: Config)
    requires i < |s|
    ensures var j := SkipSpace(s, i);
      if j == |s| || s[j] == cfg.commentChar then Tokens(s, i, cfg) == []
      else
        var e := FieldEnd(s, j, cfg.delimiters);
        Tokens(s, i, cfg) == [Span(j, e)] + if e > |s| then [] else Tokens(s, e, cfg)
  {
    hide FieldEnd;
  }

  lemma FirstAndRest(ts: seq<Span>, t: Span, more: seq<Span>)
    ensures ts + ([t] + more) == ts + [t] + more && (more == [] ==> ts + [t] + more == ts + [t])
  {
  }

  lemma InsideMore(s: seq<Byte>, ts: seq<Span>, t: Span)
    requires Inside(s, ts) && t.end <= |s|
    ensures Inside(s, ts + [t])
  {
  }

  lemma OneOutside(s: seq<Byte>, ts: seq<Span>, t: Span)
    requires t.end > |s|
    ensures !Inside(s, ts + [t])
  {
    assert (ts + [t])[|ts|] == t;
  }

  method SkipWhitespace(s: seq<Byte>, i: nat) returns (j: nat)
    requires NulFree(s) && i <= |s|
    ensures j == SkipSpace(s, i)
  {
    j := i;
    while CharAt(s, j) != NUL && Whitespace(CharAt(s, j))
      invariant i <= j <= |s| && SkipSpace(s, j) == SkipSpace(s, i)
      decreases |s| - j
    {
      j := j + 1;
    }
  }

  /** A token, or a run of delimiters that no token rule takes. */
  method Field(s: seq<Byte>, start: nat, delimiters: seq<Byte>) returns (i: nat)
    requires NulFree(s) && start < |s|
    ensures i == FieldEnd(s, start, delimiters)
  {
    hide TokenEnd;
    i := TokenizeWord(s, start, delimiters);
    if i == start {
      i := i + 1;
      while CharAt(s, i) != NUL && s[i] in delimiters
        invariant start < i <= |s| && DelimitersEnd(s, i, delimiters) == DelimitersEnd(s, start + 1, delimiters)
        decreases |s| - i
      {
        i := i + 1;
      }
    }
  }

  lemma {:induction false} SlicesSnoc(s: seq<Byte>, ts: seq<Span>, t: Span)
    ensures Slices(s, ts + [t]) == Slices(s, ts) + [Slice(s, t)]
  {
  }

  /** `history_find_word`: the word around an index, if the index is in a word. */
  method FindWord(line: seq<Byte>, ind: nat, cfg: Config) returns (inside: bool, w: Option<seq<Byte>>)
    requires NulFree(line)
    ensures var ts := Tokens(line, 0, cfg);
      inside <==> ts == [] || !EndsEscaped(line, ts[|ts| - 1].start, cfg.delimiters)
    ensures inside ==>
      var ts := Tokens(line, 0, cfg);
      match w
      case Some(word) => exists k :: 0 <= k < |ts| && Contains(ts[k], ind) && word == Slice(line, ts[k])
      case None => forall k :: 0 <= k < |ts| ==> !Contains(ts[k], ind)
  {
    hide Tokens, EndsEscaped;
    var words, wind;
    inside, words, wind := TokenizeInternal(line, ind, cfg);
    w := None;
    ghost var ts := Tokens(line, 0, cfg);
    if !inside {
      return;
    }
    assert Holds(ts, wind, ind) && |words| == |ts|;
    if wind == -1 || words == [] {
      return;
    }
    w := Some(words[wind]);
    assert words[wind] == Slice(line, ts[wind]);
  }
}
