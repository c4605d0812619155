/** Words with quotes, escapes and parentheses in them (readline/histexpand.c). The characters are given by
    their codes: 34, 39 and 96 are the quotes, 92 is the backslash, 40 and 41 are the parentheses. */
module Words {
  import opened Chars
  import opened TokenSpec

  /** A character, a quoted string, or a character after a backslash. */
  datatype Part = Letter(c: Byte) | Quote(q: Byte, w: seq<Byte>) | Escape(c: Byte)

  /** Parts, or first a parenthesis after `$`, `<`, `>` or one of the glob characters. */
  datatype Word = Parts(parts: seq<Part>) | Paren(open: Byte, inner: seq<Byte>, parts: seq<Part>)

  function PartText(p: Part): (t: seq<Byte>)
    ensures t != []
  {
    match p
    case Letter(c) => [c]
    case Quote(q, w) => [q] + w + [q]
    case Escape(c) => [92, c]
  }

  function PartsText(ps: seq<Part>): (t: seq<Byte>)
    ensures ps != [] ==> t != [] && t[0] == PartText(ps[0])[0]
  {
    if ps == [] then [] else PartText(ps[0]) + PartsText(ps[1..])
  }

  function Text(word: Word): seq<Byte> {
    match word
    case Parts(parts) => PartsText(parts)
    case Paren(open, inner, parts) => [open, 40] + inner + PartsText(parts)
  }

  /** Any characters but the quote itself stand between quotes, and a backslash only between single ones. */
  predicate PartOk(p: Part, cfg: Config) {
    match p
    case Letter(c) => c !in cfg.delimiters && c !in {34, 39, 96, 92}
    case Quote(q, w) => q in {34, 39, 96} && q !in cfg.delimiters && q !in w && (92 in w ==> q == 39)
    case Escape(c) => true
  }

  predicate PartsOk(ps: seq<Part>, cfg: Config) {
    forall k :: 0 <= k < |ps| ==> PartOk(ps[k], cfg)
  }

  /** The text closes the `n` parentheses that are open with its last character. A backslash quotes. */
  predicate Closes(w: seq<Byte>, n: nat)
    decreases |w|
  {
    && w != []
    && if w[0] == 40 then Closes(w[1..], n + 1)
       else if w[0] == 41 then if n <= 1 then |w| == 1 else Closes(w[1..], n - 1)
       else if w[0] == 92 then |w| > 1 && Closes(w[2..], n)
       else Closes(w[1..], n)
  }

  /** A character that starts a word and nothing else. */
  predicate Starts(c: Byte) {
    && c !in {32, 9, 10, 40, 41} && c !in {60, 62, 59, 38, 124, 36} && c !in {33, 64, 63, 43, 42}
    && !(48 <= c <= 57)
  }

  predicate WordOk(word: Word, cfg: Config) {
    PartsOk(word.parts, cfg) &&
    match word
    case Parts(parts) =>
      parts != [] && PartsText(parts)[0] != cfg.commentChar && (parts[0].Letter? ==> Starts(parts[0].c))
    case Paren(open, inner, parts) =>
      open in {36, 60, 62, 33, 64, 63, 43, 42} && open != cfg.commentChar && Closes(inner, 1)
  }

  /** `text` stands in `s` at `i`. */
  predicate Stands(s: seq<Byte>, i: nat, text: seq<Byte>) {
    i + |text| <= |s| && forall j :: 0 <= j < |text| ==> s[i + j] == text[j]
  }

  lemma StandsBoth(s: seq<Byte>, i: nat, a: seq<Byte>, b: seq<Byte>)
    requires Stands(s, i, a + b)
    ensures Stands(s, i, a) && Stands(s, i + |a|, b) && i + |a| + |b| <= |s|
  {
    forall j | 0 <= j < |a| ensures s[i + j] == a[j] {
      assert s[i + j] == (a + b)[j];
    }
    forall j | 0 <= j < |b| ensures s[i + |a| + j] == b[j] {
      assert s[i + (|a| + j)] == (a + b)[|a| + j];
    }
  }

  lemma StandsAt(s: seq<Byte>, i: nat, t: seq<Byte>)
    requires Stands(s, i, t)
    ensures i + |t| <= |s| && (t != [] ==> s[i] == t[0]) && (|t| > 1 ==> s[i + 1] == t[1])
  {
    if t != [] {
      assert s[i + 0] == t[0];
    }
  }

  lemma StandsRest(s: seq<Byte>, i: nat, t: seq<Byte>, n: nat)
    requires Stands(s, i, t) && n <= |t|
    ensures Stands(s, i + n, t[n..])
  {
    assert t == t[..n] + t[n..];
    StandsBoth(s, i, t[..n], t[n..]);
  }

  // ---- Passing over a part ----

  lemma WordStep(s: seq<Byte>, i: nat, k: Context, delimiters: seq<Byte>)
    requires i < |s| && !(k.Bare? && s[i] != 92 && s[i] in delimiters)
    ensures WordEnd(s, i, k, delimiters) == WordEnd(s, i + 1, Next(k, s[i]), delimiters)
  {
  }

  lemma {:induction false} PassQuoted(s: seq<Byte>, i: nat, q: Byte, w: seq<Byte>, delimiters: seq<Byte>)
    requires q in {34, 39, 96} && q !in w && (92 in w ==> q == 39) && Stands(s, i, w + [q])
    ensures i + |w| + 1 <= |s|
    ensures WordEnd(s, i, Quoted(q), delimiters) == WordEnd(s, i + |w| + 1, Bare, delimiters)
    decreases |w|
  {
    hide WordEnd, Stands;
    StandsAt(s, i, w + [q]);
    WordStep(s, i, Quoted(q), delimiters);
    if w != [] {
      assert w[0] in w;
      StandsRest(s, i, w + [q], 1);
      assert (w + [q])[1..] == w[1..] + [q];
      PassQuoted(s, i + 1, q, w[1..], delimiters);
    }
  }

  lemma PassPart(s: seq<Byte>, i: nat, p: Part, cfg: Config)
    requires PartOk(p, cfg) && Stands(s, i, PartText(p))
    ensures i + |PartText(p)| <= |s|
    ensures WordEnd(s, i, Bare, cfg.delimiters) == WordEnd(s, i + |PartText(p)|, Bare, cfg.delimiters)
  {
    hide WordEnd, Stands;
    StandsAt(s, i, PartText(p));
    WordStep(s, i, Bare, cfg.delimiters);
    match p
    case Letter(c) =>
    case Quote(q, w) =>
      PassQuote(s, i, q, w, cfg.delimiters);
    case Escape(c) =>
      WordStep(s, i + 1, Escaped(Bare), cfg.delimiters);
  }

  /** A quoted string, whatever stands in it. */
  lemma PassQuote(s: seq<Byte>, i: nat, q: Byte, w: seq<Byte>, delimiters: seq<Byte>)
    requires q in {34, 39, 96} && q !in w && (92 in w ==> q == 39) && Stands(s, i, [q] + w + [q])
    ensures i + |w| + 2 <= |s|
    ensures WordEnd(s, i + 1, Quoted(q), delimiters) == WordEnd(s, i + |w| + 2, Bare, delimiters)
  {
    hide WordEnd;
    assert [q] + w + [q] == [q] + (w + [q]);
    StandsBoth(s, i, [q], w + [q]);
    PassQuoted(s, i + 1, q, w, delimiters);
  }

  /** What ends a word: the end of the line, or a delimiter. */
  predicate Ended(s: seq<Byte>, e: nat, cfg: Config) {
    e == |s| || (e < |s| && s[e] in cfg.delimiters && s[e] != 92)
  }

  lemma EndedHere(s: seq<Byte>, e: nat, cfg: Config)
    requires Ended(s, e, cfg)
    ensures WordEnd(s, e, Bare, cfg.delimiters) == e
  {
  }

  lemma {:induction false} PassParts(s: seq<Byte>, i: nat, ps: seq<Part>, cfg: Config)
    requires PartsOk(ps, cfg) && Stands(s, i, PartsText(ps)) && Ended(s, i + |PartsText(ps)|, cfg)
    ensures i <= |s| && WordEnd(s, i, Bare, cfg.delimiters) == i + |PartsText(ps)|
    decreases |ps|
  {
    hide WordEnd, Stands, PartText, PartOk, Ended;
    StandsAt(s, i, PartsText(ps));
    if ps == [] {
      EndedHere(s, i, cfg);
    } else {
      StandsBoth(s, i, PartText(ps[0]), PartsText(ps[1..]));
      PassPart(s, i, ps[0], cfg);
      PassParts(s, i + |PartText(ps[0])|, ps[1..], cfg);
    }
  }

  lemma {:induction false} PassParen(s: seq<Byte>, i: nat, w: seq<Byte>, n: nat, delimiters: seq<Byte>)
    requires n > 0 && Closes(w, n) && Stands(s, i, w)
    ensures i + |w| <= |s| && WordEnd(s, i, TokenSpec.Nested(n), delimiters) == WordEnd(s, i + |w|, Bare, delimiters)
    decreases |w|
  {
    hide WordEnd, Stands;
    StandsAt(s, i, w);
    WordStep(s, i, TokenSpec.Nested(n), delimiters);
    if w[0] == 92 {
      WordStep(s, i + 1, Escaped(TokenSpec.Nested(n)), delimiters);
      StandsRest(s, i, w, 2);
      PassParen(s, i + 2, w[2..], n, delimiters);
    } else if w[0] == 41 && n == 1 {
    } else {
      StandsRest(s, i, w, 1);
      PassParen(s, i + 1, w[1..], if w[0] == 40 then n + 1 else if w[0] == 41 then n - 1 else n, delimiters);
    }
  }

  // ---- A word is one token ----

  /** A word, whatever delimiters stand between its quotes, after its backslashes and in its parentheses, is
      one token. */
  lemma WordIsToken(s: seq<Byte>, i: nat, word: Word, cfg: Config)
    requires WordOk(word, cfg) && Stands(s, i, Text(word)) && Ended(s, i + |Text(word)|, cfg)
    ensures Text(word) != [] && i < |s| && TokenEnd(s, i, cfg.delimiters) == i + |Text(word)|
  {
    match word
    case Parts(parts) =>
      PartsAreToken(s, i, parts, cfg);
    case Paren(open, inner, parts) =>
      ParenIsToken(s, i, open, inner, parts, cfg);
  }

  lemma PartsAreToken(s: seq<Byte>, i: nat, ps: seq<Part>, cfg: Config)
    requires WordOk(Parts(ps), cfg) && Stands(s, i, PartsText(ps)) && Ended(s, i + |PartsText(ps)|, cfg)
    ensures i < |s| && TokenEnd(s, i, cfg.delimiters) == i + |PartsText(ps)|
  {
    hide WordEnd, Stands, Ended, PartsText;
    PassParts(s, i, ps, cfg);
    StandsAt(s, i, PartsText(ps));
    if ps[0].Quote? {
      assert IsQuote(s[i]);
      WordStep(s, i, Bare, cfg.delimiters);
    }
  }

  lemma ParenIsToken(s: seq<Byte>, i: nat, open: Byte, inner: seq<Byte>, ps: seq<Part>, cfg: Config)
    requires WordOk(Paren(open, inner, ps), cfg)
    requires var t := [open, 40] + inner + PartsText(ps); Stands(s, i, t) && Ended(s, i + |t|, cfg)
    ensures i < |s| && TokenEnd(s, i, cfg.delimiters) == i + 2 + |inner| + |PartsText(ps)|
  {
    hide WordEnd, Stands, Ended, PartsText, Closes;
    assert [open, 40] + inner + PartsText(ps) == [open, 40] + (inner + PartsText(ps));
    StandsBoth(s, i, [open, 40], inner + PartsText(ps));
    StandsAt(s, i, [open, 40]);
    StandsBoth(s, i + 2, inner, PartsText(ps));
    PassParen(s, i + 2, inner, 1, cfg.delimiters);
    PassParts(s, i + 2 + |inner|, ps, cfg);
  }

  lemma FirstToken(s: seq<Byte>, i: nat, word: Word, cfg: Config)
    requires WordOk(word, cfg) && Stands(s, i, Text(word)) && Ended(s, i + |Text(word)|, cfg)
    ensures var e := i + |Text(word)|; i < e <= |s| && Tokens(s, i, cfg) == [Span(i, e)] + Tokens(s, e, cfg)
  {
    hide *;
    WordIsToken(s, i, word, cfg);
    StandsAt(s, i, Text(word));
    FirstCharacter(word, cfg);
    TokenHere(s, i, i + |Text(word)|, cfg);
  }

  lemma TokenHere(s: seq<Byte>, i: nat, e: nat, cfg: Config)
    requires i < e <= |s| && !Whitespace(s[i]) && s[i] != cfg.commentChar && TokenEnd(s, i, cfg.delimiters) == e
    ensures Tokens(s, i, cfg) == [Span(i, e)] + Tokens(s, e, cfg)
  {
    hide TokenEnd;
    assert SkipSpace(s, i) == i;
  }

  lemma FirstCharacter(word: Word, cfg: Config)
    requires WordOk(word, cfg)
    ensures Text(word) != [] && !Whitespace(Text(word)[0]) && Text(word)[0] != cfg.commentChar
  {
    if word.Parts? {
      assert Text(word)[0] == PartText(word.parts[0])[0];
    }
  }

  // ---- Lines of words ----

  function Texts(words: seq<Word>): (ts: seq<seq<Byte>>)
    ensures |ts| == |words| && forall k :: 0 <= k < |ts| ==> ts[k] == Text(words[k])
  {
    seq(|words|, k requires 0 <= k < |words| => Text(words[k]))
  }

  /** Words joined by spaces are found again. */
  lemma {:induction false} TokensOfJoin(words: seq<Word>, s: seq<Byte>, i: nat, cfg: Config)
    requires words != [] && (forall k :: 0 <= k < |words| ==> WordOk(words[k], cfg)) && SPACE in cfg.delimiters
    requires i <= |s| && s[i..] == JoinWords(Texts(words))
    ensures Slices(s, Tokens(s, i, cfg)) == Texts(words)
    decreases |words|
  {
    hide Tokens, Slices, WordOk, Text, Stands, Ended, JoinWords;
    var w := Text(words[0]);
    var e := i + |w|;
    JoinedHead(words, s, i, cfg);
    FirstToken(s, i, words[0], cfg);
    SlicesCons(s, Span(i, e), Tokens(s, e, cfg));
    if |words| > 1 {
      assert Texts(words)[1..] == Texts(words[1..]);
      TokensOfJoin(words[1..], s, e + 1, cfg);
      SkipOne(s, e, cfg);
      assert [w] + Texts(words[1..]) == Texts(words);
    } else {
      NothingLeft(s, cfg);
      assert [w] + [] == Texts(words);
    }
  }

  lemma JoinedHead(words: seq<Word>, s: seq<Byte>, i: nat, cfg: Config)
    requires words != [] && SPACE in cfg.delimiters && i <= |s| && s[i..] == JoinWords(Texts(words))
    ensures var w := Text(words[0]); var e := i + |w|;
      && e <= |s| && s[i..e] == w && Stands(s, i, w) && Ended(s, e, cfg)
      && if |words| == 1 then e == |s| else e < |s| && s[e] == SPACE && s[e + 1..] == JoinWords(Texts(words)[1..])
  {
    hide Text;
    var w, rest := Text(words[0]), s[i..];
    var e := i + |w|;
    assert Texts(words)[0] == w;
    assert w <= rest;
    assert s[i..e] == rest[..|w|] == w;
    forall j | 0 <= j < |w| ensures s[i + j] == w[j] {
      assert s[i + j] == rest[j];
    }
    if |words| > 1 {
      assert s[e] == rest[|w|] && s[e + 1..] == rest[|w| + 1..];
    }
  }

  // ---- Examples ----

  /** The delimiters and the comment character that history expansion starts with. */
  const DEFAULT := Config([32, 9, 10, 59, 38, 40, 41, 124, 60, 62], 0)

  /** `"a b"` is one word. */
  lemma QuotedExample()
    ensures TokenEnd([34, 97, 32, 98, 34], 0, DEFAULT.delimiters) == 5
  {
    var s, word := [34, 97, 32, 98, 34], Parts([Quote(34, [97, 32, 98])]);
    OnePart(word.parts[0]);
    WordIsToken(s, 0, word, DEFAULT);
  }

  lemma OnePart(p: Part)
    ensures PartsText([p]) == PartText(p)
  {
    var none: seq<Part> := [];
    assert [p][1..] == none && PartText(p) + [] == PartText(p);
  }

  /** So is `\ a`, a space after a backslash. */
  lemma EscapedExample()
    ensures TokenEnd([92, 32, 97], 0, DEFAULT.delimiters) == 3
  {
    var s, word := [92, 32, 97], Parts([Escape(32), Letter(97)]);
    assert word.parts[1..] == [Letter(97)];
    OnePart(Letter(97));
    assert PartsText(word.parts) == [92, 32] + [97];
    WordIsToken(s, 0, word, DEFAULT);
  }

  /** And `$( )`. */
  lemma ParenExample()
    ensures TokenEnd([36, 40, 32, 41], 0, DEFAULT.delimiters) == 4
  {
    var s, word := [36, 40, 32, 41], Paren(36, [32, 41], []);
    assert [32, 41][1..] == [41] && Closes([41], 1) && Closes([32, 41], 1);
    assert Text(word) == [36, 40] + [32, 41] + [];
    WordIsToken(s, 0, word, DEFAULT);
  }

  // ---- Operators by their characters ----

  /** A parenthesis or a newline, `;`, `&`, `|`, `<` or `>` alone, or a pair of them. */
  lemma OperatorReads(s: seq<Byte>, i: nat, delimiters: seq<Byte>)
    requires i < |s|
    ensures s[i] in {40, 41, 10} ==> TokenEnd(s, i, delimiters) == i + 1
    ensures s[i] in {59, 38, 124, 60, 62} && At(s, i + 1) !in {s[i], 38, 62, 124, 40} ==>
            TokenEnd(s, i, delimiters) == i + 1
    ensures s[i] in {59, 38, 124, 62} && At(s, i + 1) == s[i] ==> TokenEnd(s, i, delimiters) == i + 2
    ensures s[i] == 60 && At(s, i + 1) == 60 ==>
            TokenEnd(s, i, delimiters) == if At(s, i + 2) in {45, 60} then i + 3 else i + 2
    ensures (s[i] == 38 && At(s, i + 1) == 62) || (s[i] == 62 && At(s, i + 1) == 124) ==>
            TokenEnd(s, i, delimiters) == i + 2
  {
    hide WordEnd, DigitsEnd;
  }

  /** `2>&1-` and `12<`. */
  lemma RedirectionExamples(delimiters: seq<Byte>)
    ensures TokenEnd([50, 62, 38, 49, 45], 0, delimiters) == 5
    ensures TokenEnd([49, 50, 60], 0, delimiters) == 3
  {
    var s, t := [50, 62, 38, 49, 45], [49, 50, 60];
    assert DigitsEnd(s, 1) == 1 && DigitsEnd(s, 0) == 1;
    assert DigitsEnd(s, 4) == 4 && DigitsEnd(s, 3) == 4;
    assert DigitsEnd(t, 2) == 2 && DigitsEnd(t, 1) == 2 && DigitsEnd(t, 0) == 2;
  }
}
