/** The init file as text (readline/bind.c): what its lines are, and when `$if` selects. */
module InitFile {
  import opened Chars
  import opened ConditionalSpec
  import opened Conditionals

  // The words by the codes of their characters.

  const IF_WORD: seq<Byte> := [105, 102]
  const ELSE_WORD: seq<Byte> := [101, 108, 115, 101]
  const ENDIF_WORD: seq<Byte> := [101, 110, 100, 105, 102]
  const TERM_IS: seq<Byte> := [116, 101, 114, 109, 61]
  const MODE_IS: seq<Byte> := [109, 111, 100, 101, 61]
  const EMACS_WORD: seq<Byte> := [101, 109, 97, 99, 115]
  const VI_WORD: seq<Byte> := [118, 105]

  // ---- Letters in either case ----

  /** The same character, or the same letter in the other case. */
  predicate SameLetter(a: Byte, b: Byte) {
    a == b || (97 <= a <= 122 && b == a - 32) || (97 <= b <= 122 && a == b - 32)
  }

  predicate SameWord(a: seq<Byte>, b: seq<Byte>) {
    |a| == |b| && forall i :: 0 <= i < |a| ==> SameLetter(a[i], b[i])
  }

  lemma SameWordIff(a: seq<Byte>, b: seq<Byte>)
    ensures SameNoCase(a, b) <==> SameWord(a, b)
  {
    if |a| == |b| {
      forall i | 0 <= i < |a| ensures ToLower(a[i]) == ToLower(b[i]) <==> SameLetter(a[i], b[i]) {
      }
    }
  }

  /** The first word of `args` is `w`. */
  predicate Word(args: seq<Byte>, w: seq<Byte>) {
    && w <= args && (|w| < |args| ==> args[|w|] == 32 || args[|w|] == 9)
    && forall i :: 0 <= i < |w| ==> w[i] != 32 && w[i] != 9
  }

  lemma WordFirst(args: seq<Byte>, w: seq<Byte>)
    requires Word(args, w)
    ensures FirstWord(args) == w
  {
    hide FirstWord;
    assert forall i :: 0 <= i < |w| ==> args[i] == w[i];
    WordIs(args, |w|);
  }

  // ---- The tests ----

  /** The word is `head`, in either case, and then `t`. */
  predicate Heads(w: seq<Byte>, head: seq<Byte>, t: seq<Byte>) {
    |head| <= |w| && SameWord(w[..|head|], head) && w[|head|..] == t
  }

  lemma HeadIs(w: seq<Byte>)
    ensures StartsNoCase(w, TERM) <==> |w| >= 5 && SameWord(w[..5], TERM_IS)
    ensures StartsNoCase(w, MODE) <==> |w| >= 5 && SameWord(w[..5], MODE_IS)
  {
    assert TERM == TERM_IS && MODE == MODE_IS;
    if |w| >= 5 {
      SameWordIff(w[..5], TERM);
      SameWordIff(w[..5], MODE);
    }
  }

  lemma NotBoth(w: seq<Byte>)
    requires |w| >= 5
    ensures !(SameWord(w[..5], TERM_IS) && SameWord(w[..5], MODE_IS))
  {
    var t, m := TERM_IS, MODE_IS;
    assert t[0] == 116 && m[0] == 109;
  }

  /** `mode=emacs` selects in emacs mode, `mode=vi` in vi mode, and any other mode in neither. */
  lemma ModeSelects(env: Env, args: seq<Byte>, w: seq<Byte>, t: seq<Byte>)
    requires Word(args, w) && Heads(w, MODE_IS, t)
    ensures SameWord(t, EMACS_WORD) ==> (Condition(env, args) <==> env.mode == Emacs)
    ensures SameWord(t, VI_WORD) ==> (Condition(env, args) <==> env.mode == Vi)
    ensures !SameWord(t, EMACS_WORD) && !SameWord(t, VI_WORD) ==> (Condition(env, args) <==> env.mode == NoMode)
  {
    hide SameNoCase, SameWord, FirstWord, StartsNoCase;
    WordFirst(args, w);
    HeadIs(w);
    NotBoth(w);
    assert EMACS == EMACS_WORD && VI == VI_WORD;
    SameWordIff(t, EMACS);
    SameWordIff(t, VI);
    EmacsIsNotVi(t);
  }

  lemma EmacsIsNotVi(t: seq<Byte>)
    ensures !(SameWord(t, EMACS_WORD) && SameWord(t, VI_WORD))
  {
  }

  /** A name up to its first dash, if it has one. */
  predicate BeforeDash(name: seq<Byte>, part: seq<Byte>) {
    part < name && name[|part|] == 45 && forall i :: 0 <= i < |part| ==> part[i] != 45
  }

  /** `term=t` selects if and only if `t` is the name of the terminal or its part before the first dash. */
  lemma TermSelects(env: Env, args: seq<Byte>, w: seq<Byte>, t: seq<Byte>)
    requires Word(args, w) && Heads(w, TERM_IS, t) && env.terminal.Some?
    ensures Condition(env, args) <==>
      var name := env.terminal.value;
      SameWord(t, name) || exists part :: BeforeDash(name, part) && SameWord(t, part)
  {
    hide SameNoCase, SameWord, FirstWord, StartsNoCase, ShortName;
    var name := env.terminal.value;
    var short := ShortName(name);
    WordFirst(args, w);
    HeadIs(w);
    SameWordIff(t, name);
    SameWordIff(t, short);
    if short != name {
      assert BeforeDash(name, short);
    }
    if part :| BeforeDash(name, part) && SameWord(t, part) {
      assert forall i :: 0 <= i < |part| ==> name[i] == part[i];
      ShortIs(name, |part|);
      assert name[..|part|] == part;
    }
  }

  /** Any other word selects if and only if it is the name of the program; so does `term=` without a terminal. */
  lemma ProgramSelects(env: Env, args: seq<Byte>, w: seq<Byte>)
    requires Word(args, w) && !(|w| >= 5 && SameWord(w[..5], MODE_IS))
    requires env.terminal.None? || !(|w| >= 5 && SameWord(w[..5], TERM_IS))
    ensures Condition(env, args) <==> SameWord(w, env.program)
  {
    hide SameNoCase, SameWord, FirstWord, StartsNoCase;
    WordFirst(args, w);
    HeadIs(w);
    SameWordIff(w, env.program);
  }

  // ---- The lines ----

  lemma BlanksSkipped(s: seq<Byte>)
    ensures s == [] || (s[0] != 32 && s[0] != 9) ==> SkipBlanks(s) == s
    ensures SkipBlanks([32] + s) == SkipBlanks(s)
  {
    assert ([32] + s)[1..] == s;
  }

  /** `$` and a word, a space and arguments. */
  function DirectiveText(w: seq<Byte>, args: seq<Byte>): seq<Byte> {
    [36] + w + [32] + args
  }

  lemma DollarReads(statement: seq<Byte>)
    ensures Classify([36] + statement) == Directive(statement)
  {
    hide SkipBlanks, Directive;
    var text := [36] + statement;
    BlanksSkipped(text);
    assert text[1..] == statement;
  }

  lemma StatementReads(w: seq<Byte>, args: seq<Byte>)
    requires w != [] && forall i :: 0 <= i < |w| ==> w[i] != 32 && w[i] != 9
    requires args == [] || (args[0] != 32 && args[0] != 9)
    ensures Directive(w + ([32] + args)) ==
      if SameNoCase(w, IF) then If(args) else if SameNoCase(w, ENDIF) then Endif
      else if SameNoCase(w, ELSE) then Else else Other
  {
    hide SkipBlanks, FirstWord, SameNoCase;
    var statement := w + ([32] + args);
    assert statement[0] == w[0];
    BlanksSkipped(statement);
    assert statement[|w|] == 32;
    WordFirst(statement, w);
    assert statement[|w|..] == [32] + args;
    BlanksSkipped(args);
  }

  lemma DirectiveParts(w: seq<Byte>, args: seq<Byte>)
    requires w != [] && forall i :: 0 <= i < |w| ==> w[i] != 32 && w[i] != 9
    requires args == [] || (args[0] != 32 && args[0] != 9)
    ensures Classify(DirectiveText(w, args)) ==
      if SameNoCase(w, IF) then If(args) else if SameNoCase(w, ENDIF) then Endif
      else if SameNoCase(w, ELSE) then Else else Other
  {
    hide Classify, Directive, SameNoCase;
    assert DirectiveText(w, args) == [36] + (w + ([32] + args));
    DollarReads(w + ([32] + args));
    StatementReads(w, args);
  }

  /** `$if`, `$else` and `$endif` in any case. */
  lemma DirectiveReads(w: seq<Byte>, args: seq<Byte>)
    requires args == [] || (args[0] != 32 && args[0] != 9)
    ensures SameWord(w, IF_WORD) ==> Classify(DirectiveText(w, args)) == If(args)
    ensures SameWord(w, ELSE_WORD) ==> Classify(DirectiveText(w, args)) == Else
    ensures SameWord(w, ENDIF_WORD) ==> Classify(DirectiveText(w, args)) == Endif
  {
    hide Classify, DirectiveText;
    assert IF == IF_WORD && ELSE == ELSE_WORD && ENDIF == ENDIF_WORD;
    SameWordIff(w, IF);
    SameWordIff(w, ELSE);
    SameWordIff(w, ENDIF);
    if SameWord(w, IF_WORD) || SameWord(w, ELSE_WORD) || SameWord(w, ENDIF_WORD) {
      DirectiveParts(w, args);
    }
  }

  /** `$else` and `$endif` with nothing after them. */
  lemma BareReads(w: seq<Byte>)
    ensures SameWord(w, ELSE_WORD) ==> Classify([36] + w) == Else
    ensures SameWord(w, ENDIF_WORD) ==> Classify([36] + w) == Endif
  {
    hide Classify, Directive;
    assert IF == IF_WORD && ELSE == ELSE_WORD && ENDIF == ENDIF_WORD;
    SameWordIff(w, IF);
    SameWordIff(w, ELSE);
    SameWordIff(w, ENDIF);
    if SameWord(w, ELSE_WORD) || SameWord(w, ENDIF_WORD) {
      DollarReads(w);
      BareStatement(w);
    }
  }

  lemma BareStatement(w: seq<Byte>)
    requires w != [] && forall i :: 0 <= i < |w| ==> w[i] != 32 && w[i] != 9
    ensures Directive(w) ==
      if SameNoCase(w, IF) then If([]) else if SameNoCase(w, ENDIF) then Endif
      else if SameNoCase(w, ELSE) then Else else Other
  {
    hide SkipBlanks, FirstWord, SameNoCase;
    BlanksSkipped(w);
    WordFirst(w, w);
    assert w[|w|..] == [];
    BlanksSkipped([]);
  }

  /** A line that is neither empty, nor a comment, nor a directive. */
  predicate CommandText(c: seq<Byte>) {
    c != [] && c[0] !in {32, 9, 35, 36}
  }

  lemma CommandReads(c: seq<Byte>)
    requires CommandText(c)
    ensures Classify(c) == Command(c)
  {
    BlanksSkipped(c);
  }

  /** Blank lines and comments are nothing. */
  lemma NothingReads(c: seq<Byte>)
    ensures Classify([]) == Nothing && Classify([35] + c) == Nothing
  {
    hide SkipBlanks, Directive;
    BlanksSkipped([]);
    BlanksSkipped([35] + c);
    assert ([35] + c)[0] == 35;
  }

  // ---- Nested blocks as text ----

  ghost predicate Textual(items: seq<Item>)
    decreases items
  {
    items == [] || (ItemTextual(items[0]) && Textual(items[1..]))
  }

  ghost predicate ItemTextual(item: Item)
    decreases item
  {
    match item
    case Cmd(text) => CommandText(text)
    case Block(args, first, others) =>
      (args == [] || (args[0] != 32 && args[0] != 9)) && Textual(first) && OthersTextual(others)
  }

  ghost predicate OthersTextual(sections: seq<Section>)
    decreases sections
  {
    sections == [] || (Textual(sections[0].items) && OthersTextual(sections[1..]))
  }

  /** The lines of a file that holds nested blocks. */
  function Texts(items: seq<Item>): seq<seq<Byte>>
    decreases items
  {
    if items == [] then [] else ItemTexts(items[0]) + Texts(items[1..])
  }

  function ItemTexts(item: Item): seq<seq<Byte>>
    decreases item
  {
    match item
    case Cmd(text) => [text]
    case Block(args, first, others) =>
      [DirectiveText(IF_WORD, args)] + Texts(first) + OtherTexts(others) + [[36] + ENDIF_WORD]
  }

  function OtherTexts(sections: seq<Section>): seq<seq<Byte>>
    decreases sections
  {
    if sections == [] then []
    else [[36] + ELSE_WORD] + Texts(sections[0].items) + OtherTexts(sections[1..])
  }

  lemma ClassifyOne(text: seq<Byte>)
    ensures ClassifyAll([text]) == [Classify(text)]
  {
    assert [text][..0] == [];
    assert ClassifyAll([]) == [];
  }

  lemma {:induction false} ClassifyBoth(a: seq<seq<Byte>>, b: seq<seq<Byte>>)
    ensures ClassifyAll(a + b) == ClassifyAll(a) + ClassifyAll(b)
    decreases |b|
  {
    hide Classify;
    if b == [] {
      assert a + b == a;
    } else {
      var front := b[..|b| - 1];
      assert (a + b)[..|a + b| - 1] == a + front;
      ClassifyBoth(a, front);
    }
  }

  lemma {:induction false} TextsRead(items: seq<Item>)
    requires Textual(items)
    ensures ClassifyAll(Texts(items)) == Lines(items)
    decreases items
  {
    hide ItemTexts, ItemLines;
    if items != [] {
      ItemTextsRead(items[0]);
      TextsRead(items[1..]);
      ClassifyBoth(ItemTexts(items[0]), Texts(items[1..]));
    }
  }

  lemma {:induction false} ItemTextsRead(item: Item)
    requires ItemTextual(item)
    ensures ClassifyAll(ItemTexts(item)) == ItemLines(item)
    decreases item
  {
    hide ClassifyAll, Classify, DirectiveText, Texts, OtherTexts, Lines, OtherLines;
    match item
    case Cmd(text) =>
      ClassifyOne(text);
      CommandReads(text);
    case Block(args, first, others) =>
      var a, d := DirectiveText(IF_WORD, args), [36] + ENDIF_WORD;
      TextsRead(first);
      OtherTextsRead(others);
      SameSelf(IF_WORD);
      SameSelf(ENDIF_WORD);
      DirectiveReads(IF_WORD, args);
      BareReads(ENDIF_WORD);
      ClassifyOne(a);
      ClassifyOne(d);
      ClassifyBoth([a], Texts(first));
      ClassifyBoth([a] + Texts(first), OtherTexts(others));
      ClassifyBoth([a] + Texts(first) + OtherTexts(others), [d]);
  }

  lemma SameSelf(w: seq<Byte>)
    ensures SameWord(w, w)
  {
  }

  lemma {:induction false} OtherTextsRead(sections: seq<Section>)
    requires OthersTextual(sections)
    ensures ClassifyAll(OtherTexts(sections)) == OtherLines(sections)
    decreases sections
  {
    hide Classify, DirectiveText, Texts, Lines;
    if sections != [] {
      var a := [36] + ELSE_WORD;
      TextsRead(sections[0].items);
      OtherTextsRead(sections[1..]);
      SameSelf(ELSE_WORD);
      BareReads(ELSE_WORD);
      hide ClassifyAll;
      ClassifyOne(a);
      ClassifyBoth([a], Texts(sections[0].items));
      ClassifyBoth([a] + Texts(sections[0].items), OtherTexts(sections[1..]));
    }
  }

  // ---- Reading the file ----

  /** Reading a file of nested blocks executes exactly what they mean, and leaves none open. */
  method ReadBlocks(env: Env, ghost items: seq<Item>, texts: seq<seq<Byte>>) returns (p: Parser)
    requires Strings(env) && Textual(items) && texts == Texts(items)
    requires forall i :: 0 <= i < |texts| ==> NulFree(texts[i])
    ensures fresh(p) && p.Valid() && p.env == env && p.depth == 0 && p.executed == Meaning(env, items)
  {
    hide Meaning, Texts, ClassifyAll, Selected, Open;
    p := new Parser(env);
    p.ReadInitFile(texts);
    TextsRead(items);
    assert [] + ClassifyAll(texts) == ClassifyAll(texts);
    NestedBlocksMean(env, items);
    p.Depth();
  }

  /** `$if mode=emacs`, a command and `$endif`: the command is executed if and only if the mode is emacs. */
  method EmacsOnly(env: Env, command: seq<Byte>) returns (p: Parser)
    requires Strings(env) && NulFree(command) && CommandText(command)
    ensures fresh(p) && p.Valid() && p.executed == if env.mode == Emacs then [command] else []
  {
    var texts := [[36, 105, 102, 32, 109, 111, 100, 101, 61, 101, 109, 97, 99, 115], command,
                  [36, 101, 110, 100, 105, 102]];
    ghost var items := [Block(MODE_IS + EMACS_WORD, [Cmd(command)], [])];
    EmacsTexts(command);
    EmacsMeans(env, command);
    p := ReadBlocks(env, items, texts);
  }

  lemma EmacsTexts(command: seq<Byte>)
    requires CommandText(command) && NulFree(command)
    ensures var items := [Block(MODE_IS + EMACS_WORD, [Cmd(command)], [])];
      var texts := [[36, 105, 102, 32, 109, 111, 100, 101, 61, 101, 109, 97, 99, 115], command,
                    [36, 101, 110, 100, 105, 102]];
      Textual(items) && texts == Texts(items) && forall i :: 0 <= i < |texts| ==> NulFree(texts[i])
  {
    var args := MODE_IS + EMACS_WORD;
    var item := Block(args, [Cmd(command)], []);
    OneItemTexts(Cmd(command));
    OneItemTexts(item);
    hide Textual, Texts, CommandText;
    EmacsLines();
    var a, d := DirectiveText(IF_WORD, args), [36] + ENDIF_WORD;
    FourLines(a, [command], d);
    assert ItemTexts(item) == [a, command, d];
  }

  lemma OneItemTexts(item: Item)
    ensures Textual([item]) <==> ItemTextual(item)
    ensures Texts([item]) == ItemTexts(item)
  {
    var none: seq<Item> := [];
    assert [item][1..] == none && Textual(none) && Texts(none) == [];
    assert ItemTexts(item) + [] == ItemTexts(item);
  }

  lemma FourLines(a: seq<Byte>, b: seq<seq<Byte>>, d: seq<Byte>)
    requires |b| == 1
    ensures OtherTexts([]) == [] && [a] + b + [] + [d] == [a, b[0], d]
  {
  }

  lemma EmacsLines()
    ensures DirectiveText(IF_WORD, MODE_IS + EMACS_WORD) ==
            [36, 105, 102, 32, 109, 111, 100, 101, 61, 101, 109, 97, 99, 115]
    ensures [36] + ENDIF_WORD == [36, 101, 110, 100, 105, 102]
  {
  }

  lemma EmacsMeans(env: Env, command: seq<Byte>)
    ensures var items := [Block(MODE_IS + EMACS_WORD, [Cmd(command)], [])];
      Meaning(env, items) == if env.mode == Emacs then [command] else []
  {
    var args := MODE_IS + EMACS_WORD;
    EmacsCondition(env, args);
    hide Condition;
    var item := Block(args, [Cmd(command)], []);
    var items, first: seq<Item>, none: seq<Item> := [item], [Cmd(command)], [];
    assert first[1..] == none && items[1..] == none;
    assert Meaning(env, first) == [command];
    assert ItemMeaning(env, item) == (if Condition(env, args) then [command] else []) + [];
  }

  lemma EmacsCondition(env: Env, args: seq<Byte>)
    requires args == MODE_IS + EMACS_WORD
    ensures Condition(env, args) <==> env.mode == Emacs
  {
    assert args[5..] == EMACS_WORD && args[..5] == MODE_IS;
    assert Word(args, args) && Heads(args, MODE_IS, EMACS_WORD);
    hide Condition;
    ModeSelects(env, args, args, EMACS_WORD);
  }
}
