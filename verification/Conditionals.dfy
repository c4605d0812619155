/** The conditionals of the init file (readline/bind.c): `$if`, `$else` and `$endif`. */
module ConditionalSpec {
  import opened Chars

  const HASH: Byte := '#' as int
  const DOLLAR: Byte := '$' as int
  const DASH: Byte := '-' as int

  datatype EditingMode = Emacs | Vi | NoMode

  /** What conditions are about: the terminal, the editing mode and the program. */
  datatype Env = Env(terminal: Option<seq<Byte>>, mode: EditingMode, program: seq<Byte>)

  datatype Line =
    | Nothing
    | If(args: seq<Byte>)
    | Else
    | Endif
    | Other
    | Command(text: seq<Byte>)

  const IF: seq<Byte> := ['i' as int, 'f' as int]
  const ELSE: seq<Byte> := ['e' as int, 'l' as int, 's' as int, 'e' as int]
  const ENDIF: seq<Byte> := ['e' as int, 'n' as int, 'd' as int, 'i' as int, 'f' as int]
  const TERM: seq<Byte> := ['t' as int, 'e' as int, 'r' as int, 'm' as int, '=' as int]
  const MODE: seq<Byte> := ['m' as int, 'o' as int, 'd' as int, 'e' as int, '=' as int]
  const EMACS: seq<Byte> := ['e' as int, 'm' as int, 'a' as int, 'c' as int, 's' as int]
  const VI: seq<Byte> := ['v' as int, 'i' as int]

  // ---- Words ----

  function SkipBlanks(s: seq<Byte>): (r: seq<Byte>)
    ensures |r| <= |s| && (r != [] ==> !Whitespace(r[0])) && forall i :: 0 <= i < |r| ==> r[i] == s[|s| - |r| + i]
  {
    if s != [] && Whitespace(s[0]) then SkipBlanks(s[1..]) else s
  }

  function FirstWord(s: seq<Byte>): (w: seq<Byte>)
    ensures w <= s && (|w| < |s| ==> Whitespace(s[|w|])) && forall i :: 0 <= i < |w| ==> !Whitespace(s[i])
  {
    if s == [] || Whitespace(s[0]) then [] else [s[0]] + FirstWord(s[1..])
  }

  /** `_rl_stricmp` */
  predicate SameNoCase(a: seq<Byte>, b: seq<Byte>) {
    |a| == |b| && forall i :: 0 <= i < |a| ==> ToLower(a[i]) == ToLower(b[i])
  }

  predicate StartsNoCase(a: seq<Byte>, b: seq<Byte>) {
    |b| <= |a| && SameNoCase(a[..|b|], b)
  }

  /** The part of a terminal name before the first dash. */
  function ShortName(s: seq<Byte>): (r: seq<Byte>)
    ensures r <= s && (forall i :: 0 <= i < |r| ==> s[i] != DASH) && (|r| < |s| ==> s[|r|] == DASH)
  {
    if s == [] || s[0] == DASH then [] else [s[0]] + ShortName(s[1..])
  }

  /** Whether the section after `$if args` is selected. */
  predicate Condition(env: Env, args: seq<Byte>) {
    var arg := FirstWord(args);
    if env.terminal.Some? && StartsNoCase(arg, TERM) then
      SameNoCase(arg[5..], ShortName(env.terminal.value)) || SameNoCase(arg[5..], env.terminal.value)
    else if StartsNoCase(arg, MODE) then
      env.mode == (if SameNoCase(arg[5..], EMACS) then Emacs
                   else if SameNoCase(arg[5..], VI) then Vi else NoMode)
    else SameNoCase(arg, env.program)
  }

  function Classify(text: seq<Byte>): Line {
    var s := SkipBlanks(text);
    if s == [] || s[0] == HASH then Nothing
    else if s[0] == DOLLAR then Directive(s[1..])
    else Command(s)
  }

  function Directive(statement: seq<Byte>): Line {
    var rest := SkipBlanks(statement);
    var directive := FirstWord(rest);
    var args := SkipBlanks(rest[|directive|..]);
    if SameNoCase(directive, IF) then If(args)
    else if SameNoCase(directive, ENDIF) then Endif
    else if SameNoCase(directive, ELSE) then Else
    else Other
  }

  // ---- What is selected ----

  /** For every open block, from the outermost, whether its current section is selected. */
  function Open(env: Env, lines: seq<Line>): seq<bool> {
    if lines == [] then []
    else
      var o := Open(env, lines[..|lines| - 1]);
      match lines[|lines| - 1]
      case If(args) => o + [Condition(env, args)]
      case Else => if o == [] then o else o[|o| - 1 := !o[|o| - 1]]
      case Endif => if o == [] then o else o[..|o| - 1]
      case _ => o
  }

  predicate All(o: seq<bool>) {
    forall i :: 0 <= i < |o| ==> o[i]
  }

  /** The commands whose enclosing sections are all selected. */
  function Selected(env: Env, lines: seq<Line>): seq<seq<Byte>> {
    if lines == [] then []
    else
      var before := lines[..|lines| - 1];
      var line := lines[|lines| - 1];
      Selected(env, before) + if line.Command? && All(Open(env, before)) then [line.text] else []
  }

  // ---- Structured conditionals ----

  /** A command, or a block: the text after `$if` and its sections, which `$else` separates. */
  datatype Item =
    | Cmd(text: seq<Byte>)
    | Block(args: seq<Byte>, first: seq<Item>, others: seq<Section>)

  datatype Section = Section(items: seq<Item>)

  function Lines(items: seq<Item>): seq<Line>
    decreases items
  {
    if items == [] then [] else ItemLines(items[0]) + Lines(items[1..])
  }

  function ItemLines(item: Item): seq<Line>
    decreases item
  {
    match item
    case Cmd(text) => [Command(text)]
    case Block(args, first, others) => [If(args)] + Lines(first) + OtherLines(others) + [Endif]
  }

  function OtherLines(sections: seq<Section>): seq<Line>
    decreases sections
  {
    if sections == [] then [] else [Else] + Lines(sections[0].items) + OtherLines(sections[1..])
  }

  /** What the nested conditionals mean: every other section of a block. */
  function Meaning(env: Env, items: seq<Item>): seq<seq<Byte>>
    decreases items
  {
    if items == [] then [] else ItemMeaning(env, items[0]) + Meaning(env, items[1..])
  }

  function ItemMeaning(env: Env, item: Item): seq<seq<Byte>>
    decreases item
  {
    match item
    case Cmd(text) => [text]
    case Block(args, first, others) =>
      var c := Condition(env, args);
      (if c then Meaning(env, first) else []) + OtherMeaning(env, !c, others)
  }

  function OtherMeaning(env: Env, selected: bool, sections: seq<Section>): seq<seq<Byte>>
    decreases sections
  {
    if sections == [] then []
    else (if selected then Meaning(env, sections[0].items) else []) + OtherMeaning(env, !selected, sections[1..])
  }

  /** Reading `more` after `before`: the commands that are added. */
  predicate Adds(env: Env, before: seq<Line>, more: seq<Line>, open: seq<bool>, commands: seq<seq<Byte>>) {
    && Open(env, before + more) == open
    && Selected(env, before + more) == Selected(env, before) + commands
  }

  lemma AddsLine(env: Env, before: seq<Line>, line: Line)
    ensures var o := Open(env, before);
      Adds(env, before, [line],
           match line
           case If(args) => o + [Condition(env, args)]
           case Else => if o == [] then o else o[|o| - 1 := !o[|o| - 1]]
           case Endif => if o == [] then o else o[..|o| - 1]
           case _ => o,
           if line.Command? && All(o) then [line.text] else [])
  {
    var lines := before + [line];
    assert lines[..|lines| - 1] == before;
  }

  lemma AddsNothing(env: Env, before: seq<Line>)
    ensures Adds(env, before, [], Open(env, before), [])
  {
    assert before + [] == before;
  }

  lemma AddsBoth(env: Env, before: seq<Line>, a: seq<Line>, b: seq<Line>,
                 o1: seq<bool>, c1: seq<seq<Byte>>, o2: seq<bool>, c2: seq<seq<Byte>>)
    requires Adds(env, before, a, o1, c1) && Adds(env, before + a, b, o2, c2)
    ensures Adds(env, before, a + b, o2, c1 + c2)
  {
    hide Open, Selected;
    assert before + a + b == before + (a + b);
    assert Selected(env, before) + c1 + c2 == Selected(env, before) + (c1 + c2);
  }

  /** Closed items leave the open blocks as they were, and add the commands that they mean, or none
      inside a section that is not selected. */
  lemma {:induction false} ItemsMean(env: Env, before: seq<Line>, items: seq<Item>)
    ensures var o := Open(env, before);
      Adds(env, before, Lines(items), o, if All(o) then Meaning(env, items) else [])
    decreases items
  {
    hide Adds, Open, All, ItemLines, ItemMeaning;
    var o := Open(env, before);
    if items == [] {
      AddsNothing(env, before);
    } else {
      var a, b := ItemLines(items[0]), Lines(items[1..]);
      var c1, c2 := if All(o) then ItemMeaning(env, items[0]) else [], if All(o) then Meaning(env, items[1..]) else [];
      ItemMeans(env, before, items[0]);
      OpenAfter(env, before, a, o, c1);
      ItemsMean(env, before + a, items[1..]);
      AddsBoth(env, before, a, b, o, c1, o, c2);
      assert !All(o) ==> c1 + c2 == [];
    }
  }

  lemma OpenAfter(env: Env, before: seq<Line>, more: seq<Line>, o: seq<bool>, c: seq<seq<Byte>>)
    requires Adds(env, before, more, o, c)
    ensures Open(env, before + more) == o
  {
  }

  lemma {:induction false} ItemMeans(env: Env, before: seq<Line>, item: Item)
    ensures var o := Open(env, before);
      Adds(env, before, ItemLines(item), o, if All(o) then ItemMeaning(env, item) else [])
    decreases item
  {
    hide Adds, Open, Lines, OtherLines, Meaning, OtherMeaning, Condition, All;
    var o := Open(env, before);
    match item
    case Cmd(text) => AddsLine(env, before, Command(text));
    case Block(args, first, others) =>
      var c := Condition(env, args);
      var o1 := o + [c];
      var c1 := if All(o1) then Meaning(env, first) else [];
      var c2 := if All(o) then OtherMeaning(env, !c, others) else [];
      AddsLine(env, before, If(args));
      OpenAfter(env, before, [If(args)], o1, []);
      var b1 := before + [If(args)];
      ItemsMean(env, b1, first);
      OpenAfter(env, b1, Lines(first), o1, c1);
      var b2 := b1 + Lines(first);
      OthersMean(env, b2, others, o, c);
      assert exists x :: Adds(env, b2, OtherLines(others), o + [x], c2);
      var x :| Adds(env, b2, OtherLines(others), o + [x], c2);
      OpenAfter(env, b2, OtherLines(others), o + [x], c2);
      var b3 := b2 + OtherLines(others);
      AddsLine(env, b3, Endif);
      assert (o + [x])[..|o|] == o;
      AllSnoc(o, c);
      assert c1 + c2 == if All(o) then ItemMeaning(env, item) else [];
      AddsAll(env, before, If(args), Lines(first), OtherLines(others), Endif, o1, o + [x], o, c1, c2);
  }

  lemma AddsAll(env: Env, before: seq<Line>, a: Line, b: seq<Line>, c: seq<Line>, d: Line,
                o1: seq<bool>, o2: seq<bool>, o3: seq<bool>, c1: seq<seq<Byte>>, c2: seq<seq<Byte>>)
    requires Adds(env, before, [a], o1, []) && Adds(env, before + [a], b, o1, c1)
    requires Adds(env, before + [a] + b, c, o2, c2) && Adds(env, before + [a] + b + c, [d], o3, [])
    ensures Adds(env, before, [a] + b + c + [d], o3, c1 + c2)
  {
    hide Adds;
    AddsBoth(env, before, [a], b, o1, [], o1, c1);
    assert before + ([a] + b) == before + [a] + b && [] + c1 == c1;
    AddsBoth(env, before, [a] + b, c, o1, c1, o2, c2);
    assert before + ([a] + b + c) == before + [a] + b + c && c1 + c2 + [] == c1 + c2;
    AddsBoth(env, before, [a] + b + c, [d], o2, c1 + c2, o3, []);
  }

  lemma AllSnoc(o: seq<bool>, c: bool)
    ensures All(o + [c]) <==> All(o) && c
  {
    assert (o + [c])[|o|] == c;
    if All(o + [c]) {
      forall i | 0 <= i < |o| ensures o[i] {
        assert (o + [c])[i];
      }
    }
  }

  /** The sections after the first: each is selected when the one before is not. */
  lemma {:induction false} OthersMean(env: Env, before: seq<Line>, sections: seq<Section>, o: seq<bool>, c: bool)
    requires Open(env, before) == o + [c]
    ensures exists x :: Adds(env, before, OtherLines(sections), o + [x],
                             if All(o) then OtherMeaning(env, !c, sections) else [])
    decreases sections
  {
    hide Adds, Open, Lines, Meaning;
    if sections == [] {
      AddsNothing(env, before);
    } else {
      var o1 := o + [!c];
      assert (o + [c])[|o| := !c] == o1;
      AddsLine(env, before, Else);
      OpenAfter(env, before, [Else], o1, []);
      var b1 := before + [Else];
      ItemsMean(env, b1, sections[0].items);
      AllSnoc(o, !c);
      var c1 := if All(o1) then Meaning(env, sections[0].items) else [];
      OpenAfter(env, b1, Lines(sections[0].items), o1, c1);
      var b2 := b1 + Lines(sections[0].items);
      OthersMean(env, b2, sections[1..], o, !c);
      var c2 := if All(o) then OtherMeaning(env, c, sections[1..]) else [];
      var x :| Adds(env, b2, OtherLines(sections[1..]), o + [x], c2);
      AddsBoth(env, before, [Else], Lines(sections[0].items), o1, [], o1, c1);
      assert [] + c1 == c1;
      assert before + ([Else] + Lines(sections[0].items)) == b2;
      AddsBoth(env, before, [Else] + Lines(sections[0].items), OtherLines(sections[1..]), o1, c1, o + [x], c2);
    }
  }
}

module Conditionals {
  import opened Chars
  import opened ConditionalSpec

  // ---- Text ----

  method SkipWhitespace(s: seq<Byte>) returns (r: seq<Byte>)
    ensures r == SkipBlanks(s)
  {
    var i := 0;
    while i < |s| && Whitespace(s[i])
      invariant 0 <= i <= |s| && SkipBlanks(s[i..]) == SkipBlanks(s)
    {
      assert s[i..][1..] == s[i + 1..];
      i := i + 1;
    }
    r := s[i..];
  }

  method IsolateWord(s: seq<Byte>) returns (w: seq<Byte>)
    ensures w == FirstWord(s)
  {
    var i := 0;
    while i < |s| && !Whitespace(s[i])
      invariant 0 <= i <= |s| && forall k :: 0 <= k < i ==> !Whitespace(s[k])
    {
      i := i + 1;
    }
    WordIs(s, i);
    w := s[..i];
  }

  lemma WordIs(s: seq<Byte>, i: nat)
    requires i <= |s| && (forall k :: 0 <= k < i ==> !Whitespace(s[k])) && (i < |s| ==> Whitespace(s[i]))
    ensures FirstWord(s) == s[..i]
  {
    hide FirstWord;
    assert |FirstWord(s)| == i;
  }

  /** `_rl_stricmp` on C strings, whose terminators compare as well. */
  method StrIcmp(a: seq<Byte>, b: seq<Byte>) returns (same: bool)
    requires NulFree(a) && NulFree(b)
    ensures same == SameNoCase(a, b)
  {
    var i := 0;
    while ToLower(At(a, i)) == ToLower(At(b, i))
      invariant i <= |a| && i <= |b|
      invariant forall k :: 0 <= k < i ==> ToLower(a[k]) == ToLower(b[k])
      decreases |a| - i
    {
      if At(a, i) == NUL {
        return true;
      }
      i := i + 1;
    }
    return false;
  }

  /** `_rl_strnicmp` for the length of its second string. */
  method StrNicmp(a: seq<Byte>, b: seq<Byte>) returns (same: bool)
    requires NulFree(a) && NulFree(b) && b != []
    ensures same == StartsNoCase(a, b)
  {
    var i := 0;
    while i < |b|
      invariant i <= |a| && i <= |b|
      invariant forall k :: 0 <= k < i ==> ToLower(a[k]) == ToLower(b[k])
    {
      if ToLower(At(a, i)) != ToLower(b[i]) {
        return false;
      }
      i := i + 1;
    }
    return true;
  }

  method StrChrDash(s: seq<Byte>) returns (r: seq<Byte>)
    ensures r == ShortName(s)
  {
    var i := 0;
    while i < |s| && s[i] != DASH
      invariant 0 <= i <= |s| && forall k :: 0 <= k < i ==> s[k] != DASH
    {
      i := i + 1;
    }
    ShortIs(s, i);
    r := s[..i];
  }

  lemma ShortIs(s: seq<Byte>, i: nat)
    requires i <= |s| && (forall k :: 0 <= k < i ==> s[k] != DASH) && (i < |s| ==> s[i] == DASH)
    ensures ShortName(s) == s[..i]
  {
    hide ShortName;
    assert |ShortName(s)| == i;
  }

  predicate Strings(env: Env) {
    NulFree(env.program) && (env.terminal.Some? ==> NulFree(env.terminal.value))
  }

  lemma Parts(s: seq<Byte>)
    requires NulFree(s)
    ensures NulFree(SkipBlanks(s)) && NulFree(FirstWord(s)) && NulFree(ShortName(s))
  {
    hide SkipBlanks, FirstWord, ShortName;
    var w, n := FirstWord(s), ShortName(s);
    assert forall i :: 0 <= i < |w| ==> w[i] == s[i];
    assert forall i :: 0 <= i < |n| ==> n[i] == s[i];
  }

  /** The directive of a line and its arguments. */
  method ReadDirective(statement: seq<Byte>) returns (line: Line)
    requires NulFree(statement)
    ensures line == Directive(statement) && !line.Command?
    ensures line.If? ==> NulFree(line.args)
  {
    hide SkipBlanks, FirstWord, SameNoCase;
    Parts(statement);
    var rest := SkipWhitespace(statement);
    Parts(rest);
    var directive := IsolateWord(rest);
    var after := rest[|directive|..];
    assert NulFree(after);
    Parts(after);
    var args := SkipWhitespace(after);
    var isIf := StrIcmp(directive, IF);
    var isEndif := StrIcmp(directive, ENDIF);
    var isElse := StrIcmp(directive, ELSE);
    line := if isIf then If(args) else if isEndif then Endif else if isElse then Else else Other;
  }

  /** The test of `parser_if`. */
  method Evaluate(env: Env, args: seq<Byte>) returns (c: bool)
    requires Strings(env) && NulFree(args)
    ensures c == Condition(env, args)
  {
    hide SkipBlanks, FirstWord, ShortName, SameNoCase;
    Parts(args);
    var arg := IsolateWord(args);
    var isTerm := StrNicmp(arg, TERM);
    var isMode := StrNicmp(arg, MODE);
    if env.terminal.Some? && isTerm {
      Parts(env.terminal.value);
      var tname := StrChrDash(env.terminal.value);
      var short := StrIcmp(arg[5..], tname);
      var long := StrIcmp(arg[5..], env.terminal.value);
      c := short || long;
    } else if isMode {
      var emacs := StrIcmp(arg[5..], EMACS);
      var vi := StrIcmp(arg[5..], VI);
      var mode := if emacs then Emacs else if vi then Vi else NoMode;
      c := mode == env.mode;
    } else {
      c := StrIcmp(arg, env.program);
    }
  }

  // ---- The machine ----

  /** The flag and the stack against the sections that are open. */
  ghost predicate Tracks(out: bool, stack: seq<bool>, o: seq<bool>) {
    && out == !All(o) && |stack| == |o|
    && forall i :: 0 <= i < |stack| ==> stack[i] == !All(o[..i])
  }

  lemma PushTracks(out: bool, stack: seq<bool>, o: seq<bool>, c: bool)
    requires Tracks(out, stack, o)
    ensures Tracks(out || !c, stack + [out], o + [c])
  {
    AllSnoc(o, c);
    var more := o + [c];
    assert more[..|o|] == o;
    assert forall i :: 0 <= i < |stack| ==> more[..i] == o[..i];
  }

  lemma PopTracks(out: bool, stack: seq<bool>, o: seq<bool>)
    requires Tracks(out, stack, o) && o != []
    ensures Tracks(stack[|stack| - 1], stack[..|stack| - 1], o[..|o| - 1])
  {
    var less := o[..|o| - 1];
    assert forall i :: 0 <= i < |less| ==> less[..i] == o[..i];
  }

  /** `$else` inverts the flag unless an enclosing section is not selected. */
  lemma ToggleTracks(out: bool, stack: seq<bool>, o: seq<bool>)
    requires Tracks(out, stack, o) && o != []
    ensures var n := |o| - 1; var o' := o[n := !o[n]];
      if exists i :: 0 <= i < |stack| && stack[i] then Tracks(out, stack, o') else Tracks(!out, stack, o')
  {
    var n := |o| - 1;
    var front := o[..n];
    var o' := o[n := !o[n]];
    assert o == front + [o[n]] && o' == front + [!o[n]];
    AllSnoc(front, o[n]);
    AllSnoc(front, !o[n]);
    assert forall i :: 0 <= i < |stack| ==> o'[..i] == o[..i];
    if i :| 0 <= i < |stack| && stack[i] {
      PrefixAll(o, i, n);
    } else {
      assert !stack[n];
    }
  }

  lemma PrefixAll(o: seq<bool>, i: nat, n: nat)
    requires i <= n <= |o| && !All(o[..i])
    ensures !All(o[..n])
  {
    var k :| 0 <= k < i && !o[..i][k];
    assert !o[..n][k];
  }

  class Parser {
    const env: Env
    var ifStack: array<bool>
    var depth: nat
    var conditionalizedOut: bool
    var executed: seq<seq<Byte>>
    ghost var lines: seq<Line>

    /** After any lines: a command is executed just when all its enclosing sections are selected. */
    ghost predicate Valid()
      reads this, ifStack
    {
      && Strings(env) && depth <= ifStack.Length
      && Tracks(conditionalizedOut, ifStack[..depth], Open(env, lines))
      && executed == Selected(env, lines)
    }

    constructor (env: Env)
      requires Strings(env)
      ensures Valid() && lines == [] && this.env == env && fresh(ifStack)
    {
      this.env := env;
      ifStack := new bool[0];
      depth, conditionalizedOut, executed, lines := 0, false, [], [];
    }

    method ParserIf(args: seq<Byte>)
      requires Valid() && NulFree(args)
      modifies this, ifStack
      ensures Valid() && lines == old(lines) + [If(args)]
      ensures ifStack == old(ifStack) || fresh(ifStack)
    {
      hide Open, Selected, Tracks, Condition;
      AddsLine(env, lines, If(args));
      PushTracks(conditionalizedOut, ifStack[..depth], Open(env, lines), Condition(env, args));
      ghost var stack := ifStack[..depth];
      GrowStack();
      ifStack[depth] := conditionalizedOut;
      assert ifStack[..depth + 1] == stack + [conditionalizedOut];
      depth := depth + 1;
      lines := lines + [If(args)];
      if conditionalizedOut {
        return;
      }
      var c := Evaluate(env, args);
      conditionalizedOut := !c;
    }

    method GrowStack()
      requires depth <= ifStack.Length
      modifies this`ifStack
      ensures depth < ifStack.Length && ifStack[..depth] == old(ifStack[..depth])
      ensures ifStack == old(ifStack) || fresh(ifStack)
    {
      if depth + 1 >= ifStack.Length {
        var n := ifStack.Length;
        var bigger := new bool[n + 20];
        var i := 0;
        while i < n
          invariant 0 <= i <= n == ifStack.Length && forall k :: 0 <= k < i ==> bigger[k] == ifStack[k]
          invariant ifStack == old(ifStack) && ifStack[..depth] == old(ifStack[..depth])
        {
          bigger[i] := ifStack[i];
          i := i + 1;
        }
        assert bigger[..depth] == ifStack[..depth];
        ifStack := bigger;
      }
    }

    method ParserElse()
      requires Valid()
      modifies this
      ensures Valid() && lines == old(lines) + [Else] && ifStack == old(ifStack)
    {
      hide Open, Selected, Tracks;
      AddsLine(env, lines, Else);
      Depth();
      lines := lines + [Else];
      if depth == 0 {
        return;
      }
      ToggleTracks(conditionalizedOut, ifStack[..depth], old(Open(env, lines)));
      for i := 0 to depth
        invariant forall k :: 0 <= k < i ==> !ifStack[k]
      {
        if ifStack[i] {
          assert ifStack[..depth][i];
          return;
        }
      }
      conditionalizedOut := !conditionalizedOut;
    }

    method ParserEndif()
      requires Valid()
      modifies this
      ensures Valid() && lines == old(lines) + [Endif] && ifStack == old(ifStack)
    {
      hide Open, Selected, Tracks;
      AddsLine(env, lines, Endif);
      Depth();
      ghost var o := Open(env, lines);
      lines := lines + [Endif];
      if depth > 0 {
        PopTracks(conditionalizedOut, ifStack[..depth], o);
        assert ifStack[..depth][..depth - 1] == ifStack[..depth - 1];
        depth := depth - 1;
        conditionalizedOut := ifStack[depth];
      }
    }

    lemma Depth()
      requires Valid()
      ensures |Open(env, lines)| == depth && conditionalizedOut == !All(Open(env, lines))
    {
    }

    /** `handle_parser_directive`, with the line from which the dollar sign is gone. */
    method HandleDirective(statement: seq<Byte>)
      requires Valid() && NulFree(statement)
      modifies this, ifStack
      ensures Valid() && lines == old(lines) + [Directive(statement)]
      ensures ifStack == old(ifStack) || fresh(ifStack)
    {
      hide Open, Selected, Tracks, Directive;
      var line := ReadDirective(statement);
      if line.If? {
        ParserIf(line.args);
      } else if line.Endif? {
        ParserEndif();
      } else if line.Else? {
        ParserElse();
      } else {
        AddsLine(env, lines, line);
        lines := lines + [line];
      }
    }

    /** `rl_parse_and_bind`, as far as it decides whether to execute a line. */
    method ParseAndBind(text: seq<Byte>)
      requires Valid() && NulFree(text)
      modifies this, ifStack
      ensures Valid() && lines == old(lines) + [Classify(text)]
      ensures ifStack == old(ifStack) || fresh(ifStack)
    {
      hide Open, Selected, SkipBlanks, Tracks, All, Directive;
      Depth();
      Parts(text);
      var s := SkipWhitespace(text);
      if s == [] || s[0] == HASH {
        AddsLine(env, lines, Nothing);
        lines := lines + [Nothing];
      } else if s[0] == DOLLAR {
        HandleDirective(s[1..]);
      } else {
        AddsLine(env, lines, Command(s));
        lines := lines + [Command(s)];
        if !conditionalizedOut {
          executed := executed + [s];
        }
      }
    }

    /** The loop over the lines of an init file. */
    method ReadInitFile(texts: seq<seq<Byte>>)
      requires Valid() && forall i :: 0 <= i < |texts| ==> NulFree(texts[i])
      modifies this, ifStack
      ensures Valid() && lines == old(lines) + ClassifyAll(texts)
    {
      hide Classify, Valid;
      for i := 0 to |texts|
        invariant Valid() && lines == old(lines) + ClassifyAll(texts[..i])
        invariant ifStack == old(ifStack) || fresh(ifStack)
      {
        ParseAndBind(texts[i]);
        assert texts[..i + 1][..i] == texts[..i];
      }
      assert texts[..|texts|] == texts;
    }
  }

  function ClassifyAll(texts: seq<seq<Byte>>): seq<Line> {
    if texts == [] then [] else ClassifyAll(texts[..|texts| - 1]) + [Classify(texts[|texts| - 1])]
  }

  /** A file whose lines are nested blocks executes what they mean, and leaves no block open. */
  lemma NestedBlocksMean(env: Env, items: seq<Item>)
    ensures Selected(env, Lines(items)) == Meaning(env, items) && Open(env, Lines(items)) == []
  {
    ItemsMean(env, [], items);
    assert [] + Lines(items) == Lines(items);
  }
}
