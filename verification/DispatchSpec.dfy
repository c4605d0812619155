/** What dispatching a key does (readline/readline.c), stated over the whole key stream. Commands
    return 0, no timeout is set and no input comes from macros. */
module DispatchSpec {
  import opened Chars
  import opened Keymaps

  /** A command is called with the last key of its sequence; a macro becomes input. */
  datatype Event = Command(function_: nat, key: Byte) | MacroInput(macro: nat)

  function EventOf(b: Binding, key: Byte): Event {
    match b
    case Func(id) => Command(id, key)
    case Macro(id) => MacroInput(id)
  }

  datatype Outcome =
    | Ran(event: Event, rest: seq<Byte>)
    | PushedBack
    | Aborted(rest: seq<Byte>)

  ghost predicate ShadowsSome(maps: Maps, m: nat)
    requires Tables(maps) && m < |maps|
  {
    maps[m][ANYOTHERKEY].Bound?
  }

  /** The keys of `s` after the first that are read before a key does not lead to a keymap. */
  ghost function Walk(maps: Maps, m: nat, s: seq<Byte>): nat
    requires Trie(maps) && m < |maps|
    decreases |s|
  {
    if s != [] && maps[m][s[0]].Submap? then
      assert Link(maps, m, s[0], maps[m][s[0]].id);
      1 + Walk(maps, maps[m][s[0]].id, s[1..])
    else 0
  }

  /** The keys after those that dispatch reads, when it pushes none of them back. */
  ghost function KeysLeft(maps: Maps, m: nat, s: seq<Byte>): seq<Byte>
    requires Trie(maps) && m < |maps|
  {
    var w := Walk(maps, m, s);
    if w < |s| then s[w + 1..] else []
  }

  /** The stream ends while the keys still lead to keymaps. */
  ghost predicate Starved(maps: Maps, m: nat, s: seq<Byte>)
    requires Trie(maps) && m < |maps|
    decreases |s|
  {
    s == [] || (maps[m][s[0]].Submap? &&
      assert Link(maps, m, s[0], maps[m][s[0]].id);
      Starved(maps, maps[m][s[0]].id, s[1..]))
  }

  /** The length of the longest non-empty bound prefix of `s`, found by walking down and back. */
  ghost function Best(maps: Maps, m: nat, s: seq<Byte>): (r: Option<nat>)
    requires Trie(maps) && m < |maps|
    ensures r.Some? ==> 1 <= r.value <= |s| && Meaning(maps, m, s[..r.value]).Some?
    decreases |s|
  {
    if s == [] then None
    else
      var k, rest := s[0], s[1..];
      MeaningCons(maps, m, k, []);
      assert [k] + [] == s[..1];
      if !maps[m][k].Submap? then (if maps[m][k].Bound? then Some(1) else None)
      else
        var c := maps[m][k].id;
        var deeper := Best(maps, c, rest);
        if deeper.Some? then
          MeaningCons(maps, m, k, rest[..deeper.value]);
          assert [k] + rest[..deeper.value] == s[..deeper.value + 1];
          Some(deeper.value + 1)
        else if ShadowsSome(maps, c) then Some(1)
        else None
  }

  /** No longer prefix is bound; if there is no best prefix, none is bound at all. */
  lemma {:induction false} BestIsLongest(maps: Maps, m: nat, s: seq<Byte>, i: nat)
    requires Trie(maps) && m < |maps| && 1 <= i <= |s|
    requires Meaning(maps, m, s[..i]).Some?
    ensures Best(maps, m, s).Some? && i <= Best(maps, m, s).value
    decreases |s|
  {
    var k, rest := s[0], s[1..];
    MeaningCons(maps, m, k, rest[..i - 1]);
    assert s[..i] == [k] + rest[..i - 1];
    if maps[m][k].Submap? && i > 1 {
      BestIsLongest(maps, maps[m][k].id, rest, i - 1);
    }
  }

  ghost function RunOutcome(maps: Maps, root: nat, s: seq<Byte>, j: nat): Outcome
    requires Trie(maps) && root < |maps| && 1 <= j <= |s| && Meaning(maps, root, s[..j]).Some?
  {
    Ran(EventOf(Meaning(maps, root, s[..j]).value, s[j - 1]), s[j..])
  }

  /** What recursive dispatch does with the stream `s`. */
  ghost function RecursiveOutcome(maps: Maps, root: nat, s: seq<Byte>): Outcome
    requires Trie(maps) && root < |maps|
  {
    if Starved(maps, root, s) then Aborted(KeysLeft(maps, root, s))
    else if Best(maps, root, s).Some? then RunOutcome(maps, root, s, Best(maps, root, s).value)
    else if ShadowsSome(maps, root) then PushedBack
    else Aborted(KeysLeft(maps, root, s))
  }

  /** What the chain of contexts does with the stream `s`. */
  ghost function ChainOutcome(maps: Maps, root: nat, s: seq<Byte>): Outcome
    requires Trie(maps) && root < |maps|
  {
    if Starved(maps, root, s) then Aborted(KeysLeft(maps, root, s))
    else if Best(maps, root, s).Some? then RunOutcome(maps, root, s, Best(maps, root, s).value)
    else if ShadowsSome(maps, root) && !maps[root][s[0]].Submap? then PushedBack
    else Aborted(KeysLeft(maps, root, s))
  }

  /** The first `j` keys of the stream are bound, and no more of them are. */
  ghost predicate LongestBound(maps: Maps, root: nat, s: seq<Byte>, j: nat)
    requires Trie(maps) && root < |maps|
  {
    && 1 <= j <= |s| && Meaning(maps, root, s[..j]).Some?
    && forall i :: j < i <= |s| ==> Meaning(maps, root, s[..i]).None?
  }

  /** Dispatch runs the longest bound prefix of the input and leaves the keys after it: a command is called
      with the last key of the prefix, and a macro becomes input. */
  lemma RunsLongestPrefix(maps: Maps, root: nat, s: seq<Byte>, j: nat)
    requires Trie(maps) && root < |maps| && !Starved(maps, root, s) && LongestBound(maps, root, s, j)
    ensures RecursiveOutcome(maps, root, s) == ChainOutcome(maps, root, s)
    ensures match Meaning(maps, root, s[..j]).value
      case Func(id) => RecursiveOutcome(maps, root, s) == Ran(Command(id, s[j - 1]), s[j..])
      case Macro(id) => RecursiveOutcome(maps, root, s) == Ran(MacroInput(id), s[j..])
  {
    BestIsLongest(maps, root, s, j);
  }

  /** With no bound prefix nothing runs: the keys are all given back when the top keymap itself binds
      ANYOTHERKEY, and otherwise the keys that were read are gone. */
  lemma RunsNothing(maps: Maps, root: nat, s: seq<Byte>)
    requires Trie(maps) && root < |maps|
    requires forall i :: 1 <= i <= |s| ==> Meaning(maps, root, s[..i]).None?
    ensures RecursiveOutcome(maps, root, s) ==
            if ShadowsSome(maps, root) && !Starved(maps, root, s) then PushedBack else Aborted(KeysLeft(maps, root, s))
    ensures ChainOutcome(maps, root, s) ==
            if ShadowsSome(maps, root) && !Starved(maps, root, s) && !maps[root][s[0]].Submap? then PushedBack
            else Aborted(KeysLeft(maps, root, s))
  {
    hide Meaning;
    assert Best(maps, root, s).None?;
  }

  /** What an abort leaves: the stream after the keys that led to keymaps and the one that did not. */
  lemma {:induction false} WalkedKeys(maps: Maps, m: nat, s: seq<Byte>)
    requires Trie(maps) && m < |maps|
    ensures var w := Walk(maps, m, s);
      && w <= |s| && Reach(maps, m, s[..w]).Some? && (Starved(maps, m, s) <==> w == |s|)
      && (w < |s| ==> Reach(maps, m, s[..w + 1]).None? && s == s[..w + 1] + KeysLeft(maps, m, s))
    decreases |s|
  {
    hide Reach;
    assert s[..0] == [];
    RootReached(maps, m);
    if s != [] && maps[m][s[0]].Submap? {
      var c, rest := maps[m][s[0]].id, s[1..];
      assert Link(maps, m, s[0], c);
      WalkedKeys(maps, c, rest);
      var w := Walk(maps, c, rest);
      assert s[..w + 1] == [s[0]] + rest[..w];
      ReachCons(maps, m, s[0], rest[..w]);
      if w < |rest| {
        assert s[..w + 2] == [s[0]] + rest[..w + 1];
        ReachCons(maps, m, s[0], rest[..w + 1]);
      }
    } else if s != [] {
      assert s[..1] == [s[0]] + [];
      ReachCons(maps, m, s[0], []);
    }
  }

  /** The chain simulates the recursion, except below a top keymap that itself has an ANYOTHERKEY
      binding: there a sequence of two keys or more with no bound prefix is pushed back by the
      recursion and aborted by the chain. */
  lemma ChainIsRecursion(maps: Maps, root: nat, s: seq<Byte>)
    requires Trie(maps) && root < |maps|
    ensures RecursiveOutcome(maps, root, s) == ChainOutcome(maps, root, s) <==>
            !(ShadowsSome(maps, root) && !Starved(maps, root, s) && maps[root][s[0]].Submap? &&
              forall i :: 1 <= i <= |s| ==> Meaning(maps, root, s[..i]).None?)
  {
    if Best(maps, root, s).None? {
      forall i | 1 <= i <= |s|
        ensures Meaning(maps, root, s[..i]).None?
      {
        if Meaning(maps, root, s[..i]).Some? {
          BestIsLongest(maps, root, s, i);
        }
      }
    }
  }

  /** A top keymap that binds ANYOTHERKEY, with `a` leading to a keymap that binds nothing. */
  function ShadowingMaps(): (maps: Maps)
    ensures Trie(maps) && |maps| == 2
  {
    [Bare()[ANYOTHERKEY := Bound(Func(7))][97 := Submap(1)], Bare()]
  }

  /** In these keymaps the keys `a b` are given back by the recursion, and lost by the chain. */
  lemma ChainDiffers()
    ensures RecursiveOutcome(ShadowingMaps(), 0, [97, 98]) == PushedBack
    ensures ChainOutcome(ShadowingMaps(), 0, [97, 98]) == Aborted([])
  {
    var maps := ShadowingMaps();
    assert Link(maps, 0, 97, 1);
    StreamStep(maps, 0, 97, [98], 1);
    LeafStream(maps, 1, [98]);
    assert [97] + [98] == [97, 98];
  }

  // ---- One level of the recursion ----

  /** A return value, or the long jump that `_rl_abort_internal` makes. */
  datatype Ret = Code(r: int) | Jump

  /** What dispatching the stream `s` into keymap `m` returns, leaves to be read, and runs. */
  ghost predicate Dispatched(maps: Maps, m: nat, s: seq<Byte>, got: bool, r: Ret, rest: seq<Byte>, ran: seq<Event>)
    requires Trie(maps) && m < |maps|
  {
    if Starved(maps, m, s) then r == Jump && rest == KeysLeft(maps, m, s) && ran == []
    else if Best(maps, m, s).Some? then
      var run := RunOutcome(maps, m, s, Best(maps, m, s).value);
      r == Code(0) && rest == run.rest && ran == [run.event]
    else
      && ran == []
      && (if ShadowsSome(maps, m) then r == Code(-2) && rest == s
          else if got then r == Code(-1) && rest == s
          else r == Jump && rest == KeysLeft(maps, m, s))
  }

  lemma DispatchedCodes(maps: Maps, m: nat, s: seq<Byte>, got: bool, r: Ret, rest: seq<Byte>, ran: seq<Event>)
    requires Trie(maps) && m < |maps| && Dispatched(maps, m, s, got, r, rest, ran)
    ensures r == Jump || r == Code(0) || r == Code(-1) || r == Code(-2)
    ensures r == Code(-2) ==> ShadowsSome(maps, m)
    ensures r == Code(-1) ==> got
  {
  }

  lemma DispatchedLeaf(maps: Maps, m: nat, key: Byte, q: seq<Byte>, got: bool, r: Ret, rest: seq<Byte>, ran: seq<Event>)
    requires Trie(maps) && m < |maps| && !maps[m][key].Submap?
    requires maps[m][key].Bound? ==> r == Code(0) && rest == q && ran == [EventOf(maps[m][key].binding, key)]
    requires maps[m][key].Unbound? ==> ran == []
    requires maps[m][key].Unbound? && (ShadowsSome(maps, m) || got) ==>
      r == Code(if ShadowsSome(maps, m) then -2 else -1) && rest == [key] + q
    requires maps[m][key].Unbound? && !ShadowsSome(maps, m) && !got ==> r == Jump && rest == q
    ensures Dispatched(maps, m, [key] + q, got, r, rest, ran)
  {
    var s := [key] + q;
    MeaningCons(maps, m, key, []);
    assert s[..1] == [key] + [] && s[1..] == q;
  }

  ghost function ShadowEvent(maps: Maps, c: nat, key: Byte): seq<Event>
    requires Tables(maps) && c < |maps|
  {
    if ShadowsSome(maps, c) then [EventOf(maps[c][ANYOTHERKEY].binding, key)] else []
  }

  /** The best prefix of a stream past `d` keys that lead to keymaps, the last shadowing one being
      number `t`, when `deeper` is the best prefix of what follows. */
  function BestPast(deeper: Option<nat>, d: nat, t: nat): Option<nat> {
    if deeper.Some? then Some(d + deeper.value) else if t > 0 then Some(t) else None
  }

  lemma BestPastStep(deeper: Option<nat>, d: nat, t: nat, shadows: bool)
    ensures BestPast(BestPast(deeper, 1, if shadows then 1 else 0), d, t) ==
            BestPast(deeper, d + 1, if shadows then d + 1 else t)
  {
  }

  lemma StreamStep(maps: Maps, m: nat, key: Byte, q: seq<Byte>, c: nat)
    requires Trie(maps) && m < |maps| && Link(maps, m, key, c)
    ensures m < c < |maps|
    ensures Starved(maps, m, [key] + q) == Starved(maps, c, q)
    ensures Walk(maps, m, [key] + q) == 1 + Walk(maps, c, q)
    ensures KeysLeft(maps, m, [key] + q) == KeysLeft(maps, c, q)
    ensures Best(maps, m, [key] + q) == BestPast(Best(maps, c, q), 1, if ShadowsSome(maps, c) then 1 else 0)
  {
    assert ([key] + q)[1..] == q;
  }

  /** The keymap that `key` leads to has returned `r1`, and `_rl_subseq_result` goes on from there. */
  lemma DispatchedChild(maps: Maps, m: nat, key: Byte, q: seq<Byte>, got: bool, c: nat,
                        r1: Ret, rest1: seq<Byte>, ran1: seq<Event>, r: Ret, rest: seq<Byte>, ran: seq<Event>)
    requires Trie(maps) && m < |maps| && Link(maps, m, key, c) && c < |maps|
    requires Dispatched(maps, c, q, got || ShadowsSome(maps, m), r1, rest1, ran1)
    requires r1 == Jump ==> r == Jump && rest == rest1 && ran == ran1
    requires r1 == Code(0) ==> r == Code(0) && rest == rest1 && ran == ran1
    requires r1 == Code(-2) ==> r == Code(0) && rest == rest1 && ran == ran1 + ShadowEvent(maps, c, key)
    requires r1 == Code(-1) && (ShadowsSome(maps, m) || got) ==>
      r == Code(if ShadowsSome(maps, m) then -2 else -1) && rest == [key] + rest1 && ran == ran1
    ensures Dispatched(maps, m, [key] + q, got, r, rest, ran)
  {
    hide Reach, Meaning, Starved, Best, Walk;
    var s := [key] + q;
    StreamStep(maps, m, key, q, c);
    if !Starved(maps, c, q) {
      var deeper := Best(maps, c, q);
      if deeper.Some? {
        var j := deeper.value;
        assert s[..j + 1] == [key] + q[..j] && s[j + 1..] == q[j..] && s[j] == q[j - 1];
        MeaningCons(maps, m, key, q[..j]);
      } else if ShadowsSome(maps, c) {
        assert s[..1] == [key] + [] && s[1..] == q;
        MeaningCons(maps, m, key, []);
        MeaningNil(maps, c);
      }
    }
  }

  // ---- The chain of contexts ----

  /** A context of the chain; what an activation of the recursive function would hold. */
  datatype Context = Context(dispatched: bool, subseq: bool, okey: Byte, oldmap: nat, dmap: nat, subseqArg: bool,
                             childval: int)

  /** The keymap that the first `i` keys of `ks` lead to. */
  ghost function Node(maps: Maps, root: nat, ks: seq<Byte>, i: nat): (n: nat)
    requires Trie(maps) && root < |maps| && i <= |ks| && Reach(maps, root, ks).Some?
    ensures n < |maps| && Reach(maps, root, ks[..i]) == Some(n)
    decreases |ks| - i
  {
    if i == |ks| then
      assert ks[..i] == ks;
      Reach(maps, root, ks).value
    else
      var n := Node(maps, root, ks, i + 1);
      assert ks[..i + 1][..i] == ks[..i];
      Reach(maps, root, ks[..i]).value
  }

  /** How many of the first `i` keys lead to the last keymap on the way that shadows a binding; 0 if
      none does. */
  ghost function LastShadow(maps: Maps, root: nat, ks: seq<Byte>, i: nat): (t: nat)
    requires Trie(maps) && root < |maps| && i <= |ks| && Reach(maps, root, ks).Some?
    ensures t <= i && (t > 0 ==> ShadowsSome(maps, Node(maps, root, ks, t)))
  {
    if i == 0 then 0
    else if ShadowsSome(maps, Node(maps, root, ks, i)) then i
    else LastShadow(maps, root, ks, i - 1)
  }

  lemma {:induction false} LastShadowPrefix(maps: Maps, root: nat, ks: seq<Byte>, k: Byte, i: nat)
    requires Trie(maps) && root < |maps| && i <= |ks|
    requires Reach(maps, root, ks).Some? && Reach(maps, root, ks + [k]).Some?
    ensures LastShadow(maps, root, ks + [k], i) == LastShadow(maps, root, ks, i)
    ensures Node(maps, root, ks + [k], i) == Node(maps, root, ks, i)
  {
    assert (ks + [k])[..i] == ks[..i];
    if i > 0 {
      LastShadowPrefix(maps, root, ks, k, i - 1);
    }
  }

  lemma ShadowSnoc(maps: Maps, root: nat, front: seq<Byte>, k: Byte)
    requires Trie(maps) && root < |maps| && Reach(maps, root, front + [k]).Some?
    ensures Reach(maps, root, front).Some?
    ensures var n, m, ks := Reach(maps, root, front).value, Reach(maps, root, front + [k]).value, front + [k];
      && Link(maps, n, k, m)
      && LastShadow(maps, root, ks, |ks|) ==
           if ShadowsSome(maps, m) then |ks| else LastShadow(maps, root, front, |front|)
  {
    ReachSnoc(maps, root, front, k);
    LastShadowPrefix(maps, root, front, k, |front|);
  }

  /** The stream past a path of keymaps. */
  lemma {:induction false} StreamPast(maps: Maps, root: nat, ks: seq<Byte>, q: seq<Byte>, m: nat)
    requires Trie(maps) && root < |maps| && Reach(maps, root, ks) == Some(m)
    ensures Starved(maps, root, ks + q) == Starved(maps, m, q)
    ensures Walk(maps, root, ks + q) == |ks| + Walk(maps, m, q)
    ensures KeysLeft(maps, root, ks + q) == KeysLeft(maps, m, q)
    ensures Best(maps, root, ks + q) == BestPast(Best(maps, m, q), |ks|, LastShadow(maps, root, ks, |ks|))
    decreases |ks|
  {
    if ks == [] {
      assert ks + q == q;
    } else {
      var front, k := ks[..|ks| - 1], ks[|ks| - 1];
      assert ks == front + [k] && ks + q == front + ([k] + q);
      ShadowSnoc(maps, root, front, k);
      var n := Reach(maps, root, front).value;
      StreamPast(maps, root, front, [k] + q, n);
      StreamStep(maps, n, k, q, m);
      BestPastStep(Best(maps, m, q), |front|, LastShadow(maps, root, front, |front|), ShadowsSome(maps, m));
    }
  }

  /** Context `i` on the path `ks`. */
  ghost predicate ContextOf(maps: Maps, root: nat, ks: seq<Byte>, i: nat, cxt: Context)
    requires Trie(maps) && root < |maps| && i < |ks| && Reach(maps, root, ks).Some?
  {
    && cxt.okey == ks[i] && cxt.oldmap == Node(maps, root, ks, i) && cxt.dmap == Node(maps, root, ks, i + 1)
    && cxt.subseq == (LastShadow(maps, root, ks, i) > 0)
    && cxt.subseqArg == (LastShadow(maps, root, ks, i + 1) > 0)
  }

  /** The chain holds the contexts of the first `c` keys of `ks`, the last on top; all but the top one
      have been used, and the top one as `used` says. */
  ghost predicate Chained(maps: Maps, root: nat, ks: seq<Byte>, chain: seq<Context>, c: nat, used: bool)
    requires Trie(maps) && root < |maps| && Reach(maps, root, ks).Some?
  {
    && 0 < c <= |ks| && |chain| == c
    && (forall i :: 0 <= i < c ==> ContextOf(maps, root, ks, i, chain[i]))
    && (forall i :: 0 <= i < c - 1 ==> chain[i].dispatched)
    && chain[c - 1].dispatched == used
  }

  lemma PushContext(maps: Maps, root: nat, ks: seq<Byte>, chain: seq<Context>, k: Byte, cxt: Context)
    requires Trie(maps) && root < |maps| && Reach(maps, root, ks).Some? && Reach(maps, root, ks + [k]).Some?
    requires if ks == [] then chain == [] else Chained(maps, root, ks, chain, |ks|, true)
    requires ContextOf(maps, root, ks + [k], |ks|, cxt) && !cxt.dispatched
    ensures Chained(maps, root, ks + [k], chain + [cxt], |ks| + 1, false)
  {
    hide Reach, LastShadow;
    var ks' := ks + [k];
    forall i | 0 <= i < |ks|
      ensures ContextOf(maps, root, ks', i, chain[i])
    {
      LastShadowPrefix(maps, root, ks, k, i);
      LastShadowPrefix(maps, root, ks, k, i + 1);
      assert ks'[i] == ks[i];
    }
  }

  /** Take the top context off and give its result to the one below. */
  function Popped(chain: seq<Context>, r: int): (rest: seq<Context>)
    requires chain != []
    ensures |rest| == |chain| - 1
    ensures forall i :: 0 <= i < |rest| ==>
      rest[i] == if i == |rest| - 1 then chain[i].(childval := r) else chain[i]
  {
    var rest := chain[..|chain| - 1];
    if rest == [] then rest else WithChildval(rest, r)
  }

  lemma PopContext(maps: Maps, root: nat, ks: seq<Byte>, chain: seq<Context>, c: nat, r: int)
    requires Trie(maps) && root < |maps| && Reach(maps, root, ks).Some?
    requires 1 < c && Chained(maps, root, ks, chain, c, true)
    ensures Chained(maps, root, ks, Popped(chain, r), c - 1, true)
    ensures Popped(chain, r)[c - 2].childval == r
  {
    hide Reach, LastShadow, Node;
    forall i | 0 <= i < c - 1
      ensures ContextOf(maps, root, ks, i, Popped(chain, r)[i])
    {
      assert ContextOf(maps, root, ks, i, chain[i]);
    }
  }

  /** Record the result of the context above the top one. */
  function WithChildval(chain: seq<Context>, r: int): seq<Context>
    requires chain != []
  {
    chain[|chain| - 1 := chain[|chain| - 1].(childval := r)]
  }

  lemma RecordChildval(maps: Maps, root: nat, ks: seq<Byte>, chain: seq<Context>, c: nat, used: bool, r: int)
    requires Trie(maps) && root < |maps| && Reach(maps, root, ks).Some? && Chained(maps, root, ks, chain, c, used)
    ensures Chained(maps, root, ks, WithChildval(chain, r), c, used)
  {
    hide Reach, LastShadow, Node;
    var chain' := WithChildval(chain, r);
    forall i | 0 <= i < c
      ensures ContextOf(maps, root, ks, i, chain'[i])
    {
      assert ContextOf(maps, root, ks, i, chain[i]);
    }
  }

  lemma LeafStream(maps: Maps, m: nat, q: seq<Byte>)
    requires Trie(maps) && m < |maps| && q != [] && !maps[m][q[0]].Submap?
    ensures !Starved(maps, m, q) && Walk(maps, m, q) == 0 && KeysLeft(maps, m, q) == q[1..]
    ensures Best(maps, m, q) == if maps[m][q[0]].Bound? then Some(1) else None
  {
  }

  /** The stream ends in the keymaps of `ks`. */
  lemma ChainStarves(maps: Maps, root: nat, ks: seq<Byte>, m: nat)
    requires Trie(maps) && root < |maps| && Reach(maps, root, ks) == Some(m)
    ensures ChainOutcome(maps, root, ks + []) == Aborted([])
  {
    StreamPast(maps, root, ks, [], m);
  }

  /** After the keymaps of `ks` comes a bound key. */
  lemma ChainMatches(maps: Maps, root: nat, ks: seq<Byte>, q: seq<Byte>, m: nat)
    requires Trie(maps) && root < |maps| && Reach(maps, root, ks) == Some(m)
    requires q != [] && maps[m][q[0]].Bound?
    ensures ChainOutcome(maps, root, ks + q) == Ran(EventOf(maps[m][q[0]].binding, q[0]), q[1..])
  {
    hide Starved, Best, Walk, LastShadow, Node;
    var s, j := ks + q, |ks| + 1;
    StreamPast(maps, root, ks, q, m);
    LeafStream(maps, m, q);
    assert s[..j] == ks + [q[0]] && s[j..] == q[1..] && s[j - 1] == q[0];
    ReachSnoc(maps, root, ks, q[0]);
    assert (ks + [q[0]])[..|ks|] == ks;
  }

  lemma ShadowMeaning(maps: Maps, root: nat, ks: seq<Byte>, t: nat)
    requires Trie(maps) && root < |maps| && Reach(maps, root, ks).Some? && 0 < t <= |ks|
    ensures Meaning(maps, root, ks[..t]) == BindingOf(maps[Node(maps, root, ks, t)][ANYOTHERKEY])
  {
  }

  /** After the keymaps of `ks` comes a key that is not bound. */
  lemma ChainBacksUp(maps: Maps, root: nat, ks: seq<Byte>, q: seq<Byte>, m: nat, t: nat)
    requires Trie(maps) && root < |maps| && ks != [] && Reach(maps, root, ks) == Some(m)
    requires q != [] && maps[m][q[0]].Unbound? && t == LastShadow(maps, root, ks, |ks|)
    ensures ChainOutcome(maps, root, ks + q) ==
            if t == 0 then Aborted(q[1..])
            else Ran(EventOf(maps[Node(maps, root, ks, t)][ANYOTHERKEY].binding, ks[t - 1]), ks[t..] + q)
  {
    hide Reach, Meaning, Starved, Best, Walk, LastShadow, Node;
    var s := ks + q;
    StreamPast(maps, root, ks, q, m);
    LeafStream(maps, m, q);
    if t == 0 {
      ChainStartsInKeymap(maps, root, ks);
    } else {
      assert s[..t] == ks[..t] && s[t..] == ks[t..] + q && s[t - 1] == ks[t - 1];
      ShadowMeaning(maps, root, ks, t);
    }
  }

  lemma ChainStartsInKeymap(maps: Maps, root: nat, ks: seq<Byte>)
    requires Trie(maps) && root < |maps| && ks != [] && Reach(maps, root, ks).Some?
    ensures maps[root][ks[0]].Submap?
  {
    assert ks == [ks[0]] + ks[1..];
    ReachCons(maps, root, ks[0], ks[1..]);
  }

  /** One context up: its keymap is the parent, and it knows of a shadowed binding above. */
  lemma BackUpStep(maps: Maps, root: nat, ks: seq<Byte>, c: nat)
    requires Trie(maps) && root < |maps| && Reach(maps, root, ks).Some? && 0 < c <= |ks|
    ensures Link(maps, Node(maps, root, ks, c - 1), ks[c - 1], Node(maps, root, ks, c))
    ensures var t := LastShadow(maps, root, ks, |ks|);
      && (0 < t < c ==> LastShadow(maps, root, ks, c - 1) == t)
      && (0 < t < c ==> (ShadowsSome(maps, Node(maps, root, ks, c - 1)) <==> t == c - 1))
  {
    assert ks[..c] == ks[..c - 1] + [ks[c - 1]];
    ReachSnoc(maps, root, ks[..c - 1], ks[c - 1]);
    if 0 < LastShadow(maps, root, ks, |ks|) < c {
      LastShadowBelow(maps, root, ks, |ks|, c - 1);
    }
  }

  lemma {:induction false} LastShadowBelow(maps: Maps, root: nat, ks: seq<Byte>, i: nat, j: nat)
    requires Trie(maps) && root < |maps| && Reach(maps, root, ks).Some? && j <= i <= |ks|
    requires LastShadow(maps, root, ks, i) <= j
    ensures LastShadow(maps, root, ks, j) == LastShadow(maps, root, ks, i)
  {
    if j < i {
      LastShadowBelow(maps, root, ks, i - 1, j);
    }
  }

  /** One more key leads to a keymap. */
  lemma ExtendPath(maps: Maps, root: nat, ks: seq<Byte>, m: nat, k: Byte)
    requires Trie(maps) && root < |maps| && Reach(maps, root, ks) == Some(m) && maps[m][k].Submap?
    ensures Reach(maps, root, ks + [k]) == Some(maps[m][k].id)
    ensures maps[m][k].id < |maps|
    ensures Node(maps, root, ks + [k], |ks|) == m && Node(maps, root, ks + [k], |ks| + 1) == maps[m][k].id
    ensures LastShadow(maps, root, ks + [k], |ks|) == LastShadow(maps, root, ks, |ks|)
    ensures LastShadow(maps, root, ks + [k], |ks| + 1) ==
            if ShadowsSome(maps, maps[m][k].id) then |ks| + 1 else LastShadow(maps, root, ks, |ks|)
  {
    ReachSnoc(maps, root, ks, k);
    LastShadowPrefix(maps, root, ks, k, |ks|);
    assert (ks + [k])[..|ks| + 1] == ks + [k];
  }

  /** Set the flag KSEQ_DISPATCHED of context `n`. */
  function MarkUsed(chain: seq<Context>, n: nat): seq<Context>
    requires n < |chain|
  {
    chain[n := chain[n].(dispatched := true)]
  }

  lemma UseTop(maps: Maps, root: nat, ks: seq<Byte>, chain: seq<Context>)
    requires Trie(maps) && root < |maps| && Reach(maps, root, ks).Some?
    requires Chained(maps, root, ks, chain, |ks|, false)
    ensures Chained(maps, root, ks, MarkUsed(chain, |ks| - 1), |ks|, true)
  {
    hide Reach, LastShadow, Node;
    var chain' := MarkUsed(chain, |ks| - 1);
    forall i | 0 <= i < |ks|
      ensures ContextOf(maps, root, ks, i, chain'[i])
    {
      assert ContextOf(maps, root, ks, i, chain[i]);
    }
  }

  /** The top context is used for a key that leads to another keymap. */
  lemma UseAndPush(maps: Maps, root: nat, ks: seq<Byte>, chain: seq<Context>, m: nat, k: Byte, cxt: Context)
    requires Trie(maps) && root < |maps| && Reach(maps, root, ks) == Some(m) && maps[m][k].Submap?
    requires maps[m][k].id < |maps| && Chained(maps, root, ks, chain, |ks|, false)
    requires var got, c := LastShadow(maps, root, ks, |ks|) > 0, maps[m][k].id;
      cxt == Context(false, got, k, m, c, got || ShadowsSome(maps, c), cxt.childval)
    ensures Reach(maps, root, ks + [k]) == Some(maps[m][k].id)
    ensures Node(maps, root, ks + [k], |ks| + 1) == maps[m][k].id
    ensures Chained(maps, root, ks + [k], MarkUsed(chain + [cxt], |ks| - 1), |ks| + 1, false)
  {
    ExtendPath(maps, root, ks, m, k);
    UseTop(maps, root, ks, chain);
    assert MarkUsed(chain + [cxt], |ks| - 1) == MarkUsed(chain, |ks| - 1) + [cxt];
    PushContext(maps, root, ks, MarkUsed(chain, |ks| - 1), k, cxt);
  }

  /** The walk is at least as long as a path of keymaps that the stream starts with. */
  lemma PathFits(maps: Maps, root: nat, ks: seq<Byte>, q: seq<Byte>)
    requires Trie(maps) && root < |maps| && Reach(maps, root, ks).Some?
    ensures |ks| <= Walk(maps, root, ks + q)
  {
    StreamPast(maps, root, ks, q, Reach(maps, root, ks).value);
  }

  /** The first key of a sequence leads to a keymap. */
  lemma StartChain(maps: Maps, root: nat, key: Byte, c: nat)
    requires Trie(maps) && root < |maps| && c < |maps| && maps[root][key] == Submap(c)
    ensures Reach(maps, root, [key]) == Some(c) && Node(maps, root, [key], 1) == c
    ensures Chained(maps, root, [key], [Context(false, false, key, root, c, ShadowsSome(maps, c), 42)], 1, false)
  {
    hide Reach, Starved, Best, Walk;
    RootReached(maps, root);
    ExtendPath(maps, root, [], root, key);
    assert [] + [key] == [key];
    var cxt := Context(false, false, key, root, c, ShadowsSome(maps, c), 42);
    PushContext(maps, root, [], [], key, cxt);
    assert [] + [cxt] == [cxt];
  }

  lemma RootReached(maps: Maps, root: nat)
    requires Trie(maps) && root < |maps|
    ensures Reach(maps, root, []) == Some(root) && LastShadow(maps, root, [], 0) == 0
  {
  }

  /** The first key of a sequence does not lead to a keymap. */
  lemma StartLeaf(maps: Maps, root: nat, key: Byte, q: seq<Byte>)
    requires Trie(maps) && root < |maps| && !maps[root][key].Submap?
    ensures var e, out := maps[root][key], ChainOutcome(maps, root, [key] + q);
      && (e.Bound? ==> out == Ran(EventOf(e.binding, key), q))
      && (e.Unbound? ==> out == if ShadowsSome(maps, root) then PushedBack else Aborted(q))
  {
    hide Reach, Meaning, Starved, Best, Walk;
    var s := [key] + q;
    LeafStream(maps, root, s);
    assert s[..1] == [key] + [] && s[1..] == q;
    MeaningCons(maps, root, key, []);
  }
}
