/** The two dispatchers of readline/readline.c: recursion, and the chain of contexts that
    readline/callback.c drives one key at a time. */
module Dispatching {
  import opened Chars
  import opened Keymaps
  import opened InputRing
  import opened DispatchSpec

  ghost predicate NoLowercase(maps: Maps)
    requires Tables(maps)
  {
    forall m, k :: 0 <= m < |maps| && 0 <= k < KEYMAP_SIZE ==> maps[m][k] != Bound(DO_LOWERCASE)
  }

  lemma AnyIsNoKeymap(maps: Maps, m: nat)
    requires Trie(maps) && m < |maps|
    ensures !maps[m][ANYOTHERKEY].Submap?
  {
    if maps[m][ANYOTHERKEY].Submap? {
      assert Link(maps, m, ANYOTHERKEY, maps[m][ANYOTHERKEY].id);
    }
  }

  /** The `char` that a key becomes; ANYOTHERKEY truncates to 0. */
  function CharOf(key: nat): Byte {
    if key < 256 then key else 0
  }

  class Dispatcher {
    var maps: Maps
    const ring: Ring
    var typed: seq<Byte>
    var dispatching: nat
    var events: seq<Event>
    var chain: seq<Context>
    var multikey: bool

    constructor (maps: Maps, typed: seq<Byte>)
      requires Trie(maps) && NoLowercase(maps)
      ensures Valid() && fresh(ring) && fresh(ring.ibuffer)
      ensures this.maps == maps && Queue() == typed && ring.contents == [] && events == [] && !multikey
    {
      this.maps, this.typed := maps, typed;
      dispatching, events, chain, multikey := 0, [], [], false;
      ring := new Ring();
    }

    ghost predicate Valid()
      reads this, ring, ring.ibuffer
    {
      Trie(maps) && NoLowercase(maps) && ring.Valid()
    }

    /** The keys to come: those pushed back or typed ahead, then those not yet read. */
    ghost function Queue(): seq<Byte>
      reads this, ring
    {
      ring.contents + typed
    }

    /** `_rl_subseq_getchar`; nothing comes back at the end of input. */
    method Getchar() returns (key: Option<Byte>)
      requires Valid()
      modifies this`typed, ring`popIndex, ring`contents
      ensures Valid()
      ensures if old(Queue()) == [] then key == None && Queue() == []
              else key == Some(old(Queue())[0]) && Queue() == old(Queue())[1..]
      ensures |ring.contents| == if old(ring.contents) == [] then 0 else |old(ring.contents)| - 1
    {
      ghost var waiting, later := ring.contents, typed;
      key := ring.GetChar();
      if key.Some? {
        assert (waiting + later)[1..] == waiting[1..] + later;
      } else {
        assert waiting + later == later;
        if typed != [] {
          key := Some(typed[0]);
          typed := typed[1..];
        }
        assert Queue() == typed;
      }
    }

    method Unget(key: Byte)
      requires Valid() && |ring.contents| < IBUFFER_LEN
      modifies ring`popIndex, ring`contents, ring.ibuffer
      ensures Valid() && Queue() == [key] + old(Queue())
      ensures |ring.contents| == |old(ring.contents)| + 1
    {
      ghost var q := Queue();
      var ok := ring.UngetChar(key);
      assert Queue() == [key] + q;
    }

    /** The entries of `_rl_dispatch_subseq` that are not keymaps. */
    method DispatchLeaf(key: nat, m: nat, got: bool) returns (r: Ret)
      requires Valid() && m < |maps| && key < KEYMAP_SIZE && !maps[m][key].Submap?
      requires key == ANYOTHERKEY ==> maps[m][key].Bound? && maps[m][key].binding.Macro?
      requires maps[m][key].Unbound? ==> |ring.contents| < IBUFFER_LEN
      modifies this`events, this`chain, this`multikey, ring`popIndex, ring`contents, ring.ibuffer
      ensures Valid()
      ensures maps[m][key].Bound? ==>
        && r == Code(0) && Queue() == old(Queue()) && ring.contents == old(ring.contents)
        && events == old(events) + [EventOf(maps[m][key].binding, CharOf(key))]
      ensures maps[m][key].Unbound? ==> events == old(events)
      ensures maps[m][key].Unbound? && (ShadowsSome(maps, m) || got) ==>
        && r == Code(if ShadowsSome(maps, m) then -2 else -1)
        && Queue() == [key] + old(Queue()) && |ring.contents| == |old(ring.contents)| + 1
      ensures maps[m][key].Unbound? && !ShadowsSome(maps, m) && !got ==>
        r == Jump && !multikey && Queue() == old(Queue())
      ensures r.Code? ==> chain == old(chain) && multikey == old(multikey)
    {
      match maps[m][key] {
        case Bound(b) =>
          events := events + [EventOf(b, CharOf(key))];
          return Code(0);
        case Unbound =>
          if maps[m][ANYOTHERKEY] != Unbound {
            AnyIsNoKeymap(maps, m);
            Unget(key);
            return Code(-2);
          } else if got {
            Unget(key);
            return Code(-1);
          } else {
            multikey, chain := false, [];
            return Jump;
          }
      }
    }

    /** `_rl_subseq_result`: go on from what the keymap that `key` leads to returned. */
    method SubseqResult(r0: int, m: nat, key: Byte, got: bool) returns (r: Ret)
      requires Valid() && m < |maps| && (r0 == 0 || r0 == -1 || r0 == -2)
      requires r0 == -2 ==> Link(maps, m, key, dispatching) && dispatching < |maps| && ShadowsSome(maps, dispatching)
      requires r0 == -1 ==> |ring.contents| < IBUFFER_LEN
      modifies this`maps, this`events, this`dispatching, this`chain, this`multikey, ring`popIndex, ring`contents, ring.ibuffer
      ensures Valid() && maps == old(maps) && chain == old(chain) && multikey == old(multikey)
      ensures r0 == -2 ==>
        && r == Code(0) && Queue() == old(Queue()) && ring.contents == old(ring.contents)
        && events == old(events) + ShadowEvent(maps, old(dispatching), key)
      ensures r0 != -2 ==> events == old(events)
      ensures r0 == 0 ==> r == Code(0) && Queue() == old(Queue()) && ring.contents == old(ring.contents)
      ensures r0 == -1 && (ShadowsSome(maps, m) || got) ==>
        && r == Code(if ShadowsSome(maps, m) then -2 else -1) && dispatching == m
        && Queue() == [key] + old(Queue()) && |ring.contents| == |old(ring.contents)| + 1
      ensures r0 == -1 && !ShadowsSome(maps, m) && !got ==> r == Code(-1) && Queue() == old(Queue())
    {
      if r0 == -2 {
        var c := dispatching;
        var shadow := maps[c][ANYOTHERKEY];
        if shadow.Bound? && shadow.binding.Func? {
          r := RunShadow(c, key, m);
        } else {
          r := DispatchLeaf(ANYOTHERKEY, c, false);
        }
      } else if r0 != 0 && maps[m][ANYOTHERKEY] != Unbound {
        AnyIsNoKeymap(maps, m);
        Unget(key);
        dispatching := m;
        r := Code(-2);
      } else if r0 != 0 && got {
        Unget(key);
        dispatching := m;
        r := Code(-1);
      } else {
        r := Code(r0);
      }
    }

    /** Call the function that keymap `c` shadows with the original key, by way of a temporary
        binding in `c` itself. */
    method RunShadow(c: nat, key: Byte, m: nat) returns (r: Ret)
      requires Valid() && c < |maps| && ShadowsSome(maps, c) && maps[c][ANYOTHERKEY].binding.Func?
      modifies this`maps, this`events, this`dispatching, this`chain, this`multikey, ring`popIndex, ring`contents, ring.ibuffer
      ensures Valid() && maps == old(maps) && dispatching == m && chain == old(chain) && multikey == old(multikey)
      ensures r == Code(0) && Queue() == old(Queue()) && ring.contents == old(ring.contents)
      ensures events == old(events) + [EventOf(maps[c][ANYOTHERKEY].binding, key)]
    {
      ghost var maps0 := maps;
      var saved := maps[c][key];
      maps := maps[c := maps[c][key := maps[c][ANYOTHERKEY]]];
      assert maps == SetEntry(maps0, c, key, maps0[c][ANYOTHERKEY]);
      dispatching := m;
      r := DispatchLeaf(key, c, false);
      maps := maps[c := maps[c][key := saved]];
      assert maps[c] == maps0[c];
      assert maps == maps0;
    }

    /** `_rl_dispatch_subseq`, outside callback mode. */
    method DispatchSubseq(key: Byte, m: nat, got: bool) returns (r: Ret, ghost ran: seq<Event>)
      requires Valid() && m < |maps| && dispatching == m
      requires |ring.contents| < IBUFFER_LEN && Walk(maps, m, [key] + Queue()) < IBUFFER_LEN
      modifies this`maps, this`typed, this`events, this`dispatching, this`chain, this`multikey
      modifies ring`popIndex, ring`contents, ring.ibuffer
      ensures Valid() && maps == old(maps) && events == old(events) + ran
      ensures Dispatched(maps, m, [key] + old(Queue()), got, r, Queue(), ran)
      ensures r == Code(-1) || r == Code(-2) ==> dispatching == m
      ensures r.Code? ==>
        |ring.contents| <= |old(ring.contents)| + 1 || |ring.contents| <= Walk(maps, m, [key] + old(Queue())) + 1
      decreases |maps| - m, 1
    {
      ghost var q := Queue();
      if maps[m][key].Submap? {
        assert Link(maps, m, key, maps[m][key].id);
        StreamStep(maps, m, key, q, maps[m][key].id);
        r, ran := DispatchKeymap(key, m, got);
      } else {
        r := DispatchLeaf(key, m, got);
        ran := if maps[m][key].Bound? then [EventOf(maps[m][key].binding, key)] else [];
        assert events == old(events) + ran;
        DispatchedLeaf(maps, m, key, q, got, r, Queue(), ran);
      }
    }

    /** Read another key and dispatch it into keymap `c`. */
    method ReadAndDispatch(c: nat, got: bool) returns (r: Ret, ghost ran: seq<Event>)
      requires Valid() && c < |maps| && dispatching == c
      requires |ring.contents| < IBUFFER_LEN && 1 + Walk(maps, c, Queue()) < IBUFFER_LEN
      modifies this`maps, this`typed, this`events, this`dispatching, this`chain, this`multikey
      modifies ring`popIndex, ring`contents, ring.ibuffer
      ensures Valid() && maps == old(maps) && events == old(events) + ran
      ensures Dispatched(maps, c, old(Queue()), got, r, Queue(), ran)
      ensures r == Code(-1) || r == Code(-2) ==> dispatching == c
      ensures r.Code? ==>
        |ring.contents| <= |old(ring.contents)| || |ring.contents| <= Walk(maps, c, old(Queue())) + 1
      decreases |maps| - c, 2
    {
      ghost var q := Queue();
      var newkey := Getchar();
      if newkey.None? {
        assert events == old(events) + [];
        return Jump, [];
      }
      assert q == [newkey.value] + Queue();
      r, ran := DispatchSubseq(newkey.value, c, got);
    }

    /** The keymap entries of `_rl_dispatch_subseq`. */
    method DispatchKeymap(key: Byte, m: nat, got: bool) returns (r: Ret, ghost ran: seq<Event>)
      requires Valid() && m < |maps| && maps[m][key].Submap? && m < maps[m][key].id < |maps|
      requires |ring.contents| < IBUFFER_LEN && 1 + Walk(maps, maps[m][key].id, Queue()) < IBUFFER_LEN
      modifies this`maps, this`typed, this`events, this`dispatching, this`chain, this`multikey
      modifies ring`popIndex, ring`contents, ring.ibuffer
      ensures Valid() && maps == old(maps) && events == old(events) + ran
      ensures Dispatched(maps, m, [key] + old(Queue()), got, r, Queue(), ran)
      ensures r == Code(-1) || r == Code(-2) ==> dispatching == m
      ensures r.Code? ==>
        |ring.contents| <= |old(ring.contents)| + 1 || |ring.contents| <= Walk(maps, maps[m][key].id, old(Queue())) + 2
      decreases |maps| - m, 0
    {
      hide Reach, Meaning;
      ghost var q := Queue();
      var c := maps[m][key].id;
      dispatching := c;
      var got' := got || maps[m][ANYOTHERKEY] != Unbound;
      AnyIsNoKeymap(maps, m);
      r, ran := ReadAndDispatch(c, got');
      ghost var r1, rest1, ran1 := r, Queue(), ran;
      DispatchedCodes(maps, c, q, got', r1, rest1, ran1);
      if r.Code? {
        r := SubseqResult(r.r, m, key, got);
        ran := ran1 + if r1 == Code(-2) then ShadowEvent(maps, c, key) else [];
        assert events == old(events) + ran;
      }
      DispatchedChild(maps, m, key, q, got, c, r1, rest1, ran1, r, Queue(), ran);
    }

    /** `_rl_dispatch` from a top-level keymap. */
    method Dispatch(key: Byte, root: nat) returns (r: Ret)
      requires Valid() && root < |maps|
      requires |ring.contents| < IBUFFER_LEN && Walk(maps, root, [key] + Queue()) < IBUFFER_LEN
      modifies this`maps, this`typed, this`events, this`dispatching, this`chain, this`multikey
      modifies ring`popIndex, ring`contents, ring.ibuffer
      ensures Valid() && maps == old(maps)
      ensures match RecursiveOutcome(maps, root, [key] + old(Queue()))
        case Ran(event, rest) => r == Code(0) && events == old(events) + [event] && Queue() == rest
        case PushedBack => r == Code(-2) && events == old(events) && Queue() == [key] + old(Queue())
        case Aborted(rest) => r == Jump && events == old(events) && Queue() == rest
      ensures forall j: nat ::
        LongestBound(maps, root, [key] + old(Queue()), j) && !Starved(maps, root, [key] + old(Queue())) ==>
        RanPrefix(root, [key] + old(Queue()), j, r, old(events))
    {
      ghost var s := [key] + Queue();
      dispatching := root;
      ghost var ran;
      r, ran := DispatchSubseq(key, root, false);
      assert ran == [] ==> events == old(events);
      hide RecursiveOutcome, Starved, LongestBound;
      forall j: nat | LongestBound(maps, root, s, j) && !Starved(maps, root, s)
        ensures RanPrefix(root, s, j, r, old(events))
      {
        RunsLongestPrefix(maps, root, s, j);
      }
    }

    /** The first `j` keys of `s` have run: their command with the last of them, or their macro. */
    ghost predicate RanPrefix(root: nat, s: seq<Byte>, j: nat, r: Ret, events0: seq<Event>)
      requires Trie(maps) && root < |maps| && LongestBound(maps, root, s, j)
      reads this, ring
    {
      && r == Code(0) && Queue() == s[j..]
      && match Meaning(maps, root, s[..j]).value
         case Func(id) => events == events0 + [Command(id, s[j - 1])]
         case Macro(id) => events == events0 + [MacroInput(id)]
    }

    // ---- Callback mode ----

    /** `_rl_dispatch_subseq` in callback mode: a keymap is put on the chain. */
    method DispatchSubseqCallback(key: Byte, m: nat, got: bool) returns (r: Ret)
      requires Valid() && m < |maps| && |ring.contents| < IBUFFER_LEN
      requires maps[m][key].Submap? ==> maps[m][key].id < |maps|
      modifies this`events, this`dispatching, this`chain, this`multikey, ring`popIndex, ring`contents, ring.ibuffer
      ensures Valid()
      ensures maps[m][key].Submap? ==>
        var c := maps[m][key].id;
        && r == Code(if old(multikey) then -3 else 0) && multikey && dispatching == c
        && chain == old(chain) + [Context(false, got, key, m, c, got || ShadowsSome(maps, c), 42)]
        && events == old(events) && Queue() == old(Queue()) && ring.contents == old(ring.contents)
      ensures !maps[m][key].Submap? ==> dispatching == old(dispatching)
      ensures maps[m][key].Bound? ==>
        && r == Code(0) && Queue() == old(Queue()) && ring.contents == old(ring.contents)
        && events == old(events) + [EventOf(maps[m][key].binding, key)]
      ensures maps[m][key].Unbound? ==> events == old(events)
      ensures maps[m][key].Unbound? && (ShadowsSome(maps, m) || got) ==>
        && r == Code(if ShadowsSome(maps, m) then -2 else -1)
        && Queue() == [key] + old(Queue()) && |ring.contents| == |old(ring.contents)| + 1
      ensures maps[m][key].Unbound? && !ShadowsSome(maps, m) && !got ==>
        r == Jump && !multikey && Queue() == old(Queue())
      ensures !maps[m][key].Submap? && r.Code? ==> chain == old(chain) && multikey == old(multikey)
    {
      if maps[m][key].Submap? {
        dispatching := maps[m][key].id;
        r := Code(if multikey then -3 else 0);
        AnyIsNoKeymap(maps, dispatching);
        chain := chain + [Context(false, got, key, m, dispatching, got || maps[dispatching][ANYOTHERKEY] != Unbound, 42)];
        multikey := true;
      } else {
        r := DispatchLeaf(key, m, got);
      }
    }

    /** The keys `ks` have led to keymaps, and the top context has still to read a key. */
    ghost predicate Reading(mm: Maps, root: nat, ks: seq<Byte>)
      requires Trie(mm) && root < |mm|
      reads this, ring
    {
      && maps == mm && multikey && Reach(mm, root, ks).Some? && Chained(mm, root, ks, chain, |ks|, false)
      && dispatching == Node(mm, root, ks, |ks|) && |ring.contents| + |ks| - 1 <= IBUFFER_LEN
    }

    /** The keys `q` did not match after `ks`; the chain has been unwound to its first `c` contexts,
        and the top one has `r` to go on from. */
    ghost predicate BackingUp(mm: Maps, root: nat, ks: seq<Byte>, c: nat, q: seq<Byte>, r: int)
      requires Trie(mm) && root < |mm|
      reads this, ring
    {
      && maps == mm && multikey && Reach(mm, root, ks).Some? && Chained(mm, root, ks, chain, c, true)
      && dispatching == Node(mm, root, ks, c) && |ring.contents| + c - 1 <= IBUFFER_LEN
      && Queue() == ks[c..] + q
      && var t := LastShadow(mm, root, ks, |ks|);
         0 < t <= c && r == if c == t then -2 else -1
    }

    ghost predicate Ended(out: Outcome, r: Ret, events0: seq<Event>, s: seq<Byte>)
      reads this, ring
    {
      && !multikey
      && match out
         case Ran(event, rest) => r == Code(0) && events == events0 + [event] && Queue() == rest
         case PushedBack => r == Code(-2) && events == events0 && Queue() == s
         case Aborted(rest) => r == Jump && events == events0 && Queue() == rest
    }

    /** `_rl_subseq_result` for the top context. */
    method ResultOfTop(r0: int, ghost mm: Maps, ghost root: nat, ghost ks: seq<Byte>, ghost c: nat, ghost q: seq<Byte>)
      returns (r: Ret)
      requires Valid() && maps == mm && root < |mm| && BackingUp(mm, root, ks, c, q, r0)
      modifies this`maps, this`events, this`dispatching, this`chain, this`multikey, ring`popIndex, ring`contents, ring.ibuffer
      ensures Valid() && maps == mm && chain == old(chain) && multikey
      ensures var t := LastShadow(mm, root, ks, |ks|);
        if c == t then
          && r == Code(0) && Queue() == old(Queue())
          && events == old(events) + [EventOf(mm[Node(mm, root, ks, t)][ANYOTHERKEY].binding, ks[t - 1])]
        else
          && r == Code(if c - 1 == t then -2 else -1) && events == old(events) && chain[|chain| - 1].subseq
          && dispatching == Node(mm, root, ks, c - 1) && Queue() == ks[c - 1..] + q
          && |ring.contents| == |old(ring.contents)| + 1
    {
      hide Reach, Meaning;
      BackUpStep(mm, root, ks, c);
      var cxt := chain[|chain| - 1];
      assert [ks[c - 1]] + (ks[c..] + q) == ks[c - 1..] + q;
      r := SubseqResult(r0, cxt.oldmap, cxt.okey, cxt.subseq);
    }

    /** The part of `_rl_dispatch_callback` after the result `r0` of the context is known. */
    method ReturnTop(r0: int, ghost mm: Maps, ghost root: nat, ghost ks: seq<Byte>, ghost c: nat, ghost q: seq<Byte>)
      returns (r: Ret)
      requires Valid() && maps == mm && root < |mm| && BackingUp(mm, root, ks, c, q, r0)
      modifies this`maps, this`events, this`dispatching, this`chain, this`multikey, ring`popIndex, ring`contents, ring.ibuffer
      ensures Valid() && maps == mm
      ensures var t := LastShadow(mm, root, ks, |ks|);
        if c == t then
          && r == Code(0) && !multikey && Queue() == old(Queue())
          && events == old(events) + [EventOf(mm[Node(mm, root, ks, t)][ANYOTHERKEY].binding, ks[t - 1])]
        else
          && r.Code? && BackingUp(mm, root, ks, c - 1, q, r.r) && chain[c - 2].childval == r.r
          && events == old(events)
    {
      hide Reach, Meaning, Trie, NoLowercase, LastShadow;
      var cxt := chain[|chain| - 1];
      r := ResultOfTop(r0, mm, root, ks, c, q);
      if r.r >= 0 || (r.r == -1 && !cxt.subseq) {
        chain := [];
        multikey := false;
      } else {
        PopContext(mm, root, ks, chain, c, r.r);
        chain := Popped(chain, r.r);
      }
    }

    /** What has happened after the top context of the path `ks` has read from the queue `q`. */
    ghost predicate AfterReading(mm: Maps, root: nat, ks: seq<Byte>, q: seq<Byte>, r: Ret, events0: seq<Event>)
      requires Trie(mm) && root < |mm| && Reach(mm, root, ks).Some?
      reads this, ring
    {
      var m := Reach(mm, root, ks).value;
      if q == [] then Ended(Aborted([]), r, events0, q)
      else match mm[m][q[0]]
        case Submap(c) =>
          && r == Code(-3) && Reading(mm, root, ks + [q[0]]) && Queue() == q[1..] && events == events0
        case Bound(b) =>
          && r == Code(0) && multikey && Queue() == q[1..] && events == events0 + [EventOf(b, q[0])]
        case Unbound =>
          if LastShadow(mm, root, ks, |ks|) == 0 then Ended(Aborted(q[1..]), r, events0, q)
          else r.Code? && BackingUp(mm, root, ks, |ks|, q, r.r) && events == events0
    }

    /** The top context dispatches the key it has read. */
    method UseFor(k: Byte, ghost mm: Maps, ghost root: nat, ghost ks: seq<Byte>) returns (r: Ret)
      requires Valid() && maps == mm && root < |mm| && multikey && Reach(mm, root, ks) == Some(dispatching)
      requires Chained(mm, root, ks, chain, |ks|, false) && |ring.contents| + |ks| <= IBUFFER_LEN
      modifies this`events, this`dispatching, this`chain, this`multikey, ring`popIndex, ring`contents, ring.ibuffer
      ensures Valid() && AfterReading(mm, root, ks, [k] + old(Queue()), r, old(events))
    {
      hide Reach, Meaning;
      ghost var m, chain0, q := dispatching, chain, [k] + Queue();
      var n := |chain| - 1;
      var cxt := chain[n];
      if mm[m][k].Submap? {
        assert Link(mm, m, k, mm[m][k].id);
      }
      r := DispatchSubseqCallback(k, cxt.dmap, cxt.subseqArg);
      if mm[m][k].Submap? {
        UseAndPush(mm, root, ks, chain0, m, k, chain[n + 1]);
      } else {
        UseTop(mm, root, ks, chain0);
        assert ks[|ks|..] + q == q;
      }
      if r.Code? {
        chain := MarkUsed(chain, n);
      }
      assert q[1..] == old(Queue());
    }

    /** The first use of the top context: read a key and dispatch it. */
    method FirstUse(ghost mm: Maps, ghost root: nat, ghost ks: seq<Byte>) returns (r: Ret)
      requires Valid() && maps == mm && root < |mm| && Reading(mm, root, ks) && |ks| < IBUFFER_LEN
      modifies this`typed, this`events, this`dispatching, this`chain, this`multikey, ring`popIndex, ring`contents, ring.ibuffer
      ensures Valid() && maps == mm && AfterReading(mm, root, ks, old(Queue()), r, old(events))
    {
      var nkey := Getchar();
      if nkey.None? {
        multikey := false;
        r := Jump;
      } else {
        assert old(Queue()) == [nkey.value] + Queue();
        assert ks[..|ks|] == ks;
        r := UseFor(nkey.value, mm, root, ks);
      }
    }

    /** `_rl_dispatch_callback` for a context that has to read a key. */
    method DispatchUnused(ghost mm: Maps, ghost root: nat, ghost ks: seq<Byte>) returns (r: Ret)
      requires Valid() && maps == mm && root < |mm| && Reading(mm, root, ks) && |ks| < IBUFFER_LEN
      modifies this`maps, this`typed, this`events, this`dispatching, this`chain, this`multikey
      modifies ring`popIndex, ring`contents, ring.ibuffer
      ensures Valid() && maps == mm
      ensures var q, m, t := old(Queue()), Reach(mm, root, ks).value, LastShadow(mm, root, ks, |ks|);
        if q != [] && mm[m][q[0]].Submap? then
          r == Code(-3) && Reading(mm, root, ks + [q[0]]) && Queue() == q[1..] && events == old(events)
        else if q != [] && mm[m][q[0]].Unbound? && 0 < t < |ks| then
          && r.Code? && BackingUp(mm, root, ks, |ks| - 1, q, r.r) && chain[|ks| - 2].childval == r.r
          && events == old(events)
        else Ended(ChainOutcome(mm, root, ks + q), r, old(events), ks + q)
    {
      hide Reach, Meaning, Starved, Best, Walk, ChainOutcome, NoLowercase, LastShadow, Node, ContextOf;
      ghost var q, m, t := Queue(), Reach(mm, root, ks).value, LastShadow(mm, root, ks, |ks|);
      r := FirstUse(mm, root, ks);
      if q == [] {
        ChainStarves(mm, root, ks, m);
      } else if mm[m][q[0]].Bound? {
        ChainMatches(mm, root, ks, q, m);
      } else if mm[m][q[0]].Unbound? {
        ChainBacksUp(mm, root, ks, q, m, t);
      }
      if r.Jump? {
        return;
      }
      if r.r == -3 {
        RecordChildval(mm, root, ks + [q[0]], chain, |ks| + 1, false, -3);
        chain := WithChildval(chain, -3);
      } else if r.r == 0 {
        chain, multikey := [], false;
      } else {
        r := ReturnTop(r.r, mm, root, ks, |ks|, q);
      }
    }

    /** The chain unwinds: each context in turn goes on from the result of the one above it. */
    method Unwind(r0: Ret, ghost mm: Maps, ghost root: nat, ghost ks: seq<Byte>, ghost c0: nat, ghost q: seq<Byte>)
      returns (r: Ret)
      requires Valid() && maps == mm && root < |mm| && r0.Code? && BackingUp(mm, root, ks, c0, q, r0.r) && c0 < |ks|
      requires q != [] && mm[Reach(mm, root, ks).value][q[0]].Unbound? && chain[c0 - 1].childval == r0.r
      modifies this`maps, this`typed, this`events, this`dispatching, this`chain, this`multikey
      modifies ring`popIndex, ring`contents, ring.ibuffer
      ensures Valid() && maps == mm
      ensures Ended(ChainOutcome(mm, root, ks + q), r, old(events), ks + q)
    {
      hide Reach, Meaning, Starved, Best, Walk, ChainOutcome, Node, ContextOf, Trie, NoLowercase, LastShadow;
      ghost var c := c0;
      ghost var t := LastShadow(mm, root, ks, |ks|);
      ghost var out := ChainOutcome(mm, root, ks + q);
      ChainBacksUp(mm, root, ks, q, Reach(mm, root, ks).value, t);
      assert out.Ran?;
      r := r0;
      while (r == Code(-1) || r == Code(-2)) && multikey && chain != [] && chain[|chain| - 1].dispatched
        invariant Valid() && maps == mm
        invariant if multikey
          then r.Code? && BackingUp(mm, root, ks, c, q, r.r) && chain[c - 1].childval == r.r && events == old(events)
          else Ended(out, r, old(events), ks + q)
        decreases c
      {
        r := ReturnTop(chain[|chain| - 1].childval, mm, root, ks, c, q);
        c := c - 1;
      }
    }

    /** The RL_STATE_MULTIKEY branch of `rl_callback_read_char`. */
    method ReadChar(ghost mm: Maps, ghost root: nat, ghost ks: seq<Byte>) returns (r: Ret)
      requires Valid() && maps == mm && root < |mm| && Reading(mm, root, ks) && |ks| < IBUFFER_LEN
      modifies this`maps, this`typed, this`events, this`dispatching, this`chain, this`multikey
      modifies ring`popIndex, ring`contents, ring.ibuffer
      ensures Valid() && maps == mm
      ensures var q, m := old(Queue()), Reach(mm, root, ks).value;
        if q != [] && mm[m][q[0]].Submap? then
          Reading(mm, root, ks + [q[0]]) && Queue() == q[1..] && events == old(events)
        else Ended(ChainOutcome(mm, root, ks + q), r, old(events), ks + q)
    {
      ghost var q := Queue();
      r := DispatchUnused(mm, root, ks);
      if (r == Code(-1) || r == Code(-2)) && multikey {
        r := Unwind(r, mm, root, ks, |ks| - 1, q);
      }
    }

    /** `_rl_dispatch` in callback mode. */
    method StartSequence(key: Byte, root: nat) returns (r: Ret)
      requires Valid() && root < |maps| && !multikey && chain == []
      requires |ring.contents| < IBUFFER_LEN
      modifies this`events, this`dispatching, this`chain, this`multikey, ring`popIndex, ring`contents, ring.ibuffer
      ensures Valid()
      ensures var s := [key] + old(Queue());
        if multikey then Reading(maps, root, [key]) && Queue() == old(Queue()) && events == old(events)
        else Ended(ChainOutcome(maps, root, s), r, old(events), s)
    {
      hide Reach, Meaning, Starved, Best, ChainOutcome;
      dispatching := root;
      if maps[root][key].Submap? {
        assert Link(maps, root, key, maps[root][key].id);
        StartChain(maps, root, key, maps[root][key].id);
      } else {
        StartLeaf(maps, root, key, Queue());
      }
      r := DispatchSubseqCallback(key, root, false);
    }

    /** Dispatch `key` in callback mode and serve the reader until the sequence is done. */
    method DispatchByCallbacks(key: Byte, root: nat) returns (r: Ret)
      requires Valid() && root < |maps| && !multikey && chain == []
      requires |ring.contents| < IBUFFER_LEN && Walk(maps, root, [key] + Queue()) < IBUFFER_LEN
      modifies this`maps, this`typed, this`events, this`dispatching, this`chain, this`multikey
      modifies ring`popIndex, ring`contents, ring.ibuffer
      ensures Valid() && maps == old(maps)
      ensures Ended(ChainOutcome(maps, root, [key] + old(Queue())), r, old(events), [key] + old(Queue()))
      ensures forall j: nat ::
        LongestBound(maps, root, [key] + old(Queue()), j) && !Starved(maps, root, [key] + old(Queue())) ==>
        RanPrefix(root, [key] + old(Queue()), j, r, old(events))
    {
      hide Reach, Meaning, Starved, Best, Walk, ChainOutcome, RecursiveOutcome, Chained, Node, LongestBound;
      ghost var mm, s, ks := maps, [key] + Queue(), [key];
      ghost var out := ChainOutcome(mm, root, s);
      r := StartSequence(key, root);
      while multikey
        invariant Valid() && maps == mm
        invariant if multikey
          then Reading(mm, root, ks) && s == ks + Queue() && events == old(events)
          else Ended(out, r, old(events), s)
        decreases multikey, |Queue()|
      {
        PathFits(mm, root, ks, Queue());
        ghost var q := Queue();
        r := ReadChar(mm, root, ks);
        if multikey {
          MoveKey(ks, q);
          ks := ks + [q[0]];
        }
      }
      forall j: nat | LongestBound(maps, root, s, j) && !Starved(maps, root, s)
        ensures RanPrefix(root, s, j, r, old(events))
      {
        RunsLongestPrefix(maps, root, s, j);
      }
    }
  }

  lemma MoveKey(ks: seq<Byte>, q: seq<Byte>)
    requires q != []
    ensures ks + q == ks + [q[0]] + q[1..]
  {
  }
}
