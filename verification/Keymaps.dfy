/** Key bindings (readline/bind.c). Keymaps are 257-entry tables linked into a trie; a keymap
    pointer is an index into the store of all keymaps allocated so far. */
module Keymaps {
  import opened Chars

  const KEYMAP_SIZE := 257
  const ANYOTHERKEY := 256

  /** What a key sequence can be bound to. Functions and macros are known by their addresses. */
  datatype Binding = Func(id: nat) | Macro(id: nat)

  const DO_LOWERCASE := Func(0)
  const NULL_FUNCTION := Func(1)

  /** A table entry: a null function, a function or macro, or a keymap. */
  datatype Entry = Unbound | Bound(binding: Binding) | Submap(id: nat)

  type Maps = seq<seq<Entry>>

  /** The table that `rl_make_bare_keymap` allocates. */
  function Bare(): (m: seq<Entry>)
    ensures |m| == KEYMAP_SIZE && forall k :: 0 <= k < KEYMAP_SIZE ==> m[k] == Unbound
  {
    seq(KEYMAP_SIZE, _ => Unbound)
  }

  predicate Tables(maps: Maps) {
    forall m :: 0 <= m < |maps| ==> |maps[m]| == KEYMAP_SIZE
  }

  /** Key `k` of keymap `m` holds a pointer to keymap `c`. */
  ghost predicate Link(maps: Maps, m: nat, k: nat, c: nat)
    requires Tables(maps)
  {
    m < |maps| && k < KEYMAP_SIZE && maps[m][k] == Submap(c)
  }

  /** Links lead to keymaps allocated later, and never from ANYOTHERKEY. */
  ghost predicate Ordered(maps: Maps)
    requires Tables(maps)
  {
    forall m: nat, k: nat, c: nat | Link(maps, m, k, c) :: m < c < |maps| && k != ANYOTHERKEY
  }

  /** No keymap is linked from two places. */
  ghost predicate Unshared(maps: Maps)
    requires Tables(maps)
  {
    forall m: nat, k: nat, m': nat, k': nat, c: nat | Link(maps, m, k, c) && Link(maps, m', k', c) :: m == m' && k == k'
  }

  ghost predicate Trie(maps: Maps) {
    Tables(maps) && Ordered(maps) && Unshared(maps)
  }

  function BindingOf(e: Entry): Option<Binding> {
    if e.Bound? then Some(e.binding) else None
  }

  /** The keymap that the keys `p` lead to from `root`. */
  ghost function Reach(maps: Maps, root: nat, p: seq<Byte>): (r: Option<nat>)
    requires Trie(maps) && root < |maps|
    ensures r.Some? ==> root + |p| <= r.value < |maps|
  {
    if p == [] then Some(root)
    else
      var front := Reach(maps, root, p[..|p| - 1]);
      if front.Some? && maps[front.value][p[|p| - 1]].Submap? then
        var child := maps[front.value][p[|p| - 1]].id;
        assert Link(maps, front.value, p[|p| - 1], child);
        Some(child)
      else None
  }

  /** The trie read as a map from key sequences to bindings. A sequence that leads to a keymap is
      bound by that keymap's ANYOTHERKEY entry. */
  ghost function Meaning(maps: Maps, root: nat, ks: seq<Byte>): Option<Binding>
    requires Trie(maps) && root < |maps|
  {
    var here := Reach(maps, root, ks);
    if here.Some? then BindingOf(maps[here.value][ANYOTHERKEY])
    else
      var front := Reach(maps, root, ks[..|ks| - 1]);
      if front.Some? then BindingOf(maps[front.value][ks[|ks| - 1]]) else None
  }

  /** Without sharing, a keymap is reached along one path only. */
  lemma {:induction false} ReachInjective(maps: Maps, root: nat, p: seq<Byte>, q: seq<Byte>)
    requires Trie(maps) && root < |maps|
    requires Reach(maps, root, p).Some? && Reach(maps, root, p) == Reach(maps, root, q)
    ensures p == q
  {
    if p != [] && q != [] {
      var m, m' := Reach(maps, root, p[..|p| - 1]).value, Reach(maps, root, q[..|q| - 1]).value;
      assert Link(maps, m, p[|p| - 1], Reach(maps, root, p).value);
      assert Link(maps, m', q[|q| - 1], Reach(maps, root, q).value);
      ReachInjective(maps, root, p[..|p| - 1], q[..|q| - 1]);
      assert p == p[..|p| - 1] + [p[|p| - 1]];
      assert q == q[..|q| - 1] + [q[|q| - 1]];
    }
  }

  lemma ReachSnoc(maps: Maps, root: nat, p: seq<Byte>, k: Byte)
    requires Trie(maps) && root < |maps|
    ensures Reach(maps, root, p + [k]) ==
            if Reach(maps, root, p).Some? && maps[Reach(maps, root, p).value][k].Submap?
            then Some(maps[Reach(maps, root, p).value][k].id) else None
  {
    assert (p + [k])[..|p|] == p;
  }

  // ---- Walking the trie from the front ----

  lemma {:induction false} ReachCons(maps: Maps, root: nat, k: Byte, p: seq<Byte>)
    requires Trie(maps) && root < |maps|
    ensures maps[root][k].Submap? ==> maps[root][k].id < |maps|
    ensures Reach(maps, root, [k] + p) ==
            if maps[root][k].Submap? then Reach(maps, maps[root][k].id, p) else None
    decreases |p|
  {
    if maps[root][k].Submap? {
      assert Link(maps, root, k, maps[root][k].id);
    }
    if p == [] {
      ReachSnoc(maps, root, [], k);
      assert [] + [k] == [k] + [];
    } else {
      var front, last := p[..|p| - 1], p[|p| - 1];
      ReachCons(maps, root, k, front);
      assert [k] + p == ([k] + front) + [last];
      ReachSnoc(maps, root, [k] + front, last);
    }
  }

  lemma MeaningNil(maps: Maps, root: nat)
    requires Trie(maps) && root < |maps|
    ensures Meaning(maps, root, []) == BindingOf(maps[root][ANYOTHERKEY])
  {
  }

  lemma {:induction false} MeaningCons(maps: Maps, root: nat, k: Byte, ks: seq<Byte>)
    requires Trie(maps) && root < |maps|
    ensures maps[root][k].Submap? ==> root < maps[root][k].id < |maps|
    ensures Meaning(maps, root, [k] + ks) ==
            if maps[root][k].Submap? then Meaning(maps, maps[root][k].id, ks)
            else if ks == [] then BindingOf(maps[root][k]) else None
  {
    if maps[root][k].Submap? {
      assert Link(maps, root, k, maps[root][k].id);
    }
    ReachCons(maps, root, k, ks);
    var s := [k] + ks;
    if ks == [] {
      assert s[..0] == [];
    } else {
      assert s[..|s| - 1] == [k] + ks[..|ks| - 1];
      ReachCons(maps, root, k, ks[..|ks| - 1]);
    }
  }

  // ---- One table entry changes between bound and unbound ----

  ghost function SetEntry(maps: Maps, n: nat, k: nat, e: Entry): (maps': Maps)
    requires Trie(maps) && n < |maps| && k < KEYMAP_SIZE && !e.Submap?
    ensures Trie(maps') && |maps'| == |maps|
  {
    var maps' := maps[n := maps[n][k := e]];
    assert forall m: nat, k: nat, c: nat :: Link(maps', m, k, c) ==> Link(maps, m, k, c);
    maps'
  }

  lemma {:induction false} SetEntryReach(maps: Maps, n: nat, k: nat, e: Entry, root: nat, p: seq<Byte>)
    requires Trie(maps) && n < |maps| && k < KEYMAP_SIZE && root < |maps|
    requires !maps[n][k].Submap? && !e.Submap?
    ensures Reach(SetEntry(maps, n, k, e), root, p) == Reach(maps, root, p)
  {
    if p != [] {
      SetEntryReach(maps, n, k, e, root, p[..|p| - 1]);
    }
  }

  /** Setting the entry of key `k` in the keymap reached by `p` rebinds exactly one sequence. */
  lemma {:induction false} SetEntryMeaning(maps: Maps, n: nat, k: nat, e: Entry, root: nat, p: seq<Byte>, ks: seq<Byte>)
    requires Trie(maps) && n < |maps| && k < KEYMAP_SIZE && root < |maps|
    requires !maps[n][k].Submap? && !e.Submap?
    requires Reach(maps, root, p) == Some(n)
    ensures Meaning(SetEntry(maps, n, k, e), root, ks) ==
            if ks == (if k == ANYOTHERKEY then p else p + [k]) then BindingOf(e)
            else Meaning(maps, root, ks)
  {
    SetEntryReach(maps, n, k, e, root, ks);
    if Reach(maps, root, ks).Some? {
      if Reach(maps, root, ks).value == n {
        ReachInjective(maps, root, ks, p);
      } else if k != ANYOTHERKEY {
        ReachSnoc(maps, root, p, k);
      }
    } else {
      var front, last := ks[..|ks| - 1], ks[|ks| - 1];
      SetEntryReach(maps, n, k, e, root, front);
      assert ks == front + [last] && (ks == p + [k] ==> front == p);
      if Reach(maps, root, front) == Some(n) {
        ReachInjective(maps, root, front, p);
      }
    }
  }

  // ---- A new keymap takes the place of a bound or unbound entry ----

  /** `map[k]` becomes a bare keymap whose ANYOTHERKEY entry is `shadow`. */
  ghost function AddKeymap(maps: Maps, n: nat, k: Byte, shadow: Entry): (maps': Maps)
    requires Trie(maps) && n < |maps| && !maps[n][k].Submap? && !shadow.Submap?
    ensures Trie(maps') && |maps'| == |maps| + 1
  {
    var maps' := maps[n := maps[n][k := Submap(|maps|)]] + [Bare()[ANYOTHERKEY := shadow]];
    assert forall m: nat, j: nat, c: nat :: Link(maps', m, j, c) ==> (m, j, c) == (n, k, |maps|) || Link(maps, m, j, c);
    maps'
  }

  lemma {:induction false} AddKeymapReach(maps: Maps, n: nat, k: Byte, shadow: Entry, root: nat, p: seq<Byte>,
                                          q: seq<Byte>)
    requires Trie(maps) && n < |maps| && root < |maps| && !maps[n][k].Submap? && !shadow.Submap?
    requires Reach(maps, root, p) == Some(n)
    ensures Reach(AddKeymap(maps, n, k, shadow), root, q) ==
            if q == p + [k] then Some(|maps|) else Reach(maps, root, q)
  {
    var maps' := AddKeymap(maps, n, k, shadow);
    if q != [] {
      var front := q[..|q| - 1];
      assert q == front + [q[|q| - 1]];
      AddKeymapReach(maps, n, k, shadow, root, p, front);
      if front == p + [k] {
        ReachSnoc(maps, root, p, k);
        assert maps'[|maps|][q[|q| - 1]] == Unbound;
      } else if Reach(maps, root, front) == Some(n) {
        ReachInjective(maps, root, front, p);
      }
    }
  }

  /** A new keymap changes the meaning of no sequence but the one it is linked at. */
  lemma {:induction false} AddKeymapMeaning(maps: Maps, n: nat, k: Byte, shadow: Entry, root: nat, p: seq<Byte>,
                                            ks: seq<Byte>)
    requires Trie(maps) && n < |maps| && root < |maps| && !maps[n][k].Submap? && !shadow.Submap?
    requires Reach(maps, root, p) == Some(n)
    ensures Meaning(AddKeymap(maps, n, k, shadow), root, ks) ==
            if ks == p + [k] then BindingOf(shadow) else Meaning(maps, root, ks)
  {
    var maps' := AddKeymap(maps, n, k, shadow);
    AddKeymapReach(maps, n, k, shadow, root, p, ks);
    if ks == p + [k] {
      assert maps'[|maps|][ANYOTHERKEY] == shadow;
    } else if Reach(maps, root, ks).None? {
      var front, last := ks[..|ks| - 1], ks[|ks| - 1];
      assert ks == front + [last];
      AddKeymapReach(maps, n, k, shadow, root, p, front);
      if front == p + [k] {
        ReachSnoc(maps, root, p, k);
        assert maps'[|maps|][last] == Unbound;
      } else if Reach(maps, root, front) == Some(n) {
        ReachInjective(maps, root, front, p);
        assert last != k;
      }
    }
  }

  // ---- rl_generic_bind ----

  /** A binding to rl_do_lowercase_version is not kept when a keymap takes its place. */
  ghost predicate Dropped(maps: Maps, root: nat, keys: seq<Byte>, ks: seq<Byte>)
    requires Trie(maps) && root < |maps|
  {
    ks < keys && Reach(maps, root, ks).None? && Meaning(maps, root, ks) == Some(DO_LOWERCASE)
  }

  /** Unbinding a sequence that leads to a keymap binds it to a function that does nothing. */
  ghost function NewBinding(maps: Maps, root: nat, keys: seq<Byte>, data: Option<Binding>): Option<Binding>
    requires Trie(maps) && root < |maps|
  {
    if data == None && Reach(maps, root, keys).Some? then Some(NULL_FUNCTION) else data
  }

  /** The walk of `rl_generic_bind` after `i` keys: only prefixes of these keys have been touched. */
  ghost predicate Descended(maps0: Maps, maps: Maps, root: nat, keys: seq<Byte>, i: nat)
    requires Trie(maps0) && root < |maps0| && Trie(maps) && root < |maps| && i <= |keys|
  {
    && (forall q :: Reach(maps, root, q) == Reach(maps0, root, q) || (q != [] && q <= keys[..i]))
    && (forall ks :: Meaning(maps, root, ks) ==
          if Dropped(maps0, root, keys, ks) && |ks| <= i then None else Meaning(maps0, root, ks))
  }

  /** A sequence of length `i + 1` that is dropped is the prefix of that length. */
  lemma DroppedPrefix(maps0: Maps, root: nat, keys: seq<Byte>, i: nat, ks: seq<Byte>)
    requires Trie(maps0) && root < |maps0| && i < |keys|
    requires Dropped(maps0, root, keys, ks) && |ks| == i + 1
    ensures ks == keys[..i] + [keys[i]]
  {
  }

  lemma DescendLinked(maps0: Maps, maps: Maps, root: nat, keys: seq<Byte>, i: nat, n: nat, c: nat)
    requires Trie(maps0) && root < |maps0| && Trie(maps) && root < |maps| && i + 1 < |keys|
    requires Descended(maps0, maps, root, keys, i) && Reach(maps, root, keys[..i]) == Some(n)
    requires Link(maps, n, keys[i], c)
    ensures Descended(maps0, maps, root, keys, i + 1) && Reach(maps, root, keys[..i + 1]) == Some(c)
  {
    var p, k := keys[..i], keys[i];
    assert keys[..i + 1] == p + [k];
    ReachSnoc(maps, root, p, k);
    assert Reach(maps, root, p + [k]) == Reach(maps0, root, p + [k]);
    forall ks
      ensures Meaning(maps, root, ks) ==
        if Dropped(maps0, root, keys, ks) && |ks| <= i + 1 then None else Meaning(maps0, root, ks)
    {
      if Dropped(maps0, root, keys, ks) && |ks| == i + 1 {
        DroppedPrefix(maps0, root, keys, i, ks);
      }
    }
  }

  lemma DescendReach(maps0: Maps, maps: Maps, root: nat, keys: seq<Byte>, i: nat, n: nat, shadow: Entry)
    requires Trie(maps0) && root < |maps0| && Trie(maps) && root < |maps| && i + 1 < |keys|
    requires Descended(maps0, maps, root, keys, i) && Reach(maps, root, keys[..i]) == Some(n)
    requires !maps[n][keys[i]].Submap? && !shadow.Submap?
    ensures var maps' := AddKeymap(maps, n, keys[i], shadow);
      && Reach(maps', root, keys[..i + 1]) == Some(|maps|)
      && forall q :: Reach(maps', root, q) == Reach(maps0, root, q) || (q != [] && q <= keys[..i + 1])
  {
    var p, k := keys[..i], keys[i];
    assert keys[..i + 1] == p + [k];
    var maps' := AddKeymap(maps, n, k, shadow);
    AddKeymapReach(maps, n, k, shadow, root, p, p + [k]);
    forall q
      ensures Reach(maps', root, q) == Reach(maps0, root, q) || (q != [] && q <= keys[..i + 1])
    {
      AddKeymapReach(maps, n, k, shadow, root, p, q);
    }
  }

  lemma DescendMeaning(maps0: Maps, maps: Maps, root: nat, keys: seq<Byte>, i: nat, n: nat, shadow: Entry, ks: seq<Byte>)
    requires Trie(maps0) && root < |maps0| && Trie(maps) && root < |maps| && i + 1 < |keys|
    requires Reach(maps, root, keys[..i]) == Some(n) && !maps[n][keys[i]].Submap?
    requires shadow == if maps[n][keys[i]] == Bound(DO_LOWERCASE) then Unbound else maps[n][keys[i]]
    requires Reach(maps, root, keys[..i + 1]) == Reach(maps0, root, keys[..i + 1])
    requires Meaning(maps, root, keys[..i + 1]) == Meaning(maps0, root, keys[..i + 1])
    requires Meaning(maps, root, ks) ==
      if Dropped(maps0, root, keys, ks) && |ks| <= i then None else Meaning(maps0, root, ks)
    ensures Meaning(AddKeymap(maps, n, keys[i], shadow), root, ks) ==
      if Dropped(maps0, root, keys, ks) && |ks| <= i + 1 then None else Meaning(maps0, root, ks)
  {
    hide Reach, AddKeymap;
    var p, k := keys[..i], keys[i];
    var here := p + [k];
    assert keys[..i + 1] == here && here[..|here| - 1] == p && here < keys;
    ReachSnoc(maps, root, p, k);
    assert Meaning(maps, root, here) == BindingOf(maps[n][k]);
    AddKeymapMeaning(maps, n, k, shadow, root, p, ks);
    if Dropped(maps0, root, keys, ks) && |ks| == i + 1 {
      DroppedPrefix(maps0, root, keys, i, ks);
    }
  }

  lemma DescendNew(maps0: Maps, maps: Maps, root: nat, keys: seq<Byte>, i: nat, n: nat, shadow: Entry)
    requires Trie(maps0) && root < |maps0| && Trie(maps) && root < |maps| && i + 1 < |keys|
    requires Descended(maps0, maps, root, keys, i) && Reach(maps, root, keys[..i]) == Some(n)
    requires !maps[n][keys[i]].Submap?
    requires shadow == if maps[n][keys[i]] == Bound(DO_LOWERCASE) then Unbound else maps[n][keys[i]]
    ensures var maps' := AddKeymap(maps, n, keys[i], shadow);
      Descended(maps0, maps', root, keys, i + 1) && Reach(maps', root, keys[..i + 1]) == Some(|maps|)
  {
    DescendReach(maps0, maps, root, keys, i, n, shadow);
    assert !(keys[..i + 1] <= keys[..i]);
    var maps' := AddKeymap(maps, n, keys[i], shadow);
    forall ks
      ensures Meaning(maps', root, ks) ==
        if Dropped(maps0, root, keys, ks) && |ks| <= i + 1 then None else Meaning(maps0, root, ks)
    {
      DescendMeaning(maps0, maps, root, keys, i, n, shadow, ks);
    }
  }

  /** Every sequence keeps its meaning but `keys` itself, and prefixes whose binding is dropped. */
  ghost predicate Rebound(maps0: Maps, maps: Maps, root: nat, keys: seq<Byte>, data: Option<Binding>)
    requires Trie(maps0) && root < |maps0| && Trie(maps) && root < |maps|
  {
    forall ks :: Meaning(maps, root, ks) == (
      if ks == keys then NewBinding(maps0, root, keys, data)
      else if Dropped(maps0, root, keys, ks) then None
      else Meaning(maps0, root, ks))
  }

  function EntryOf(data: Option<Binding>): (e: Entry)
    ensures !e.Submap? && BindingOf(e) == data
  {
    if data.Some? then Bound(data.value) else Unbound
  }

  /** The last key leads to an entry that is not a keymap. */
  lemma BindEntry(maps0: Maps, maps: Maps, root: nat, keys: seq<Byte>, n: nat, data: Option<Binding>)
    requires Trie(maps0) && root < |maps0| && Trie(maps) && root < |maps| && 0 < |keys|
    requires Descended(maps0, maps, root, keys, |keys| - 1)
    requires Reach(maps, root, keys[..|keys| - 1]) == Some(n) && !maps[n][keys[|keys| - 1]].Submap?
    ensures Rebound(maps0, SetEntry(maps, n, keys[|keys| - 1], EntryOf(data)), root, keys, data)
  {
    var p, k := keys[..|keys| - 1], keys[|keys| - 1];
    assert keys == p + [k];
    ReachSnoc(maps, root, p, k);
    assert Reach(maps, root, keys) == Reach(maps0, root, keys);
    var maps' := SetEntry(maps, n, k, EntryOf(data));
    forall ks
      ensures Meaning(maps', root, ks) == (
        if ks == keys then NewBinding(maps0, root, keys, data)
        else if Dropped(maps0, root, keys, ks) then None
        else Meaning(maps0, root, ks))
    {
      SetEntryMeaning(maps, n, k, EntryOf(data), root, p, ks);
    }
  }

  /** The last key leads to a keymap, whose ANYOTHERKEY entry is bound instead. */
  lemma BindShadow(maps0: Maps, maps: Maps, root: nat, keys: seq<Byte>, n: nat, c: nat, data: Option<Binding>)
    requires Trie(maps0) && root < |maps0| && Trie(maps) && root < |maps| && 0 < |keys|
    requires Descended(maps0, maps, root, keys, |keys| - 1)
    requires Reach(maps, root, keys[..|keys| - 1]) == Some(n) && Link(maps, n, keys[|keys| - 1], c)
    ensures !maps[c][ANYOTHERKEY].Submap?
    ensures
      var bound := if data.None? then Some(NULL_FUNCTION) else data;
      Rebound(maps0, SetEntry(maps, c, ANYOTHERKEY, EntryOf(bound)), root, keys, data)
  {
    var p, k := keys[..|keys| - 1], keys[|keys| - 1];
    assert keys == p + [k];
    ReachSnoc(maps, root, p, k);
    assert Reach(maps, root, keys) == Reach(maps0, root, keys) == Some(c);
    if maps[c][ANYOTHERKEY].Submap? {
      assert Link(maps, c, ANYOTHERKEY, maps[c][ANYOTHERKEY].id);
    }
    var bound := if data.None? then Some(NULL_FUNCTION) else data;
    var maps' := SetEntry(maps, c, ANYOTHERKEY, EntryOf(bound));
    forall ks
      ensures Meaning(maps', root, ks) == (
        if ks == keys then NewBinding(maps0, root, keys, data)
        else if Dropped(maps0, root, keys, ks) then None
        else Meaning(maps0, root, ks))
    {
      SetEntryMeaning(maps, c, ANYOTHERKEY, EntryOf(bound), root, keys, ks);
    }
  }

  /** Every sequence but `keys` keeps its meaning. */
  ghost predicate OneKeyUpdate(maps0: Maps, maps: Maps, root: nat, keys: seq<Byte>, data: Option<Binding>)
    requires Trie(maps0) && root < |maps0| && Trie(maps) && root < |maps|
  {
    forall ks :: Meaning(maps, root, ks) ==
      if ks == keys then NewBinding(maps0, root, keys, data) else Meaning(maps0, root, ks)
  }

  /** Binding is a one-key update of the meaning exactly when no proper prefix of the keys is
      bound, outside a keymap, to rl_do_lowercase_version. */
  lemma BindIsUpdate(maps0: Maps, maps: Maps, root: nat, keys: seq<Byte>, data: Option<Binding>)
    requires Trie(maps0) && root < |maps0| && Trie(maps) && root < |maps|
    requires Rebound(maps0, maps, root, keys, data)
    ensures OneKeyUpdate(maps0, maps, root, keys, data) <==> forall ks :: !Dropped(maps0, root, keys, ks)
  {
    if ks :| Dropped(maps0, root, keys, ks) {
      assert Meaning(maps, root, ks) == None != Meaning(maps0, root, ks);
    }
  }

  /** A keymap that binds `a` to rl_do_lowercase_version. */
  function LowercaseMaps(): (maps: Maps)
    ensures Trie(maps) && |maps| == 1
  {
    [Bare()[97 := Bound(DO_LOWERCASE)]]
  }

  /** Binding `a b` in it leaves `a` unbound. */
  lemma LowercaseIsLost(maps: Maps, data: Option<Binding>)
    requires Trie(maps) && |maps| > 0 && Rebound(LowercaseMaps(), maps, 0, [97, 98], data)
    ensures Meaning(LowercaseMaps(), 0, [97]) == Some(DO_LOWERCASE) && Meaning(maps, 0, [97]) == None
    ensures !OneKeyUpdate(LowercaseMaps(), maps, 0, [97, 98], data)
  {
    var maps0 := LowercaseMaps();
    ReachSnoc(maps0, 0, [], 97);
    assert [] + [97] == [97];
    MeaningCons(maps0, 0, 97, []);
    assert [97] + [] == [97];
    assert [97] < [97, 98];
    assert Dropped(maps0, 0, [97, 98], [97]);
  }

  // ---- Runs of rl_generic_bind ----

  datatype Bind = Bind(keys: seq<Byte>, data: Binding)

  /** The keymaps before and after each of a run of bindings. */
  ghost predicate BindRun(states: seq<Maps>, root: nat, binds: seq<Bind>) {
    && |states| == |binds| + 1
    && (forall i :: 0 <= i < |states| ==> Trie(states[i]) && root < |states[i]|)
    && forall i :: 0 <= i < |binds| ==> Bound1(states, root, binds, i)
  }

  ghost predicate Bound1(states: seq<Maps>, root: nat, binds: seq<Bind>, i: nat)
    requires i < |binds| && |states| == |binds| + 1
    requires Trie(states[i]) && root < |states[i]| && Trie(states[i + 1]) && root < |states[i + 1]|
  {
    Rebound(states[i], states[i + 1], root, binds[i].keys, Some(binds[i].data))
  }

  /** What a sequence was bound to last, or what it meant before. */
  function LastBound(binds: seq<Bind>, before: Option<Binding>, ks: seq<Byte>): Option<Binding> {
    if binds == [] then before
    else if binds[|binds| - 1].keys == ks then Some(binds[|binds| - 1].data)
    else LastBound(binds[..|binds| - 1], before, ks)
  }

  /** Without bindings to rl_do_lowercase_version, after any run of bindings every sequence means what it
      was bound to last, and all others what they meant before. */
  lemma {:induction false} RunOfBinds(states: seq<Maps>, root: nat, binds: seq<Bind>, ks: seq<Byte>)
    requires BindRun(states, root, binds)
    requires forall q :: Meaning(states[0], root, q) != Some(DO_LOWERCASE)
    requires forall i :: 0 <= i < |binds| ==> binds[i].data != DO_LOWERCASE
    ensures Meaning(states[|binds|], root, ks) == LastBound(binds, Meaning(states[0], root, ks), ks)
    decreases |binds|
  {
    hide Meaning, Trie, Reach;
    if binds != [] {
      var n := |binds| - 1;
      var front := binds[..n];
      assert Bound1(states, root, binds, n);
      var before := states[..n + 1];
      assert BindRun(before, root, front) by {
        forall i | 0 <= i < n ensures Bound1(before, root, front, i) {
          assert Bound1(states, root, binds, i);
        }
      }
      RunOfBinds(before, root, front, ks);
      NeverLowercase(front, Meaning(states[0], root, ks), ks);
    }
  }

  lemma {:induction false} NeverLowercase(binds: seq<Bind>, before: Option<Binding>, ks: seq<Byte>)
    requires before != Some(DO_LOWERCASE) && forall i :: 0 <= i < |binds| ==> binds[i].data != DO_LOWERCASE
    ensures LastBound(binds, before, ks) != Some(DO_LOWERCASE)
    decreases |binds|
  {
    if binds != [] {
      NeverLowercase(binds[..|binds| - 1], before, ks);
    }
  }

  /** The keymaps of a running program. */
  class KeymapStore {
    var maps: Maps

    /** Step from `current` along `keys[i]`, making a keymap if there is none. */
    method Descend(keys: seq<Byte>, i: nat, current: nat, ghost maps0: Maps, ghost root: nat, lastShadow: Entry)
      returns (next: nat, k: Entry)
      requires Trie(maps0) && root < |maps0| && Trie(maps) && root < |maps| && i + 1 < |keys|
      requires Descended(maps0, maps, root, keys, i) && Reach(maps, root, keys[..i]) == Some(current)
      requires lastShadow in {Unbound, Bound(DO_LOWERCASE)}
      modifies this
      ensures Trie(maps) && |old(maps)| <= |maps|
      ensures Descended(maps0, maps, root, keys, i + 1) && Reach(maps, root, keys[..i + 1]) == Some(next)
      ensures k in {Unbound, Bound(DO_LOWERCASE)}
    {
      var ic := keys[i];
      k := lastShadow;
      ghost var isNew := !maps[current][ic].Submap?;
      ghost var shadow := if maps[current][ic] == Bound(DO_LOWERCASE) then Unbound else maps[current][ic];
      if isNew {
        DescendNew(maps0, maps, root, keys, i, current, shadow);
      } else {
        DescendLinked(maps0, maps, root, keys, i, current, maps[current][ic].id);
      }
      ghost var before := maps;
      if !maps[current][ic].Submap? {
        k := maps[current][ic];
        maps := maps[current := maps[current][ic := Submap(|maps|)]] + [Bare()];
      }
      next := maps[current][ic].id;
      if k.Bound? && k.binding != DO_LOWERCASE {
        maps := maps[next := maps[next][ANYOTHERKEY := k]];
        k := Unbound;
      }
      if isNew {
        assert maps[|before|] == Bare()[ANYOTHERKEY := shadow];
        assert maps == AddKeymap(before, current, ic, shadow);
      }
    }

    /** Bind the last key in `current`, or the ANYOTHERKEY entry of the keymap it leads to. */
    method BindIn(keys: seq<Byte>, data: Option<Binding>, current: nat, ghost maps0: Maps, ghost root: nat)
      requires Trie(maps0) && root < |maps0| && Trie(maps) && root < |maps| && 0 < |keys|
      requires Descended(maps0, maps, root, keys, |keys| - 1)
      requires Reach(maps, root, keys[..|keys| - 1]) == Some(current)
      modifies this
      ensures Trie(maps) && |old(maps)| == |maps| && Rebound(maps0, maps, root, keys, data)
    {
      var table, slot: nat, target := current, keys[|keys| - 1], data;
      if maps[table][slot].Submap? {
        BindShadow(maps0, maps, root, keys, current, maps[table][slot].id, data);
        table := maps[table][slot].id;
        slot := ANYOTHERKEY;
        if target.None? {
          target := Some(NULL_FUNCTION);
        }
      } else {
        BindEntry(maps0, maps, root, keys, current, data);
      }
      ghost var before := maps;
      maps := maps[table := maps[table][slot := EntryOf(target)]];
      assert maps == SetEntry(before, table, slot, EntryOf(target));
    }

    /** Bind `keys` to `data`, a null function being `None`. */
    method GenericBind(keys: seq<Byte>, data: Option<Binding>, root: nat)
      requires Trie(maps) && root < |maps|
      modifies this
      ensures Trie(maps) && |old(maps)| <= |maps|
      ensures if keys == [] then maps == old(maps) else Rebound(old(maps), maps, root, keys, data)
      ensures keys != [] ==>
        (OneKeyUpdate(old(maps), maps, root, keys, data) <==> forall ks :: !Dropped(old(maps), root, keys, ks))
    {
      ghost var maps0 := maps;
      var current := root;
      var k := Unbound;
      var i := 0;
      while i < |keys|
        invariant i <= |keys| && Trie(maps) && |maps0| <= |maps|
        invariant i < |keys| ==> Reach(maps, root, keys[..i]) == Some(current) && Descended(maps0, maps, root, keys, i)
        invariant k in {Unbound, Bound(DO_LOWERCASE)}
        invariant i == 0 ==> maps == maps0
        invariant 0 < |keys| == i ==> Rebound(maps0, maps, root, keys, data)
      {
        if i + 1 < |keys| {
          current, k := Descend(keys, i, current, maps0, root, k);
        } else {
          BindIn(keys, data, current, maps0, root);
        }
        i := i + 1;
      }
      if keys != [] {
        BindIsUpdate(maps0, maps, root, keys, data);
      }
    }
  }
}
