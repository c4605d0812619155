/** Listing the key sequences bound to a function (`rl_invoking_keyseqs_in_map`, readline/bind.c),
    in a form that can be read back in. */
module KeyNames {
  import opened Chars
  import opened Keymaps
  import opened KeySequences

  /** `_rl_get_keyname`: the name of the last key. ANYOTHERKEY truncates to the terminator, so its
      name is empty. */
  function LeafName(key: nat): seq<Byte>
    requires key < KEYMAP_SIZE
  {
    if key == ESC then [BACKSLASH, E_LOWER]
    else if key == RUBOUT then [BACKSLASH, C_UPPER, DASH, QUESTION]
    else if key == ANYOTHERKEY then []
    else if CtrlChar(key) then [BACKSLASH, C_UPPER, DASH] + Quoted(ToLower(UnCtrl(key)))
    else if 128 <= key <= 159 then [BACKSLASH, 50, (key - 128) / 8 + 48, (key - 128) % 8 + 48]
    else Quoted(key)
  }

  /** The name of a key that leads to a keymap. */
  function PrefixName(key: Byte): (s: seq<Byte>)
    ensures 0 < |s| <= 4
  {
    if key == ESC then [BACKSLASH, E_LOWER]
    else if CtrlChar(key) then [BACKSLASH, C_UPPER, DASH, ToLower(UnCtrl(key))]
    else if key == RUBOUT then [BACKSLASH, C_UPPER, DASH, QUESTION]
    else Quoted(key)
  }

  /** The name of a whole sequence. */
  ghost function NameOf(maps: Maps, root: nat, ks: seq<Byte>): seq<Byte>
    requires Trie(maps) && root < |maps|
    decreases |ks|
  {
    if ks == [] then LeafName(ANYOTHERKEY)
    else if maps[root][ks[0]].Submap? then
      assert Link(maps, root, ks[0], maps[root][ks[0]].id);
      PrefixName(ks[0]) + NameOf(maps, maps[root][ks[0]].id, ks[1..])
    else LeafName(ks[0])
  }

  // ---- Reading the names back ----

  /** Control-backslash followed by `M-` is printed as the other spelling of a meta key. */
  predicate Clash(ks: seq<Byte>) {
    exists i :: 0 <= i <= |ks| - 3 && ks[i] == FIELD_SEPARATOR && ks[i + 1] == M_UPPER && ks[i + 2] == DASH
  }

  predicate ClashAtFront(ks: seq<Byte>) {
    |ks| >= 3 && ks[0] == FIELD_SEPARATOR && ks[1] == M_UPPER && ks[2] == DASH
  }

  lemma ClashCons(ks: seq<Byte>)
    requires ks != []
    ensures Clash(ks) <==> ClashAtFront(ks) || Clash(ks[1..])
  {
    if i :| 0 <= i <= |ks| - 3 && ks[i] == FIELD_SEPARATOR && ks[i + 1] == M_UPPER && ks[i + 2] == DASH {
      if i > 0 {
        var t := ks[1..];
        assert t[i - 1] == FIELD_SEPARATOR && t[i - 1 + 1] == M_UPPER && t[i - 1 + 2] == DASH;
      }
    }
    if Clash(ks[1..]) {
      var t := ks[1..];
      var i :| 0 <= i <= |t| - 3 && t[i] == FIELD_SEPARATOR && t[i + 1] == M_UPPER && t[i + 2] == DASH;
      assert ks[i + 1] == FIELD_SEPARATOR && ks[i + 1 + 1] == M_UPPER && ks[i + 1 + 2] == DASH;
    }
  }

  lemma NoClash(ks: seq<Byte>)
    requires |ks| < 3
    ensures !Clash(ks)
  {
  }

  lemma OnePiece(s: seq<Byte>, k: Byte)
    requires s != [] && NextPiece(s) == Piece([k], |s|)
    ensures Translate(s) == Some([k])
  {
    TranslateStep(s, |s|, [k]);
    assert s[|s|..] == [] && [k] + [] == [k];
  }

  lemma ControlLeaf(k: Byte)
    requires CtrlChar(k) && k != ESC
    ensures Translate(LeafName(k)) == Some([k])
  {
    var s := LeafName(k);
    assert ControlOf(s[3]) == k;
    if k == FIELD_SEPARATOR {
      TranslateStep(s, 4, [k]);
      assert s[4..] == [BACKSLASH] && Translate([BACKSLASH]) == Some([]);
      assert [k] + [] == [k];
    } else {
      OnePiece(s, k);
    }
  }

  lemma LeafReadsBack(k: Byte)
    ensures Translate(LeafName(k)) == Some([k])
  {
    var s := LeafName(k);
    if 128 <= k <= 159 {
      assert OctValue(s[1]) == 2 && OctValue(s[2]) == (k - 128) / 8 && OctValue(s[3]) == (k - 128) % 8;
      OnePiece(s, k);
    } else if CtrlChar(k) && k != ESC {
      ControlLeaf(k);
    } else {
      OnePiece(s, k);
    }
  }

  lemma PrefixReadsBack(k: Byte, rest: seq<Byte>)
    requires !(k == FIELD_SEPARATOR && At(rest, 0) == M_UPPER && At(rest, 1) == DASH)
    ensures Translate(PrefixName(k) + rest) ==
            if Translate(rest).Some? then Some([k] + Translate(rest).value) else None
  {
    var s := PrefixName(k) + rest;
    if CtrlChar(k) && k != ESC {
      assert s[3] == ToLower(k + 64) && ControlOf(s[3]) == k;
      assert At(s, 4) == At(rest, 0) && At(s, 5) == At(rest, 1);
    } else if k == RUBOUT {
      assert s[3] == QUESTION;
    }
    assert NextPiece(s) == Piece([k], |PrefixName(k)|);
    TranslateStep(s, |PrefixName(k)|, [k]);
    assert s[|PrefixName(k)|..] == rest;
  }

  lemma ClashMisreads(name: seq<Byte>)
    requires |name| > 5 && name[..6] == [BACKSLASH, C_UPPER, DASH, BACKSLASH, M_UPPER, DASH]
    ensures Translate(name).Some? ==> Translate(name).value != [] && Translate(name).value[0] == ESC
  {
    assert forall j: nat :: j < 6 ==> name[j] == name[..6][j];
    assert NextPiece(name).out[0] == ESC;
    TranslateStep(name, NextPiece(name).used, NextPiece(name).out);
  }

  /** Where a name begins with `M-`, so do the keys. */
  lemma NameStart(maps: Maps, root: nat, ks: seq<Byte>)
    requires Trie(maps) && root < |maps| && Meaning(maps, root, ks).Some?
    ensures At(NameOf(maps, root, ks), 0) == M_UPPER && At(NameOf(maps, root, ks), 1) == DASH
            <==> |ks| >= 2 && ks[0] == M_UPPER && ks[1] == DASH
  {
    if ks != [] {
      assert ks == [ks[0]] + ks[1..];
      MeaningCons(maps, root, ks[0], ks[1..]);
      if ks[0] == M_UPPER && maps[root][ks[0]].Submap? {
        NameHead(maps, maps[root][ks[0]].id, ks[1..]);
      }
    }
  }

  lemma NameHead(maps: Maps, root: nat, ks: seq<Byte>)
    requires Trie(maps) && root < |maps|
    ensures At(NameOf(maps, root, ks), 0) == DASH <==> ks != [] && ks[0] == DASH
  {
  }

  /** A key in front of a name `t` of `rest`. */
  lemma PrefixedReadsBack(k: Byte, t: seq<Byte>, rest: seq<Byte>)
    requires At(t, 0) == M_UPPER && At(t, 1) == DASH <==> |rest| >= 2 && rest[0] == M_UPPER && rest[1] == DASH
    ensures Translate(PrefixName(k) + t) == Some([k] + rest) <==>
            !ClashAtFront([k] + rest) && Translate(t) == Some(rest)
  {
    var name := PrefixName(k) + t;
    if ClashAtFront([k] + rest) {
      ClashMisreads(name);
    } else {
      PrefixReadsBack(k, t);
      if Translate(t).Some? {
        assert ([k] + Translate(t).value)[1..] == Translate(t).value;
        assert ([k] + rest)[1..] == rest;
      }
    }
  }

  /** A printed name reads back as the keys it stands for, exactly when they hold no
      control-backslash followed by `M-`. */
  lemma {:induction false} NameReadsBack(maps: Maps, root: nat, ks: seq<Byte>)
    requires Trie(maps) && root < |maps| && Meaning(maps, root, ks).Some?
    ensures Translate(NameOf(maps, root, ks)) == Some(ks) <==> !Clash(ks)
    decreases |ks|
  {
    if ks == [] {
      NoClash(ks);
    } else {
      var k, rest := ks[0], ks[1..];
      assert ks == [k] + rest;
      NameCons(maps, root, k, rest);
      ClashCons(ks);
      if maps[root][k].Submap? {
        var c := maps[root][k].id;
        hide *;
        NameReadsBack(maps, c, rest);
        NameStart(maps, c, rest);
        PrefixedReadsBack(k, NameOf(maps, c, rest), rest);
      } else {
        hide *;
        LeafReadsBack(k);
        NoClash(ks);
      }
    }
  }

  /** The name of a sequence that is bound, and what its rest is bound to. */
  lemma NameCons(maps: Maps, root: nat, k: Byte, rest: seq<Byte>)
    requires Trie(maps) && root < |maps| && Meaning(maps, root, [k] + rest).Some?
    ensures var e := maps[root][k];
      if e.Submap? then
        e.id < |maps| && Meaning(maps, e.id, rest).Some?
        && NameOf(maps, root, [k] + rest) == PrefixName(k) + NameOf(maps, e.id, rest)
      else rest == [] && NameOf(maps, root, [k] + rest) == LeafName(k)
  {
    hide PrefixName, LeafName, Meaning;
    MeaningCons(maps, root, k, rest);
    assert ([k] + rest)[1..] == rest;
    if maps[root][k].Submap? {
      assert Link(maps, root, k, maps[root][k].id);
    }
  }

  /** The names of keys by their characters: as they are printed in macros, but that the last key of a
      sequence has three octal digits from 128 to 159, and that a backslash after `\C-` is quoted only there. */
  lemma NamedAs(key: Byte)
    ensures 128 <= key <= 159 ==> LeafName(key) == [92, 50, 48 + (key - 128) / 8, 48 + (key - 128) % 8]
    ensures !(128 <= key <= 159) ==> LeafName(key) == Show(key, false)
    ensures PrefixName(key) == if key == 28 then [92, 67, 45, 92] else Show(key, false)
    ensures LeafName(ANYOTHERKEY) == []
  {
  }

  // ---- The listing ----

  /** `names` are the names of `paths`, which are sequences bound to `f`, each given once. */
  ghost predicate Listed(maps: Maps, root: nat, f: Binding, names: seq<seq<Byte>>, paths: seq<seq<Byte>>)
    requires Trie(maps) && root < |maps|
  {
    && |names| == |paths|
    && (forall i :: 0 <= i < |paths| ==> Meaning(maps, root, paths[i]) == Some(f))
    && (forall i :: 0 <= i < |paths| ==> names[i] == NameOf(maps, root, paths[i]))
    && (forall i, j :: 0 <= i < j < |paths| ==> paths[i] != paths[j])
  }

  /** And no sequence that is bound to `f` is missing. */
  ghost predicate ListedWhole(maps: Maps, root: nat, f: Binding, names: seq<seq<Byte>>, paths: seq<seq<Byte>>)
    requires Trie(maps) && root < |maps|
  {
    Listed(maps, root, f, names, paths) && forall ks :: Meaning(maps, root, ks) == Some(f) ==> ks in paths
  }

  /** `ks` is listed while the loop is at a key below `key`. */
  predicate Before(ks: seq<Byte>, key: nat) {
    if ks == [] then ANYOTHERKEY < key else ks[0] < key
  }

  ghost predicate ListedBefore(maps: Maps, root: nat, f: Binding, names: seq<seq<Byte>>, paths: seq<seq<Byte>>,
                               key: nat)
    requires Trie(maps) && root < |maps|
  {
    && Listed(maps, root, f, names, paths)
    && (forall i :: 0 <= i < |paths| ==> Before(paths[i], key))
    && (forall ks :: Meaning(maps, root, ks) == Some(f) && Before(ks, key) ==> ks in paths)
  }

  /** The sequence that an entry which is not a keymap stands for. */
  function KeyPath(key: nat): seq<Byte>
    requires key < KEYMAP_SIZE
  {
    if key == ANYOTHERKEY then [] else [key]
  }

  lemma KeyMeaning(maps: Maps, root: nat, f: Binding, key: nat, ks: seq<Byte>)
    requires Trie(maps) && root < |maps| && key < KEYMAP_SIZE && !maps[root][key].Submap?
    requires Before(ks, key + 1) && !Before(ks, key)
    ensures Meaning(maps, root, ks) == Some(f) <==> ks == KeyPath(key) && maps[root][key] == Bound(f)
    ensures ks == KeyPath(key) ==> NameOf(maps, root, ks) == LeafName(key)
  {
    if ks != [] {
      assert ks == [ks[0]] + ks[1..];
      MeaningCons(maps, root, ks[0], ks[1..]);
    }
  }

  /** The sequences listed for one entry which is not a keymap. */
  lemma KeyListed(maps: Maps, root: nat, f: Binding, key: nat)
    requires Trie(maps) && root < |maps| && key < KEYMAP_SIZE && !maps[root][key].Submap?
    ensures
      var found := maps[root][key] == Bound(f);
      var paths := if found then [KeyPath(key)] else [];
      && Listed(maps, root, f, if found then [LeafName(key)] else [], paths)
      && forall ks :: Meaning(maps, root, ks) == Some(f) && Before(ks, key + 1) && !Before(ks, key) ==> ks in paths
  {
    forall ks | Before(ks, key + 1) && !Before(ks, key)
      ensures Meaning(maps, root, ks) == Some(f) <==> ks == KeyPath(key) && maps[root][key] == Bound(f)
      ensures ks == KeyPath(key) ==> NameOf(maps, root, ks) == LeafName(key)
    {
      KeyMeaning(maps, root, f, key, ks);
    }
    assert Before(KeyPath(key), key + 1) && !Before(KeyPath(key), key);
  }

  method InvokingKeyseqs(maps: Maps, f: Binding, root: nat) returns (result: seq<seq<Byte>>)
    requires Trie(maps) && root < |maps|
    ensures exists paths :: ListedWhole(maps, root, f, result, paths)
    decreases |maps| - root
  {
    result := [];
    ghost var paths: seq<seq<Byte>> := [];
    var key := 0;
    while key < KEYMAP_SIZE
      invariant 0 <= key <= KEYMAP_SIZE
      invariant ListedBefore(maps, root, f, result, paths, key)
    {
      match maps[root][key] {
        case Unbound =>
          KeyListed(maps, root, f, key);
          AppendListed(maps, root, f, key, result, paths, [], []);
          assert result + [] == result && paths + [] == paths;
        case Bound(b) =>
          KeyListed(maps, root, f, key);
          if b == f {
            AppendListed(maps, root, f, key, result, paths, [LeafName(key)], [KeyPath(key)]);
            result := result + [LeafName(key)];
            paths := paths + [KeyPath(key)];
          } else {
            AppendListed(maps, root, f, key, result, paths, [], []);
            assert result + [] == result && paths + [] == paths;
          }
        case Submap(c) =>
          assert Link(maps, root, key, c);
          var seqs := InvokingKeyseqs(maps, f, c);
          ghost var subpaths :| ListedWhole(maps, c, f, seqs, subpaths);
          SubmapListed(maps, root, f, key, c, seqs, subpaths);
          forall ks | Meaning(maps, root, ks) == Some(f) && Before(ks, key + 1) && !Before(ks, key)
            ensures ks in Prepend([key], subpaths)
          {
            SubmapComplete(maps, root, f, key, c, subpaths, ks);
          }
          AppendListed(maps, root, f, key, result, paths, Prepend(PrefixName(key), seqs), Prepend([key], subpaths));
          result := PrefixEach(key, result, seqs);
          paths := paths + Prepend([key], subpaths);
      }
      key := key + 1;
    }
    assert ListedWhole(maps, root, f, result, paths);
  }

  function Prepend(head: seq<Byte>, tails: seq<seq<Byte>>): (r: seq<seq<Byte>>)
    ensures |r| == |tails| && forall i :: 0 <= i < |r| ==> r[i] == head + tails[i]
  {
    seq(|tails|, i requires 0 <= i < |tails| => head + tails[i])
  }

  /** The sequences found in the keymap that `key` leads to, with the key before each. */
  lemma SubmapListed(maps: Maps, root: nat, f: Binding, key: Byte, c: nat, seqs: seq<seq<Byte>>, subpaths: seq<seq<Byte>>)
    requires Trie(maps) && root < |maps| && Link(maps, root, key, c) && c < |maps|
    requires Listed(maps, c, f, seqs, subpaths)
    ensures Listed(maps, root, f, Prepend(PrefixName(key), seqs), Prepend([key], subpaths))
  {
    var names, paths := Prepend(PrefixName(key), seqs), Prepend([key], subpaths);
    forall i | 0 <= i < |paths|
      ensures Meaning(maps, root, paths[i]) == Some(f) && names[i] == NameOf(maps, root, paths[i])
    {
      MeaningCons(maps, root, key, subpaths[i]);
      assert paths[i][1..] == subpaths[i];
    }
    forall i, j | 0 <= i < j < |paths|
      ensures paths[i] != paths[j]
    {
      assert paths[i][1..] == subpaths[i] && paths[j][1..] == subpaths[j];
    }
  }

  lemma SubmapComplete(maps: Maps, root: nat, f: Binding, key: Byte, c: nat, subpaths: seq<seq<Byte>>, ks: seq<Byte>)
    requires Trie(maps) && root < |maps| && Link(maps, root, key, c) && c < |maps|
    requires forall ks :: Meaning(maps, c, ks) == Some(f) ==> ks in subpaths
    requires Meaning(maps, root, ks) == Some(f) && Before(ks, key + 1) && !Before(ks, key)
    ensures ks in Prepend([key], subpaths)
  {
    assert ks == [key] + ks[1..];
    MeaningCons(maps, root, key, ks[1..]);
    var j :| 0 <= j < |subpaths| && subpaths[j] == ks[1..];
    assert Prepend([key], subpaths)[j] == ks;
  }

  lemma AppendListed(maps: Maps, root: nat, f: Binding, key: nat, names: seq<seq<Byte>>, paths: seq<seq<Byte>>,
                     more: seq<seq<Byte>>, morePaths: seq<seq<Byte>>)
    requires Trie(maps) && root < |maps|
    requires ListedBefore(maps, root, f, names, paths, key) && Listed(maps, root, f, more, morePaths)
    requires forall i :: 0 <= i < |morePaths| ==> Before(morePaths[i], key + 1) && !Before(morePaths[i], key)
    requires forall ks :: Meaning(maps, root, ks) == Some(f) && Before(ks, key + 1) && !Before(ks, key) ==> ks in morePaths
    ensures ListedBefore(maps, root, f, names + more, paths + morePaths, key + 1)
  {
    assert forall ks :: ks in paths + morePaths <==> ks in paths || ks in morePaths;
  }

  /** Put the key before each sequence found in the keymap that it leads to. */
  method PrefixEach(key: Byte, names: seq<seq<Byte>>, seqs: seq<seq<Byte>>) returns (result: seq<seq<Byte>>)
    ensures result == names + Prepend(PrefixName(key), seqs)
  {
    result := names;
    var i := 0;
    while i < |seqs|
      invariant 0 <= i <= |seqs| && result == names + Prepend(PrefixName(key), seqs)[..i]
    {
      result := result + [PrefixName(key) + seqs[i]];
      i := i + 1;
    }
  }

  // ---- Reading the listing back ----

  /** `a` comes before `b` at the first key in which they differ. */
  predicate Less(a: seq<Byte>, b: seq<Byte>) {
    a != [] && b != [] && (a[0] < b[0] || (a[0] == b[0] && Less(a[1..], b[1..])))
  }

  lemma {:induction false} LessTransitive(a: seq<Byte>, b: seq<Byte>, c: seq<Byte>)
    requires Less(a, b) && Less(b, c)
    ensures Less(a, c)
  {
    if a[0] == b[0] == c[0] {
      LessTransitive(a[1..], b[1..], c[1..]);
    }
  }

  lemma {:induction false} LessIrreflexive(a: seq<Byte>)
    ensures !Less(a, a)
  {
    if a != [] {
      LessIrreflexive(a[1..]);
    }
  }

  /** A name that clashes is read as keys that come before its own: ESC for control-backslash. */
  lemma {:induction false} ClashReadsLess(maps: Maps, root: nat, ks: seq<Byte>)
    requires Trie(maps) && root < |maps| && Meaning(maps, root, ks).Some? && Clash(ks)
    ensures var r := Translate(NameOf(maps, root, ks)); r.Some? ==> Less(r.value, ks)
    decreases |ks|
  {
    var k, rest := ks[0], ks[1..];
    assert ks == [k] + rest;
    NameCons(maps, root, k, rest);
    ClashCons(ks);
    if maps[root][k].Submap? {
      var c := maps[root][k].id;
      hide *;
      NameStart(maps, c, rest);
      if !ClashAtFront(ks) {
        ClashReadsLess(maps, c, rest);
      }
      PrefixedLess(k, NameOf(maps, c, rest), rest);
    }
  }

  lemma PrefixedLess(k: Byte, t: seq<Byte>, rest: seq<Byte>)
    requires At(t, 0) == M_UPPER && At(t, 1) == DASH <==> |rest| >= 2 && rest[0] == M_UPPER && rest[1] == DASH
    requires ClashAtFront([k] + rest) || (Translate(t).Some? ==> Less(Translate(t).value, rest))
    ensures var r := Translate(PrefixName(k) + t); r.Some? ==> Less(r.value, [k] + rest)
  {
    var name := PrefixName(k) + t;
    if ClashAtFront([k] + rest) {
      ClashMisreads(name);
    } else {
      hide Less;
      PrefixReadsBack(k, t);
      if Translate(t).Some? {
        LessCons(k, Translate(t).value, rest);
      }
    }
  }

  lemma LessCons(k: Byte, a: seq<Byte>, b: seq<Byte>)
    ensures Less([k] + a, [k] + b) <==> Less(a, b)
  {
    assert ([k] + a)[1..] == a && ([k] + b)[1..] == b;
  }

  /** Among the first `n` sequences one that clashes is such that none that clashes comes after it. */
  lemma {:induction false} LastClash(paths: seq<seq<Byte>>, n: nat) returns (m: nat)
    requires n <= |paths| && exists i :: 0 <= i < n && Clash(paths[i])
    ensures m < n && Clash(paths[m])
    ensures forall j :: 0 <= j < n && Clash(paths[j]) ==> !Less(paths[m], paths[j])
    decreases n
  {
    hide Clash, Less;
    var last := paths[n - 1];
    LessIrreflexive(last);
    if exists i :: 0 <= i < n - 1 && Clash(paths[i]) {
      m := LastClash(paths, n - 1);
      if Clash(last) && Less(paths[m], last) {
        forall j | 0 <= j < n - 1 && Clash(paths[j]) ensures !Less(last, paths[j]) {
          if Less(last, paths[j]) {
            LessTransitive(paths[m], last, paths[j]);
          }
        }
        m := n - 1;
      }
    } else {
      m := n - 1;
    }
  }

  /** Reading the names gives exactly the sequences bound to the function. */
  ghost predicate ReadsBack(maps: Maps, root: nat, f: Binding, names: seq<seq<Byte>>)
    requires Trie(maps) && root < |maps|
  {
    forall ks :: Meaning(maps, root, ks) == Some(f) <==> Named(names, ks)
  }

  ghost predicate Named(names: seq<seq<Byte>>, ks: seq<Byte>) {
    exists i :: 0 <= i < |names| && Translate(names[i]) == Some(ks)
  }

  /** The listing, read back, gives exactly the sequences bound to the function, if and only if none of them
      holds control-backslash followed by `M-`. */
  lemma ListingReadsBack(maps: Maps, root: nat, f: Binding, names: seq<seq<Byte>>, paths: seq<seq<Byte>>)
    requires Trie(maps) && root < |maps| && ListedWhole(maps, root, f, names, paths)
    ensures ReadsBack(maps, root, f, names) <==> forall i :: 0 <= i < |paths| ==> !Clash(paths[i])
  {
    hide Clash, Meaning, Translate, NameOf;
    if forall i :: 0 <= i < |paths| ==> !Clash(paths[i]) {
      NoClashReadsBack(maps, root, f, names, paths);
    } else {
      var m := LastClash(paths, |paths|);
      if Named(names, paths[m]) {
        var j :| 0 <= j < |names| && Translate(names[j]) == Some(paths[m]);
        NameReadsBack(maps, root, paths[j]);
        if Clash(paths[j]) {
          ClashReadsLess(maps, root, paths[j]);
          assert false;
        }
      }
      assert Meaning(maps, root, paths[m]) == Some(f);
    }
  }

  lemma NoClashReadsBack(maps: Maps, root: nat, f: Binding, names: seq<seq<Byte>>, paths: seq<seq<Byte>>)
    requires Trie(maps) && root < |maps| && ListedWhole(maps, root, f, names, paths)
    requires forall i :: 0 <= i < |paths| ==> !Clash(paths[i])
    ensures ReadsBack(maps, root, f, names)
  {
    hide Clash, Meaning, Translate, NameOf;
    forall i | 0 <= i < |names| ensures Translate(names[i]) == Some(paths[i]) {
      NameReadsBack(maps, root, paths[i]);
    }
    forall ks | Meaning(maps, root, ks) == Some(f) ensures Named(names, ks) {
      var i :| 0 <= i < |paths| && paths[i] == ks;
      assert Translate(names[i]) == Some(ks);
    }
  }
}
