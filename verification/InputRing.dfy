/** The typeahead buffer of readline/input.c: a ring whose front also takes keys back. */
module InputRing {
  import opened Chars

  const IBUFFER_LEN := 511

  /** The slot `i` places after slot `p`. */
  function Slot(p: nat, i: nat): (r: nat)
    requires p <= IBUFFER_LEN && i <= IBUFFER_LEN
    ensures r <= IBUFFER_LEN
  {
    if p + i <= IBUFFER_LEN then p + i else p + i - IBUFFER_LEN - 1
  }

  class Ring {
    const ibuffer: array<Byte>
    var popIndex: nat
    var pushIndex: nat

    /** The pending input is the end of the file. */
    var eofPending: bool

    /** The keys waiting, the next one first. */
    ghost var contents: seq<Byte>

    ghost predicate Valid()
      reads this, ibuffer
    {
      && ibuffer.Length == IBUFFER_LEN + 1 && popIndex <= IBUFFER_LEN && pushIndex <= IBUFFER_LEN
      && |contents| == (if popIndex <= pushIndex then pushIndex - popIndex else pushIndex + IBUFFER_LEN + 1 - popIndex)
      && forall i :: 0 <= i < |contents| ==> contents[i] == ibuffer[Slot(popIndex, i)]
    }

    constructor ()
      ensures Valid() && fresh(ibuffer) && contents == [] && !eofPending
    {
      ibuffer := new Byte[IBUFFER_LEN + 1](_ => 0);
      popIndex, pushIndex, contents, eofPending := 0, 0, [], false;
    }

    /** `ibuffer_space` */
    method Space() returns (n: nat)
      requires Valid()
      ensures n == IBUFFER_LEN - |contents|
    {
      if popIndex > pushIndex {
        n := popIndex - pushIndex - 1;
      } else {
        n := IBUFFER_LEN - (pushIndex - popIndex);
      }
    }

    /** `rl_get_char` */
    method GetChar() returns (key: Option<Byte>)
      requires Valid()
      modifies this`popIndex, this`contents
      ensures Valid()
      ensures if old(contents) == [] then key == None && contents == []
              else key == Some(old(contents)[0]) && contents == old(contents)[1..]
    {
      if pushIndex == popIndex {
        return None;
      }
      key := Some(ibuffer[popIndex]);
      contents := contents[1..];
      popIndex := popIndex + 1;
      if popIndex > IBUFFER_LEN {
        popIndex := 0;
      }
    }

    /** `_rl_unget_char`: a full ring drops the key. */
    method UngetChar(key: Byte) returns (ok: bool)
      requires Valid()
      modifies this`popIndex, this`contents, ibuffer
      ensures Valid()
      ensures ok <==> |old(contents)| < IBUFFER_LEN
      ensures contents == if ok then [key] + old(contents) else old(contents)
    {
      var n := Space();
      if n == 0 {
        return false;
      }
      if popIndex == 0 {
        popIndex := IBUFFER_LEN;
      } else {
        popIndex := popIndex - 1;
      }
      ibuffer[popIndex] := key;
      ok := true;
      contents := [key] + contents;
    }

    /** `rl_stuff_char` of a byte or, without one, of the end of the file: that waits behind a newline. */
    method StuffChar(key: Option<Byte>) returns (ok: bool)
      requires Valid()
      modifies this`pushIndex, this`contents, this`eofPending, ibuffer
      ensures Valid()
      ensures ok <==> |old(contents)| < IBUFFER_LEN
      ensures contents == old(contents) + if !ok then [] else if key.Some? then [key.value] else [NEWLINE]
      ensures eofPending == (old(eofPending) || (ok && key.None?))
    {
      var n := Space();
      if n == 0 {
        assert contents + [] == contents;
        return false;
      }
      var c := NEWLINE;
      if key.Some? {
        c := key.value;
      } else {
        eofPending := true;
      }
      ibuffer[pushIndex] := c;
      pushIndex := pushIndex + 1;
      if pushIndex > IBUFFER_LEN {
        pushIndex := 0;
      }
      ok := true;
      contents := contents + [c];
    }
  }
}
