/** Bytes, C strings and the character classes that the modelled sources share. */
module Chars {

  /** An `unsigned char`. */
  type Byte = x: int | 0 <= x < 256

  datatype Option<+T> = None | Some(value: T)

  const NUL: Byte := 0
  const TAB: Byte := 9
  const NEWLINE: Byte := 10
  const RETURN: Byte := 13
  const ESC: Byte := 27
  const SPACE: Byte := 32
  const RUBOUT: Byte := 127

  /** The character of a C string at `i`: beyond the text stands the terminator. */
  function At(s: seq<Byte>, i: nat): Byte {
    if i < |s| then s[i] else NUL
  }

  /** A C string holds its terminator only at the end. */
  predicate NulFree(s: seq<Byte>) {
    forall i :: 0 <= i < |s| ==> s[i] != NUL
  }

  /** The text before the first terminator. */
  function CutAtNul(s: seq<Byte>): (r: seq<Byte>)
    ensures r <= s && NulFree(r) && (|r| < |s| ==> s[|r|] == NUL)
  {
    if s == [] || s[0] == NUL then [] else [s[0]] + CutAtNul(s[1..])
  }

  lemma Associates(a: seq<Byte>, b: seq<Byte>, c: seq<Byte>)
    ensures a + b + c == a + (b + c)
  {
  }

  predicate Whitespace(c: Byte) {
    c == SPACE || c == TAB
  }

  predicate IsDigit(c: Byte) {
    '0' as int <= c <= '9' as int
  }

  predicate IsOctal(c: Byte) {
    '0' as int <= c <= '7' as int
  }

  predicate IsHex(c: Byte) {
    IsDigit(c) || 'a' as int <= c <= 'f' as int || 'A' as int <= c <= 'F' as int
  }

  function HexValue(c: Byte): (d: nat)
    requires IsHex(c)
    ensures d < 16
  {
    if 'a' as int <= c <= 'f' as int then c - 'a' as int + 10
    else if 'A' as int <= c <= 'F' as int then c - 'A' as int + 10
    else c - '0' as int
  }

  /** A hexadecimal digit, its letters from `first` on. */
  function HexChar(d: nat, first: Byte): (c: Byte)
    requires d < 16 && (first == 97 || first == 65)
    ensures IsHex(c) && HexValue(c) == d
  {
    if d < 10 then 48 + d else first + d - 10
  }

  function ToUpper(c: Byte): Byte {
    if 'a' as int <= c <= 'z' as int then c - 32 else c
  }

  function ToLower(c: Byte): Byte {
    if 'A' as int <= c <= 'Z' as int then c + 32 else c
  }

  /** The macro `CTRL`: keep the low five bits. */
  function Ctrl(c: Byte): Byte {
    c % 32
  }

  /** The macro `META`: set the eighth bit. */
  function Meta(c: Byte): Byte {
    if c < 128 then c + 128 else c
  }

  predicate CtrlChar(c: Byte) {
    c < 32
  }

  /** The macro `UNCTRL` on a control character. */
  function UnCtrl(c: Byte): Byte
    requires CtrlChar(c)
  {
    ToUpper(c + 64)
  }
}
