/** Bytes, byte strings and the ASCII classes the policy text pipeline is written in. */
module Bytes {
  newtype byte = x: int | 0 <= x < 256
  type bytes = seq<byte>

  const TAB: byte := 0x09
  const LF: byte := 0x0A
  const CR: byte := 0x0D
  const SPACE: byte := 0x20
  const QUOTE: byte := 0x22
  const PERCENT: byte := 0x25
  const AMPERSAND: byte := 0x26
  const STAR: byte := 0x2A
  const PLUS: byte := 0x2B
  const COMMA: byte := 0x2C
  const MINUS: byte := 0x2D
  const DOT: byte := 0x2E
  const SLASH: byte := 0x2F
  const ZERO: byte := 0x30
  const NINE: byte := 0x39
  const COLON: byte := 0x3A
  const LESS: byte := 0x3C
  const EQUALS: byte := 0x3D
  const GREATER: byte := 0x3E
  const OPEN_BRACKET: byte := 0x5B
  const BACKSLASH: byte := 0x5C
  const CLOSE_BRACKET: byte := 0x5D
  const OPEN_BRACE: byte := 0x7B
  const CLOSE_BRACE: byte := 0x7D

  /** JSON insignificant whitespace. */
  predicate IsSpace(b: byte) {
    b == SPACE || b == TAB || b == CR || b == LF
  }

  predicate IsDigit(b: byte) {
    ZERO <= b <= NINE
  }

  /** The mark of a decimal exponent. */
  predicate IsMark(b: byte) {
    b == 0x65 || b == 0x45
  }

  predicate IsHex(b: byte) {
    IsDigit(b) || 0x41 <= b <= 0x46 || 0x61 <= b <= 0x66
  }

  predicate IsAlphanumeric(b: byte) {
    IsDigit(b) || 0x41 <= b <= 0x5A || 0x61 <= b <= 0x7A
  }

  predicate AllSpace(s: bytes) {
    forall i :: 0 <= i < |s| ==> IsSpace(s[i])
  }

  /** The value of a hexadecimal digit. */
  function HexValue(b: byte): (v: int)
    requires IsHex(b)
    ensures 0 <= v < 16
  {
    if IsDigit(b) then b as int - 0x30
    else if b <= 0x46 then b as int - 0x41 + 10
    else b as int - 0x61 + 10
  }

  /** Appending a piece to the output leaves the whole unchanged. */
  lemma Regroup(out: bytes, piece: bytes, rest: bytes)
    ensures out + (piece + rest) == (out + piece) + rest
  {
  }

  /** The number of digits a text starts with. */
  function DigitsLen(s: bytes): (n: nat)
    ensures n <= |s|
    ensures forall i :: 0 <= i < n ==> IsDigit(s[i])
    ensures n < |s| ==> !IsDigit(s[n])
  {
    if s == [] || !IsDigit(s[0]) then 0 else 1 + DigitsLen(s[1..])
  }
}
