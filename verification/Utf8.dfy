/** UTF-8 as `std::str::from_utf8` accepts it (Table 3-7 of the Unicode Standard). */
module Utf8 {
  import opened Bytes

  predicate IsContinuation(b: byte) {
    0x80 <= b <= 0xBF
  }

  /** The width of the well-formed character at the start of `s`; 0 when there is none. */
  function CharLen(s: bytes): (n: nat)
    ensures n <= |s| && n <= 4
  {
    if s == [] then 0
    else if s[0] < 0x80 then 1
    else if |s| >= 2 && 0xC2 <= s[0] <= 0xDF && IsContinuation(s[1]) then 2
    else if |s| >= 3 && 0xE0 <= s[0] <= 0xEF && SecondOk(s[0], s[1]) && IsContinuation(s[2]) then 3
    else if |s| >= 4 && 0xF0 <= s[0] <= 0xF4 && SecondOk(s[0], s[1]) && IsContinuation(s[2])
      && IsContinuation(s[3]) then 4
    else 0
  }

  /** The second byte of a three- or four-byte character: no overlong forms, surrogates or values past U+10FFFF. */
  predicate SecondOk(first: byte, second: byte) {
    && IsContinuation(second)
    && (first == 0xE0 ==> 0xA0 <= second)
    && (first == 0xED ==> second <= 0x9F)
    && (first == 0xF0 ==> 0x90 <= second)
    && (first == 0xF4 ==> second <= 0x8F)
  }

  predicate IsValid(s: bytes) {
    s == [] || (CharLen(s) > 0 && IsValid(s[CharLen(s)..]))
  }

  /** The code point of the character at the start of `s`. */
  function CharAt(s: bytes): (c: nat)
    requires CharLen(s) > 0
  {
    var k := CharLen(s);
    if k == 1 then s[0] as nat
    else if k == 2 then (s[0] as int - 0xC0) * 64 + (s[1] as int - 0x80)
    else if k == 3 then (s[0] as int - 0xE0) * 4096 + (s[1] as int - 0x80) * 64 + (s[2] as int - 0x80)
    else (s[0] as int - 0xF0) * 262144 + (s[1] as int - 0x80) * 4096 + (s[2] as int - 0x80) * 64 + (s[3] as int - 0x80)
  }
}
