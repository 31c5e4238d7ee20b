/** Decoding a quoted JSON string to code points, with Go's replacement of malformed input. */
module Unquoting {
  import opened Bytes
  import opened Wrappers
  import opened Lexemes
  import Utf8

  const REPLACEMENT: nat := 0xFFFD

  function Hex4(s: bytes): (v: nat)
    requires |s| >= 4 && IsHex(s[0]) && IsHex(s[1]) && IsHex(s[2]) && IsHex(s[3])
    ensures v < 0x10000
  {
    ((HexValue(s[0]) * 16 + HexValue(s[1])) * 16 + HexValue(s[2])) * 16 + HexValue(s[3])
  }

  predicate IsUnicodeEscape(s: bytes) {
    |s| >= 6 && s[0] == BACKSLASH && s[1] == 0x75 && IsHex(s[2]) && IsHex(s[3]) && IsHex(s[4]) && IsHex(s[5])
  }

  function SimpleEscape(b: byte): nat
    requires IsSimpleEscape(b)
  {
    match b
    case 0x62 => 0x08
    case 0x66 => 0x0C
    case 0x6E => 0x0A
    case 0x72 => 0x0D
    case 0x74 => 0x09
    case _ => b as nat
  }

  /** The escape of a low surrogate. */
  predicate IsLow(s: bytes) {
    IsUnicodeEscape(s) && 0xDC00 <= Hex4(s[2..]) <= 0xDFFF
  }

  /** A pair of escapes that together spell one supplementary character. */
  predicate IsSurrogatePair(s: bytes) {
    IsUnicodeEscape(s) && 0xD800 <= Hex4(s[2..]) <= 0xDBFF && IsLow(s[6..])
  }

  /** The first character of a string body and the number of bytes that spell it. */
  function DecodeChar(s: bytes): (r: Option<(nat, nat)>)
    requires s != []
    ensures r.Some? ==> 0 < r.value.1 <= |s|
  {
    if s[0] == BACKSLASH then
      if |s| >= 2 && IsSimpleEscape(s[1]) then Some((SimpleEscape(s[1]), 2))
      else if IsSurrogatePair(s) then
        Some((0x10000 + (Hex4(s[2..]) - 0xD800) * 1024 + (Hex4(s[6..][2..]) - 0xDC00), 12))
      else if IsUnicodeEscape(s) then
        var unit := Hex4(s[2..]);
        Some((if 0xD800 <= unit <= 0xDFFF then REPLACEMENT else unit, 6))
      else None
    else if Utf8.CharLen(s) > 0 then Some((Utf8.CharAt(s), Utf8.CharLen(s)))
    else Some((REPLACEMENT, 1))
  }

  function Decode(s: bytes): (r: Option<seq<nat>>) {
    if s == [] then Some([])
    else
      var (c, k) :- DecodeChar(s);
      var rest :- Decode(s[k..]);
      Some([c] + rest)
  }

  /** The decoded form of a quoted string. */
  function Unquote(text: bytes): (r: Option<seq<nat>>) {
    if IsString(text) then Decode(text[1..|text| - 1]) else None
  }

  // ----- string bodies -----

  /** What may stand between the quotes of a string. */
  predicate IsBody(s: bytes) {
    s == [] || (UnitLen(s) > 0 && IsBody(s[UnitLen(s)..]))
  }

  lemma {:induction false} TailBody(s: bytes, n: nat)
    requires StringTail(s) == Some(n)
    ensures s[n - 1] == QUOTE && IsBody(s[..n - 1])
  {
    if s[0] != QUOTE {
      var k := UnitLen(s);
      TailBody(s[k..], n - k);
      assert s[..n - 1][k..] == s[k..][..n - k - 1];
      UnitLenPrefix(s, n - 1);
    }
  }

  lemma UnitLenPrefix(s: bytes, n: nat)
    requires UnitLen(s) <= n <= |s|
    ensures UnitLen(s[..n]) == UnitLen(s)
  {
  }

  lemma UnitLenExtend(s: bytes, r: bytes)
    requires UnitLen(s) > 0
    ensures UnitLen(s + r) == UnitLen(s)
  {
  }

  lemma {:induction false} BodyTail(s: bytes, r: bytes)
    requires IsBody(s)
    ensures StringTail(s + ([QUOTE] + r)) == Some(|s| + 1)
  {
    var t := s + ([QUOTE] + r);
    if s == [] {
      assert t[0] == QUOTE;
    } else {
      var k := UnitLen(s);
      UnitLenExtend(s, [QUOTE] + r);
      assert t[k..] == s[k..] + ([QUOTE] + r);
      BodyTail(s[k..], r);
      assert t[0] == s[0];
    }
  }

  /** A string is a body between quotes. */
  lemma {:induction false} StringIsBody(t: bytes)
    ensures IsString(t) <==> |t| >= 2 && t[0] == QUOTE && t[|t| - 1] == QUOTE && IsBody(t[1..|t| - 1])
  {
    if IsString(t) {
      TailBody(t[1..], |t| - 1);
      assert t[1..][..|t| - 2] == t[1..|t| - 1];
      assert t[1..][|t| - 2] == t[|t| - 1];
    }
    if |t| >= 2 && t[0] == QUOTE && t[|t| - 1] == QUOTE && IsBody(t[1..|t| - 1]) {
      BodyTail(t[1..|t| - 1], []);
      assert t[1..] == t[1..|t| - 1] + ([QUOTE] + []);
    }
  }

  /** Bytes past ASCII never start an escape, so any number of them can be dropped from a body. */
  lemma {:induction false} BodyDropHigh(s: bytes, k: nat)
    requires IsBody(s) && k <= |s| && forall i :: 0 <= i < k ==> s[i] >= 0x80
    ensures IsBody(s[k..])
  {
    if k > 0 {
      BodyDropHigh(s[1..], k - 1);
      assert s[1..][k - 1..] == s[k..];
    }
  }

  /** Decoding cannot fail on a string body, and what it leaves is again a body. */
  lemma DecodeCharBody(s: bytes)
    requires s != [] && IsBody(s)
    ensures DecodeChar(s).Some? && IsBody(s[DecodeChar(s).value.1..])
  {
    hide Hex4;
    if s[0] == BACKSLASH {
      if IsSurrogatePair(s) {
        assert s[6..][6..] == s[12..];
      }
    } else if s[0] >= 0x80 {
      HighChar(s);
      BodyDropHigh(s, DecodeChar(s).value.1);
    }
  }

  lemma HighChar(s: bytes)
    requires s != [] && s[0] >= 0x80
    ensures forall i :: 0 <= i < Utf8.CharLen(s) ==> s[i] >= 0x80
  {
  }

  lemma {:induction false} DecodeTotal(s: bytes)
    requires IsBody(s)
    ensures Decode(s).Some?
  {
    hide DecodeChar, IsBody;
    if s != [] {
      DecodeCharBody(s);
      DecodeTotal(s[DecodeChar(s).value.1..]);
    }
  }

  lemma UnquoteTotal(t: bytes)
    ensures Unquote(t).Some? <==> IsString(t)
  {
    hide Decode, IsBody, IsString;
    StringIsBody(t);
    if IsString(t) {
      DecodeTotal(t[1..|t| - 1]);
    }
  }
}
