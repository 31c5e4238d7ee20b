/** HTML-safe spelling of string bodies: `<`, `>`, `&`, U+2028 and U+2029 become escapes. */
module HtmlStrings {
  import opened Bytes
  import opened Wrappers
  import opened Lexemes
  import opened Unquoting
  import Utf8

  predicate IsHtml(b: byte) {
    b == LESS || b == GREATER || b == AMPERSAND
  }

  function HexDigit(v: int): (b: byte)
    requires 0 <= v < 16
    ensures IsHex(b) && HexValue(b) == v
  {
    if v < 10 then (v + 0x30) as byte else (v - 10 + 0x61) as byte
  }

  function HtmlEscape(b: byte): (r: bytes)
    ensures |r| == 6
  {
    [BACKSLASH, 0x75, ZERO, ZERO, HexDigit(b as int / 16), HexDigit(b as int % 16)]
  }

  /** U+2028 or U+2029 in UTF-8. */
  predicate IsSeparator(s: bytes) {
    |s| >= 3 && s[0] == 0xE2 && s[1] == 0x80 && (s[2] == 0xA8 || s[2] == 0xA9)
  }

  function SeparatorEscape(s: bytes): (r: bytes)
    requires IsSeparator(s)
    ensures |r| == 6
  {
    [BACKSLASH, 0x75, 0x32, ZERO, 0x32, if s[2] == 0xA8 then 0x38 else 0x39]
  }

  /** The safe spelling of a string body. */
  function HtmlBody(s: bytes): bytes {
    if s == [] then []
    else if s[0] == BACKSLASH then
      var k := UnitLen(s);
      if k == 0 then s else s[..k] + HtmlBody(s[k..])
    else if IsHtml(s[0]) then HtmlEscape(s[0]) + HtmlBody(s[1..])
    else if IsSeparator(s) then SeparatorEscape(s) + HtmlBody(s[3..])
    else [s[0]] + HtmlBody(s[1..])
  }

  // ----- it is again a body -----

  lemma BodyCons(u: bytes, s: bytes)
    requires UnitLen(u) == |u| > 0 && IsBody(s)
    ensures IsBody(u + s) && UnitLen(u + s) == |u|
  {
    UnitLenExtend(u, s);
    assert (u + s)[|u|..] == s;
  }

  lemma EscapeUnits(b: byte)
    ensures UnitLen(HtmlEscape(b)) == 6
  {
  }

  lemma SeparatorUnits(s: bytes)
    requires IsSeparator(s)
    ensures UnitLen(SeparatorEscape(s)) == 6
  {
  }

  lemma {:induction false} HtmlBodyIsBody(s: bytes)
    requires IsBody(s)
    ensures IsBody(HtmlBody(s))
    decreases |s|
  {
    hide HtmlEscape, SeparatorEscape, UnitLen;
    if s != [] {
      var k := UnitLen(s);
      HtmlBodyIsBody(s[k..]);
      PlainUnit(s);
      if s[0] == BACKSLASH {
        UnitLenPrefix(s, k);
        BodyCons(s[..k], HtmlBody(s[k..]));
      } else if IsHtml(s[0]) {
        EscapeUnits(s[0]);
        BodyCons(HtmlEscape(s[0]), HtmlBody(s[1..]));
      } else if IsSeparator(s) {
        BodyDropHigh(s, 3);
        HtmlBodyIsBody(s[3..]);
        SeparatorUnits(s);
        BodyCons(SeparatorEscape(s), HtmlBody(s[3..]));
      } else {
        SingleUnit(s);
        BodyCons([s[0]], HtmlBody(s[1..]));
      }
    }
  }

  lemma PlainUnit(s: bytes)
    requires s != [] && IsBody(s)
    ensures UnitLen(s) > 0 && (s[0] != BACKSLASH ==> UnitLen(s) == 1)
  {
  }

  lemma SingleUnit(s: bytes)
    requires s != [] && UnitLen(s) > 0 && s[0] != BACKSLASH
    ensures UnitLen([s[0]]) == 1
  {
  }

  // ----- spelling safely twice is spelling safely once -----

  lemma EscapeFirst(u: bytes, s: bytes)
    requires u != [] && u[0] == BACKSLASH && UnitLen(u) == |u|
    ensures HtmlBody(u + s) == u + HtmlBody(s)
  {
    UnitLenExtend(u, s);
    assert (u + s)[..|u|] == u && (u + s)[|u|..] == s && (u + s)[0] == u[0];
  }

  lemma HtmlEscapeStart(b: byte)
    ensures HtmlEscape(b)[0] == BACKSLASH
  {
  }

  lemma SeparatorEscapeStart(s: bytes)
    requires IsSeparator(s)
    ensures SeparatorEscape(s)[0] == BACKSLASH
  {
  }

  /** A byte past ASCII that does not start a separator stays, and still starts none. */
  lemma KeepsNoSeparator(s: bytes)
    requires s != [] && !IsSeparator(s)
    ensures !IsSeparator([s[0]] + HtmlBody(s[1..]))
  {
    var t := HtmlBody(s[1..]);
    if |t| >= 2 && t[0] == 0x80 && (t[1] == 0xA8 || t[1] == 0xA9) {
      HtmlHead(s[1..]);
      HtmlHead(s[2..]);
      assert s[1..][1..] == s[2..];
    }
  }

  /** A continuation byte at the head of the result was at the head of the input. */
  lemma HtmlHead(s: bytes)
    ensures HtmlBody(s) != [] && Utf8.IsContinuation(HtmlBody(s)[0]) ==>
            s != [] && HtmlBody(s) == [s[0]] + HtmlBody(s[1..])
    ensures s != [] && Utf8.IsContinuation(s[0]) ==> HtmlBody(s) == [s[0]] + HtmlBody(s[1..])
  {
  }

  lemma {:induction false} HtmlBodyTwice(s: bytes)
    requires IsBody(s)
    ensures HtmlBody(HtmlBody(s)) == HtmlBody(s)
    decreases |s|
  {
    hide HtmlEscape, SeparatorEscape, UnitLen;
    if s != [] {
      var k := UnitLen(s);
      PlainUnit(s);
      HtmlBodyTwice(s[k..]);
      if s[0] == BACKSLASH {
        UnitLenPrefix(s, k);
        EscapeFirst(s[..k], HtmlBody(s[k..]));
      } else if IsHtml(s[0]) {
        EscapeUnits(s[0]);
        HtmlEscapeStart(s[0]);
        EscapeFirst(HtmlEscape(s[0]), HtmlBody(s[1..]));
      } else if IsSeparator(s) {
        BodyDropHigh(s, 3);
        HtmlBodyTwice(s[3..]);
        SeparatorUnits(s);
        SeparatorEscapeStart(s);
        EscapeFirst(SeparatorEscape(s), HtmlBody(s[3..]));
      } else {
        KeepsNoSeparator(s);
        var t := [s[0]] + HtmlBody(s[1..]);
        assert t[0] == s[0] && t[1..] == HtmlBody(s[1..]);
      }
    }
  }

  // ----- it decodes to the same characters -----

  lemma DecodeHtml(b: byte, r: bytes)
    requires IsHtml(b)
    ensures DecodeChar(HtmlEscape(b) + r) == Some((b as nat, 6))
  {
    var s := HtmlEscape(b) + r;
    assert s[2..][0] == ZERO && s[2..][1] == ZERO && s[2..][2] == HexDigit(b as int / 16)
           && s[2..][3] == HexDigit(b as int % 16);
  }

  lemma DecodeSeparator(s: bytes, r: bytes)
    requires IsSeparator(s)
    ensures DecodeChar(SeparatorEscape(s) + r) == Some((Utf8.CharAt(s), 6)) && Utf8.CharLen(s) == 3
    ensures DecodeChar(s) == Some((Utf8.CharAt(s), 3))
  {
    var t := SeparatorEscape(s) + r;
    assert t[2..][0] == 0x32 && t[2..][1] == ZERO && t[2..][2] == 0x32 && t[2..][3] == SeparatorEscape(s)[5];
  }

  /** The bytes that could complete a character after `b` are the same in the safe spelling. */
  lemma SameChar(s: bytes)
    requires s != [] && s[0] >= 0x80 && !IsSeparator(s)
    ensures var t := [s[0]] + HtmlBody(s[1..]);
            Utf8.CharLen(t) == Utf8.CharLen(s) && (Utf8.CharLen(s) > 0 ==> Utf8.CharAt(t) == Utf8.CharAt(s))
  {
    hide HtmlBody;
    HtmlHead(s[1..]);
    if |s| >= 2 {
      assert s[1..][1..] == s[2..];
      HtmlHead(s[2..]);
      if |s| >= 3 {
        assert s[2..][1..] == s[3..];
        HtmlHead(s[3..]);
      }
    }
  }

  lemma EscapeIsNoLow(b: byte, r: bytes)
    requires IsHtml(b)
    ensures !IsLow(HtmlEscape(b) + r)
  {
    var s := HtmlEscape(b) + r;
    assert s[2..][0] == ZERO && s[2..][1] == ZERO;
  }

  lemma SeparatorIsNoLow(s: bytes, r: bytes)
    requires IsSeparator(s)
    ensures !IsLow(SeparatorEscape(s) + r)
  {
    var t := SeparatorEscape(s) + r;
    assert t[2..][0] == 0x32;
  }

  lemma SameFour(a: bytes, b: bytes)
    requires |a| >= 6 && |b| >= 6 && a[..6] == b[..6]
    ensures IsUnicodeEscape(a) == IsUnicodeEscape(b)
    ensures IsUnicodeEscape(a) ==> Hex4(a[2..]) == Hex4(b[2..])
  {
    assert forall i :: 0 <= i < 6 ==> a[i] == a[..6][i] == b[..6][i] == b[i];
  }

  /** A low surrogate escape is copied, and nothing else becomes one. */
  lemma SameLow(v: bytes)
    requires IsBody(v)
    ensures IsLow(HtmlBody(v)) == IsLow(v)
    ensures IsLow(v) ==>
            HtmlBody(v) == v[..6] + HtmlBody(v[6..]) && Hex4(HtmlBody(v)[2..]) == Hex4(v[2..]) && IsBody(v[6..])
  {
    hide HtmlEscape, SeparatorEscape, Hex4;
    if v != [] {
      var k := UnitLen(v);
      if v[0] == BACKSLASH {
        var t := v[..k] + HtmlBody(v[k..]);
        assert HtmlBody(v) == t;
        assert forall i :: 0 <= i < k ==> t[i] == v[i];
        if k == 6 {
          assert t[..6] == v[..6];
          SameFour(t, v);
        }
      } else if IsHtml(v[0]) {
        EscapeIsNoLow(v[0], HtmlBody(v[1..]));
      } else if IsSeparator(v) {
        SeparatorIsNoLow(v, HtmlBody(v[3..]));
      }
    }
  }

  /** Escapes decode alike, whatever follows them. */
  lemma SameEscape(s: bytes)
    requires s != [] && s[0] == BACKSLASH && IsBody(s)
    ensures DecodeChar(s).Some? && DecodeChar(HtmlBody(s)) == DecodeChar(s)
    ensures var k := DecodeChar(s).value.1; HtmlBody(s) == s[..k] + HtmlBody(s[k..]) && IsBody(s[k..])
  {
    hide Hex4, IsLow, DecodeChar;
    if UnitLen(s) == 6 {
      SameUnicode(s);
    } else {
      SameSimple(s);
    }
  }

  lemma SameSimple(s: bytes)
    requires s != [] && s[0] == BACKSLASH && IsBody(s) && UnitLen(s) == 2
    ensures DecodeChar(s).Some? && DecodeChar(HtmlBody(s)) == DecodeChar(s) && DecodeChar(s).value.1 == 2
    ensures HtmlBody(s) == s[..2] + HtmlBody(s[2..]) && IsBody(s[2..])
  {
    hide Hex4, IsLow;
    var t := HtmlBody(s);
    assert t == s[..2] + HtmlBody(s[2..]);
    assert t[0] == s[0] && t[1] == s[1];
  }

  lemma SameUnicode(s: bytes)
    requires s != [] && s[0] == BACKSLASH && IsBody(s) && UnitLen(s) == 6
    ensures DecodeChar(s).Some? && DecodeChar(HtmlBody(s)) == DecodeChar(s)
    ensures var k := DecodeChar(s).value.1; HtmlBody(s) == s[..k] + HtmlBody(s[k..]) && IsBody(s[k..])
  {
    hide Hex4, IsLow;
    var t := HtmlBody(s);
    assert t == s[..6] + HtmlBody(s[6..]);
    assert t[0] == s[0] && t[1] == s[1];
    assert t[..6] == s[..6] && t[6..] == HtmlBody(s[6..]);
    SameFour(t, s);
    SameLow(s[6..]);
    if IsLow(s[6..]) {
      TwoEscapes(s);
      Regroup(s[..6], s[6..][..6], HtmlBody(s[12..]));
    }
  }

  lemma TwoEscapes(s: bytes)
    requires |s| >= 6 && IsLow(s[6..])
    ensures |s| >= 12 && s[6..][6..] == s[12..] && s[..6] + s[6..][..6] == s[..12]
  {
  }

  /** A whole character past ASCII is copied. */
  lemma {:induction false} SameBytes(s: bytes)
    requires s != [] && s[0] >= 0x80 && !IsSeparator(s)
    ensures var k := if Utf8.CharLen(s) > 0 then Utf8.CharLen(s) else 1; HtmlBody(s) == s[..k] + HtmlBody(s[k..])
  {
    hide HtmlBody;
    HtmlFirst(s);
    var k := if Utf8.CharLen(s) > 0 then Utf8.CharLen(s) else 1;
    assert s[..1] == [s[0]];
    if k >= 2 {
      HtmlHead(s[1..]);
      assert s[1..][1..] == s[2..];
      assert [s[0]] + ([s[1]] + HtmlBody(s[2..])) == s[..2] + HtmlBody(s[2..]);
    }
    if k >= 3 {
      HtmlHead(s[2..]);
      assert s[2..][1..] == s[3..];
      assert s[..2] + ([s[2]] + HtmlBody(s[3..])) == s[..3] + HtmlBody(s[3..]);
    }
    if k >= 4 {
      HtmlHead(s[3..]);
      assert s[3..][1..] == s[4..];
      assert s[..3] + ([s[3]] + HtmlBody(s[4..])) == s[..4] + HtmlBody(s[4..]);
    }
  }

  lemma HtmlFirst(s: bytes)
    requires s != [] && s[0] >= 0x80 && !IsSeparator(s)
    ensures HtmlBody(s) == [s[0]] + HtmlBody(s[1..])
  {
  }

  /** One decoded character, and the safe spelling of the rest. */
  lemma SameDecodeChar(s: bytes)
    requires s != [] && IsBody(s)
    ensures DecodeChar(s).Some? && HtmlBody(s) != [] && DecodeChar(HtmlBody(s)).Some?
    ensures var (c, k), (c', k') := DecodeChar(s).value, DecodeChar(HtmlBody(s)).value;
            c' == c && HtmlBody(s)[k'..] == HtmlBody(s[k..]) && IsBody(s[k..])
  {
    hide HtmlEscape, SeparatorEscape, Hex4, UnitLen, DecodeChar;
    PlainUnit(s);
    DecodeCharBody(s);
    if s[0] == BACKSLASH {
      SameEscape(s);
    } else if IsHtml(s[0]) {
      DecodeHtml(s[0], HtmlBody(s[1..]));
      DecodeAscii(s);
    } else if IsSeparator(s) {
      DecodeSeparator(s, HtmlBody(s[3..]));
    } else if s[0] < 0x80 {
      DecodeAscii(s);
      assert HtmlBody(s) == [s[0]] + HtmlBody(s[1..]);
      DecodeAscii(HtmlBody(s));
    } else {
      SameChar(s);
      SameBytes(s);
      HtmlFirst(s);
      DecodeHigh(s);
      DecodeHigh(HtmlBody(s));
    }
  }

  lemma DecodeAscii(s: bytes)
    requires s != [] && s[0] < 0x80 && s[0] != BACKSLASH
    ensures DecodeChar(s) == Some((s[0] as nat, 1))
  {
  }

  lemma DecodeHigh(s: bytes)
    requires s != [] && s[0] >= 0x80
    ensures DecodeChar(s) ==
            if Utf8.CharLen(s) > 0 then Some((Utf8.CharAt(s), Utf8.CharLen(s))) else Some((REPLACEMENT, 1))
  {
  }

  /** The safe spelling decodes to the same characters, whatever malformed bytes surround them. */
  lemma {:induction false} SameDecode(s: bytes)
    requires IsBody(s)
    ensures Decode(HtmlBody(s)) == Decode(s)
    decreases |s|
  {
    hide DecodeChar, IsBody;
    if s != [] {
      hide HtmlBody;
      SameDecodeChar(s);
      SameDecode(s[DecodeChar(s).value.1..]);
    }
  }
}
