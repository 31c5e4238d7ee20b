/** The decoding loop for quoted strings. */
module UnquoteLoop {
  import opened Bytes
  import opened Wrappers
  import opened Lexemes
  import opened Unquoting
  import opened Cursors
  import Utf8

  /** Whitespace is allowed after the closing quote. */
  function UnquoteText(s: bytes): (r: Option<seq<nat>>) {
    if s == [] || s[0] != QUOTE then None
    else
      var n :- StringTail(s[1..]);
      if Skip(s[n + 1..]) == [] then Decode(s[1..n]) else None
  }

  lemma UnquoteTextOfString(s: bytes)
    requires IsString(s)
    ensures UnquoteText(s) == Unquote(s) && Unquote(s).Some?
  {
    hide Decode;
    UnquoteTotal(s);
  }

  method UnquoteString(s: bytes) returns (r: Option<seq<nat>>)
    ensures r == UnquoteText(s)
    ensures r.None? <==>
            s == [] || s[0] != QUOTE || StringTail(s[1..]).None? || Skip(s[StringTail(s[1..]).value + 1..]) != []
  {
    hide StringTail, Decode, Skip;
    var c := new Cursor(s);
    assert c.Left() == s;
    var ok := c.Quoted();
    if !ok { return None; }
    var end := c.at;
    ok := c.Done();
    if !ok { return None; }
    assert c.text[end..] == s[end..];
    TailBody(s[1..], end - 1);
    assert s[1..][..end - 2] == s[1..end - 1];
    DecodeTotal(s[1..end - 1]);
    r := DecodeLoop(s[1..end - 1]);
  }

  method DecodeLoop(s: bytes) returns (r: Option<seq<nat>>)
    requires IsBody(s)
    ensures r == Decode(s)
  {
    hide DecodeChar, IsBody;
    var at := 0;
    var result: seq<nat> := [];
    assert s[0..] == s;
    DecodeTotal(s);
    assert result + Decode(s).value == Decode(s).value;
    while at < |s|
      invariant 0 <= at <= |s| && IsBody(s[at..])
      invariant Decode(s) == Prefixed(result, Decode(s[at..]))
    {
      DecodeCharBody(s[at..]);
      var c, k := NextChar(s, at);
      DecodeStep(s[at..], result);
      assert s[at..][k..] == s[at + k..];
      result := result + [c];
      at := at + k;
    }
    DecodeNothing(s[|s|..], result);
    return Some(result);
  }

  lemma DecodeNothing(s: bytes, result: seq<nat>)
    requires s == []
    ensures Prefixed(result, Decode(s)) == Some(result)
  {
    assert result + [] == result;
  }

  ghost function Prefixed(a: seq<nat>, b: Option<seq<nat>>): Option<seq<nat>> {
    if b.None? then None else Some(a + b.value)
  }

  lemma DecodeStep(s: bytes, result: seq<nat>)
    requires s != [] && DecodeChar(s).Some?
    ensures var (c, k) := DecodeChar(s).value; Prefixed(result, Decode(s)) == Prefixed(result + [c], Decode(s[k..]))
  {
    hide DecodeChar;
    var (c, k) := DecodeChar(s).value;
    var rest := Decode(s[k..]);
    if rest.Some? {
      assert result + ([c] + rest.value) == result + [c] + rest.value;
    }
  }

  /** One character of a string body. */
  method NextChar(s: bytes, at: nat) returns (c: nat, k: nat)
    requires at < |s| && DecodeChar(s[at..]).Some?
    ensures DecodeChar(s[at..]) == Some((c, k))
  {
    hide Hex4;
    ghost var t := s[at..];
    assert forall i :: 0 <= i < |t| ==> t[i] == s[at + i];
    if s[at] == BACKSLASH {
      if at + 1 < |s| && IsSimpleEscape(s[at + 1]) {
        return SimpleEscape(s[at + 1]), 2;
      }
      assert IsUnicodeEscape(t);
      assert t[2..] == s[at + 2..];
      var unit := Hex4(s[at + 2..]);
      if 0xD800 <= unit <= 0xDBFF && IsUnicodeEscape(s[at + 6..]) {
        assert t[6..] == s[at + 6..] && t[6..][2..] == s[at + 8..];
        var low := Hex4(s[at + 8..]);
        if 0xDC00 <= low <= 0xDFFF {
          return 0x10000 + (unit - 0xD800) * 1024 + (low - 0xDC00), 12;
        }
      } else {
        assert !IsSurrogatePair(t) by { assert t[6..] == s[at + 6..]; }
      }
      return if 0xD800 <= unit <= 0xDFFF then REPLACEMENT else unit, 6;
    }
    var b := s[at];
    if b < 0x80 {
      return b as nat, 1;
    }
    var width := if 0xC2 <= b <= 0xDF then 2 else if 0xE0 <= b <= 0xEF then 3 else if 0xF0 <= b <= 0xF4 then 4 else 1;
    Sliced(t, width);
    if at + width <= |s| && Utf8.IsValid(s[at..at + width]) {
      assert s[at..at + width] == t[..width];
      return Utf8.CharAt(s[at..at + width]), width;
    }
    assert at + width <= |s| ==> s[at..at + width] == t[..width];
    return REPLACEMENT, 1;
  }

  /** A lead byte's own number of bytes is one valid character or none. */
  lemma Sliced(t: bytes, width: nat)
    requires t != [] && t[0] >= 0x80
    requires width ==
             if 0xC2 <= t[0] <= 0xDF then 2
             else if 0xE0 <= t[0] <= 0xEF then 3
             else if 0xF0 <= t[0] <= 0xF4 then 4
             else 1
    ensures |t| < width ==> Utf8.CharLen(t) == 0
    ensures width <= |t| ==> (Utf8.IsValid(t[..width]) <==> Utf8.CharLen(t) == width)
    ensures width <= |t| && Utf8.CharLen(t) != width ==> Utf8.CharLen(t) == 0
    ensures width <= |t| && Utf8.CharLen(t) == width ==> Utf8.CharAt(t[..width]) == Utf8.CharAt(t)
  {
    if width <= |t| {
      var u := t[..width];
      assert Utf8.CharLen(u) == Utf8.CharLen(t);
      if Utf8.CharLen(u) == width {
        assert u[width..] == [];
      }
    }
  }
}
