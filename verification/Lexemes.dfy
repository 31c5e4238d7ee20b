/** The terminal symbols of JSON and HuJSON: strings, words and the extras between tokens. */
module Lexemes {
  import opened Bytes
  import opened Wrappers
  import Utf8

  /** JSON, or JSON with comments and trailing commas. */
  datatype Dialect = Json | HuJson

  const TRUE: bytes := [0x74, 0x72, 0x75, 0x65]
  const FALSE: bytes := [0x66, 0x61, 0x6C, 0x73, 0x65]
  const NULL: bytes := [0x6E, 0x75, 0x6C, 0x6C]

  function Plus(k: nat, n: Option<nat>): Option<nat> {
    if n.None? then None else Some(k + n.value)
  }

  // ----- strings -----

  predicate IsSimpleEscape(b: byte) {
    b == QUOTE || b == BACKSLASH || b == SLASH || b == 0x62 || b == 0x66 || b == 0x6E || b == 0x72 || b == 0x74
  }

  /** The width of the first character or escape of a string body; 0 when it is not allowed there. */
  function UnitLen(s: bytes): (n: nat)
    ensures n <= |s|
  {
    if s == [] || s[0] == QUOTE || s[0] < SPACE then 0
    else if s[0] != BACKSLASH then 1
    else if |s| >= 2 && IsSimpleEscape(s[1]) then 2
    else if |s| >= 6 && s[1] == 0x75 && IsHex(s[2]) && IsHex(s[3]) && IsHex(s[4]) && IsHex(s[5]) then 6
    else 0
  }

  /** For text that follows an opening quote: the width up to and including the closing quote. */
  function StringTail(s: bytes): (n: Option<nat>)
    ensures n.Some? ==> 0 < n.value <= |s|
  {
    if s == [] then None
    else if s[0] == QUOTE then Some(1)
    else
      var k := UnitLen(s);
      if k == 0 then None else Plus(k, StringTail(s[k..]))
  }

  predicate IsString(t: bytes) {
    t != [] && t[0] == QUOTE && StringTail(t[1..]) == Some(|t| - 1)
  }

  lemma {:induction false} StringTailPrefix(s: bytes, n: nat)
    requires StringTail(s) == Some(n)
    ensures StringTail(s[..n]) == Some(n)
  {
    if s[0] != QUOTE {
      var k := UnitLen(s);
      StringTailPrefix(s[k..], n - k);
      assert 0 <= k <= n <= |s|;
      assert s[..n][k..] == s[k..][..n - k];
      assert UnitLen(s[..n]) == k;
    }
  }

  lemma {:induction false} StringTailExtend(s: bytes, r: bytes)
    requires StringTail(s).Some?
    ensures StringTail(s + r) == StringTail(s)
  {
    if s[0] != QUOTE {
      var k := UnitLen(s);
      StringTailExtend(s[k..], r);
      assert (s + r)[k..] == s[k..] + r;
      assert UnitLen(s + r) == k;
    }
  }

  // ----- words: numbers and keywords -----

  function IntegerLen(s: bytes): (n: Option<nat>)
    ensures n.Some? ==> 0 < n.value <= |s|
    ensures n.Some? ==> forall i :: 0 <= i < n.value ==> IsWordByte(s[i])
  {
    if s == [] || !IsDigit(s[0]) then None
    else if s[0] == ZERO then Some(1)
    else Some(DigitsLen(s))
  }

  function FractionLen(s: bytes): (n: Option<nat>)
    ensures n.Some? ==> n.value <= |s|
    ensures n.Some? ==> forall i :: 0 <= i < n.value ==> IsWordByte(s[i])
  {
    if s == [] || s[0] != DOT then Some(0)
    else
      var k := DigitsLen(s[1..]);
      assert forall i :: 1 <= i < 1 + k ==> s[i] == s[1..][i - 1];
      if k == 0 then None else Some(1 + k)
  }

  function ExponentLen(s: bytes): (n: Option<nat>)
    ensures n.Some? ==> n.value <= |s|
    ensures n.Some? ==> forall i :: 0 <= i < n.value ==> IsWordByte(s[i])
  {
    if s == [] || !IsMark(s[0]) then Some(0)
    else
      var m := if |s| > 1 && (s[1] == PLUS || s[1] == MINUS) then 2 else 1;
      var k := DigitsLen(s[m..]);
      assert forall i :: m <= i < m + k ==> s[i] == s[m..][i - m];
      if k == 0 then None else Some(m + k)
  }

  /** The greedy width of a number at the start of `s`. */
  function NumberLen(s: bytes): (n: Option<nat>)
    ensures n.Some? ==> 0 < n.value <= |s|
  {
    var m := if s != [] && s[0] == MINUS then 1 else 0;
    var i :- IntegerLen(s[m..]);
    var f :- FractionLen(s[m + i..]);
    var e :- ExponentLen(s[m + i + f..]);
    Some(m + i + f + e)
  }

  predicate IsNumber(t: bytes) {
    NumberLen(t) == Some(|t|)
  }

  predicate IsWordByte(b: byte) {
    IsAlphanumeric(b) || b == MINUS || b == PLUS || b == DOT
  }

  function WordLen(s: bytes): (n: nat)
    ensures n <= |s|
    ensures forall i :: 0 <= i < n ==> IsWordByte(s[i])
    ensures n < |s| ==> !IsWordByte(s[n])
  {
    if s == [] || !IsWordByte(s[0]) then 0 else 1 + WordLen(s[1..])
  }

  predicate IsWord(t: bytes) {
    t == TRUE || t == FALSE || t == NULL || IsNumber(t)
  }

  /** A complete JSON scalar. */
  predicate IsScalar(t: bytes) {
    IsString(t) || IsWord(t)
  }

  /** The width of the scalar at the start of `s`; a word extends over every word byte. */
  function ScalarLen(s: bytes): (n: Option<nat>)
    ensures n.Some? ==> 0 < n.value <= |s|
  {
    if s == [] then None
    else if s[0] == QUOTE then Plus(1, StringTail(s[1..]))
    else
      var k := WordLen(s);
      if k > 0 && IsWord(s[..k]) then Some(k) else None
  }

  lemma WordLenPrefix(s: bytes, t: bytes, r: bytes)
    requires s == t + r
    requires forall i :: 0 <= i < |t| ==> IsWordByte(t[i])
    requires r == [] || !IsWordByte(r[0])
    ensures WordLen(s) == |t|
  {
    assert forall i :: 0 <= i < |t| ==> s[i] == t[i];
    assert r != [] ==> s[|t|] == r[0];
  }

  lemma NumberBytes(t: bytes)
    requires NumberLen(t).Some?
    ensures forall i :: 0 <= i < NumberLen(t).value ==> IsWordByte(t[i])
  {
    hide IntegerLen, FractionLen, ExponentLen;
    var m := if t != [] && t[0] == MINUS then 1 else 0;
    var i := IntegerLen(t[m..]).value;
    var f := FractionLen(t[m + i..]).value;
    forall j | 0 <= j < NumberLen(t).value ensures IsWordByte(t[j]) {
      if m <= j < m + i {
        assert t[j] == t[m..][j - m];
      } else if m + i <= j < m + i + f {
        assert t[j] == t[m + i..][j - m - i];
      } else if m + i + f <= j {
        assert t[j] == t[m + i + f..][j - m - i - f];
      }
    }
  }

  lemma WordBytes(t: bytes)
    requires IsWord(t)
    ensures t != [] && forall i :: 0 <= i < |t| ==> IsWordByte(t[i])
  {
    if IsNumber(t) {
      NumberBytes(t);
    }
  }

  lemma QuoteIsString(t: bytes)
    requires IsScalar(t) && t != [] && t[0] == QUOTE
    ensures IsString(t)
  {
    hide StringTail;
    if !IsString(t) {
      WordBytes(t);
      assert false;
    }
  }

  /** `ScalarLen` finds exactly the scalars. */
  lemma ScalarLenSound(s: bytes)
    requires ScalarLen(s).Some?
    ensures IsScalar(s[..ScalarLen(s).value])
  {
    if s[0] == QUOTE {
      var n := StringTail(s[1..]).value;
      StringTailPrefix(s[1..], n);
      assert s[..n + 1][1..] == s[1..][..n];
    }
  }

  lemma ScalarLenComplete(t: bytes, r: bytes)
    requires IsScalar(t)
    requires r == [] || !IsWordByte(r[0])
    ensures ScalarLen(t + r) == Some(|t|)
  {
    if IsString(t) {
      StringTailExtend(t[1..], r);
      assert (t + r)[1..] == t[1..] + r;
    } else {
      WordBytes(t);
      WordLenPrefix(t + r, t, r);
      assert (t + r)[..|t|] == t;
      assert IsWordByte(t[0]);
    }
  }

  // ----- extras: whitespace, and in HuJSON also comments -----

  predicate StartsComment(s: bytes) {
    |s| >= 2 && s[0] == SLASH && (s[1] == SLASH || s[1] == STAR)
  }

  /** The width through the first line feed. */
  function LineEnd(s: bytes): (n: Option<nat>)
    ensures n.Some? ==> 0 < n.value <= |s|
  {
    if s == [] then None else if s[0] == LF then Some(1) else Plus(1, LineEnd(s[1..]))
  }

  /** The width through the first star-slash pair. */
  function BlockEnd(s: bytes): (n: Option<nat>)
    ensures n.Some? ==> 1 < n.value <= |s|
  {
    if |s| < 2 then None
    else if s[0] == STAR && s[1] == SLASH then Some(2)
    else Plus(1, BlockEnd(s[1..]))
  }

  function CommentLen(s: bytes): (n: Option<nat>)
    requires StartsComment(s)
    ensures n.Some? ==> 2 < n.value <= |s|
  {
    Plus(2, if s[1] == SLASH then LineEnd(s[2..]) else BlockEnd(s[2..]))
  }

  /** The width of the extra at the start of `s`; `None` for an unterminated or ill-encoded comment. */
  function ExtraLen(s: bytes, d: Dialect): (n: Option<nat>)
    ensures n.Some? ==> n.value <= |s|
    decreases |s|
  {
    if s == [] then Some(0)
    else if IsSpace(s[0]) then Plus(1, ExtraLen(s[1..], d))
    else if d.HuJson? && StartsComment(s) then
      var k :- CommentLen(s);
      if Utf8.IsValid(s[..k]) then Plus(k, ExtraLen(s[k..], d)) else None
    else Some(0)
  }

  predicate IsExtra(e: bytes, d: Dialect) {
    ExtraLen(e, d) == Some(|e|)
  }

  /** `r` cannot continue an extra. */
  predicate StopsExtra(r: bytes) {
    r == [] || !(IsSpace(r[0]) || r[0] == SLASH)
  }

  lemma {:induction false} LineEndLocal(s: bytes, r: bytes)
    ensures LineEnd(s).Some? ==> LineEnd(s + r) == LineEnd(s) && LineEnd(s[..LineEnd(s).value]) == LineEnd(s)
  {
    if s != [] && s[0] != LF {
      LineEndLocal(s[1..], r);
      assert (s + r)[1..] == s[1..] + r;
      if LineEnd(s).Some? {
        assert s[..LineEnd(s).value][1..] == s[1..][..LineEnd(s).value - 1];
      }
    }
  }

  lemma {:induction false} BlockEndLocal(s: bytes, r: bytes)
    ensures BlockEnd(s).Some? ==> BlockEnd(s + r) == BlockEnd(s) && BlockEnd(s[..BlockEnd(s).value]) == BlockEnd(s)
  {
    if |s| >= 2 && !(s[0] == STAR && s[1] == SLASH) {
      BlockEndLocal(s[1..], r);
      assert (s + r)[1..] == s[1..] + r;
      if BlockEnd(s).Some? {
        assert s[..BlockEnd(s).value][1..] == s[1..][..BlockEnd(s).value - 1];
      }
    }
  }

  lemma CommentLenLocal(s: bytes, r: bytes)
    requires StartsComment(s) && CommentLen(s).Some?
    ensures StartsComment(s + r) && CommentLen(s + r) == CommentLen(s)
    ensures StartsComment(s[..CommentLen(s).value]) && CommentLen(s[..CommentLen(s).value]) == CommentLen(s)
  {
    var k := CommentLen(s).value;
    LineEndLocal(s[2..], r);
    BlockEndLocal(s[2..], r);
    assert (s + r)[2..] == s[2..] + r;
    assert s[..k][2..] == s[2..][..k - 2];
  }

  /** An extra is read whole when nothing after it could extend it. */
  lemma {:induction false} ExtraLenComplete(e: bytes, r: bytes, d: Dialect)
    requires IsExtra(e, d) && StopsExtra(r)
    ensures ExtraLen(e + r, d) == Some(|e|)
    decreases |e|
  {
    hide CommentLen, Utf8.IsValid;
    if e == [] {
      assert e + r == r;
    } else if IsSpace(e[0]) {
      ExtraLenComplete(e[1..], r, d);
      assert (e + r)[1..] == e[1..] + r;
    } else {
      var k := CommentLen(e).value;
      CommentLenLocal(e, r);
      ExtraLenComplete(e[k..], r, d);
      assert (e + r)[k..] == e[k..] + r;
      assert (e + r)[..k] == e[..k];
    }
  }

  lemma {:induction false} ExtraLenSound(s: bytes, d: Dialect)
    requires ExtraLen(s, d).Some?
    ensures IsExtra(s[..ExtraLen(s, d).value], d)
    decreases |s|
  {
    hide CommentLen, Utf8.IsValid;
    var n := ExtraLen(s, d).value;
    if s != [] && IsSpace(s[0]) {
      ExtraLenSound(s[1..], d);
      assert s[..n][1..] == s[1..][..n - 1];
    } else if d.HuJson? && StartsComment(s) {
      var k := CommentLen(s).value;
      CommentLenLocal(s, []);
      ExtraLenSound(s[k..], d);
      CommentLenLocal(s[..k], s[k..n]);
      assert s[..k] + s[k..n] == s[..n];
      assert s[..n][k..] == s[k..][..n - k];
      assert s[..n][..k] == s[..k];
    }
  }

  /** Reading an extra leaves nothing more to read. */
  lemma {:induction false} ExtraLenStops(s: bytes, d: Dialect)
    requires ExtraLen(s, d).Some?
    ensures ExtraLen(s[ExtraLen(s, d).value..], d) == Some(0)
    decreases |s|
  {
    var n := ExtraLen(s, d).value;
    if s != [] && IsSpace(s[0]) {
      ExtraLenStops(s[1..], d);
      assert s[1..][n - 1..] == s[n..];
    } else if d.HuJson? && StartsComment(s) {
      var k := CommentLen(s).value;
      ExtraLenStops(s[k..], d);
      assert s[k..][n - k..] == s[n..];
    }
  }

  // ----- the scanner's tokens, which end as soon as they can -----

  predicate StopsWord(r: bytes) {
    r == [] || !IsWordByte(r[0])
  }

  lemma DigitsLenStops(s: bytes, r: bytes)
    requires StopsWord(r)
    ensures DigitsLen(s + r) == DigitsLen(s)
  {
    var n := DigitsLen(s + r);
    assert forall i :: 0 <= i < |s| ==> (s + r)[i] == s[i];
    assert r != [] ==> (s + r)[|s|] == r[0];
  }

  lemma IntegerLenStops(s: bytes, r: bytes)
    requires StopsWord(r)
    ensures IntegerLen(s + r) == IntegerLen(s)
  {
    DigitsLenStops(s, r);
    assert s + r != [] ==> (s + r)[0] == if s == [] then r[0] else s[0];
  }

  lemma FractionLenStops(s: bytes, r: bytes)
    requires StopsWord(r)
    ensures FractionLen(s + r) == FractionLen(s)
  {
    hide DigitsLen, IsWordByte;
    StopsNumber(r);
    if s != [] {
      DigitsLenStops(s[1..], r);
      assert (s + r)[1..] == s[1..] + r;
    } else {
      assert s + r == r;
    }
  }

  lemma StopsNumber(r: bytes)
    requires StopsWord(r)
    ensures r != [] ==> r[0] != PLUS && r[0] != MINUS && r[0] != DOT && !IsMark(r[0])
  {
  }

  lemma ExponentLenStops(s: bytes, r: bytes)
    requires StopsWord(r)
    ensures ExponentLen(s + r) == ExponentLen(s)
  {
    hide DigitsLen, IsWordByte;
    StopsNumber(r);
    if s != [] {
      assert |s| == 1 && r != [] ==> (s + r)[1] == r[0];
      var m := if |s| > 1 && (s[1] == PLUS || s[1] == MINUS) then 2 else 1;
      DigitsLenStops(s[m..], r);
      assert (s + r)[m..] == s[m..] + r;
    } else {
      assert s + r == r;
    }
  }

  /** What follows a number cannot change its reading unless it is a word byte. */
  lemma NumberLenStops(s: bytes, r: bytes)
    requires StopsWord(r)
    ensures NumberLen(s + r) == NumberLen(s)
  {
    hide IntegerLen, FractionLen, ExponentLen;
    var m := if s != [] && s[0] == MINUS then 1 else 0;
    assert s == [] && r != [] ==> (s + r)[0] == r[0];
    assert (s + r)[m..] == s[m..] + r;
    IntegerLenStops(s[m..], r);
    if IntegerLen(s[m..]).Some? {
      var i := m + IntegerLen(s[m..]).value;
      assert (s + r)[i..] == s[i..] + r;
      FractionLenStops(s[i..], r);
      if FractionLen(s[i..]).Some? {
        var f := i + FractionLen(s[i..]).value;
        assert (s + r)[f..] == s[f..] + r;
        ExponentLenStops(s[f..], r);
      }
    }
  }

  /** The width of the scalar token at the start of `s`, read no further than its own grammar goes. */
  function TokenLen(s: bytes): (n: Option<nat>)
    ensures n.Some? ==> 0 < n.value <= |s|
  {
    if s == [] then None
    else if s[0] == QUOTE then Plus(1, StringTail(s[1..]))
    else if s[0] == MINUS || IsDigit(s[0]) then NumberLen(s)
    else if TRUE <= s then Some(4)
    else if FALSE <= s then Some(5)
    else if NULL <= s then Some(4)
    else None
  }

  /** A scalar is one token; a token that is not a scalar is cut short inside a longer word. */
  lemma TokenOrWord(s: bytes)
    ensures ScalarLen(s).Some? ==> TokenLen(s) == ScalarLen(s)
    ensures TokenLen(s).Some? && ScalarLen(s).None? ==> TokenLen(s).value < |s| && IsWordByte(s[TokenLen(s).value])
  {
    hide NumberLen, StringTail;
    if s != [] && s[0] != QUOTE {
      var k := WordLen(s);
      assert s == s[..k] + s[k..];
      NumberLenStops(s[..k], s[k..]);
      if ScalarLen(s).Some? {
        WordToken(s, k);
      }
      if TokenLen(s).Some? {
        TokenInWord(s);
      }
    }
  }

  lemma WordToken(s: bytes, k: nat)
    requires 0 < k <= |s| && IsWord(s[..k]) && NumberLen(s) == NumberLen(s[..k])
    ensures TokenLen(s) == Some(k)
  {
    hide StringTail;
    if IsNumber(s[..k]) {
      NumberStart(s[..k]);
    }
  }

  lemma NumberStart(t: bytes)
    requires NumberLen(t).Some?
    ensures t != [] && (t[0] == MINUS || IsDigit(t[0]))
  {
    hide FractionLen, ExponentLen;
  }

  lemma {:induction false} TokenInWord(s: bytes)
    requires s != [] && s[0] != QUOTE && TokenLen(s).Some?
    ensures TokenLen(s).value <= WordLen(s)
    ensures TokenLen(s).value == WordLen(s) ==> NumberLen(s) == Some(WordLen(s)) || IsWord(s[..WordLen(s)])
  {
    hide NumberLen;
    var n := TokenLen(s).value;
    if s[0] == MINUS || IsDigit(s[0]) {
      NumberBytes(s);
    } else {
      assert forall i :: 0 <= i < n ==> s[i] == s[..n][i];
    }
    assert forall i :: 0 <= i < n ==> IsWordByte(s[i]);
  }
}
