/** How the HuJSON parser delimits a literal before the JSON grammar judges it. */
module Literals {
  import opened Bytes
  import opened Wrappers
  import opened Lexemes
  import opened Syntax
  import opened Reader

  const MAX_DEPTH: nat := 10000

  /** The text is one JSON document, with at most the permitted container nesting. */
  predicate CheckValid(s: bytes) {
    var n := ReadDocument(s, Json);
    n.Some? && DepthNode(n.value) <= MAX_DEPTH
  }

  /** Inside a string: whether the byte after `b` is escaped. */
  predicate Escapes(b: byte, escaped: bool) {
    !escaped && b == BACKSLASH
  }

  /** Inside a string: whether `b` closes it. */
  predicate EndsString(b: byte, escaped: bool) {
    !escaped && b == QUOTE
  }

  /** After an opening quote: the width through the first unescaped quote. */
  function QuoteScan(s: bytes, escaped: bool): (n: Option<nat>)
    ensures n.Some? ==> 0 < n.value <= |s| && s[n.value - 1] == QUOTE
  {
    if s == [] then None
    else if !escaped && s[0] == QUOTE then Some(1)
    else Plus(1, QuoteScan(s[1..], !escaped && s[0] == BACKSLASH))
  }

  lemma QuoteScanStep(s: bytes, escaped: bool)
    requires QuoteScan(s, escaped).Some?
    ensures s != []
    ensures QuoteScan(s, escaped) ==
            if EndsString(s[0], escaped) then Some(1) else Plus(1, QuoteScan(s[1..], Escapes(s[0], escaped)))
  {
  }

  lemma {:induction false} QuoteScanPlain(s: bytes, k: nat)
    requires k <= |s| && forall i :: 0 <= i < k ==> s[i] != QUOTE && s[i] != BACKSLASH
    ensures QuoteScan(s, false) == Plus(k, QuoteScan(s[k..], false))
  {
    if k > 0 {
      QuoteScanPlain(s[1..], k - 1);
      assert s[1..][k - 1..] == s[k..];
    }
  }

  lemma {:induction false} QuoteScanUnit(s: bytes)
    requires UnitLen(s) > 0
    ensures QuoteScan(s, false) == Plus(UnitLen(s), QuoteScan(s[UnitLen(s)..], false))
  {
    var k := UnitLen(s);
    if s[0] == BACKSLASH {
      assert s[1..][1..] == s[2..];
      QuoteScanPlain(s[2..], k - 2);
      assert s[2..][k - 2..] == s[k..];
    }
  }

  /** A well-formed string ends at its first unescaped quote. */
  lemma {:induction false} StringTailScan(s: bytes)
    requires StringTail(s).Some?
    ensures QuoteScan(s, false) == StringTail(s)
  {
    if s[0] != QUOTE {
      QuoteScanUnit(s);
      StringTailScan(s[UnitLen(s)..]);
    }
  }

  /** JSON extras are whitespace only, and there is always one to read. */
  lemma {:induction false} JsonExtra(s: bytes)
    ensures ExtraLen(s, Json).Some? && AllSpace(s[..ExtraLen(s, Json).value])
  {
    if s != [] && IsSpace(s[0]) {
      JsonExtra(s[1..]);
      var n := ExtraLen(s, Json).value;
      assert forall i :: 1 <= i < n ==> s[i] == s[1..][..n - 1][i - 1];
    }
  }

  /** A text that neither starts with a bracket nor touches whitespace at either end is a document only as a scalar. */
  lemma ScalarDocument(t: bytes)
    requires t != [] && t[0] != OPEN_BRACE && t[0] != OPEN_BRACKET
    requires !IsSpace(t[0]) && !IsSpace(t[|t| - 1])
    ensures CheckValid(t) <==> ScalarLen(t) == Some(|t|)
  {
    hide ScalarLen;
    assert t[0..] == t;
    if ScalarLen(t).None? {
      assert ReadBody(t, Json).None?;
    } else {
      var k := ScalarLen(t).value;
      JsonExtra(t[k..]);
      var a := ExtraLen(t[k..], Json).value;
      if a > 0 {
        assert t[k + a - 1] == t[k..][..a][a - 1];
      }
      assert ReadBody(t, Json) == Some((Scalar(t[..k]), t[k..]));
      var n := Node(t[..0], Scalar(t[..k]), t[k..][..a]);
      assert ReadNode(t, Json) == Some((n, t[k..][a..]));
      assert t[k..][a..] == [] <==> k + a == |t|;
      assert DepthNode(n) == 0;
      assert ReadDocument(t, Json).Some? <==> k + a == |t|;
    }
  }

  lemma LiteralString(s: bytes)
    requires s != [] && s[0] == QUOTE
    ensures var n := QuoteScan(s[1..], false);
            ScalarLen(s) == if n.Some? && CheckValid(s[..n.value + 1]) then Some(n.value + 1) else None
  {
    hide CheckValid;
    var n := QuoteScan(s[1..], false);
    if n.Some? {
      var t := s[..n.value + 1];
      ScalarDocument(t);
      assert t[1..] == s[1..][..n.value];
      if ScalarLen(t) == Some(|t|) {
        StringTailExtend(t[1..], s[|t|..]);
        assert t[1..] + s[|t|..] == s[1..];
      }
    }
    if StringTail(s[1..]).Some? {
      StringTailScan(s[1..]);
      StringTailPrefix(s[1..], n.value);
    }
  }

  lemma LiteralWord(s: bytes)
    requires s != [] && s[0] != QUOTE && s[0] != OPEN_BRACE && s[0] != OPEN_BRACKET
    ensures var k := WordLen(s);
            ScalarLen(s) == if k > 0 && CheckValid(s[..k]) then Some(k) else None
  {
    hide CheckValid, IsWord;
    var k := WordLen(s);
    if k > 0 {
      var t := s[..k];
      ScalarDocument(t);
      WordLenPrefix(t, t, []);
      assert t[..k] == t;
    }
  }
}
