/** Validating JSON, and splitting a validated array or object into the texts of its entries. */
module JsonText {
  import opened Bytes
  import opened Wrappers
  import opened Lexemes
  import opened Syntax
  import opened Reader
  import opened Cursors

  // ----- tokens are scalars -----

  lemma DigitsLenPrefix(s: bytes, n: nat)
    requires DigitsLen(s) <= n <= |s|
    ensures DigitsLen(s[..n]) == DigitsLen(s)
  {
    var k := DigitsLen(s[..n]);
    assert forall i :: 0 <= i < n ==> s[..n][i] == s[i];
  }

  lemma IntegerLenPrefix(s: bytes, n: nat)
    requires IntegerLen(s).Some? && IntegerLen(s).value <= n <= |s|
    ensures IntegerLen(s[..n]) == IntegerLen(s)
  {
    hide DigitsLen;
    if s[0] != ZERO {
      DigitsLenPrefix(s, n);
    }
  }

  lemma FractionLenPrefix(s: bytes, n: nat)
    requires FractionLen(s).Some? && FractionLen(s).value <= n <= |s|
    ensures FractionLen(s[..n]) == FractionLen(s)
  {
    hide DigitsLen;
    if s != [] && s[0] == DOT {
      DigitsLenPrefix(s[1..], n - 1);
      assert s[..n][1..] == s[1..][..n - 1];
    }
  }

  lemma ExponentLenPrefix(s: bytes, n: nat)
    requires ExponentLen(s).Some? && ExponentLen(s).value <= n <= |s|
    ensures ExponentLen(s[..n]) == ExponentLen(s)
  {
    hide DigitsLen;
    if s != [] && (s[0] == 0x65 || s[0] == 0x45) {
      var m := if |s| > 1 && (s[1] == PLUS || s[1] == MINUS) then 2 else 1;
      DigitsLenPrefix(s[m..], n - m);
      assert s[..n][m..] == s[m..][..n - m];
    }
  }

  lemma NumberLenPrefix(s: bytes)
    requires NumberLen(s).Some?
    ensures IsNumber(s[..NumberLen(s).value])
  {
    hide IntegerLen, FractionLen, ExponentLen;
    var n := NumberLen(s).value;
    var m := if s != [] && s[0] == MINUS then 1 else 0;
    var i := m + IntegerLen(s[m..]).value;
    var f := i + FractionLen(s[i..]).value;
    IntegerLenPrefix(s[m..], n - m);
    FractionLenPrefix(s[i..], n - i);
    ExponentLenPrefix(s[f..], n - f);
    assert s[..n][m..] == s[m..][..n - m] && s[..n][i..] == s[i..][..n - i] && s[..n][f..] == s[f..][..n - f];
  }

  lemma TokenIsScalar(s: bytes)
    requires TokenLen(s).Some?
    ensures IsScalar(s[..TokenLen(s).value])
  {
    hide NumberLen, StringTail;
    var n := TokenLen(s).value;
    if s[0] == QUOTE {
      StringTailPrefix(s[1..], n - 1);
      assert s[..n][1..] == s[1..][..n - 1];
    } else if s[0] == MINUS || IsDigit(s[0]) {
      NumberLenPrefix(s);
    }
  }

  // ----- the walker accepts what the grammar derives -----

  /** Whatever is read is a value of the grammar within the nesting limit. */
  lemma PrefixSound(s: bytes, limit: Option<nat>, t: bytes)
    requires BodyRest(s, limit, 0) == Some(t)
    ensures exists body :: WfBody(body, Json) && s == BodyText(body, t) && Fits(limit, 0, DepthBody(body))
  {
    hide ReadBody, TokenLen, WfBody, BodyText, DepthBody;
    if s[0] == OPEN_BRACE || s[0] == OPEN_BRACKET {
      var body := ReadBody(s, Json).value.0;
      BodySound(s, Json, body, t);
    } else {
      TokenIsScalar(s);
      ScalarBody(s, TokenLen(s).value, limit);
    }
  }

  lemma {:induction false} ScalarBody(s: bytes, k: nat, limit: Option<nat>)
    requires k <= |s| && IsScalar(s[..k])
    ensures var body := Scalar(s[..k]);
            WfBody(body, Json) && s == BodyText(body, s[k..]) && Fits(limit, 0, DepthBody(body))
  {
  }

  /** A number could run on into what follows; every other value ends by itself. */
  predicate Ends(body: Body, t: bytes) {
    body.Group? || !IsNumber(body.text) || StopsWord(t)
  }

  /** Every value of the grammar within the limit is read, whatever follows it. */
  lemma PrefixComplete(body: Body, t: bytes, limit: Option<nat>, h: nat)
    requires WfBody(body, Json) && Fits(limit, h, DepthBody(body)) && Ends(body, t)
    ensures BodyRest(BodyText(body, t), limit, h) == Some(t)
  {
    hide TokenLen, ReadItems, ItemsText, WfItems, IsScalar, DepthItems;
    BodyStart(body, t, Json);
    match body
    case Scalar(text) =>
      TokenComplete(text, t);
      SplitAt(text, t);
    case Group(obj, items) =>
      ItemsComplete(items, obj, t, Json, true);
      SplitAt([Opener(obj)], ItemsText(items, obj, t));
  }

  lemma TokenComplete(text: bytes, t: bytes)
    requires IsScalar(text) && (!IsNumber(text) || StopsWord(t))
    ensures TokenLen(text + t) == Some(|text|)
  {
    hide StringTail, NumberLen;
    if IsString(text) {
      StringTailExtend(text[1..], t);
      assert (text + t)[1..] == text[1..] + t;
    } else if IsNumber(text) {
      NumberStart(text);
      NumberLenStops(text, t);
    } else {
      assert text <= text + t;
    }
  }

  // ----- whole documents -----

  predicate Validated(s: bytes, limit: Option<nat>) {
    var t := BodyRest(Skip(s), limit, 0);
    t.Some? && Skip(t.value) == []
  }

  /** Validation accepts exactly the documents of the grammar within the nesting limit. */
  lemma ValidatedExact(s: bytes, limit: Option<nat>)
    ensures Validated(s, limit) <==>
            ReadDocument(s, Json).Some? && Fits(limit, 0, DepthNode(ReadDocument(s, Json).value))
  {
    hide ReadBody, Skip, TokenLen, ScalarLen;
    ReadNodeParts(s);
    var u := Skip(s);
    if u != [] && u[0] != OPEN_BRACE && u[0] != OPEN_BRACKET {
      ScalarRead(u);
      TokenOrWord(u);
      if TokenLen(u).Some? && ScalarLen(u).None? {
        WordStays(u[TokenLen(u).value..]);
      }
    }
  }

  lemma ScalarRead(u: bytes)
    requires u != [] && u[0] != OPEN_BRACE && u[0] != OPEN_BRACKET
    ensures ReadBody(u, Json) ==
            if ScalarLen(u).None? then None else Some((Scalar(u[..ScalarLen(u).value]), u[ScalarLen(u).value..]))
  {
    hide ScalarLen;
  }

  lemma WordStays(s: bytes)
    requires s != [] && IsWordByte(s[0])
    ensures Skip(s) == s
  {
  }

  method Validate(s: bytes, limit: nat) returns (ok: bool)
    ensures ok <==> ReadDocument(s, Json).Some? && DepthNode(ReadDocument(s, Json).value) <= limit
  {
    hide BodyRest, Skip, ReadDocument, DepthNode;
    ValidatedExact(s, Some(limit));
    var c := new Cursor(s);
    assert c.Left() == s;
    var start: nat;
    ok, start := ValueWithDepth(c, Some(limit));
    if ok {
      ok := c.Done();
    }
  }
}
