/**
 The recursive-descent reading of JSON and HuJSON, and the proof that it is the
 exact inverse of printing: it accepts a text if and only if some well-formed tree
 prints to it, and then returns that tree, which is unique.
 */
module Reader {
  import opened Bytes
  import opened Wrappers
  import opened Lexemes
  import opened Syntax

  function ReadNode(s: bytes, d: Dialect): (r: Option<(Node, bytes)>)
    ensures r.Some? ==> |r.value.1| < |s|
    decreases |s|, 3
  {
    var b :- ExtraLen(s, d);
    var (body, t) :- ReadBody(s[b..], d);
    var a :- ExtraLen(t, d);
    Some((Node(s[..b], body, t[..a]), t[a..]))
  }

  function ReadBody(s: bytes, d: Dialect): (r: Option<(Body, bytes)>)
    ensures r.Some? ==> |r.value.1| < |s|
    decreases |s|, 2
  {
    if s == [] then None
    else if s[0] == OPEN_BRACE || s[0] == OPEN_BRACKET then
      var (items, t) :- ReadItems(s[1..], s[0] == OPEN_BRACE, d, true);
      Some((Group(s[0] == OPEN_BRACE, items), t))
    else
      var k :- ScalarLen(s);
      Some((Scalar(s[..k]), s[k..]))
  }

  function ReadItems(s: bytes, obj: bool, d: Dialect, first: bool): (r: Option<(Items, bytes)>)
    ensures r.Some? ==> |r.value.1| < |s|
    decreases |s|, 5
  {
    var e :- ExtraLen(s, d);
    if e < |s| && s[e] == Closer(obj) then
      if first || d.HuJson? then Some((Close(s[..e]), s[e + 1..])) else None
    else
      var (item, t) :- ReadItem(s, obj, d);
      var (after, u) :- ReadAfter(t, obj, d);
      Some((if after.None? then Last(item) else More(item, after.value), u))
  }

  /** After an item: the rest of the items when a comma follows, nothing when the container closes. */
  function ReadAfter(s: bytes, obj: bool, d: Dialect): (r: Option<(Option<Items>, bytes)>)
    ensures r.Some? ==> |r.value.1| < |s|
    decreases |s|, 1
  {
    if s == [] then None
    else if s[0] == COMMA then
      var (rest, t) :- ReadItems(s[1..], obj, d, false);
      Some((Some(rest), t))
    else if s[0] == Closer(obj) then Some((None, s[1..]))
    else None
  }

  function ReadItem(s: bytes, obj: bool, d: Dialect): (r: Option<(Item, bytes)>)
    ensures r.Some? ==> |r.value.1| < |s|
    decreases |s|, 4
  {
    var (n, t) :- ReadNode(s, d);
    if !obj then Some((Element(n), t))
    else if !IsName(n) || t == [] || t[0] != COLON then None
    else
      var (v, u) :- ReadNode(t[1..], d);
      Some((Member(n, v), u))
  }

  function ReadDocument(s: bytes, d: Dialect): (r: Option<Node>) {
    var (n, t) :- ReadNode(s, d);
    if t == [] then Some(n) else None
  }

  // ----- reading is sound: what is read is well-formed and prints back to the text read -----

  lemma {:induction false} NodeSound(s: bytes, d: Dialect, n: Node, r: bytes)
    requires ReadNode(s, d) == Some((n, r))
    ensures WfNode(n, d) && s == NodeText(n, r)
    decreases |s|, 3
  {
    hide ReadBody, WfBody, BodyText, ExtraLen;
    var b := ExtraLen(s, d).value;
    ExtraLenSound(s, d);
    var (body, t) := ReadBody(s[b..], d).value;
    BodySound(s[b..], d, body, t);
    ExtraLenSound(t, d);
    assert t == n.after + r;
  }

  lemma {:induction false} BodySound(s: bytes, d: Dialect, body: Body, r: bytes)
    requires ReadBody(s, d) == Some((body, r))
    ensures WfBody(body, d) && s == BodyText(body, r)
    decreases |s|, 2
  {
    hide ReadItems, WfItems, ItemsText, ScalarLen, IsScalar;
    if s[0] == OPEN_BRACE || s[0] == OPEN_BRACKET {
      ItemsSound(s[1..], s[0] == OPEN_BRACE, d, true, body.items, r);
    } else {
      ScalarLenSound(s);
    }
  }

  lemma {:induction false} ItemsSound(s: bytes, obj: bool, d: Dialect, first: bool, items: Items, r: bytes)
    requires ReadItems(s, obj, d, first) == Some((items, r))
    ensures WfItems(items, obj, d, first) && s == ItemsText(items, obj, r)
    decreases |s|, 5
  {
    hide ReadItem, ReadAfter, WfItem, ItemText, ExtraLen;
    var e := ExtraLen(s, d).value;
    if e < |s| && s[e] == Closer(obj) {
      ExtraLenSound(s, d);
    } else {
      var (item, t) := ReadItem(s, obj, d).value;
      ItemSound(s, obj, d, item, t);
      var after := ReadAfter(t, obj, d).value.0;
      AfterSound(t, obj, d, after, r);
    }
  }

  lemma {:induction false} AfterSound(s: bytes, obj: bool, d: Dialect, after: Option<Items>, r: bytes)
    requires ReadAfter(s, obj, d) == Some((after, r))
    ensures after.None? ==> s == [Closer(obj)] + r
    ensures after.Some? ==> WfItems(after.value, obj, d, false) && s == [COMMA] + ItemsText(after.value, obj, r)
    decreases |s|, 1
  {
    hide ReadItems, WfItems, ItemsText;
    if s[0] == COMMA {
      ItemsSound(s[1..], obj, d, false, after.value, r);
    }
  }

  lemma {:induction false} ItemSound(s: bytes, obj: bool, d: Dialect, item: Item, r: bytes)
    requires ReadItem(s, obj, d) == Some((item, r))
    ensures WfItem(item, obj, d) && s == ItemText(item, r)
    decreases |s|, 4
  {
    hide ReadNode, WfNode, NodeText;
    var (n, t) := ReadNode(s, d).value;
    NodeSound(s, d, n, t);
    if obj {
      NodeSound(t[1..], d, item.value, r);
      assert t == [COLON] + t[1..];
    }
  }

  // ----- reading is complete: every well-formed tree is read back from its text -----

  /** What may follow a value: punctuation or the end of the text. */
  predicate Follows(r: bytes) {
    r == [] || r[0] == COMMA || r[0] == COLON || r[0] == CLOSE_BRACE || r[0] == CLOSE_BRACKET
  }

  lemma SplitAt(a: bytes, b: bytes)
    ensures (a + b)[..|a|] == a && (a + b)[|a|..] == b
  {
  }

  lemma {:induction false} NodeComplete(n: Node, r: bytes, d: Dialect)
    requires WfNode(n, d) && Follows(r)
    ensures ReadNode(NodeText(n, r), d) == Some((n, r))
    decreases n, 3
  {
    hide ReadBody, WfBody, BodyText, ExtraLen;
    var rest := BodyText(n.body, n.after + r);
    BodyStart(n.body, n.after + r, d);
    ExtraLenComplete(n.before, rest, d);
    SplitAt(n.before, rest);
    BodyComplete(n.body, n.after, r, d);
    ExtraLenComplete(n.after, r, d);
    SplitAt(n.after, r);
  }

  lemma ExtraFollows(after: bytes, r: bytes, d: Dialect)
    requires IsExtra(after, d) && Follows(r)
    ensures after + r == [] || !IsWordByte((after + r)[0])
  {
  }

  lemma {:induction false} BodyComplete(body: Body, after: bytes, r: bytes, d: Dialect)
    requires WfBody(body, d) && IsExtra(after, d) && Follows(r)
    ensures ReadBody(BodyText(body, after + r), d) == Some((body, after + r))
    decreases body, 2
  {
    hide ReadItems, WfItems, ItemsText, ScalarLen, IsScalar, ExtraLen, Follows;
    ExtraFollows(after, r, d);
    BodyStart(body, after + r, d);
    match body
    case Scalar(text) =>
      ScalarLenComplete(text, after + r);
      SplitAt(text, after + r);
    case Group(obj, items) =>
      ItemsComplete(items, obj, after + r, d, true);
      SplitAt([Opener(obj)], ItemsText(items, obj, after + r));
  }

  lemma {:induction false} ItemsComplete(items: Items, obj: bool, r: bytes, d: Dialect, first: bool)
    requires WfItems(items, obj, d, first)
    ensures ReadItems(ItemsText(items, obj, r), obj, d, first) == Some((items, r))
    decreases items, 5
  {
    hide ReadItem, ReadAfter, WfItem, ItemText, ExtraLen;
    match items {
      case Close(extra) =>
        ExtraLenComplete(extra, [Closer(obj)] + r, d);
        SplitAt(extra, [Closer(obj)] + r);
        SplitAt([Closer(obj)], r);
        var s := extra + ([Closer(obj)] + r);
        assert s[|extra| + 1..] == s[|extra|..][1..];
      case Last(item) =>
        ItemComplete(item, obj, [Closer(obj)] + r, d);
        AfterComplete(None, obj, r, d);
      case More(item, rest) =>
        ItemComplete(item, obj, [COMMA] + ItemsText(rest, obj, r), d);
        ItemsComplete(rest, obj, r, d, false);
        AfterComplete(Some(rest), obj, r, d);
    }
  }

  lemma AfterComplete(after: Option<Items>, obj: bool, r: bytes, d: Dialect)
    requires after.Some? ==> ReadItems(ItemsText(after.value, obj, r), obj, d, false) == Some((after.value, r))
    ensures after.None? ==> ReadAfter([Closer(obj)] + r, obj, d) == Some((None, r))
    ensures after.Some? ==> ReadAfter([COMMA] + ItemsText(after.value, obj, r), obj, d) == Some((after, r))
  {
    hide ReadItems, ItemsText;
    SplitAt([Closer(obj)], r);
    if after.Some? {
      SplitAt([COMMA], ItemsText(after.value, obj, r));
    }
  }

  /** A node never starts with a closing bracket. */
  lemma NodeOpens(n: Node, r: bytes, d: Dialect)
    requires WfNode(n, d)
    ensures ExtraLen(NodeText(n, r), d) == Some(|n.before|)
    ensures |n.before| < |NodeText(n, r)|
    ensures NodeText(n, r)[|n.before|] != CLOSE_BRACE && NodeText(n, r)[|n.before|] != CLOSE_BRACKET
  {
    hide WfBody, BodyText, ExtraLen;
    BodyStart(n.body, n.after + r, d);
    ExtraLenComplete(n.before, BodyText(n.body, n.after + r), d);
  }

  lemma {:induction false} ItemComplete(item: Item, obj: bool, r: bytes, d: Dialect)
    requires WfItem(item, obj, d) && Follows(r)
    ensures ReadItem(ItemText(item, r), obj, d) == Some((item, r))
    ensures ExtraLen(ItemText(item, r), d).Some?
    ensures var e := ExtraLen(ItemText(item, r), d).value;
            e < |ItemText(item, r)| ==> ItemText(item, r)[e] != Closer(obj)
    decreases item, 4
  {
    hide ReadNode, WfNode, NodeText, ExtraLen;
    match item
    case Element(value) =>
      NodeComplete(value, r, d);
      NodeOpens(value, r, d);
    case Member(name, value) =>
      NodeComplete(value, r, d);
      NodeComplete(name, [COLON] + NodeText(value, r), d);
      NodeOpens(name, [COLON] + NodeText(value, r), d);
      SplitAt([COLON], NodeText(value, r));
  }

  // ----- the reader decides the language -----

  /** A document is read to exactly one tree, and that tree prints back to it. */
  lemma ReadDocumentExact(s: bytes, d: Dialect)
    ensures ReadDocument(s, d).Some? <==> IsDocument(s, d)
    ensures forall n :: WfNode(n, d) && Print(n) == s <==> ReadDocument(s, d) == Some(n)
  {
    hide ReadNode, WfNode, NodeText;
    if ReadDocument(s, d).Some? {
      NodeSound(s, d, ReadDocument(s, d).value, []);
    }
    forall n | WfNode(n, d) && Print(n) == s
      ensures ReadDocument(s, d) == Some(n)
    {
      NodeComplete(n, [], d);
    }
  }
}
