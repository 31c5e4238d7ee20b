/** Splitting a validated JSON array or object into the raw texts of its entries, in order. */
module JsonEntries {
  import opened Bytes
  import opened Wrappers
  import opened Lexemes
  import opened Syntax
  import opened Reader
  import opened UnquoteLoop
  import opened Cursors
  import opened Literals
  import opened JsonText

  // ----- a text is its tree's text and then whatever follows -----

  lemma {:induction false} NodeSplit(n: Node, r: bytes)
    ensures NodeText(n, r) == NodeText(n, []) + r
    decreases n, 3
  {
    hide BodyText;
    BodySplit(n.body, n.after + r);
    BodySplit(n.body, n.after + []);
    var b := BodyText(n.body, []);
    assert n.before + (b + (n.after + r)) == n.before + (b + (n.after + [])) + r;
  }

  lemma {:induction false} BodySplit(b: Body, r: bytes)
    ensures BodyText(b, r) == BodyText(b, []) + r
    decreases b, 2
  {
    hide ItemsText;
    match b
    case Scalar(text) => assert text + [] == text;
    case Group(obj, items) => ItemsSplit(items, obj, r);
  }

  lemma {:induction false} ItemsSplit(items: Items, obj: bool, r: bytes)
    ensures ItemsText(items, obj, r) == ItemsText(items, obj, []) + r
    decreases items, 5
  {
    hide ItemText;
    var c: bytes := [Closer(obj)];
    match items
    case Close(extra) => assert extra + (c + r) == extra + (c + []) + r;
    case Last(item) =>
      ItemSplit(item, c + r);
      ItemSplit(item, c + []);
      assert ItemText(item, []) + (c + r) == ItemText(item, []) + (c + []) + r;
    case More(item, rest) =>
      ItemsSplit(rest, obj, r);
      var u := ItemsText(rest, obj, []);
      ItemSplit(item, [COMMA] + (u + r));
      ItemSplit(item, [COMMA] + u);
      assert ItemText(item, []) + ([COMMA] + (u + r)) == ItemText(item, []) + ([COMMA] + u) + r;
  }

  lemma {:induction false} ItemSplit(item: Item, r: bytes)
    ensures ItemText(item, r) == ItemText(item, []) + r
    decreases item, 4
  {
    hide NodeText;
    NodeSplit(item.value, r);
    if item.Member? {
      var u := NodeText(item.value, []);
      NodeSplit(item.name, [COLON] + (u + r));
      NodeSplit(item.name, [COLON] + u);
      assert NodeText(item.name, []) + ([COLON] + (u + r)) == NodeText(item.name, []) + ([COLON] + u) + r;
    }
  }

  // ----- trimming -----

  function TrimEnd(s: bytes): (r: bytes) {
    if s == [] || !IsSpace(s[|s| - 1]) then s else TrimEnd(s[..|s| - 1])
  }

  method Trim(s: bytes) returns (r: bytes)
    ensures r == TrimEnd(Skip(s))
  {
    r := s;
    while r != [] && IsSpace(r[0])
      invariant Skip(r) == Skip(s)
    {
      assert Skip(r) == Skip(r[1..]) by { SkipOne(r); }
      r := r[1..];
    }
    assert r == Skip(s);
    while r != [] && IsSpace(r[|r| - 1])
      invariant TrimEnd(r) == TrimEnd(Skip(s))
    {
      r := r[..|r| - 1];
    }
  }

  lemma {:induction false} SkipSpace(e: bytes, r: bytes)
    requires AllSpace(e) && (r == [] || !IsSpace(r[0]))
    ensures Skip(e + r) == r
  {
    if e == [] {
      assert e + r == r;
    } else {
      SkipSpace(e[1..], r);
      assert (e + r)[1..] == e[1..] + r;
      SkipOne(e + r);
    }
  }

  lemma {:induction false} TrimSpace(s: bytes, e: bytes)
    requires AllSpace(e) && s != [] && !IsSpace(s[|s| - 1])
    ensures TrimEnd(s + e) == s
    decreases |e|
  {
    if e == [] {
      assert s + e == s;
    } else {
      TrimSpace(s, e[..|e| - 1]);
      assert (s + e)[..|s + e| - 1] == s + e[..|e| - 1];
    }
  }

  lemma ItemsLast(items: Items, obj: bool)
    ensures var t := ItemsText(items, obj, []); t != [] && t[|t| - 1] == Closer(obj)
    decreases items
  {
    hide ItemText;
    match items
    case Close(_) =>
    case Last(item) => ItemSplit(item, [Closer(obj)] + []);
    case More(item, rest) =>
      ItemsLast(rest, obj);
      ItemSplit(item, [COMMA] + ItemsText(rest, obj, []));
  }

  lemma ExtraIsSpace(e: bytes)
    requires IsExtra(e, Json)
    ensures AllSpace(e)
  {
    JsonExtra(e);
    assert e[..|e|] == e;
  }

  /** The trimmed text of a document is the text of its value. */
  lemma Trimmed(n: Node)
    requires WfNode(n, Json) && n.body.Group?
    ensures TrimEnd(Skip(Print(n))) == BodyText(n.body, [])
  {
    hide BodyText, ExtraLen, WfBody, Skip, TrimEnd;
    ExtraIsSpace(n.before);
    ExtraIsSpace(n.after);
    BodyStart(n.body, n.after + [], Json);
    SkipSpace(n.before, BodyText(n.body, n.after + []));
    BodySplit(n.body, n.after + []);
    assert n.after + [] == n.after;
    GroupEnd(n.body);
    TrimSpace(BodyText(n.body, []), n.after);
  }

  lemma GroupEnd(b: Body)
    requires b.Group?
    ensures var t := BodyText(b, []); t != [] && !IsSpace(t[|t| - 1])
  {
    ItemsLast(b.items, b.obj);
  }

  lemma ScalarStart(n: Node)
    requires WfNode(n, Json)
    ensures BodyText(n.body, n.after + []) != []
    ensures var t := TrimEnd(Skip(Print(n)));
            t != [] ==> t[0] == BodyText(n.body, n.after + [])[0]
  {
    hide BodyText, ExtraLen, WfBody, Skip;
    ExtraIsSpace(n.before);
    BodyStart(n.body, n.after + [], Json);
    SkipSpace(n.before, BodyText(n.body, n.after + []));
    TrimPrefix(BodyText(n.body, n.after + []));
  }

  lemma TrimPrefix(s: bytes)
    ensures TrimEnd(s) <= s
    decreases |s|
  {
    if s != [] && IsSpace(s[|s| - 1]) {
      TrimPrefix(s[..|s| - 1]);
    }
  }

  // ----- the entries -----

  /** The raw texts of the values, in order. */
  function ValueTexts(items: Items): seq<bytes> {
    match items
    case Close(_) => []
    case Last(item) => [BodyText(item.value.body, [])]
    case More(item, rest) => [BodyText(item.value.body, [])] + ValueTexts(rest)
  }

  function DocumentOf(s: bytes): Option<Node> {
    var n :- ReadDocument(s, Json);
    if DepthNode(n) <= MAX_DEPTH then Some(n) else None
  }

  /** One value read inside a container, and the whitespace after it. */
  lemma ValueInside(n: Node, x: bytes)
    requires WfNode(n, Json) && DepthNode(n) <= MAX_DEPTH
             && (x == [] || x[0] == COMMA || x[0] == CLOSE_BRACE || x[0] == CLOSE_BRACKET)
    ensures var u := Skip(NodeText(n, x));
            && u == BodyText(n.body, []) + (n.after + x)
            && BodyRest(u, Some(MAX_DEPTH), 0) == Some(n.after + x)
            && Skip(n.after + x) == x
  {
    hide BodyText, ExtraLen, WfBody, Skip, BodyRest, DepthBody;
    ExtraIsSpace(n.before);
    ExtraIsSpace(n.after);
    BodyStart(n.body, n.after + x, Json);
    SkipSpace(n.before, BodyText(n.body, n.after + x));
    SkipSpace(n.after, x);
    assert n.after != [] ==> IsSpace(n.after[0]);
    PrefixComplete(n.body, n.after + x, Some(MAX_DEPTH), 0);
    BodySplit(n.body, n.after + x);
  }

  method Array(s: bytes) returns (r: Option<seq<bytes>>)
    ensures var n := DocumentOf(s);
            r == if n.None? || !n.value.body.Group? || n.value.body.obj then None
            else Some(ValueTexts(n.value.body.items))
  {
    hide BodyText, ReadDocument, WfNode, WfItems, DepthNode, Skip, BodyRest, TrimEnd;
    var ok := Validate(s, MAX_DEPTH);
    if !ok { return None; }
    ghost var n := ReadDocument(s, Json).value;
    ReadDocumentExact(s, Json);
    var t := Trim(s);
    var c := new Cursor(t);
    assert c.Left() == t;
    ArrayStart(n, t);
    ok := c.Take(OPEN_BRACKET);
    if !ok { return None; }
    GroupDepth(n);
    r := ArrayEntries(c, n.body.items);
  }

  lemma GroupDepth(n: Node)
    ensures n.body.Group? ==> DepthNode(n) == 1 + DepthItems(n.body.items)
  {
  }

  method ArrayEntries(c: Cursor, ghost items: Items) returns (r: Option<seq<bytes>>)
    requires c.Valid() && c.Left() == ItemsText(items, false, []) && WfItems(items, false, Json, true)
             && DepthItems(items) <= MAX_DEPTH
    modifies c`at
    ensures r == Some(ValueTexts(items))
  {
    hide BodyText, NodeText, WfNode, Skip, DepthNode, SpaceLen;
    OpensOrCloses(items, false);
    c.Space();
    if c.at < |c.text| && c.text[c.at] == CLOSE_BRACKET { return Some([]); }
    ghost var rest := items;
    var result: seq<bytes> := [];
    while true
      invariant c.Valid() && Skip(c.Left()) == Skip(ItemsText(rest, false, []))
      invariant !rest.Close? && WfItems(rest, false, Json, true) && DepthItems(rest) <= MAX_DEPTH
      invariant result + ValueTexts(rest) == ValueTexts(items)
      decreases rest
    {
      var piece, more := ArrayEntry(c, rest);
      result := result + [piece];
      if !more { return Some(result); }
      AnyFirst(rest.rest, false);
      rest := rest.rest;
    }
  }

  /** Read one element and what separates it from the next. */
  method ArrayEntry(c: Cursor, ghost items: Items) returns (piece: bytes, more: bool)
    requires c.Valid() && Skip(c.Left()) == Skip(ItemsText(items, false, []))
    requires !items.Close? && WfItems(items, false, Json, true) && DepthItems(items) <= MAX_DEPTH
    modifies c`at
    ensures c.Valid() && piece == BodyText(items.item.value.body, []) && more == items.More?
    ensures more ==> c.Left() == ItemsText(items.rest, false, [])
  {
    hide BodyText, NodeText, WfNode, Skip;
    ghost var n, x :=
      items.item.value, if items.Last? then [CLOSE_BRACKET] + [] else [COMMA] + ItemsText(items.rest, false, []);
    assert ItemsText(items, false, []) == NodeText(n, x);
    piece, more := ValueEntry(c, n, x, CLOSE_BRACKET);
  }

  /** Read a value and the comma or the closing bracket after it. */
  method ValueEntry(c: Cursor, ghost n: Node, ghost x: bytes, close: byte) returns (piece: bytes, more: bool)
    requires c.Valid() && Skip(c.Left()) == Skip(NodeText(n, x)) && WfNode(n, Json) && DepthNode(n) <= MAX_DEPTH
    requires x != [] && (x[0] == COMMA || x[0] == close) && (close == CLOSE_BRACE || close == CLOSE_BRACKET)
    modifies c`at
    ensures c.Valid() && piece == BodyText(n.body, []) && more == (x[0] == COMMA)
    ensures more ==> c.Left() == x[1..]
  {
    hide BodyText, NodeText, WfNode, Skip, BodyRest, SpaceLen, DepthNode;
    ValueInside(n, x);
    SkipAt(c.text, c.at);
    var ok, start := ValueWithDepth(c, Some(MAX_DEPTH));
    assert ok;
    piece := c.text[start..c.at];
    Between(c.text, start, c.at, BodyText(n.body, []), n.after + x);
    c.Space();
    assert c.Left() == x;
    more := c.text[c.at] != close;
    if more {
      ok := c.Take(COMMA);
      assert ok;
    }
  }

  lemma SkipAt(text: bytes, at: nat)
    requires at <= |text|
    ensures Skip(text[at..]) == text[at + SpaceLen(text[at..])..]
  {
  }

  lemma Between(text: bytes, start: nat, end: nat, a: bytes, b: bytes)
    requires start <= end <= |text| && text[start..] == a + b && text[end..] == b
    ensures text[start..end] == a
  {
    assert |a| == end - start;
    assert text[start..][..|a|] == a;
  }

  lemma AnyFirst(items: Items, obj: bool)
    ensures WfItems(items, obj, Json, false) ==> !items.Close? && WfItems(items, obj, Json, true)
  {
  }

  lemma OpensOrCloses(items: Items, obj: bool)
    requires WfItems(items, obj, Json, true)
    ensures var u := Skip(ItemsText(items, obj, []));
            && Skip(u) == u
            && (items.Close? <==> u != [] && u[0] == Closer(obj))
  {
    hide Skip, NodeText, WfNode, ExtraLen, ItemText, WfItem;
    SkipTwice(ItemsText(items, obj, []));
    match items
    case Close(extra) =>
      ExtraIsSpace(extra);
      SkipSpace(extra, [Closer(obj)] + []);
    case Last(item) => ItemInk(item, obj, [Closer(obj)] + []);
    case More(item, rest) => ItemInk(item, obj, [COMMA] + ItemsText(rest, obj, []));
  }

  lemma ItemInk(item: Item, obj: bool, r: bytes)
    requires WfItem(item, obj, Json)
    ensures var u := Skip(ItemText(item, r)); u != [] && u[0] != CLOSE_BRACE && u[0] != CLOSE_BRACKET && u[0] != COMMA
  {
    hide Skip, NodeText, WfNode, ExtraLen;
    if item.Element? {
      NodeInk(item.value, r);
    } else {
      NodeInk(item.name, [COLON] + NodeText(item.value, r));
    }
  }

  lemma NodeInk(n: Node, r: bytes)
    requires WfNode(n, Json)
    ensures var u := Skip(NodeText(n, r)); u != [] && u[0] != CLOSE_BRACE && u[0] != CLOSE_BRACKET && u[0] != COMMA
  {
    hide Skip, WfBody, BodyText, ExtraLen;
    ExtraIsSpace(n.before);
    BodyStart(n.body, n.after + r, Json);
    SkipSpace(n.before, BodyText(n.body, n.after + r));
  }

  lemma ArrayStart(n: Node, t: bytes)
    requires WfNode(n, Json) && t == TrimEnd(Skip(Print(n)))
    ensures (t != [] && t[0] == OPEN_BRACKET) <==> n.body.Group? && !n.body.obj
    ensures n.body.Group? && !n.body.obj ==>
            t == [OPEN_BRACKET] + ItemsText(n.body.items, false, []) && WfItems(n.body.items, false, Json, true)
  {
    hide Skip, TrimEnd, WfItems, ItemsText;
    if n.body.Group? {
      Trimmed(n);
    } else {
      ScalarStart(n);
      BodyStart(n.body, n.after + [], Json);
    }
  }

  // ----- objects -----

  /** The decoded names and the raw texts of the values, in order; nothing if a name does not decode. */
  function MemberTexts(items: Items): Option<seq<(seq<nat>, bytes)>> {
    match items
    case Close(_) => Some([])
    case Last(item) =>
      var member :- MemberText(item);
      Some([member])
    case More(item, rest) =>
      var member :- MemberText(item);
      var members :- MemberTexts(rest);
      Some([member] + members)
  }

  function MemberText(item: Item): Option<(seq<nat>, bytes)> {
    if item.Element? || item.name.body.Group? then None
    else
      var name :- UnquoteText(item.name.body.text);
      Some((name, BodyText(item.value.body, [])))
  }

  /** Every name of a JSON object decodes. */
  lemma {:induction false} NamesDecode(items: Items, first: bool)
    requires WfItems(items, true, Json, first)
    ensures MemberTexts(items).Some?
    decreases items
  {
    hide BodyText, UnquoteText, WfNode;
    if !items.Close? {
      NameIsString(items.item.name, Json);
      UnquoteTextOfString(items.item.name.body.text);
    }
    if items.More? {
      NamesDecode(items.rest, false);
    }
  }

  /** The members read so far, and those still to come. */
  ghost function Together(done: seq<(seq<nat>, bytes)>, left: Option<seq<(seq<nat>, bytes)>>)
    : Option<seq<(seq<nat>, bytes)>>
  {
    if left.None? then None else Some(done + left.value)
  }

  lemma TogetherNothing(left: Option<seq<(seq<nat>, bytes)>>)
    ensures Together([], left) == left
  {
    assert left.Some? ==> [] + left.value == left.value;
  }

  /** One more member read. */
  lemma ReadMember(done: seq<(seq<nat>, bytes)>, items: Items)
    requires !items.Close?
    ensures MemberText(items.item).None? ==> Together(done, MemberTexts(items)) == None
    ensures MemberText(items.item).Some? ==>
              var done' := done + [MemberText(items.item).value];
              Together(done, MemberTexts(items)) ==
              if items.Last? then Some(done') else Together(done', MemberTexts(items.rest))
  {
    hide MemberText;
    if items.More? && MemberText(items.item).Some? && MemberTexts(items.rest).Some? {
      var one := [MemberText(items.item).value];
      assert done + (one + MemberTexts(items.rest).value) == done + one + MemberTexts(items.rest).value;
    }
  }

  method Object(s: bytes) returns (r: Option<seq<(seq<nat>, bytes)>>)
    ensures var n := DocumentOf(s);
            r == if n.None? || !n.value.body.Group? || !n.value.body.obj then None else MemberTexts(n.value.body.items)
    ensures var n := DocumentOf(s);
            r.Some? <==> n.Some? && n.value.body.Group? && n.value.body.obj
  {
    hide BodyText, ReadDocument, WfNode, WfItems, DepthNode, Skip, BodyRest, TrimEnd, MemberTexts, ItemsText,
         DepthItems;
    var ok := Validate(s, MAX_DEPTH);
    if !ok { return None; }
    ghost var n := ReadDocument(s, Json).value;
    ReadDocumentExact(s, Json);
    var t := Trim(s);
    var c := new Cursor(t);
    assert c.Left() == t;
    ObjectStart(n, t);
    ok := c.Take(OPEN_BRACE);
    if !ok { return None; }
    GroupDepth(n);
    r := ObjectEntries(c, n.body.items);
    NamesDecode(n.body.items, true);
  }

  lemma ObjectStart(n: Node, t: bytes)
    requires WfNode(n, Json) && t == TrimEnd(Skip(Print(n)))
    ensures (t != [] && t[0] == OPEN_BRACE) <==> n.body.Group? && n.body.obj
    ensures n.body.Group? && n.body.obj ==>
            t == [OPEN_BRACE] + ItemsText(n.body.items, true, []) && WfItems(n.body.items, true, Json, true)
  {
    hide Skip, TrimEnd, WfItems, ItemsText;
    if n.body.Group? {
      Trimmed(n);
    } else {
      ScalarStart(n);
      BodyStart(n.body, n.after + [], Json);
    }
  }

  method ObjectEntries(c: Cursor, ghost items: Items) returns (r: Option<seq<(seq<nat>, bytes)>>)
    requires c.Valid() && c.Left() == ItemsText(items, true, []) && WfItems(items, true, Json, true)
             && DepthItems(items) <= MAX_DEPTH
    modifies c`at
    ensures r == MemberTexts(items)
  {
    hide BodyText, NodeText, WfNode, Skip, DepthNode, SpaceLen, MemberText, Together;
    TogetherNothing(MemberTexts(items));
    OpensOrCloses(items, true);
    c.Space();
    if c.at < |c.text| && c.text[c.at] == CLOSE_BRACE { return Some([]); }
    ghost var rest := items;
    var result: seq<(seq<nat>, bytes)> := [];
    while true
      invariant c.Valid() && Skip(c.Left()) == Skip(ItemsText(rest, true, []))
      invariant !rest.Close? && WfItems(rest, true, Json, true) && DepthItems(rest) <= MAX_DEPTH
      invariant Together(result, MemberTexts(rest)) == MemberTexts(items)
      decreases rest
    {
      ReadMember(result, rest);
      var piece, more := ObjectEntry(c, rest);
      if piece.None? { return None; }
      result := result + [piece.value];
      if !more { return Some(result); }
      AnyFirst(rest.rest, true);
      rest := rest.rest;
    }
  }

  /** Read one member and what separates it from the next; nothing if its name does not decode. */
  method ObjectEntry(c: Cursor, ghost items: Items) returns (piece: Option<(seq<nat>, bytes)>, more: bool)
    requires c.Valid() && Skip(c.Left()) == Skip(ItemsText(items, true, []))
    requires !items.Close? && WfItems(items, true, Json, true) && DepthItems(items) <= MAX_DEPTH
    modifies c`at
    ensures c.Valid() && piece == MemberText(items.item)
    ensures piece.Some? ==> more == items.More? && (more ==> c.Left() == ItemsText(items.rest, true, []))
  {
    hide BodyText, NodeText, WfNode, Skip, UnquoteText, StringTail;
    ghost var m, n := items.item.name, items.item.value;
    ghost var x := if items.Last? then [CLOSE_BRACE] + [] else [COMMA] + ItemsText(items.rest, true, []);
    ghost var v := NodeText(n, x);
    assert ItemsText(items, true, []) == NodeText(m, [COLON] + v);
    var quoted := NameEntry(c, m, v);
    var name := UnquoteString(quoted);
    if name.None? { return None, false; }
    var text: bytes;
    text, more := ValueEntry(c, n, x, CLOSE_BRACE);
    piece := Some((name.value, text));
  }

  /** Read a member's name and the colon after it. */
  method NameEntry(c: Cursor, ghost m: Node, ghost v: bytes) returns (name: bytes)
    requires c.Valid() && Skip(c.Left()) == Skip(NodeText(m, [COLON] + v)) && WfNode(m, Json) && IsName(m)
    modifies c`at
    ensures c.Valid() && c.Left() == v && name == m.body.text && c.at > old(c.at)
  {
    hide NodeText, WfNode, Skip, SpaceLen, StringTail;
    NameInside(m, v);
    c.Space();
    var from := c.at;
    assert c.Left() == m.body.text + (m.after + ([COLON] + v));
    var ok := c.Quoted();
    assert ok;
    assert c.text[from..][..|m.body.text|] == m.body.text && c.Left() == c.text[from..][|m.body.text|..];
    assert c.text[from..c.at] == c.text[from..][..c.at - from];
    name := c.text[from..c.at];
    c.Space();
    ok := c.Take(COLON);
    assert ok;
  }

  /** A member's name is one string token, then whitespace, then the colon. */
  lemma NameInside(m: Node, v: bytes)
    requires WfNode(m, Json) && IsName(m)
    ensures var y := [COLON] + v;
            && Skip(NodeText(m, y)) == m.body.text + (m.after + y)
            && Skip(m.after + y) == y
            && var u := m.body.text + (m.after + y);
            && u != [] && u[0] == QUOTE && StringTail(u[1..]) == Some(|m.body.text| - 1)
  {
    hide ExtraLen, Skip, StringTail, IsWord;
    var y := [COLON] + v;
    ExtraIsSpace(m.before);
    ExtraIsSpace(m.after);
    QuoteIsString(m.body.text);
    SkipSpace(m.before, m.body.text + (m.after + y));
    SkipSpace(m.after, y);
    var t := m.body.text;
    StringTailExtend(t[1..], m.after + y);
    assert (t + (m.after + y))[1..] == t[1..] + (m.after + y);
  }
}
