/** Compacting JSON with HTML-safe strings, as one pass over the bytes. */
module JsonOutput {
  import opened Bytes
  import opened Wrappers
  import opened Lexemes
  import opened Syntax
  import opened Unquoting
  import opened Literals
  import opened HtmlStrings
  import opened JsonEntries

  // ----- the pass as a function of the text that remains -----

  function Width(s: bytes): (k: nat)
    requires s != []
    ensures 0 < k <= |s|
  {
    if IsSeparator(s) then 3 else 1
  }

  function Piece(s: bytes, inString: bool): bytes
    requires s != []
  {
    if IsHtml(s[0]) then HtmlEscape(s[0])
    else if IsSeparator(s) then SeparatorEscape(s)
    else if inString || !IsSpace(s[0]) then [s[0]]
    else []
  }

  function Compact(s: bytes, inString: bool, escaped: bool): bytes
    decreases |s|
  {
    if s == [] then []
    else
      Piece(s, inString)
      + Compact(s[Width(s)..], if inString then !EndsString(s[0], escaped) else s[0] == QUOTE,
                inString && Escapes(s[0], escaped))
  }

  method CompactBytes(source: bytes) returns (out: bytes)
    ensures out == Compact(source, false, false)
  {
    hide Compact, Piece, Width, IsSeparator;
    out := [];
    var at, inString, escaped := 0, false, false;
    assert source[0..] == source;
    assert out + Compact(source, false, false) == Compact(source, false, false);
    while at < |source|
      invariant 0 <= at <= |source| && (!inString ==> !escaped)
      invariant out + Compact(source[at..], inString, escaped) == Compact(source, false, false)
    {
      var b := source[at];
      ghost var was, from := out, at;
      CompactStep(source, at, inString, escaped);
      var piece := Piece(source[at..], inString);
      out := out + piece;
      at := at + Width(source[at..]);
      if inString {
        if escaped {
          escaped := false;
        } else if b == BACKSLASH {
          escaped := true;
        } else if b == QUOTE {
          inString := false;
        }
      } else if b == QUOTE {
        inString := true;
      }
      Regroup(was, piece, Compact(source[at..], inString, escaped));
    }
    CompactEnd(source[at..], inString, escaped);
  }

  lemma CompactStep(source: bytes, at: nat, inString: bool, escaped: bool)
    requires at < |source|
    ensures var s := source[at..];
            Compact(s, inString, escaped) ==
            Piece(s, inString) +
            Compact(source[at + Width(s)..], if inString then !EndsString(source[at], escaped) else source[at] == QUOTE,
                                         inString && Escapes(source[at], escaped))
  {
    hide Piece, Width;
    var s := source[at..];
    assert s[Width(s)..] == source[at + Width(s)..];
  }

  lemma CompactEnd(s: bytes, inString: bool, escaped: bool)
    requires s == []
    ensures Compact(s, inString, escaped) == []
  {
  }

  // ----- what the pass does to a document -----

  function SafeText(t: bytes): bytes {
    if IsString(t) then [QUOTE] + HtmlBody(t[1..|t| - 1]) + [QUOTE] else t
  }

  function CompactNode(n: Node): Node {
    Node([], CompactBody(n.body), [])
  }

  function CompactBody(b: Body): Body {
    match b
    case Scalar(text) => Scalar(SafeText(text))
    case Group(obj, items) => Group(obj, CompactItems(items))
  }

  function CompactItems(items: Items): Items {
    match items
    case Close(_) => Close([])
    case Last(item) => Last(CompactItem(item))
    case More(item, rest) => More(CompactItem(item), CompactItems(rest))
  }

  function CompactItem(item: Item): Item {
    match item
    case Element(value) => Element(CompactNode(value))
    case Member(name, value) => Member(CompactNode(name), CompactNode(value))
  }

  /** A string unit in front of the rest of a string. */
  lemma {:induction false} CompactUnits(u: bytes, s: bytes)
    requires u != [] && u[0] == BACKSLASH && UnitLen(u) == |u|
    ensures Compact(u + s, true, false) == u + Compact(s, true, false)
  {
    hide Compact;
    CompactPlain(BACKSLASH, u[1..] + s, false);
    assert u + s == [BACKSLASH] + (u[1..] + s);
    CompactPlain(u[1], u[2..] + s, true);
    assert u[1..] + s == [u[1]] + (u[2..] + s);
    CompactHexes(u[2..], s);
    assert u == [BACKSLASH] + ([u[1]] + u[2..]);
    Regroup([u[1]], u[2..], Compact(s, true, false));
    Regroup([BACKSLASH], [u[1]] + u[2..], Compact(s, true, false));
  }

  /** A byte that is copied inside a string and does not end it. */
  lemma CompactPlain(b: byte, s: bytes, escaped: bool)
    requires !IsHtml(b) && b != 0xE2 && !EndsString(b, escaped)
    ensures Compact([b] + s, true, escaped) == [b] + Compact(s, true, Escapes(b, escaped))
  {
    assert ([b] + s)[1..] == s;
  }

  lemma {:induction false} CompactHexes(h: bytes, s: bytes)
    requires forall i :: 0 <= i < |h| ==> IsHex(h[i])
    ensures Compact(h + s, true, false) == h + Compact(s, true, false)
  {
    hide Compact;
    if h == [] {
      assert h + s == s;
      assert h + Compact(s, true, false) == Compact(s, true, false);
    } else {
      CompactHexes(h[1..], s);
      CompactPlain(h[0], h[1..] + s, false);
      assert h + s == [h[0]] + (h[1..] + s) && h == [h[0]] + h[1..];
      Regroup([h[0]], h[1..], Compact(s, true, false));
    }
  }

  /** Inside a string the pass spells the body safely. */
  lemma {:induction false} CompactString(b: bytes, r: bytes)
    requires IsBody(b)
    ensures Compact(b + ([QUOTE] + r), true, false) == HtmlBody(b) + ([QUOTE] + Compact(r, false, false))
    decreases |b|
  {
    hide Compact, HtmlEscape, SeparatorEscape, IsSeparator, HtmlBody, IsBody;
    var q, done := [QUOTE] + r, [QUOTE] + Compact(r, false, false);
    CompactQuote(r);
    HtmlStep(b);
    if b == [] {
      assert b + q == q;
      assert HtmlBody(b) + done == done;
    } else if b[0] == BACKSLASH {
      var k := UnitLen(b);
      CompactString(b[k..], r);
      UnitLenPrefix(b, k);
      CompactUnits(b[..k], b[k..] + q);
      assert b + q == b[..k] + (b[k..] + q);
      Regroup(b[..k], HtmlBody(b[k..]), done);
    } else if IsHtml(b[0]) {
      CompactString(b[1..], r);
      assert b + q == [b[0]] + (b[1..] + q);
      CompactHtml(b[0], b[1..] + q);
      Regroup(HtmlEscape(b[0]), HtmlBody(b[1..]), done);
    } else if IsSeparator(b) {
      CompactString(b[3..], r);
      assert b + q == b[..3] + (b[3..] + q);
      CompactSeparator(b, b[3..] + q);
      Regroup(SeparatorEscape(b), HtmlBody(b[3..]), done);
    } else {
      CompactString(b[1..], r);
      CompactByte(b, q);
      Regroup([b[0]], HtmlBody(b[1..]), done);
    }
  }

  /** The next unit of a body, and what becomes of it. */
  lemma HtmlStep(b: bytes)
    requires IsBody(b)
    ensures b == [] ==> HtmlBody(b) == []
    ensures b != [] && b[0] == BACKSLASH ==>
              var k := UnitLen(b);
              0 < k <= |b| && IsBody(b[k..]) && HtmlBody(b) == b[..k] + HtmlBody(b[k..])
    ensures b != [] && b[0] != BACKSLASH ==>
              if IsHtml(b[0]) then IsBody(b[1..]) && HtmlBody(b) == HtmlEscape(b[0]) + HtmlBody(b[1..])
              else if IsSeparator(b) then
                |b| >= 3 && IsBody(b[3..]) && HtmlBody(b) == SeparatorEscape(b) + HtmlBody(b[3..])
              else UnitLen(b) == 1 && IsBody(b[1..]) && HtmlBody(b) == [b[0]] + HtmlBody(b[1..])
  {
    hide HtmlEscape, SeparatorEscape, IsSeparator;
    if b != [] && b[0] != BACKSLASH && !IsHtml(b[0]) && IsSeparator(b) {
      Separated(b);
    }
  }

  lemma CompactQuote(r: bytes)
    ensures Compact([QUOTE] + r, true, false) == [QUOTE] + Compact(r, false, false)
    ensures Compact([QUOTE] + r, false, false) == [QUOTE] + Compact(r, true, false)
  {
    assert ([QUOTE] + r)[1..] == r;
  }

  lemma CompactHtml(b: byte, s: bytes)
    requires IsHtml(b)
    ensures Compact([b] + s, true, false) == HtmlEscape(b) + Compact(s, true, false)
  {
    hide HtmlEscape;
    assert ([b] + s)[1..] == s;
  }

  lemma Separated(b: bytes)
    requires IsBody(b) && IsSeparator(b)
    ensures |b| >= 3 && IsBody(b[3..])
  {
    BodyDropHigh(b, 3);
  }

  lemma CompactSeparator(b: bytes, s: bytes)
    requires IsSeparator(b)
    ensures Compact(b[..3] + s, true, false) == SeparatorEscape(b) + Compact(s, true, false)
  {
    var t := b[..3] + s;
    assert t[3..] == s && IsSeparator(t) && SeparatorEscape(t) == SeparatorEscape(b);
  }

  /** Any other byte of a body is copied. */
  lemma CompactByte(b: bytes, q: bytes)
    requires b != [] && UnitLen(b) > 0 && b[0] != BACKSLASH && !IsHtml(b[0]) && !IsSeparator(b)
    requires q != [] && q[0] == QUOTE
    ensures Compact(b + q, true, false) == [b[0]] + Compact(b[1..] + q, true, false)
  {
    var t := b + q;
    assert t[1..] == b[1..] + q && t[0] == b[0];
    assert t[|b|] == QUOTE;
  }

  lemma {:induction false} CompactWord(t: bytes, r: bytes)
    requires forall i :: 0 <= i < |t| ==> IsWordByte(t[i])
    ensures Compact(t + r, false, false) == t + Compact(r, false, false)
  {
    hide Compact;
    if t == [] {
      assert t + r == r;
      assert t + Compact(r, false, false) == Compact(r, false, false);
    } else {
      CompactWord(t[1..], r);
      CompactMark(t[0], t[1..] + r);
      assert t + r == [t[0]] + (t[1..] + r) && t == [t[0]] + t[1..];
      Regroup([t[0]], t[1..], Compact(r, false, false));
    }
  }

  /** A byte that is copied outside strings. */
  lemma CompactMark(b: byte, r: bytes)
    requires !IsHtml(b) && b != 0xE2 && b != QUOTE && !IsSpace(b)
    ensures Compact([b] + r, false, false) == [b] + Compact(r, false, false)
  {
    assert ([b] + r)[1..] == r;
  }

  lemma {:induction false} CompactSpace(e: bytes, r: bytes)
    requires AllSpace(e)
    ensures Compact(e + r, false, false) == Compact(r, false, false)
  {
    hide Compact;
    if e == [] {
      assert e + r == r;
    } else {
      CompactSpace(e[1..], r);
      assert e + r == [e[0]] + (e[1..] + r);
      CompactBlank(e[0], e[1..] + r);
    }
  }

  lemma CompactBlank(b: byte, r: bytes)
    requires IsSpace(b)
    ensures Compact([b] + r, false, false) == Compact(r, false, false)
  {
    assert ([b] + r)[1..] == r;
    assert [] + Compact(r, false, false) == Compact(r, false, false);
  }

  lemma CompactScalar(t: bytes, r: bytes)
    requires IsScalar(t)
    ensures Compact(t + r, false, false) == SafeText(t) + Compact(r, false, false)
  {
    hide Compact, IsBody, HtmlBody, IsWord, StringTail;
    if IsString(t) {
      StringIsBody(t);
      var b := t[1..|t| - 1];
      assert t + r == [QUOTE] + (b + ([QUOTE] + r));
      CompactQuote(b + ([QUOTE] + r));
      CompactString(b, r);
      var h, c := HtmlBody(b), Compact(r, false, false);
      assert [QUOTE] + (h + ([QUOTE] + c)) == [QUOTE] + h + [QUOTE] + c;
    } else {
      WordBytes(t);
      CompactWord(t, r);
    }
  }

  lemma {:induction false} CompactNodeText(n: Node, r: bytes)
    requires WfNode(n, Json)
    ensures Compact(NodeText(n, r), false, false) == NodeText(CompactNode(n), Compact(r, false, false))
    decreases n, 3
  {
    hide WfBody, BodyText, CompactBody, IsExtra, Compact;
    ExtraIsSpace(n.before);
    ExtraIsSpace(n.after);
    CompactSpace(n.before, BodyText(n.body, n.after + r));
    CompactBodyText(n.body, n.after + r);
    CompactSpace(n.after, r);
    var c := Compact(r, false, false);
    assert [] + c == c;
    assert [] + BodyText(CompactBody(n.body), c) == BodyText(CompactBody(n.body), c);
  }

  lemma {:induction false} CompactBodyText(b: Body, r: bytes)
    requires WfBody(b, Json)
    ensures Compact(BodyText(b, r), false, false) == BodyText(CompactBody(b), Compact(r, false, false))
    decreases b, 2
  {
    hide WfItems, ItemsText, CompactItems, IsScalar, Compact, SafeText;
    match b
    case Scalar(text) => CompactScalar(text, r);
    case Group(obj, items) =>
      CompactMark(Opener(obj), ItemsText(items, obj, r));
      CompactItemsText(items, obj, r, true);
  }

  lemma {:induction false} CompactItemsText(items: Items, obj: bool, r: bytes, first: bool)
    requires WfItems(items, obj, Json, first)
    ensures Compact(ItemsText(items, obj, r), false, false) ==
            ItemsText(CompactItems(items), obj, Compact(r, false, false))
    decreases items, 5
  {
    hide WfItem, ItemText, CompactItem, IsExtra, Compact;
    CompactMark(Closer(obj), r);
    match items
    case Close(extra) =>
      ExtraIsSpace(extra);
      CompactSpace(extra, [Closer(obj)] + r);
      var c := [Closer(obj)] + Compact(r, false, false);
      assert [] + c == c;
    case Last(item) => CompactItemText(item, obj, [Closer(obj)] + r);
    case More(item, rest) =>
      CompactItemText(item, obj, [COMMA] + ItemsText(rest, obj, r));
      CompactMark(COMMA, ItemsText(rest, obj, r));
      CompactItemsText(rest, obj, r, false);
  }

  lemma {:induction false} CompactItemText(item: Item, obj: bool, r: bytes)
    requires WfItem(item, obj, Json)
    ensures Compact(ItemText(item, r), false, false) == ItemText(CompactItem(item), Compact(r, false, false))
    decreases item, 4
  {
    hide WfNode, NodeText, CompactNode, Compact;
    CompactNodeText(item.value, r);
    if item.Member? {
      CompactMark(COLON, NodeText(item.value, r));
      CompactNodeText(item.name, [COLON] + NodeText(item.value, r));
    }
  }

  // ----- compacting keeps the grammar, the nesting and the decoded strings, and is idempotent -----

  /** A JSON tree with its strings decoded. */
  datatype Said =
    | Word(text: bytes)
    | Chars(chars: Option<seq<nat>>)
    | Parts(obj: bool, entries: seq<SaidEntry>)

  datatype SaidEntry = SaidEntry(name: Option<seq<nat>>, value: Said)

  function Says(b: Body): Said {
    match b
    case Scalar(text) => if IsString(text) then Chars(Unquote(text)) else Word(text)
    case Group(obj, items) => Parts(obj, SaysItems(items))
  }

  function SaysItems(items: Items): seq<SaidEntry> {
    match items
    case Close(_) => []
    case Last(item) => [SaysItem(item)]
    case More(item, rest) => [SaysItem(item)] + SaysItems(rest)
  }

  function SaysItem(item: Item): SaidEntry {
    match item
    case Element(value) => SaidEntry(None, Says(value.body))
    case Member(name, value) => SaidEntry(if name.body.Scalar? then Unquote(name.body.text) else None, Says(value.body))
  }

  lemma SafeString(t: bytes)
    requires IsScalar(t)
    ensures IsScalar(SafeText(t)) && IsString(SafeText(t)) == IsString(t) && SafeText(SafeText(t)) == SafeText(t)
    ensures Unquote(SafeText(t)) == Unquote(t) && (!IsString(t) ==> SafeText(t) == t)
    ensures t != [] && SafeText(t) != [] && (SafeText(t)[0] == QUOTE <==> t[0] == QUOTE)
  {
    hide IsBody, HtmlBody, IsWord, StringTail, Decode;
    if IsString(t) {
      StringIsBody(t);
      var b := t[1..|t| - 1];
      var s := SafeText(t);
      assert s[1..|s| - 1] == HtmlBody(b);
      HtmlBodyIsBody(b);
      HtmlBodyTwice(b);
      SameDecode(b);
      StringIsBody(s);
    } else {
      WordBytes(t);
    }
  }

  lemma {:induction false} CompactBodyKeeps(b: Body)
    requires WfBody(b, Json)
    ensures WfBody(CompactBody(b), Json) && DepthBody(CompactBody(b)) == DepthBody(b)
    ensures Says(CompactBody(b)) == Says(b) && CompactBody(CompactBody(b)) == CompactBody(b)
    decreases b, 2
  {
    hide WfItems, CompactItems, SaysItems, DepthItems, IsScalar, IsString, SafeText, Unquote;
    match b
    case Scalar(text) => SafeString(text);
    case Group(obj, items) => CompactItemsKeep(items, obj, true);
  }

  lemma {:induction false} CompactItemsKeep(items: Items, obj: bool, first: bool)
    requires WfItems(items, obj, Json, first)
    ensures WfItems(CompactItems(items), obj, Json, first) && DepthItems(CompactItems(items)) == DepthItems(items)
    ensures SaysItems(CompactItems(items)) == SaysItems(items)
            && CompactItems(CompactItems(items)) == CompactItems(items)
    decreases items, 5
  {
    hide WfItem, CompactItem, SaysItem, DepthNode;
    match items
    case Close(_) =>
    case Last(item) => CompactItemKeeps(item, obj);
    case More(item, rest) =>
      CompactItemKeeps(item, obj);
      CompactItemsKeep(rest, obj, false);
  }

  lemma {:induction false} CompactItemKeeps(item: Item, obj: bool)
    requires WfItem(item, obj, Json)
    ensures WfItem(CompactItem(item), obj, Json) && DepthNode(CompactItem(item).value) == DepthNode(item.value)
    ensures SaysItem(CompactItem(item)) == SaysItem(item) && CompactItem(CompactItem(item)) == CompactItem(item)
    decreases item, 4
  {
    hide CompactBody, Says, DepthBody, WfBody, SafeText, Unquote, IsScalar;
    CompactBodyKeeps(item.value.body);
    if item.Member? {
      CompactBodyKeeps(item.name.body);
      CompactName(item.name.body);
    }
  }

  lemma CompactName(b: Body)
    requires WfBody(b, Json) && b.Scalar?
    ensures CompactBody(b) == Scalar(SafeText(b.text)) && Unquote(SafeText(b.text)) == Unquote(b.text)
    ensures b.text != [] && SafeText(b.text) != [] && (SafeText(b.text)[0] == QUOTE <==> b.text[0] == QUOTE)
  {
    hide SafeText, Unquote, IsScalar;
    SafeString(b.text);
  }
}
