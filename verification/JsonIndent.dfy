/** Indenting JSON: two spaces a level, on top of the compact form. */
module JsonIndent {
  import opened Bytes
  import opened Wrappers
  import opened Lexemes
  import opened Syntax
  import opened Reader
  import opened Literals
  import opened Standard
  import opened JsonText
  import opened JsonEntries
  import opened JsonOutput

  function Newline(depth: nat): (r: bytes)
    ensures AllSpace(r) && r != []
  {
    [LF] + seq(depth * 2, _ => SPACE)
  }

  predicate IsOpener(b: byte) {
    b == OPEN_BRACE || b == OPEN_BRACKET
  }

  predicate IsCloser(b: byte) {
    b == CLOSE_BRACE || b == CLOSE_BRACKET
  }

  function Then(piece: bytes, r: Option<(bytes, nat)>): Option<(bytes, nat)> {
    if r.None? then None else Some((piece + r.value.0, r.value.1))
  }

  /** The text written and the depth reached; nothing if the depth counter would underflow. */
  function Indent(s: bytes, afterOpen: bool, inString: bool, escaped: bool, depth: nat): Option<(bytes, nat)>
    decreases |s|
  {
    if s == [] then Some(([], depth))
    else
      var b := s[0];
      if inString then Then([b], Indent(s[1..], IsOpener(b), !EndsString(b, escaped), Escapes(b, escaped), depth))
      else if b == QUOTE then Then([b], Indent(s[1..], false, true, false, depth))
      else if IsOpener(b) then
        Then([b] + (if |s| > 1 && IsCloser(s[1]) then [] else Newline(depth + 1)),
             Indent(s[1..], true, false, false, depth + 1))
      else if IsCloser(b) then
        if depth == 0 then None
        else Then((if afterOpen then [] else Newline(depth - 1)) + [b], Indent(s[1..], false, false, false, depth - 1))
      else if b == COMMA then Then([b] + Newline(depth), Indent(s[1..], false, false, false, depth))
      else if b == COLON then Then([b, SPACE], Indent(s[1..], false, false, false, depth))
      else Then([b], Indent(s[1..], false, false, false, depth))
  }

  // ----- the indented tree -----

  function IndentBody(b: Body, depth: nat): Body {
    match b
    case Scalar(_) => b
    case Group(obj, items) =>
      if items.Close? then Group(obj, Close([])) else Group(obj, Lead(Inner(items, depth + 1), Newline(depth + 1)))
  }

  /** The items of a container at this depth, without the newline before the first. */
  function Inner(items: Items, depth: nat): Items
    requires depth > 0
  {
    match items
    case Close(_) => Close([])
    case Last(item) => Last(IndentItem(item, depth, Newline(depth - 1)))
    case More(item, rest) => More(IndentItem(item, depth, []), Lead(Inner(rest, depth), Newline(depth)))
  }

  function IndentItem(item: Item, depth: nat, after: bytes): Item {
    match item
    case Element(value) => Element(Node([], IndentBody(value.body, depth), after))
    case Member(name, value) => Member(Node([], name.body, []), Node([SPACE], IndentBody(value.body, depth), after))
  }

  /** `items` with the extra `e` before the first of them. */
  function Lead(items: Items, e: bytes): Items {
    match items
    case Close(_) => items
    case Last(item) => Last(LeadItem(item, e))
    case More(item, rest) => More(LeadItem(item, e), rest)
  }

  function LeadItem(item: Item, e: bytes): Item {
    match item
    case Element(value) => Element(value.(before := e))
    case Member(name, value) => Member(name.(before := e), value)
  }

  lemma LeadText(items: Items, depth: nat, obj: bool, e: bytes, r: bytes)
    requires depth > 0 && !items.Close?
    ensures ItemsText(Lead(Inner(items, depth), e), obj, r) == e + ItemsText(Inner(items, depth), obj, r)
  {
    hide BodyText, IndentBody;
    var after := if items.Last? then Newline(depth - 1) else [];
    var item := IndentItem(items.item, depth, after);
    var tail :=
      if items.Last? then [Closer(obj)] + r
      else [COMMA] + ItemsText(Lead(Inner(items.rest, depth), Newline(depth)), obj, r);
    LeadItemText(item, e, tail);
  }

  lemma LeadItemText(item: Item, e: bytes, r: bytes)
    requires (if item.Element? then item.value else item.name).before == []
    ensures ItemText(LeadItem(item, e), r) == e + ItemText(item, r)
  {
    hide BodyText;
    var n := if item.Element? then item.value else item.name;
    var r' := if item.Element? then r else [COLON] + NodeText(item.value, r);
    assert [] + BodyText(n.body, n.after + r') == BodyText(n.body, n.after + r');
  }

  // ----- the pass writes the indented tree -----

  /** The tree is in compact form. */
  predicate Tight(b: Body) {
    CompactBody(b) == b
  }

  lemma IndentInString(s: bytes, afterOpen: bool, escaped: bool, depth: nat)
    requires s != []
    ensures Indent(s, afterOpen, true, escaped, depth) ==
            Then([s[0]], Indent(s[1..], IsOpener(s[0]), !EndsString(s[0], escaped), Escapes(s[0], escaped), depth))
  {
  }

  lemma ThenThen(a: bytes, b: bytes, r: Option<(bytes, nat)>)
    ensures Then(a, Then(b, r)) == Then(a + b, r)
  {
    if r.Some? {
      Regroup(a, b, r.value.0);
    }
  }

  lemma {:induction false} IndentString(s: bytes, afterOpen: bool, escaped: bool, depth: nat)
    requires QuoteScan(s, escaped).Some?
    ensures var n := QuoteScan(s, escaped).value;
            Indent(s, afterOpen, true, escaped, depth) == Then(s[..n], Indent(s[n..], false, false, false, depth))
    decreases |s|
  {
    hide Indent, QuoteScan, Then;
    var n := QuoteScan(s, escaped).value;
    QuoteScanStep(s, escaped);
    IndentInString(s, afterOpen, escaped, depth);
    if EndsString(s[0], escaped) {
      assert s[..1] == [s[0]];
    } else {
      IndentString(s[1..], IsOpener(s[0]), Escapes(s[0], escaped), depth);
      ThenThen([s[0]], s[1..][..n - 1], Indent(s[n..], false, false, false, depth));
      assert s[..n] == [s[0]] + s[1..][..n - 1] && s[1..][n - 1..] == s[n..];
    }
  }

  lemma IndentWordByte(b: byte, r: bytes, afterOpen: bool, depth: nat)
    requires IsWordByte(b)
    ensures Indent([b] + r, afterOpen, false, false, depth) == Then([b], Indent(r, false, false, false, depth))
  {
    assert ([b] + r)[1..] == r;
  }

  lemma {:induction false} IndentWord(t: bytes, r: bytes, afterOpen: bool, depth: nat)
    requires t != [] && forall i :: 0 <= i < |t| ==> IsWordByte(t[i])
    ensures Indent(t + r, afterOpen, false, false, depth) == Then(t, Indent(r, false, false, false, depth))
    decreases |t|
  {
    hide Indent, Then;
    IndentWordByte(t[0], t[1..] + r, afterOpen, depth);
    assert t + r == [t[0]] + (t[1..] + r);
    if |t| > 1 {
      IndentWord(t[1..], r, false, depth);
      ThenThen([t[0]], t[1..], Indent(r, false, false, false, depth));
      assert t == [t[0]] + t[1..];
    } else {
      assert t[1..] + r == r && t == [t[0]];
    }
  }

  lemma IndentScalar(t: bytes, r: bytes, afterOpen: bool, depth: nat)
    requires IsScalar(t)
    ensures Indent(t + r, afterOpen, false, false, depth) == Then(t, Indent(r, false, false, false, depth))
  {
    hide IsWord, StringTail, Indent, Then;
    if IsString(t) {
      StringTailExtend(t[1..], r);
      var s := t[1..] + r;
      assert t + r == [QUOTE] + s;
      StringTailScan(s);
      IndentString(s, false, false, depth);
      assert s[..|t| - 1] == t[1..] && s[|t| - 1..] == r;
      IndentQuote(s, afterOpen, depth);
      ThenThen([QUOTE], t[1..], Indent(r, false, false, false, depth));
      assert t == [QUOTE] + t[1..];
    } else {
      WordBytes(t);
      IndentWord(t, r, afterOpen, depth);
    }
  }

  lemma IndentQuote(s: bytes, afterOpen: bool, depth: nat)
    ensures Indent([QUOTE] + s, afterOpen, false, false, depth) == Then([QUOTE], Indent(s, false, true, false, depth))
  {
    assert ([QUOTE] + s)[1..] == s;
  }

  lemma IndentMark(b: byte, r: bytes, afterOpen: bool, depth: nat)
    ensures b == COMMA ==>
            Indent([b] + r, afterOpen, false, false, depth) ==
            Then([b] + Newline(depth), Indent(r, false, false, false, depth))
    ensures b == COLON ==>
            Indent([b] + r, afterOpen, false, false, depth) == Then([b, SPACE], Indent(r, false, false, false, depth))
    ensures IsCloser(b) && depth > 0 ==>
              (Indent([b] + r, afterOpen, false, false, depth)
               == Then((if afterOpen then [] else Newline(depth - 1)) + [b], Indent(r, false, false, false, depth - 1)))
    ensures IsOpener(b) ==>
              (Indent([b] + r, afterOpen, false, false, depth)
               == Then([b] + (if r != [] && IsCloser(r[0]) then [] else Newline(depth + 1)),
                       Indent(r, true, false, false, depth + 1)))
  {
    hide Newline;
    assert ([b] + r)[1..] == r;
  }

  lemma {:induction false} IndentBodyText(b: Body, r: bytes, afterOpen: bool, depth: nat, x: (bytes, nat))
    requires WfBody(b, Json) && Tight(b) && Indent(r, false, false, false, depth) == Some(x)
    ensures Indent(BodyText(b, r), afterOpen, false, false, depth) == Some((BodyText(IndentBody(b, depth), x.0), x.1))
    decreases b, 2
  {
    hide Indent, ItemsText, WfItems, Inner, Lead, Newline, IsScalar, CompactItems;
    match b {
      case Scalar(text) => IndentScalar(text, r, afterOpen, depth);
      case Group(obj, items) =>
        var inner := ItemsText(items, obj, r);
        IndentMark(Opener(obj), inner, afterOpen, depth);
        if items.Close? {
          TightClose(items, obj, r);
          IndentMark(Closer(obj), r, true, depth + 1);
          CloseForm(obj, x.0);
          assert [Opener(obj)] + [] == [Opener(obj)];
        } else {
          TightOpens(items, obj, r, true);
          IndentItemsText(items, obj, r, true, depth + 1, x, true);
          LeadText(items, depth + 1, obj, Newline(depth + 1), x.0);
          Regroup([Opener(obj)], Newline(depth + 1), ItemsText(Inner(items, depth + 1), obj, x.0));
        }
    }
  }

  lemma TightClose(items: Items, obj: bool, r: bytes)
    requires items.Close? && CompactItems(items) == items
    ensures ItemsText(items, obj, r) == [Closer(obj)] + r
  {
    assert [] + ([Closer(obj)] + r) == [Closer(obj)] + r;
  }

  lemma CloseForm(obj: bool, x: bytes)
    ensures BodyText(Group(obj, Close([])), x) == [Opener(obj)] + ([] + [Closer(obj)] + x)
  {
    assert ItemsText(Close([]), obj, x) == [] + ([Closer(obj)] + x);
    assert [] + ([Closer(obj)] + x) == [] + [Closer(obj)] + x;
  }

  lemma TightItem(item: Item, obj: bool)
    requires WfItem(item, obj, Json) && CompactItem(item) == item
    ensures item.value.before == [] && item.value.after == [] && WfBody(item.value.body, Json) && Tight(item.value.body)
    ensures item.Member? ==> item.name.before == [] && item.name.after == [] && WfBody(item.name.body, Json)
                             && item.name.body.Scalar? && IsScalar(item.name.body.text)
  {
    hide IsScalar, WfItems, CompactItems, SafeText;
    var c := CompactItem(item);
    assert c.value == CompactNode(item.value);
    if item.Member? {
      assert c.name == CompactNode(item.name);
      assert WfNode(item.name, Json);
    }
  }

  /** Tight items that are not empty start with ink other than a closing bracket. */
  lemma TightOpens(items: Items, obj: bool, r: bytes, first: bool)
    requires WfItems(items, obj, Json, first) && !items.Close? && CompactItems(items) == items
    ensures var t := ItemsText(items, obj, r); t != [] && !IsCloser(t[0])
  {
    hide BodyText, WfBody, CompactBody;
    var item := items.item;
    assert CompactItem(item) == item && WfItem(item, obj, Json);
    var tail := if items.Last? then [Closer(obj)] + r else [COMMA] + ItemsText(items.rest, obj, r);
    assert ItemsText(items, obj, r) == ItemText(item, tail);
    var n := if item.Element? then item.value else item.name;
    var r' := if item.Element? then tail else [COLON] + NodeText(item.value, tail);
    assert ItemText(item, tail) == NodeText(n, r');
    TightItem(item, obj);
    BodyStart(n.body, n.after + r', Json);
    assert [] + BodyText(n.body, n.after + r') == BodyText(n.body, n.after + r');
  }

  lemma {:induction false} IndentItemsText(items: Items, obj: bool, r: bytes, afterOpen: bool, depth: nat,
                                           x: (bytes, nat), first: bool)
    requires WfItems(items, obj, Json, first) && !items.Close? && CompactItems(items) == items
    requires depth > 0 && Indent(r, false, false, false, depth - 1) == Some(x)
    ensures Indent(ItemsText(items, obj, r), afterOpen, false, false, depth) ==
            Some((ItemsText(Inner(items, depth), obj, x.0), x.1))
    decreases items, 5
  {
    hide Indent, ItemText, WfItem, IndentItem, Newline, CompactItem, Lead;
    match items {
      case Last(item) =>
        IndentMark(Closer(obj), r, false, depth);
        var y := (Newline(depth - 1) + [Closer(obj)] + x.0, x.1);
        IndentItemText(item, obj, [Closer(obj)] + r, afterOpen, depth, y);
        AfterForm(item, depth, Newline(depth - 1), [Closer(obj)] + x.0);
        Regroup(Newline(depth - 1), [Closer(obj)], x.0);
      case More(item, rest) =>
        var u := ItemsText(rest, obj, r);
        IndentMark(COMMA, u, false, depth);
        IndentItemsText(rest, obj, r, false, depth, x, false);
        var v := ItemsText(Inner(rest, depth), obj, x.0);
        var y := ([COMMA] + Newline(depth) + v, x.1);
        IndentItemText(item, obj, [COMMA] + u, afterOpen, depth, y);
        LeadText(rest, depth, obj, Newline(depth), x.0);
        Regroup([COMMA], Newline(depth), v);
    }
  }

  lemma AfterForm(item: Item, depth: nat, e: bytes, r: bytes)
    ensures ItemText(IndentItem(item, depth, e), r) == ItemText(IndentItem(item, depth, []), e + r)
  {
    hide BodyText, IndentBody;
    assert [] + (e + r) == e + r;
  }

  lemma {:induction false} IndentItemText(item: Item, obj: bool, r: bytes, afterOpen: bool, depth: nat, y: (bytes, nat))
    requires WfItem(item, obj, Json) && CompactItem(item) == item && Indent(r, false, false, false, depth) == Some(y)
    ensures Indent(ItemText(item, r), afterOpen, false, false, depth) ==
            Some((ItemText(IndentItem(item, depth, []), y.0), y.1))
    decreases item, 4
  {
    hide Indent, BodyText, WfItems, IsScalar, IndentBody, CompactBody;
    var v := item.value;
    TightItem(item, obj);
    TightNode(v, r);
    TightNode(Node([], IndentBody(v.body, depth), []), y.0);
    if item.Element? {
      IndentBodyText(v.body, r, afterOpen, depth, y);
    } else {
      IndentBodyText(v.body, r, false, depth, y);
      var u := BodyText(v.body, r);
      var w := BodyText(IndentBody(v.body, depth), y.0);
      IndentMark(COLON, u, false, depth);
      NameForm(item.name, [COLON] + u);
      IndentScalar(item.name.body.text, [COLON] + u, afterOpen, depth);
      NameForm(Node([], item.name.body, []), [COLON] + ([SPACE] + w));
      assert [COLON, SPACE] + w == [COLON] + ([SPACE] + w);
      assert NodeText(Node([SPACE], IndentBody(v.body, depth), []), y.0) == [SPACE] + w by { assert [] + y.0 == y.0; }
    }
  }

  lemma TightNode(n: Node, r: bytes)
    requires n.before == [] && n.after == []
    ensures NodeText(n, r) == BodyText(n.body, r)
  {
    hide BodyText;
    assert [] + r == r;
    assert [] + BodyText(n.body, r) == BodyText(n.body, r);
  }

  lemma NameForm(n: Node, r: bytes)
    requires n.before == [] && n.after == [] && n.body.Scalar?
    ensures NodeText(n, r) == n.body.text + r
  {
    TightNode(n, r);
  }

  // ----- indenting changes only whitespace -----

  lemma {:induction false} IndentBodyKeeps(b: Body, depth: nat)
    requires WfBody(b, Json)
    ensures WfBody(IndentBody(b, depth), Json) && DepthBody(IndentBody(b, depth)) == DepthBody(b)
    ensures CompactBody(IndentBody(b, depth)) == CompactBody(b)
    decreases b, 2
  {
    hide WfItems, Inner, Lead, Newline, DepthItems, CompactItems, IsScalar, SafeText;
    if b.Group? {
      if b.items.Close? {
        ClosedKeeps(b.items, b.obj);
      } else {
        InnerKeeps(b.items, b.obj, depth + 1, true);
        LeadKeeps(Inner(b.items, depth + 1), b.obj, Newline(depth + 1), true);
      }
    }
  }

  lemma ClosedKeeps(items: Items, obj: bool)
    requires items.Close?
    ensures WfItems(Close([]), obj, Json, true) && DepthItems(Close([])) == DepthItems(items)
            && CompactItems(Close([])) == CompactItems(items)
  {
  }

  lemma LeadKeeps(items: Items, obj: bool, e: bytes, first: bool)
    requires WfItems(items, obj, Json, first) && AllSpace(e)
    ensures WfItems(Lead(items, e), obj, Json, first) && DepthItems(Lead(items, e)) == DepthItems(items)
    ensures CompactItems(Lead(items, e)) == CompactItems(items)
  {
    hide WfItem, DepthNode, CompactItem, IsExtra, LeadItem;
    if !items.Close? {
      LeadItemKeeps(items.item, obj, e);
    }
  }

  lemma LeadItemKeeps(item: Item, obj: bool, e: bytes)
    requires WfItem(item, obj, Json) && AllSpace(e)
    ensures var i := LeadItem(item, e);
            WfItem(i, obj, Json) && DepthNode(i.value) == DepthNode(item.value) && CompactItem(i) == CompactItem(item)
  {
    hide WfBody, DepthBody, CompactBody, IsExtra;
    SpaceIsExtra(e, Json);
  }

  lemma {:induction false} InnerKeeps(items: Items, obj: bool, depth: nat, first: bool)
    requires depth > 0 && WfItems(items, obj, Json, first) && !items.Close?
    ensures WfItems(Inner(items, depth), obj, Json, first) && DepthItems(Inner(items, depth)) == DepthItems(items)
    ensures CompactItems(Inner(items, depth)) == CompactItems(items)
    decreases items, 5
  {
    hide WfItem, IndentItem, Newline, Lead, CompactItem, DepthNode;
    match items {
      case Last(item) => IndentItemKeeps(item, obj, depth, Newline(depth - 1));
      case More(item, rest) =>
        IndentItemKeeps(item, obj, depth, []);
        InnerKeeps(rest, obj, depth, false);
        LeadKeeps(Inner(rest, depth), obj, Newline(depth), false);
    }
  }

  lemma {:induction false} IndentItemKeeps(item: Item, obj: bool, depth: nat, after: bytes)
    requires WfItem(item, obj, Json) && AllSpace(after)
    ensures var i := IndentItem(item, depth, after);
            WfItem(i, obj, Json) && DepthNode(i.value) == DepthNode(item.value) && CompactItem(i) == CompactItem(item)
    decreases item, 4
  {
    hide WfBody, IndentBody, DepthBody, CompactBody, IsExtra;
    IndentBodyKeeps(item.value.body, depth);
    SpaceIsExtra(after, Json);
    SpaceIsExtra([SPACE], Json);
    SpaceIsExtra([], Json);
  }

  // ----- the two operations -----

  function Compacted(s: bytes): Option<bytes> {
    var n :- DocumentOf(s);
    Some(Print(CompactNode(n)))
  }

  function IndentedNode(n: Node): Node {
    Node([], IndentBody(CompactBody(n.body), 0), [])
  }

  function Indented(s: bytes): Option<bytes> {
    var n :- DocumentOf(s);
    Some(Print(IndentedNode(n)))
  }

  method CompactHtml(source: bytes) returns (r: Option<bytes>)
    ensures r == Compacted(source)
  {
    hide ReadDocument, DepthNode, WfNode, NodeText, CompactNode, Compact;
    var ok := Validate(source, MAX_DEPTH);
    if !ok { return None; }
    ReadDocumentExact(source, Json);
    CompactNodeText(ReadDocument(source, Json).value, []);
    CompactEnd([], false, false);
    var out := CompactBytes(source);
    return Some(out);
  }

  method IndentJson(source: bytes) returns (r: Option<bytes>)
    ensures r == Indented(source)
  {
    hide ReadDocument, DepthNode, NodeText, CompactNode, Indent, IndentedNode;
    var compact := CompactHtml(source);
    if compact.None? { return None; }
    IndentsCompact(source);
    var out, depth := IndentBytes(compact.value);
    return Some(out);
  }

  /** The pass never underflows on a compact document, and ends where it began. */
  lemma IndentsCompact(source: bytes)
    requires Compacted(source).Some?
    ensures Indented(source).Some?
            && Indent(Compacted(source).value, false, false, false, 0) == Some((Indented(source).value, 0))
  {
    hide ReadNode, WfBody, BodyText, CompactBody, IndentBody, IsExtra;
    ReadDocumentExact(source, Json);
    var b := DocumentOf(source).value.body;
    CompactBodyKeeps(b);
    assert Indent([], false, false, false, 0) == Some(([], 0));
    IndentBodyText(CompactBody(b), [], false, 0, ([], 0));
    TightNode(Node([], CompactBody(b), []), []);
    TightNode(Node([], IndentBody(CompactBody(b), 0), []), []);
  }

  method IndentBytes(compact: bytes) returns (out: bytes, depth: nat)
    requires Indent(compact, false, false, false, 0).Some?
    ensures Indent(compact, false, false, false, 0) == Some((out, depth))
  {
    hide Indent, Newline;
    out, depth := [], 0;
    var index, inString, escaped := 0, false, false;
    IndentStart(compact);
    while index < |compact|
      invariant 0 <= index <= |compact| && (!inString ==> !escaped)
      invariant Then(out, Indent(compact[index..], Before(compact, index), inString, escaped, depth)) ==
                Indent(compact, false, false, false, 0)
    {
      var b := compact[index];
      ghost var was, inString', escaped', depth' := out, inString, escaped, depth;
      IndentStep(compact, index, inString, escaped, depth);
      var piece: bytes;
      if inString {
        piece := [b];
        if escaped {
          escaped := false;
        } else if b == BACKSLASH {
          escaped := true;
        } else if b == QUOTE {
          inString := false;
        }
      } else if b == QUOTE {
        inString := true;
        piece := [b];
      } else if IsOpener(b) {
        depth := depth + 1;
        piece := [b] + (if index + 1 < |compact| && IsCloser(compact[index + 1]) then [] else Newline(depth));
      } else if IsCloser(b) {
        depth := depth - 1;
        piece := (if 0 < index && IsOpener(compact[index - 1]) then [] else Newline(depth)) + [b];
      } else if b == COMMA {
        piece := [b] + Newline(depth);
      } else if b == COLON {
        piece := [b, SPACE];
      } else {
        piece := [b];
      }
      out := out + piece;
      index := index + 1;
      assert Indent(compact[index - 1..], Before(compact, index - 1), inString', escaped', depth') ==
             Then(piece, Indent(compact[index..], Before(compact, index), inString, escaped, depth));
      ThenThen(was, piece, Indent(compact[index..], Before(compact, index), inString, escaped, depth));
    }
    IndentFinish(compact, Before(compact, index), inString, escaped, depth, out);
  }

  /** The byte before position `index` opens a container. */
  function Before(s: bytes, index: nat): bool
    requires index <= |s|
  {
    index > 0 && IsOpener(s[index - 1])
  }

  lemma IndentStart(s: bytes)
    requires Indent(s, false, false, false, 0).Some?
    ensures Then([], Indent(s[0..], false, false, false, 0)) == Indent(s, false, false, false, 0)
  {
    hide Indent;
    assert s[0..] == s;
    var x := Indent(s, false, false, false, 0).value.0;
    assert [] + x == x;
  }

  lemma IndentFinish(s: bytes, afterOpen: bool, inString: bool, escaped: bool, depth: nat, out: bytes)
    ensures Then(out, Indent(s[|s|..], afterOpen, inString, escaped, depth)) == Some((out, depth))
  {
    assert s[|s|..] == [] && out + [] == out;
  }

  lemma IndentStep(s: bytes, index: nat, inString: bool, escaped: bool, depth: nat)
    requires index < |s|
    ensures var b, t, x := s[index], s[index + 1..], Before(s, index + 1);
            Indent(s[index..], Before(s, index), inString, escaped, depth) ==
            if inString then Then([b], Indent(t, x, !EndsString(b, escaped), Escapes(b, escaped), depth))
            else if b == QUOTE then Then([b], Indent(t, x, true, false, depth))
            else if IsOpener(b) then
              Then([b] + (if index + 1 < |s| && IsCloser(s[index + 1]) then [] else Newline(depth + 1)),
                   Indent(t, x, false, false, depth + 1))
            else if IsCloser(b) then
              if depth == 0 then None
              else Then((if Before(s, index) then [] else Newline(depth - 1)) + [b],
                        Indent(t, x, false, false, depth - 1))
            else if b == COMMA then Then([b] + Newline(depth), Indent(t, x, false, false, depth))
            else if b == COLON then Then([b, SPACE], Indent(t, x, false, false, depth))
            else Then([b], Indent(t, x, false, false, depth))
  {
    hide Newline, Then;
    assert s[index..][1..] == s[index + 1..];
    assert index + 1 < |s| ==> s[index..][1] == s[index + 1];
  }

  /** Compacting succeeds on exactly the valid documents, keeps what they say and is idempotent. */
  lemma CompactedCorrect(s: bytes)
    ensures Compacted(s).Some? <==> DocumentOf(s).Some?
    ensures Compacted(s).Some? ==>
              var n, c := DocumentOf(s).value, Compacted(s).value;
              && DocumentOf(c) == Some(CompactNode(n)) && Says(CompactNode(n).body) == Says(n.body)
              && Compacted(c) == Some(c)
  {
    hide ReadNode, WfBody, NodeText, CompactBody, Says, IsExtra, DepthBody;
    ReadDocumentExact(s, Json);
    if DocumentOf(s).Some? {
      var n := DocumentOf(s).value;
      CompactBodyKeeps(n.body);
      SpaceIsExtra([], Json);
      ReadDocumentExact(Compacted(s).value, Json);
      assert WfNode(CompactNode(n), Json);
    }
  }

  /** Indenting a valid document changes only its whitespace: compacting undoes it. */
  lemma IndentedCorrect(s: bytes)
    ensures Indented(s).Some? <==> DocumentOf(s).Some?
    ensures Indented(s).Some? ==>
              var n, t := DocumentOf(s).value, Indented(s).value;
              && DocumentOf(t) == Some(IndentedNode(n)) && Compacted(t) == Compacted(s)
              && Indent(Compacted(s).value, false, false, false, 0) == Some((t, 0))
  {
    hide ReadNode, WfBody, NodeText, CompactBody, IndentBody, IsExtra, DepthBody, Indent;
    ReadDocumentExact(s, Json);
    if DocumentOf(s).Some? {
      var n := DocumentOf(s).value;
      CompactBodyKeeps(n.body);
      IndentBodyKeeps(CompactBody(n.body), 0);
      SpaceIsExtra([], Json);
      ReadDocumentExact(Indented(s).value, Json);
      assert WfNode(IndentedNode(n), Json);
      IndentsCompact(s);
    }
  }
}
