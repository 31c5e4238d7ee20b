/** The two-pass stripper against the standardizer, on every document the standardizer accepts. */
module StripAgrees {
  import opened Bytes
  import opened Wrappers
  import opened Lexemes
  import opened Syntax
  import opened Reader
  import opened Standard
  import opened Literals
  import opened StripHuJson
  import opened HuJson

  // ----- the first pass blanks every extra and leaves the rest alone -----

  function SoftExtra(e: bytes): (r: bytes)
    ensures |r| == |e|
  {
    Comments(e, false, false)
  }

  function SoftNode(n: Node): Node {
    Node(SoftExtra(n.before), SoftBody(n.body), SoftExtra(n.after))
  }

  function SoftBody(b: Body): Body {
    match b
    case Scalar(_) => b
    case Group(obj, items) => Group(obj, SoftItems(items))
  }

  function SoftItems(items: Items): Items {
    match items
    case Close(extra) => Close(SoftExtra(extra))
    case Last(item) => Last(SoftItem(item))
    case More(item, rest) => More(SoftItem(item), SoftItems(rest))
  }

  function SoftItem(item: Item): Item {
    match item
    case Element(value) => Element(SoftNode(value))
    case Member(name, value) => Member(SoftNode(name), SoftNode(value))
  }

  lemma {:induction false} CommentsString(s: bytes, escaped: bool)
    requires QuoteScan(s, escaped).Some?
    ensures var n := QuoteScan(s, escaped).value;
            Comments(s, true, escaped) == s[..n] + Comments(s[n..], false, false)
    decreases |s|
  {
    hide Comments, QuoteScan;
    var n := QuoteScan(s, escaped).value;
    QuoteScanStep(s, escaped);
    CommentsInString(s, escaped);
    if EndsString(s[0], escaped) {
      assert s[..1] == [s[0]];
    } else {
      CommentsString(s[1..], Escapes(s[0], escaped));
      SplitString(s, n, Comments(s[n..], false, false));
    }
  }

  lemma CommentsInString(s: bytes, escaped: bool)
    requires s != []
    ensures Comments(s, true, escaped) == [s[0]] + Comments(s[1..], !EndsString(s[0], escaped), Escapes(s[0], escaped))
  {
  }

  lemma SplitString(s: bytes, n: nat, r: bytes)
    requires 0 < n <= |s|
    ensures [s[0]] + (s[1..][..n - 1] + r) == s[..n] + r && s[1..][n - 1..] == s[n..]
  {
    assert s[..n] == [s[0]] + s[1..][..n - 1];
  }

  lemma {:induction false} CommentsWord(t: bytes, r: bytes)
    requires forall i :: 0 <= i < |t| ==> IsWordByte(t[i])
    ensures Comments(t + r, false, false) == t + Comments(r, false, false)
  {
    hide Comments;
    if t == [] {
      assert t + r == r;
      assert t + Comments(r, false, false) == Comments(r, false, false);
    } else {
      CommentsWord(t[1..], r);
      assert t + r == [t[0]] + (t[1..] + r);
      assert t[0] != QUOTE && t[0] != SLASH;
      CommentsPunctuation(t[0], t[1..] + r);
      Regroup([t[0]], t[1..], Comments(r, false, false));
      assert t == [t[0]] + t[1..];
    }
  }

  lemma CommentsQuote(s: bytes)
    ensures Comments([QUOTE] + s, false, false) == [QUOTE] + Comments(s, true, false)
  {
    assert ([QUOTE] + s)[1..] == s;
  }

  lemma CommentsScalar(t: bytes, r: bytes)
    requires IsScalar(t)
    ensures Comments(t + r, false, false) == t + Comments(r, false, false)
  {
    hide IsWord, StringTail, Comments, QuoteScan;
    if IsString(t) {
      var u := t[1..];
      StringTailExtend(u, r);
      StringTailScan(u + r);
      CommentsString(u + r, false);
      assert (u + r)[..|u|] == u && (u + r)[|u|..] == r;
      assert t == [QUOTE] + u && t + r == [QUOTE] + (u + r);
      CommentsQuote(u + r);
      Regroup([QUOTE], u, Comments(r, false, false));
    } else {
      WordBytes(t);
      CommentsWord(t, r);
    }
  }

  lemma CommentsPunctuation(b: byte, r: bytes)
    requires b != QUOTE && b != SLASH
    ensures Comments([b] + r, false, false) == [b] + Comments(r, false, false)
  {
    assert ([b] + r)[1..] == r;
  }

  lemma {:induction false} CommentsExtra(e: bytes, r: bytes)
    requires IsExtra(e, HuJson)
    ensures Comments(e + r, false, false) == SoftExtra(e) + Comments(r, false, false)
    ensures AllSpace(SoftExtra(e))
    decreases |e|
  {
    hide CommentLen, Utf8.IsValid, SoftComment, IsExtra, Comments;
    if e == [] {
      assert e + r == r;
      assert SoftExtra(e) == [];
      assert [] + Comments(r, false, false) == Comments(r, false, false);
    } else if IsSpace(e[0]) {
      ExtraAfterSpace(e);
      CommentsExtra(e[1..], r);
      assert e == [e[0]] + e[1..] && e + r == [e[0]] + (e[1..] + r);
      CommentsPunctuation(e[0], e[1..] + r);
      CommentsPunctuation(e[0], e[1..]);
      Regroup([e[0]], SoftExtra(e[1..]), Comments(r, false, false));
    } else {
      var k := ExtraAfterComment(e);
      CommentsExtra(e[k..], r);
      CommentsComment(e, []);
      CommentsComment(e, r);
      assert (e + r)[k..] == e[k..] + r && (e + [])[k..] == e[k..] && e + [] == e;
      Regroup(SoftComment(e), SoftExtra(e[k..]), Comments(r, false, false));
    }
  }

  lemma ExtraAfterSpace(e: bytes)
    requires IsExtra(e, HuJson) && e != [] && IsSpace(e[0])
    ensures IsExtra(e[1..], HuJson)
  {
  }

  lemma ExtraAfterComment(e: bytes) returns (k: nat)
    requires IsExtra(e, HuJson) && e != [] && !IsSpace(e[0])
    ensures StartsComment(e) && CommentLen(e) == Some(k) && IsExtra(e[k..], HuJson)
  {
    k := CommentLen(e).value;
  }

  /** What the first pass writes for a comment. */
  function SoftComment(e: bytes): (r: bytes)
    requires StartsComment(e) && CommentLen(e).Some?
    ensures |r| == CommentLen(e).value && AllSpace(r)
  {
    var k := CommentLen(e).value;
    if e[1] == SLASH then Soften(e[..k - 1]) + [LF] else Soften(e[..k])
  }

  lemma CommentsComment(e: bytes, r: bytes)
    requires StartsComment(e) && CommentLen(e).Some?
    ensures var k := CommentLen(e).value;
            Comments(e + r, false, false) == SoftComment(e) + Comments((e + r)[k..], false, false)
  {
    hide Soften, Comments, LineEnd, BlockEnd, LineBody;
    var k, s := CommentLen(e).value, e + r;
    assert s[2..] == e[2..] + r && s[0] == SLASH && s[1] == e[1] && s[0..] == s;
    if e[1] == SLASH {
      LineEndBody(e[2..], r);
      CommentsLine(s, 0, 2 + LineBody(s[2..]));
      assert s[..k - 1] == e[..k - 1];
      assert s[k - 1..] == [LF] + s[k..] by { assert s[k - 1] == e[2..][k - 3] == LF; }
      CommentsPunctuation(LF, s[k..]);
      Regroup(Soften(e[..k - 1]), [LF], Comments(s[k..], false, false));
    } else {
      BlockEndLocal(e[2..], r);
      CommentsBlock(s, 0);
      assert s[..k] == e[..k];
    }
  }

  lemma {:induction false} LineEndBody(s: bytes, r: bytes)
    requires LineEnd(s).Some?
    ensures LineBody(s + r) == LineEnd(s).value - 1 && s[LineEnd(s).value - 1] == LF
  {
    if s[0] != LF {
      LineEndBody(s[1..], r);
      assert (s + r)[1..] == s[1..] + r;
    }
  }

  lemma {:induction false} CommentsNode(n: Node, r: bytes)
    requires WfNode(n, HuJson)
    ensures Comments(NodeText(n, r), false, false) == NodeText(SoftNode(n), Comments(r, false, false))
    decreases n, 3
  {
    hide WfBody, BodyText, SoftBody, IsExtra, Comments;
    CommentsExtra(n.before, BodyText(n.body, n.after + r));
    CommentsBody(n.body, n.after + r);
    CommentsExtra(n.after, r);
  }

  lemma {:induction false} CommentsBody(b: Body, r: bytes)
    requires WfBody(b, HuJson)
    ensures Comments(BodyText(b, r), false, false) == BodyText(SoftBody(b), Comments(r, false, false))
    decreases b, 2
  {
    hide WfItems, ItemsText, SoftItems, IsScalar, Comments;
    match b
    case Scalar(text) => CommentsScalar(text, r);
    case Group(obj, items) =>
      CommentsPunctuation(Opener(obj), ItemsText(items, obj, r));
      CommentsItems(items, obj, r, true);
  }

  lemma {:induction false} CommentsItems(items: Items, obj: bool, r: bytes, first: bool)
    requires WfItems(items, obj, HuJson, first)
    ensures Comments(ItemsText(items, obj, r), false, false) ==
            ItemsText(SoftItems(items), obj, Comments(r, false, false))
    decreases items, 5
  {
    hide WfItem, ItemText, SoftItem, IsExtra, Comments;
    CommentsPunctuation(Closer(obj), r);
    match items
    case Close(extra) => CommentsExtra(extra, [Closer(obj)] + r);
    case Last(item) => CommentsItem(item, obj, [Closer(obj)] + r);
    case More(item, rest) =>
      CommentsItem(item, obj, [COMMA] + ItemsText(rest, obj, r));
      CommentsPunctuation(COMMA, ItemsText(rest, obj, r));
      CommentsItems(rest, obj, r, false);
  }

  lemma {:induction false} CommentsItem(item: Item, obj: bool, r: bytes)
    requires WfItem(item, obj, HuJson)
    ensures Comments(ItemText(item, r), false, false) == ItemText(SoftItem(item), Comments(r, false, false))
    decreases item, 4
  {
    hide WfNode, NodeText, SoftNode, Comments;
    CommentsNode(item.value, r);
    if item.Member? {
      CommentsPunctuation(COLON, NodeText(item.value, r));
      CommentsNode(item.name, [COLON] + NodeText(item.value, r));
    }
  }

  // ----- the second pass blanks exactly the trailing commas -----

  lemma CommasInString(s: bytes, escaped: bool)
    requires s != []
    ensures Commas(s, true, escaped) == [s[0]] + Commas(s[1..], !EndsString(s[0], escaped), Escapes(s[0], escaped))
  {
  }

  lemma {:induction false} CommasString(s: bytes, escaped: bool)
    requires QuoteScan(s, escaped).Some?
    ensures var n := QuoteScan(s, escaped).value;
            Commas(s, true, escaped) == s[..n] + Commas(s[n..], false, false)
    decreases |s|
  {
    hide Commas, QuoteScan;
    var n := QuoteScan(s, escaped).value;
    QuoteScanStep(s, escaped);
    CommasInString(s, escaped);
    if EndsString(s[0], escaped) {
      assert s[..1] == [s[0]];
    } else {
      CommasString(s[1..], Escapes(s[0], escaped));
      SplitString(s, n, Commas(s[n..], false, false));
    }
  }

  lemma CommasOther(b: byte, r: bytes)
    requires b != QUOTE && b != COMMA
    ensures Commas([b] + r, false, false) == [b] + Commas(r, false, false)
  {
    assert ([b] + r)[1..] == r;
  }

  lemma CommasComma(r: bytes)
    ensures Commas([COMMA] + r, false, false) == [if IsTrailing(r) then SPACE else COMMA] + Commas(r, false, false)
  {
    hide IsTrailing;
    assert ([COMMA] + r)[1..] == r;
  }

  lemma {:induction false} CommasOthers(t: bytes, r: bytes)
    requires forall i :: 0 <= i < |t| ==> t[i] != QUOTE && t[i] != COMMA
    ensures Commas(t + r, false, false) == t + Commas(r, false, false)
  {
    hide Commas;
    if t == [] {
      assert t + r == r;
      assert t + Commas(r, false, false) == Commas(r, false, false);
    } else {
      CommasOthers(t[1..], r);
      assert t + r == [t[0]] + (t[1..] + r);
      CommasOther(t[0], t[1..] + r);
      Regroup([t[0]], t[1..], Commas(r, false, false));
      assert t == [t[0]] + t[1..];
    }
  }

  lemma CommasScalar(t: bytes, r: bytes)
    requires IsScalar(t)
    ensures Commas(t + r, false, false) == t + Commas(r, false, false)
  {
    hide IsWord, StringTail, Commas;
    if IsString(t) {
      StringTailExtend(t[1..], r);
      var s := t[1..] + r;
      assert t + r == [QUOTE] + s;
      StringTailScan(s);
      CommasString(s, false);
      assert s[..|t| - 1] == t[1..] && s[|t| - 1..] == r;
      assert t == [QUOTE] + t[1..];
      CommasQuote(s);
      Regroup([QUOTE], t[1..], Commas(r, false, false));
    } else {
      WordBytes(t);
      CommasOthers(t, r);
    }
  }

  lemma CommasQuote(s: bytes)
    ensures Commas([QUOTE] + s, false, false) == [QUOTE] + Commas(s, true, false)
  {
    assert ([QUOTE] + s)[1..] == s;
  }

  lemma SoftIsBlank(e: bytes)
    requires IsExtra(e, HuJson)
    ensures AllSpace(SoftExtra(e)) && Blank(SoftExtra(e)) == SoftExtra(e)
  {
    hide Comments, IsExtra;
    CommentsExtra(e, []);
  }

  lemma CommasExtra(e: bytes, r: bytes)
    requires IsExtra(e, HuJson)
    ensures Commas(SoftExtra(e) + r, false, false) == Blank(SoftExtra(e)) + Commas(r, false, false)
  {
    hide Comments, Commas, IsExtra, Blank;
    SoftIsBlank(e);
    CommasOthers(SoftExtra(e), r);
  }

  lemma {:induction false} FirstInkSkips(e: bytes, r: bytes)
    requires AllSpace(e)
    ensures FirstInk(e + r) == FirstInk(r)
  {
    if e == [] {
      assert e + r == r;
    } else {
      FirstInkSkips(e[1..], r);
      assert (e + r)[1..] == e[1..] + r;
    }
  }

  /** After a comma the next ink is a closing bracket only if the comma is a trailing one. */
  lemma TrailingItems(items: Items, obj: bool, r: bytes, first: bool)
    requires WfItems(items, obj, HuJson, first)
    ensures IsTrailing(ItemsText(SoftItems(items), obj, r)) <==> items.Close?
  {
    hide SoftBody, BodyText, WfBody, IsExtra, Comments;
    if items.Close? {
      SoftIsBlank(items.extra);
      FirstInkSkips(SoftExtra(items.extra), [Closer(obj)] + r);
    } else {
      var tail := if items.Last? then [Closer(obj)] + r else [COMMA] + ItemsText(SoftItems(items.rest), obj, r);
      assert ItemsText(SoftItems(items), obj, r) == ItemText(SoftItem(items.item), tail);
      var item := items.item;
      if item.Element? {
        NodeInk(item.value, tail);
      } else {
        NodeInk(item.name, [COLON] + NodeText(SoftNode(item.value), tail));
      }
    }
  }

  lemma NodeInk(n: Node, r: bytes)
    requires WfNode(n, HuJson)
    ensures !IsTrailing(NodeText(SoftNode(n), r))
  {
    hide IsExtra, Comments, WfBody, BodyText, SoftBody;
    SoftIsBlank(n.before);
    var rest := BodyText(SoftBody(n.body), SoftExtra(n.after) + r);
    FirstInkSkips(SoftExtra(n.before), rest);
    BodyInk(n.body, SoftExtra(n.after) + r);
  }

  lemma BodyInk(b: Body, r: bytes)
    requires WfBody(b, HuJson)
    ensures !IsTrailing(BodyText(SoftBody(b), r))
  {
    hide WfItems, SoftItems, ItemsText;
    if b.Scalar? {
      BodyStart(b, r, HuJson);
    }
  }

  lemma {:induction false} CommasNode(n: Node, r: bytes)
    requires WfNode(n, HuJson)
    ensures Commas(NodeText(SoftNode(n), r), false, false) == NodeText(StdNode(SoftNode(n)), Commas(r, false, false))
    decreases n, 3
  {
    hide WfBody, BodyText, SoftBody, StdBody, IsExtra, Comments, Commas, Blank, SoftExtra;
    CommasExtra(n.before, BodyText(SoftBody(n.body), SoftExtra(n.after) + r));
    CommasBody(n.body, SoftExtra(n.after) + r);
    CommasExtra(n.after, r);
  }

  lemma {:induction false} CommasBody(b: Body, r: bytes)
    requires WfBody(b, HuJson)
    ensures Commas(BodyText(SoftBody(b), r), false, false) == BodyText(StdBody(SoftBody(b)), Commas(r, false, false))
    decreases b, 2
  {
    hide WfItems, ItemsText, SoftItems, StdItems, IsScalar, Commas;
    match b
    case Scalar(text) => CommasScalar(text, r);
    case Group(obj, items) =>
      CommasOther(Opener(obj), ItemsText(SoftItems(items), obj, r));
      CommasItems(items, obj, r, true);
  }

  lemma {:induction false} CommasItems(items: Items, obj: bool, r: bytes, first: bool)
    requires WfItems(items, obj, HuJson, first)
    ensures Commas(ItemsText(SoftItems(items), obj, r), false, false) ==
            ItemsText(StdItems(SoftItems(items)), obj, Commas(r, false, false))
    decreases items, 5
  {
    hide WfItem, ItemText, SoftItem, StdItem, IsExtra, Comments, Commas, Blank, SoftExtra, IsTrailing;
    CommasOther(Closer(obj), r);
    match items {
      case Close(extra) => CommasExtra(extra, [Closer(obj)] + r);
      case Last(item) => CommasItem(item, obj, [Closer(obj)] + r);
      case More(item, rest) =>
        var tail := ItemsText(SoftItems(rest), obj, r);
        CommasItem(item, obj, [COMMA] + tail);
        CommasComma(tail);
        TrailingItems(rest, obj, r, false);
        CommasItems(rest, obj, r, false);
        if rest.Close? {
          var e, c := Blank(SoftExtra(rest.extra)), [Closer(obj)] + Commas(r, false, false);
          ExtendedText(StdItem(SoftItem(item)), [SPACE] + e, c);
          assert [SPACE] + e + c == [SPACE] + (e + c);
        }
    }
  }

  lemma {:induction false} CommasItem(item: Item, obj: bool, r: bytes)
    requires WfItem(item, obj, HuJson)
    ensures Commas(ItemText(SoftItem(item), r), false, false) ==
            ItemText(StdItem(SoftItem(item)), Commas(r, false, false))
    decreases item, 4
  {
    hide WfNode, NodeText, SoftNode, StdNode, Commas;
    CommasNode(item.value, r);
    if item.Member? {
      CommasOther(COLON, NodeText(SoftNode(item.value), r));
      CommasNode(item.name, [COLON] + NodeText(SoftNode(item.value), r));
    }
  }

  // ----- the results differ only in which whitespace byte stands where -----

  ghost predicate Similar(a: bytes, b: bytes) {
    |a| == |b| && forall i :: 0 <= i < |a| ==> a[i] == b[i] || (IsSpace(a[i]) && IsSpace(b[i]))
  }

  lemma SimilarAppend(a: bytes, b: bytes, c: bytes, d: bytes)
    requires Similar(a, b) && Similar(c, d)
    ensures Similar(a + c, b + d)
  {
  }

  lemma SimilarExtra(e: bytes)
    ensures Similar(Blank(SoftExtra(e)), Blank(e))
  {
    hide Comments;
  }

  lemma {:induction false} SimilarNode(n: Node, t: bytes, u: bytes)
    requires Similar(t, u)
    ensures Similar(NodeText(StdNode(SoftNode(n)), t), NodeText(StdNode(n), u))
    decreases n, 3
  {
    hide Similar, BodyText, SoftBody, StdBody, Blank, SoftExtra;
    var a, a' := Blank(SoftExtra(n.after)), Blank(n.after);
    SimilarExtra(n.after);
    SimilarAppend(a, a', t, u);
    SimilarBody(n.body, a + t, a' + u);
    SimilarExtra(n.before);
    SimilarAppend(Blank(SoftExtra(n.before)), Blank(n.before), BodyText(StdBody(SoftBody(n.body)), a + t),
                  BodyText(StdBody(n.body), a' + u));
  }

  lemma {:induction false} SimilarBody(b: Body, t: bytes, u: bytes)
    requires Similar(t, u)
    ensures Similar(BodyText(StdBody(SoftBody(b)), t), BodyText(StdBody(b), u))
    decreases b, 2
  {
    hide ItemsText, SoftItems, StdItems;
    match b
    case Scalar(text) => SimilarAppend(text, text, t, u);
    case Group(obj, items) =>
      SimilarItems(items, obj, t, u);
      SimilarAppend([Opener(obj)], [Opener(obj)], ItemsText(StdItems(SoftItems(items)), obj, t),
                    ItemsText(StdItems(items), obj, u));
  }

  lemma {:induction false} SimilarItems(items: Items, obj: bool, t: bytes, u: bytes)
    requires Similar(t, u)
    ensures Similar(ItemsText(StdItems(SoftItems(items)), obj, t), ItemsText(StdItems(items), obj, u))
    decreases items, 5
  {
    hide Similar, ItemText, SoftItem, StdItem, Blank, SoftExtra;
    var c: bytes := [Closer(obj)];
    SimilarSame(c);
    SimilarAppend(c, c, t, u);
    match items {
      case Close(extra) =>
        SimilarExtra(extra);
        SimilarAppend(Blank(SoftExtra(extra)), Blank(extra), c + t, c + u);
      case Last(item) => SimilarItem(item, c + t, c + u);
      case More(item, rest) =>
        if rest.Close? {
          var e, e' := Blank(SoftExtra(rest.extra)), Blank(rest.extra);
          SimilarExtra(rest.extra);
          SimilarSame([SPACE]);
          SimilarAppend([SPACE], [SPACE], e, e');
          SimilarAppend([SPACE] + e, [SPACE] + e', c + t, c + u);
          ExtendedText(StdItem(SoftItem(item)), [SPACE] + e, c + t);
          ExtendedText(StdItem(item), [SPACE] + e', c + u);
          SimilarItem(item, [SPACE] + e + (c + t), [SPACE] + e' + (c + u));
        } else {
          SimilarItems(rest, obj, t, u);
          SimilarSame([COMMA]);
          var v, w := ItemsText(StdItems(SoftItems(rest)), obj, t), ItemsText(StdItems(rest), obj, u);
          SimilarAppend([COMMA], [COMMA], v, w);
          SimilarItem(item, [COMMA] + v, [COMMA] + w);
        }
    }
  }

  lemma SimilarSame(a: bytes)
    ensures Similar(a, a)
  {
  }

  lemma {:induction false} SimilarItem(item: Item, t: bytes, u: bytes)
    requires Similar(t, u)
    ensures Similar(ItemText(StdItem(SoftItem(item)), t), ItemText(StdItem(item), u))
    decreases item, 4
  {
    hide Similar, NodeText, SoftNode, StdNode;
    SimilarNode(item.value, t, u);
    if item.Member? {
      var v, w := NodeText(StdNode(SoftNode(item.value)), t), NodeText(StdNode(item.value), u);
      SimilarSame([COLON]);
      SimilarAppend([COLON], [COLON], v, w);
      SimilarNode(item.name, [COLON] + v, [COLON] + w);
    }
  }

  /**
   On every text the standardizer accepts, the two strippers give texts of the same length that
   agree at every byte, except that one whitespace byte may stand for another.
   */
  lemma StrippersAgree(raw: bytes)
    requires Standardized(raw).Some?
    ensures Similar(Stripped(raw), Standardized(raw).value)
  {
    hide ReadNode, NodeText, WfNode, StdNode, SoftNode, Comments, Commas, Similar;
    ReadDocumentExact(raw, HuJson);
    var n := ReadDocument(raw, HuJson).value;
    CommentsNode(n, []);
    CommasNode(n, []);
    assert Comments([], false, false) == [] && Commas([], false, false) == [];
    SimilarSame([]);
    SimilarNode(n, [], []);
  }
}
