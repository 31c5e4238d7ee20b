/**
 Standardizing a HuJSON tree: comments become whitespace and a trailing comma becomes
 a space that joins the extra after the last value.
 */
module Standard {
  import opened Bytes
  import opened Lexemes
  import opened Syntax
  import opened Trees

  function BlankByte(b: byte): byte {
    if IsSpace(b) then b else SPACE
  }

  function Blank(e: bytes): (r: bytes)
    ensures |r| == |e|
    ensures AllSpace(r)
  {
    seq(|e|, i requires 0 <= i < |e| => BlankByte(e[i]))
  }

  /** `out` with the bytes from `lo` up to `hi` blanked. */
  function BlankRange(out: bytes, lo: nat, hi: nat): (r: bytes)
    requires lo <= hi <= |out|
    ensures |r| == |out|
  {
    seq(|out|, i requires 0 <= i < |out| => if lo <= i < hi then BlankByte(out[i]) else out[i])
  }

  lemma BlankRangeSplit(out: bytes, lo: nat, mid: nat, hi: nat)
    requires lo <= mid <= hi <= |out|
    ensures BlankRange(BlankRange(out, lo, mid), mid, hi) == BlankRange(out, lo, hi)
  {
  }

  lemma BlankRangeEmpty(out: bytes, at: nat)
    requires at <= |out|
    ensures BlankRange(out, at, at) == out
  {
  }

  lemma BlankRangeSpace(out: bytes, lo: nat, hi: nat)
    requires lo <= hi < |out| && IsSpace(out[hi])
    ensures BlankRange(out, lo, hi + 1) == BlankRange(out, lo, hi)
  {
  }

  function StdNode(n: Node): Node {
    Node(Blank(n.before), StdBody(n.body), Blank(n.after))
  }

  function StdBody(b: Body): Body {
    match b
    case Scalar(_) => b
    case Group(obj, items) => Group(obj, StdItems(items))
  }

  function StdItems(items: Items): Items {
    match items
    case Close(extra) => Close(Blank(extra))
    case Last(item) => Last(StdItem(item))
    case More(item, rest) =>
      if rest.Close? then Last(Extended(StdItem(item), [SPACE] + Blank(rest.extra)))
      else More(StdItem(item), StdItems(rest))
  }

  function StdItem(item: Item): Item {
    match item
    case Element(value) => Element(StdNode(value))
    case Member(name, value) => Member(StdNode(name), StdNode(value))
  }

  /** `item` with `e` added to the extra after its value. */
  function Extended(item: Item, e: bytes): Item {
    item.(value := item.value.(after := item.value.after + e))
  }

  lemma ExtendedText(item: Item, e: bytes, r: bytes)
    ensures ItemText(Extended(item, e), r) == ItemText(item, e + r)
  {
    assert item.value.after + e + r == item.value.after + (e + r);
  }

  // ----- standardizing yields plain JSON with the same tree -----

  lemma {:induction false} SpaceIsExtra(e: bytes, d: Dialect)
    requires AllSpace(e)
    ensures IsExtra(e, d)
  {
    if e != [] {
      SpaceIsExtra(e[1..], d);
    }
  }

  lemma {:induction false} StdNodePlain(n: Node, d: Dialect)
    requires WfNode(n, d)
    ensures WfNode(StdNode(n), Json) && TreeOf(StdNode(n)) == TreeOf(n)
    decreases n, 3
  {
    hide IsExtra, WfBody, StdBody, TreeOfBody;
    SpaceIsExtra(Blank(n.before), Json);
    SpaceIsExtra(Blank(n.after), Json);
    StdBodyPlain(n.body, d);
  }

  lemma {:induction false} StdBodyPlain(b: Body, d: Dialect)
    requires WfBody(b, d)
    ensures WfBody(StdBody(b), Json) && TreeOfBody(StdBody(b)) == TreeOfBody(b)
    decreases b, 2
  {
    hide WfItems, StdItems, Entries;
    if b.Group? {
      StdItemsPlain(b.items, b.obj, d, true);
    }
  }

  lemma {:induction false} StdItemsPlain(items: Items, obj: bool, d: Dialect, first: bool)
    requires WfItems(items, obj, d, first) && (first || !items.Close?)
    ensures WfItems(StdItems(items), obj, Json, first) && Entries(StdItems(items)) == Entries(items)
    decreases items, 5
  {
    hide IsExtra, WfItem, StdItem, EntryOf;
    match items
    case Close(extra) => SpaceIsExtra(Blank(extra), Json);
    case Last(item) => StdItemPlain(item, obj, d);
    case More(item, rest) =>
      StdItemPlain(item, obj, d);
      if rest.Close? {
        ExtendedPlain(StdItem(item), [SPACE] + Blank(rest.extra), obj);
      } else {
        StdItemsPlain(rest, obj, d, false);
      }
  }

  lemma {:induction false} StdItemPlain(item: Item, obj: bool, d: Dialect)
    requires WfItem(item, obj, d)
    ensures WfItem(StdItem(item), obj, Json) && EntryOf(StdItem(item)) == EntryOf(item)
    decreases item, 4
  {
    hide WfNode, TreeOf;
    StdNodePlain(item.value, d);
    if item.Member? {
      StdNodePlain(item.name, d);
    }
  }

  lemma ExtendedPlain(item: Item, e: bytes, obj: bool)
    requires WfItem(item, obj, Json) && AllSpace(e)
    ensures WfItem(Extended(item, e), obj, Json) && EntryOf(Extended(item, e)) == EntryOf(item)
  {
    hide ExtraLen, WfBody, TreeOfBody;
    SpaceIsExtra(e, Json);
    ExtraLenJoin(item.value.after, e);
  }

  lemma {:induction false} ExtraLenJoin(a: bytes, b: bytes)
    requires IsExtra(a, Json) && IsExtra(b, Json)
    ensures IsExtra(a + b, Json)
  {
    if a == [] {
      assert a + b == b;
    } else {
      ExtraLenJoin(a[1..], b);
      assert (a + b)[1..] == a[1..] + b;
    }
  }

  // ----- standardizing changes only comment bytes and trailing commas -----

  function ExtraMarks(e: bytes): (m: seq<bool>)
    ensures |m| == |e|
  {
    seq(|e|, i requires 0 <= i < |e| => !IsSpace(e[i]))
  }

  function Unmarked(n: nat): (m: seq<bool>)
    ensures |m| == n
  {
    seq(n, _ => false)
  }

  /** One mark for each byte of the text of `n`: true on comment bytes and trailing commas. */
  function NodeMarks(n: Node, r: seq<bool>): seq<bool> {
    ExtraMarks(n.before) + BodyMarks(n.body, ExtraMarks(n.after) + r)
  }

  function BodyMarks(b: Body, r: seq<bool>): seq<bool> {
    match b
    case Scalar(text) => Unmarked(|text|) + r
    case Group(obj, items) => [false] + ItemsMarks(items, r)
  }

  function ItemsMarks(items: Items, r: seq<bool>): seq<bool> {
    match items
    case Close(extra) => ExtraMarks(extra) + ([false] + r)
    case Last(item) => ItemMarks(item, [false] + r)
    case More(item, rest) => ItemMarks(item, [rest.Close?] + ItemsMarks(rest, r))
  }

  function ItemMarks(item: Item, r: seq<bool>): seq<bool> {
    match item
    case Element(value) => NodeMarks(value, r)
    case Member(name, value) => NodeMarks(name, [false] + NodeMarks(value, r))
  }

  /** `t` is `s` with a space in place of each marked byte, and no marked byte is whitespace. */
  ghost predicate Masks(s: bytes, m: seq<bool>, t: bytes) {
    && |s| == |m| == |t|
    && forall i :: 0 <= i < |s| ==> t[i] == (if m[i] then SPACE else s[i]) && (m[i] ==> !IsSpace(s[i]))
  }

  lemma MasksAppend(s: bytes, m: seq<bool>, t: bytes, s': bytes, m': seq<bool>, t': bytes)
    requires Masks(s, m, t) && Masks(s', m', t')
    ensures Masks(s + s', m + m', t + t')
  {
  }

  lemma MasksExtra(e: bytes)
    ensures Masks(e, ExtraMarks(e), Blank(e))
  {
  }

  lemma {:induction false} NodeMasks(n: Node, r: bytes, m: seq<bool>, t: bytes)
    requires Masks(r, m, t)
    ensures Masks(NodeText(n, r), NodeMarks(n, m), NodeText(StdNode(n), t))
    decreases n, 3
  {
    hide Masks, BodyText, BodyMarks, StdBody, Blank, ExtraMarks;
    MasksExtra(n.after);
    MasksAppend(n.after, ExtraMarks(n.after), Blank(n.after), r, m, t);
    BodyMasks(n.body, n.after + r, ExtraMarks(n.after) + m, Blank(n.after) + t);
    MasksExtra(n.before);
    MasksAppend(n.before, ExtraMarks(n.before), Blank(n.before), BodyText(n.body, n.after + r),
                BodyMarks(n.body, ExtraMarks(n.after) + m), BodyText(StdBody(n.body), Blank(n.after) + t));
  }

  lemma {:induction false} BodyMasks(b: Body, r: bytes, m: seq<bool>, t: bytes)
    requires Masks(r, m, t)
    ensures Masks(BodyText(b, r), BodyMarks(b, m), BodyText(StdBody(b), t))
    decreases b, 2
  {
    hide ItemsText, ItemsMarks, StdItems;
    match b
    case Scalar(text) => MasksAppend(text, Unmarked(|text|), text, r, m, t);
    case Group(obj, items) =>
      ItemsMasks(items, obj, r, m, t);
      MasksAppend([Opener(obj)], [false], [Opener(obj)], ItemsText(items, obj, r), ItemsMarks(items, m),
                  ItemsText(StdItems(items), obj, t));
  }

  lemma {:induction false} ItemsMasks(items: Items, obj: bool, r: bytes, m: seq<bool>, t: bytes)
    requires Masks(r, m, t)
    ensures Masks(ItemsText(items, obj, r), ItemsMarks(items, m), ItemsText(StdItems(items), obj, t))
    decreases items, 5
  {
    hide Masks, ItemText, ItemMarks, StdItem, Blank, ExtraMarks;
    var c: bytes := [Closer(obj)];
    MasksByte(Closer(obj), false);
    MasksAppend(c, [false], c, r, m, t);
    match items {
      case Close(extra) =>
        MasksExtra(extra);
        MasksAppend(extra, ExtraMarks(extra), Blank(extra), c + r, [false] + m, c + t);
      case Last(item) => ItemMasks(item, c + r, [false] + m, c + t);
      case More(item, rest) =>
        ItemsMasks(rest, obj, r, m, t);
        var mark := rest.Close?;
        var s1, m1, t1 := [COMMA] + ItemsText(rest, obj, r), [mark] + ItemsMarks(rest, m),
                          [if mark then SPACE else COMMA] + ItemsText(StdItems(rest), obj, t);
        MasksByte(COMMA, mark);
        MasksAppend([COMMA], [mark], [if mark then SPACE else COMMA],
                    ItemsText(rest, obj, r), ItemsMarks(rest, m), ItemsText(StdItems(rest), obj, t));
        ItemMasks(item, s1, m1, t1);
        if mark {
          var e := Blank(rest.extra);
          ExtendedText(StdItem(item), [SPACE] + e, c + t);
          assert [SPACE] + e + (c + t) == t1;
        }
    }
  }

  lemma MasksByte(b: byte, mark: bool)
    requires mark ==> !IsSpace(b)
    ensures Masks([b], [mark], [if mark then SPACE else b])
  {
  }

  lemma {:induction false} ItemMasks(item: Item, r: bytes, m: seq<bool>, t: bytes)
    requires Masks(r, m, t)
    ensures Masks(ItemText(item, r), ItemMarks(item, m), ItemText(StdItem(item), t))
    decreases item, 4
  {
    hide Masks, NodeText, NodeMarks, StdNode;
    NodeMasks(item.value, r, m, t);
    if item.Member? {
      var s1, m1, t1 := NodeText(item.value, r), NodeMarks(item.value, m), NodeText(StdNode(item.value), t);
      MasksByte(COLON, false);
      MasksAppend([COLON], [false], [COLON], s1, m1, t1);
      NodeMasks(item.name, [COLON] + s1, [false] + m1, [COLON] + t1);
    }
  }

  /** The whole output, byte by byte. */
  lemma StandardMasks(n: Node)
    ensures Masks(Print(n), NodeMarks(n, []), Print(StdNode(n)))
  {
    hide NodeText, NodeMarks, StdNode;
    NodeMasks(n, [], [], []);
  }
}
