/** The two policy text passes, end to end. */
module PolicyText {
  import opened Bytes
  import opened Wrappers
  import opened Lexemes
  import opened Syntax
  import opened Reader
  import opened Trees
  import opened Standard
  import opened Metadata
  import opened Arena
  import opened HuJson
  import opened Prepare
  import Pack
  import Packing

  /**
   Standardizing accepts exactly the HuJSON documents. The result is a JSON document that says
   the same; it has a byte for each input byte, equal to it except that comment bytes and
   trailing commas are spaces.
   */
  lemma StandardizedCorrect(raw: bytes)
    ensures Standardized(raw).Some? <==> IsDocument(raw, HuJson)
    ensures Standardized(raw).Some? ==>
              var n, out := ReadDocument(raw, HuJson).value, Standardized(raw).value;
              && Print(n) == raw
              && ReadDocument(out, Json) == Some(StdNode(n)) && IsDocument(out, Json)
              && TreeOf(StdNode(n)) == TreeOf(n)
              && Masks(raw, NodeMarks(n, []), out)
  {
    hide ReadNode, NodeText, WfNode, StdNode, TreeOf, Masks, NodeMarks;
    ReadDocumentExact(raw, HuJson);
    if Standardized(raw).Some? {
      var n := ReadDocument(raw, HuJson).value;
      StdNodePlain(n, HuJson);
      StandardMasks(n);
      ReadDocumentExact(Standardized(raw).value, Json);
    }
  }

  /** The policy text without comments, trailing commas and metadata members. */
  function Prepared(raw: bytes): Option<bytes> {
    var n :- ReadDocument(raw, HuJson);
    Some(Print(PackNode(n, true)))
  }

  /**
   The metadata pass accepts exactly the HuJSON documents, and its result is a JSON document
   that says what the recursive stripper leaves of the input.
   */
  lemma PreparedCorrect(raw: bytes)
    ensures Prepared(raw).Some? <==> IsDocument(raw, HuJson)
    ensures Prepared(raw).Some? ==>
              var n, m := ReadDocument(raw, HuJson), ReadDocument(Prepared(raw).value, Json);
              && n.Some? && m.Some? && TreeOf(m.value) == Strip(TreeOf(n.value))
  {
    hide ReadNode, NodeText, WfNode, PackNode, TreeOf, Strip;
    ReadDocumentExact(raw, HuJson);
    if Prepared(raw).Some? {
      var n := ReadDocument(raw, HuJson).value;
      PackNodePlain(n, true);
      ReadDocumentExact(Prepared(raw).value, Json);
    }
  }

  method PrepareMetadata(raw: bytes) returns (r: Option<bytes>)
    ensures r == Prepared(raw)
  {
    hide ReadDocument, PackNode, Masks, StdNode, NodeText, Muted, Quiet;
    StandardizedCorrect(raw);
    var std := Standardize(raw);
    if std.None? { return None; }
    ghost var n := ReadDocument(raw, HuJson).value;
    MasksMute(raw, NodeMarks(n, []), std.value);
    var parser := new Parser(raw, std.value);
    var slots := BuildArena(parser, n);
    var c := Pack.Source(slots, raw, parser.out);
    ReadDocumentExact(raw, HuJson);
    SlotsOrdered(n, c);
    SlotsNamed(n, c);
    RootPacked(c, n);
    r := Pack.Print(c);
  }

  lemma MasksMute(raw: bytes, m: seq<bool>, out: bytes)
    requires Masks(raw, m, out)
    ensures Muted(raw, out)
    ensures |out| == |raw| && forall i :: 0 <= i < |raw| && IsSpace(raw[i]) ==> IsSpace(out[i])
  {
  }

  lemma RootPacked(c: Pack.Source, n: Node)
    requires Muted(c.raw, c.std) && Quiet(c.std, c.slots)
    requires ReadDocument(c.raw, HuJson) == Some(n) && c.slots == NodeSlots(n, 0, 0, OwnAfter(n, 0))
    ensures Pack.SlotText(c, 0, true, []) == Print(PackNode(n, true))
  {
    hide ReadNode, NodeText, WfNode, PackNode, NodeSlots, Muted, Quiet, Pack.SlotText;
    ReadDocumentExact(c.raw, HuJson);
    assert c.raw[0..] == c.raw && c.slots[0..|c.slots|] == c.slots;
    assert Packing.InPlace(c, 0, c.slots);
    Packing.NodePacked(c, 0, n, 0, OwnAfter(n, 0), [], true, []);
  }

  lemma SlotsNamed(n: Node, c: Pack.Source)
    requires ReadDocument(c.raw, HuJson) == Some(n) && c.slots == NodeSlots(n, 0, 0, OwnAfter(n, 0))
    ensures Pack.Named(c)
  {
    hide ReadNode, NodeText, WfNode, NodeSlots, Pack.AllReadable;
    ReadDocumentExact(c.raw, HuJson);
    assert c.raw[0..] == c.raw && c.slots[0..|c.slots|] == c.slots;
    Packing.NodeNamed(c, 0, n, 0, OwnAfter(n, 0), []);
  }

  // ----- children come after their parents -----

  ghost predicate OrderedRange(slots: seq<Slot>, base: nat, limit: nat) {
    forall i, j :: 0 <= i < |slots| && slots[i].kind.Container? && 0 <= j < |slots[i].kind.children| ==>
      ChildIn(slots[i].kind.children[j], base + i, limit)
  }

  ghost predicate ChildIn(child: Child, above: nat, limit: nat) {
    above < child.value < limit && (child.name.Some? ==> above < child.name.value < limit)
  }

  lemma OrderedAppend(a: seq<Slot>, b: seq<Slot>, base: nat, limit: nat)
    requires OrderedRange(a, base, limit) && OrderedRange(b, base + |a|, limit)
    ensures OrderedRange(a + b, base, limit)
  {
  }

  lemma {:induction false} NodeOrdered(n: Node, id: nat, at: nat, after: Option<Span>, limit: nat)
    requires WfNode(n, HuJson) && id + NodeSize(n) <= limit
    ensures OrderedRange(NodeSlots(n, id, at, after), id, limit)
    decreases n, 3
  {
    hide BodySlots, ItemIds, ItemsSize, OrderedRange, WfItems;
    var start := at + |n.before|;
    if n.body.Group? {
      IdsIn(n.body.items, id + 1, id, limit);
      assert OrderedRange(BodySlots(n.body, id + 1, start), id + 1, limit) by {
        ItemsOrdered(n.body.items, n.body.obj, true, id + 1, start + 1, limit);
        GroupSlots(n.body, id + 1, start);
      }
    } else {
      assert OrderedRange(BodySlots(n.body, id + 1, start), id + 1, limit) by {
        GroupSlots(n.body, id + 1, start);
        NoSlots(id + 1, limit);
      }
    }
    HeadOrdered(NodeSlot(n, id, at, after), id, limit);
    OrderedAppend([NodeSlot(n, id, at, after)], BodySlots(n.body, id + 1, start), id, limit);
  }

  lemma GroupSlots(b: Body, base: nat, at: nat)
    ensures BodySlots(b, base, at) == if b.Group? then ItemsSlots(b.items, base, at + 1) else []
  {
  }

  lemma NoSlots(base: nat, limit: nat)
    ensures OrderedRange([], base, limit)
  {
  }

  lemma HeadOrdered(slot: Slot, id: nat, limit: nat)
    requires slot.kind.Container? ==>
               forall j :: 0 <= j < |slot.kind.children| ==> ChildIn(slot.kind.children[j], id, limit)
    ensures OrderedRange([slot], id, limit)
  {
  }

  lemma {:induction false} IdsIn(items: Items, base: nat, above: nat, limit: nat)
    requires above < base && base + ItemsSize(items) <= limit
    ensures forall j :: 0 <= j < |ItemIds(items, base)| ==> ChildIn(ItemIds(items, base)[j], above, limit)
    decreases items
  {
    if !items.Close? {
      assert NodeSize(items.item.value) >= 1;
      assert ChildIn(ItemChild(items.item, base), above, limit);
    }
    if items.More? {
      IdsIn(items.rest, base + ItemSize(items.item), above, limit);
    }
  }

  lemma {:induction false} ItemsOrdered(items: Items, obj: bool, first: bool, base: nat, at: nat, limit: nat)
    requires WfItems(items, obj, HuJson, first) && base + ItemsSize(items) <= limit
    ensures OrderedRange(ItemsSlots(items, base, at), base, limit)
    decreases items, 5
  {
    hide ItemSlots, OrderedRange, ItemSize, WfItem;
    match items
    case Close(_) => NoSlots(base, limit);
    case Last(item) => ItemOrdered(item, obj, base, at, None, limit);
    case More(item, rest) =>
      var after := KeptAfter(item, rest, at);
      ItemOrdered(item, obj, base, at, after, limit);
      ItemsOrdered(rest, obj, false, base + ItemSize(item), at + ItemLen(item) + 1, limit);
      OrderedAppend(ItemSlots(item, base, at, after), ItemsSlots(rest, base + ItemSize(item), at + ItemLen(item) + 1),
                    base, limit);
  }

  lemma {:induction false} ItemOrdered(item: Item, obj: bool, base: nat, at: nat, after: Option<Span>, limit: nat)
    requires WfItem(item, obj, HuJson) && base + ItemSize(item) <= limit
    ensures OrderedRange(ItemSlots(item, base, at, after), base, limit)
    decreases item, 4
  {
    hide NodeSlots, OrderedRange, WfNode;
    NodeOrdered(item.value, if item.Member? then base + 1 else base, ValueAt(item, at), after, limit);
    if item.Member? {
      HeadOrdered(NodeSlot(item.name, base, at, OwnAfter(item.name, at)), base, limit);
      OrderedAppend([NodeSlot(item.name, base, at, OwnAfter(item.name, at))],
                    NodeSlots(item.value, base + 1, ValueAt(item, at), after), base, limit);
    }
  }

  lemma SlotsOrdered(n: Node, c: Pack.Source)
    requires WfNode(n, HuJson) && c.slots == NodeSlots(n, 0, 0, OwnAfter(n, 0))
    ensures Pack.Ordered(c)
  {
    hide NodeSlots, WfNode;
    NodeOrdered(n, 0, 0, OwnAfter(n, 0), |c.slots|);
  }
}
