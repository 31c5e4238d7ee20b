/**
 Removing metadata members: an object member whose decoded name starts with `#` is dropped
 at every depth, except below a member named `app`, whose payload is opaque.
 */
module Metadata {
  import opened Bytes
  import opened Wrappers
  import opened Lexemes
  import opened Syntax
  import opened Trees
  import opened Standard
  import opened Unquoting

  const APP: seq<nat> := [0x61, 0x70, 0x70]

  predicate IsHash(name: Option<seq<nat>>) {
    name.Some? && name.value != [] && name.value[0] == 0x23
  }

  predicate IsMetadata(name: bytes) {
    IsHash(Unquote(name))
  }

  predicate IsApp(name: bytes) {
    Unquote(name) == Some(APP)
  }

  /** The recursive stripper. */
  function Strip(t: Tree): Tree
    decreases t
  {
    match t
    case Atom(_) => t
    case Composite(obj, entries) => Composite(obj, StripEntries(obj, entries))
  }

  function StripEntries(obj: bool, entries: seq<Entry>): seq<Entry>
    decreases entries
  {
    if entries == [] then []
    else
      var e := entries[0];
      var rest := StripEntries(obj, entries[1..]);
      if obj && IsMetadata(e.name) then rest
      else if obj && IsApp(e.name) then [e] + rest
      else [Entry(e.name, Strip(e.value))] + rest
  }

  // ----- the packed document -----

  /**
   An item that survives, with the extra HuJSON lets its value keep, and whether that
   extra counts as present; a trailing comma makes even an empty extra present.
   */
  datatype Kept = Kept(item: Item, present: bool)

  predicate Dropped(item: Item, strip: bool) {
    strip && item.Member? && item.name.body.Scalar? && IsMetadata(item.name.body.text)
  }

  /** Whether metadata is also removed below this item. */
  predicate StripsBelow(item: Item, strip: bool) {
    strip && !(item.Member? && item.name.body.Scalar? && IsApp(item.name.body.text))
  }

  function PackNode(n: Node, strip: bool): Node {
    Node(Blank(n.before), PackBody(n.body, strip), Blank(n.after))
  }

  function PackBody(b: Body, strip: bool): Body {
    match b
    case Scalar(_) => b
    case Group(obj, items) => Group(obj, Rebuild(KeptItems(items, strip), TailExtra(items)))
  }

  function PackItem(item: Item, strip: bool): Item {
    match item
    case Element(value) => Element(PackNode(value, strip))
    case Member(name, value) => Member(PackNode(name, false), PackNode(value, StripsBelow(item, strip)))
  }

  function KeptItems(items: Items, strip: bool): seq<Kept> {
    match items
    case Close(_) => []
    case Last(item) =>
      if Dropped(item, strip) then [] else [Kept(WithoutAfter(PackItem(item, strip)), false)]
    case More(item, rest) =>
      var more := KeptItems(rest, strip);
      if Dropped(item, strip) then more
      else [Kept(PackItem(item, strip), item.value.after != [] || rest.Close?)] + more
  }

  /** Without a trailing comma, the extra after the last value belongs to the container. */
  function WithoutAfter(item: Item): Item {
    item.(value := item.value.(after := []))
  }

  function TailExtra(items: Items): bytes {
    match items
    case Close(extra) => extra
    case Last(item) => item.value.after
    case More(_, rest) => TailExtra(rest)
  }

  function Rebuild(kept: seq<Kept>, tail: bytes): Items {
    if kept == [] then Close(Blank(tail))
    else if |kept| == 1 then Last(Extended(kept[0].item, (if kept[0].present then [SPACE] else []) + Blank(tail)))
    else More(kept[0].item, Rebuild(kept[1..], tail))
  }

  // ----- packing yields plain JSON that says what the stripped tree says -----

  function Packed(t: Tree, strip: bool): Tree {
    if strip then Strip(t) else t
  }

  function PackedEntries(obj: bool, entries: seq<Entry>, strip: bool): seq<Entry> {
    if strip then StripEntries(obj, entries) else entries
  }

  lemma {:induction false} PackNodePlain(n: Node, strip: bool)
    requires WfNode(n, HuJson)
    ensures WfNode(PackNode(n, strip), Json) && TreeOf(PackNode(n, strip)) == Packed(TreeOf(n), strip)
    decreases n, 3
  {
    hide IsExtra, WfBody, PackBody, TreeOfBody, Strip;
    SpaceIsExtra(Blank(n.before), Json);
    SpaceIsExtra(Blank(n.after), Json);
    PackBodyPlain(n.body, strip);
  }

  lemma {:induction false} PackBodyPlain(b: Body, strip: bool)
    requires WfBody(b, HuJson)
    ensures WfBody(PackBody(b, strip), Json) && TreeOfBody(PackBody(b, strip)) == Packed(TreeOfBody(b), strip)
    decreases b, 2
  {
    hide WfItems, WfItem, KeptItems, TailExtra, Rebuild, Entries, StripEntries;
    if b.Group? {
      KeptPlain(b.items, b.obj, strip, true);
      RebuildPlain(KeptItems(b.items, strip), TailExtra(b.items), b.obj, true);
    }
  }

  function KeptEntries(kept: seq<Kept>): seq<Entry> {
    if kept == [] then [] else [EntryOf(kept[0].item)] + KeptEntries(kept[1..])
  }

  lemma {:induction false} KeptPlain(items: Items, obj: bool, strip: bool, first: bool)
    requires WfItems(items, obj, HuJson, first)
    ensures forall i :: 0 <= i < |KeptItems(items, strip)| ==> WfItem(KeptItems(items, strip)[i].item, obj, Json)
    ensures KeptEntries(KeptItems(items, strip)) == PackedEntries(obj, Entries(items), strip)
    decreases items, 5
  {
    hide WfItem, PackItem, EntryOf, Dropped, StripEntries, WithoutAfter;
    match items {
      case Close(_) =>
        StripNothing(obj);
      case Last(item) =>
        StripNothing(obj);
        ItemPlain(item, obj, strip, [], []);
        assert Entries(items) == [EntryOf(item)] + [];
      case More(item, rest) =>
        KeptPlain(rest, obj, strip, false);
        ItemPlain(item, obj, strip, Entries(rest), KeptEntries(KeptItems(rest, strip)));
    }
  }

  lemma StripNothing(obj: bool)
    ensures StripEntries(obj, []) == []
  {
  }

  /** What one item contributes. */
  lemma {:induction false} ItemPlain(item: Item, obj: bool, strip: bool, rest: seq<Entry>, kept: seq<Entry>)
    requires WfItem(item, obj, HuJson) && kept == PackedEntries(obj, rest, strip)
    ensures !Dropped(item, strip) ==>
            WfItem(PackItem(item, strip), obj, Json) && WfItem(WithoutAfter(PackItem(item, strip)), obj, Json)
    ensures EntryOf(WithoutAfter(PackItem(item, strip))) == EntryOf(PackItem(item, strip))
    ensures PackedEntries(obj, [EntryOf(item)] + rest, strip) ==
            if Dropped(item, strip) then kept else [EntryOf(PackItem(item, strip))] + kept
    decreases item, 4
  {
    hide WfNode, IsMetadata, IsApp, PackNode, TreeOf, Strip;
    assert ([EntryOf(item)] + rest)[1..] == rest;
    PackNodePlain(item.value, if item.Member? then StripsBelow(item, strip) else strip);
    if item.Member? {
      PackNodePlain(item.name, false);
      PackName(item.name);
    }
    DropAfter(PackItem(item, strip).value);
  }

  lemma PackName(n: Node)
    requires IsName(n)
    ensures IsName(PackNode(n, false)) && PackNode(n, false).body == n.body
  {
  }

  lemma DropAfter(n: Node)
    ensures WfNode(n, Json) ==> WfNode(n.(after := []), Json)
    ensures TreeOf(n.(after := [])) == TreeOf(n)
  {
  }

  lemma {:induction false} RebuildPlain(kept: seq<Kept>, tail: bytes, obj: bool, first: bool)
    requires forall i :: 0 <= i < |kept| ==> WfItem(kept[i].item, obj, Json)
    requires first || kept != []
    ensures WfItems(Rebuild(kept, tail), obj, Json, first)
    ensures Entries(Rebuild(kept, tail)) == KeptEntries(kept)
    decreases |kept|
  {
    hide WfItem, EntryOf, Blank;
    if kept == [] {
      SpaceIsExtra(Blank(tail), Json);
    } else if |kept| == 1 {
      var e: bytes := (if kept[0].present then [SPACE] else []) + Blank(tail);
      assert AllSpace(e);
      ExtendedPlain(kept[0].item, e, obj);
      assert KeptEntries(kept[1..]) == [];
    } else {
      RebuildPlain(kept[1..], tail, obj, false);
    }
  }
}
