/**
 The arena in which the metadata pass keeps a parsed document: one slot for each value, in
 the order the values start, with byte spans in place of text.
 */
module Arena {
  import opened Wrappers
  import opened Syntax

  datatype Span = Span(lo: nat, hi: nat)

  datatype Child = Child(name: Option<nat>, value: nat)

  datatype Kind =
    | Pending
    | Literal(span: Span)
    | Container(obj: bool, children: seq<Child>, after: Span)

  datatype Slot = Slot(before: Span, after: Option<Span>, kind: Kind)

  const FRESH: Slot := Slot(Span(0, 0), None, Pending)

  // ----- the number of bytes a tree spans -----

  function NodeLen(n: Node): nat {
    |n.before| + BodyLen(n.body) + |n.after|
  }

  function BodyLen(b: Body): nat {
    match b
    case Scalar(text) => |text|
    case Group(_, items) => 1 + ItemsLen(items)
  }

  function ItemsLen(items: Items): nat {
    match items
    case Close(extra) => |extra| + 1
    case Last(item) => ItemLen(item) + 1
    case More(item, rest) => ItemLen(item) + 1 + ItemsLen(rest)
  }

  function ItemLen(item: Item): nat {
    match item
    case Element(value) => NodeLen(value)
    case Member(name, value) => NodeLen(name) + 1 + NodeLen(value)
  }

  // ----- the number of slots it takes -----

  function NodeSize(n: Node): nat {
    1 + BodySize(n.body)
  }

  function BodySize(b: Body): nat {
    match b
    case Scalar(_) => 0
    case Group(_, items) => ItemsSize(items)
  }

  function ItemsSize(items: Items): nat {
    match items
    case Close(_) => 0
    case Last(item) => ItemSize(item)
    case More(item, rest) => ItemSize(item) + ItemsSize(rest)
  }

  /** A member's name is a scalar, so it takes one slot. */
  function ItemSize(item: Item): nat {
    (if item.Member? then 1 else 0) + NodeSize(item.value)
  }

  // ----- the slots of a tree that starts at byte `at`, the first of them numbered `id` -----

  /** The slot of `n` and the slots below it; `after` is the extra the value keeps. */
  function NodeSlots(n: Node, id: nat, at: nat, after: Option<Span>): (r: seq<Slot>)
    ensures |r| == NodeSize(n)
    decreases n, 3
  {
    [NodeSlot(n, id, at, after)] + BodySlots(n.body, id + 1, at + |n.before|)
  }

  function NodeSlot(n: Node, id: nat, at: nat, after: Option<Span>): Slot {
    Slot(Span(at, at + |n.before|), after, BodyKind(n.body, id + 1, at + |n.before|))
  }

  function BodyKind(b: Body, base: nat, at: nat): Kind {
    match b
    case Scalar(text) => Literal(Span(at, at + |text|))
    case Group(obj, items) => Container(obj, ItemIds(items, base), TailSpan(items, at + 1))
  }

  function BodySlots(b: Body, base: nat, at: nat): (r: seq<Slot>)
    ensures |r| == BodySize(b)
    decreases b, 2
  {
    match b
    case Scalar(_) => []
    case Group(_, items) => ItemsSlots(items, base, at + 1)
  }

  function ItemsSlots(items: Items, base: nat, at: nat): (r: seq<Slot>)
    ensures |r| == ItemsSize(items)
    decreases items, 5
  {
    match items
    case Close(_) => []
    case Last(item) => ItemSlots(item, base, at, None)
    case More(item, rest) =>
      ItemSlots(item, base, at, KeptAfter(item, rest, at)) +
      ItemsSlots(rest, base + ItemSize(item), at + ItemLen(item) + 1)
  }

  function ItemSlots(item: Item, base: nat, at: nat, after: Option<Span>): (r: seq<Slot>)
    ensures |r| == ItemSize(item)
    decreases item, 4
  {
    match item
    case Element(value) => NodeSlots(value, base, at, after)
    case Member(name, value) =>
      [NodeSlot(name, base, at, OwnAfter(name, at))] + NodeSlots(value, base + 1, ValueAt(item, at), after)
  }

  /** Where an item's value starts. */
  function ValueAt(item: Item, at: nat): nat {
    if item.Member? then at + NodeLen(item.name) + 1 else at
  }

  function ItemChild(item: Item, base: nat): Child {
    if item.Member? then Child(Some(base), base + 1) else Child(None, base)
  }

  function ItemIds(items: Items, base: nat): seq<Child> {
    match items
    case Close(_) => []
    case Last(item) => [ItemChild(item, base)]
    case More(item, rest) => [ItemChild(item, base)] + ItemIds(rest, base + ItemSize(item))
  }

  /** The extra after a value; possibly empty. */
  function AfterSpan(n: Node, at: nat): Span {
    Span(at + |n.before| + BodyLen(n.body), at + NodeLen(n))
  }

  function OwnAfter(n: Node, at: nat): Option<Span> {
    if n.after == [] then None else Some(AfterSpan(n, at))
  }

  /** A trailing comma marks an absent extra as present but empty. */
  function KeptAfter(item: Item, rest: Items, at: nat): Option<Span> {
    var own := OwnAfter(item.value, ValueAt(item, at));
    var close := at + ItemLen(item) + 1 + (if rest.Close? then |rest.extra| else 0);
    if rest.Close? && own.None? then Some(Span(close, close)) else own
  }

  function TailSpan(items: Items, at: nat): Span {
    match items
    case Close(extra) => Span(at, at + |extra|)
    case Last(item) => AfterSpan(item.value, ValueAt(item, at))
    case More(item, rest) => TailSpan(rest, at + ItemLen(item) + 1)
  }

  // ----- editing the arena -----

  /** `slots` with the one slot `id` replaced by `some`. */
  function Placed(slots: seq<Slot>, id: nat, some: seq<Slot>): seq<Slot>
    requires id < |slots|
  {
    slots[..id] + some + slots[id + 1..]
  }

  function SetAfter(slots: seq<Slot>, id: nat, after: Option<Span>): (r: seq<Slot>)
    requires id < |slots|
    ensures |r| == |slots|
  {
    slots[id := slots[id].(after := after)]
  }

  /** The container in slot `id` gains children and gets its closing extra. */
  function SetContainer(slots: seq<Slot>, id: nat, more: seq<Child>, after: Span): (r: seq<Slot>)
    requires id < |slots| && slots[id].kind.Container?
    ensures |r| == |slots|
  {
    var kind := slots[id].kind;
    slots[id := slots[id].(kind := kind.(children := kind.children + more, after := after))]
  }

  function GetOrInsert(after: Option<Span>, span: Span): Option<Span> {
    if after.None? then Some(span) else after
  }

  ghost predicate IsContainer(slots: seq<Slot>, id: nat) {
    && id < |slots| && slots[id].kind.Container?
    && forall i :: 0 <= i < |slots[id].kind.children| ==> id < slots[id].kind.children[i].value < |slots|
  }

  /** What reading `items` at byte `at` does to the arena. */
  ghost function Filled(slots: seq<Slot>, id: nat, items: Items, at: nat): (r: seq<Slot>)
    requires IsContainer(slots, id)
  {
    var base := SetContainer(slots, id, ItemIds(items, |slots|), TailSpan(items, at));
    if items.Close? then
      var children := slots[id].kind.children;
      if children == [] then base
      else
        var last := children[|children| - 1].value;
        SetAfter(base, last, GetOrInsert(base[last].after, Span(at + |items.extra|, at + |items.extra|)))
    else base + ItemsSlots(items, |slots|, at)
  }

  /** Without a trailing comma the last value's extra moves to its container. */
  ghost function Taken(slots: seq<Slot>, id: nat, value: nat, at: nat): (r: seq<Slot>)
    requires IsContainer(slots, id) && value < |slots|
  {
    var extra := if slots[value].after.None? then Span(at, at) else slots[value].after.value;
    SetContainer(SetAfter(slots, value, None), id, [], extra)
  }

  // ----- reading one item and then the rest fills the arena as reading them all does -----

  lemma SetContainerAppend(slots: seq<Slot>, id: nat, more: seq<Child>, after: Span, rest: seq<Slot>)
    requires id < |slots| && slots[id].kind.Container?
    ensures SetContainer(slots + rest, id, more, after) == SetContainer(slots, id, more, after) + rest
  {
  }

  lemma SetContainerTwice(slots: seq<Slot>, id: nat, more: seq<Child>, after: Span, more': seq<Child>, after': Span)
    requires id < |slots| && slots[id].kind.Container?
    ensures SetContainer(SetContainer(slots, id, more, after), id, more', after') ==
            SetContainer(slots, id, more + more', after')
  {
    var c := slots[id].kind.children;
    assert c + more + more' == c + (more + more');
  }

  lemma ItemSlotsAfter(slots: seq<Slot>, item: Item, at: nat, x: Option<Span>, y: Option<Span>)
    ensures var value := ItemChild(item, |slots|).value;
            var all := slots + ItemSlots(item, |slots|, at, x);
            && |slots| <= value < |all| && all[value].after == x
            && SetAfter(all, value, y) == slots + ItemSlots(item, |slots|, at, y)
  {
    hide BodyKind, BodySlots;
    var value := ItemChild(item, |slots|).value;
    var v := ValueAt(item, at);
    var a, b := NodeSlots(item.value, value, v, x), NodeSlots(item.value, value, v, y);
    assert a[0].(after := y) == b[0] && a[1..] == b[1..];
  }

  /** The arena once `item` has been read as a child of `id`. */
  ghost function WithItem(slots: seq<Slot>, id: nat, item: Item, at: nat, after: Option<Span>): (r: seq<Slot>)
    requires IsContainer(slots, id)
  {
    SetContainer(slots, id, [ItemChild(item, |slots|)], slots[id].kind.after) + ItemSlots(item, |slots|, at, after)
  }

  lemma WithItemContainer(slots: seq<Slot>, id: nat, item: Item, at: nat, after: Option<Span>)
    requires IsContainer(slots, id)
    ensures IsContainer(WithItem(slots, id, item, at, after), id)
    ensures var c := WithItem(slots, id, item, at, after)[id].kind.children;
            c == slots[id].kind.children + [ItemChild(item, |slots|)]
  {
    hide ItemSlots;
    assert ItemSize(item) > 0;
    var child := ItemChild(item, |slots|);
    assert child.value < |slots| + ItemSize(item);
  }

  lemma FilledLast(slots: seq<Slot>, id: nat, item: Item, at: nat)
    requires IsContainer(slots, id)
    ensures var read := WithItem(slots, id, item, at, OwnAfter(item.value, ValueAt(item, at)));
            var value := ItemChild(item, |slots|).value;
            && IsContainer(read, id) && value < |read|
            && Taken(read, id, value, at + ItemLen(item)) == Filled(slots, id, Last(item), at)
  {
    hide ItemSlots, BodyLen;
    var own := OwnAfter(item.value, ValueAt(item, at));
    var child := ItemChild(item, |slots|);
    WithItemContainer(slots, id, item, at, own);
    var base := SetContainer(slots, id, [child], slots[id].kind.after);
    ItemSlotsAfter(base, item, at, own, None);
    var tail := TailSpan(Last(item), at);
    SetContainerAppend(base, id, [], tail, ItemSlots(item, |slots|, at, None));
    SetContainerTwice(slots, id, [child], slots[id].kind.after, [], tail);
    assert [child] + [] == [child];
  }

  lemma FilledMore(slots: seq<Slot>, id: nat, item: Item, rest: Items, at: nat)
    requires IsContainer(slots, id)
    ensures var read := WithItem(slots, id, item, at, OwnAfter(item.value, ValueAt(item, at)));
            && IsContainer(read, id)
            && Filled(read, id, rest, at + ItemLen(item) + 1) == Filled(slots, id, More(item, rest), at)
  {
    hide ItemSlots, ItemsSlots, BodyLen, ItemIds, TailSpan;
    var own := OwnAfter(item.value, ValueAt(item, at));
    var child := ItemChild(item, |slots|);
    var read := WithItem(slots, id, item, at, own);
    var after := at + ItemLen(item) + 1;
    WithItemContainer(slots, id, item, at, own);
    MoreParts(item, rest, |slots|, at);
    var base := SetContainer(slots, id, [child], slots[id].kind.after);
    var ids, tail := ItemIds(rest, |read|), TailSpan(rest, after);
    SetContainerAppend(base, id, ids, tail, ItemSlots(item, |slots|, at, own));
    SetContainerTwice(slots, id, [child], slots[id].kind.after, ids, tail);
    var all := SetContainer(slots, id, [child] + ids, tail);
    var slotsItem := ItemSlots(item, |slots|, at, own);
    assert SetContainer(read, id, ids, tail) == all + slotsItem;
    if rest.Close? {
      ItemSlotsAfter(all, item, at, own, KeptAfter(item, rest, at));
      LastChild(slots, id, item, at, own);
    } else {
      assert all + slotsItem + ItemsSlots(rest, |read|, after) == all + (slotsItem + ItemsSlots(rest, |read|, after));
    }
  }

  lemma LastChild(slots: seq<Slot>, id: nat, item: Item, at: nat, own: Option<Span>)
    requires IsContainer(slots, id)
    ensures var read := WithItem(slots, id, item, at, own);
            && IsContainer(read, id) && read[id].kind.children != []
            && read[id].kind.children[|read[id].kind.children| - 1] == ItemChild(item, |slots|)
  {
    hide ItemSlots;
    WithItemContainer(slots, id, item, at, own);
  }

  lemma {:induction false} MoreParts(item: Item, rest: Items, base: nat, at: nat)
    ensures ItemIds(More(item, rest), base) == [ItemChild(item, base)] + ItemIds(rest, base + ItemSize(item))
    ensures TailSpan(More(item, rest), at) == TailSpan(rest, at + ItemLen(item) + 1)
    ensures ItemsSlots(More(item, rest), base, at) ==
            ItemSlots(item, base, at, KeptAfter(item, rest, at)) +
            ItemsSlots(rest, base + ItemSize(item), at + ItemLen(item) + 1)
    ensures rest.Close? ==>
            ItemIds(rest, base + ItemSize(item)) == []
            && ItemsSlots(rest, base + ItemSize(item), at + ItemLen(item) + 1) == []
  {
  }
}
