/** The printed arena is the packed tree, and what it says is the stripped tree. */
module Packing {
  import opened Bytes
  import opened Wrappers
  import opened Lexemes
  import opened Syntax
  import opened Standard
  import opened Metadata
  import opened Arena
  import opened Prepare
  import opened Pack
  import opened Unquoting
  import opened UnquoteLoop

  ghost predicate Settled(c: Source) {
    Muted(c.raw, c.std) && Quiet(c.std, c.slots)
  }

  /** The slots `slots` stand in the arena from number `id` on. */
  ghost predicate InPlace(c: Source, id: nat, slots: seq<Slot>) {
    id + |slots| <= |c.slots| && c.slots[id..id + |slots|] == slots
  }

  lemma InPlaceParts(c: Source, id: nat, a: seq<Slot>, b: seq<Slot>)
    requires InPlace(c, id, a + b)
    ensures InPlace(c, id, a) && InPlace(c, id + |a|, b)
  {
    var all := c.slots[id..id + |a + b|];
    assert c.slots[id..id + |a|] == all[..|a|] == a;
    assert c.slots[id + |a|..id + |a| + |b|] == all[|a|..] == b;
  }

  lemma InPlaceOne(c: Source, id: nat, slot: Slot)
    requires InPlace(c, id, [slot])
    ensures id < |c.slots| && c.slots[id] == slot
  {
    assert c.slots[id..id + 1][0] == slot;
  }

  /** An extra in the standardized text is the blanked extra of the raw text. */
  lemma QuietCut(c: Source, span: Span, e: bytes, r: bytes)
    requires Muted(c.raw, c.std) && QuietSpan(c.std, span)
    requires span.hi == span.lo + |e| && c.raw[span.lo..] == e + r
    ensures Cut(c.std, span) == Blank(e)
  {
    assert forall i :: 0 <= i < |e| ==> c.raw[span.lo + i] == c.raw[span.lo..][i] == e[i];
  }

  /** The raw text from `at` on is `text`; what follows a part of it starts where the part ends. */
  lemma Onward(raw: bytes, at: nat, a: bytes, r: bytes)
    requires at <= |raw| && raw[at..] == a + r
    ensures at + |a| <= |raw| && raw[at + |a|..] == r
    ensures Cut(raw, Span(at, at + |a|)) == a
  {
    assert raw[at + |a|..] == raw[at..][|a|..];
    assert raw[at..at + |a|] == raw[at..][..|a|];
  }

  // ----- lengths -----

  lemma {:induction false} NodeTextLen(n: Node, r: bytes)
    ensures |NodeText(n, r)| == NodeLen(n) + |r| && NodeText(n, r)[NodeLen(n)..] == r
    decreases n, 3
  {
    hide BodyText, BodyLen;
    BodyTextLen(n.body, n.after + r);
    var b, k := |n.before|, BodyLen(n.body);
    var t := BodyText(n.body, n.after + r);
    assert NodeText(n, r)[b..] == t;
    assert NodeText(n, r)[b + k..] == t[k..] == n.after + r;
    assert NodeText(n, r)[NodeLen(n)..] == (n.after + r)[|n.after|..];
  }

  lemma {:induction false} BodyTextLen(body: Body, r: bytes)
    ensures |BodyText(body, r)| == BodyLen(body) + |r| && BodyText(body, r)[BodyLen(body)..] == r
    decreases body, 2
  {
    hide ItemsText, ItemsLen;
    if body.Group? {
      ItemsTextLen(body.items, body.obj, r);
      assert BodyText(body, r)[1..] == ItemsText(body.items, body.obj, r);
      assert BodyText(body, r)[1 + ItemsLen(body.items)..] ==
             ItemsText(body.items, body.obj, r)[ItemsLen(body.items)..];
    }
  }

  lemma {:induction false} ItemsTextLen(items: Items, obj: bool, r: bytes)
    ensures |ItemsText(items, obj, r)| == ItemsLen(items) + |r| && ItemsText(items, obj, r)[ItemsLen(items)..] == r
    decreases items, 5
  {
    hide ItemText, ItemLen;
    match items
    case Close(_) =>
    case Last(item) =>
      ItemTextLen(item, [Closer(obj)] + r);
      var t := ItemText(item, [Closer(obj)] + r);
      assert t[ItemLen(item) + 1..] == t[ItemLen(item)..][1..] == r;
    case More(item, rest) =>
      ItemsTextLen(rest, obj, r);
      var u := ItemsText(rest, obj, r);
      ItemTextLen(item, [COMMA] + u);
      var t := ItemText(item, [COMMA] + u);
      assert t[ItemLen(item) + 1..] == t[ItemLen(item)..][1..] == u;
      assert t[ItemLen(item) + 1 + ItemsLen(rest)..] == u[ItemsLen(rest)..];
  }

  lemma {:induction false} ItemTextLen(item: Item, r: bytes)
    ensures |ItemText(item, r)| == ItemLen(item) + |r| && ItemText(item, r)[ItemLen(item)..] == r
    decreases item, 4
  {
    hide NodeText, NodeLen;
    NodeTextLen(item.value, r);
    if item.Member? {
      var u := NodeText(item.value, r);
      NodeTextLen(item.name, [COLON] + u);
      var t, k := NodeText(item.name, [COLON] + u), NodeLen(item.name);
      assert t[k + 1..] == t[k..][1..] == u;
      assert t[k + 1 + NodeLen(item.value)..] == u[NodeLen(item.value)..];
    }
  }

  // ----- the printed arena is the packed tree -----

  /** A value keeps its own extra, an empty one, or none. */
  ghost predicate KeepsOwn(n: Node, at: nat, after: Option<Span>) {
    after.None? || after == Some(AfterSpan(n, at)) || (n.after == [] && after.value.lo == after.value.hi)
  }

  ghost function Keeping(n: Node, after: Option<Span>): Node {
    if after.None? then n.(after := []) else n
  }

  lemma {:induction false} NodePacked(c: Source, id: nat, n: Node, at: nat, after: Option<Span>, r: bytes, strip: bool,
                                      x: bytes)
    requires Settled(c) && WfNode(n, HuJson) && InPlace(c, id, NodeSlots(n, id, at, after))
    requires at <= |c.raw| && c.raw[at..] == NodeText(n, r) && KeepsOwn(n, at, after)
    ensures SlotText(c, id, strip, x) == NodeText(PackNode(Keeping(n, after), strip), x)
    decreases n, 3
  {
    hide Muted, QuietSpan, BodyText, BodyLen, BodyKind, BodySlots, WfBody, PackBody, KindText, Cut, Blank;
    InPlaceParts(c, id, [NodeSlot(n, id, at, after)], BodySlots(n.body, id + 1, at + |n.before|));
    InPlaceOne(c, id, NodeSlot(n, id, at, after));
    assert QuietSlot(c.std, c.slots[id]);
    Onward(c.raw, at, n.before, BodyText(n.body, n.after + r));
    QuietCut(c, Span(at, at + |n.before|), n.before, BodyText(n.body, n.after + r));
    AfterPacked(c, id, n, at, after, r);
    BodyPacked(c, id, n.body, at + |n.before|, n.after + r, strip, AfterBytes(c, id) + x);
  }

  lemma AfterPacked(c: Source, id: nat, n: Node, at: nat, after: Option<Span>, r: bytes)
    requires Settled(c) && id < |c.slots| && c.slots[id].after == after && KeepsOwn(n, at, after)
    requires at <= |c.raw| && c.raw[at..] == NodeText(n, r)
    ensures AfterBytes(c, id) == Blank(Keeping(n, after).after)
  {
    hide Muted, QuietSpan, BodyText, BodyLen;
    assert Blank([]) == [];
    if after == Some(AfterSpan(n, at)) {
      assert QuietSlot(c.std, c.slots[id]);
      Onward(c.raw, at, n.before, BodyText(n.body, n.after + r));
      BodyTextLen(n.body, n.after + r);
      var body := at + |n.before|;
      assert c.raw[body + BodyLen(n.body)..] == c.raw[body..][BodyLen(n.body)..];
      QuietCut(c, AfterSpan(n, at), n.after, r);
    }
  }

  lemma {:induction false} BodyPacked(c: Source, id: nat, body: Body, at: nat, r: bytes, strip: bool, x: bytes)
    requires Settled(c) && WfBody(body, HuJson) && id < |c.slots|
    requires c.slots[id].kind == BodyKind(body, id + 1, at) && InPlace(c, id + 1, BodySlots(body, id + 1, at))
    requires at <= |c.raw| && c.raw[at..] == BodyText(body, r)
    ensures KindText(c, id, strip, x) == BodyText(PackBody(body, strip), x)
    decreases body, 2
  {
    hide Muted, QuietSpan, WfItems, ItemsText, ItemIds, ItemsSlots, TailSpan, KeptItems, Rebuild, TailExtra, KeptText,
         Survivors, CommaBlank, Blank;
    match body
    case Scalar(text) => Onward(c.raw, at, text, r);
    case Group(obj, items) =>
      Onward(c.raw, at, [Opener(obj)], ItemsText(items, obj, r));
      assert QuietSlot(c.std, c.slots[id]);
      TailCut(c, items, obj, at + 1, r);
      var kept, tail := KeptItems(items, strip), Blank(TailExtra(items)) + ([Closer(obj)] + x);
      ItemsPacked(c, id, items, obj, id + 1, at + 1, r, strip, true, KeptBlank(kept) + tail);
      RebuildText(kept, TailExtra(items), obj, x);
  }

  lemma {:induction false} TailCut(c: Source, items: Items, obj: bool, at: nat, r: bytes)
    requires Muted(c.raw, c.std) && QuietSpan(c.std, TailSpan(items, at))
    requires at <= |c.raw| && c.raw[at..] == ItemsText(items, obj, r)
    ensures Cut(c.std, TailSpan(items, at)) == Blank(TailExtra(items))
    decreases items
  {
    hide Muted, QuietSpan, Blank, ItemLen, NodeText;
    match items {
      case Close(extra) => QuietCut(c, Span(at, at + |extra|), extra, [Closer(obj)] + r);
      case Last(item) =>
        ValueText(c.raw, item, at, [Closer(obj)] + r);
        AfterText(c, item.value, ValueAt(item, at), [Closer(obj)] + r);
      case More(item, rest) =>
        ItemEnd(c.raw, item, at, [COMMA] + ItemsText(rest, obj, r));
        var end := at + ItemLen(item);
        assert c.raw[end + 1..] == c.raw[end..][1..];
        TailCut(c, rest, obj, end + 1, r);
    }
  }

  lemma ItemEnd(raw: bytes, item: Item, at: nat, r: bytes)
    requires at <= |raw| && raw[at..] == ItemText(item, r)
    ensures at + ItemLen(item) <= |raw| && raw[at + ItemLen(item)..] == r
  {
    hide ItemText, ItemLen;
    ItemTextLen(item, r);
    assert raw[at + ItemLen(item)..] == raw[at..][ItemLen(item)..];
  }

  lemma AfterText(c: Source, n: Node, at: nat, r: bytes)
    requires Muted(c.raw, c.std) && QuietSpan(c.std, AfterSpan(n, at))
    requires at <= |c.raw| && c.raw[at..] == NodeText(n, r)
    ensures Cut(c.std, AfterSpan(n, at)) == Blank(n.after)
  {
    hide Muted, QuietSpan, BodyText, BodyLen, Blank;
    Onward(c.raw, at, n.before, BodyText(n.body, n.after + r));
    BodyTextLen(n.body, n.after + r);
    var body := at + |n.before|;
    assert c.raw[body + BodyLen(n.body)..] == c.raw[body..][BodyLen(n.body)..];
    QuietCut(c, AfterSpan(n, at), n.after, r);
  }

  /** Where a member's value starts, its text starts. */
  lemma ValueText(raw: bytes, item: Item, at: nat, r: bytes)
    requires at <= |raw| && raw[at..] == ItemText(item, r)
    ensures ValueAt(item, at) <= |raw| && raw[ValueAt(item, at)..] == NodeText(item.value, r)
  {
    hide NodeText, NodeLen;
    if item.Member? {
      NodeTextLen(item.name, [COLON] + NodeText(item.value, r));
      var k := at + NodeLen(item.name);
      assert raw[k..] == raw[at..][NodeLen(item.name)..];
      assert raw[k + 1..] == raw[k..][1..];
    }
  }

  function KeptBlank(kept: seq<Kept>): bytes {
    if kept != [] && kept[|kept| - 1].present then [SPACE] else []
  }

  function KeptItemsText(kept: seq<Kept>, r: bytes): bytes {
    if kept == [] then r
    else ItemText(kept[0].item, (if |kept| == 1 then [] else [COMMA]) + KeptItemsText(kept[1..], r))
  }

  lemma {:induction false} RebuildText(kept: seq<Kept>, tail: bytes, obj: bool, x: bytes)
    ensures ItemsText(Rebuild(kept, tail), obj, x) ==
            KeptItemsText(kept, KeptBlank(kept) + (Blank(tail) + ([Closer(obj)] + x)))
    decreases |kept|
  {
    hide ItemText, Blank;
    var close := Blank(tail) + ([Closer(obj)] + x);
    assert [] + close == close;
    if |kept| == 1 {
      var blank := KeptBlank(kept);
      ExtendedText(kept[0].item, blank + Blank(tail), [Closer(obj)] + x);
      assert blank + Blank(tail) + ([Closer(obj)] + x) == blank + close;
      assert KeptItemsText(kept[1..], blank + close) == blank + close;
      assert [] + (blank + close) == blank + close;
    } else if |kept| > 1 {
      RebuildText(kept[1..], tail, obj, x);
      assert KeptBlank(kept[1..]) == KeptBlank(kept);
    }
  }

  lemma {:induction false} ItemsPacked(c: Source, id: nat, items: Items, obj: bool, base: nat, at: nat, r: bytes,
                                       strip: bool, first: bool, x: bytes)
    requires Settled(c) && WfItems(items, obj, HuJson, first) && id < base
             && InPlace(c, base, ItemsSlots(items, base, at))
    requires at <= |c.raw| && c.raw[at..] == ItemsText(items, obj, r)
    ensures var s, k := Survivors(c, ItemIds(items, base), strip), KeptItems(items, strip);
            && |s| == |k| && KeptText(c, id, s, x) == KeptItemsText(k, x)
            && CommaBlank(c, s) == KeptBlank(k)
    decreases items, 5
  {
    hide Muted, QuietSpan, WfItem, ItemText, ItemLen, ItemSlots, ItemSize, PackItem, Dropped, Drops, Enters, ChildText,
         HasAfter, KeptAfter;
    match items {
      case Close(_) =>
      case Last(item) =>
        ItemPacked(c, id, item, obj, base, at, None, [Closer(obj)] + r, strip, [] + x);
        var child := ItemChild(item, base);
        assert [child][1..] == [];
        assert [] + x == x;
        LastPacked(item, strip);
      case More(item, rest) =>
        var rest', after := [COMMA] + ItemsText(rest, obj, r), KeptAfter(item, rest, at);
        var base', at' := base + ItemSize(item), at + ItemLen(item) + 1;
        InPlaceParts(c, base, ItemSlots(item, base, at, after), ItemsSlots(rest, base', at'));
        ItemEnd(c.raw, item, at, rest');
        assert c.raw[at'..] == c.raw[at' - 1..][1..];
        ItemsPacked(c, id, rest, obj, base', at', r, strip, false, x);
        var s', k' := Survivors(c, ItemIds(rest, base'), strip), KeptItems(rest, strip);
        var y := (if |s'| == 0 then [] else [COMMA]) + KeptText(c, id, s', x);
        MorePacked(item, rest, at, strip);
        ItemPacked(c, id, item, obj, base, at, after, rest', strip, y);
        var child := ItemChild(item, base);
        assert ([child] + ItemIds(rest, base'))[1..] == ItemIds(rest, base');
        Prepended(c, id, Survivor(child, Enters(c, child, strip)), s', Kept(PackItem(item, strip), after.Some?), k', x);
    }
  }

  /** Putting one survivor in front. */
  lemma Prepended(c: Source, id: nat, one: Survivor, s: seq<Survivor>, kept: Kept, k: seq<Kept>, x: bytes)
    requires |s| == |k| && KeptText(c, id, s, x) == KeptItemsText(k, x) && CommaBlank(c, s) == KeptBlank(k)
    ensures var y := (if |s| == 0 then [] else [COMMA]) + KeptText(c, id, s, x);
            ChildText(c, id, one, y) == ItemText(kept.item, y) && HasAfter(c, one.child.value) == kept.present ==>
              && KeptText(c, id, [one] + s, x) == KeptItemsText([kept] + k, x)
              && CommaBlank(c, [one] + s) == KeptBlank([kept] + k)
  {
    hide ChildText, ItemText, HasAfter;
    assert ([one] + s)[1..] == s && ([kept] + k)[1..] == k;
    assert s != [] ==> ([one] + s)[|s|] == s[|s| - 1] && ([kept] + k)[|k|] == k[|k| - 1];
  }

  lemma MorePacked(item: Item, rest: Items, at: nat, strip: bool)
    ensures var after := KeptAfter(item, rest, at);
            && KeepsOwn(item.value, ValueAt(item, at), after)
            && after.Some? == (item.value.after != [] || rest.Close?)
            && PackItem(Holding(item, after), strip) == PackItem(item, strip)
  {
    hide PackNode, NodeLen, BodyLen;
  }

  lemma LastPacked(item: Item, strip: bool)
    ensures PackItem(Holding(item, None), strip) == WithoutAfter(PackItem(item, strip))
  {
    assert Blank([]) == [];
  }

  ghost function Holding(item: Item, after: Option<Span>): Item {
    item.(value := Keeping(item.value, after))
  }

  lemma {:induction false} ItemPacked(c: Source, id: nat, item: Item, obj: bool, base: nat, at: nat,
                                      after: Option<Span>, r: bytes, strip: bool, x: bytes)
    requires Settled(c) && WfItem(item, obj, HuJson) && id < base && InPlace(c, base, ItemSlots(item, base, at, after))
    requires at <= |c.raw| && c.raw[at..] == ItemText(item, r) && KeepsOwn(item.value, ValueAt(item, at), after)
    ensures var child := ItemChild(item, base);
            && Below(c, id, child) && HasAfter(c, child.value) == after.Some?
            && Drops(c, child, strip) == Dropped(item, strip) && Enters(c, child, strip) == StripsBelow(item, strip)
            && (!Dropped(item, strip) ==>
                  ChildText(c, id, Survivor(child, Enters(c, child, strip)), x) ==
                  ItemText(PackItem(Holding(item, after), strip), x))
    decreases item, 4
  {
    hide Muted, QuietSpan, WfNode, NodeText, NodeLen, NodeSlots, SlotText, PackNode, Unquote, UnquoteText, Cut;
    var child, vat := ItemChild(item, base), ValueAt(item, at);
    ValueText(c.raw, item, at, r);
    match item {
      case Element(value) =>
        SlotHead(c, base, value, at, after);
        NodePacked(c, base, value, at, after, r, strip, x);
      case Member(name, value) =>
        InPlaceParts(c, base, [NodeSlot(name, base, at, OwnAfter(name, at))], NodeSlots(value, base + 1, vat, after));
        InPlaceOne(c, base, NodeSlot(name, base, at, OwnAfter(name, at)));
        SlotHead(c, base + 1, value, vat, after);
        NameCut(c.raw, name, at, [COLON] + NodeText(value, r));
        NameIsString(name, HuJson);
        UnquoteTextOfString(name.body.text);
        var below := StripsBelow(item, strip);
        NodePacked(c, base + 1, value, vat, after, r, below, x);
        NameSlots(name, base, at);
        NodePacked(c, base, name, at, OwnAfter(name, at), [COLON] + NodeText(value, r), false,
                   [COLON] + SlotText(c, base + 1, below, x));
    }
  }

  // ----- every name in the arena of a document decodes -----

  ghost predicate NamedSlots(c: Source, lo: nat, hi: nat) {
    forall k :: lo <= k < hi && k < |c.slots| && c.slots[k].kind.Container? ==> AllReadable(c, c.slots[k].kind.children)
  }

  lemma {:induction false} NodeNamed(c: Source, id: nat, n: Node, at: nat, after: Option<Span>, r: bytes)
    requires WfNode(n, HuJson) && InPlace(c, id, NodeSlots(n, id, at, after))
    requires at <= |c.raw| && c.raw[at..] == NodeText(n, r)
    ensures NamedSlots(c, id, id + |NodeSlots(n, id, at, after)|)
    decreases n, 3
  {
    hide BodyText, BodySlots, ItemsText, ItemIds, ItemsSlots, TailSpan, WfItems, AllReadable, InPlace;
    var start := at + |n.before|;
    var slots := BodySlots(n.body, id + 1, start);
    InPlaceParts(c, id, [NodeSlot(n, id, at, after)], slots);
    InPlaceOne(c, id, NodeSlot(n, id, at, after));
    Onward(c.raw, at, n.before, BodyText(n.body, n.after + r));
    BodyNamed(c, n.body, id + 1, start, n.after + r);
  }

  lemma {:induction false} BodyNamed(c: Source, body: Body, base: nat, at: nat, r: bytes)
    requires WfBody(body, HuJson) && InPlace(c, base, BodySlots(body, base, at))
    requires at <= |c.raw| && c.raw[at..] == BodyText(body, r)
    ensures NamedSlots(c, base, base + |BodySlots(body, base, at)|)
    ensures body.Group? ==> AllReadable(c, ItemIds(body.items, base))
    decreases body, 2
  {
    hide ItemsText, ItemIds, ItemsSlots, WfItems, AllReadable, InPlace;
    if body.Group? {
      Onward(c.raw, at, [Opener(body.obj)], ItemsText(body.items, body.obj, r));
      ItemsNamed(c, body.items, body.obj, base, at + 1, r, true);
    }
  }

  lemma {:induction false} ItemsNamed(c: Source, items: Items, obj: bool, base: nat, at: nat, r: bytes, first: bool)
    requires WfItems(items, obj, HuJson, first) && InPlace(c, base, ItemsSlots(items, base, at))
    requires at <= |c.raw| && c.raw[at..] == ItemsText(items, obj, r)
    ensures NamedSlots(c, base, base + |ItemsSlots(items, base, at)|) && AllReadable(c, ItemIds(items, base))
    decreases items, 5
  {
    hide ItemText, ItemLen, ItemSlots, ItemSize, ItemChild, WfItem, Readable, InPlace, KeptAfter;
    match items {
      case Close(_) =>
      case Last(item) => ItemNamed(c, item, obj, base, at, None, [Closer(obj)] + r);
      case More(item, rest) =>
        var rest', after := [COMMA] + ItemsText(rest, obj, r), KeptAfter(item, rest, at);
        var base', at' := base + ItemSize(item), at + ItemLen(item) + 1;
        InPlaceParts(c, base, ItemSlots(item, base, at, after), ItemsSlots(rest, base', at'));
        ItemNamed(c, item, obj, base, at, after, rest');
        ItemEnd(c.raw, item, at, rest');
        assert c.raw[at'..] == c.raw[at' - 1..][1..];
        ItemsNamed(c, rest, obj, base', at', r, false);
    }
  }

  lemma {:induction false} ItemNamed(c: Source, item: Item, obj: bool, base: nat, at: nat, after: Option<Span>,
                                     r: bytes)
    requires WfItem(item, obj, HuJson) && InPlace(c, base, ItemSlots(item, base, at, after))
    requires at <= |c.raw| && c.raw[at..] == ItemText(item, r)
    ensures NamedSlots(c, base, base + |ItemSlots(item, base, at, after)|) && Readable(c, ItemChild(item, base))
    decreases item, 4
  {
    hide WfNode, NodeText, NodeLen, NodeSlots, UnquoteText, Unquote, Cut, AllReadable, InPlace;
    var vat := ValueAt(item, at);
    ValueText(c.raw, item, at, r);
    match item {
      case Element(value) => NodeNamed(c, base, value, at, after, r);
      case Member(name, value) =>
        InPlaceParts(c, base, [NodeSlot(name, base, at, OwnAfter(name, at))], NodeSlots(value, base + 1, vat, after));
        InPlaceOne(c, base, NodeSlot(name, base, at, OwnAfter(name, at)));
        NodeNamed(c, base + 1, value, vat, after, r);
        NameCut(c.raw, name, at, [COLON] + NodeText(value, r));
        NameIsString(name, HuJson);
        UnquoteTextOfString(name.body.text);
    }
  }

  lemma SlotHead(c: Source, id: nat, n: Node, at: nat, after: Option<Span>)
    requires InPlace(c, id, NodeSlots(n, id, at, after))
    ensures id < |c.slots| && c.slots[id].after == after
  {
    hide BodySlots, BodyKind;
    InPlaceParts(c, id, [NodeSlot(n, id, at, after)], BodySlots(n.body, id + 1, at + |n.before|));
    InPlaceOne(c, id, NodeSlot(n, id, at, after));
  }

  lemma NameCut(raw: bytes, name: Node, at: nat, r: bytes)
    requires name.body.Scalar? && at <= |raw| && raw[at..] == NodeText(name, r)
    ensures BodyKind(name.body, 0, at + |name.before|).Literal?
    ensures Cut(raw, BodyKind(name.body, 0, at + |name.before|).span) == name.body.text
  {
    hide Cut;
    Onward(raw, at, name.before, name.body.text + (name.after + r));
    Onward(raw, at + |name.before|, name.body.text, name.after + r);
  }
}
