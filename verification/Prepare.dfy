/**
 The metadata pass: parse a HuJSON text into the arena, then print the arena without the
 metadata members. Both halves are loops over explicit task stacks.
 */
module Prepare {
  import opened Bytes
  import opened Wrappers
  import opened Lexemes
  import opened Syntax
  import opened Reader
  import opened Stacks
  import opened Standard
  import opened Arena
  import opened HuJson

  // ----- parsing into the arena -----

  datatype Parse =
    | PValue(id: nat)
    | PFinish(id: nat)
    | PNext(id: nat)
    | PColon
    | PAfter(id: nat, value: nat)

  /**
   What a parse stack stands for: the finished arena, given the text `s` still to be read at
   byte `at` and the arena so far. Nothing if the stack would go wrong.
   */
  ghost function Built(tasks: Stack<Parse>, s: bytes, at: nat, slots: seq<Slot>): (r: Option<seq<Slot>>)
    decreases tasks
  {
    match tasks
    case Empty => if s == [] then Some(slots) else None
    case Push(PValue(id), below) =>
      var (n, t) :- ReadNode(s, HuJson);
      if id < |slots| && (n.body.Scalar? || id == |slots| - 1) then
        Built(below, t, at + NodeLen(n), Placed(slots, id, NodeSlots(n, id, at, OwnAfter(n, at))))
      else None
    case Push(PFinish(id), below) =>
      var a :- ExtraLen(s, HuJson);
      if id < |slots| then
        Built(below, s[a..], at + a, SetAfter(slots, id, if a == 0 then None else Some(Span(at, at + a))))
      else None
    case Push(PNext(id), below) =>
      if !IsContainer(slots, id) then None
      else
        var (items, t) :- ReadItems(s, slots[id].kind.obj, HuJson, true);
        Built(below, t, at + ItemsLen(items), Filled(slots, id, items, at))
    case Push(PColon, below) =>
      if s != [] && s[0] == COLON then Built(below, s[1..], at + 1, slots) else None
    case Push(PAfter(id, value), below) =>
      if !IsContainer(slots, id) || value >= |slots| then None
      else
        var (after, t) :- ReadAfter(s, slots[id].kind.obj, HuJson);
        if after.None? then Built(below, t, at + 1, Taken(slots, id, value, at))
        else Built(below, t, at + 1 + ItemsLen(after.value), Filled(slots, id, after.value, at + 1))
  }

  lemma PlacedScalar(slots: seq<Slot>, id: nat, slot: Slot)
    requires id < |slots|
    ensures Placed(slots, id, [slot]) == slots[id := slot]
  {
  }

  lemma ScalarStep(id: nat, below: Stack<Parse>, s: bytes, at: nat, slots: seq<Slot>, b: nat, k: nat)
    requires Built(Push(PValue(id), below), s, at, slots).Some? && id < |slots|
    requires ExtraLen(s, HuJson) == Some(b) && b < |s| && s[b] != OPEN_BRACE && s[b] != OPEN_BRACKET
    requires ScalarLen(s[b..]) == Some(k)
    ensures var slot := Slot(Span(at, at + b), slots[id].after, Literal(Span(at + b, at + b + k)));
            Built(Push(PFinish(id), below), s[b + k..], at + b + k, slots[id := slot])
            == Built(Push(PValue(id), below), s, at, slots)
  {
    hide ExtraLen, ScalarLen, ReadNode, NodeSlots, Built, SetAfter, Placed, NodeLen, OwnAfter, NodeSlot;
    ScalarNode(s, b, k);
    BuiltReads(id, below, s, at, slots);
    var t := s[b + k..];
    var a := ExtraLen(t, HuJson).value;
    var n := Node(s[..b], Scalar(s[b..][..k]), t[..a]);
    assert |n.before| == b && |n.body.text| == k && |n.after| == a;
    ScalarSlots(slots, id, n, at);
    BuiltValue(id, below, s, at, slots, n, t[a..]);
    var slot := Slot(Span(at, at + b), slots[id].after, Literal(Span(at + b, at + b + k)));
    BuiltFinish(id, below, t, at + b + k, slots[id := slot], a);
  }

  lemma BuiltReads(id: nat, below: Stack<Parse>, s: bytes, at: nat, slots: seq<Slot>)
    requires Built(Push(PValue(id), below), s, at, slots).Some?
    ensures ReadNode(s, HuJson).Some?
  {
    hide ReadNode;
  }

  lemma BuiltFinish(id: nat, below: Stack<Parse>, s: bytes, at: nat, slots: seq<Slot>, a: nat)
    requires id < |slots| && ExtraLen(s, HuJson) == Some(a)
    ensures Built(Push(PFinish(id), below), s, at, slots)
            == Built(below, s[a..], at + a, SetAfter(slots, id, if a == 0 then None else Some(Span(at, at + a))))
  {
    hide ExtraLen, SetAfter;
  }

  lemma ScalarNode(s: bytes, b: nat, k: nat)
    requires ExtraLen(s, HuJson) == Some(b) && b < |s| && s[b] != OPEN_BRACE && s[b] != OPEN_BRACKET
    requires ScalarLen(s[b..]) == Some(k)
    ensures var t := s[b + k..];
            var a := ExtraLen(t, HuJson);
            ReadNode(s, HuJson) ==
            if a.None? then None else Some((Node(s[..b], Scalar(s[b..][..k]), t[..a.value]), t[a.value..]))
  {
    hide ExtraLen, ScalarLen;
    assert s[b..][k..] == s[b + k..];
    assert ReadBody(s[b..], HuJson) == Some((Scalar(s[b..][..k]), s[b + k..]));
  }

  lemma ScalarSlots(slots: seq<Slot>, id: nat, n: Node, at: nat)
    requires id < |slots| && n.body.Scalar?
    ensures var start := at + |n.before|;
            var end := start + |n.body.text|;
            var slot := Slot(Span(at, start), slots[id].after, Literal(Span(start, end)));
            && NodeLen(n) == |n.before| + |n.body.text| + |n.after|
            && SetAfter(slots[id := slot], id, if |n.after| == 0 then None else Some(Span(end, end + |n.after|)))
               == Placed(slots, id, NodeSlots(n, id, at, OwnAfter(n, at)))
  {
    var slot := NodeSlot(n, id, at, OwnAfter(n, at));
    assert NodeSlots(n, id, at, OwnAfter(n, at)) == [slot];
    PlacedScalar(slots, id, slot);
  }

  lemma OpenStep(id: nat, below: Stack<Parse>, s: bytes, at: nat, slots: seq<Slot>, b: nat)
    requires Built(Push(PValue(id), below), s, at, slots).Some? && id < |slots|
    requires ExtraLen(s, HuJson) == Some(b) && b < |s| && (s[b] == OPEN_BRACE || s[b] == OPEN_BRACKET)
    ensures var slot := Slot(Span(at, at + b), slots[id].after, Container(s[b] == OPEN_BRACE, [], Span(0, 0)));
            Built(Push(PNext(id), Push(PFinish(id), below)), s[b + 1..], at + b + 1, slots[id := slot])
            == Built(Push(PValue(id), below), s, at, slots)
  {
    hide ExtraLen, ReadItems, ItemsLen, ItemsSlots, ItemIds, TailSpan;
    var obj := s[b] == OPEN_BRACE;
    assert s[b..][1..] == s[b + 1..];
    assert ReadBody(s[b..], HuJson).Some?;
    var (items, t) := ReadItems(s[b + 1..], obj, HuJson, true).value;
    assert ReadBody(s[b..], HuJson) == Some((Group(obj, items), t));
    var a := ExtraLen(t, HuJson).value;
    var n := Node(s[..b], Group(obj, items), t[..a]);
    assert ReadNode(s, HuJson) == Some((n, t[a..]));
    assert NodeLen(n) == b + 1 + ItemsLen(items) + a;
    var slot := Slot(Span(at, at + b), slots[id].after, Container(obj, [], Span(0, 0)));
    var open := slots[id := slot];
    var inner := at + b + 1;
    var after := if a == 0 then None else Some(Span(inner + ItemsLen(items), inner + ItemsLen(items) + a));
    assert after == OwnAfter(n, at);
    OpenSlots(slots, id, n, at, slot, after);
  }

  lemma OpenSlots(slots: seq<Slot>, id: nat, n: Node, at: nat, slot: Slot, after: Option<Span>)
    requires id + 1 == |slots| && n.body.Group?
    requires slot == Slot(Span(at, at + |n.before|), slot.after, Container(n.body.obj, [], Span(0, 0)))
    ensures IsContainer(slots[id := slot], id)
    ensures SetAfter(Filled(slots[id := slot], id, n.body.items, at + |n.before| + 1), id, after)
            == Placed(slots, id, NodeSlots(n, id, at, after))
  {
    hide ItemsSlots, ItemIds, TailSpan;
    var items, inner := n.body.items, at + |n.before| + 1;
    var open := slots[id := slot];
    var ids := ItemIds(items, |slots|);
    assert [] + ids == ids;
    CloseIds(items, |slots|, inner);
    var filled := Filled(open, id, items, inner);
    assert filled == SetContainer(open, id, ids, TailSpan(items, inner)) + ItemsSlots(items, |slots|, inner);
    assert NodeSlots(n, id, at, after) == [NodeSlot(n, id, at, after)] + ItemsSlots(items, |slots|, inner);
  }

  lemma CloseIds(items: Items, base: nat, at: nat)
    ensures items.Close? ==> ItemIds(items, base) == [] && ItemsSlots(items, base, at) == []
  {
  }

  lemma ClosesStep(id: nat, below: Stack<Parse>, s: bytes, at: nat, slots: seq<Slot>, e: nat)
    requires Built(Push(PNext(id), below), s, at, slots).Some? && IsContainer(slots, id)
    requires ExtraLen(s, HuJson) == Some(e) && e < |s| && s[e] == Closer(slots[id].kind.obj)
    ensures Built(below, s[e + 1..], at + e + 1, Filled(slots, id, Close(s[..e]), at)) ==
            Built(Push(PNext(id), below), s, at, slots)
  {
    hide ExtraLen, ReadItem, Built, Filled;
    BuiltNext(id, below, s, at, slots);
    assert ReadItems(s, slots[id].kind.obj, HuJson, true) == Some((Close(s[..e]), s[e + 1..]));
  }

  /** Items are read as one item and what follows it. */
  lemma NextParts(obj: bool, s: bytes, e: nat)
    requires ExtraLen(s, HuJson) == Some(e) && (e < |s| ==> s[e] != Closer(obj))
    requires ReadItems(s, obj, HuJson, true).Some?
    ensures var item := ReadItem(s, obj, HuJson);
            && item.Some?
            && var after := ReadAfter(item.value.1, obj, HuJson);
            && after.Some?
            && ReadItems(s, obj, HuJson, true) == Some((Joined(item.value.0, after.value.0), after.value.1))
  {
    hide ExtraLen, ReadItem, ReadAfter;
  }

  /** After an item has been read into the arena, what follows it completes the container. */
  lemma AfterItem(id: nat, item: Item, after: Option<Items>, below: Stack<Parse>, t: bytes, u: bytes, at: nat,
                  slots: seq<Slot>)
    requires IsContainer(slots, id) && ReadAfter(t, slots[id].kind.obj, HuJson) == Some((after, u))
    ensures var read := WithItem(slots, id, item, at, OwnAfter(item.value, ValueAt(item, at)));
            Built(Push(PAfter(id, ItemChild(item, |slots|).value), below), t, at + ItemLen(item), read)
            == Built(below, u, at + ItemsLen(Joined(item, after)), Filled(slots, id, Joined(item, after), at))
  {
    hide ReadAfter, ItemLen, Taken, Filled, ItemSlots;
    var own := OwnAfter(item.value, ValueAt(item, at));
    var read := WithItem(slots, id, item, at, own);
    WithItemContainer(slots, id, item, at, own);
    FilledLast(slots, id, item, at);
    assert read[id].kind.obj == slots[id].kind.obj;
    if after.Some? {
      FilledMore(slots, id, item, after.value, at);
    }
  }

  lemma ElementStep(id: nat, below: Stack<Parse>, s: bytes, at: nat, slots: seq<Slot>, e: nat)
    requires Built(Push(PNext(id), below), s, at, slots).Some? && IsContainer(slots, id) && !slots[id].kind.obj
    requires ExtraLen(s, HuJson) == Some(e) && (e < |s| ==> s[e] != CLOSE_BRACKET)
    ensures var value := |slots|;
            Built(Push(PValue(value), Push(PAfter(id, value), below)), s, at,
                  SetContainer(slots, id, [Child(None, value)], slots[id].kind.after) + [FRESH])
            == Built(Push(PNext(id), below), s, at, slots)
  {
    hide ExtraLen, ReadNode, ReadItems, ReadAfter, ItemsLen, Filled, NodeSlots;
    NextParts(false, s, e);
    var (n, t) := ReadNode(s, HuJson).value;
    var (after, u) := ReadAfter(t, false, HuJson).value;
    AfterItem(id, Element(n), after, below, t, u, at, slots);
    var base := SetContainer(slots, id, [Child(None, |slots|)], slots[id].kind.after);
    var own := OwnAfter(n, at);
    assert Placed(base + [FRESH], |slots|, NodeSlots(n, |slots|, at, own)) == base + NodeSlots(n, |slots|, at, own);
  }

  lemma MemberStep(id: nat, below: Stack<Parse>, s: bytes, at: nat, slots: seq<Slot>, e: nat)
    requires Built(Push(PNext(id), below), s, at, slots).Some? && IsContainer(slots, id) && slots[id].kind.obj
    requires ExtraLen(s, HuJson) == Some(e) && (e < |s| ==> s[e] != CLOSE_BRACE)
    ensures var name, value := |slots|, |slots| + 1;
            Built(Push(PValue(name), Push(PColon, Push(PValue(value), Push(PAfter(id, value), below)))), s, at,
                  SetContainer(slots, id, [Child(Some(name), value)], slots[id].kind.after) + [FRESH, FRESH])
            == Built(Push(PNext(id), below), s, at, slots)
  {
    hide ExtraLen, ReadNode, ReadItem, ReadItems, ReadAfter, ItemsLen, NodeLen, Filled, NodeSlots, NodeSlot, Built,
         SetContainer, Placed, WithItem;
    BuiltNext(id, below, s, at, slots);
    NextParts(true, s, e);
    var (item, t') := ReadItem(s, true, HuJson).value;
    var (after, u) := ReadAfter(t', true, HuJson).value;
    var n, v, t := MemberParts(s, item, t');
    AfterItem(id, item, after, below, t', u, at, slots);
    var name, value := |slots|, |slots| + 1;
    var base := SetContainer(slots, id, [Child(Some(name), value)], slots[id].kind.after);
    MemberSlots(slots, id, item, at);
    var slots2 := Placed(base + [FRESH, FRESH], name, NodeSlots(n, name, at, OwnAfter(n, at)));
    var vat := ValueAt(item, at);
    BuiltValue(name, Push(PColon, Push(PValue(value), Push(PAfter(id, value), below))), s, at, base + [FRESH, FRESH],
               n, t);
    BuiltColon(Push(PValue(value), Push(PAfter(id, value), below)), t, at + NodeLen(n), slots2);
    BuiltValue(value, Push(PAfter(id, value), below), t[1..], vat, slots2, v, t');
  }

  lemma BuiltNext(id: nat, below: Stack<Parse>, s: bytes, at: nat, slots: seq<Slot>)
    requires Built(Push(PNext(id), below), s, at, slots).Some?
    ensures IsContainer(slots, id)
    ensures var read := ReadItems(s, slots[id].kind.obj, HuJson, true);
            && read.Some?
            && Built(Push(PNext(id), below), s, at, slots)
               == Built(below, read.value.1, at + ItemsLen(read.value.0), Filled(slots, id, read.value.0, at))
  {
    hide ReadItems, ItemsLen, Filled;
  }

  lemma {:induction false} BuiltValue(id: nat, below: Stack<Parse>, s: bytes, at: nat, slots: seq<Slot>, n: Node,
                                      t: bytes)
    requires ReadNode(s, HuJson) == Some((n, t)) && id < |slots| && (n.body.Scalar? || id == |slots| - 1)
    ensures Built(Push(PValue(id), below), s, at, slots)
            == Built(below, t, at + NodeLen(n), Placed(slots, id, NodeSlots(n, id, at, OwnAfter(n, at))))
  {
    hide ReadNode, NodeLen, NodeSlots;
  }

  lemma BuiltColon(below: Stack<Parse>, s: bytes, at: nat, slots: seq<Slot>)
    requires s != [] && s[0] == COLON
    ensures Built(Push(PColon, below), s, at, slots) == Built(below, s[1..], at + 1, slots)
  {
  }

  /** A member is a name, a colon and a value. */
  lemma MemberParts(s: bytes, item: Item, t': bytes) returns (n: Node, v: Node, t: bytes)
    requires ReadItem(s, true, HuJson) == Some((item, t'))
    ensures item == Member(n, v) && n.body.Scalar?
    ensures ReadNode(s, HuJson) == Some((n, t)) && t != [] && t[0] == COLON && ReadNode(t[1..], HuJson) == Some((v, t'))
  {
    hide ReadNode;
    n, t := ReadNode(s, HuJson).value.0, ReadNode(s, HuJson).value.1;
    v := ReadNode(t[1..], HuJson).value.0;
  }

  lemma MemberSlots(slots: seq<Slot>, id: nat, item: Item, at: nat)
    requires IsContainer(slots, id) && item.Member? && item.name.body.Scalar?
    ensures var name, value := |slots|, |slots| + 1;
            var base := SetContainer(slots, id, [Child(Some(name), value)], slots[id].kind.after);
            var slots2 := Placed(base + [FRESH, FRESH], name, NodeSlots(item.name, name, at, OwnAfter(item.name, at)));
            var own := OwnAfter(item.value, ValueAt(item, at));
            && |slots2| == value + 1
            && Placed(slots2, value, NodeSlots(item.value, value, ValueAt(item, at), own)) ==
               WithItem(slots, id, item, at, own)
  {
    hide NodeSlots, NodeSlot, NodeLen;
    NameSlots(item.name, |slots|, at);
  }

  lemma NameSlots(n: Node, id: nat, at: nat)
    requires n.body.Scalar?
    ensures NodeSlots(n, id, at, OwnAfter(n, at)) == [NodeSlot(n, id, at, OwnAfter(n, at))]
  {
  }

  lemma AfterCommaStep(id: nat, value: nat, below: Stack<Parse>, s: bytes, at: nat, slots: seq<Slot>)
    requires Built(Push(PAfter(id, value), below), s, at, slots).Some? && s != []
    requires IsContainer(slots, id) && s[0] == COMMA
    ensures Built(Push(PNext(id), below), s[1..], at + 1, slots) == Built(Push(PAfter(id, value), below), s, at, slots)
  {
    hide ReadItems, ItemsLen, Filled;
    AnyFirst(s[1..], slots[id].kind.obj);
  }

  lemma AnyFirst(s: bytes, obj: bool)
    ensures ReadItems(s, obj, HuJson, true) == ReadItems(s, obj, HuJson, false)
  {
    hide ExtraLen, ReadItem, ReadAfter;
  }

  // ----- the parsing loop -----

  /** Each output byte is the input byte, or a space in place of a byte that is not whitespace. */
  ghost predicate Muted(raw: bytes, out: bytes) {
    |out| == |raw| && forall i :: 0 <= i < |raw| ==> out[i] == raw[i] || (!IsSpace(raw[i]) && out[i] == SPACE)
  }

  ghost predicate QuietSpan(out: bytes, span: Span) {
    span.lo <= span.hi <= |out| && forall i :: span.lo <= i < span.hi ==> IsSpace(out[i])
  }

  /** The extras of a slot are already blank in the output. */
  ghost predicate QuietSlot(out: bytes, slot: Slot) {
    && QuietSpan(out, slot.before)
    && (slot.after.Some? ==> QuietSpan(out, slot.after.value))
    && (slot.kind.Container? ==> QuietSpan(out, slot.kind.after))
  }

  ghost predicate Quiet(out: bytes, slots: seq<Slot>) {
    forall i :: 0 <= i < |slots| ==> QuietSlot(out, slots[i])
  }

  lemma QuietLater(raw: bytes, out: bytes, at: nat, end: nat, slots: seq<Slot>)
    requires at <= end <= |out| && Muted(raw, out) && Quiet(out, slots)
    ensures var out' := BlankRange(out, at, end);
            Muted(raw, out') && Quiet(out', slots) && QuietSpan(out', Span(at, end))
  {
  }

  ghost predicate Parsing(parser: Parser, tasks: Stack<Parse>, slots: seq<Slot>)
    reads parser
  {
    && parser.Valid() && Muted(parser.raw, parser.out) && Quiet(parser.out, slots)
    && Built(tasks, parser.raw[parser.at..], parser.at, slots).Some?
  }

  ghost function Pending(parser: Parser, tasks: Stack<Parse>, slots: seq<Slot>): Option<seq<Slot>>
    reads parser
    requires parser.Valid()
  {
    Built(tasks, parser.raw[parser.at..], parser.at, slots)
  }

  lemma ValueReadable(id: nat, below: Stack<Parse>, s: bytes, at: nat, slots: seq<Slot>)
    requires Built(Push(PValue(id), below), s, at, slots).Some?
    ensures id < |slots| && ExtraLen(s, HuJson).Some?
    ensures var b := ExtraLen(s, HuJson).value;
            b < |s| && (s[b] == OPEN_BRACE || s[b] == OPEN_BRACKET || ScalarLen(s[b..]).Some?)
  {
    hide ExtraLen, ScalarLen, ReadItems, NodeSlots, NodeLen;
    assert ReadNode(s, HuJson).Some?;
    assert ReadBody(s[ExtraLen(s, HuJson).value..], HuJson).Some?;
  }

  method ParseValue(parser: Parser, id: nat, below: Stack<Parse>, slots: seq<Slot>)
    returns (tasks: Stack<Parse>, r: seq<Slot>)
    requires Parsing(parser, Push(PValue(id), below), slots)
    modifies parser
    ensures Parsing(parser, tasks, r) && parser.at > old(parser.at)
    ensures Pending(parser, tasks, r) == old(Pending(parser, Push(PValue(id), below), slots))
  {
    hide ExtraLen, ScalarLen, BlankRange, Built, Muted, QuietSpan;
    ghost var out0 := parser.out;
    var before := parser.at;
    ghost var s := parser.raw[before..];
    ValueReadable(id, below, s, before, slots);
    var ok := parser.Extra();
    assert ok;
    QuietLater(parser.raw, out0, before, parser.at, slots);
    var start := parser.at;
    ghost var b := start - before;
    var slot := slots[id].(before := Span(before, start));
    var kind := parser.raw[start];
    assert kind == s[b] && s[b..] == parser.raw[start..];
    tasks := Push(PFinish(id), below);
    if kind == OPEN_BRACE || kind == OPEN_BRACKET {
      OpenStep(id, below, s, before, slots, b);
      assert s[b + 1..] == parser.raw[start + 1..];
      parser.at := parser.at + 1;
      r := slots[id := slot.(kind := Container(kind == OPEN_BRACE, [], Span(0, 0)))];
      tasks := Push(PNext(id), tasks);
      assert QuietSpan(parser.out, Span(0, 0)) by { EmptyQuiet(parser.out, 0); }
    } else {
      ok := parser.Literal(start, kind == QUOTE);
      assert ok;
      ScalarStep(id, below, s, before, slots, b, parser.at - start);
      assert s[b + (parser.at - start)..] == parser.raw[parser.at..];
      r := slots[id := slot.(kind := Literal(Span(start, parser.at)))];
    }
  }

  lemma EmptyQuiet(out: bytes, at: nat)
    requires at <= |out|
    ensures QuietSpan(out, Span(at, at))
  {
  }

  method ParseFinish(parser: Parser, id: nat, below: Stack<Parse>, slots: seq<Slot>) returns (r: seq<Slot>)
    requires Parsing(parser, Push(PFinish(id), below), slots)
    modifies parser
    ensures Parsing(parser, below, r) && parser.at >= old(parser.at)
    ensures Pending(parser, below, r) == old(Pending(parser, Push(PFinish(id), below), slots))
  {
    hide ExtraLen, BlankRange, Muted, QuietSpan;
    ghost var out0 := parser.out;
    var start := parser.at;
    ghost var s := parser.raw[start..];
    assert ExtraLen(s, HuJson).Some? && id < |slots|;
    var ok := parser.Extra();
    assert ok;
    QuietLater(parser.raw, out0, start, parser.at, slots);
    assert s[parser.at - start..] == parser.raw[parser.at..];
    r := SetAfter(slots, id, if start < parser.at then Some(Span(start, parser.at)) else None);
  }

  lemma NextReadable(id: nat, below: Stack<Parse>, s: bytes, at: nat, slots: seq<Slot>)
    requires Built(Push(PNext(id), below), s, at, slots).Some?
    ensures IsContainer(slots, id) && ExtraLen(s, HuJson).Some?
  {
    hide ExtraLen, ReadItem, ItemsLen, Filled;
  }

  method ParseNext(parser: Parser, id: nat, below: Stack<Parse>, slots: seq<Slot>)
    returns (tasks: Stack<Parse>, r: seq<Slot>)
    requires Parsing(parser, Push(PNext(id), below), slots)
    modifies parser
    ensures Parsing(parser, tasks, r)
    ensures parser.at > old(parser.at) || (parser.at == old(parser.at) && Load(tasks) < Load(Push(PNext(id), below)))
    ensures Pending(parser, tasks, r) == old(Pending(parser, Push(PNext(id), below), slots))
  {
    hide ExtraLen, BlankRange, Built, Muted, QuietSpan, IsContainer;
    ghost var out0 := parser.out;
    var before := parser.at;
    ghost var s := parser.raw[before..];
    NextReadable(id, below, s, before, slots);
    var ok := parser.Extra();
    assert ok;
    QuietLater(parser.raw, out0, before, parser.at, slots);
    ghost var e := parser.at - before;
    assert e < |s| ==> s[e] == parser.raw[parser.at];
    var obj := ObjOf(slots, id);
    if parser.at < |parser.raw| && parser.raw[parser.at] == Closer(obj) {
      ClosesStep(id, below, s, before, slots, e);
      assert s[e + 1..] == parser.raw[parser.at + 1..];
      assert s[..e] == parser.raw[before..parser.at];
      r := CloseContainer(slots, id, before, parser.at, parser.out, s[..e]);
      parser.at := parser.at + 1;
      tasks := below;
    } else {
      parser.at := before;
      if obj {
        MemberStep(id, below, s, before, slots, e);
        var name, value := |slots|, |slots| + 1;
        r := AddChild(slots, id, Child(Some(name), value), 2, parser.out);
        tasks := Push(PValue(name), Push(PColon, Push(PValue(value), Push(PAfter(id, value), below))));
        assert Load(Push(PValue(value), Push(PAfter(id, value), below))) == 2 + Load(below);
      } else {
        ElementStep(id, below, s, before, slots, e);
        var value := |slots|;
        r := AddChild(slots, id, Child(None, value), 1, parser.out);
        tasks := Push(PValue(value), Push(PAfter(id, value), below));
      }
    }
  }

  function ObjOf(slots: seq<Slot>, id: nat): (obj: bool)
    requires IsContainer(slots, id)
    ensures obj == slots[id].kind.obj
  {
    slots[id].kind.obj
  }

  method AddChild(slots: seq<Slot>, id: nat, child: Child, count: nat, ghost out: bytes) returns (r: seq<Slot>)
    requires IsContainer(slots, id) && Quiet(out, slots) && 1 <= count <= 2
    ensures r ==
            SetContainer(slots, id, [child], slots[id].kind.after) + (if count == 2 then [FRESH, FRESH] else [FRESH])
    ensures Quiet(out, r)
  {
    var kind := slots[id].kind;
    r := slots[id := slots[id].(kind := kind.(children := kind.children + [child]))];
    r := r + (if count == 2 then [FRESH, FRESH] else [FRESH]);
  }

  method CloseContainer(slots: seq<Slot>, id: nat, before: nat, at: nat, ghost out: bytes, ghost extra: bytes)
    returns (r: seq<Slot>)
    requires IsContainer(slots, id) && Quiet(out, slots) && before <= at <= |out| && QuietSpan(out, Span(before, at))
    requires |extra| == at - before
    ensures r == Filled(slots, id, Close(extra), before) && Quiet(out, r)
  {
    hide QuietSpan;
    var kind := slots[id].kind;
    var children := kind.children;
    r := slots;
    EmptyQuiet(out, at);
    assert ItemIds(Close(extra), |slots|) == [];
    if children != [] {
      var last := children[|children| - 1].value;
      r := SetAfter(r, last, GetOrInsert(r[last].after, Span(at, at)));
    }
    assert children + [] == children;
    r := r[id := r[id].(kind := kind.(after := Span(before, at)))];
  }

  ghost function Load(tasks: Stack<Parse>): nat {
    if tasks.Empty? then 0 else (if tasks.top.PNext? then 5 else 1) + Load(tasks.below)
  }

  method ParseAfter(parser: Parser, id: nat, value: nat, below: Stack<Parse>, slots: seq<Slot>)
    returns (tasks: Stack<Parse>, r: seq<Slot>)
    requires Parsing(parser, Push(PAfter(id, value), below), slots)
    modifies parser`at
    ensures Parsing(parser, tasks, r) && parser.at > old(parser.at)
    ensures Pending(parser, tasks, r) == old(Pending(parser, Push(PAfter(id, value), below), slots))
  {
    hide ReadItems, ItemsLen, QuietSpan, Muted, Filled, BlankRange;
    ghost var s := parser.raw[parser.at..];
    assert IsContainer(slots, id) && value < |slots| && ReadAfter(s, slots[id].kind.obj, HuJson).Some?;
    assert s[1..] == parser.raw[parser.at + 1..];
    if parser.raw[parser.at] == COMMA {
      AfterCommaStep(id, value, below, s, parser.at, slots);
      r := slots;
      tasks := Push(PNext(id), below);
    } else {
      var extra := if slots[value].after.None? then Span(parser.at, parser.at) else slots[value].after.value;
      EmptyQuiet(parser.out, parser.at);
      r := SetContainer(SetAfter(slots, value, None), id, [], extra);
      tasks := below;
    }
    parser.at := parser.at + 1;
  }

  /** Parse an accepted text into its arena. */
  method BuildArena(parser: Parser, ghost n: Node) returns (slots: seq<Slot>)
    requires parser.Valid() && parser.at == 0 && Muted(parser.raw, parser.out)
    requires ReadDocument(parser.raw, HuJson) == Some(n)
    modifies parser
    ensures parser.Valid() && Muted(parser.raw, parser.out)
    ensures slots == NodeSlots(n, 0, 0, OwnAfter(n, 0)) && Quiet(parser.out, slots)
  {
    hide Muted, QuietSpan, Built;
    slots := [FRESH];
    var tasks: Stack<Parse> := Push(PValue(0), Empty);
    EmptyQuiet(parser.out, 0);
    ArenaStart(parser.raw, n);
    while tasks.Push?
      invariant Parsing(parser, tasks, slots)
      invariant Pending(parser, tasks, slots) == Some(NodeSlots(n, 0, 0, OwnAfter(n, 0)))
      decreases |parser.raw| - parser.at, Load(tasks)
    {
      var task, below := tasks.top, tasks.below;
      match task {
        case PValue(id) => tasks, slots := ParseValue(parser, id, below, slots);
        case PFinish(id) => slots := ParseFinish(parser, id, below, slots); tasks := below;
        case PNext(id) => tasks, slots := ParseNext(parser, id, below, slots);
        case PColon =>
          ColonReadable(below, parser.raw, parser.at, slots);
          parser.at := parser.at + 1;
          tasks := below;
        case PAfter(id, value) => tasks, slots := ParseAfter(parser, id, value, below, slots);
      }
    }
    ArenaDone(parser.raw, parser.at, slots);
  }

  lemma ArenaStart(raw: bytes, n: Node)
    requires ReadDocument(raw, HuJson) == Some(n)
    ensures Built(Push(PValue(0), Empty), raw[0..], 0, [FRESH]) == Some(NodeSlots(n, 0, 0, OwnAfter(n, 0)))
  {
    hide ReadNode, NodeSlots;
    assert raw[0..] == raw;
    BuiltValue(0, Empty, raw, 0, [FRESH], n, []);
    var slots := NodeSlots(n, 0, 0, OwnAfter(n, 0));
    assert Placed([FRESH], 0, slots) == slots;
  }

  lemma ColonReadable(below: Stack<Parse>, raw: bytes, at: nat, slots: seq<Slot>)
    requires at <= |raw| && Built(Push(PColon, below), raw[at..], at, slots).Some?
    ensures at < |raw| && Built(below, raw[at + 1..], at + 1, slots) == Built(Push(PColon, below), raw[at..], at, slots)
  {
    assert at < |raw| ==> raw[at..][1..] == raw[at + 1..];
  }

  lemma ArenaDone(raw: bytes, at: nat, slots: seq<Slot>)
    requires at <= |raw| && Built(Empty, raw[at..], at, slots).Some?
    ensures at == |raw| && Built(Empty, raw[at..], at, slots) == Some(slots)
  {
  }
}
