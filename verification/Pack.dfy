/** Printing the arena without its metadata members. */
module Pack {
  import opened Bytes
  import opened Wrappers
  import opened Lexemes
  import opened Syntax
  import opened Stacks
  import opened Arena
  import opened Metadata
  import opened UnquoteLoop

  /** The arena, the raw text for literals and the standardized text for extras. */
  datatype Source = Source(slots: seq<Slot>, raw: bytes, std: bytes)

  function Cut(s: bytes, span: Span): bytes {
    if span.lo <= span.hi <= |s| then s[span.lo..span.hi] else []
  }

  /** A surviving child, and whether metadata is removed below it. */
  datatype Survivor = Survivor(child: Child, strip: bool)

  function NameText(c: Source, child: Child): bytes {
    if child.name.Some? && child.name.value < |c.slots| && c.slots[child.name.value].kind.Literal?
    then Cut(c.raw, c.slots[child.name.value].kind.span) else []
  }

  /** A member's name, decoded. */
  function NameOf(c: Source, child: Child): Option<seq<nat>> {
    UnquoteText(NameText(c, child))
  }

  /** An element has no name to decode. */
  predicate Readable(c: Source, child: Child) {
    child.name.Some? ==> NameOf(c, child).Some?
  }

  predicate AllReadable(c: Source, children: seq<Child>) {
    forall i :: 0 <= i < |children| ==> Readable(c, children[i])
  }

  predicate Drops(c: Source, child: Child, strip: bool) {
    strip && child.name.Some? && IsHash(NameOf(c, child))
  }

  predicate Enters(c: Source, child: Child, strip: bool) {
    strip && !(child.name.Some? && NameOf(c, child) == Some(APP))
  }

  function Survivors(c: Source, children: seq<Child>, strip: bool): seq<Survivor> {
    if children == [] then []
    else
      var rest := Survivors(c, children[1..], strip);
      if Drops(c, children[0], strip) then rest else [Survivor(children[0], Enters(c, children[0], strip))] + rest
  }

  function HasAfter(c: Source, id: nat): bool {
    id < |c.slots| && c.slots[id].after.Some?
  }

  /** The blank left where a comma used to separate the last survivor from something removed. */
  function CommaBlank(c: Source, kept: seq<Survivor>): bytes {
    if kept != [] && HasAfter(c, kept[|kept| - 1].child.value) then [SPACE] else []
  }

  function AfterBytes(c: Source, id: nat): bytes {
    if HasAfter(c, id) then Cut(c.std, c.slots[id].after.value) else []
  }

  // ----- the recursive reading of the arena: the text of a slot, followed by `r` -----

  ghost function SlotText(c: Source, id: nat, strip: bool, r: bytes): bytes
    decreases |c.slots| - id, 2
  {
    if id >= |c.slots| then r
    else Cut(c.std, c.slots[id].before) + KindText(c, id, strip, AfterBytes(c, id) + r)
  }

  ghost function KindText(c: Source, id: nat, strip: bool, r: bytes): bytes
    requires id < |c.slots|
    decreases |c.slots| - id, 1
  {
    match c.slots[id].kind
    case Pending => r
    case Literal(span) => Cut(c.raw, span) + r
    case Container(obj, children, after) =>
      var kept := Survivors(c, children, strip);
      [Opener(obj)] + KeptText(c, id, kept, CommaBlank(c, kept) + (Cut(c.std, after) + ([Closer(obj)] + r)))
  }

  ghost function KeptText(c: Source, id: nat, kept: seq<Survivor>, r: bytes): bytes
    decreases |c.slots| - id, 0, |kept|
  {
    if kept == [] then r
    else ChildText(c, id, kept[0], (if |kept| == 1 then [] else [COMMA]) + KeptText(c, id, kept[1..], r))
  }

  /** A child lies after its parent in the arena. */
  predicate Below(c: Source, id: nat, child: Child) {
    id < child.value < |c.slots| && (child.name.Some? ==> id < child.name.value < |c.slots|)
  }

  ghost function ChildText(c: Source, id: nat, kept: Survivor, r: bytes): bytes
    decreases |c.slots| - id, 0, 0
  {
    var child := kept.child;
    if !Below(c, id, child) then r
    else if child.name.None? then SlotText(c, child.value, kept.strip, r)
    else SlotText(c, child.name.value, false, [COLON] + SlotText(c, child.value, kept.strip, r))
  }

  // ----- the printing machine -----

  datatype Task =
    | Value(id: nat, strip: bool)
    | Extra(span: Span)
    | Byte(b: byte)

  /** What a task stack will append to the output. */
  ghost function Emitted(c: Source, tasks: Stack<Task>): bytes {
    match tasks
    case Empty => []
    case Push(Value(id, strip), below) => SlotText(c, id, strip, Emitted(c, below))
    case Push(Extra(span), below) => Cut(c.std, span) + Emitted(c, below)
    case Push(Byte(b), below) => [b] + Emitted(c, below)
  }

  /** The number of steps a slot takes. */
  ghost function SlotCost(c: Source, id: nat): nat
    decreases |c.slots| - id, 1
  {
    if id < |c.slots| && c.slots[id].kind.Container? then 5 + ChildrenCost(c, id, c.slots[id].kind.children) else 5
  }

  ghost function ChildrenCost(c: Source, id: nat, children: seq<Child>): nat
    decreases |c.slots| - id, 0, |children|
  {
    if children == [] then 0 else ChildCost(c, id, children[0]) + ChildrenCost(c, id, children[1..])
  }

  ghost function ChildCost(c: Source, id: nat, child: Child): nat
    decreases |c.slots| - id, 0, 0
  {
    if !Below(c, id, child) then 0
    else SlotCost(c, child.value) + (if child.name.Some? then SlotCost(c, child.name.value) + 1 else 0) + 1
  }

  ghost function Cost(c: Source, tasks: Stack<Task>): nat {
    match tasks
    case Empty => 0
    case Push(Value(id, _), below) => SlotCost(c, id) + Cost(c, below)
    case Push(_, below) => 1 + Cost(c, below)
  }

  /** Every child lies after its parent. */
  ghost predicate Ordered(c: Source) {
    forall id, i :: 0 <= id < |c.slots| && c.slots[id].kind.Container? && 0 <= i < |c.slots[id].kind.children| ==>
      Below(c, id, c.slots[id].kind.children[i])
  }

  /** Every name decodes. */
  ghost predicate Named(c: Source) {
    forall id :: 0 <= id < |c.slots| && c.slots[id].kind.Container? ==> AllReadable(c, c.slots[id].kind.children)
  }

  ghost function KeptCost(c: Source, id: nat, kept: seq<Survivor>): nat {
    if kept == [] then 0 else ChildCost(c, id, kept[0].child) + KeptCost(c, id, kept[1..])
  }

  lemma {:induction false} SurvivorsBelow(c: Source, id: nat, children: seq<Child>, strip: bool)
    requires forall i :: 0 <= i < |children| ==> Below(c, id, children[i])
    ensures forall i ::
            0 <= i < |Survivors(c, children, strip)| ==> Below(c, id, Survivors(c, children, strip)[i].child)
    ensures KeptCost(c, id, Survivors(c, children, strip)) <= ChildrenCost(c, id, children)
  {
    hide Drops, Enters, ChildCost;
    if children != [] {
      SurvivorsBelow(c, id, children[1..], strip);
      var rest := Survivors(c, children[1..], strip);
      var kept := [Survivor(children[0], Enters(c, children[0], strip))] + rest;
      assert kept[1..] == rest;
    }
  }

  /**
   Collect the children that survive, with the decision to strip below each; where metadata is
   removed, nothing if a name does not decode.
   */
  method Keep(c: Source, children: seq<Child>, strip: bool) returns (r: Option<seq<Survivor>>)
    ensures r == if strip && !AllReadable(c, children) then None else Some(Survivors(c, children, strip))
  {
    hide Readable, AllReadable, Drops, Enters, Survivors;
    AllRead(c, children, 0);
    var kept: seq<Survivor> := [];
    var i := 0;
    assert children[0..] == children;
    while i < |children|
      invariant 0 <= i <= |children|
      invariant strip ==> AllReadable(c, children[..i])
      invariant kept + Survivors(c, children[i..], strip) == Survivors(c, children, strip)
    {
      var child := children[i];
      SurvivorsStep(c, children, i, strip, kept);
      AllRead(c, children, i);
      var verdict := Judge(c, child, strip);
      if verdict.Unreadable? { return None; }
      if verdict.Stays? {
        kept := kept + [Survivor(child, verdict.enter)];
      }
      i := i + 1;
    }
    assert children[..i] == children;
    SurvivorsNone(c, children[i..], strip, kept);
    return Some(kept);
  }

  lemma AllRead(c: Source, children: seq<Child>, i: nat)
    requires i <= |children|
    ensures i == 0 ==> AllReadable(c, children[..i])
    ensures i < |children| ==>
              (AllReadable(c, children[..i + 1]) <==> AllReadable(c, children[..i]) && Readable(c, children[i]))
    ensures i < |children| && !Readable(c, children[i]) ==> !AllReadable(c, children)
  {
    hide Readable;
    if i < |children| {
      assert children[..i + 1] == children[..i] + [children[i]];
    }
  }

  lemma SurvivorsNone(c: Source, children: seq<Child>, strip: bool, kept: seq<Survivor>)
    requires children == []
    ensures kept + Survivors(c, children, strip) == kept
  {
  }

  lemma SurvivorsStep(c: Source, children: seq<Child>, i: nat, strip: bool, kept: seq<Survivor>)
    requires i < |children|
    ensures var child, rest := children[i], Survivors(c, children[i + 1..], strip);
            kept + Survivors(c, children[i..], strip) ==
            if Drops(c, child, strip) then kept + rest else (kept + [Survivor(child, Enters(c, child, strip))]) + rest
  {
    hide Drops, Enters;
    assert children[i..][0] == children[i] && children[i..][1..] == children[i + 1..];
    var one, rest := [Survivor(children[i], Enters(c, children[i], strip))], Survivors(c, children[i + 1..], strip);
    assert kept + (one + rest) == (kept + one) + rest;
  }

  /** What becomes of a child: its name does not decode, it is dropped, or it stays. */
  datatype Verdict = Unreadable | Goes | Stays(enter: bool)

  method Judge(c: Source, child: Child, strip: bool) returns (verdict: Verdict)
    ensures verdict == if strip && !Readable(c, child) then Unreadable
                       else if Drops(c, child, strip) then Goes
                       else Stays(Enters(c, child, strip))
  {
    hide UnquoteText, StringTail, NameText;
    if !strip { return Stays(false); }
    if child.name.None? { return Stays(true); }
    var name := UnquoteString(NameText(c, child));
    if name.None? { return Unreadable; }
    if name.value != [] && name.value[0] == 0x23 { return Goes; }
    return Stays(name.value != APP);
  }

  /** The tasks that print one survivor. */
  function ChildTasks(kept: Survivor, comma: bool, tasks: Stack<Task>): Stack<Task> {
    var rest := if comma then Push(Byte(COMMA), tasks) else tasks;
    var value := Push(Value(kept.child.value, kept.strip), rest);
    if kept.child.name.None? then value else Push(Value(kept.child.name.value, false), Push(Byte(COLON), value))
  }

  lemma ChildTasksText(c: Source, id: nat, kept: Survivor, comma: bool, tasks: Stack<Task>)
    requires Below(c, id, kept.child)
    ensures Emitted(c, ChildTasks(kept, comma, tasks)) ==
            ChildText(c, id, kept, (if comma then [COMMA] else []) + Emitted(c, tasks))
    ensures Cost(c, ChildTasks(kept, comma, tasks)) <= Cost(c, tasks) + ChildCost(c, id, kept.child)
  {
    hide SlotText, SlotCost;
    var rest := if comma then Push(Byte(COMMA), tasks) else tasks;
    assert [] + Emitted(c, tasks) == Emitted(c, tasks);
    assert Emitted(c, rest) == (if comma then [COMMA] else []) + Emitted(c, tasks);
    var value := Push(Value(kept.child.value, kept.strip), rest);
    assert Emitted(c, value) == SlotText(c, kept.child.value, kept.strip, Emitted(c, rest));
    assert Cost(c, value) == SlotCost(c, kept.child.value) + Cost(c, rest);
    if kept.child.name.Some? {
      assert Emitted(c, Push(Byte(COLON), value)) == [COLON] + Emitted(c, value);
      assert Cost(c, Push(Byte(COLON), value)) == 1 + Cost(c, value);
    }
  }

  /** Push the tasks that print the survivors, in front of those that close the container. */
  method PushKept(c: Source, id: nat, kept: seq<Survivor>, closing: Stack<Task>) returns (tasks: Stack<Task>)
    requires forall i :: 0 <= i < |kept| ==> Below(c, id, kept[i].child)
    ensures Emitted(c, tasks) == KeptText(c, id, kept, Emitted(c, closing))
    ensures Cost(c, tasks) <= Cost(c, closing) + KeptCost(c, id, kept)
  {
    hide ChildText, ChildCost, Cost, Emitted, ChildTasks;
    tasks := closing;
    var i := |kept|;
    while i > 0
      invariant 0 <= i <= |kept|
      invariant Emitted(c, tasks) == KeptText(c, id, kept[i..], Emitted(c, closing))
      invariant Cost(c, tasks) <= Cost(c, closing) + KeptCost(c, id, kept[i..])
    {
      i := i - 1;
      assert kept[i..][0] == kept[i] && kept[i..][1..] == kept[i + 1..];
      ChildTasksText(c, id, kept[i], i + 1 < |kept|, tasks);
      tasks := ChildTasks(kept[i], i + 1 < |kept|, tasks);
    }
    assert kept[0..] == kept;
  }

  method Print(c: Source) returns (r: Option<bytes>)
    requires Ordered(c)
    ensures r.Some? ==> r.value == SlotText(c, 0, true, [])
    ensures Named(c) ==> r.Some?
  {
    hide Emitted, Cost, SlotText, Cut, Named;
    var out: bytes := [];
    var tasks: Stack<Task> := Push(Value(0, true), Empty);
    EmittedTask(c, Value(0, true), Empty);
    EmittedNone(c, SlotText(c, 0, true, []));
    while tasks.Push?
      invariant out + Emitted(c, tasks) == SlotText(c, 0, true, [])
      decreases Cost(c, tasks)
    {
      var task, below := tasks.top, tasks.below;
      ghost var before := out;
      EmittedTask(c, task, below);
      var text: bytes;
      match task {
        case Extra(span) => text, tasks := Cut(c.std, span), below;
        case Byte(b) => text, tasks := [b], below;
        case Value(id, strip) =>
          var ok: bool;
          ok, text, tasks := PrintSlot(c, id, strip, below);
          if !ok { return None; }
      }
      out := out + text;
      Regroup(before, text, Emitted(c, tasks));
    }
    EmittedNone(c, out);
    return Some(out);
  }

  lemma EmittedNone(c: Source, out: bytes)
    ensures Emitted(c, Empty) == [] && out + [] == out && [] + out == out
  {
  }

  lemma EmittedTask(c: Source, task: Task, below: Stack<Task>)
    ensures task.Extra? ==> Emitted(c, Push(task, below)) == Cut(c.std, task.span) + Emitted(c, below)
    ensures task.Byte? ==> Emitted(c, Push(task, below)) == [task.b] + Emitted(c, below)
    ensures task.Value? ==> Emitted(c, Push(task, below)) == SlotText(c, task.id, task.strip, Emitted(c, below))
    ensures if task.Value? then Cost(c, Push(task, below)) == SlotCost(c, task.id) + Cost(c, below)
            else Cost(c, below) < Cost(c, Push(task, below))
  {
    hide SlotText, Cut;
  }

  /** The tasks that close a container, under those of its children. */
  function ClosingTasks(c: Source, obj: bool, kept: seq<Survivor>, after: Span, tasks: Stack<Task>): Stack<Task> {
    var close := Push(Extra(after), Push(Byte(Closer(obj)), tasks));
    if kept != [] && HasAfter(c, kept[|kept| - 1].child.value) then Push(Byte(SPACE), close) else close
  }

  lemma ClosingText(c: Source, obj: bool, kept: seq<Survivor>, after: Span, tasks: Stack<Task>)
    ensures Emitted(c, ClosingTasks(c, obj, kept, after, tasks)) ==
            CommaBlank(c, kept) + (Cut(c.std, after) + ([Closer(obj)] + Emitted(c, tasks)))
    ensures Cost(c, ClosingTasks(c, obj, kept, after, tasks)) <= 3 + Cost(c, tasks)
  {
    var close := Push(Byte(Closer(obj)), tasks);
    assert Emitted(c, close) == [Closer(obj)] + Emitted(c, tasks);
    var text := Emitted(c, Push(Extra(after), close));
    assert text == Cut(c.std, after) + Emitted(c, close);
    assert [] + text == text;
    assert Cost(c, close) == 1 + Cost(c, tasks) && Cost(c, Push(Extra(after), close)) == 2 + Cost(c, tasks);
  }

  /** Print an opening bracket and schedule the rest of the container, unless a name does not decode. */
  method PrintContainer(c: Source, id: nat, strip: bool, below: Stack<Task>)
    returns (ok: bool, out: bytes, tasks: Stack<Task>)
    requires Ordered(c) && id < |c.slots| && c.slots[id].kind.Container?
    ensures ok == (strip ==> AllReadable(c, c.slots[id].kind.children))
    ensures ok ==> out + Emitted(c, tasks) == KindText(c, id, strip, Emitted(c, below))
    ensures ok ==> Cost(c, tasks) + 1 < SlotCost(c, id) + Cost(c, below)
  {
    hide KeptText, Survivors, ClosingTasks, ChildrenCost, Emitted, Cost, KeptCost, CommaBlank, AllReadable;
    var Container(obj, children, after) := c.slots[id].kind;
    var survivors := Keep(c, children, strip);
    if survivors.None? { return false, [], below; }
    ok := true;
    var kept := survivors.value;
    SurvivorsBelow(c, id, children, strip);
    out := [Opener(obj)];
    ClosingText(c, obj, kept, after, below);
    tasks := ClosingTasks(c, obj, kept, after, below);
    tasks := PushKept(c, id, kept, tasks);
  }

  method PrintSlot(c: Source, id: nat, strip: bool, below: Stack<Task>)
    returns (ok: bool, out: bytes, tasks: Stack<Task>)
    requires Ordered(c)
    ensures Named(c) ==> ok
    ensures ok ==> out + Emitted(c, tasks) == SlotText(c, id, strip, Emitted(c, below))
    ensures ok ==> Cost(c, tasks) < SlotCost(c, id) + Cost(c, below)
  {
    hide KindText, SlotCost, Emitted, Cost, Cut, AllReadable;
    CostPositive(c, id);
    assert [] + Emitted(c, below) == Emitted(c, below);
    if id >= |c.slots| { return true, [], below; }
    var slot := c.slots[id];
    tasks := if slot.after.Some? then Push(Extra(slot.after.value), below) else below;
    AfterTask(c, id, below);
    ghost var r := Emitted(c, tasks);
    ok, out := true, [];
    match slot.kind {
      case Pending =>
        assert KindText(c, id, strip, r) == [] + r by { ScalarText(c, id, strip, r); }
      case Literal(span) =>
        out := Cut(c.raw, span);
        ScalarText(c, id, strip, r);
      case Container(_, _, _) =>
        ok, out, tasks := PrintContainer(c, id, strip, tasks);
        if !ok { return; }
    }
    Regroup(Cut(c.std, slot.before), out, Emitted(c, tasks));
    out := Cut(c.std, slot.before) + out;
  }

  lemma AfterTask(c: Source, id: nat, below: Stack<Task>)
    requires id < |c.slots|
    ensures var after := c.slots[id].after;
            var tasks := if after.Some? then Push(Extra(after.value), below) else below;
            Emitted(c, tasks) == AfterBytes(c, id) + Emitted(c, below) && Cost(c, tasks) <= 1 + Cost(c, below)
  {
    assert [] + Emitted(c, below) == Emitted(c, below);
  }

  lemma CostPositive(c: Source, id: nat)
    ensures SlotCost(c, id) >= 5
  {
  }

  lemma ScalarText(c: Source, id: nat, strip: bool, r: bytes)
    requires id < |c.slots|
    ensures c.slots[id].kind.Pending? ==> KindText(c, id, strip, r) == r == [] + r
    ensures c.slots[id].kind.Literal? ==> KindText(c, id, strip, r) == Cut(c.raw, c.slots[id].kind.span) + r
  {
  }
}
