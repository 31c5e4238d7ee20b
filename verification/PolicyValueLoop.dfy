/** Building a value from a validated text with one loop: a cursor, and a stack of unfinished containers. */
module PolicyValueLoop {
  import opened Bytes
  import opened Wrappers
  import opened Stacks
  import opened Lexemes
  import opened Syntax
  import opened Reader
  import opened Trees
  import opened Standard
  import opened Literals
  import opened Cursors
  import opened JsonScanner
  import opened JsonEntries
  import opened PolicyValue

  datatype Frame =
    | ArrayFrame(values: seq<Value>)
    | ObjectFrame(members: map<Name, Value>, key: Option<Name>)

  /** Add a finished value; an object needs the name read before it. */
  function Append(f: Frame, v: Value): Option<Frame> {
    match f
    case ArrayFrame(values) => Some(ArrayFrame(values + [v]))
    case ObjectFrame(members, key) => if key.None? then None else Some(ObjectFrame(members[key.value := v], None))
  }

  function Finish(f: Frame): Value {
    match f
    case ArrayFrame(values) => Array(values)
    case ObjectFrame(members, _) => Object(members)
  }

  function Named(f: Frame, token: bytes, m: Mode, d: Decoders): Option<Frame> {
    if f.ArrayFrame? then Some(f)
    else
      var name :- DecodeString(token, m, d);
      if m.UniqueNames() && name in f.members then None else Some(ObjectFrame(f.members, Some(name)))
  }

  // ----- finishing a container entry by entry is what the recursive definition does -----

  function Fill(f: Frame, entries: seq<Entry>, m: Mode, d: Decoders): Option<Value>
    decreases |entries|
  {
    if entries == [] then Some(Finish(f))
    else
      var named :- Named(f, entries[0].name, m, d);
      var value :- ValueOf(entries[0].value, m, d);
      var next :- Append(named, value);
      Fill(next, entries[1..], m, d)
  }

  lemma {:induction false} FillArray(values: seq<Value>, entries: seq<Entry>, m: Mode, d: Decoders)
    ensures var rest := ElementValues(entries, m, d);
            Fill(ArrayFrame(values), entries, m, d) == if rest.None? then None else Some(Array(values + rest.value))
    decreases |entries|
  {
    hide ValueOf;
    if entries == [] {
      assert values + [] == values;
    } else {
      var value := ValueOf(entries[0].value, m, d);
      if value.Some? {
        FillArray(values + [value.value], entries[1..], m, d);
        var rest := ElementValues(entries[1..], m, d);
        if rest.Some? {
          assert values + [value.value] + rest.value == values + ([value.value] + rest.value);
        }
      }
    }
  }

  /** No later member takes a name that is already there. */
  predicate Unused(base: map<Name, Value>, members: seq<(Name, Value)>) {
    forall i :: 0 <= i < |members| ==> members[i].0 !in base
  }

  lemma {:induction false} FillObject(base: map<Name, Value>, entries: seq<Entry>, m: Mode, d: Decoders)
    ensures var rest := MemberValues(entries, m, d);
            Fill(ObjectFrame(base, None), entries, m, d) ==
            if rest.None? || (m.UniqueNames() && !(DistinctNames(rest.value) && Unused(base, rest.value))) then None
            else Some(Object(base + LastWins(rest.value)))
    decreases |entries|
  {
    hide ValueOf, DistinctNames, Unused, LastWins;
    if entries == [] {
      NoMembers(base);
    } else {
      var name, value := DecodeString(entries[0].name, m, d), ValueOf(entries[0].value, m, d);
      if name.Some? && value.Some? {
        FillObject(base[name.value := value.value], entries[1..], m, d);
        var rest := MemberValues(entries[1..], m, d);
        if rest.Some? {
          OneMember(base, name.value, value.value, rest.value);
        }
      }
    }
  }

  lemma NoMembers(base: map<Name, Value>)
    ensures DistinctNames([]) && Unused(base, []) && base + LastWins([]) == base
  {
  }

  lemma OneMember(base: map<Name, Value>, name: Name, value: Value, rest: seq<(Name, Value)>)
    ensures var all := [(name, value)] + rest;
            && base[name := value] + LastWins(rest) == base + LastWins(all)
            && (DistinctNames(all) && Unused(base, all) <==>
                name !in base && DistinctNames(rest) && Unused(base[name := value], rest))
  {
    var all := [(name, value)] + rest;
    assert all[1..] == rest;
    assert forall i :: 0 <= i < |rest| ==> all[i + 1] == rest[i];
    if DistinctNames(all) && Unused(base, all) {
      assert all[0].0 == name;
      forall i | 0 <= i < |rest| ensures rest[i].0 !in base[name := value] {
        assert all[0].0 != all[i + 1].0;
      }
      forall i, j | 0 <= i < j < |rest| ensures rest[i].0 != rest[j].0 {
        assert all[i + 1].0 != all[j + 1].0;
      }
    }
  }

  function NewFrame(obj: bool): Frame {
    if obj then ObjectFrame(map[], None) else ArrayFrame([])
  }

  /** An empty frame filled with every entry is the container's value. */
  lemma FillAll(obj: bool, entries: seq<Entry>, m: Mode, d: Decoders)
    ensures Fill(NewFrame(obj), entries, m, d) == ValueOf(Composite(obj, entries), m, d)
  {
    hide Fill, LastWins, DistinctNames, MemberValues, ElementValues;
    if obj {
      FillObject(map[], entries, m, d);
      var rest := MemberValues(entries, m, d);
      if rest.Some? {
        assert map[] + LastWins(rest.value) == LastWins(rest.value);
      }
    } else {
      FillArray([], entries, m, d);
      var rest := ElementValues(entries, m, d);
      if rest.Some? {
        assert [] + rest.value == rest.value;
      }
    }
  }

  // ----- what is left to read -----

  /** In an open container: everything, the closing bracket alone, or a comma and more items. */
  datatype Todo = Begin(items: Items) | Done | Next(items: Items)

  /** An open container, and the whitespace after it. */
  datatype Pending = Pending(obj: bool, todo: Todo, after: bytes)

  function TodoText(t: Todo, obj: bool, r: bytes): bytes {
    match t
    case Begin(items) => ItemsText(items, obj, r)
    case Done => [Closer(obj)] + r
    case Next(items) => [COMMA] + ItemsText(items, obj, r)
  }

  function TodoEntries(t: Todo): seq<Entry> {
    match t
    case Begin(items) => Entries(items)
    case Done => []
    case Next(items) => Entries(items)
  }

  ghost predicate WfTodo(t: Todo, obj: bool) {
    match t
    case Begin(items) => WfItems(items, obj, Json, true)
    case Done => true
    case Next(items) => WfItems(items, obj, Json, false)
  }

  function Rest(stack: Stack<Pending>): bytes {
    match stack
    case Empty => []
    case Push(p, below) => TodoText(p.todo, p.obj, p.after + Rest(below))
  }

  ghost predicate Fitting(f: Frame, p: Pending) {
    f.ObjectFrame? == p.obj && WfTodo(p.todo, p.obj) && IsExtra(p.after, Json)
  }

  /** Every frame waits for the value being read: an object has its name, and no frame is just opened. */
  ghost predicate Waiting(frames: Stack<Frame>, stack: Stack<Pending>) {
    match frames
    case Empty => stack.Empty?
    case Push(f, below) =>
      && stack.Push? && Fitting(f, stack.top) && !stack.top.todo.Begin? && (f.ObjectFrame? ==> f.key.Some?)
      && Waiting(below, stack.below)
  }

  /** The top frame can close or take an item; the frames below wait. */
  ghost predicate Ready(frames: Stack<Frame>, stack: Stack<Pending>) {
    && frames.Push? && stack.Push? && Fitting(frames.top, stack.top)
       && (frames.top.ObjectFrame? ==> frames.top.key.None?)
    && Waiting(frames.below, stack.below)
  }

  /** The final result when `v` is the value the frames wait for. */
  ghost function Outcome(frames: Stack<Frame>, stack: Stack<Pending>, v: Option<Value>, m: Mode,
                         d: Decoders): Option<Value>
    requires Waiting(frames, stack)
    decreases frames
  {
    match frames
    case Empty => v
    case Push(f, below) =>
      var value :- v;
      var next :- Append(f, value);
      Outcome(below, stack.below, Fill(next, TodoEntries(stack.top.todo), m, d), m, d)
  }

  ghost function ReadyOutcome(frames: Stack<Frame>, stack: Stack<Pending>, m: Mode, d: Decoders): Option<Value>
    requires Ready(frames, stack)
  {
    Outcome(frames.below, stack.below, Fill(frames.top, TodoEntries(stack.top.todo), m, d), m, d)
  }

  lemma FailedOutcome(frames: Stack<Frame>, stack: Stack<Pending>, m: Mode, d: Decoders)
    requires Waiting(frames, stack)
    ensures Outcome(frames, stack, None, m, d) == None
  {
  }

  lemma RestStart(frames: Stack<Frame>, stack: Stack<Pending>)
    requires Waiting(frames, stack)
    ensures var r := Rest(stack); r == [] || r[0] == COMMA || r[0] == CLOSE_BRACE || r[0] == CLOSE_BRACKET
    ensures (Rest(stack) == []) == stack.Empty?
  {
    hide ItemsText;
  }

  // ----- reading a scalar -----

  /** What the cursor meets at a scalar. */
  lemma ScalarInside(n: Node, x: bytes)
    requires n.body.Scalar? && WfNode(n, Json)
             && (x == [] || x[0] == COMMA || x[0] == CLOSE_BRACE || x[0] == CLOSE_BRACKET)
    ensures n.body.text != []
    ensures var u := n.body.text + (n.after + x);
            && u[0] == n.body.text[0] && Skip(u) == u && SpaceLen(u) == 0
            && (u[0] == QUOTE ==> StringTail(u[1..]) == Some(|n.body.text| - 1))
            && BodyRest(u, Some(MAX_DEPTH), 0) == Some(n.after + x)
            && Skip(n.after + x) == x
  {
    hide BodyRest, StringTail, ExtraLen, IsWord, Skip, SpaceLen;
    var t, u := n.body.text, n.body.text + (n.after + x);
    BodyStart(n.body, n.after + x, Json);
    var bare := n.(before := []);
    SpaceIsExtra([], Json);
    ValueInside(bare, x);
    BareText(bare, x);
    InkStays(u);
    if u[0] == QUOTE {
      QuoteIsString(t);
      StringTailExtend(t[1..], n.after + x);
      assert u[1..] == t[1..] + (n.after + x);
    }
  }

  lemma BareText(n: Node, x: bytes)
    requires n.before == [] && n.body.Scalar?
    ensures NodeText(n, x) == n.body.text + (n.after + x) && BodyText(n.body, []) == n.body.text
  {
    var u := n.body.text + (n.after + x);
    assert [] + u == u && n.body.text + [] == n.body.text;
  }

  lemma InkStays(u: bytes)
    requires u != [] && !IsSpace(u[0])
    ensures Skip(u) == u && SpaceLen(u) == 0
  {
  }

  lemma CutAt(text: bytes, from: nat, a: bytes, b: bytes)
    requires from <= |text| && text[from..] == a + b
    ensures from + |a| <= |text| && text[from..from + |a|] == a && text[from + |a|..] == b
  {
    assert text[from..from + |a|] == text[from..][..|a|];
    assert text[from + |a|..] == text[from..][|a|..];
  }

  method ReadScalar(c: Cursor, ghost n: Node, ghost x: bytes, m: Mode, d: Decoders) returns (r: Option<Value>)
    requires c.Valid() && n.body.Scalar? && WfNode(n, Json) && c.Left() == n.body.text + (n.after + x)
    requires x == [] || x[0] == COMMA || x[0] == CLOSE_BRACE || x[0] == CLOSE_BRACKET
    modifies c`at
    ensures c.Valid() && c.at > old(c.at) && r == ScalarValue(n.body.text, m, d)
    ensures Skip(c.Left()) == x
  {
    hide Skip, SpaceLen, StringTail, BodyRest, IsScalar;
    ScalarInside(n, x);
    CutAt(c.text, c.at, n.body.text, n.after + x);
    var from := c.at;
    var ok: bool;
    assert c.text[c.at] == c.Left()[0];
    if c.text[c.at] == QUOTE {
      ok := c.Quoted();
    } else {
      ok, from := ValueWithDepth(c, Some(MAX_DEPTH));
    }
    assert ok;
    r := ScalarValue(c.text[from..c.at], m, d);
  }

  // ----- inside an open container -----

  predicate Closes(t: Todo) {
    t.Done? || (t.Begin? && t.items.Close?)
  }

  /** What is left after the first of `items`. */
  function Follow(items: Items): Todo
    requires !items.Close?
  {
    if items.Last? then Done else Next(items.rest)
  }

  lemma TodoStart(t: Todo, obj: bool, r: bytes)
    requires WfTodo(t, obj)
    ensures Closes(t) ==> Skip(TodoText(t, obj, r)) == [Closer(obj)] + r
    ensures !Closes(t) ==>
              && !t.items.Close? && WfItem(t.items.item, obj, Json) && WfTodo(Follow(t.items), obj)
              && var rest := ItemText(t.items.item, TodoText(Follow(t.items), obj, r));
              && (t.Begin? ==>
                  TodoText(t, obj, r) == rest && Skip(rest) != [] && Skip(rest)[0] != COMMA
                  && Skip(rest)[0] != Closer(obj))
              && (t.Next? ==> TodoText(t, obj, r) == [COMMA] + rest)
  {
    hide Skip, ItemText, WfItem, ExtraLen;
    if t.Begin? && t.items.Close? {
      ExtraIsSpace(t.items.extra);
      SkipSpace(t.items.extra, [Closer(obj)] + r);
    } else if t.Done? {
      InkStays([Closer(obj)] + r);
    } else {
      ItemInk(t.items.item, obj, TodoText(Follow(t.items), obj, r));
    }
  }

  /** Read a closing bracket, or the comma before the next item if there is one. */
  method Separator(c: Cursor, close: byte, ghost t: Todo, ghost obj: bool, ghost r: bytes) returns (closed: bool)
    requires c.Valid() && close == Closer(obj) && WfTodo(t, obj) && Skip(c.Left()) == Skip(TodoText(t, obj, r))
    modifies c`at
    ensures c.Valid() && closed == Closes(t) && c.at >= old(c.at) && (closed || t.Next? ==> c.at > old(c.at))
    ensures closed ==> c.Left() == r
    ensures !closed ==>
            !t.items.Close? && Skip(c.Left()) == Skip(ItemText(t.items.item, TodoText(Follow(t.items), obj, r)))
  {
    hide Skip, SpaceLen, WfTodo, ItemText, TodoText;
    TodoStart(t, obj, r);
    SkipTwice(TodoText(t, obj, r));
    if t.Next? {
      InkStays(TodoText(t, obj, r));
    }
    c.Space();
    closed := c.Take(close);
    if closed { return; }
    var comma := c.Take(COMMA);
    if comma {
      c.Space();
      assert t.Next? ==> Skip(c.Left()) == Skip(ItemText(t.items.item, TodoText(Follow(t.items), obj, r))) by {
        SkipTwice(ItemText(t.items.item, TodoText(Follow(t.items), obj, r)));
      }
    }
  }

  lemma NodeSkip(n: Node, x: bytes)
    requires WfNode(n, Json)
    ensures Skip(NodeText(n, x)) == BodyText(n.body, n.after + x)
  {
    hide Skip, BodyText, WfBody, ExtraLen;
    ExtraIsSpace(n.before);
    BodyStart(n.body, n.after + x, Json);
    SkipSpace(n.before, BodyText(n.body, n.after + x));
  }

  // ----- the loop -----

  /** Opening a container. */
  lemma OpenOutcome(frames: Stack<Frame>, stack: Stack<Pending>, n: Node, m: Mode, d: Decoders)
    requires Waiting(frames, stack) && WfNode(n, Json) && n.body.Group?
    ensures var (obj, items) := (n.body.obj, n.body.items);
            var p := Pending(obj, Begin(items), n.after);
            && Ready(Push(NewFrame(obj), frames), Push(p, stack))
            && BodyText(n.body, n.after + Rest(stack)) == [Opener(obj)] + Rest(Push(p, stack))
            && ReadyOutcome(Push(NewFrame(obj), frames), Push(p, stack), m, d) ==
               Outcome(frames, stack, ValueOf(TreeOfBody(n.body), m, d), m, d)
  {
    hide Waiting, Fill, Entries, ValueOf, Outcome, WfItems, ItemsText, IsExtra;
    FillAll(n.body.obj, Entries(n.body.items), m, d);
  }

  /** Read a scalar, or open a container. */
  method Start(c: Cursor, frames: Stack<Frame>, ghost stack: Stack<Pending>, ghost n: Node, m: Mode, d: Decoders)
    returns (next: Stack<Frame>, completed: Option<Value>, failed: bool, ghost more: Stack<Pending>)
    requires c.Valid() && Waiting(frames, stack) && WfNode(n, Json)
             && c.Left() == BodyText(n.body, n.after + Rest(stack))
    modifies c`at
    ensures c.Valid() && c.at > old(c.at)
    ensures var v := ValueOf(TreeOf(n), m, d);
            if failed then v == None
            else if completed.Some? then
              && next == frames && more == stack
              && v == completed && Skip(c.Left()) == Rest(stack)
            else
              && Ready(next, more) && c.Left() == Rest(more)
              && ReadyOutcome(next, more, m, d) == Outcome(frames, stack, v, m, d)
  {
    hide Waiting, Ready, ReadyOutcome, Rest, WfNode, ScalarValue, Outcome, Skip, ItemsText;
    assert WfBody(n.body, Json) by { PartsWf(n); }
    BodyStart(n.body, n.after + Rest(stack), Json);
    next, completed, failed, more := frames, None, false, stack;
    assert c.text[c.at] == c.Left()[0];
    if c.text[c.at] == OPEN_BRACKET || c.text[c.at] == OPEN_BRACE {
      var obj := c.text[c.at] == OPEN_BRACE;
      var ok := c.Take(Opener(obj));
      next := Push(NewFrame(obj), frames);
      more := Push(Pending(obj, Begin(n.body.items), n.after), stack);
      OpenOutcome(frames, stack, n, m, d);
    } else {
      RestStart(frames, stack);
      completed := ReadScalar(c, n, Rest(stack), m, d);
      failed := completed.None?;
    }
  }

  lemma PartsWf(n: Node)
    requires WfNode(n, Json)
    ensures WfBody(n.body, Json) && IsExtra(n.before, Json) && IsExtra(n.after, Json)
  {
  }

  lemma CloseOutcome(frames: Stack<Frame>, stack: Stack<Pending>, m: Mode, d: Decoders)
    requires Ready(frames, stack) && Closes(stack.top.todo)
    ensures Outcome(frames.below, stack.below, Some(Finish(frames.top)), m, d) == ReadyOutcome(frames, stack, m, d)
    ensures Skip(stack.top.after + Rest(stack.below)) == Rest(stack.below)
  {
    hide Waiting, Outcome, Skip, ExtraLen, Rest;
    RestStart(frames.below, stack.below);
    ExtraIsSpace(stack.top.after);
    SkipSpace(stack.top.after, Rest(stack.below));
  }

  /** The name of the next item has been read, if it has one. */
  lemma ItemOutcome(frames: Stack<Frame>, stack: Stack<Pending>, named: Option<Frame>, m: Mode, d: Decoders)
    requires Ready(frames, stack) && !Closes(stack.top.todo) && !stack.top.todo.items.Close?
    requires named == Named(frames.top, EntryOf(stack.top.todo.items.item).name, m, d)
    ensures named.None? ==> ReadyOutcome(frames, stack, m, d) == None
    ensures named.Some? ==>
              var items := stack.top.todo.items;
              var (next, more) :=
                (Push(named.value, frames.below), Push(stack.top.(todo := Follow(items)), stack.below));
              && Waiting(next, more)
              && Outcome(next, more, ValueOf(TreeOf(items.item.value), m, d), m, d) == ReadyOutcome(frames, stack, m, d)
  {
    hide ValueOf, WfItem, DecodeString, TreeOf;
    var items := stack.top.todo.items;
    FailedOutcome(frames.below, stack.below, m, d);
    assert Entries(items) == [EntryOf(items.item)] + TodoEntries(Follow(items));
    assert Entries(items)[1..] == TodoEntries(Follow(items));
    assert EntryOf(items.item).value == TreeOf(items.item.value);
  }

  lemma ItemParts(item: Item, obj: bool, x: bytes)
    requires WfItem(item, obj, Json)
    ensures item.Member? == obj && WfNode(item.value, Json)
    ensures obj ==> WfNode(item.name, Json) && IsName(item.name) && EntryOf(item).name == item.name.body.text
    ensures ItemText(item, x) ==
            if obj then NodeText(item.name, [COLON] + NodeText(item.value, x)) else NodeText(item.value, x)
  {
  }

  /** Close the container on top, or go to its next item. */
  method Advance(c: Cursor, frames: Stack<Frame>, ghost stack: Stack<Pending>, m: Mode, d: Decoders)
    returns (next: Stack<Frame>, completed: Option<Value>, failed: bool, ghost more: Stack<Pending>, ghost n: Node)
    requires c.Valid() && Ready(frames, stack) && Skip(c.Left()) == Skip(Rest(stack))
    modifies c`at
    ensures c.Valid() && c.at >= old(c.at) && (!stack.top.todo.Begin? ==> c.at > old(c.at))
    ensures var r := ReadyOutcome(frames, stack, m, d);
            if failed then r == None
            else
              && Waiting(next, more)
              && (completed.Some? ==> Skip(c.Left()) == Rest(more) && Outcome(next, more, completed, m, d) == r)
              && (completed.None? ==>
                    && WfNode(n, Json) && Skip(c.Left()) == BodyText(n.body, n.after + Rest(more))
                    && Outcome(next, more, ValueOf(TreeOf(n), m, d), m, d) == r)
  {
    hide Waiting, ReadyOutcome, WfNode, Outcome, Skip, ItemText, ItemsText, TreeOf, ValueOf, BodyText, NodeText, WfTodo,
         DecodeString;
    var frame := frames.top;
    ghost var p, r := stack.top, stack.top.after + Rest(stack.below);
    next, completed, failed, more := frames, None, false, stack;
    n := Node([], Scalar([]), []);
    var closed := Separator(c, Closer(frame.ObjectFrame?), p.todo, p.obj, r);
    if closed {
      CloseOutcome(frames, stack, m, d);
      next, completed, more := frames.below, Some(Finish(frame)), stack.below;
      return;
    }
    TodoStart(p.todo, p.obj, r);
    ghost var item, x := p.todo.items.item, TodoText(Follow(p.todo.items), p.obj, r);
    ItemParts(item, p.obj, x);
    var named := Some(frame);
    if frame.ObjectFrame? {
      var token := NameEntry(c, item.name, NodeText(item.value, x));
      named := Named(frame, token, m, d);
    }
    ItemOutcome(frames, stack, named, m, d);
    failed := named.None?;
    if failed { return; }
    n := item.value;
    next, more := Push(named.value, frames.below), Push(p.(todo := Follow(p.todo.items)), stack.below);
    assert Rest(more) == x;
    NodeSkip(n, x);
  }

  lemma AtTop(frames: Stack<Frame>, stack: Stack<Pending>, v: Option<Value>, m: Mode, d: Decoders)
    requires frames.Empty? && (Waiting(frames, stack) || stack.Empty?)
    ensures Waiting(frames, stack) && Outcome(frames, stack, v, m, d) == v && Rest(stack) == []
  {
  }

  lemma AppendOutcome(frames: Stack<Frame>, stack: Stack<Pending>, v: Value, m: Mode, d: Decoders)
    requires Waiting(frames, stack) && frames.Push?
    ensures stack.Push? && !stack.top.todo.Begin? && Skip(Rest(stack)) == Rest(stack)
    ensures var next := Append(frames.top, v);
            && next.Some?
            && Ready(Push(next.value, frames.below), stack)
            && ReadyOutcome(Push(next.value, frames.below), stack, m, d) == Outcome(frames, stack, Some(v), m, d)
  {
    hide Fill, Rest, Skip, WfTodo;
    RestStart(frames, stack);
    InkStays(Rest(stack));
  }

  function Parsed(s: bytes, m: Mode, d: Decoders): Option<Value> {
    var n :- DocumentOf(s);
    ValueOf(TreeOf(n), m, d)
  }

  method ParseWithMode(s: bytes, m: Mode, d: Decoders) returns (r: Option<Value>)
    ensures r == Parsed(s, m, d)
  {
    hide Waiting, Ready, ReadyOutcome, WfNode, Outcome, Skip, ReadDocument, TreeOf, ValueOf, NodeText, BodyText,
         DepthNode, Rest, Append;
    var ok := CheckDocument(s);
    if !ok { return None; }
    ghost var n, stack: Stack<Pending> := ReadDocument(s, Json).value, Empty;
    ReadDocumentExact(s, Json);
    ghost var result := ValueOf(TreeOf(n), m, d);
    NodeSkip(n, []);
    var c := new Cursor(s);
    assert c.Left() == s;
    var frames: Stack<Frame>, completed: Option<Value>, pending := Empty, None, true;
    AtTop(frames, stack, result, m, d);
    while true
      invariant c.Valid() && Waiting(frames, stack) && pending == completed.None?
      invariant pending ==>
                  && WfNode(n, Json) && Skip(c.Left()) == BodyText(n.body, n.after + Rest(stack))
                  && Outcome(frames, stack, ValueOf(TreeOf(n), m, d), m, d) == result
      invariant !pending ==> Skip(c.Left()) == Rest(stack) && Outcome(frames, stack, completed, m, d) == result
      decreases |c.text| - c.at
    {
      ghost var from := c.at;
      c.Space();
      var failed := false;
      SkipTwice(c.text[from..]);
      if pending {
        FailedOutcome(frames, stack, m, d);
        frames, completed, failed, stack := Start(c, frames, stack, n, m, d);
        if failed { return None; }
        pending := false;
      }
      if frames.Empty? && completed.Some? {
        AtTop(frames, stack, completed, m, d);
        ok := c.Done();
        return if ok then completed else None;
      }
      if completed.Some? {
        AppendOutcome(frames, stack, completed.value, m, d);
        var next := Append(frames.top, completed.value);
        if next.None? { return None; }
        frames, completed := Push(next.value, frames.below), None;
      }
      frames, completed, failed, stack, n := Advance(c, frames, stack, m, d);
      if failed { return None; }
      pending := completed.None?;
    }
  }
}
