/**
 The HuJSON parser that rewrites a policy text in place: a cursor over the raw bytes,
 an output buffer of the same length and an explicit stack of pending tasks.
 */
module HuJson {
  import opened Bytes
  import opened Wrappers
  import opened Lexemes
  import opened Syntax
  import opened Reader
  import opened Stacks
  import opened Standard
  import opened Literals
  import opened JsonScanner

  lemma ExtraLenSpace(raw: bytes, at: nat)
    requires at < |raw| && IsSpace(raw[at])
    ensures ExtraLen(raw[at..], HuJson) == Plus(1, ExtraLen(raw[at + 1..], HuJson))
  {
    assert raw[at..][1..] == raw[at + 1..];
  }

  lemma ExtraLenComment(raw: bytes, at: nat)
    requires at <= |raw| && StartsComment(raw[at..])
    ensures var k := CommentLen(raw[at..]);
            ExtraLen(raw[at..], HuJson) ==
            if k.None? || !Utf8.IsValid(raw[at..at + k.value]) then None
            else Plus(k.value, ExtraLen(raw[at + k.value..], HuJson))
  {
    hide CommentLen, Utf8.IsValid;
    var k := CommentLen(raw[at..]);
    if k.Some? {
      assert raw[at..][..k.value] == raw[at..at + k.value];
      assert raw[at..][k.value..] == raw[at + k.value..];
    }
  }

  lemma ExtraLenNone(raw: bytes, at: nat)
    requires at <= |raw| && (at < |raw| ==> !IsSpace(raw[at])) && !StartsComment(raw[at..])
    ensures ExtraLen(raw[at..], HuJson) == Some(0)
  {
  }

  class Parser {
    const raw: bytes
    var out: bytes
    var at: nat

    constructor (raw: bytes, out: bytes)
      ensures this.raw == raw && this.out == out && this.at == 0
    {
      this.raw, this.out, this.at := raw, out, 0;
    }

    /** The cursor is in range and the output has whitespace wherever the input has. */
    ghost predicate Valid()
      reads this
    {
      at <= |raw| && |out| == |raw| && forall i :: 0 <= i < |raw| && IsSpace(raw[i]) ==> IsSpace(out[i])
    }

    /** Skip whitespace and comments, blanking them in the output. */
    method Extra() returns (ok: bool)
      requires Valid()
      modifies this
      ensures Valid() && |out| == |old(out)|
      ensures ok <==> ExtraLen(raw[old(at)..], HuJson).Some?
      ensures ok ==> at == old(at) + ExtraLen(raw[old(at)..], HuJson).value
      ensures ok ==> out == BlankRange(old(out), old(at), at)
    {
      hide ExtraLen, CommentLen, Utf8.IsValid, BlankRange;
      ghost var at0, out0 := at, out;
      BlankRangeEmpty(out0, at0);
      while true
        invariant Valid() && at0 <= at && |out| == |out0|
        invariant ExtraLen(raw[at0..], HuJson) == Plus(at - at0, ExtraLen(raw[at..], HuJson))
        invariant out == BlankRange(out0, at0, at)
        decreases |raw| - at
      {
        if at < |raw| && IsSpace(raw[at]) {
          ExtraLenSpace(raw, at);
          BlankRangeSpace(out0, at0, at);
          at := at + 1;
        } else if at + 1 < |raw| && raw[at] == SLASH && (raw[at + 1] == SLASH || raw[at + 1] == STAR) {
          ExtraLenComment(raw, at);
          var found := CommentLen(raw[at..]);
          if found.None? { return false; }
          var start, end := at, at + found.value;
          if !Utf8.IsValid(raw[start..end]) { return false; }
          BlankOutput(start, end);
          BlankRangeSplit(out0, at0, start, end);
          at := end;
        } else {
          ExtraLenNone(raw, at);
          return true;
        }
      }
    }

    /** Blank the output bytes of one comment. */
    method BlankOutput(start: nat, end: nat)
      requires Valid() && start <= end <= |out|
      modifies this`out
      ensures Valid()
      ensures out == BlankRange(old(out), start, end)
    {
      var i := start;
      while i < end
        invariant start <= i <= end && |out| == |old(out)|
        invariant forall j :: 0 <= j < |out| ==>
                    out[j] == if start <= j < i then BlankByte(old(out)[j]) else old(out)[j]
      {
        if !IsSpace(out[i]) { out := out[i := SPACE]; }
        i := i + 1;
      }
    }

    /** Read a scalar: delimit it, then let the JSON grammar judge it. */
    method Literal(start: nat, quoted: bool) returns (ok: bool)
      requires at == start < |raw| && quoted == (raw[start] == QUOTE)
      requires raw[start] != OPEN_BRACE && raw[start] != OPEN_BRACKET
      modifies this`at
      ensures ok <==> ScalarLen(raw[start..]).Some?
      ensures ok ==> at == start + ScalarLen(raw[start..]).value
      ensures at <= |raw|
    {
      hide ScalarLen, CheckValid, WordLen, QuoteScan;
      if quoted {
        LiteralString(raw[start..]);
        assert raw[start..][1..] == raw[start + 1..];
        ok := QuotedEnd();
      } else {
        LiteralWord(raw[start..]);
        WordEnd();
        ok := at != start;
      }
      if ok {
        assert raw[start..][..at - start] == raw[start..at];
        ok := CheckDocument(raw[start..at]);
      }
    }

    method QuotedEnd() returns (ok: bool)
      requires at < |raw|
      modifies this`at
      ensures at <= |raw|
      ensures ok <==> QuoteScan(raw[old(at) + 1..], false).Some?
      ensures ok ==> at == old(at) + 1 + QuoteScan(raw[old(at) + 1..], false).value
    {
      at := at + 1;
      var escaped := false;
      while true
        invariant old(at) + 1 <= at <= |raw|
        invariant QuoteScan(raw[old(at) + 1..], false) == Plus(at - old(at) - 1, QuoteScan(raw[at..], escaped))
        decreases |raw| - at
      {
        if at == |raw| { return false; }
        var b := raw[at];
        assert raw[at..][1..] == raw[at + 1..];
        at := at + 1;
        if escaped {
          escaped := false;
        } else if b == BACKSLASH {
          escaped := true;
        } else if b == QUOTE {
          return true;
        }
      }
    }

    method WordEnd()
      requires at <= |raw|
      modifies this`at
      ensures at == old(at) + WordLen(raw[old(at)..])
    {
      while at < |raw| && IsWordByte(raw[at])
        invariant old(at) <= at <= |raw|
        invariant WordLen(raw[old(at)..]) == at - old(at) + WordLen(raw[at..])
      {
        assert raw[at..][1..] == raw[at + 1..];
        at := at + 1;
      }
    }
  }

  // ----- standardize: the task machine -----

  datatype Task =
    | Value(name: bool)
    | Finish(start: nat, kind: byte, name: bool)
    | Next(obj: bool, comma: Option<nat>)
    | ObjectColon
    | After(obj: bool)
    | End

  function Prepend(p: bytes, r: Option<bytes>): Option<bytes> {
    if r.None? then None else Some(p + r.value)
  }

  /** The items after a comma: the comma survives unless it turns out to be a trailing one. */
  function CommaText(items: Items, obj: bool, r: bytes): bytes {
    [if items.Close? then SPACE else COMMA] + ItemsText(StdItems(items), obj, r)
  }

  function AfterText(after: Option<Items>, obj: bool, r: bytes): bytes {
    if after.None? then [Closer(obj)] + r else CommaText(after.value, obj, r)
  }

  /**
   What a task stack stands for: the standardized form of the text `s` still to be
   read, or nothing if the stack will reject it. A pending comma counts as unread.
   */
  ghost function Meaning(tasks: Stack<Task>, s: bytes): (r: Option<bytes>)
    decreases tasks
  {
    match tasks
    case Empty => Some(s)
    case Push(Value(name), below) =>
      var (n, t) :- ReadNode(s, HuJson);
      if name && !IsName(n) then None
      else var r :- Meaning(below, t); Some(NodeText(StdNode(n), r))
    case Push(Finish(_, kind, name), below) =>
      var a :- ExtraLen(s, HuJson);
      if name && kind != QUOTE then None
      else Prepend(Blank(s[..a]), Meaning(below, s[a..]))
    case Push(Next(obj, comma), below) =>
      var (items, t) :- ReadItems(s, obj, HuJson, comma.None?);
      var r :- Meaning(below, t);
      Some(if comma.None? then ItemsText(StdItems(items), obj, r) else CommaText(items, obj, r))
    case Push(ObjectColon, below) =>
      if s == [] || s[0] != COLON then None
      else
        var (v, t) :- ReadNode(s[1..], HuJson);
        var (after, u) :- ReadAfter(t, true, HuJson);
        var r :- Meaning(below, u);
        Some([COLON] + NodeText(StdNode(v), AfterText(after, true, r)))
    case Push(After(obj), below) =>
      var (after, u) :- ReadAfter(s, obj, HuJson);
      var r :- Meaning(below, u);
      Some(AfterText(after, obj, r))
    case Push(End, below) =>
      if s == [] then Meaning(below, s) else None
  }

  lemma ValueFails(name: bool, below: Stack<Task>, s: bytes)
    requires var b := ExtraLen(s, HuJson); b.None? || ReadBody(s[b.value..], HuJson).None?
    ensures Meaning(Push(Value(name), below), s).None?
  {
    hide ExtraLen, ReadBody;
  }

  lemma ValueReads(start: nat, name: bool, below: Stack<Task>, s: bytes, b: nat, body: Body, t: bytes)
    requires ExtraLen(s, HuJson) == Some(b) && b < |s| && ReadBody(s[b..], HuJson) == Some((body, t))
    ensures var rest := Meaning(Push(Finish(start, s[b], name), below), t);
            Meaning(Push(Value(name), below), s) ==
            if rest.None? then None else Some(Blank(s[..b]) + BodyText(StdBody(body), rest.value))
  {
    hide ExtraLen, ReadBody, Blank, BodyText, StdBody;
    ReadBodyName(s[b..], body, t);
    var a := ExtraLen(t, HuJson);
    if a.Some? {
      var n := Node(s[..b], body, t[..a.value]);
      assert ReadNode(s, HuJson) == Some((n, t[a.value..]));
      assert StdNode(n) == Node(Blank(s[..b]), StdBody(body), Blank(t[..a.value]));
    }
  }

  lemma ReadBodyName(s: bytes, body: Body, t: bytes)
    requires s != [] && ReadBody(s, HuJson) == Some((body, t))
    ensures (body.Scalar? && body.text != [] && body.text[0] == QUOTE) <==> s[0] == QUOTE
  {
    hide ReadItems, ScalarLen;
  }

  lemma ValueOpens(start: nat, name: bool, below: Stack<Task>, s: bytes, b: nat)
    requires ExtraLen(s, HuJson) == Some(b) && b < |s| && (s[b] == OPEN_BRACE || s[b] == OPEN_BRACKET)
    ensures Meaning(Push(Value(name), below), s) ==
            Prepend(Blank(s[..b]) + [s[b]],
                    Meaning(Push(Next(s[b] == OPEN_BRACE, None), Push(Finish(start, s[b], name), below)), s[b + 1..]))
  {
    hide ExtraLen, ReadItems, Blank, ItemsText, StdItems;
    var obj := s[b] == OPEN_BRACE;
    assert s[b..][1..] == s[b + 1..];
    var read := ReadItems(s[b + 1..], obj, HuJson, true);
    if read.None? {
      assert ReadBody(s[b..], HuJson).None?;
      ValueFails(name, below, s);
    } else {
      var (items, t) := read.value;
      ValueReads(start, name, below, s, b, Group(obj, items), t);
      var rest := Meaning(Push(Finish(start, s[b], name), below), t);
      if rest.Some? {
        var text := ItemsText(StdItems(items), obj, rest.value);
        assert Blank(s[..b]) + ([s[b]] + text) == Blank(s[..b]) + [s[b]] + text;
      }
    }
  }

  lemma ValueScalar(start: nat, name: bool, below: Stack<Task>, s: bytes, b: nat)
    requires ExtraLen(s, HuJson) == Some(b) && b < |s| && s[b] != OPEN_BRACE && s[b] != OPEN_BRACKET
    ensures var k := ScalarLen(s[b..]);
            Meaning(Push(Value(name), below), s) ==
            if k.None? then None
            else Prepend(Blank(s[..b]) + s[b..b + k.value],
                         Meaning(Push(Finish(start, s[b], name), below), s[b + k.value..]))
  {
    hide ExtraLen, ScalarLen, Blank;
    var read := ScalarLen(s[b..]);
    if read.None? {
      assert ReadBody(s[b..], HuJson).None?;
      ValueFails(name, below, s);
    } else {
      var k := read.value;
      assert s[b..][..k] == s[b..b + k] && s[b..][k..] == s[b + k..];
      ValueReads(start, name, below, s, b, Scalar(s[b..b + k]), s[b + k..]);
      var rest := Meaning(Push(Finish(start, s[b], name), below), s[b + k..]);
      if rest.Some? {
        assert Blank(s[..b]) + (s[b..b + k] + rest.value) == Blank(s[..b]) + s[b..b + k] + rest.value;
      }
    }
  }

  function CommaMark(comma: Option<nat>, mark: byte): bytes {
    if comma.None? then [] else [mark]
  }

  lemma NextFails(obj: bool, comma: Option<nat>, below: Stack<Task>, s: bytes)
    requires ExtraLen(s, HuJson).None?
    ensures Meaning(Push(Next(obj, comma), below), s).None?
  {
  }

  function NextForm(items: Items, obj: bool, comma: Option<nat>, r: bytes): bytes {
    if comma.None? then ItemsText(StdItems(items), obj, r) else CommaText(items, obj, r)
  }

  lemma CloseText(e: bytes, obj: bool, comma: Option<nat>, r: bytes)
    ensures NextForm(Close(e), obj, comma, r) == CommaMark(comma, SPACE) + Blank(e) + [Closer(obj)] + r
  {
    hide Blank;
    assert ItemsText(StdItems(Close(e)), obj, r) == Blank(e) + ([Closer(obj)] + r);
    assert [] + Blank(e) + [Closer(obj)] + r == Blank(e) + ([Closer(obj)] + r);
    assert [SPACE] + Blank(e) + [Closer(obj)] + r == [SPACE] + (Blank(e) + ([Closer(obj)] + r));
  }

  lemma NextReads(obj: bool, comma: Option<nat>, below: Stack<Task>, s: bytes, e: nat)
    requires ExtraLen(s, HuJson) == Some(e) && (e < |s| ==> s[e] != Closer(obj))
    ensures var item := ReadItem(s, obj, HuJson);
            var after := if item.None? then None else ReadAfter(item.value.1, obj, HuJson);
            var rest := if after.None? then None else Meaning(below, after.value.1);
            Meaning(Push(Next(obj, comma), below), s) ==
            if rest.None? then None
            else Some(NextForm(Joined(item.value.0, after.value.0), obj, comma, rest.value))
  {
    hide ExtraLen, ReadItem, ReadAfter, ItemsText, StdItems;
  }

  lemma NextCloses(obj: bool, comma: Option<nat>, below: Stack<Task>, s: bytes, e: nat)
    requires ExtraLen(s, HuJson) == Some(e) && e < |s| && s[e] == Closer(obj)
    ensures Meaning(Push(Next(obj, comma), below), s) ==
            Prepend(CommaMark(comma, SPACE) + Blank(s[..e]) + [Closer(obj)], Meaning(below, s[e + 1..]))
  {
    hide ExtraLen, ReadItem, Blank, ItemsText, StdItems;
    assert ReadItems(s, obj, HuJson, comma.None?) == Some((Close(s[..e]), s[e + 1..]));
    var rest := Meaning(below, s[e + 1..]);
    if rest.Some? {
      CloseText(s[..e], obj, comma, rest.value);
    }
  }

  /** Items read as one item and what comes after it. */
  function Joined(item: Item, after: Option<Items>): Items {
    if after.None? then Last(item) else More(item, after.value)
  }

  lemma JoinedText(item: Item, after: Option<Items>, obj: bool, r: bytes)
    ensures ItemsText(StdItems(Joined(item, after)), obj, r) == ItemText(StdItem(item), AfterText(after, obj, r))
  {
    hide ItemText, StdItem, Blank;
    if after.Some? && after.value.Close? {
      var e := Blank(after.value.extra);
      ExtendedText(StdItem(item), [SPACE] + e, [Closer(obj)] + r);
      assert [SPACE] + e + ([Closer(obj)] + r) == [SPACE] + (e + ([Closer(obj)] + r));
    }
  }

  /** Reading from the end of a leading extra finds the same node without that extra. */
  lemma ReadNodeLater(s: bytes, e: nat)
    requires ExtraLen(s, HuJson) == Some(e)
    ensures var r := ReadNode(s, HuJson);
            ReadNode(s[e..], HuJson) == if r.None? then None else Some((r.value.0.(before := []), r.value.1))
  {
    hide ExtraLen, ReadBody;
    ExtraLenStops(s, HuJson);
    assert s[e..][0..] == s[e..];
    assert s[e..][..0] == [];
  }

  lemma StdNodeText(n: Node, e: bytes, r: bytes)
    ensures NodeText(StdNode(n.(before := e)), r) == Blank(e) + NodeText(StdNode(n.(before := [])), r)
  {
    hide BodyText, StdBody;
    assert Blank([]) == [];
  }

  lemma NextElement(comma: Option<nat>, below: Stack<Task>, s: bytes, e: nat)
    requires ExtraLen(s, HuJson) == Some(e) && (e < |s| ==> s[e] != CLOSE_BRACKET)
    ensures Meaning(Push(Next(false, comma), below), s) ==
            Prepend(CommaMark(comma, COMMA) + Blank(s[..e]),
                    Meaning(Push(Value(false), Push(After(false), below)), s[e..]))
  {
    hide ExtraLen, ReadNode, ReadItems, ReadAfter, NodeText, StdNode, StdItems, ItemsText, Blank, NextForm;
    ReadNodeLater(s, e);
    NextReads(false, comma, below, s, e);
    var read := ReadNode(s, HuJson);
    if read.Some? {
      var (n, t) := read.value;
      ReadNodeBefore(s, e, n, t);
      var after := ReadAfter(t, false, HuJson);
      if after.Some? {
        var rest := Meaning(below, after.value.1);
        if rest.Some? {
          var tail := AfterText(after.value.0, false, rest.value);
          JoinedText(Element(n), after.value.0, false, rest.value);
          StdNodeText(n, s[..e], tail);
          NextText(Element(n), after.value.0, false, comma, s[..e], NodeText(StdNode(n.(before := [])), tail),
                   rest.value);
        }
      }
    }
  }

  lemma ReadNodeBefore(s: bytes, e: nat, n: Node, t: bytes)
    requires ExtraLen(s, HuJson) == Some(e) && ReadNode(s, HuJson) == Some((n, t))
    ensures n.before == s[..e]
  {
    hide ExtraLen, ReadBody;
  }

  lemma NextText(item: Item, after: Option<Items>, obj: bool, comma: Option<nat>, e: bytes, text: bytes, r: bytes)
    requires ItemsText(StdItems(Joined(item, after)), obj, r) == Blank(e) + text
    ensures var items := Joined(item, after);
            NextForm(items, obj, comma, r) == CommaMark(comma, COMMA) + Blank(e) + text
  {
    hide ItemsText, StdItems, Blank;
    assert [COMMA] + (Blank(e) + text) == [COMMA] + Blank(e) + text;
    assert [] + Blank(e) == Blank(e);
  }

  lemma {:induction false} NextMember(comma: Option<nat>, below: Stack<Task>, s: bytes, e: nat)
    requires ExtraLen(s, HuJson) == Some(e) && (e < |s| ==> s[e] != CLOSE_BRACE)
    ensures Meaning(Push(Next(true, comma), below), s) ==
            Prepend(CommaMark(comma, COMMA) + Blank(s[..e]),
                    Meaning(Push(Value(true), Push(ObjectColon, below)), s[e..]))
  {
    hide ExtraLen, ReadNode, ReadItems, ReadAfter, NodeText, StdNode, StdItems, ItemsText, Blank, NextForm;
    ReadNodeLater(s, e);
    NextReads(true, comma, below, s, e);
    var read := ReadNode(s, HuJson);
    if read.Some? && IsName(read.value.0) {
      var (n, t) := read.value;
      ReadNodeBefore(s, e, n, t);
      if t != [] && t[0] == COLON && ReadNode(t[1..], HuJson).Some? {
        var (v, u) := ReadNode(t[1..], HuJson).value;
        var after := ReadAfter(u, true, HuJson);
        if after.Some? {
          var rest := Meaning(below, after.value.1);
          if rest.Some? {
            var tail := [COLON] + NodeText(StdNode(v), AfterText(after.value.0, true, rest.value));
            JoinedText(Member(n, v), after.value.0, true, rest.value);
            StdNodeText(n, s[..e], tail);
            NextText(Member(n, v), after.value.0, true, comma, s[..e], NodeText(StdNode(n.(before := [])), tail),
                     rest.value);
          }
        }
      }
    }
  }

  lemma ColonStep(below: Stack<Task>, s: bytes)
    ensures Meaning(Push(ObjectColon, below), s) ==
            if s == [] || s[0] != COLON then None
            else Prepend([COLON], Meaning(Push(Value(false), Push(After(true), below)), s[1..]))
  {
    hide ReadNode, ReadAfter, NodeText, StdNode, AfterText;
  }

  lemma AfterStep(obj: bool, comma: nat, below: Stack<Task>, s: bytes)
    ensures Meaning(Push(After(obj), below), s) ==
            if s == [] then None
            else if s[0] == COMMA then Meaning(Push(Next(obj, Some(comma)), below), s[1..])
            else if s[0] == Closer(obj) then Prepend([Closer(obj)], Meaning(below, s[1..]))
            else None
  {
    hide ReadItems, ItemsText, StdItems;
  }

  // ----- the loop -----

  /** Only the top of the stack may still wait to learn whether the comma just read is a trailing one. */
  ghost predicate Settled(tasks: Stack<Task>) {
    tasks.Push? ==> !(tasks.top.Next? && tasks.top.comma.Some?) && Settled(tasks.below)
  }

  /** The unread output is the unread input, and a waiting comma is the byte just read. */
  ghost predicate Ready(raw: bytes, out: bytes, at: nat, tasks: Stack<Task>) {
    && at <= |raw| && |out| == |raw| && out[at..] == raw[at..]
    && (tasks.Push? ==> Settled(tasks.below))
    && (Waiting(tasks) ==> at > 0 && tasks.top.comma == Some(at - 1) && out[at - 1] == COMMA)
  }

  ghost predicate Waiting(tasks: Stack<Task>) {
    tasks.Push? && tasks.top.Next? && tasks.top.comma.Some?
  }

  /** The result the machine is heading for. */
  ghost function Outcome(raw: bytes, out: bytes, at: nat, tasks: Stack<Task>): Option<bytes>
    requires Ready(raw, out, at, tasks)
  {
    Prepend(out[..Written(tasks, at)], Meaning(tasks, raw[at..]))
  }

  ghost function Weight(tasks: Stack<Task>): nat {
    if tasks.Empty? then 0 else (if tasks.top.Next? then 3 else 1) + Weight(tasks.below)
  }

  lemma ExtraEffect(raw: bytes, out: bytes, at: nat, end: nat)
    requires at <= end <= |raw| && |out| == |raw| && out[at..] == raw[at..]
    ensures BlankRange(out, at, end)[..end] == out[..at] + Blank(raw[at..end])
    ensures BlankRange(out, at, end)[end..] == raw[end..]
  {
    assert forall i :: at <= i < |raw| ==> out[i] == out[at..][i - at] == raw[at..][i - at] == raw[i];
  }

  lemma PrependTwice(p: bytes, q: bytes, r: Option<bytes>)
    ensures Prepend(p, Prepend(q, r)) == Prepend(p + q, r)
  {
    if r.Some? {
      assert p + (q + r.value) == p + q + r.value;
    }
  }

  ghost function Written(tasks: Stack<Task>, at: nat): nat {
    if Waiting(tasks) && at > 0 then at - 1 else at
  }

  lemma Advance(raw: bytes, out: bytes, at: nat, tasks: Stack<Task>, out': bytes, at': nat, tasks': Stack<Task>,
                piece: bytes)
    requires Ready(raw, out, at, tasks) && Ready(raw, out', at', tasks')
    requires out'[..Written(tasks', at')] == out[..Written(tasks, at)] + piece
    requires Meaning(tasks, raw[at..]) == Prepend(piece, Meaning(tasks', raw[at'..]))
    ensures Outcome(raw, out', at', tasks') == Outcome(raw, out, at, tasks)
  {
    hide Meaning;
    PrependTwice(out[..Written(tasks, at)], piece, Meaning(tasks', raw[at'..]));
  }

  lemma OutSlice(raw: bytes, out: bytes, at: nat, end: nat)
    requires at <= end <= |raw| && |out| == |raw| && out[at..] == raw[at..]
    ensures out[..end] == out[..at] + raw[at..end] && out[end..] == raw[end..]
  {
    assert forall i :: at <= i < |raw| ==> out[i] == out[at..][i - at] == raw[at..][i - at] == raw[i];
  }

  lemma ValueOpened(raw: bytes, out: bytes, at: nat, start: nat, name: bool, below: Stack<Task>)
    requires Ready(raw, out, at, Push(Value(name), below))
    requires ExtraLen(raw[at..], HuJson) == Some(start - at) && at <= start < |raw|
    requires raw[start] == OPEN_BRACE || raw[start] == OPEN_BRACKET
    ensures var tasks := Push(Next(raw[start] == OPEN_BRACE, None), Push(Finish(start, raw[start], name), below));
            && Ready(raw, BlankRange(out, at, start), start + 1, tasks)
            && Outcome(raw, BlankRange(out, at, start), start + 1, tasks) ==
               Outcome(raw, out, at, Push(Value(name), below))
  {
    hide ExtraLen, Blank, BlankRange, Meaning;
    var s, b, out' := raw[at..], start - at, BlankRange(out, at, start);
    assert s[..b] == raw[at..start] && s[b] == raw[start] && s[b + 1..] == raw[start + 1..];
    ValueOpens(start, name, below, s, b);
    ExtraEffect(raw, out, at, start);
    OutSlice(raw, out', start, start + 1);
    var tasks := Push(Next(raw[start] == OPEN_BRACE, None), Push(Finish(start, raw[start], name), below));
    assert raw[start..start + 1] == [s[b]];
    assert out'[..start + 1] == out[..at] + (Blank(s[..b]) + [s[b]]);
    Advance(raw, out, at, Push(Value(name), below), out', start + 1, tasks, Blank(s[..b]) + [s[b]]);
  }

  lemma ValueScanned(raw: bytes, out: bytes, at: nat, start: nat, end: nat, name: bool, below: Stack<Task>)
    requires Ready(raw, out, at, Push(Value(name), below))
    requires ExtraLen(raw[at..], HuJson) == Some(start - at) && at <= start < end <= |raw|
    requires raw[start] != OPEN_BRACE && raw[start] != OPEN_BRACKET
    requires ScalarLen(raw[start..]) == Some(end - start)
    ensures var tasks := Push(Finish(start, raw[start], name), below);
            && Ready(raw, BlankRange(out, at, start), end, tasks)
            && Outcome(raw, BlankRange(out, at, start), end, tasks) == Outcome(raw, out, at, Push(Value(name), below))
  {
    hide ExtraLen, ScalarLen, Blank, BlankRange, Meaning;
    var s, b, out' := raw[at..], start - at, BlankRange(out, at, start);
    assert s[..b] == raw[at..start] && s[b] == raw[start] && s[b..] == raw[start..];
    ValueScalar(start, name, below, s, b);
    ExtraEffect(raw, out, at, start);
    OutSlice(raw, out', start, end);
    var tasks := Push(Finish(start, raw[start], name), below);
    var k := end - start;
    assert s[b..b + k] == raw[start..end] && s[b + k..] == raw[end..];
    assert out'[..end] == out[..at] + (Blank(s[..b]) + raw[start..end]);
    Advance(raw, out, at, Push(Value(name), below), out', end, tasks, Blank(s[..b]) + raw[start..end]);
  }

  lemma ValueRejected(raw: bytes, at: nat, start: nat, name: bool, below: Stack<Task>)
    requires at <= start <= |raw| && ExtraLen(raw[at..], HuJson) == Some(start - at)
    requires start < |raw| ==> raw[start] != OPEN_BRACE && raw[start] != OPEN_BRACKET && ScalarLen(raw[start..]).None?
    ensures Meaning(Push(Value(name), below), raw[at..]).None?
  {
    hide ExtraLen, ScalarLen, Meaning;
    assert raw[at..][start - at..] == raw[start..];
    ValueFails(name, below, raw[at..]);
  }

  method StepValue(parser: Parser, name: bool, below: Stack<Task>) returns (ok: bool, tasks: Stack<Task>)
    requires parser.Valid() && Ready(parser.raw, parser.out, parser.at, Push(Value(name), below))
    modifies parser
    ensures ok ==> parser.Valid() && Ready(parser.raw, parser.out, parser.at, tasks) && parser.at > old(parser.at)
    ensures ok ==> Outcome(parser.raw, parser.out, parser.at, tasks)
                   == old(Outcome(parser.raw, parser.out, parser.at, Push(Value(name), below)))
    ensures !ok ==> Meaning(Push(Value(name), below), parser.raw[old(parser.at)..]).None?
  {
    hide ExtraLen, ScalarLen, Blank, BlankRange, Meaning, Ready, Outcome;
    ghost var at0, out0 := parser.at, parser.out;
    tasks := Empty;
    ok := parser.Extra();
    if !ok {
      ValueFails(name, below, parser.raw[at0..]);
      return;
    }
    var start := parser.at;
    if start == |parser.raw| {
      ValueRejected(parser.raw, at0, start, name, below);
      return false, Empty;
    }
    var kind := parser.raw[start];
    tasks := Push(Finish(start, kind, name), below);
    if kind == OPEN_BRACE || kind == OPEN_BRACKET {
      parser.at := parser.at + 1;
      tasks := Push(Next(kind == OPEN_BRACE, None), tasks);
      ValueOpened(parser.raw, out0, at0, start, name, below);
    } else if kind == CLOSE_BRACE || kind == CLOSE_BRACKET {
      NoScalar(parser.raw[start..]);
      ValueRejected(parser.raw, at0, start, name, below);
      ok := false;
    } else {
      ok := parser.Literal(start, kind == QUOTE);
      if ok {
        ValueScanned(parser.raw, out0, at0, start, parser.at, name, below);
      } else {
        ValueRejected(parser.raw, at0, start, name, below);
      }
    }
  }

  lemma NoScalar(s: bytes)
    requires s != [] && (s[0] == CLOSE_BRACE || s[0] == CLOSE_BRACKET)
    ensures ScalarLen(s).None?
  {
  }

  lemma {:induction false} Finished(raw: bytes, out: bytes, at: nat, end: nat, task: Task, below: Stack<Task>)
    requires task.Finish? && (task.name ==> task.kind == QUOTE)
    requires Ready(raw, out, at, Push(task, below)) && Settled(below)
    requires ExtraLen(raw[at..], HuJson) == Some(end - at) && at <= end <= |raw|
    ensures Ready(raw, BlankRange(out, at, end), end, below)
    ensures Outcome(raw, BlankRange(out, at, end), end, below) == Outcome(raw, out, at, Push(task, below))
  {
    hide ExtraLen, Blank, BlankRange;
    assert raw[at..][..end - at] == raw[at..end] && raw[at..][end - at..] == raw[end..];
    ExtraEffect(raw, out, at, end);
    Advance(raw, out, at, Push(task, below), BlankRange(out, at, end), end, below, Blank(raw[at..end]));
  }

  method StepFinish(parser: Parser, task: Task, below: Stack<Task>) returns (ok: bool)
    requires task.Finish?
    requires parser.Valid() && Ready(parser.raw, parser.out, parser.at, Push(task, below))
    modifies parser
    ensures ok ==> parser.Valid() && Ready(parser.raw, parser.out, parser.at, below) && parser.at >= old(parser.at)
    ensures ok ==> Outcome(parser.raw, parser.out, parser.at, below)
                   == old(Outcome(parser.raw, parser.out, parser.at, Push(task, below)))
    ensures !ok ==> Meaning(Push(task, below), parser.raw[old(parser.at)..]).None?
  {
    hide ExtraLen, Blank, BlankRange, Outcome;
    ghost var at0, out0 := parser.at, parser.out;
    ok := parser.Extra();
    if ok {
      ok := !(task.name && task.kind != QUOTE);
      if ok {
        Finished(parser.raw, out0, at0, parser.at, task, below);
      }
    }
  }

  ghost function Settle(out: bytes, comma: Option<nat>): bytes
    requires comma.Some? ==> comma.value < |out|
  {
    if comma.None? then out else out[comma.value := SPACE]
  }

  lemma {:induction false} Closed(raw: bytes, out: bytes, at: nat, end: nat, obj: bool, comma: Option<nat>,
                                  below: Stack<Task>)
    requires Ready(raw, out, at, Push(Next(obj, comma), below)) && Settled(below)
    requires ExtraLen(raw[at..], HuJson) == Some(end - at) && at <= end < |raw| && raw[end] == Closer(obj)
    ensures comma.Some? ==> comma.value < |out|
    ensures var out' := Settle(BlankRange(out, at, end), comma);
            && Ready(raw, out', end + 1, below)
            && Outcome(raw, out', end + 1, below) == Outcome(raw, out, at, Push(Next(obj, comma), below))
  {
    hide ExtraLen, Blank, BlankRange, Meaning;
    var s, e, out1 := raw[at..], end - at, BlankRange(out, at, end);
    assert s[..e] == raw[at..end] && s[e] == raw[end] && s[e + 1..] == raw[end + 1..];
    NextCloses(obj, comma, below, s, e);
    ExtraEffect(raw, out, at, end);
    OutSlice(raw, out1, end, end + 1);
    var tail := Blank(s[..e]) + [Closer(obj)];
    assert out1[..end + 1] == out[..at] + tail;
    var out' := Settle(out1, comma);
    var piece := CommaMark(comma, SPACE) + Blank(s[..e]) + [Closer(obj)];
    if comma.Some? {
      assert out[..at] == out[..at - 1] + [out[at - 1]];
      assert out'[..end + 1] == out[..at - 1] + ([SPACE] + tail);
      assert [SPACE] + tail == piece;
      assert out'[end + 1..] == out1[end + 1..];
    } else {
      assert tail == piece;
    }
    Advance(raw, out, at, Push(Next(obj, comma), below), out', end + 1, below, piece);
  }

  ghost function Entering(obj: bool, below: Stack<Task>): Stack<Task> {
    if obj then Push(Value(true), Push(ObjectColon, below)) else Push(Value(false), Push(After(false), below))
  }

  lemma {:induction false} Continued(raw: bytes, out: bytes, at: nat, end: nat, obj: bool, comma: Option<nat>,
                                     below: Stack<Task>)
    requires Ready(raw, out, at, Push(Next(obj, comma), below)) && Settled(below)
    requires ExtraLen(raw[at..], HuJson) == Some(end - at) && at <= end <= |raw|
             && (end < |raw| ==> raw[end] != Closer(obj))
    ensures var out' := BlankRange(out, at, end);
            && Ready(raw, out', end, Entering(obj, below))
            && Outcome(raw, out', end, Entering(obj, below)) == Outcome(raw, out, at, Push(Next(obj, comma), below))
  {
    hide ExtraLen, Blank, BlankRange, Meaning;
    var s, e, out' := raw[at..], end - at, BlankRange(out, at, end);
    assert s[..e] == raw[at..end] && s[e..] == raw[end..] && (e < |s| ==> s[e] == raw[end]);
    if obj {
      NextMember(comma, below, s, e);
    } else {
      NextElement(comma, below, s, e);
    }
    ExtraEffect(raw, out, at, end);
    var piece := CommaMark(comma, COMMA) + Blank(s[..e]);
    if comma.Some? {
      assert out[..at] == out[..at - 1] + [COMMA];
      assert out[..at - 1] + [COMMA] + Blank(s[..e]) == out[..at - 1] + piece;
    } else {
      assert piece == Blank(s[..e]);
    }
    Advance(raw, out, at, Push(Next(obj, comma), below), out', end, Entering(obj, below), piece);
  }

  method StepNext(parser: Parser, obj: bool, comma: Option<nat>, below: Stack<Task>)
    returns (ok: bool, tasks: Stack<Task>)
    requires parser.Valid() && Ready(parser.raw, parser.out, parser.at, Push(Next(obj, comma), below)) && Settled(below)
    modifies parser
    ensures ok ==> parser.Valid() && Ready(parser.raw, parser.out, parser.at, tasks)
    ensures ok ==> parser.at > old(parser.at) || (parser.at == old(parser.at) && Weight(tasks) == 2 + Weight(below))
    ensures ok ==> Outcome(parser.raw, parser.out, parser.at, tasks)
                   == old(Outcome(parser.raw, parser.out, parser.at, Push(Next(obj, comma), below)))
    ensures !ok ==> Meaning(Push(Next(obj, comma), below), parser.raw[old(parser.at)..]).None?
  {
    hide ExtraLen, Blank, BlankRange, Outcome;
    ghost var at0, out0 := parser.at, parser.out;
    tasks := below;
    ok := parser.Extra();
    if !ok {
      NextFails(obj, comma, below, parser.raw[at0..]);
      return;
    }
    if parser.at < |parser.raw| && parser.raw[parser.at] == Closer(obj) {
      Closed(parser.raw, out0, at0, parser.at, obj, comma, below);
      if comma.Some? {
        parser.out := parser.out[comma.value := SPACE];
      }
      parser.at := parser.at + 1;
    } else {
      Continued(parser.raw, out0, at0, parser.at, obj, comma, below);
      if obj {
        tasks := Push(Value(true), Push(ObjectColon, below));
      } else {
        tasks := Push(Value(false), Push(After(false), below));
      }
    }
  }

  /** One punctuation byte consumed and kept. */
  lemma Punctuated(raw: bytes, out: bytes, at: nat, tasks: Stack<Task>, tasks': Stack<Task>)
    requires Ready(raw, out, at, tasks) && at < |raw| && !Waiting(tasks) && !Waiting(tasks') && Settled(tasks')
    requires Meaning(tasks, raw[at..]) == Prepend([raw[at]], Meaning(tasks', raw[at + 1..]))
    ensures Ready(raw, out, at + 1, tasks') && Outcome(raw, out, at + 1, tasks') == Outcome(raw, out, at, tasks)
  {
    hide Meaning;
    OutSlice(raw, out, at, at + 1);
    assert raw[at..at + 1] == [raw[at]];
    Advance(raw, out, at, tasks, out, at + 1, tasks', [raw[at]]);
  }

  method StepColon(parser: Parser, below: Stack<Task>) returns (ok: bool, tasks: Stack<Task>)
    requires parser.Valid() && Ready(parser.raw, parser.out, parser.at, Push(ObjectColon, below))
    modifies parser`at
    ensures ok ==> parser.Valid() && Ready(parser.raw, parser.out, parser.at, tasks) && parser.at > old(parser.at)
    ensures ok ==> Outcome(parser.raw, parser.out, parser.at, tasks)
                   == old(Outcome(parser.raw, parser.out, parser.at, Push(ObjectColon, below)))
    ensures !ok ==> Meaning(Push(ObjectColon, below), parser.raw[old(parser.at)..]).None?
  {
    hide Outcome, Meaning;
    ColonStep(below, parser.raw[parser.at..]);
    if parser.at == |parser.raw| || parser.raw[parser.at] != COLON { return false, Empty; }
    tasks := Push(Value(false), Push(After(true), below));
    assert parser.raw[parser.at..][1..] == parser.raw[parser.at + 1..];
    Punctuated(parser.raw, parser.out, parser.at, Push(ObjectColon, below), tasks);
    parser.at := parser.at + 1;
    ok := true;
  }

  method StepAfter(parser: Parser, obj: bool, below: Stack<Task>) returns (ok: bool, tasks: Stack<Task>)
    requires parser.Valid() && Ready(parser.raw, parser.out, parser.at, Push(After(obj), below)) && Settled(below)
    modifies parser`at
    ensures ok ==> parser.Valid() && Ready(parser.raw, parser.out, parser.at, tasks) && parser.at > old(parser.at)
    ensures ok ==> Outcome(parser.raw, parser.out, parser.at, tasks)
                   == old(Outcome(parser.raw, parser.out, parser.at, Push(After(obj), below)))
    ensures !ok ==> Meaning(Push(After(obj), below), parser.raw[old(parser.at)..]).None?
  {
    hide Meaning;
    tasks := below;
    AfterStep(obj, parser.at, below, parser.raw[parser.at..]);
    if parser.at == |parser.raw| { return false, Empty; }
    assert parser.raw[parser.at..][1..] == parser.raw[parser.at + 1..];
    if parser.raw[parser.at] == COMMA {
      var comma := parser.at;
      OutSlice(parser.raw, parser.out, comma, comma + 1);
      assert parser.out[comma] == parser.out[..comma + 1][comma];
      parser.at := parser.at + 1;
      tasks := Push(Next(obj, Some(comma)), below);
      ok := true;
    } else if parser.raw[parser.at] == Closer(obj) {
      Punctuated(parser.raw, parser.out, parser.at, Push(After(obj), below), below);
      parser.at := parser.at + 1;
      ok := true;
    } else {
      ok := false;
    }
  }

  /** The standardized text of a HuJSON document, by the grammar. */
  function Standardized(raw: bytes): Option<bytes> {
    var n :- ReadDocument(raw, HuJson);
    Some(Print(StdNode(n)))
  }

  lemma InitialOutcome(raw: bytes)
    ensures Outcome(raw, raw, 0, Push(Value(false), Push(End, Empty))) == Standardized(raw)
  {
    hide ReadNode, NodeText, StdNode;
    assert raw[0..] == raw && raw[..0] == [];
    var read := ReadNode(raw, HuJson);
    if read.Some? {
      assert Meaning(Push(End, Empty), read.value.1) == if read.value.1 == [] then Some([]) else None;
      var text := NodeText(StdNode(read.value.0), []);
      assert [] + text == text;
    }
  }

  /**
   The task machine accepts exactly the HuJSON documents and leaves in the buffer the
   printed form of the standardized tree.
   */
  method Standardize(raw: bytes) returns (r: Option<bytes>)
    ensures r == Standardized(raw)
  {
    hide Meaning, Standardized, Outcome;
    var parser := new Parser(raw, raw);
    var tasks: Stack<Task> := Push(Value(false), Push(End, Empty));
    InitialOutcome(raw);
    while tasks.Push?
      invariant parser.raw == raw && parser.Valid() && Ready(raw, parser.out, parser.at, tasks)
      invariant Outcome(raw, parser.out, parser.at, tasks) == Standardized(raw)
      decreases |raw| - parser.at, Weight(tasks)
    {
      var task, below := tasks.top, tasks.below;
      var ok := true;
      ghost var at, out := parser.at, parser.out;
      match task {
        case Value(name) => ok, tasks := StepValue(parser, name, below);
        case Finish(_, _, _) => ok := StepFinish(parser, task, below); tasks := below;
        case Next(obj, comma) => ok, tasks := StepNext(parser, obj, comma, below);
        case ObjectColon => ok, tasks := StepColon(parser, below);
        case After(obj) => ok, tasks := StepAfter(parser, obj, below);
        case End =>
          ok := parser.at == |raw|;
          tasks := below;
          EndStep(raw, out, at, below);
      }
      if !ok {
        Rejected(raw, out, at, Push(task, below));
        return None;
      }
    }
    FinalOutcome(raw, parser.out, parser.at);
    return Some(parser.out);
  }

  lemma Rejected(raw: bytes, out: bytes, at: nat, tasks: Stack<Task>)
    requires Ready(raw, out, at, tasks) && Meaning(tasks, raw[at..]).None?
    ensures Outcome(raw, out, at, tasks).None?
  {
  }

  lemma EndStep(raw: bytes, out: bytes, at: nat, below: Stack<Task>)
    requires Ready(raw, out, at, Push(End, below))
    ensures at < |raw| ==> Meaning(Push(End, below), raw[at..]).None?
    ensures at == |raw| ==>
            Ready(raw, out, at, below) && Outcome(raw, out, at, below) == Outcome(raw, out, at, Push(End, below))
  {
  }

  lemma FinalOutcome(raw: bytes, out: bytes, at: nat)
    requires Ready(raw, out, at, Empty)
    ensures Outcome(raw, out, at, Empty) == Some(out)
  {
    assert out[..at] + out[at..] == out;
  }
}
