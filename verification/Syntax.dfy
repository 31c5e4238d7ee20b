/**
 The concrete syntax of JSON and HuJSON as trees. A tree keeps every byte: each
 value owns the extras (whitespace and comments) on both sides of it, as HuJSON does.
 A text belongs to the language exactly when it is the printed form of a
 well-formed tree.
 */
module Syntax {
  import opened Bytes
  import opened Lexemes

  datatype Node = Node(before: bytes, body: Body, after: bytes)

  datatype Body =
    | Scalar(text: bytes)
    | Group(obj: bool, items: Items)

  /** What follows an opening bracket or a comma, through the closing bracket. */
  datatype Items =
    | Close(extra: bytes)
    | Last(item: Item)
    | More(item: Item, rest: Items)

  datatype Item =
    | Element(value: Node)
    | Member(name: Node, value: Node)

  function Opener(obj: bool): byte {
    if obj then OPEN_BRACE else OPEN_BRACKET
  }

  function Closer(obj: bool): byte {
    if obj then CLOSE_BRACE else CLOSE_BRACKET
  }

  // ----- printing: each function gives the text of its first argument followed by `r` -----

  function NodeText(n: Node, r: bytes): bytes {
    n.before + BodyText(n.body, n.after + r)
  }

  function BodyText(b: Body, r: bytes): bytes {
    match b
    case Scalar(text) => text + r
    case Group(obj, items) => [Opener(obj)] + ItemsText(items, obj, r)
  }

  function ItemsText(items: Items, obj: bool, r: bytes): bytes {
    match items
    case Close(extra) => extra + ([Closer(obj)] + r)
    case Last(item) => ItemText(item, [Closer(obj)] + r)
    case More(item, rest) => ItemText(item, [COMMA] + ItemsText(rest, obj, r))
  }

  function ItemText(item: Item, r: bytes): bytes {
    match item
    case Element(value) => NodeText(value, r)
    case Member(name, value) => NodeText(name, [COLON] + NodeText(value, r))
  }

  function Print(n: Node): bytes {
    NodeText(n, [])
  }

  // ----- the grammar -----

  ghost predicate WfNode(n: Node, d: Dialect) {
    IsExtra(n.before, d) && WfBody(n.body, d) && IsExtra(n.after, d)
  }

  ghost predicate WfBody(b: Body, d: Dialect) {
    match b
    case Scalar(text) => IsScalar(text)
    case Group(obj, items) => WfItems(items, obj, d, true)
  }

  /** Closing right after a comma is HuJSON's trailing comma; JSON closes there only when nothing came before. */
  ghost predicate WfItems(items: Items, obj: bool, d: Dialect, first: bool) {
    match items
    case Close(extra) => IsExtra(extra, d) && (first || d.HuJson?)
    case Last(item) => WfItem(item, obj, d)
    case More(item, rest) => WfItem(item, obj, d) && WfItems(rest, obj, d, false)
  }

  ghost predicate WfItem(item: Item, obj: bool, d: Dialect) {
    match item
    case Element(value) => !obj && WfNode(value, d)
    case Member(name, value) => obj && WfNode(name, d) && IsName(name) && WfNode(value, d)
  }

  predicate IsName(n: Node) {
    n.body.Scalar? && n.body.text != [] && n.body.text[0] == QUOTE
  }

  lemma NameIsString(name: Node, d: Dialect)
    requires WfNode(name, d) && IsName(name)
    ensures IsString(name.body.text)
  {
    QuoteIsString(name.body.text);
  }

  /** Container nesting. */
  function DepthNode(n: Node): nat {
    DepthBody(n.body)
  }

  function DepthBody(b: Body): nat {
    match b
    case Scalar(_) => 0
    case Group(_, items) => 1 + DepthItems(items)
  }

  function DepthItems(items: Items): nat {
    match items
    case Close(_) => 0
    case Last(item) => DepthNode(item.value)
    case More(item, rest) => Max(DepthNode(item.value), DepthItems(rest))
  }

  function Max(a: nat, b: nat): nat {
    if a >= b then a else b
  }

  // ----- the language -----

  ghost predicate IsDocument(s: bytes, d: Dialect) {
    exists n :: WfNode(n, d) && Print(n) == s
  }

  lemma BodyStart(b: Body, r: bytes, d: Dialect)
    requires WfBody(b, d)
    ensures BodyText(b, r) != []
    ensures b.Group? ==> BodyText(b, r)[0] == Opener(b.obj)
    ensures b.Scalar? ==>
            b.text != [] && BodyText(b, r)[0] == b.text[0] && (b.text[0] == QUOTE || IsWordByte(b.text[0]))
  {
    if b.Scalar? && !IsString(b.text) {
      WordBytes(b.text);
    }
  }
}
