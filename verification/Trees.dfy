/**
 What a JSON text says, without its spelling of whitespace: scalars, and containers as
 ordered lists of entries. Repeated object names are kept, in order.
 */
module Trees {
  import opened Bytes
  import opened Syntax

  datatype Tree =
    | Atom(text: bytes)
    | Composite(obj: bool, entries: seq<Entry>)

  /** An array element has an empty name; an object name is the quoted text. */
  datatype Entry = Entry(name: bytes, value: Tree)

  function TreeOf(n: Node): Tree {
    TreeOfBody(n.body)
  }

  function TreeOfBody(b: Body): Tree {
    match b
    case Scalar(text) => Atom(text)
    case Group(obj, items) => Composite(obj, Entries(items))
  }

  function Entries(items: Items): seq<Entry> {
    match items
    case Close(_) => []
    case Last(item) => [EntryOf(item)]
    case More(item, rest) => [EntryOf(item)] + Entries(rest)
  }

  function EntryOf(item: Item): Entry {
    match item
    case Element(value) => Entry([], TreeOf(value))
    case Member(name, value) => Entry(if name.body.Scalar? then name.body.text else [], TreeOf(value))
  }
}
