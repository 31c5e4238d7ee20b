/** What the policy text passes do to the value a policy stands for. */
module PolicyMeaning {
  import opened Bytes
  import opened Wrappers
  import opened Lexemes
  import opened Syntax
  import opened Reader
  import opened Trees
  import opened Standard
  import opened Metadata
  import opened HuJson
  import opened PolicyText
  import opened PolicyValue
  import opened PolicyValueLoop

  function TreeDepth(t: Tree): nat
    decreases t
  {
    match t
    case Atom(_) => 0
    case Composite(_, entries) => 1 + EntriesDepth(entries)
  }

  function EntriesDepth(entries: seq<Entry>): nat
    decreases entries
  {
    if entries == [] then 0 else Max(TreeDepth(entries[0].value), EntriesDepth(entries[1..]))
  }

  lemma {:induction false} BodyTreeDepth(b: Body)
    ensures TreeDepth(TreeOfBody(b)) == DepthBody(b)
    decreases b, 0
  {
    if b.Group? {
      ItemsTreeDepth(b.items);
    }
  }

  lemma {:induction false} ItemsTreeDepth(items: Items)
    ensures EntriesDepth(Entries(items)) == DepthItems(items)
    decreases items, 1
  {
    hide TreeOfBody, DepthBody, TreeDepth, EntriesDepth;
    match items
    case Close(_) => NoEntries();
    case Last(item) =>
      BodyTreeDepth(item.value.body);
      NoEntries();
      assert EntryOf(item).value == TreeOfBody(item.value.body);
      assert [EntryOf(item)] + [] == [EntryOf(item)];
      MoreEntries(EntryOf(item), []);
    case More(item, rest) =>
      BodyTreeDepth(item.value.body);
      assert EntryOf(item).value == TreeOfBody(item.value.body);
      assert Entries(items) == [EntryOf(item)] + Entries(rest);
      ItemsTreeDepth(rest);
      MoreEntries(EntryOf(item), Entries(rest));
  }

  lemma NoEntries()
    ensures EntriesDepth([]) == 0
  {
  }

  lemma MoreEntries(e: Entry, rest: seq<Entry>)
    ensures EntriesDepth([e] + rest) == Max(TreeDepth(e.value), EntriesDepth(rest))
  {
    hide TreeDepth;
    assert ([e] + rest)[1..] == rest;
  }

  lemma {:induction false} StripDepth(t: Tree)
    ensures TreeDepth(Strip(t)) <= TreeDepth(t)
    decreases t
  {
    if t.Composite? {
      StripEntriesDepth(t.obj, t.entries);
    }
  }

  lemma {:induction false} StripEntriesDepth(obj: bool, entries: seq<Entry>)
    ensures EntriesDepth(StripEntries(obj, entries)) <= EntriesDepth(entries)
    decreases entries
  {
    hide TreeDepth, Strip, IsMetadata, IsApp;
    if entries != [] {
      var e, rest := entries[0], StripEntries(obj, entries[1..]);
      StripDepth(e.value);
      StripEntriesDepth(obj, entries[1..]);
      assert ([e] + rest)[1..] == rest;
      assert ([Entry(e.name, Strip(e.value))] + rest)[1..] == rest;
    }
  }

  lemma {:induction false} NodeNamed(n: Node, d: Dialect)
    requires WfNode(n, d)
    ensures WellNamed(TreeOf(n))
    decreases n
  {
    hide WfItems;
    if n.body.Group? {
      ItemsNamed(n.body.items, n.body.obj, d, true);
    }
  }

  lemma {:induction false} ItemsNamed(items: Items, obj: bool, d: Dialect, first: bool)
    requires WfItems(items, obj, d, first)
    ensures WellNamedEntries(obj, Entries(items))
    decreases items
  {
    hide WfNode, TreeOf, WellNamed, IsString;
    if !items.Close? {
      var item, rest := items.item, if items.More? then Entries(items.rest) else [];
      NodeNamed(item.value, d);
      if items.More? {
        ItemsNamed(items.rest, obj, d, false);
      }
      assert Entries(items) == [EntryOf(item)] + rest && Entries(items)[1..] == rest;
      if obj {
        NameIsString(item.name, d);
      }
    }
  }

  /**
   The metadata pass on text does to the policy's value what the recursive stripper does to it:
   whatever value the standardized text has, the prepared text has that value with every member
   whose name starts with `#` removed, except below `app`.
   */
  lemma PreparedValue(raw: bytes, m: Mode, d: Decoders)
    requires Agrees(m, d)
    ensures Prepared(raw).Some? <==> Standardized(raw).Some?
    ensures Standardized(raw).Some? && Parsed(Standardized(raw).value, m, d).Some? ==>
              Parsed(Prepared(raw).value, m, d) == Some(StripValue(Parsed(Standardized(raw).value, m, d).value))
  {
    hide Agrees, WfNode, ReadDocument, TreeOf, Strip, ValueOf, StripValue, IsDocument, Standardized, Prepared, Masks;
    StandardizedCorrect(raw);
    PreparedCorrect(raw);
    if Standardized(raw).Some? && Parsed(Standardized(raw).value, m, d).Some? {
      var n := ReadDocument(raw, HuJson).value;
      var std, prepared := StdNode(n), ReadDocument(Prepared(raw).value, Json).value;
      ReadDocumentExact(raw, HuJson);
      NodeNamed(n, HuJson);
      StripCommutes(TreeOf(n), m, d);
      StripDepth(TreeOf(n));
      BodyTreeDepth(std.body);
      BodyTreeDepth(prepared.body);
      assert TreeOf(std) == TreeOfBody(std.body) && TreeOf(prepared) == TreeOfBody(prepared.body) by {
        Roots(std);
        Roots(prepared);
      }
    }
  }

  lemma Roots(n: Node)
    ensures TreeOf(n) == TreeOfBody(n.body)
  {
  }
}
