/**
 The value a JSON text stands for: arrays keep their elements in order, an object is a map from
 decoded names, and a repeated name either keeps the last value or is refused.
 */
module PolicyValue {
  import opened Bytes
  import opened Wrappers
  import opened Lexemes
  import opened Trees
  import opened Unquoting
  import opened Metadata

  type Name = seq<nat>

  datatype Value =
    | Null
    | Bool(truth: bool)
    | Number(number: bytes)
    | Text(text: Name)
    | Array(values: seq<Value>)
    | Object(members: map<Name, Value>)

  datatype Mode = Exact | StrictAny | LegacyExact | LegacyStrictAny {
    predicate UniqueNames() {
      StrictAny? || LegacyStrictAny?
    }

    predicate Legacy() {
      LegacyExact? || LegacyStrictAny?
    }
  }

  /** The strict string decoder and the two number decoders, which belong to other libraries. */
  datatype Decoders = Decoders(strict: bytes -> Option<Name>, exact: bytes -> Option<bytes>,
                               binary64: bytes -> Option<bytes>)

  function DecodeString(token: bytes, m: Mode, d: Decoders): Option<Name> {
    if m.Legacy() then Unquote(token) else d.strict(token)
  }

  function DecodeNumber(token: bytes, m: Mode, d: Decoders): Option<bytes> {
    if m.UniqueNames() then d.binary64(token) else d.exact(token)
  }

  function ScalarValue(token: bytes, m: Mode, d: Decoders): Option<Value> {
    if token != [] && token[0] == QUOTE then
      var text :- DecodeString(token, m, d);
      Some(Text(text))
    else if token == NULL then Some(Null)
    else if token == TRUE then Some(Bool(true))
    else if token == FALSE then Some(Bool(false))
    else
      var number :- DecodeNumber(token, m, d);
      Some(Number(number))
  }

  /** The recursive definition. */
  function ValueOf(t: Tree, m: Mode, d: Decoders): Option<Value>
    decreases t
  {
    match t
    case Atom(token) => ScalarValue(token, m, d)
    case Composite(false, entries) =>
      var values :- ElementValues(entries, m, d);
      Some(Array(values))
    case Composite(true, entries) =>
      var members :- MemberValues(entries, m, d);
      if m.UniqueNames() && !DistinctNames(members) then None else Some(Object(LastWins(members)))
  }

  function ElementValues(entries: seq<Entry>, m: Mode, d: Decoders): Option<seq<Value>>
    decreases entries
  {
    if entries == [] then Some([])
    else
      var value :- ValueOf(entries[0].value, m, d);
      var rest :- ElementValues(entries[1..], m, d);
      Some([value] + rest)
  }

  function MemberValues(entries: seq<Entry>, m: Mode, d: Decoders): Option<seq<(Name, Value)>>
    decreases entries
  {
    if entries == [] then Some([])
    else
      var name :- DecodeString(entries[0].name, m, d);
      var value :- ValueOf(entries[0].value, m, d);
      var rest :- MemberValues(entries[1..], m, d);
      Some([(name, value)] + rest)
  }

  predicate DistinctNames(members: seq<(Name, Value)>) {
    forall i, j :: 0 <= i < j < |members| ==> members[i].0 != members[j].0
  }

  function LastWins(members: seq<(Name, Value)>): map<Name, Value> {
    if members == [] then map[]
    else
      var (name, value) := members[0];
      var rest := LastWins(members[1..]);
      if name in rest then rest else rest[name := value]
  }

  /** A name is in the map exactly when some member has it, with the value of the last such member. */
  lemma {:induction false} LastWinsMeaning(members: seq<(Name, Value)>, name: Name)
    ensures name in LastWins(members) <==> exists i :: 0 <= i < |members| && members[i].0 == name
    ensures name in LastWins(members) ==>
              exists i :: 0 <= i < |members| && members[i] == (name, LastWins(members)[name]) &&
                forall j :: i < j < |members| ==> members[j].0 != name
  {
    if members != [] {
      LastWinsMeaning(members[1..], name);
      assert forall i :: 0 < i < |members| ==> members[i] == members[1..][i - 1];
      if name in LastWins(members[1..]) {
        var i :| 0 <= i < |members[1..]| && members[1..][i] == (name, LastWins(members[1..])[name]) &&
          forall j :: i < j < |members[1..]| ==> members[1..][j].0 != name;
        assert members[i + 1] == (name, LastWins(members)[name]);
      } else if members[0].0 == name {
        assert members[0] == (name, LastWins(members)[name]);
      }
    }
  }

  // ----- stripping metadata members from a value -----

  predicate IsHash(name: Name) {
    name != [] && name[0] == 0x23
  }

  function StripValue(v: Value): Value {
    match v
    case Array(values) => Array(seq(|values|, i requires 0 <= i < |values| => StripValue(values[i])))
    case Object(members) =>
      Object(map name | name in members && !IsHash(name) :: if name == APP then members[name]
             else StripValue(members[name]))
    case _ => v
  }

  /** Every string token the chosen decoder accepts is decoded as the metadata pass decodes it. */
  ghost predicate Agrees(m: Mode, d: Decoders) {
    forall token :: IsString(token) && DecodeString(token, m, d).Some? ==> Unquote(token) == DecodeString(token, m, d)
  }

  /** Every object name is a string token. */
  predicate WellNamed(t: Tree)
    decreases t
  {
    t.Composite? ==> WellNamedEntries(t.obj, t.entries)
  }

  predicate WellNamedEntries(obj: bool, entries: seq<Entry>)
    decreases entries
  {
    entries == []
    || ((obj ==> IsString(entries[0].name)) && WellNamed(entries[0].value) && WellNamedEntries(obj, entries[1..]))
  }

  /** Stripping the member lists and then building the value is building the value and then stripping its maps. */
  lemma {:induction false} StripCommutes(t: Tree, m: Mode, d: Decoders)
    requires Agrees(m, d) && WellNamed(t) && ValueOf(t, m, d).Some?
    ensures ValueOf(Strip(t), m, d) == Some(StripValue(ValueOf(t, m, d).value))
    decreases t
  {
    hide ScalarValue, DistinctNames, LastWins, StripEntries, ElementValues, MemberValues, WellNamedEntries;
    match t
    case Atom(_) =>
      ScalarStays(t, m, d);
    case Composite(false, entries) =>
      StripElements(entries, m, d);
    case Composite(true, entries) =>
      var members := MemberValues(entries, m, d).value;
      StripMemberList(entries, m, d);
      StripDistinct(members);
      StripLastWins(members);
  }

  lemma ScalarStays(t: Tree, m: Mode, d: Decoders)
    requires t.Atom? && ValueOf(t, m, d).Some?
    ensures StripValue(ValueOf(t, m, d).value) == ValueOf(t, m, d).value
  {
  }

  lemma {:induction false} StripElements(entries: seq<Entry>, m: Mode, d: Decoders)
    requires Agrees(m, d) && WellNamedEntries(false, entries) && ElementValues(entries, m, d).Some?
    ensures var values := ElementValues(entries, m, d).value;
            ElementValues(StripEntries(false, entries), m, d) ==
            Some(seq(|values|, i requires 0 <= i < |values| => StripValue(values[i])))
    decreases entries
  {
    hide ValueOf, StripValue, Strip, WellNamed;
    var values := ElementValues(entries, m, d).value;
    var stripped := seq(|values|, i requires 0 <= i < |values| => StripValue(values[i]));
    if entries == [] {
      assert stripped == [];
    } else {
      StripCommutes(entries[0].value, m, d);
      StripElements(entries[1..], m, d);
      var rest := ElementValues(entries[1..], m, d).value;
      assert stripped == [StripValue(values[0])] + seq(|rest|, i requires 0 <= i < |rest| => StripValue(rest[i]));
      var e := Entry(entries[0].name, Strip(entries[0].value));
      assert ([e] + StripEntries(false, entries[1..]))[1..] == StripEntries(false, entries[1..]);
    }
  }

  /** The members that survive, stripped. */
  function StripPairs(members: seq<(Name, Value)>): seq<(Name, Value)> {
    if members == [] then []
    else
      var (name, value) := members[0];
      var rest := StripPairs(members[1..]);
      if IsHash(name) then rest else [(name, if name == APP then value else StripValue(value))] + rest
  }

  lemma {:induction false} StripMemberList(entries: seq<Entry>, m: Mode, d: Decoders)
    requires Agrees(m, d) && WellNamedEntries(true, entries) && MemberValues(entries, m, d).Some?
    ensures MemberValues(StripEntries(true, entries), m, d) == Some(StripPairs(MemberValues(entries, m, d).value))
    decreases entries
  {
    hide ValueOf, StripValue, Strip, DecodeString, WellNamed, IsString;
    if entries != [] {
      var e := entries[0];
      StripCommutes(e.value, m, d);
      StripMemberList(entries[1..], m, d);
      var rest := StripEntries(true, entries[1..]);
      var (name, value) := MemberValues(entries, m, d).value[0];
      assert Unquote(e.name) == Some(name);
      assert MemberValues(entries, m, d).value[1..] == MemberValues(entries[1..], m, d).value;
      var kept := if name == APP then e else Entry(e.name, Strip(e.value));
      assert ([kept] + rest)[1..] == rest;
    }
  }

  lemma {:induction false} StripDistinct(members: seq<(Name, Value)>)
    ensures DistinctNames(members) ==> DistinctNames(StripPairs(members))
    ensures forall i :: 0 <= i < |StripPairs(members)| ==>
              exists j :: 0 <= j < |members| && members[j].0 == StripPairs(members)[i].0
  {
    hide StripValue;
    if members != [] {
      var rest := members[1..];
      StripDistinct(rest);
      assert forall i :: 0 <= i < |rest| ==> rest[i] == members[i + 1];
      if DistinctNames(members) {
        assert DistinctNames(rest);
      }
    }
  }

  lemma {:induction false} StripLastWins(members: seq<(Name, Value)>)
    ensures StripValue(Object(LastWins(members))) == Object(LastWins(StripPairs(members)))
  {
    hide StripValue;
    if members == [] {
      StripNothing();
    } else {
      StripLastWins(members[1..]);
      var pairs := StripPairs(members[1..]);
      var (name, value) := members[0];
      StripWith(LastWins(members[1..]), name, value);
      var kept := (name, if name == APP then value else StripValue(value));
      assert ([kept] + pairs)[1..] == pairs;
    }
  }

  lemma StripNothing()
    ensures StripValue(Object(map[])) == Object(map[])
  {
  }

  /** A member more, under a name of its own. */
  lemma StripWith(members: map<Name, Value>, name: Name, value: Value)
    ensures StripValue(Object(members)).Object?
    ensures var kept := StripValue(Object(members)).members;
            && (name in kept <==> name in members && !IsHash(name))
            && (name !in members ==>
                  StripValue(Object(members[name := value])) ==
                  if IsHash(name) then Object(kept)
                    else Object(kept[name := if name == APP then value else StripValue(value)]))
  {
    hide IsHash;
  }
}
