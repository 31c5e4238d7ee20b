/** URL queries: byte strings percent-encoded as in section 2.1 of RFC 3986, with `+` for a space. */
module Queries {
  import opened Bytes
  import opened Wrappers
  import opened Splits

  const SEMICOLON: byte := 0x3b

  // ----- parts -----

  predicate IsUnreserved(b: byte) {
    IsAlphanumeric(b) || b == MINUS || b == 0x5f || b == DOT || b == 0x7e
  }

  function HexDigit(n: nat): byte
    requires n < 16
  {
    if n < 10 then ZERO + n as byte else 0x41 + (n - 10) as byte
  }

  function EncodeByte(b: byte): (r: bytes)
    ensures r != [] && forall i :: 0 <= i < |r| ==> IsUnreserved(r[i]) || r[i] == PLUS || r[i] == PERCENT
  {
    if IsUnreserved(b) then [b]
    else if b == SPACE then [PLUS]
    else [PERCENT, HexDigit(b as nat / 16), HexDigit(b as nat % 16)]
  }

  function EncodePart(s: bytes): (r: bytes)
    ensures forall i :: 0 <= i < |r| ==> IsUnreserved(r[i]) || r[i] == PLUS || r[i] == PERCENT
  {
    if s == [] then [] else EncodeByte(s[0]) + EncodePart(s[1..])
  }

  function DecodePart(s: bytes): Option<bytes> {
    if s == [] then Some([])
    else if s[0] == PERCENT then
      if |s| < 3 || !IsHex(s[1]) || !IsHex(s[2]) then None
      else
        var rest :- DecodePart(s[3..]);
        Some([(HexValue(s[1]) * 16 + HexValue(s[2])) as byte] + rest)
    else
      var rest :- DecodePart(s[1..]);
      Some([if s[0] == PLUS then SPACE else s[0]] + rest)
  }

  lemma DecodeByte(b: byte, r: bytes)
    ensures var rest := DecodePart(r);
            DecodePart(EncodeByte(b) + r) == if rest.None? then None else Some([b] + rest.value)
  {
    if IsUnreserved(b) || b == SPACE {
      assert (EncodeByte(b) + r)[1..] == r;
    } else {
      DecodeEscape(b, r);
    }
  }

  lemma DecodeEscape(b: byte, r: bytes)
    ensures var rest := DecodePart(r);
            DecodePart([PERCENT, HexDigit(b as nat / 16), HexDigit(b as nat % 16)] + r) ==
            if rest.None? then None else Some([b] + rest.value)
  {
    hide HexDigit;
    var hi, lo := HexDigit(b as nat / 16), HexDigit(b as nat % 16);
    var s := [PERCENT, hi, lo] + r;
    HexDigitValue(b as nat / 16);
    HexDigitValue(b as nat % 16);
    assert s[1] == hi && s[2] == lo && s[3..] == r;
  }

  lemma HexDigitValue(n: nat)
    requires n < 16
    ensures IsHex(HexDigit(n)) && HexValue(HexDigit(n)) == n
  {
  }

  /** Decoding undoes encoding, for every byte string. */
  lemma {:induction false} DecodeEncoded(s: bytes)
    ensures DecodePart(EncodePart(s)) == Some(s)
  {
    hide EncodeByte, DecodePart;
    if s == [] {
      assert DecodePart([]) == Some([]) by { DecodeNothing(); }
    } else {
      DecodeEncoded(s[1..]);
      DecodeByte(s[0], EncodePart(s[1..]));
      assert [s[0]] + s[1..] == s;
    }
  }

  lemma DecodeNothing()
    ensures DecodePart([]) == Some([])
  {
  }

  // ----- pairs -----

  type Params = map<bytes, seq<bytes>>

  function Insert(params: Params, key: bytes, value: bytes): Params {
    params[key := (if key in params then params[key] else []) + [value]]
  }

  /** Add one pair; an empty or malformed one, or one with a semicolon, is dropped. */
  function AddPair(params: Params, pair: bytes): Params {
    if pair == [] || SEMICOLON in pair then params
    else
      var at := IndexOf(pair, EQUALS);
      var key, value := DecodePart(pair[..at]), DecodePart(if at < |pair| then pair[at + 1..] else []);
      if key.None? || value.None? then params else Insert(params, key.value, value.value)
  }

  function AddPairs(params: Params, pairs: seq<bytes>): Params
    decreases |pairs|
  {
    if pairs == [] then params else AddPairs(AddPair(params, pairs[0]), pairs[1..])
  }

  /** The parameters of a query, none if it has more pairs than allowed. */
  function Parse(query: bytes, within: nat -> bool): Params {
    var pairs := Split(query, AMPERSAND);
    if !within(|pairs|) then map[] else AddPairs(map[], pairs)
  }

  // ----- encoding a map -----

  /** The entries of a map, in the order of its keys. */
  type Entries = seq<(bytes, seq<bytes>)>

  predicate DistinctKeys(entries: Entries) {
    forall i, j :: 0 <= i < j < |entries| ==> entries[i].0 != entries[j].0
  }

  function MapOf(entries: Entries): Params {
    if entries == [] then map[] else MapOf(entries[1..])[entries[0].0 := entries[0].1]
  }

  function PairText(key: bytes, value: bytes): bytes {
    EncodePart(key) + ([EQUALS] + EncodePart(value))
  }

  function KeyPairs(key: bytes, values: seq<bytes>): seq<bytes> {
    if values == [] then [] else [PairText(key, values[0])] + KeyPairs(key, values[1..])
  }

  function AllPairs(entries: Entries): seq<bytes> {
    if entries == [] then [] else KeyPairs(entries[0].0, entries[0].1) + AllPairs(entries[1..])
  }

  function Encode(entries: Entries): bytes {
    Join(AllPairs(entries), AMPERSAND)
  }

  // ----- reading back -----

  predicate Clean(pair: bytes) {
    pair != [] && AMPERSAND !in pair && SEMICOLON !in pair
  }

  lemma PartClean(s: bytes)
    ensures AMPERSAND !in EncodePart(s) && SEMICOLON !in EncodePart(s) && EQUALS !in EncodePart(s)
  {
  }

  lemma PairRead(params: Params, key: bytes, value: bytes)
    ensures Clean(PairText(key, value)) && AddPair(params, PairText(key, value)) == Insert(params, key, value)
  {
    hide EncodePart, DecodePart;
    PartClean(key);
    PartClean(value);
    IndexOfFirst(EncodePart(key), EQUALS, EncodePart(value));
    DecodeEncoded(key);
    DecodeEncoded(value);
  }

  lemma {:induction false} AddPairsSplit(params: Params, a: seq<bytes>, b: seq<bytes>)
    ensures AddPairs(params, a + b) == AddPairs(AddPairs(params, a), b)
    decreases |a|
  {
    hide AddPair;
    if a == [] {
      assert a + b == b;
    } else {
      assert (a + b)[1..] == a[1..] + b;
      AddPairsSplit(AddPair(params, a[0]), a[1..], b);
    }
  }

  function Before(params: Params, key: bytes): seq<bytes> {
    if key in params then params[key] else []
  }

  /** The pairs of one key add its values in order. */
  lemma {:induction false} AddKey(params: Params, key: bytes, values: seq<bytes>)
    ensures AddPairs(params, KeyPairs(key, values)) ==
            if values == [] then params else params[key := Before(params, key) + values]
    ensures forall i :: 0 <= i < |KeyPairs(key, values)| ==> Clean(KeyPairs(key, values)[i])
    decreases |values|
  {
    hide AddPair, Clean, PairText;
    if values != [] {
      var rest := values[1..];
      PairRead(params, key, values[0]);
      AddKey(Insert(params, key, values[0]), key, rest);
      assert KeyPairs(key, values)[1..] == KeyPairs(key, rest);
      assert values == [values[0]] + rest;
      InsertThen(params, key, values[0], rest);
    }
  }

  lemma InsertThen(params: Params, key: bytes, value: bytes, rest: seq<bytes>)
    ensures var next := Insert(params, key, value);
            (if rest == [] then next else next[key := Before(next, key) + rest]) ==
            params[key := Before(params, key) + ([value] + rest)]
  {
    assert Before(params, key) + [value] + rest == Before(params, key) + ([value] + rest);
    assert [value] + [] == [value];
  }

  /** The map of the entries that have values. */
  function Kept(entries: Entries): Params {
    if entries == [] then map[]
    else if entries[0].1 == [] then Kept(entries[1..])
    else Kept(entries[1..])[entries[0].0 := entries[0].1]
  }

  predicate Apart(params: Params, entries: Entries) {
    DistinctKeys(entries) && forall i :: 0 <= i < |entries| ==> entries[i].0 !in params
  }

  lemma {:induction false} AddEntries(params: Params, entries: Entries)
    requires Apart(params, entries)
    ensures AddPairs(params, AllPairs(entries)) == params + Kept(entries)
    ensures forall i :: 0 <= i < |AllPairs(entries)| ==> Clean(AllPairs(entries)[i])
    decreases |entries|
  {
    hide AddPair, Clean, KeyPairs, AddPairs;
    if entries == [] {
      NoPairs(params);
    } else {
      var (key, values) := entries[0];
      AddKey(params, key, values);
      AddPairsSplit(params, KeyPairs(key, values), AllPairs(entries[1..]));
      var next := if values == [] then params else params[key := values];
      assert Before(params, key) + values == values;
      assert forall i :: 0 <= i < |entries| - 1 ==> entries[1..][i] == entries[i + 1];
      AddEntries(next, entries[1..]);
      KeptStep(params, entries);
    }
  }

  lemma NoPairs(params: Params)
    ensures AddPairs(params, []) == params && params + Kept([]) == params
  {
  }

  lemma KeptStep(params: Params, entries: Entries)
    requires entries != [] && Apart(params, entries)
    ensures var (key, values) := entries[0];
            params + Kept(entries) == (if values == [] then params else params[key := values]) + Kept(entries[1..])
  {
    var (key, values) := entries[0];
    KeptKeys(entries[1..], key);
    assert forall i :: 0 < i < |entries| ==> entries[1..][i - 1] == entries[i];
  }

  /** A key of the kept map is a key of the entries, and has values. */
  lemma {:induction false} KeptKeys(entries: Entries, key: bytes)
    ensures key in Kept(entries) ==> Kept(entries)[key] != [] && exists i :: 0 <= i < |entries| && entries[i].0 == key
  {
    if entries != [] {
      KeptKeys(entries[1..], key);
      if key in Kept(entries[1..]) {
        var i :| 0 <= i < |entries[1..]| && entries[1..][i].0 == key;
        assert entries[i + 1].0 == key;
      }
    }
  }

  predicate AllValued(entries: Entries) {
    forall i :: 0 <= i < |entries| ==> entries[i].1 != []
  }

  lemma {:induction false} KeptAll(entries: Entries)
    requires AllValued(entries)
    ensures Kept(entries) == MapOf(entries)
  {
    if entries != [] {
      KeptAll(entries[1..]);
    }
  }

  lemma {:induction false} MapOfAt(entries: Entries, i: nat)
    requires DistinctKeys(entries) && i < |entries|
    ensures entries[i].0 in MapOf(entries) && MapOf(entries)[entries[i].0] == entries[i].1
  {
    if i > 0 {
      assert forall j :: 0 <= j < |entries| - 1 ==> entries[1..][j] == entries[j + 1];
      MapOfAt(entries[1..], i - 1);
    }
  }

  lemma CleanPairs(entries: Entries)
    requires forall i :: 0 <= i < |AllPairs(entries)| ==> Clean(AllPairs(entries)[i])
    ensures forall i :: 0 <= i < |AllPairs(entries)| ==> AMPERSAND !in AllPairs(entries)[i]
  {
    hide AllPairs;
    assert forall i :: 0 <= i < |AllPairs(entries)| ==> Clean(AllPairs(entries)[i]);
  }

  lemma EmptyQuery()
    ensures Split([], AMPERSAND) == [[]] && AddPairs(map[], [[]]) == map[]
  {
    var pairs: seq<bytes> := [[]];
    assert AddPair(map[], []) == map[] && pairs[1..] == [];
  }

  /** What an encoded map is read as. */
  lemma ParseEncoded(entries: Entries, within: nat -> bool)
    requires DistinctKeys(entries)
    ensures Parse(Encode(entries), within) ==
            if AllPairs(entries) != [] && within(|AllPairs(entries)|) then Kept(entries) else map[]
  {
    hide AddPair, AllPairs, Kept, MapOf;
    AddEntries(map[], entries);
    assert map[] + Kept(entries) == Kept(entries);
    if AllPairs(entries) != [] {
      CleanPairs(entries);
      SplitJoined(AllPairs(entries), AMPERSAND);
    } else {
      EmptyQuery();
    }
  }

  /**
   A map of keys to value lists is read back exactly when every list has a value and the pairs are
   within the limit.
   */
  lemma RoundTrip(entries: Entries, within: nat -> bool)
    requires DistinctKeys(entries)
    ensures Parse(Encode(entries), within) == MapOf(entries) <==>
            entries == [] || (AllValued(entries) && within(|AllPairs(entries)|))
  {
    hide Parse, Encode, Kept, AllPairs, MapOf;
    ParseEncoded(entries, within);
    if entries == [] {
      NothingEncoded();
    } else {
      MapOfAt(entries, 0);
      if AllValued(entries) {
        KeptAll(entries);
        assert AllPairs(entries) != [] by { SomePair(entries); }
      } else {
        var i :| 0 <= i < |entries| && entries[i].1 == [];
        MapOfAt(entries, i);
        KeptKeys(entries, entries[i].0);
      }
    }
  }

  lemma NothingEncoded()
    ensures AllPairs([]) == [] && MapOf([]) == map[]
  {
  }

  lemma SomePair(entries: Entries)
    requires entries != [] && entries[0].1 != []
    ensures AllPairs(entries) != []
  {
  }

  // ----- a query that is read, written and read again -----

  /** A value is found under its key, at its place among the key's values. */
  ghost function Places(params: Params): set<(bytes, nat)> {
    set key, i: nat | key in params && i < |params[key]| :: (key, i)
  }

  lemma InsertPlaces(params: Params, key: bytes, value: bytes)
    ensures |Places(Insert(params, key, value))| == |Places(params)| + 1
  {
    var place := (key, |Before(params, key)|);
    assert place !in Places(params);
    assert Places(Insert(params, key, value)) == Places(params) + {place};
  }

  predicate Filled(params: Params) {
    forall key :: key in params ==> params[key] != []
  }

  /** A query has a pair for every value read from it, and a value for every key. */
  lemma {:induction false} PairsPlaces(params: Params, pairs: seq<bytes>)
    requires Filled(params)
    ensures Filled(AddPairs(params, pairs))
    ensures |Places(AddPairs(params, pairs))| <= |Places(params)| + |pairs|
    decreases |pairs|
  {
    hide Places, DecodePart;
    if pairs != [] {
      var next := AddPair(params, pairs[0]);
      if next != params {
        var pair, at := pairs[0], IndexOf(pairs[0], EQUALS);
        var key, value := DecodePart(pair[..at]), DecodePart(if at < |pair| then pair[at + 1..] else []);
        InsertPlaces(params, key.value, value.value);
      }
      PairsPlaces(next, pairs[1..]);
    }
  }

  lemma {:induction false} KeyPlaces(params: Params, key: bytes, values: seq<bytes>)
    requires key !in params
    ensures |Places(params[key := values])| == |Places(params)| + |values|
    decreases |values|
  {
    if values == [] {
      assert Places(params[key := values]) == Places(params);
    } else {
      var init, last := values[..|values| - 1], values[|values| - 1];
      KeyPlaces(params, key, init);
      InsertPlaces(params[key := init], key, last);
      assert init + [last] == values;
      assert Insert(params[key := init], key, last) == params[key := values];
    }
  }

  lemma {:induction false} MapOfKeys(entries: Entries, key: bytes)
    ensures key in MapOf(entries) ==> exists i :: 0 <= i < |entries| && entries[i].0 == key
  {
    if entries != [] && key in MapOf(entries[1..]) {
      MapOfKeys(entries[1..], key);
      var i :| 0 <= i < |entries[1..]| && entries[1..][i].0 == key;
      assert entries[i + 1].0 == key;
    }
  }

  lemma KeyPairsLen(key: bytes, values: seq<bytes>)
    ensures |KeyPairs(key, values)| == |values|
  {
  }

  /** An encoded map has a pair for every value. */
  lemma {:induction false} EntriesPlaces(entries: Entries)
    requires DistinctKeys(entries)
    ensures |AllPairs(entries)| == |Places(MapOf(entries))|
  {
    hide Places, KeyPairs;
    if entries == [] {
      NoPlaces();
    } else {
      var (key, values) := entries[0];
      assert forall i :: 0 <= i < |entries| - 1 ==> entries[1..][i] == entries[i + 1];
      EntriesPlaces(entries[1..]);
      MapOfKeys(entries[1..], key);
      KeyPlaces(MapOf(entries[1..]), key, values);
      KeyPairsLen(key, values);
    }
  }

  lemma NoPlaces()
    ensures Places(map[]) == {} && Filled(map[])
  {
  }

  /** A limit that allows a number of pairs allows fewer. */
  ghost predicate IsLimit(within: nat -> bool) {
    forall a: nat, b: nat :: a <= b && within(b) ==> within(a)
  }

  /** The limit on the number of pairs, from the setting if there is one; zero stands for no limit. */
  function Limit(setting: Option<int>): nat -> bool {
    (count: nat) =>
      if setting.None? then count <= 10_000
      else setting.value == 0 || (setting.value > 0 && count < setting.value)
  }

  lemma LimitIsLimit(setting: Option<int>)
    ensures IsLimit(Limit(setting))
  {
  }

  /** What is read from a query, written out in any order of its keys, is read again. */
  lemma Reparsed(query: bytes, entries: Entries, within: nat -> bool)
    requires IsLimit(within) && DistinctKeys(entries) && MapOf(entries) == Parse(query, within)
    ensures Parse(Encode(entries), within) == Parse(query, within)
  {
    hide Encode, AllPairs, MapOf, Places, AddPairs;
    RoundTrip(entries, within);
    NoPlaces();
    if entries != [] {
      MapOfAt(entries, 0);
      var pairs := Split(query, AMPERSAND);
      PairsPlaces(map[], pairs);
      EntriesPlaces(entries);
      forall i | 0 <= i < |entries| ensures entries[i].1 != [] { MapOfAt(entries, i); }
      assert within(|AllPairs(entries)|);
    }
  }

  // ----- the loops -----

  method EncodeQueryPart(input: bytes, output: bytes) returns (r: bytes)
    ensures r == output + EncodePart(input)
  {
    hide EncodeByte;
    r := output;
    var i := 0;
    assert input[0..] == input;
    while i < |input|
      invariant 0 <= i <= |input| && r + EncodePart(input[i..]) == output + EncodePart(input)
    {
      assert input[i..][1..] == input[i + 1..];
      assert r + (EncodeByte(input[i]) + EncodePart(input[i + 1..])) ==
             r + EncodeByte(input[i]) + EncodePart(input[i + 1..]);
      r := r + EncodeByte(input[i]);
      i := i + 1;
    }
    assert r + [] == r;
  }

  /** Append pairs to an encoded list of pairs. */
  function JoinOnto(output: bytes, pairs: seq<bytes>): bytes {
    if pairs == [] then output else (if output == [] then [] else output + [AMPERSAND]) + Join(pairs, AMPERSAND)
  }

  lemma JoinOntoOne(output: bytes, pair: bytes, rest: seq<bytes>)
    requires pair != []
    ensures JoinOnto(output, [pair] + rest) ==
            JoinOnto((if output == [] then [] else output + [AMPERSAND]) + pair, rest)
  {
    assert ([pair] + rest)[1..] == rest;
    var head: bytes := if output == [] then [] else output + [AMPERSAND];
    if rest != [] {
      assert head + (pair + ([AMPERSAND] + Join(rest, AMPERSAND))) == head + pair + [AMPERSAND] + Join(rest, AMPERSAND);
    }
  }

  method EncodeValues(key: bytes, values: seq<bytes>, output: bytes, ghost later: seq<bytes>) returns (r: bytes)
    ensures JoinOnto(r, later) == JoinOnto(output, KeyPairs(key, values) + later)
  {
    hide EncodePart, JoinOnto;
    r := output;
    var i := 0;
    assert values[0..] == values;
    while i < |values|
      invariant 0 <= i <= |values|
      invariant JoinOnto(r, KeyPairs(key, values[i..]) + later) == JoinOnto(output, KeyPairs(key, values) + later)
    {
      assert values[i..][1..] == values[i + 1..];
      var pair := PairText(key, values[i]);
      ghost var rest := KeyPairs(key, values[i + 1..]) + later;
      assert [pair] + KeyPairs(key, values[i + 1..]) + later == [pair] + rest;
      JoinOntoOne(r, pair, rest);
      if r != [] {
        r := r + [AMPERSAND];
      }
      ghost var before := r;
      r := EncodeQueryPart(key, r);
      r := r + [EQUALS];
      r := EncodeQueryPart(values[i], r);
      assert r == before + pair;
      i := i + 1;
    }
    assert [] + later == later;
  }

  method EncodeQuery(entries: Entries) returns (output: bytes)
    ensures output == Encode(entries)
  {
    hide KeyPairs, JoinOnto;
    output := [];
    var i := 0;
    assert entries[0..] == entries;
    while i < |entries|
      invariant 0 <= i <= |entries| && JoinOnto(output, AllPairs(entries[i..])) == JoinOnto([], AllPairs(entries))
    {
      assert entries[i..][1..] == entries[i + 1..];
      output := EncodeValues(entries[i].0, entries[i].1, output, AllPairs(entries[i + 1..]));
      i := i + 1;
    }
    assert entries[i..] == [];
    JoinOntoEnds(output, AllPairs(entries));
  }

  lemma JoinOntoEnds(output: bytes, pairs: seq<bytes>)
    ensures JoinOnto(output, []) == output && JoinOnto([], pairs) == Join(pairs, AMPERSAND)
  {
    assert [] + Join(pairs, AMPERSAND) == Join(pairs, AMPERSAND);
  }

  method DecodeQueryPart(input: bytes) returns (r: Option<bytes>)
    ensures r == DecodePart(input)
  {
    var out: bytes, at := [], 0;
    assert input[0..] == input;
    WithFront([], DecodePart(input));
    while at < |input|
      invariant 0 <= at <= |input| && DecodePart(input) == Front(out, DecodePart(input[at..]))
    {
      ghost var before, rest := out, input[at..];
      if input[at] == PLUS {
        assert rest[1..] == input[at + 1..];
        out := out + [SPACE];
      } else if input[at] == PERCENT {
        if at + 1 >= |input| || !IsHex(input[at + 1]) { return None; }
        if at + 2 >= |input| || !IsHex(input[at + 2]) { return None; }
        assert rest[3..] == input[at + 3..];
        out := out + [(HexValue(input[at + 1]) * 16 + HexValue(input[at + 2])) as byte];
        at := at + 2;
      } else {
        assert rest[1..] == input[at + 1..];
        out := out + [input[at]];
      }
      at := at + 1;
      FrontFront(before, out[|before|..], DecodePart(input[at..]));
      assert before + out[|before|..] == out;
    }
    assert out + [] == out;
    r := Some(out);
  }

  function Front(out: bytes, r: Option<bytes>): Option<bytes> {
    if r.None? then None else Some(out + r.value)
  }

  lemma WithFront(out: bytes, r: Option<bytes>)
    requires out == []
    ensures Front(out, r) == r
  {
    if r.Some? {
      assert [] + r.value == r.value;
    }
  }

  lemma FrontFront(a: bytes, b: bytes, r: Option<bytes>)
    ensures Front(a, Front(b, r)) == Front(a + b, r)
  {
    if r.Some? {
      assert a + (b + r.value) == a + b + r.value;
    }
  }

  method ParsePair(params: Params, pair: bytes) returns (r: Params)
    ensures r == AddPair(params, pair)
  {
    hide DecodePart;
    if pair == [] || SEMICOLON in pair { return params; }
    var at := IndexOf(pair, EQUALS);
    var key := DecodeQueryPart(pair[..at]);
    var value := DecodeQueryPart(if at < |pair| then pair[at + 1..] else []);
    if key.None? || value.None? { return params; }
    r := Insert(params, key.value, value.value);
  }

  method ParseQuery(query: bytes, within: nat -> bool) returns (params: Params)
    ensures params == Parse(query, within)
  {
    hide AddPair;
    params := map[];
    var pairs := Split(query, AMPERSAND);
    if !within(|pairs|) { return; }
    var i := 0;
    assert pairs[0..] == pairs;
    while i < |pairs|
      invariant 0 <= i <= |pairs| && AddPairs(params, pairs[i..]) == AddPairs(map[], pairs)
    {
      assert pairs[i..][1..] == pairs[i + 1..];
      params := ParsePair(params, pairs[i]);
      i := i + 1;
    }
  }
}
