/** Port ranges of an access rule: reading them, writing them as patterns, and matching the patterns. */
module PortRanges {
  import opened Bytes
  import opened Wrappers
  import opened Decimals
  import opened Splits

  const MAX_PORT: nat := 65535

  datatype Range = Range(first: nat, last: nat)

  predicate IsRange(r: Range) {
    r.first <= r.last <= MAX_PORT
  }

  // ----- reading -----

  predicate IsNumeral(s: bytes) {
    s != [] && AllDigits(s)
  }

  /** A port written as a signed number. */
  function ReadPort(s: bytes): (r: Option<nat>)
    ensures r.Some? ==> r.value <= MAX_PORT
  {
    var digits := if s != [] && (s[0] == PLUS || s[0] == MINUS) then s[1..] else s;
    if !IsNumeral(digits) then None
    else if Value(digits) > MAX_PORT || (s[0] == MINUS && Value(digits) > 0) then None
    else Some(Value(digits))
  }

  function NonEmpty(parts: seq<bytes>): seq<bytes> {
    if parts == [] then [] else (if parts[0] == [] then [] else [parts[0]]) + NonEmpty(parts[1..])
  }

  /** One port, or two ends; empty pieces between dashes do not count. */
  function ReadRange(part: bytes): (r: Option<Range>)
    ensures r.Some? ==> IsRange(r.value)
  {
    if MINUS in part then
      var ends := NonEmpty(Split(part, MINUS));
      if |ends| != 2 then None
      else
        var first :- ReadPort(ends[0]);
        var last :- ReadPort(ends[1]);
        if first > last then None else Some(Range(first, last))
    else
      var port :- ReadPort(part);
      if port == 0 then None else Some(Range(port, port))
  }

  function ReadParts(parts: seq<bytes>): (r: Option<seq<Range>>)
    ensures r.Some? ==> |r.value| == |parts| && forall i :: 0 <= i < |parts| ==> IsRange(r.value[i])
  {
    if parts == [] then Some([])
    else
      var first :- ReadRange(parts[0]);
      var rest :- ReadParts(parts[1..]);
      Some([first] + rest)
  }

  function ReadRanges(spec: bytes): (r: Option<seq<Range>>)
    ensures r.Some? ==> r.value != [] && forall i :: 0 <= i < |r.value| ==> IsRange(r.value[i])
  {
    if spec == [STAR] then Some([Range(0, MAX_PORT)]) else ReadParts(Split(spec, COMMA))
  }

  method ParsePortRanges(spec: bytes) returns (r: Option<seq<Range>>)
    ensures r == ReadRanges(spec)
  {
    hide ReadRange, Split;
    if spec == [STAR] { return Some([Range(0, MAX_PORT)]); }
    var parts := Split(spec, COMMA);
    var ranges: seq<Range>, i := [], 0;
    ReadFrom([], parts);
    assert parts[0..] == parts;
    while i < |parts|
      invariant 0 <= i <= |parts| && ReadParts(parts) == Onto(ranges, ReadParts(parts[i..]))
    {
      assert parts[i..][1..] == parts[i + 1..];
      var range := ReadRange(parts[i]);
      if range.None? { return None; }
      OntoOne(ranges, range.value, ReadParts(parts[i + 1..]));
      ranges := ranges + [range.value];
      i := i + 1;
    }
    assert ranges + [] == ranges;
    r := Some(ranges);
  }

  function Onto(ranges: seq<Range>, r: Option<seq<Range>>): Option<seq<Range>> {
    if r.None? then None else Some(ranges + r.value)
  }

  lemma ReadFrom(ranges: seq<Range>, parts: seq<bytes>)
    requires ranges == []
    ensures Onto(ranges, ReadParts(parts)) == ReadParts(parts)
  {
    hide ReadParts;
    if ReadParts(parts).Some? {
      assert [] + ReadParts(parts).value == ReadParts(parts).value;
    }
  }

  lemma OntoOne(ranges: seq<Range>, range: Range, r: Option<seq<Range>>)
    ensures Onto(ranges, Onto([range], r)) == Onto(ranges + [range], r)
  {
    if r.Some? {
      assert ranges + ([range] + r.value) == ranges + [range] + r.value;
    }
  }

  // ----- writing -----

  function PortText(r: Range): bytes {
    if r.first == 0 && r.last == MAX_PORT then [STAR]
    else if r.first == r.last then Digits(r.first)
    else Digits(r.first) + ([MINUS] + Digits(r.last))
  }

  function Named(protocol: bytes): bytes {
    if protocol == [] then [STAR] else protocol
  }

  function Pattern(protocol: bytes, r: Range): bytes {
    Named(protocol) + ([SLASH] + PortText(r))
  }

  function Patterns(protocol: bytes, ranges: seq<Range>): (r: seq<bytes>)
    ensures |r| == |ranges| && forall i :: 0 <= i < |r| ==> r[i] == Pattern(protocol, ranges[i])
  {
    seq(|ranges|, i requires 0 <= i < |ranges| => Pattern(protocol, ranges[i]))
  }

  // ----- matching -----

  /** A protocol and a port to look for; either may be left open. */
  datatype PortRef = PortRef(protocol: Option<bytes>, port: Option<nat>)

  function ReadU16(s: bytes): Option<nat> {
    var digits := if s != [] && s[0] == PLUS then s[1..] else s;
    if !IsNumeral(digits) || Value(digits) > MAX_PORT then None else Some(Value(digits))
  }

  predicate PartMatches(part: bytes, port: nat) {
    var at := IndexOf(part, MINUS);
    if at < |part| then
      var lo, hi := ReadU16(part[..at]), ReadU16(part[at + 1..]);
      lo.Some? && hi.Some? && lo.value <= port <= hi.value
    else ReadU16(part) == Some(port)
  }

  /** Which protocol names match is given. */
  type Protocols = (bytes, bytes) -> bool

  predicate ProtocolOk(pattern: bytes, ref: PortRef, protocols: Protocols) {
    pattern == [STAR] || ref.protocol.None? || protocols(pattern, ref.protocol.value)
  }

  predicate PortMatches(pattern: bytes, ref: PortRef, protocols: Protocols) {
    var p := if |pattern| >= 2 && pattern[0] == STAR && pattern[1] == COLON then pattern[2..] else pattern;
    var at := IndexOf(p, SLASH);
    var protocol, port := p[..at], if at < |p| then p[at + 1..] else [STAR];
    ProtocolOk(protocol, ref, protocols) && (port == [STAR] || ref.port.None? || PartMatches(port, ref.port.value))
  }

  /** What a protocol and a range ask for. */
  predicate Holds(protocol: bytes, r: Range, ref: PortRef, protocols: Protocols) {
    ProtocolOk(Named(protocol), ref, protocols) && (ref.port.None? || r.first <= ref.port.value <= r.last)
  }

  lemma ReadU16Of(n: nat)
    requires n <= MAX_PORT
    ensures ReadU16(Digits(n)) == Some(n)
  {
    hide Digits;
    ValueOfDigits(n);
    assert IsDigit(Digits(n)[0]);
  }

  lemma PartMatchesText(r: Range, port: nat)
    requires IsRange(r) && port <= MAX_PORT && PortText(r) != [STAR]
    ensures PartMatches(PortText(r), port) <==> r.first <= port <= r.last
  {
    hide Digits, IndexOf, ReadU16;
    ReadU16Of(r.first);
    ReadU16Of(r.last);
    assert MINUS !in Digits(r.first) by { assert AllDigits(Digits(r.first)); }
    if r.first == r.last {
      IndexOfNone(Digits(r.first), MINUS);
    } else {
      IndexOfFirst(Digits(r.first), MINUS, Digits(r.last));
    }
  }

  lemma StarText(r: Range)
    requires IsRange(r)
    ensures PortText(r) == [STAR] <==> r == Range(0, MAX_PORT)
  {
    assert IsDigit(Digits(r.first)[0]);
  }

  /** A protocol as a pattern can carry it. */
  predicate IsProtocol(protocol: bytes) {
    SLASH !in protocol && !(|protocol| >= 2 && protocol[0] == STAR && protocol[1] == COLON)
  }

  /** Writing a range as a pattern and matching the pattern is asking the range itself. */
  lemma PatternHolds(protocol: bytes, r: Range, ref: PortRef, protocols: Protocols)
    requires IsProtocol(protocol) && IsRange(r) && (ref.port.Some? ==> ref.port.value <= MAX_PORT)
    ensures PortMatches(Pattern(protocol, r), ref, protocols) <==> Holds(protocol, r, ref, protocols)
  {
    hide IndexOf, PartMatches, PortText;
    var named := Named(protocol);
    assert SLASH !in named;
    IndexOfFirst(named, SLASH, PortText(r));
    StarText(r);
    if PortText(r) != [STAR] && ref.port.Some? {
      PartMatchesText(r, ref.port.value);
    }
    var pattern := Pattern(protocol, r);
    assert pattern[0] == named[0] && pattern[1] == if |named| > 1 then named[1] else SLASH;
  }
}
