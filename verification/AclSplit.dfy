/**
 Access rules with several destinations are split into one rule for each, since a rule pairs every
 one of its destinations with every one of its ports.
 */
module AclSplit {
  import opened Bytes
  import opened Wrappers
  import opened Decimals
  import opened Splits
  import opened PortRanges

  // ----- the ports of a destination -----

  /** A trimmer of white space leaves alone what has none. */
  ghost predicate Trims(trim: bytes -> bytes) {
    forall s: bytes :: (forall i :: 0 <= i < |s| ==> 0x21 <= s[i] <= 0x7e) ==> trim(s) == s
  }

  function PartPatterns(protocol: bytes, parts: seq<bytes>, trim: bytes -> bytes): seq<bytes> {
    if parts == [] then []
    else
      var ranges := ReadRanges(trim(parts[0]));
      (if ranges.None? then [] else Patterns(protocol, ranges.value)) + PartPatterns(protocol, parts[1..], trim)
  }

  function NormalizePorts(protocol: bytes, spec: bytes, trim: bytes -> bytes): seq<bytes> {
    if SLASH in spec || (|spec| >= 2 && spec[0] == STAR && spec[1] == COLON) then [spec]
    else PartPatterns(protocol, Split(spec, COMMA), trim)
  }

  predicate IsPortByte(b: byte) {
    IsDigit(b) || b == PLUS || b == MINUS
  }

  predicate AllPortBytes(s: bytes) {
    forall i :: 0 <= i < |s| ==> IsPortByte(s[i])
  }

  lemma PortBytes(s: bytes)
    requires ReadPort(s).Some?
    ensures AllPortBytes(s)
  {
    var digits := if s[0] == PLUS || s[0] == MINUS then s[1..] else s;
    assert forall i :: 0 <= i < |digits| ==> IsDigit(digits[i]);
    if |digits| < |s| {
      assert s == [s[0]] + digits;
    }
  }

  lemma {:induction false} JoinBytes(parts: seq<bytes>, b: byte)
    requires IsPortByte(b) || b == COMMA
    requires forall i :: 0 <= i < |parts| ==> AllPortBytes(parts[i])
    ensures forall i :: 0 <= i < |Join(parts, b)| ==> Join(parts, b)[i] == b || IsPortByte(Join(parts, b)[i])
  {
    if |parts| > 1 {
      JoinBytes(parts[1..], b);
    }
  }

  lemma {:induction false} NonEmptyBytes(parts: seq<bytes>)
    requires forall i :: 0 <= i < |NonEmpty(parts)| ==> AllPortBytes(NonEmpty(parts)[i])
    ensures forall i :: 0 <= i < |parts| ==> AllPortBytes(parts[i])
  {
    hide AllPortBytes;
    if parts != [] {
      var rest := NonEmpty(parts[1..]);
      var k := |NonEmpty(parts)| - |rest|;
      assert forall i :: 0 <= i < |rest| ==> rest[i] == NonEmpty(parts)[i + k];
      NonEmptyBytes(parts[1..]);
      if parts[0] == [] {
        NoBytes();
      } else {
        assert NonEmpty(parts)[0] == parts[0];
      }
    }
  }

  lemma NoBytes()
    ensures AllPortBytes([])
  {
  }

  lemma RangeBytes(part: bytes)
    requires ReadRange(part).Some?
    ensures AllPortBytes(part) && COMMA !in part && part != [STAR]
  {
    hide ReadPort, Split, Join;
    if MINUS in part {
      var parts := Split(part, MINUS);
      var ends := NonEmpty(parts);
      PortBytes(ends[0]);
      PortBytes(ends[1]);
      NonEmptyBytes(parts);
      JoinBytes(parts, MINUS);
      JoinSplit(part, MINUS);
    } else {
      PortBytes(part);
    }
    assert forall i :: 0 <= i < |part| ==> part[i] != STAR && part[i] != COMMA;
    assert [STAR][0] == STAR;
  }

  /** Each part of a readable list reads alone as it reads in the list. */
  lemma {:induction false} PartsNormalize(protocol: bytes, parts: seq<bytes>, trim: bytes -> bytes)
    requires Trims(trim) && ReadParts(parts).Some?
    ensures PartPatterns(protocol, parts, trim) == Patterns(protocol, ReadParts(parts).value)
    ensures forall i :: 0 <= i < |parts| ==> AllPortBytes(parts[i])
  {
    hide ReadRange, Pattern, AllPortBytes;
    if parts == [] {
    } else {
      PartsNormalize(protocol, parts[1..], trim);
      OnePart(parts[0], trim);
      RangeBytes(parts[0]);
      var first, rest := ReadRange(parts[0]).value, ReadParts(parts[1..]).value;
      assert Patterns(protocol, [first] + rest) == Patterns(protocol, [first]) + Patterns(protocol, rest);
    }
  }

  lemma OnePart(part: bytes, trim: bytes -> bytes)
    requires Trims(trim) && ReadRange(part).Some?
    ensures ReadRanges(trim(part)) == Some([ReadRange(part).value])
  {
    hide ReadRange;
    RangeBytes(part);
    assert trim(part) == part;
    IndexOfNone(part, COMMA);
    assert Split(part, COMMA) == [part];
    var parts := [part];
    assert parts[1..] == [] && ReadParts([]) == Some([]) && [ReadRange(part).value] + [] == [ReadRange(part).value];
    assert ReadParts(parts) == Some([ReadRange(part).value]);
  }

  lemma ValidPorts(protocol: bytes, spec: bytes, trim: bytes -> bytes)
    requires Trims(trim) && ReadRanges(spec).Some?
    ensures NormalizePorts(protocol, spec, trim) == Patterns(protocol, ReadRanges(spec).value)
  {
    hide ReadRange, Pattern, ReadParts, PartPatterns, Split, Join, Trims;
    if spec == [STAR] {
      AnyPort(protocol, spec, trim);
    } else {
      var parts := Split(spec, COMMA);
      PartsNormalize(protocol, parts, trim);
      JoinBytes(parts, COMMA);
      JoinSplit(spec, COMMA);
      assert forall i :: 0 <= i < |spec| ==> spec[i] != SLASH && spec[i] != STAR;
    }
  }

  lemma AnyPort(protocol: bytes, spec: bytes, trim: bytes -> bytes)
    requires Trims(trim) && spec == [STAR]
    ensures PartPatterns(protocol, Split(spec, COMMA), trim) == Patterns(protocol, [Range(0, MAX_PORT)])
  {
    hide Pattern, Patterns;
    var parts, all := [spec], Patterns(protocol, [Range(0, MAX_PORT)]);
    IndexOfNone(spec, COMMA);
    assert Split(spec, COMMA) == parts && trim(spec) == spec && parts[1..] == [];
    assert PartPatterns(protocol, parts, trim) == all + [] == all;
  }

  // ----- rules -----

  /** A destination already taken apart at its last colon. */
  datatype Destination = Destination(alias: bytes, ports: bytes)

  datatype Acl = Acl(accept: bool, src: seq<bytes>, protocol: bytes, destinations: seq<Destination>)

  datatype Rule = Rule(accept: bool, src: seq<bytes>, dst: seq<bytes>, ports: seq<bytes>)

  /** Reading the ports of every destination, into one list. */
  function LoadPorts(protocol: bytes, destinations: seq<Destination>, trim: bytes -> bytes): Option<seq<bytes>> {
    if destinations == [] then Some([])
    else if ReadRanges(destinations[0].ports).None? then None
    else
      var rest :- LoadPorts(protocol, destinations[1..], trim);
      Some(NormalizePorts(protocol, destinations[0].ports, trim) + rest)
  }

  function Aliases(destinations: seq<Destination>): seq<bytes> {
    if destinations == [] then [] else [destinations[0].alias] + Aliases(destinations[1..])
  }

  function Load(acl: Acl, trim: bytes -> bytes): Option<Rule> {
    var ports :- LoadPorts(acl.protocol, acl.destinations, trim);
    Some(Rule(acl.accept, acl.src, Aliases(acl.destinations), ports))
  }

  function LoadAll(acls: seq<Acl>, trim: bytes -> bytes): Option<seq<Rule>> {
    if acls == [] then Some([])
    else
      var first :- Load(acls[0], trim);
      var rest :- LoadAll(acls[1..], trim);
      Some([first] + rest)
  }

  /** A connection to decide: who its source and destination are is given. */
  datatype Ask = Ask(src: seq<bytes> -> bool, dst: bytes -> bool, ref: PortRef, protocols: Protocols)

  predicate RuleMatches(rule: Rule, ask: Ask) {
    && ask.src(rule.src) && (exists d :: d in rule.dst && ask.dst(d))
    && (rule.ports == [] || exists p :: p in rule.ports && PortMatches(p, ask.ref, ask.protocols))
  }

  /** The first rule that matches decides. */
  function Decide(rules: seq<Rule>, ask: Ask): bool {
    if rules == [] then false else if RuleMatches(rules[0], ask) then rules[0].accept else Decide(rules[1..], ask)
  }

  method Evaluate(rules: seq<Rule>, ask: Ask) returns (accept: bool)
    ensures accept == Decide(rules, ask)
  {
    hide RuleMatches;
    var i := 0;
    assert rules[0..] == rules;
    while i < |rules|
      invariant 0 <= i <= |rules| && Decide(rules, ask) == Decide(rules[i..], ask)
    {
      assert rules[i..][1..] == rules[i + 1..];
      if RuleMatches(rules[i], ask) { return rules[i].accept; }
      i := i + 1;
    }
    accept := false;
  }

  // ----- splitting -----

  const SELF: bytes := [0x61, 0x75, 0x74, 0x6f, 0x67, 0x72, 0x6f, 0x75, 0x70, 0x3a, 0x73, 0x65, 0x6c, 0x66]

  function Select(destinations: seq<Destination>, self: bool): seq<Destination> {
    if destinations == [] then []
    else (if (destinations[0].alias == SELF) == self then [destinations[0]] else []) + Select(destinations[1..], self)
  }

  /** Destinations other than `autogroup:self` first, unless all are autogroups. */
  function Ordered(destinations: seq<Destination>, autogroup: bytes -> bool): seq<Destination> {
    if exists d :: d in destinations && !autogroup(d.alias) then
      Select(destinations, false) + Select(destinations, true)
    else destinations
  }

  function Each(acl: Acl, destinations: seq<Destination>): seq<Acl> {
    if destinations == [] then [] else [acl.(destinations := [destinations[0]])] + Each(acl, destinations[1..])
  }

  function Split1(acl: Acl, autogroup: bytes -> bool): seq<Acl> {
    if |acl.destinations| <= 1 then [acl] else Each(acl, Ordered(acl.destinations, autogroup))
  }

  function SplitAll(acls: seq<Acl>, autogroup: bytes -> bool): seq<Acl> {
    if acls == [] then [] else Split1(acls[0], autogroup) + SplitAll(acls[1..], autogroup)
  }

  // ----- splitting keeps every decision -----

  /** What a list of destinations asks for: one that names the destination and whose own ports hold. */
  ghost predicate Names(acl: Acl, d: Destination, ask: Ask) {
    && ask.dst(d.alias) && ReadRanges(d.ports).Some?
    && exists r :: r in ReadRanges(d.ports).value && Holds(acl.protocol, r, ask.ref, ask.protocols)
  }

  ghost predicate Means(acl: Acl, ask: Ask) {
    ask.src(acl.src) && exists d :: d in acl.destinations && Names(acl, d, ask)
  }

  ghost function Intended(acls: seq<Acl>, ask: Ask): bool {
    if acls == [] then false else if Means(acls[0], ask) then acls[0].accept else Intended(acls[1..], ask)
  }

  predicate IsAsk(ask: Ask) {
    ask.ref.port.Some? ==> ask.ref.port.value <= MAX_PORT
  }

  lemma PatternsHold(protocol: bytes, ranges: seq<Range>, ask: Ask)
    requires IsAsk(ask) && IsProtocol(protocol) && forall i :: 0 <= i < |ranges| ==> IsRange(ranges[i])
    ensures (exists p :: p in Patterns(protocol, ranges) && PortMatches(p, ask.ref, ask.protocols)) <==>
            exists r :: r in ranges && Holds(protocol, r, ask.ref, ask.protocols)
  {
    hide Pattern, PortMatches, Holds, IsProtocol;
    var patterns := Patterns(protocol, ranges);
    forall i | 0 <= i < |ranges|
      ensures PortMatches(patterns[i], ask.ref, ask.protocols) <==> Holds(protocol, ranges[i], ask.ref, ask.protocols) {
      PatternHolds(protocol, ranges[i], ask.ref, ask.protocols);
    }
    if p :| p in patterns && PortMatches(p, ask.ref, ask.protocols) {
      var i :| 0 <= i < |patterns| && patterns[i] == p;
      assert ranges[i] in ranges;
    }
    if r :| r in ranges && Holds(protocol, r, ask.ref, ask.protocols) {
      var i :| 0 <= i < |ranges| && ranges[i] == r;
      assert patterns[i] in patterns;
    }
  }

  lemma LoadOne(acl: Acl, trim: bytes -> bytes)
    requires |acl.destinations| == 1
    ensures var d := acl.destinations[0];
            Load(acl, trim) ==
            if ReadRanges(d.ports).None? then None
            else Some(Rule(acl.accept, acl.src, [d.alias], NormalizePorts(acl.protocol, d.ports, trim)))
  {
    hide NormalizePorts, ReadRanges;
    var d := acl.destinations[0];
    assert acl.destinations == [d] && acl.destinations[1..] == [];
    assert LoadPorts(acl.protocol, [], trim) == Some([]) && Aliases([]) == [];
    var ports := NormalizePorts(acl.protocol, d.ports, trim);
    assert ports + [] == ports && [d.alias] + [] == [d.alias];
  }

  /** A rule with one destination means what its access list means. */
  lemma OneDestination(acl: Acl, ask: Ask, trim: bytes -> bytes)
    requires |acl.destinations| == 1 && Trims(trim) && IsAsk(ask) && IsProtocol(acl.protocol)
    ensures Load(acl, trim).Some? <==> ReadRanges(acl.destinations[0].ports).Some?
    ensures Load(acl, trim).Some? ==>
            Load(acl, trim).value.accept == acl.accept && (RuleMatches(Load(acl, trim).value, ask) <==> Means(acl, ask))
  {
    hide Load, Holds, PortMatches, IsProtocol, Trims, NormalizePorts, ReadRanges;
    var d := acl.destinations[0];
    LoadOne(acl, trim);
    assert acl.destinations == [d];
    if ReadRanges(d.ports).Some? {
      ValidPorts(acl.protocol, d.ports, trim);
      PatternsHold(acl.protocol, ReadRanges(d.ports).value, ask);
      assert d.alias in [d.alias] && d in acl.destinations;
    }
  }

  lemma NoDestination(acl: Acl, ask: Ask, trim: bytes -> bytes)
    requires acl.destinations == []
    ensures Load(acl, trim).Some? && !RuleMatches(Load(acl, trim).value, ask) && !Means(acl, ask)
  {
  }

  // ----- order does not matter within one access list -----

  lemma {:induction false} SelectMembers(destinations: seq<Destination>, d: Destination, self: bool)
    ensures d in Select(destinations, self) <==> d in destinations && (d.alias == SELF) == self
  {
    if destinations != [] {
      SelectMembers(destinations[1..], d, self);
      assert destinations == [destinations[0]] + destinations[1..];
    }
  }

  lemma OrderedMembers(destinations: seq<Destination>, autogroup: bytes -> bool, d: Destination)
    ensures d in Ordered(destinations, autogroup) <==> d in destinations
  {
    SelectMembers(destinations, d, false);
    SelectMembers(destinations, d, true);
  }

  ghost predicate AnyNames(acl: Acl, destinations: seq<Destination>, ask: Ask) {
    exists d :: d in destinations && Names(acl, d, ask)
  }

  /** One rule for each destination, in front of other rules. */
  lemma {:induction false} EachDecides(acl: Acl, destinations: seq<Destination>, later: seq<Rule>, ask: Ask,
                                       trim: bytes -> bytes)
    requires Trims(trim) && IsAsk(ask) && IsProtocol(acl.protocol) && LoadAll(Each(acl, destinations), trim).Some?
    ensures Decide(LoadAll(Each(acl, destinations), trim).value + later, ask) ==
            if ask.src(acl.src) && AnyNames(acl, destinations, ask) then acl.accept else Decide(later, ask)
    decreases |destinations|
  {
    hide RuleMatches, Load, Names, IsProtocol, Trims;
    var rules := LoadAll(Each(acl, destinations), trim).value;
    if destinations == [] {
      assert rules + later == later;
    } else {
      var one := acl.(destinations := [destinations[0]]);
      OneDestination(one, ask, trim);
      SameNames(acl, one, destinations[0], ask);
      assert Each(acl, destinations)[1..] == Each(acl, destinations[1..]);
      var rest := LoadAll(Each(acl, destinations[1..]), trim).value;
      assert rules == [Load(one, trim).value] + rest && (rules + later)[1..] == rest + later;
      EachDecides(acl, destinations[1..], later, ask, trim);
      assert forall d :: d in destinations <==> d == destinations[0] || d in destinations[1..];
    }
  }

  lemma SameNames(acl: Acl, one: Acl, d: Destination, ask: Ask)
    requires one == acl.(destinations := [d])
    ensures Means(one, ask) <==> ask.src(acl.src) && Names(acl, d, ask)
  {
    assert d in one.destinations;
    assert forall e :: Names(one, e, ask) == Names(acl, e, ask);
  }

  lemma Split1Decides(acl: Acl, later: seq<Rule>, ask: Ask, autogroup: bytes -> bool, trim: bytes -> bytes)
    requires Trims(trim) && IsAsk(ask) && IsProtocol(acl.protocol) && LoadAll(Split1(acl, autogroup), trim).Some?
    ensures Decide(LoadAll(Split1(acl, autogroup), trim).value + later, ask) ==
            if Means(acl, ask) then acl.accept else Decide(later, ask)
  {
    hide RuleMatches, Load, Names, IsProtocol, Trims, Ordered;
    if |acl.destinations| <= 1 {
      assert [acl][1..] == [];
      var rule := Load(acl, trim).value;
      assert LoadAll([acl], trim).value == [rule] + [] == [rule] && ([rule] + later)[1..] == later;
      if acl.destinations == [] {
        NoDestination(acl, ask, trim);
      } else {
        OneDestination(acl, ask, trim);
      }
    } else {
      EachDecides(acl, Ordered(acl.destinations, autogroup), later, ask, trim);
      forall d ensures d in Ordered(acl.destinations, autogroup) <==> d in acl.destinations {
        OrderedMembers(acl.destinations, autogroup, d);
      }
    }
  }

  lemma {:induction false} LoadSplit(a: seq<Acl>, b: seq<Acl>, trim: bytes -> bytes)
    ensures LoadAll(a + b, trim) ==
            if LoadAll(a, trim).None? || LoadAll(b, trim).None? then None
            else Some(LoadAll(a, trim).value + LoadAll(b, trim).value)
    decreases |a|
  {
    hide Load;
    if a == [] {
      assert a + b == b;
      if LoadAll(b, trim).Some? {
        assert [] + LoadAll(b, trim).value == LoadAll(b, trim).value;
      }
    } else {
      assert (a + b)[1..] == a[1..] + b;
      LoadSplit(a[1..], b, trim);
      var first, x, y := Load(a[0], trim), LoadAll(a[1..], trim), LoadAll(b, trim);
      if first.Some? && x.Some? && y.Some? {
        assert [first.value] + (x.value + y.value) == [first.value] + x.value + y.value;
      }
    }
  }

  /** The split rules decide every connection as the access lists intend: each destination with its own ports. */
  lemma {:induction false} SplitDecides(acls: seq<Acl>, ask: Ask, autogroup: bytes -> bool, trim: bytes -> bytes)
    requires Trims(trim) && IsAsk(ask) && forall i :: 0 <= i < |acls| ==> IsProtocol(acls[i].protocol)
    requires LoadAll(SplitAll(acls, autogroup), trim).Some?
    ensures Decide(LoadAll(SplitAll(acls, autogroup), trim).value, ask) == Intended(acls, ask)
    decreases |acls|
  {
    hide Load, RuleMatches, Means, IsProtocol, Trims, Split1;
    if acls != [] {
      var first, rest := Split1(acls[0], autogroup), SplitAll(acls[1..], autogroup);
      LoadSplit(first, rest, trim);
      SplitDecides(acls[1..], ask, autogroup, trim);
      Split1Decides(acls[0], LoadAll(rest, trim).value, ask, autogroup, trim);
    }
  }

  // ----- the loop -----

  method SplitAcls(acls: seq<Acl>, autogroup: bytes -> bool) returns (r: seq<Acl>)
    ensures r == SplitAll(acls, autogroup)
  {
    hide Ordered, Each;
    r := [];
    var i := 0;
    assert acls[0..] == acls;
    while i < |acls|
      invariant 0 <= i <= |acls| && r + SplitAll(acls[i..], autogroup) == SplitAll(acls, autogroup)
    {
      assert acls[i..][1..] == acls[i + 1..];
      ghost var later := SplitAll(acls[i + 1..], autogroup);
      assert r + (Split1(acls[i], autogroup) + later) == r + Split1(acls[i], autogroup) + later;
      var acl := acls[i];
      if |acl.destinations| <= 1 {
        r := r + [acl];
      } else {
        r := AppendEach(r, acl, Ordered(acl.destinations, autogroup));
      }
      i := i + 1;
    }
    assert r + [] == r;
  }

  method AppendEach(acls: seq<Acl>, acl: Acl, destinations: seq<Destination>) returns (r: seq<Acl>)
    ensures r == acls + Each(acl, destinations)
  {
    r := acls;
    var j := 0;
    assert destinations[0..] == destinations;
    while j < |destinations|
      invariant 0 <= j <= |destinations| && r + Each(acl, destinations[j..]) == acls + Each(acl, destinations)
    {
      var one := acl.(destinations := [destinations[j]]);
      assert destinations[j..][1..] == destinations[j + 1..];
      assert r + ([one] + Each(acl, destinations[j + 1..])) == r + [one] + Each(acl, destinations[j + 1..]);
      r := r + [one];
      j := j + 1;
    }
    assert r + [] == r;
  }

  // ----- why splitting matters -----

  const WEB: bytes := [0x77]
  const SHELL: bytes := [0x73]

  predicate Anyone(src: seq<bytes>) {
    true
  }

  predicate IsWeb(alias: bytes) {
    alias == WEB
  }

  /** Two destinations in one rule pair each with the other's port: the unsplit rule accepts more than was written. */
  lemma UnsplitAcceptsMore(trim: bytes -> bytes, protocols: Protocols)
    requires Trims(trim)
    ensures var acl := Acl(true, [], [], [Destination(WEB, Digits(443)), Destination(SHELL, Digits(22))]);
            var ask := Ask(Anyone, IsWeb, PortRef(None, Some(22)), protocols);
            Load(acl, trim).Some? && RuleMatches(Load(acl, trim).value, ask) && !Means(acl, ask)
  {
    hide Digits, PortMatches, Trims, NormalizePorts, ReadRanges, Patterns, Pattern;
    var web, shell := Destination(WEB, Digits(443)), Destination(SHELL, Digits(22));
    var acl := Acl(true, [], [], [web, shell]);
    var ask := Ask(Anyone, IsWeb, PortRef(None, Some(22)), protocols);
    SinglePort(443);
    SinglePort(22);
    ValidPorts([], Digits(443), trim);
    ValidPorts([], Digits(22), trim);
    PatternHolds([], Range(22, 22), ask.ref, protocols);
    var p, q := Pattern([], Range(443, 443)), Pattern([], Range(22, 22));
    assert Patterns([], [Range(443, 443)]) == [p] && Patterns([], [Range(22, 22)]) == [q];
    LoadTwo(acl, web, shell, trim);
    var rule := Load(acl, trim).value;
    assert rule.dst[0] == WEB && rule.ports == [p] + [q] && rule.ports[1] == q;
    assert ask.dst(rule.dst[0]) && rule.dst[0] in rule.dst && q in rule.ports && RuleMatches(rule, ask);
    assert SHELL[0] != WEB[0] && !Names(acl, shell, ask);
    assert forall r :: r in ReadRanges(web.ports).value ==> r == Range(443, 443);
    assert !Names(acl, web, ask);
  }

  lemma LoadTwo(acl: Acl, a: Destination, b: Destination, trim: bytes -> bytes)
    requires acl.destinations == [a, b] && ReadRanges(a.ports).Some? && ReadRanges(b.ports).Some?
    ensures Load(acl, trim) ==
            Some(Rule(acl.accept, acl.src, [a.alias, b.alias],
                      NormalizePorts(acl.protocol, a.ports, trim) + NormalizePorts(acl.protocol, b.ports, trim)))
  {
    hide NormalizePorts, ReadRanges;
    var all, one := [a, b], [b];
    assert all[1..] == one && one[1..] == [];
    var q := NormalizePorts(acl.protocol, b.ports, trim);
    assert LoadPorts(acl.protocol, [], trim) == Some([]) && q + [] == q;
    assert LoadPorts(acl.protocol, one, trim) == Some(q);
    assert Aliases([]) == [] && Aliases(one) == [b.alias] + [] == [b.alias]
           && Aliases(all) == [a.alias] + [b.alias] == [a.alias, b.alias];
  }

  lemma SinglePort(n: nat)
    requires 0 < n <= MAX_PORT
    ensures ReadRanges(Digits(n)) == Some([Range(n, n)])
  {
    hide Digits;
    var s := Digits(n);
    ValueOfDigits(n);
    assert IsDigit(s[0]) && AllDigits(s);
    assert forall i :: 0 <= i < |s| ==> s[i] != COMMA && s[i] != MINUS && s[i] != STAR;
    IndexOfNone(s, COMMA);
    var parts := [s];
    assert Split(s, COMMA) == parts && parts[1..] == [] && s != [STAR];
    assert ReadRange(s) == Some(Range(n, n)) && ReadParts([]) == Some([]);
    assert [Range(n, n)] + [] == [Range(n, n)];
  }
}
