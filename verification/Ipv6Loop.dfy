/** The address reader: a loop over the text and a buffer of sixteen octets. */
module Ipv6Loop {
  import opened Bytes
  import opened Wrappers
  import opened IpText
  import opened Ipv6

  /** The position of the zone mark, or the end. */
  function ZoneMark(s: bytes): (n: nat)
    ensures n <= |s| && PERCENT !in s[..n] && (n < |s| ==> s[n] == PERCENT)
  {
    if s == [] || s[0] == PERCENT then 0
    else
      var n := ZoneMark(s[1..]);
      assert s[..1 + n] == [s[0]] + s[1..][..n];
      1 + n
  }

  /** An address, and the zone after a `%`, which must not be empty. */
  function ReadZoned(s: bytes): Option<(bytes, Option<bytes>)> {
    var z := ZoneMark(s);
    if z == |s| then
      var address :- ReadAddress(s);
      Some((address, None))
    else if z + 1 == |s| then None
    else
      var address :- ReadAddress(s[..z]);
      Some((address, Some(s[z + 1..])))
  }

  /** Read a group's digits and their value; 0 digits if there are too many or none. */
  method ReadGroup(text: bytes) returns (offset: nat, value: nat)
    ensures offset <= |text| && (offset == 0 <==> HexLen(text) == 0 || HexLen(text) > 4)
    ensures offset > 0 ==> offset == HexLen(text) && value == HexNumber(text[..offset]) < 0x10000
  {
    hide HexLen;
    offset, value := 0, 0;
    while offset < |text| && IsHex(text[offset])
      invariant 0 <= offset <= |text| && offset <= 4 && offset <= HexLen(text)
      invariant forall i :: 0 <= i < offset ==> IsHex(text[i])
      invariant value == HexNumber(text[..offset])
    {
      assert text[..offset + 1][..offset] == text[..offset];
      value := value * 16 + HexValue(text[offset]);
      if offset > 3 { return 0, 0; }
      offset := offset + 1;
    }
    HexBelow(text[..offset]);
  }

  /** Move what follows the gap to the end, and fill the gap with zeros. */
  method Widen(octets: array<byte>, gap: nat, position: nat)
    requires octets.Length == 16 && gap <= position < 16
    modifies octets
    ensures octets[..] == old(octets[..gap]) + Zeros(16 - position) + old(octets[gap..position])
  {
    var count := 16 - position;
    ghost var was := octets[..];
    forall i | gap <= i < position {
      octets[i + count] := octets[i];
    }
    forall i | gap <= i < gap + count {
      octets[i] := 0;
    }
    assert octets[..gap] == was[..gap];
    assert octets[gap..gap + count] == Zeros(count);
    assert octets[gap + count..] == was[gap..position];
    assert octets[..] == octets[..gap] + octets[gap..gap + count] + octets[gap + count..];
  }

  method Ipv6Address(input: bytes) returns (r: Option<(bytes, Option<bytes>)>)
    ensures r == ReadZoned(input)
  {
    hide Scan, Finish;
    var z := FindZone(input);
    var text, zone := input[..z], None;
    if z < |input| {
      zone := Some(input[z + 1..]);
      if zone.value == [] { return None; }
    } else {
      assert input[..z] == input;
    }
    var address := ReadOctets(text);
    if address.None? { return None; }
    r := Some((address.value, zone));
  }

  method FindZone(s: bytes) returns (z: nat)
    ensures z == ZoneMark(s)
  {
    z := 0;
    assert s[0..] == s;
    while z < |s| && s[z] != PERCENT
      invariant 0 <= z <= |s| && ZoneMark(s) == z + ZoneMark(s[z..])
    {
      assert s[z..][1..] == s[z + 1..];
      z := z + 1;
    }
  }

  lemma ScanStep(t: bytes, out: bytes, gap: Option<nat>)
    requires |out| < 16 && (gap.Some? ==> gap.value <= |out|)
    ensures var k := HexLen(t);
            Scan(t, out, gap) ==
            if k > 4 || k == 0 then None
            else if k < |t| && t[k] == DOT then
              if (gap.None? && |out| != 12) || |out| + 4 > 16 || ReadQuad(t).None? then None
                else Finish(out + ReadQuad(t).value, gap)
            else AfterGroup(t[k..], out + GroupOctets(t[..k]), gap)
  {
    hide Finish, HexLen, QuadScan, GroupOctets;
  }

  lemma AtEnd(text: bytes, out: bytes, gap: Option<nat>)
    requires |out| >= 16 && (gap.Some? ==> gap.value <= |out|)
    ensures Scan(text, out, gap) == if text != [] then None else Finish(out, gap)
  {
  }

  /** Expand the gap, which must stand for something. */
  method FinishOctets(octets: array<byte>, position: nat, gap: Option<nat>) returns (r: Option<bytes>)
    requires octets.Length == 16 && position <= 16 && (gap.Some? ==> gap.value <= position)
    modifies octets
    ensures r == Finish(old(octets[..position]), gap)
  {
    ghost var out := octets[..position];
    if position < 16 {
      if gap.None? { return None; }
      assert octets[..gap.value] == out[..gap.value] && octets[gap.value..position] == out[gap.value..];
      Widen(octets, gap.value, position);
      return Some(octets[..]);
    }
    if gap.Some? { return None; }
    assert octets[..] == out;
    r := Some(octets[..]);
  }

  method Store(octets: array<byte>, position: nat, piece: bytes)
    requires octets.Length == 16 && position + |piece| <= 16
    modifies octets
    ensures octets[..position + |piece|] == old(octets[..position]) + piece
  {
    forall i | 0 <= i < |piece| {
      octets[position + i] := piece[i];
    }
  }

  method ReadOctets(input: bytes) returns (r: Option<bytes>)
    ensures r == ReadAddress(input)
  {
    hide Scan, Finish, HexLen, QuadScan, QuadTail;
    var octets := new byte[16](_ => 0);
    var text, gap: Option<nat> := input, None;
    if |text| >= 2 && text[0] == COLON && text[1] == COLON {
      gap, text := Some(0), text[2..];
      if text == [] {
        assert octets[..] == Zeros(16);
        return Some(octets[..]);
      }
    }
    var position: nat := 0;
    ghost var expected := ReadAddress(input);
    assert octets[..0] == [];
    while position < 16
      invariant position <= 16 && position % 2 == 0 && (gap.Some? ==> gap.value <= position)
      invariant expected == Scan(text, octets[..position], gap)
      decreases 16 - position
    {
      ScanStep(text, octets[..position], gap);
      var offset, value := ReadGroup(text);
      if offset == 0 { return None; }
      if offset < |text| && text[offset] == DOT {
        if gap.None? && position != 12 { return None; }
        if position + 4 > 16 { return None; }
        var quad := Ipv4Fields(text);
        if quad.None? { return None; }
        ReadQuadExact(text, quad.value);
        Store(octets, position, quad.value);
        text, position := [], position + 4;
        r := FinishOctets(octets, position, gap);
        return;
      }
      Store(octets, position, [(value / 256) as byte, (value % 256) as byte]);
      position := position + 2;
      text := text[offset..];
      if text == [] {
        r := FinishOctets(octets, position, gap);
        return;
      }
      if text[0] != COLON { return None; }
      if |text| == 1 { return None; }
      if text[1] == COLON {
        if gap.Some? { return None; }
        gap, text := Some(position), text[2..];
        if text == [] {
          r := FinishOctets(octets, position, gap);
          return;
        }
      } else {
        text := text[1..];
      }
    }
    AtEnd(text, octets[..position], gap);
    if text != [] { return None; }
    r := FinishOctets(octets, position, gap);
  }
}
