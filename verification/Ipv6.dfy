/** Reading an IPv6 address into sixteen octets, with `::` expanded in place. */
module Ipv6 {
  import opened Bytes
  import opened Wrappers
  import opened IpText

  // ----- the scanner -----

  /** The number of hexadecimal digits a text starts with. */
  function HexLen(s: bytes): (n: nat)
    ensures n <= |s| && (forall i :: 0 <= i < n ==> IsHex(s[i])) && (n < |s| ==> !IsHex(s[n]))
  {
    if s == [] || !IsHex(s[0]) then 0 else 1 + HexLen(s[1..])
  }

  function HexNumber(s: bytes): nat
    requires forall i :: 0 <= i < |s| ==> IsHex(s[i])
  {
    if s == [] then 0 else 16 * HexNumber(s[..|s| - 1]) + HexValue(s[|s| - 1])
  }

  lemma {:induction false} HexBelow(s: bytes)
    requires |s| <= 4 && forall i :: 0 <= i < |s| ==> IsHex(s[i])
    ensures HexNumber(s) < (if |s| == 0 then 1 else if |s| == 1 then 0x10 else if |s| == 2 then 0x100
                            else if |s| == 3 then 0x1000 else 0x10000)
  {
    if s != [] {
      HexBelow(s[..|s| - 1]);
    }
  }

  predicate IsGroup(s: bytes) {
    0 < |s| <= 4 && forall i :: 0 <= i < |s| ==> IsHex(s[i])
  }

  function GroupOctets(s: bytes): (r: bytes)
    requires IsGroup(s)
    ensures |r| == 2
  {
    HexBelow(s);
    var v := HexNumber(s);
    [(v / 256) as byte, (v % 256) as byte]
  }

  function Zeros(n: nat): bytes {
    seq(n, _ => 0)
  }

  /** Widen the gap to fill the address; a gap must stand for something. */
  function Finish(out: bytes, gap: Option<nat>): Option<bytes>
    requires gap.Some? ==> gap.value <= |out|
  {
    if |out| < 16 then
      if gap.None? then None else Some(out[..gap.value] + Zeros(16 - |out|) + out[gap.value..])
    else if gap.Some? then None
    else Some(out)
  }

  /** The octets read so far, and where the gap among them is. */
  function Scan(t: bytes, out: bytes, gap: Option<nat>): Option<bytes>
    requires gap.Some? ==> gap.value <= |out|
    decreases |t|
  {
    if |out| >= 16 then
      if t != [] then None else Finish(out, gap)
    else
      var k := HexLen(t);
      if k > 4 || k == 0 then None
      else if k < |t| && t[k] == DOT then
        if (gap.None? && |out| != 12) || |out| + 4 > 16 then None
        else
          var quad :- ReadQuad(t);
          Finish(out + quad, gap)
      else AfterGroup(t[k..], out + GroupOctets(t[..k]), gap)
  }

  /** What follows a group. */
  function AfterGroup(u: bytes, more: bytes, gap: Option<nat>): Option<bytes>
    requires gap.Some? ==> gap.value <= |more|
    decreases |u|
  {
    if u == [] then Finish(more, gap)
    else if u[0] != COLON || |u| == 1 then None
    else if u[1] != COLON then Scan(u[1..], more, gap)
    else if gap.Some? then None
    else if u[2..] == [] then Finish(more, Some(|more|))
    else Scan(u[2..], more, Some(|more|))
  }

  function ReadAddress(text: bytes): Option<bytes> {
    if |text| >= 2 && text[0] == COLON && text[1] == COLON then
      if |text| == 2 then Some(Zeros(16)) else Scan(text[2..], [], Some(0))
    else Scan(text, [], None)
  }

  // ----- the declarative reading -----

  datatype Field = Group(digits: bytes) | Quad(quad: bytes)

  function FieldText(f: Field): bytes {
    match f
    case Group(digits) => digits
    case Quad(quad) => QuadText(quad)
  }

  function FieldOctets(f: Field): (r: bytes)
    requires IsField(f)
    ensures |r| == if f.Group? then 2 else 4
  {
    match f
    case Group(digits) => GroupOctets(digits)
    case Quad(quad) => quad
  }

  predicate IsField(f: Field) {
    match f
    case Group(digits) => IsGroup(digits)
    case Quad(quad) => |quad| == 4
  }

  /** Fields of an address; a dotted quad may only be the last, and only where `quad` allows one. */
  predicate AreFields(fields: seq<Field>, quad: bool) {
    forall i :: 0 <= i < |fields| ==> IsField(fields[i]) && (fields[i].Quad? ==> quad && i == |fields| - 1)
  }

  function FieldsText(fields: seq<Field>): bytes {
    if fields == [] then []
    else FieldText(fields[0]) + (if |fields| == 1 then [] else [COLON] + FieldsText(fields[1..]))
  }

  function FieldsOctets(fields: seq<Field>): bytes
    requires AreFields(fields, true)
  {
    if fields == [] then [] else FieldOctets(fields[0]) + FieldsOctets(fields[1..])
  }

  /** The fields before `::`, and those after it if it is there. */
  datatype Address = Address(front: seq<Field>, back: Option<seq<Field>>)

  predicate IsAddress(a: Address) {
    if a.back.None? then AreFields(a.front, true) && |FieldsOctets(a.front)| == 16
    else
      && AreFields(a.front, false) && AreFields(a.back.value, true)
      && |FieldsOctets(a.front)| + |FieldsOctets(a.back.value)| < 16
  }

  function AddressText(a: Address): bytes {
    FieldsText(a.front) + if a.back.None? then [] else [COLON, COLON] + FieldsText(a.back.value)
  }

  function AddressOctets(a: Address): bytes
    requires IsAddress(a)
  {
    if a.back.None? then FieldsOctets(a.front)
    else
      var front, back := FieldsOctets(a.front), FieldsOctets(a.back.value);
      front + Zeros(16 - |front| - |back|) + back
  }
}
