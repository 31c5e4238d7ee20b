/** The scanner reads exactly the addresses of section 2.2 of RFC 4291. */
module Ipv6Exact {
  import opened Bytes
  import opened Wrappers
  import opened Decimals
  import opened IpText
  import opened Ipv6

  // ----- one field -----

  lemma HexLenOf(d: bytes, x: bytes)
    requires (forall i :: 0 <= i < |d| ==> IsHex(d[i])) && (x == [] || !IsHex(x[0]))
    ensures HexLen(d + x) == |d| && (d + x)[..|d|] == d && (d + x)[|d|..] == x
  {
    hide HexLen;
    var n, s := HexLen(d + x), d + x;
    assert forall i :: 0 <= i < |d| ==> s[i] == d[i];
    assert x != [] ==> s[|d|] == x[0];
  }

  lemma ScanGroup(d: bytes, x: bytes, out: bytes, gap: Option<nat>)
    requires IsGroup(d) && |out| < 16 && (x == [] || x[0] == COLON) && (gap.Some? ==> gap.value <= |out|)
    ensures Scan(d + x, out, gap) == AfterGroup(x, out + GroupOctets(d), gap)
  {
    hide Finish, HexLen, GroupOctets;
    HexLenOf(d, x);
    assert |d| < |d + x| ==> (d + x)[|d|] == x[0];
  }

  lemma QuadStart(quad: bytes)
    requires |quad| == 4
    ensures var t, k := QuadText(quad), HexLen(QuadText(quad));
            0 < k <= 3 && k < |t| && t[k] == DOT && IsDigit(t[0])
  {
    var n := quad[0] as nat;
    var x := [DOT] + QuadTail(quad, 1);
    assert |Digits(n)| <= 3 by {
      assert n >= 10 ==> |Digits(n)| == 1 + |Digits(n / 10)|;
      assert n >= 100 ==> |Digits(n / 10)| == 1 + |Digits(n / 10 / 10)|;
    }
    HexLenOf(Digits(n), x);
  }

  lemma ScanQuad(quad: bytes, out: bytes, gap: Option<nat>)
    requires |quad| == 4 && |out| + 4 <= 16 && (gap.Some? ==> gap.value <= |out|) && (gap.None? ==> |out| == 12)
    ensures Scan(QuadText(quad), out, gap) == Finish(out + quad, gap)
  {
    hide Finish, HexLen, QuadTail, QuadScan;
    QuadStart(quad);
    ReadQuadExact(QuadText(quad), quad);
  }

  lemma FieldStart(f: Field)
    requires IsField(f)
    ensures FieldText(f) != [] && FieldText(f)[0] != COLON
  {
    if f.Quad? {
      QuadStart(f.quad);
    }
  }

  lemma FieldsStart(fields: seq<Field>)
    requires fields != [] && AreFields(fields, true)
    ensures FieldsText(fields) != [] && FieldsText(fields)[0] != COLON
  {
    FieldStart(fields[0]);
  }

  lemma FieldsTail(fields: seq<Field>, quad: bool)
    requires fields != [] && AreFields(fields, quad)
    ensures AreFields(fields[1..], quad) && (|fields| > 1 ==> fields[0].Group?)
  {
    assert forall i :: 0 <= i < |fields| - 1 ==> fields[1..][i] == fields[i + 1];
  }

  lemma OctetsCount(fields: seq<Field>)
    requires AreFields(fields, true)
    ensures |FieldsOctets(fields)| % 2 == 0 && (fields != [] ==> |FieldsOctets(fields)| >= 2)
  {
    if fields != [] {
      FieldsTail(fields, true);
      OctetsCount(fields[1..]);
    }
  }

  lemma OneField(f: Field)
    requires IsField(f)
    ensures AreFields([f], true) && (f.Group? ==> AreFields([f], false))
    ensures FieldsText([f]) == FieldText(f) && FieldsOctets([f]) == FieldOctets(f)
  {
    hide FieldText, FieldOctets;
    assert [f][1..] == [];
    assert FieldText(f) + [] == FieldText(f) && FieldOctets(f) + [] == FieldOctets(f);
  }

  lemma MoreFields(d: bytes, fields: seq<Field>, quad: bool)
    requires IsGroup(d) && fields != [] && AreFields(fields, quad)
    ensures var all := [Group(d)] + fields;
            && AreFields(all, quad) && FieldsText(all) == d + ([COLON] + FieldsText(fields))
            && (quad ==> FieldsOctets(all) == GroupOctets(d) + FieldsOctets(fields))
  {
    hide GroupOctets;
    var all := [Group(d)] + fields;
    assert all[1..] == fields;
    assert forall i :: 0 < i < |all| ==> all[i] == fields[i - 1];
  }

  // ----- every address is read -----

  lemma {:induction false} ScanFields(fields: seq<Field>, out: bytes, gap: Option<nat>)
    requires fields != [] && AreFields(fields, true) && (gap.Some? ==> gap.value <= |out|)
    requires |out| + |FieldsOctets(fields)| <= 16 && (gap.None? ==> |out| + |FieldsOctets(fields)| == 16)
    ensures Scan(FieldsText(fields), out, gap) == Finish(out + FieldsOctets(fields), gap)
    decreases |fields|
  {
    hide Scan, Finish, GroupOctets, QuadTail, IsGroup;
    FieldsTail(fields, true);
    var f, rest := fields[0], fields[1..];
    OctetsCount(rest);
    if f.Quad? {
      OneField(f);
      assert fields == [f];
      ScanQuad(f.quad, out, gap);
    } else if rest == [] {
      OneField(f);
      assert fields == [f] && f.digits + [] == f.digits;
      ScanGroup(f.digits, [], out, gap);
    } else {
      var x := [COLON] + FieldsText(rest);
      var more := out + GroupOctets(f.digits);
      FieldsStart(rest);
      ScanGroup(f.digits, x, out, gap);
      assert x[1..] == FieldsText(rest);
      assert out + (GroupOctets(f.digits) + FieldsOctets(rest)) == more + FieldsOctets(rest);
      ScanFields(rest, more, gap);
    }
  }

  /** The fields in front of `::`. */
  lemma {:induction false} ScanFront(fields: seq<Field>, r: bytes, out: bytes)
    requires fields != [] && AreFields(fields, false) && AreFields(fields, true) && |out| + |FieldsOctets(fields)| <= 16
    ensures var more := out + FieldsOctets(fields);
            Scan(FieldsText(fields) + ([COLON, COLON] + r), out, None) ==
            if r == [] then Finish(more, Some(|more|)) else Scan(r, more, Some(|more|))
    decreases |fields|
  {
    hide Scan, Finish, GroupOctets, IsGroup, FieldsText;
    FieldsTail(fields, false);
    FieldsTail(fields, true);
    var d, rest := fields[0].digits, fields[1..];
    OctetsCount(rest);
    var gap: bytes := [COLON, COLON] + r;
    if rest == [] {
      OneField(fields[0]);
      assert fields == [fields[0]];
      ScanGap(d, r, out);
    } else {
      FieldsStart(rest);
      assert fields == [Group(d)] + rest;
      MoreFields(d, rest, true);
      FrontStep(d, FieldsText(rest), gap, out);
      var more := out + GroupOctets(d);
      assert out + (GroupOctets(d) + FieldsOctets(rest)) == more + FieldsOctets(rest);
      ScanFront(rest, r, more);
    }
  }

  lemma ScanGap(d: bytes, r: bytes, out: bytes)
    requires IsGroup(d) && |out| < 16
    ensures var more := out + GroupOctets(d);
            Scan(d + ([COLON, COLON] + r), out, None) ==
            if r == [] then Finish(more, Some(|more|)) else Scan(r, more, Some(|more|))
  {
    hide Scan, Finish, GroupOctets, IsGroup;
    var gap: bytes := [COLON, COLON] + r;
    ScanGroup(d, gap, out, None);
    assert gap[2..] == r;
  }

  /** A group and a colon in front of another group. */
  lemma FrontStep(d: bytes, text: bytes, gap: bytes, out: bytes)
    requires IsGroup(d) && |out| < 16 && text != [] && text[0] != COLON
    ensures Scan(d + ([COLON] + text) + gap, out, None) == Scan(text + gap, out + GroupOctets(d), None)
  {
    hide Scan, Finish, GroupOctets, IsGroup;
    var x := [COLON] + (text + gap);
    ScanGroup(d, x, out, None);
    assert d + ([COLON] + text) + gap == d + x && x[1..] == text + gap;
  }

  lemma WithoutQuads(fields: seq<Field>)
    requires AreFields(fields, false)
    ensures AreFields(fields, true)
  {
  }

  lemma AddressRead(a: Address)
    requires IsAddress(a)
    ensures ReadAddress(AddressText(a)) == Some(AddressOctets(a))
  {
    hide Scan, FieldsText, FieldsOctets, AreFields;
    if a.back.None? {
      assert a.front != [] by { NoFields6(); }
      FieldsStart(a.front);
      assert FieldsText(a.front) + [] == FieldsText(a.front);
      ScanFields(a.front, [], None);
      assert [] + FieldsOctets(a.front) == FieldsOctets(a.front);
    } else {
      BackRead(a);
    }
  }

  lemma NoFields6()
    ensures FieldsText([]) == [] && AreFields([], true) && FieldsOctets([]) == []
  {
  }

  lemma BackRead(a: Address)
    requires IsAddress(a) && a.back.Some?
    ensures ReadAddress(AddressText(a)) == Some(AddressOctets(a))
  {
    hide Scan, FieldsText, FieldsOctets, AreFields, Zeros;
    NoFields6();
    WithoutQuads(a.front);
    var back := a.back.value;
    var f, b := FieldsOctets(a.front), FieldsOctets(back);
    var text := AddressText(a);
    assert (f + b)[..|f|] == f && (f + b)[|f|..] == b;
    assert f + [] == f && [] + b == b;
    if back != [] {
      FieldsStart(back);
    }
    if a.front == [] {
      assert text == [COLON, COLON] + FieldsText(back) && text[2..] == FieldsText(back);
      assert [] + Zeros(16) + [] == Zeros(16);
      if back != [] {
        ScanFields(back, [], Some(0));
      }
    } else {
      FieldsStart(a.front);
      ScanFront(a.front, FieldsText(back), []);
      assert [] + f == f;
      if back != [] {
        ScanFields(back, f, Some(|f|));
      }
    }
  }

  // ----- nothing else is read -----

  function Octets(front: seq<Field>, back: Option<seq<Field>>): bytes
    requires AreFields(front, true) && (back.Some? ==> AreFields(back.value, true))
  {
    FieldsOctets(front) + if back.None? then [] else FieldsOctets(back.value)
  }

  predicate Shaped(gap: Option<nat>, front: seq<Field>, back: Option<seq<Field>>) {
    && front != [] && AreFields(front, back.None?) && AreFields(front, true)
    && (back.Some? ==> gap.None? && AreFields(back.value, true))
  }

  function BothText(front: seq<Field>, back: Option<seq<Field>>): bytes {
    FieldsText(front) + if back.None? then [] else [COLON, COLON] + FieldsText(back.value)
  }

  /** The octets after `out`, with the gap where it is. */
  function Finished(out: bytes, gap: Option<nat>, front: seq<Field>, back: Option<seq<Field>>): Option<bytes>
    requires (gap.Some? ==> gap.value <= |out|) && Shaped(gap, front, back)
  {
    Finish(out + Octets(front, back), if back.None? then gap else Some(|out| + |FieldsOctets(front)|))
  }

  /** `front`, and `back` after a gap, are what a successful scan of `t` has read. */
  ghost predicate Reads(t: bytes, out: bytes, gap: Option<nat>, front: seq<Field>, back: Option<seq<Field>>)
    requires gap.Some? ==> gap.value <= |out|
  {
    && Shaped(gap, front, back) && t == BothText(front, back)
    && |out| + |Octets(front, back)| <= 16 && Scan(t, out, gap) == Finished(out, gap, front, back)
  }

  lemma ReadsOne(f: Field, out: bytes, gap: Option<nat>)
    requires IsField(f) && (gap.Some? ==> gap.value <= |out|) && |out| + |FieldOctets(f)| <= 16
    requires Scan(FieldText(f), out, gap) == Finish(out + FieldOctets(f), gap)
    ensures Reads(FieldText(f), out, gap, [f], None)
  {
    hide Scan, Finish, FieldOctets, FieldText, FieldsText, FieldsOctets, AreFields;
    OneField(f);
    assert FieldOctets(f) + [] == FieldOctets(f) && FieldText(f) + [] == FieldText(f);
  }

  lemma ReadsGap(d: bytes, out: bytes, back: seq<Field>)
    requires IsGroup(d) && AreFields(back, true) && |out| + 2 + |FieldsOctets(back)| <= 16
    requires var t, more := d + ([COLON, COLON] + FieldsText(back)), out + GroupOctets(d);
             Scan(t, out, None) == Finish(more + FieldsOctets(back), Some(|more|))
    ensures Reads(d + ([COLON, COLON] + FieldsText(back)), out, None, [Group(d)], Some(back))
  {
    hide Scan, Finish, GroupOctets, FieldsText, FieldsOctets, AreFields, IsGroup;
    OneField(Group(d));
    assert out + (GroupOctets(d) + FieldsOctets(back)) == out + GroupOctets(d) + FieldsOctets(back);
  }

  lemma ReadsMore(d: bytes, t: bytes, out: bytes, gap: Option<nat>, front: seq<Field>, back: Option<seq<Field>>)
    requires IsGroup(d) && (gap.Some? ==> gap.value <= |out|)
    requires Reads(t, out + GroupOctets(d), gap, front, back)
             && Scan(d + ([COLON] + t), out, gap) == Scan(t, out + GroupOctets(d), gap)
    ensures Reads(d + ([COLON] + t), out, gap, [Group(d)] + front, back)
  {
    hide Scan, GroupOctets, IsGroup, Shaped, BothText, Finished, Octets;
    MoreShaped(d, gap, front, back);
    MoreText(d, gap, front, back);
    MoreOctets(d, out, gap, front, back);
  }

  lemma MoreShaped(d: bytes, gap: Option<nat>, front: seq<Field>, back: Option<seq<Field>>)
    requires IsGroup(d) && Shaped(gap, front, back)
    ensures Shaped(gap, [Group(d)] + front, back)
  {
    hide AreFields, IsGroup;
    MoreFields(d, front, true);
    MoreFields(d, front, back.None?);
  }

  lemma MoreText(d: bytes, gap: Option<nat>, front: seq<Field>, back: Option<seq<Field>>)
    requires IsGroup(d) && Shaped(gap, front, back)
    ensures d + ([COLON] + BothText(front, back)) == BothText([Group(d)] + front, back)
  {
    hide AreFields, IsGroup, FieldsText;
    MoreFields(d, front, true);
    TextApart(d, FieldsText(front), if back.None? then [] else [COLON, COLON] + FieldsText(back.value));
  }

  lemma MoreOctets(d: bytes, out: bytes, gap: Option<nat>, front: seq<Field>, back: Option<seq<Field>>)
    requires IsGroup(d) && Shaped(gap, front, back) && Shaped(gap, [Group(d)] + front, back)
             && (gap.Some? ==> gap.value <= |out|)
    ensures Finished(out + GroupOctets(d), gap, front, back) == Finished(out, gap, [Group(d)] + front, back)
    ensures |out + GroupOctets(d)| + |Octets(front, back)| == |out| + |Octets([Group(d)] + front, back)|
  {
    hide AreFields, IsGroup, FieldsText, FieldsOctets, GroupOctets, Finish;
    MoreFields(d, front, true);
    var last: bytes := if back.None? then [] else FieldsOctets(back.value);
    OctetsApart(out, GroupOctets(d), FieldsOctets(front), last);
  }

  lemma TextApart(d: bytes, text: bytes, tail: bytes)
    ensures d + ([COLON] + (text + tail)) == d + ([COLON] + text) + tail
  {
  }

  lemma OctetsApart(out: bytes, g: bytes, front: bytes, last: bytes)
    ensures out + g + (front + last) == out + (g + front + last)
    ensures |out + g| + |front| == |out| + |g + front| && |out + g| + |front + last| == |out| + |g + front + last|
  {
  }

  lemma {:induction false} ScanSound(t: bytes, out: bytes, gap: Option<nat>)
    returns (front: seq<Field>, back: Option<seq<Field>>)
    requires t != [] && |out| % 2 == 0 && (gap.Some? ==> gap.value <= |out|) && Scan(t, out, gap).Some?
    ensures Reads(t, out, gap, front, back)
    decreases |t|, 1
  {
    hide Finish, GroupOctets, HexLen, Reads, QuadScan, QuadTail;
    var k := HexLen(t);
    if k < |t| && t[k] == DOT {
      var quad := ReadQuad(t).value;
      ReadQuadExact(t, quad);
      front, back := [Quad(quad)], None;
      ReadsOne(Quad(quad), out, gap);
    } else {
      var d, u := t[..k], t[k..];
      var more := out + GroupOctets(d);
      assert t == d + u;
      if u == [] {
        assert t == d;
        front, back := [Group(d)], None;
        ReadsOne(Group(d), out, gap);
      } else if u[1] != COLON {
        assert u == [COLON] + u[1..];
        front, back := ScanSound(u[1..], more, gap);
        ReadsMore(d, u[1..], out, gap, front, back);
        front := [Group(d)] + front;
      } else {
        assert u == [COLON, COLON] + u[2..];
        front, back := GapSound(d, u[2..], out);
      }
    }
  }

  /** A group, `::`, and what follows. */
  lemma {:induction false} GapSound(d: bytes, w: bytes, out: bytes)
    returns (front: seq<Field>, back: Option<seq<Field>>)
    requires IsGroup(d) && |out| % 2 == 0 && |out| < 16
    requires var t, more := d + ([COLON, COLON] + w), out + GroupOctets(d);
             && Scan(t, out, None).Some?
             && Scan(t, out, None) == if w == [] then Finish(more, Some(|more|)) else Scan(w, more, Some(|more|))
    ensures Reads(d + ([COLON, COLON] + w), out, None, front, back)
    decreases |w| + 1, 0
  {
    hide Scan, Finish, GroupOctets, IsGroup, FieldsText, FieldsOctets, AreFields;
    var more := out + GroupOctets(d);
    front := [Group(d)];
    if w == [] {
      NoFields6();
      assert more + [] == more;
      back := Some([]);
    } else {
      var after, none := ScanSound(w, more, Some(|more|));
      assert FieldsText(after) + [] == FieldsText(after) && FieldsOctets(after) + [] == FieldsOctets(after);
      back := Some(after);
    }
    ReadsGap(d, out, back.value);
  }

  lemma {:induction false} AddressSound(text: bytes) returns (a: Address)
    requires ReadAddress(text).Some?
    ensures IsAddress(a) && AddressText(a) == text && AddressOctets(a) == ReadAddress(text).value
  {
    hide Scan, FieldsText, FieldsOctets, AreFields, Zeros;
    NoFields6();
    if |text| >= 2 && text[0] == COLON && text[1] == COLON {
      var back: seq<Field> := [];
      assert text == [] + ([COLON, COLON] + text[2..]);
      if |text| > 2 {
        var none;
        back, none := ScanSound(text[2..], [], Some(0));
        assert FieldsText(back) + [] == FieldsText(back);
        assert [] + (FieldsOctets(back) + []) == FieldsOctets(back);
      } else {
        assert [] + Zeros(16) + [] == Zeros(16);
      }
      assert AreFields([], false) by { NoFront(); }
      a := Address([], Some(back));
      assert FieldsOctets(back)[..0] == [] && FieldsOctets(back)[0..] == FieldsOctets(back);
    } else {
      assert text != [] by { NothingRead(); }
      var front, back := ScanSound(text, [], None);
      a := Address(front, back);
      assert [] + Octets(front, back) == Octets(front, back);
      if back.Some? {
        var f, b := FieldsOctets(front), FieldsOctets(back.value);
        assert (f + b)[..|f|] == f && (f + b)[|f|..] == b;
      } else {
        assert FieldsOctets(front) + [] == FieldsOctets(front);
      }
    }
  }

  lemma NoFront()
    ensures AreFields([], false)
  {
  }

  lemma NothingRead()
    ensures Scan([], [], None) == None
  {
  }

  /** A text is read as an address exactly when it is the text of one, and then as its octets. */
  lemma ReadAddressExact(text: bytes, octets: bytes)
    ensures ReadAddress(text) == Some(octets) <==>
            exists a :: IsAddress(a) && AddressText(a) == text && AddressOctets(a) == octets
  {
    hide ReadAddress, IsAddress, AddressText, AddressOctets;
    if ReadAddress(text) == Some(octets) {
      var a := AddressSound(text);
    }
    if a :| IsAddress(a) && AddressText(a) == text && AddressOctets(a) == octets {
      AddressRead(a);
    }
  }
}
