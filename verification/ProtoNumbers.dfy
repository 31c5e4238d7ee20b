/** Reading an unsigned 64-bit field from a JSON number by shifting its decimal digits. */
module ProtoNumbers {
  import opened Bytes
  import opened Wrappers
  import opened Arithmetic
  import opened Decimals

  /**
   The digits before the point, none if they are a zero; those after it without trailing zeros; the
   exponent's text.
   */
  datatype Parts = Parts(negative: bool, integer: bytes, fraction: bytes, exponent: bytes, end: nat)

  predicate IsSign(b: byte) {
    b == PLUS || b == MINUS
  }

  /** Where the integer part ends. */
  function IntegerEnd(s: bytes): (r: Option<nat>)
    ensures r.Some? ==> 0 < r.value <= |s| && AllDigits(s[..r.value])
  {
    if s == [] then None
    else if s[0] == ZERO then Some(1)
    else if IsDigit(s[0]) then Some(DigitsLen(s))
    else None
  }

  function FractionEnd(s: bytes): (r: nat)
    ensures r <= |s| && (r > 0 ==> r > 1 && AllDigits(s[1..r]))
  {
    if |s| > 1 && s[0] == DOT && IsDigit(s[1]) then
      var n := DigitsLen(s[1..]);
      assert s[1..1 + n] == s[1..][..n];
      1 + n
    else 0
  }

  function ExponentEnd(s: bytes): (r: Option<nat>)
    ensures r.Some? ==> r.value <= |s|
  {
    if |s| > 1 && IsMark(s[0]) then
      if IsSign(s[1]) then
        if |s| == 2 then None else Some(2 + DigitsLen(s[2..]))
      else Some(1 + DigitsLen(s[1..]))
    else Some(0)
  }

  function ReadParts(s: bytes): (r: Option<Parts>)
    ensures r.Some? ==> AllDigits(r.value.integer) && AllDigits(r.value.fraction) && r.value.end <= |s|
  {
    var negative := s != [] && s[0] == MINUS;
    var t := if negative then s[1..] else s;
    var i :- IntegerEnd(t);
    var u := t[i..];
    var f := FractionEnd(u);
    var v := u[f..];
    var e :- ExponentEnd(v);
    Some(Parts(negative, Leading(t, i), Trailing(u, f), if e > 0 then v[1..e] else [], |s| - |v| + e))
  }

  function Leading(t: bytes, i: nat): (r: bytes)
    requires 0 < i <= |t| && AllDigits(t[..i])
    ensures AllDigits(r)
  {
    if t[0] == ZERO then [] else t[..i]
  }

  function Trailing(u: bytes, f: nat): (r: bytes)
    requires f <= |u| && (f > 0 ==> AllDigits(u[1..f]))
    ensures AllDigits(r)
  {
    if f > 0 then TrimZeros(u[1..f]) else []
  }

  /** The number an exponent's text stands for, if it fits 32 bits. */
  function Signed(s: bytes): Option<int> {
    var digits := if s != [] && IsSign(s[0]) then s[1..] else s;
    if digits == [] || DigitsLen(digits) < |digits| then None
    else
      var n := if s[0] == MINUS then 0 - Value(digits) as int else Value(digits) as int;
      if -0x8000_0000 <= n <= 0x7fff_ffff then Some(n) else None
  }

  /** Appending digits, unless the number leaves 64 bits. */
  function Append(n: nat, digits: bytes): Option<nat>
    requires AllDigits(digits)
    decreases |digits|
  {
    if digits == [] then Some(n)
    else
      var next := n * 10 + DigitValue(digits[0]);
      if next > MAX_U64 then None else Append(next, digits[1..])
  }

  function Shift(n: nat, zeros: nat): Option<nat>
    decreases zeros
  {
    if zeros == 0 then Some(n) else if n * 10 > MAX_U64 then None else Shift(n * 10, zeros - 1)
  }

  predicate AllZeros(s: bytes) {
    forall i :: 0 <= i < |s| ==> s[i] == ZERO
  }

  function Decode(p: Parts): Option<nat>
    requires AllDigits(p.integer) && AllDigits(p.fraction)
  {
    if p.integer == [] && p.fraction == [] then Some(0)
    else if p.negative then None
    else
      var exponent :- if p.exponent == [] then Some(0) else Signed(p.exponent);
      if exponent < 0 then
        if p.fraction != [] || -exponent > |p.integer| then None
        else
          var keep := |p.integer| + exponent;
          if !AllZeros(p.integer[keep..]) then None else Append(0, p.integer[..keep])
      else if |p.fraction| > exponent || |p.integer| + exponent > 20 then None
      else
        var whole :- Append(0, p.integer);
        var number :- Append(whole, p.fraction);
        Shift(number, exponent - |p.fraction|)
  }

  /** A byte that cannot follow a number. */
  predicate IsNotDelimiter(b: byte) {
    IsAlphanumeric(b) || b == MINUS || b == PLUS || b == DOT || b == 0x5f
  }

  /** The field's value; a quoted one may be padded and must end its token itself, a bare one has been read already. */
  function Field(s: bytes, padded: bool, validated: bool): Option<nat> {
    if padded then None
    else
      var p :- ReadParts(s);
      if !validated && p.end < |s| && IsNotDelimiter(s[p.end]) then None else Decode(p)
  }

  // ----- the loops -----

  method ScanDigits(s: bytes, from: nat) returns (end: nat)
    requires from <= |s|
    ensures end == from + DigitsLen(s[from..])
  {
    end := from;
    while end < |s| && IsDigit(s[end])
      invariant from <= end <= |s| && DigitsLen(s[from..]) == end - from + DigitsLen(s[end..])
    {
      assert s[end..][1..] == s[end + 1..];
      end := end + 1;
    }
  }

  method AppendDigits(n: nat, digits: bytes) returns (r: Option<nat>)
    requires AllDigits(digits)
    ensures r == Append(n, digits)
  {
    var number: nat, i := n, 0;
    assert digits[0..] == digits;
    while i < |digits|
      invariant 0 <= i <= |digits| && Append(n, digits) == Append(number, digits[i..])
    {
      assert digits[i..][1..] == digits[i + 1..];
      var next := number * 10 + DigitValue(digits[i]);
      if next > MAX_U64 { return None; }
      number, i := next, i + 1;
    }
    r := Some(number);
  }

  method ShiftDigits(n: nat, zeros: nat) returns (r: Option<nat>)
    ensures r == Shift(n, zeros)
  {
    var number: nat, left: nat := n, zeros;
    while left > 0
      invariant Shift(n, zeros) == Shift(number, left)
    {
      if number * 10 > MAX_U64 { return None; }
      number, left := number * 10, left - 1;
    }
    r := Some(number);
  }

  method DecodeParts(p: Parts) returns (r: Option<nat>)
    requires AllDigits(p.integer) && AllDigits(p.fraction)
    ensures r == Decode(p)
  {
    if p.integer == [] && p.fraction == [] { return Some(0); }
    if p.negative { return None; }
    var exponent := if p.exponent == [] then Some(0) else Signed(p.exponent);
    if exponent.None? { return None; }
    var e := exponent.value;
    if e < 0 {
      if p.fraction != [] || -e > |p.integer| { return None; }
      var keep := |p.integer| + e;
      if !AllZeros(p.integer[keep..]) { return None; }
      r := AppendDigits(0, p.integer[..keep]);
      return;
    }
    if |p.fraction| > e || |p.integer| + e > 20 { return None; }
    r := AppendDigits(0, p.integer);
    if r.None? { return; }
    r := AppendDigits(r.value, p.fraction);
    if r.None? { return; }
    r := ShiftDigits(r.value, e - |p.fraction|);
  }

  /** The parts, by positions in the text. */
  lemma PartsAt(s: bytes, start: nat)
    requires start == if s != [] && s[0] == MINUS then 1 else 0
    ensures var i := IntegerEnd(s[start..]);
            ReadParts(s) ==
            if i.None? then None
            else
              var u := s[start + i.value..];
              var v := s[start + i.value + FractionEnd(u)..];
              var e := ExponentEnd(v);
              if e.None? then None
              else Some(Parts(
                start == 1, if s[start..][0] == ZERO then [] else s[start..][..i.value],
                if FractionEnd(u) > 0 then TrimZeros(u[1..FractionEnd(u)]) else [],
                if e.value > 0 then v[1..e.value] else [],
                start + i.value + FractionEnd(u) + e.value))
  {
    hide IntegerEnd, FractionEnd, ExponentEnd, TrimZeros;
    assert s[0..] == s;
    var i := IntegerEnd(s[start..]);
    if i.Some? {
      var u := s[start + i.value..];
      assert s[start..][i.value..] == u;
      assert u[FractionEnd(u)..] == s[start + i.value + FractionEnd(u)..];
    }
  }

  method ReadField(s: bytes, padded: bool, validated: bool) returns (r: Option<nat>)
    ensures r == Field(s, padded, validated)
  {
    hide Decode, IntegerEnd, FractionEnd, ExponentEnd, TrimZeros, IsNotDelimiter, ReadParts;
    if padded { return None; }
    var start := if s != [] && s[0] == MINUS then 1 else 0;
    var integer, cursor, ok := ScanInteger(s, start);
    PartsAt(s, start);
    if !ok { return None; }
    var fraction, at := ScanFraction(s, cursor);
    var exponent, end;
    exponent, end, ok := ScanExponent(s, at);
    if !ok { return None; }
    var p := Parts(start == 1, integer, fraction, exponent, end);
    if !validated && end < |s| && IsNotDelimiter(s[end]) { return None; }
    r := DecodeParts(p);
  }

  method ScanInteger(s: bytes, start: nat) returns (integer: bytes, end: nat, ok: bool)
    requires start <= |s|
    ensures var t, e := s[start..], IntegerEnd(s[start..]);
            && ok == e.Some? && start <= end <= |s|
            && (ok ==> t != [] && end == start + e.value && integer == if t[0] == ZERO then [] else t[..e.value])
  {
    integer, end, ok := [], start, false;
    if start == |s| { return; }
    if s[start] == ZERO {
      end, ok := start + 1, true;
    } else if IsDigit(s[start]) {
      end := ScanDigits(s, start);
      integer, ok := s[start..end], true;
      assert s[start..][..end - start] == s[start..end];
    }
  }

  method ScanFraction(s: bytes, cursor: nat) returns (fraction: bytes, end: nat)
    requires cursor <= |s|
    ensures var u := s[cursor..];
            && end == cursor + FractionEnd(u) <= |s|
            && fraction == if FractionEnd(u) > 0 then TrimZeros(u[1..FractionEnd(u)]) else []
  {
    hide DigitsLen, TrimZeros;
    fraction, end := [], cursor;
    if cursor + 1 < |s| && s[cursor] == DOT && IsDigit(s[cursor + 1]) {
      assert s[cursor..][1..] == s[cursor + 1..];
      end := ScanDigits(s, cursor + 1);
      assert s[cursor..][1..end - cursor] == s[cursor + 1..end];
      fraction := DropZeros(s[cursor + 1..end]);
    }
  }

  method ScanExponent(s: bytes, cursor: nat) returns (exponent: bytes, end: nat, ok: bool)
    requires cursor <= |s|
    ensures var e := ExponentEnd(s[cursor..]);
            && ok == e.Some? && end <= |s|
            && (ok ==> end == cursor + e.value && exponent == if e.value > 0 then s[cursor..][1..e.value] else [])
  {
    exponent, end, ok := [], cursor, true;
    if cursor + 1 < |s| && IsMark(s[cursor]) {
      var from := cursor + 1;
      assert s[cursor..][1..] == s[cursor + 1..];
      if IsSign(s[from]) {
        from := from + 1;
        if from == |s| { return [], cursor, false; }
        assert s[cursor..][2..] == s[cursor + 2..];
      }
      end := ScanDigits(s, from);
      exponent := s[cursor + 1..end];
      assert s[cursor..][1..end - cursor] == s[cursor + 1..end];
    }
  }
}
