/** The text of IP addresses: dotted quads, and hexadecimal groups with at most one `::`. */
module IpText {
  import opened Bytes
  import opened Wrappers
  import opened Decimals

  // ----- dotted quads -----

  /** The fields read so far, the value of the current one, and how many digits it has. */
  function QuadScan(s: bytes, fields: bytes, value: byte, digits: nat): Option<bytes>
    decreases |s|
  {
    if s == [] then
      if |fields| < 3 then None else Some(fields + [value])
    else if IsDigit(s[0]) then
      if digits == 1 && value == 0 then None
      else
        var next := value as nat * 10 + DigitValue(s[0]);
        if next > 255 then None else QuadScan(s[1..], fields, next as byte, digits + 1)
    else if s[0] == DOT then
      if digits == 0 || |s| == 1 || |fields| == 3 then None else QuadScan(s[1..], fields + [value], 0, 0)
    else None
  }

  function ReadQuad(s: bytes): Option<bytes> {
    QuadScan(s, [], 0, 0)
  }

  method Ipv4Fields(s: bytes) returns (r: Option<bytes>)
    ensures r == ReadQuad(s)
  {
    var fields: bytes, value: byte, digits: nat, index := [], 0, 0, 0;
    assert s[0..] == s;
    while index < |s|
      invariant 0 <= index <= |s| && |fields| <= 3
      invariant ReadQuad(s) == QuadScan(s[index..], fields, value, digits)
      invariant digits == 0 <==> index == 0 || s[index - 1] == DOT
    {
      var b := s[index];
      assert s[index..][1..] == s[index + 1..];
      if IsDigit(b) {
        if digits == 1 && value == 0 { return None; }
        var next := value as nat * 10 + DigitValue(b);
        digits := digits + 1;
        if next > 255 { return None; }
        value := next as byte;
      } else if b == DOT {
        if index == 0 || index == |s| - 1 || s[index - 1] == DOT { return None; }
        if |fields| == 3 { return None; }
        fields, value, digits := fields + [value], 0, 0;
      } else {
        return None;
      }
      index := index + 1;
    }
    if |fields| < 3 { return None; }
    r := Some(fields + [value]);
  }

  /** Fields from the `k`-th on, in decimal without leading zeros, with dots between them. */
  function QuadTail(quad: bytes, k: nat): bytes
    requires k <= |quad|
    decreases |quad| - k
  {
    if k == |quad| then []
    else Digits(quad[k] as nat) + (if k + 1 < |quad| then [DOT] + QuadTail(quad, k + 1) else [])
  }

  function QuadText(quad: bytes): bytes {
    QuadTail(quad, 0)
  }

  /** The digits of the current field. */
  function Current(value: byte, digits: nat): bytes {
    if digits == 0 then [] else Digits(value as nat)
  }

  predicate Scanning(fields: bytes, value: byte, digits: nat) {
    |fields| <= 3 && (digits == 0 ==> value == 0) && (digits > 1 ==> value > 0)
  }

  lemma NextDigit(value: byte, digits: nat, d: byte)
    requires IsDigit(d) && (digits == 0 ==> value == 0) && (digits > 0 ==> value > 0)
             && value as nat * 10 + DigitValue(d) <= 255
    ensures Digits(value as nat * 10 + DigitValue(d)) == Current(value, digits) + [d]
  {
  }

  /** Whatever is read is the text of the fields that come out. */
  lemma {:induction false} QuadSound(s: bytes, fields: bytes, value: byte, digits: nat)
    requires Scanning(fields, value, digits) && QuadScan(s, fields, value, digits).Some? && (s == [] ==> digits > 0)
    ensures var quad := QuadScan(s, fields, value, digits).value;
            |quad| == 4 && fields <= quad && Current(value, digits) + s == QuadTail(quad, |fields|)
    decreases |s|
  {
    hide Digits;
    if s == [] {
      var quad := fields + [value];
      assert Current(value, digits) + [] == Current(value, digits) && quad[3] == value;
    } else if IsDigit(s[0]) {
      var next := value as nat * 10 + DigitValue(s[0]);
      NextDigit(value, digits, s[0]);
      QuadSound(s[1..], fields, next as byte, digits + 1);
      assert Current(value, digits) + s == Current(value, digits) + [s[0]] + s[1..];
    } else {
      QuadSound(s[1..], fields + [value], 0, 0);
      DotSound(s, fields, value, digits, QuadScan(s, fields, value, digits).value);
    }
  }

  lemma {:induction false} DotSound(s: bytes, fields: bytes, value: byte, digits: nat, quad: bytes)
    requires s != [] && s[0] == DOT && digits > 0 && |quad| == 4 && |fields| < 3
    requires fields + [value] <= quad && Current(0, 0) + s[1..] == QuadTail(quad, |fields| + 1)
    ensures fields <= quad && Current(value, digits) + s == QuadTail(quad, |fields|)
  {
    hide Digits;
    assert quad[|fields|] == (fields + [value])[|fields|];
    assert Current(0, 0) + s[1..] == s[1..] && s == [DOT] + s[1..];
  }

  /** Reading the digits of one field. */
  lemma {:induction false} FieldScan(n: nat, fields: bytes, r: bytes)
    requires n <= 255
    ensures QuadScan(Digits(n) + r, fields, 0, 0) == QuadScan(r, fields, n as byte, |Digits(n)|)
    decreases n
  {
    var d := Digit(n % 10);
    if n < 10 {
      assert (Digits(n) + r)[1..] == r;
    } else {
      var h := n / 10;
      assert Digits(n) + r == Digits(h) + ([d] + r);
      FieldScan(h, fields, [d] + r);
      assert ([d] + r)[1..] == r;
    }
  }

  lemma {:induction false} QuadComplete(quad: bytes, k: nat)
    requires |quad| == 4 && k < 4
    ensures QuadScan(QuadTail(quad, k), quad[..k], 0, 0) == Some(quad)
    decreases 4 - k
  {
    hide Digits;
    var n := quad[k] as nat;
    var r: bytes := if k < 3 then [DOT] + QuadTail(quad, k + 1) else [];
    FieldScan(n, quad[..k], r);
    assert quad[..k] + [quad[k]] == quad[..k + 1];
    if k < 3 {
      assert r[1..] == QuadTail(quad, k + 1);
      assert QuadTail(quad, k + 1) != [];
      QuadComplete(quad, k + 1);
    } else {
      assert quad[..4] == quad;
    }
  }

  /** A text is read as a quad exactly when it is the text of that quad. */
  lemma ReadQuadExact(s: bytes, quad: bytes)
    ensures ReadQuad(s) == Some(quad) <==> |quad| == 4 && s == QuadText(quad)
  {
    hide QuadScan, QuadTail;
    if ReadQuad(s) == Some(quad) {
      assert s != [] by { NoFields(); }
      QuadSound(s, [], 0, 0);
      assert Current(0, 0) + s == s;
    }
    if |quad| == 4 && s == QuadText(quad) {
      QuadComplete(quad, 0);
      assert quad[..0] == [];
    }
  }

  lemma NoFields()
    ensures ReadQuad([]) == None
  {
  }
}
