/** The shifting decoder is exact: it gives the number a JSON literal stands for, or nothing. */
module ProtoExact {
  import opened Bytes
  import opened Wrappers
  import opened Arithmetic
  import opened Decimals
  import opened ProtoNumbers

  // ----- checked digits -----

  lemma {:induction false} AppendValue(n: nat, digits: bytes)
    requires AllDigits(digits) && n <= MAX_U64
    ensures var v := n * Ten(|digits|) + Value(digits);
            Append(n, digits) == if v <= MAX_U64 then Some(v) else None
    decreases |digits|
  {
    if digits != [] {
      var d, rest := DigitValue(digits[0]), digits[1..];
      var next := n * 10 + d;
      assert digits == [digits[0]] + rest && Value([digits[0]]) == d;
      ValueSplit([digits[0]], rest);
      var p := Ten(|rest|);
      assert n * (10 * p) + d * p == (n * 10 + d) * p by { Gather(n, d, p); }
      AtLeast(next, p);
      if next <= MAX_U64 {
        AppendValue(next, rest);
      }
    }
  }

  lemma Gather(n: nat, d: nat, p: nat)
    ensures n * (10 * p) + d * p == (n * 10 + d) * p
  {
    assert n * (10 * p) == (n * 10) * p;
  }

  lemma {:induction false} ShiftValue(n: nat, zeros: nat)
    requires n <= MAX_U64
    ensures Shift(n, zeros) == if n * Ten(zeros) <= MAX_U64 then Some(n * Ten(zeros)) else None
    decreases zeros
  {
    if zeros > 0 {
      var p := Ten(zeros - 1);
      assert n * (10 * p) == (n * 10) * p;
      AtLeast(n * 10, p);
      if n * 10 <= MAX_U64 {
        ShiftValue(n * 10, zeros - 1);
      }
    }
  }

  // ----- the value of the parts -----

  /** `n` is the digits `integer`, a point and `fraction`, times ten to `exponent`. */
  ghost predicate Equals(integer: bytes, fraction: bytes, exponent: int, n: nat)
    requires AllDigits(integer) && AllDigits(fraction)
  {
    ValueSplit(integer, fraction);
    if exponent >= 0 then n * Ten(|fraction|) == Value(integer + fraction) * Ten(exponent)
    else n * Ten(|fraction| - exponent) == Value(integer + fraction)
  }

  /** No leading and no trailing zeros, and not zero. */
  predicate Reduced(integer: bytes, fraction: bytes) {
    && AllDigits(integer) && AllDigits(fraction) && (integer != [] || fraction != [])
    && (integer != [] ==> integer[0] != ZERO) && (fraction != [] ==> fraction[|fraction| - 1] != ZERO)
  }

  /** A fraction that ends in another digit than zero does not make a multiple of ten. */
  lemma LastDigit(integer: bytes, fraction: bytes, n: nat, k: nat)
    requires Reduced(integer, fraction) && fraction != [] && k > 0
    ensures AllDigits(integer + fraction) && n * Ten(k) != Value(integer + fraction)
  {
    ValueSplit(integer, fraction);
    var s := integer + fraction;
    var d := DigitValue(s[|s| - 1]);
    assert Value(s) == 10 * Value(s[..|s| - 1]) + d && 0 < d < 10;
    QuotientOf(Value(s), 10, Value(s[..|s| - 1]), d);
    TenMultiple(n, k);
  }

  lemma TenMultiple(n: nat, k: nat)
    requires k > 0
    ensures (n * Ten(k)) % 10 == 0
  {
    var p := Ten(k - 1);
    assert n * (10 * p) == (n * p) * 10;
    Multiple(n * p, 10);
  }

  /** A number without a leading zero is at least a power of ten. */
  lemma LeadingDigit(s: bytes)
    requires s != [] && AllDigits(s) && s[0] != ZERO
    ensures Value(s) >= Ten(|s| - 1)
  {
    ValueSplit([s[0]], s[1..]);
    assert s == [s[0]] + s[1..] && Value([s[0]]) == DigitValue(s[0]);
    AtLeastOnce(DigitValue(s[0]), Ten(|s| - 1));
  }

  lemma AtLeastOnce(a: nat, b: nat)
    requires a > 0
    ensures b <= a * b
  {
  }

  lemma TenTwenty()
    ensures Ten(20) > MAX_U64
  {
    TenSum(10, 10);
    TenSum(5, 5);
    assert Ten(5) == 100_000;
  }

  lemma TenGrows(a: nat, b: nat)
    requires a <= b
    ensures Ten(a) <= Ten(b)
  {
    TenSum(a, b - a);
    AtLeast(Ten(a), Ten(b - a));
  }

  // exponent >= 0, enough room for the fraction

  lemma ShiftExact(integer: bytes, fraction: bytes, e: nat, n: nat)
    requires AllDigits(integer) && AllDigits(fraction) && |fraction| <= e
    ensures AllDigits(integer + fraction)
    ensures Equals(integer, fraction, e, n) <==> n == Value(integer + fraction) * Ten(e - |fraction|)
  {
    hide Ten, Value;
    ValueSplit(integer, fraction);
    var v, f := Value(integer + fraction), |fraction|;
    TenSum(e - f, f);
    var p, q := Ten(e - f), Ten(f);
    assert v * (p * q) == (v * p) * q;
    Cancel(n, v * p, q);
  }

  lemma ShiftDecodes(integer: bytes, fraction: bytes, e: nat)
    requires AllDigits(integer) && AllDigits(fraction) && |fraction| <= e
    ensures AllDigits(integer + fraction)
    ensures var v := Value(integer + fraction) * Ten(e - |fraction|);
            var whole := Append(0, integer);
            var number := if whole.None? then None else Append(whole.value, fraction);
            (if number.None? then None else Shift(number.value, e - |fraction|)) ==
            if v <= MAX_U64 then Some(v) else None
  {
    hide Ten, Value, Append, Shift;
    ValueSplit(integer, fraction);
    AppendValue(0, integer);
    var a, v, p := Value(integer), Value(integer + fraction), Ten(e - |fraction|);
    AtLeast(a, Ten(|fraction|));
    AtLeast(v, p);
    if a <= MAX_U64 {
      AppendValue(a, fraction);
      if v <= MAX_U64 {
        ShiftValue(v, e - |fraction|);
      }
    }
  }

  lemma TooLong(integer: bytes, fraction: bytes, e: nat, n: nat)
    requires Reduced(integer, fraction) && integer != [] && |integer| + e > 20 && Equals(integer, fraction, e, n)
    ensures n > MAX_U64
  {
    hide Ten, Value;
    ValueSplit(integer, fraction);
    LeadingDigit(integer);
    TenTwenty();
    var k, q, t := |integer| - 1, Ten(|fraction|), Ten(e);
    TenGrows(20, k + e);
    TenSum(k, e);
    Monotone(q, Ten(k), Value(integer));
    assert Value(integer) * q == q * Value(integer) && Ten(k) * q == q * Ten(k);
    Monotone(t, Ten(k) * q, Value(integer + fraction));
    assert t * (Ten(k) * q) == (Ten(k) * t) * q && t * Value(integer + fraction) == Value(integer + fraction) * t;
    Cancel(Ten(k) * t, n, q);
  }

  lemma NotWhole(integer: bytes, fraction: bytes, e: nat, n: nat)
    requires Reduced(integer, fraction) && |fraction| > e
    ensures !Equals(integer, fraction, e, n)
  {
    hide Ten, Value;
    ValueSplit(integer, fraction);
    var v, k := Value(integer + fraction), |fraction| - e;
    LastDigit(integer, fraction, n, k);
    TenSum(k, e);
    assert n * (Ten(k) * Ten(e)) == (n * Ten(k)) * Ten(e);
    Cancel(n * Ten(k), v, Ten(e));
  }

  // exponent < 0

  lemma {:induction false} ZerosValue(s: bytes)
    requires AllDigits(s)
    ensures Value(s) == 0 <==> AllZeros(s)
  {
    if s != [] {
      ZerosValue(s[..|s| - 1]);
    }
  }

  /** Dividing by ten to `k` drops the last `k` digits, if they are zeros. */
  lemma DropDigits(integer: bytes, k: nat, n: nat)
    requires AllDigits(integer) && integer != [] && integer[0] != ZERO
    ensures k > |integer| ==> n * Ten(k) != Value(integer)
    ensures k <= |integer| ==>
              var keep := |integer| - k;
              (n * Ten(k) == Value(integer) <==> AllZeros(integer[keep..]) && n == Value(integer[..keep]))
  {
    hide Ten, Value;
    if k > |integer| {
      LeadingDigit(integer);
      ValueBelow(integer);
      TenGrows(|integer|, k);
      AtLeastOnce(if n == 0 then 1 else n, Ten(k));
    } else {
      var keep := |integer| - k;
      var a, b := integer[..keep], integer[keep..];
      assert integer == a + b;
      ValueSplit(a, b);
      ValueBelow(b);
      ZerosValue(b);
      DivideExact(n, Ten(k), Value(a), Value(b));
    }
  }

  lemma DivideExact(n: nat, t: nat, a: nat, b: nat)
    requires b < t
    ensures n * t == a * t + b <==> b == 0 && n == a
  {
    assert a * t == t * a;
    QuotientOf(a * t + b, t, a, b);
    if n * t == a * t + b {
      Multiple(n, t);
    }
  }

  // ----- the decoder -----

  lemma DecodeExact(p: Parts, e: int)
    requires Reduced(p.integer, p.fraction) && !p.negative
             && (if p.exponent == [] then e == 0 else Signed(p.exponent) == Some(e))
    ensures var r := Decode(p);
            && (r.Some? ==> r.value <= MAX_U64 && Equals(p.integer, p.fraction, e, r.value))
            && (forall n: nat ::
                n <= MAX_U64 && Equals(p.integer, p.fraction, e, n) && (p.integer != [] || e <= 20) ==> r == Some(n))
            && (r.Some? ==> p.integer != [] || e <= 20)
  {
    hide Equals, Signed, Append, Shift, Value, Ten;
    if e < 0 {
      NegativeExact(p, e);
    } else if |p.fraction| > e {
      forall n: nat ensures !Equals(p.integer, p.fraction, e, n) { NotWhole(p.integer, p.fraction, e, n); }
    } else {
      ShiftDecodes(p.integer, p.fraction, e);
      forall n: nat
        ensures Equals(p.integer, p.fraction, e, n) <==> n == Value(p.integer + p.fraction) * Ten(e - |p.fraction|) {
        ShiftExact(p.integer, p.fraction, e, n);
      }
      if |p.integer| + e > 20 && p.integer != [] {
        forall n: nat | Equals(p.integer, p.fraction, e, n) ensures n > MAX_U64 {
          TooLong(p.integer, p.fraction, e, n);
        }
      }
    }
  }

  lemma NegativeExact(p: Parts, e: int)
    requires Reduced(p.integer, p.fraction) && !p.negative && p.exponent != [] && Signed(p.exponent) == Some(e) && e < 0
    ensures var r := Decode(p);
            && (r.Some? ==> r.value <= MAX_U64 && Equals(p.integer, p.fraction, e, r.value))
            && (forall n: nat :: n <= MAX_U64 && Equals(p.integer, p.fraction, e, n) ==> r == Some(n))
            && (r.Some? ==> p.integer != [])
  {
    hide Signed, Append, Value, Ten, AllZeros;
    if p.fraction != [] {
      forall n: nat ensures !Equals(p.integer, p.fraction, e, n) {
        LastDigit(p.integer, p.fraction, n, |p.fraction| - e);
      }
    } else {
      var k := -e;
      assert p.integer + p.fraction == p.integer;
      forall n: nat { DropDigits(p.integer, k, n); }
      if k <= |p.integer| {
        AppendValue(0, p.integer[..|p.integer| - k]);
      }
    }
  }

  // ----- literals -----

  datatype Exponent = NoExponent | Exponent(mark: byte, sign: Option<byte>, digits: bytes)

  /** A number as section 6 of RFC 8259 has it. */
  datatype Literal = Literal(negative: bool, whole: bytes, fraction: Option<bytes>, exponent: Exponent)

  predicate IsLiteral(l: Literal) {
    && l.whole != [] && AllDigits(l.whole) && (l.whole[0] == ZERO ==> |l.whole| == 1)
    && (l.fraction.Some? ==> l.fraction.value != [] && AllDigits(l.fraction.value))
    && (l.exponent.Exponent? ==>
          && IsMark(l.exponent.mark) && (l.exponent.sign.Some? ==> IsSign(l.exponent.sign.value))
          && l.exponent.digits != [] && AllDigits(l.exponent.digits))
  }

  function ExponentText(x: Exponent): bytes {
    if x.NoExponent? then [] else (if x.sign.None? then [] else [x.sign.value]) + x.digits
  }

  function ExponentTail(x: Exponent): bytes {
    if x.NoExponent? then [] else [x.mark] + ExponentText(x)
  }

  function FractionTail(l: Literal): bytes {
    (if l.fraction.None? then [] else [DOT] + l.fraction.value) + ExponentTail(l.exponent)
  }

  function Text(l: Literal): bytes {
    (if l.negative then [MINUS] else []) + (l.whole + FractionTail(l))
  }

  function FractionOf(l: Literal): bytes {
    if l.fraction.None? then [] else l.fraction.value
  }

  function Power(l: Literal): int
    requires IsLiteral(l)
  {
    if l.exponent.NoExponent? then 0
    else if l.exponent.sign == Some(MINUS) then 0 - Value(l.exponent.digits) as int
    else Value(l.exponent.digits)
  }

  /** The exact value of the literal is `n`. */
  ghost predicate Denotes(l: Literal, n: nat)
    requires IsLiteral(l)
  {
    && Equals(l.whole, FractionOf(l), Power(l), n)
    && (l.negative ==> IsZero(l))
  }

  predicate IsZero(l: Literal) {
    AllZeros(l.whole) && AllZeros(FractionOf(l))
  }

  predicate Fits32(e: int) {
    -0x8000_0000 <= e <= 0x7fff_ffff
  }

  // ----- the literal a text starts with -----

  predicate StartsDigit(s: bytes) {
    s != [] && IsDigit(s[0])
  }

  predicate StartsFraction(s: bytes) {
    s != [] && s[0] == DOT && StartsDigit(s[1..])
  }

  predicate StartsExponent(s: bytes) {
    s != [] && IsMark(s[0]) && (StartsDigit(s[1..]) || (|s| > 1 && IsSign(s[1]) && StartsDigit(s[2..])))
  }

  /** In front of `tail` the literal is not the beginning of a longer one. */
  predicate Stops(l: Literal, tail: bytes) {
    && (StartsDigit(tail) ==> l.whole == [ZERO] && l.fraction.None? && l.exponent.NoExponent?)
    && (StartsFraction(tail) ==> l.fraction.Some? || l.exponent.Exponent?)
    && (StartsExponent(tail) ==> l.exponent.Exponent?)
  }

  /**
   How much the scanner takes of what follows a literal: an exponent mark without digits, with its
   sign, unless the text ends at the mark. A text that ends at the sign is refused.
   */
  function Taken(l: Literal, tail: bytes): Option<nat> {
    if l.exponent.Exponent? || |tail| < 2 || !IsMark(tail[0]) then Some(0)
    else if !IsSign(tail[1]) then Some(1)
    else if |tail| == 2 then None
    else Some(2)
  }

  lemma ExponentEndOf(l: Literal, tail: bytes)
    requires IsLiteral(l) && Stops(l, tail)
    ensures var x, v := ExponentTail(l.exponent), ExponentTail(l.exponent) + tail;
            if l.exponent.Exponent? then ExponentEnd(v) == Some(|x|) && |x| > 0 && v[1..|x|] == ExponentText(l.exponent)
            else v == tail && ExponentEnd(v) == Taken(l, tail)
  {
    hide DigitsLen;
    var x := l.exponent;
    if x.Exponent? {
      DigitsLenOf(x.digits, tail);
      ExponentAt(x, tail);
    } else {
      assert [] + tail == tail;
      NoDigits(tail);
    }
  }

  /** The mark, the sign and the digits of an exponent. */
  lemma ExponentAt(x: Exponent, tail: bytes)
    requires x.Exponent? && x.digits != []
    ensures var v, k := ExponentTail(x) + tail, if x.sign.Some? then 2 else 1;
            && |v| == k + |x.digits| + |tail| && |ExponentTail(x)| == k + |x.digits|
            && v[0] == x.mark && (x.sign.Some? ==> v[1] == x.sign.value) && v[k] == x.digits[0]
            && v[k..] == x.digits + tail && v[1..|ExponentTail(x)|] == ExponentText(x)
  {
  }

  lemma NoDigits(tail: bytes)
    ensures |tail| > 1 && !StartsDigit(tail[1..]) ==> DigitsLen(tail[1..]) == 0
    ensures |tail| > 2 && !StartsDigit(tail[2..]) ==> DigitsLen(tail[2..]) == 0
  {
  }

  lemma SignedOf(l: Literal)
    requires IsLiteral(l) && l.exponent.Exponent?
    ensures ExponentText(l.exponent) != []
    ensures Signed(ExponentText(l.exponent)) == if Fits32(Power(l)) then Some(Power(l)) else None
  {
    hide DigitsLen, Value;
    var x := l.exponent;
    assert x.digits + [] == x.digits;
    DigitsLenOf(x.digits, []);
    var s := ExponentText(x);
    if x.sign.Some? {
      assert s[1..] == x.digits;
    } else {
      assert s == x.digits && IsDigit(s[0]);
    }
  }

  lemma {:induction false} FractionEndOf(l: Literal, tail: bytes)
    requires IsLiteral(l) && Stops(l, tail)
    ensures var u := FractionTail(l) + tail;
            var f := FractionEnd(u);
            && f == (if l.fraction.None? then 0 else 1 + |l.fraction.value|)
            && (f > 0 ==> u[1..f] == l.fraction.value) && u[f..] == ExponentTail(l.exponent) + tail
            && (StartsDigit(u) ==> l.whole == [ZERO])
  {
    hide DigitsLen, ExponentTail, StartsExponent;
    var u, v := FractionTail(l) + tail, ExponentTail(l.exponent) + tail;
    ExponentStart(l, tail);
    if l.fraction.Some? {
      var d := l.fraction.value;
      DigitsLenOf(d, v);
      assert u == [DOT] + (d + v) && u[1..] == d + v && IsDigit(d[0]) && u[1] == d[0];
      assert u[1..1 + |d|] == u[1..][..|d|] && u[1 + |d|..] == u[1..][|d|..];
    } else {
      assert u == v && u[0..] == u;
    }
  }

  lemma ExponentStart(l: Literal, tail: bytes)
    requires IsLiteral(l) && Stops(l, tail)
    ensures var v := ExponentTail(l.exponent) + tail;
            && (StartsDigit(v) ==> l.whole == [ZERO] && l.fraction.None?)
            && (StartsFraction(v) ==> l.fraction.Some?)
  {
    if l.exponent.NoExponent? {
      assert [] + tail == tail;
    }
  }

  lemma IntegerEndOf(l: Literal, tail: bytes)
    requires IsLiteral(l) && Stops(l, tail)
    ensures var u := FractionTail(l) + tail;
            var t := l.whole + u;
            && IntegerEnd(t) == Some(|l.whole|) && t[..|l.whole|] == l.whole && t[|l.whole|..] == u
            && t[0] == l.whole[0] && IsDigit(t[0])
  {
    hide FractionTail, DigitsLen;
    FractionEndOf(l, tail);
    if l.whole[0] != ZERO {
      DigitsLenOf(l.whole, FractionTail(l) + tail);
    }
  }

  /** What the scanner finds in a literal and what follows it. */
  lemma {:induction false} PartsOf(l: Literal, tail: bytes)
    requires IsLiteral(l) && Stops(l, tail)
    ensures var k := Taken(l, tail);
            ReadParts(Text(l) + tail) ==
            if k.None? then None
            else Some(Parts(
              l.negative, if l.whole[0] == ZERO then [] else l.whole, TrimZeros(FractionOf(l)),
              if k.value == 2 then [tail[1]] else ExponentText(l.exponent), |Text(l)| + k.value))
  {
    hide IntegerEnd, FractionEnd, ExponentEnd, FractionTail, ExponentTail, ExponentText, TrimZeros, Stops, Taken,
         Text, ReadParts, IsLiteral;
    var u, v := FractionTail(l) + tail, ExponentTail(l.exponent) + tail;
    FractionEndOf(l, tail);
    ExponentFrom(l, tail);
    IntegerEndOf(l, tail);
    TextAt(l, tail);
    TrimNothing();
    PartsFrom(Text(l) + tail, l.whole + u, |l.whole|, u, v);
  }

  /** The exponent the scanner finds. */
  lemma ExponentFrom(l: Literal, tail: bytes)
    requires IsLiteral(l) && Stops(l, tail)
    ensures var k, v := Taken(l, tail), ExponentTail(l.exponent) + tail;
            var e := ExponentEnd(v);
            && (e.Some? <==> k.Some?)
            && (e.Some? ==>
                  && e.value == |ExponentTail(l.exponent)| + k.value && (k.value == 2 ==> |tail| > 1)
                  && (if e.value > 0 then v[1..e.value] else []) ==
                     if k.value == 2 then [tail[1]] else ExponentText(l.exponent))
  {
    hide ExponentEnd, ExponentTail, Stops;
    ExponentEndOf(l, tail);
    if l.exponent.NoExponent? {
      assert ExponentTail(l.exponent) == [] by { NoTail(l.exponent); }
    }
  }

  lemma NoTail(x: Exponent)
    ensures x.NoExponent? ==> ExponentTail(x) == []
  {
  }

  /** The parts, from what remains at each stage. */
  lemma PartsFrom(s: bytes, t: bytes, i: nat, u: bytes, v: bytes)
    requires t == (if s != [] && s[0] == MINUS then s[1..] else s) && IntegerEnd(t) == Some(i)
    requires t != [] && u == t[i..] && v == u[FractionEnd(u)..]
    ensures ReadParts(s) ==
            var e := ExponentEnd(v);
            if e.None? then None
            else Some(Parts(
              s != [] && s[0] == MINUS, if t[0] == ZERO then [] else t[..i],
              if FractionEnd(u) > 0 then TrimZeros(u[1..FractionEnd(u)]) else [],
              if e.value > 0 then v[1..e.value] else [], |s| - |v| + e.value))
  {
    hide IntegerEnd, FractionEnd, ExponentEnd, TrimZeros;
  }

  /** The sign of a literal, and what comes after it. */
  lemma TextAt(l: Literal, tail: bytes)
    requires IsLiteral(l)
    ensures var s := Text(l) + tail;
            && s != [] && (s[0] == MINUS <==> l.negative) && |s| == |Text(l)| + |tail|
            && (if l.negative then s[1..] else s) == l.whole + (FractionTail(l) + tail)
  {
    hide FractionTail;
    assert IsDigit(l.whole[0]);
    assert l.whole + FractionTail(l) + tail == l.whole + (FractionTail(l) + tail);
  }

  lemma TrimNothing()
    ensures TrimZeros([]) == []
  {
  }

  // ----- dropping the zeros keeps the value -----

  lemma {:induction false} TrimEnds(s: bytes)
    ensures var t := TrimZeros(s); t != [] ==> t[|t| - 1] != ZERO
    ensures TrimZeros(s) == [] <==> AllZeros(s)
  {
    if s != [] && s[|s| - 1] == ZERO {
      TrimEnds(s[..|s| - 1]);
    }
  }

  /** The value of the digits, before and after dropping zeros at both ends. */
  lemma ReducedValue(whole: bytes, fraction: bytes, integer: bytes)
    requires AllDigits(whole) && AllDigits(fraction) && AllDigits(integer) && Value(integer) == Value(whole)
    ensures AllDigits(whole + fraction) && AllDigits(TrimZeros(fraction)) && AllDigits(integer + TrimZeros(fraction))
    ensures |TrimZeros(fraction)| <= |fraction|
    ensures var t := TrimZeros(fraction); Value(whole + fraction) == Value(integer + t) * Ten(|fraction| - |t|)
  {
    hide Value, Ten, TrimZeros;
    TrimValue(fraction);
    var t := TrimZeros(fraction);
    ValueSplit(whole, fraction);
    ValueSplit(integer, t);
    var z, a := |fraction| - |t|, Value(whole);
    TenSum(|t|, z);
    assert a * (Ten(|t|) * Ten(z)) == (a * Ten(|t|)) * Ten(z);
    Spread(a * Ten(|t|), Value(t), Ten(z));
  }

  lemma Spread(a: nat, b: nat, c: nat)
    ensures a * c + b * c == (a + b) * c
  {
  }

  lemma ReducedEquals(whole: bytes, fraction: bytes, integer: bytes, e: int, n: nat)
    requires AllDigits(whole) && AllDigits(fraction) && AllDigits(integer) && Value(integer) == Value(whole)
    ensures AllDigits(TrimZeros(fraction))
    ensures Equals(whole, fraction, e, n) <==> Equals(integer, TrimZeros(fraction), e, n)
  {
    hide Value, Ten, TrimZeros, Equals;
    ReducedValue(whole, fraction, integer);
    var t := TrimZeros(fraction);
    var z, v := |fraction| - |t|, Value(integer + t);
    if e >= 0 {
      TenSum(|t|, z);
      ScaleUp(n, Ten(|t|), v, Ten(e), Ten(z));
      EqualsUp(whole, fraction, e, n, Ten(|t|) * Ten(z), v * Ten(z), Ten(e));
      EqualsUp(integer, t, e, n, Ten(|t|), v, Ten(e));
    } else {
      TenSum(|t| - e, z);
      ScaleUp(n, Ten(|t| - e), v, 1, Ten(z));
      EqualsDown(whole, fraction, e, n, Ten(|t| - e) * Ten(z), v * Ten(z));
      EqualsDown(integer, t, e, n, Ten(|t| - e), v);
    }
  }

  lemma EqualsUp(integer: bytes, fraction: bytes, e: nat, n: nat, p: nat, v: nat, q: nat)
    requires AllDigits(integer) && AllDigits(fraction) && AllDigits(integer + fraction)
    requires p == Ten(|fraction|) && v == Value(integer + fraction) && q == Ten(e)
    ensures Equals(integer, fraction, e, n) <==> n * p == v * q
  {
  }

  lemma EqualsDown(integer: bytes, fraction: bytes, e: int, n: nat, p: nat, v: nat)
    requires AllDigits(integer) && AllDigits(fraction) && AllDigits(integer + fraction) && e < 0
    requires p == Ten(|fraction| - e) && v == Value(integer + fraction)
    ensures Equals(integer, fraction, e, n) <==> n * p == v * 1
  {
  }

  lemma ScaleUp(n: nat, a: nat, v: nat, b: nat, p: nat)
    requires p > 0
    ensures n * (a * p) == (v * p) * b <==> n * a == v * b
  {
    Swap(n, a, p);
    Swap(v, b, p);
    Cancel(n * a, v * b, p);
  }

  lemma Swap(a: nat, b: nat, c: nat)
    ensures a * (b * c) == (a * b) * c && (a * c) * b == (a * b) * c
  {
  }

  lemma ZeroDenotes(l: Literal)
    requires IsLiteral(l) && IsZero(l)
    ensures Denotes(l, 0)
  {
    hide Ten, Value;
    ValueSplit(l.whole, FractionOf(l));
    ZerosValue(l.whole);
    ZerosValue(FractionOf(l));
  }

  lemma ZeroOnly(l: Literal, n: nat)
    requires IsLiteral(l) && IsZero(l) && Denotes(l, n)
    ensures n == 0
  {
    hide Ten, Value;
    ValueSplit(l.whole, FractionOf(l));
    ZerosValue(l.whole);
    ZerosValue(FractionOf(l));
    AtLeast(n, Ten(|FractionOf(l)| + if Power(l) < 0 then -Power(l) else 0));
  }

  lemma WholeValue(l: Literal)
    requires IsLiteral(l)
    ensures Value(if l.whole[0] == ZERO then [] else l.whole) == Value(l.whole)
    ensures l.whole[0] == ZERO <==> AllZeros(l.whole)
  {
  }

  lemma ExponentOf(l: Literal)
    requires IsLiteral(l)
    ensures var s := ExponentText(l.exponent);
            if s == [] then Power(l) == 0 else Signed(s) == if Fits32(Power(l)) then Some(Power(l)) else None
  {
    if l.exponent.Exponent? {
      SignedOf(l);
    }
  }

  /** A field holds the literal's exact value, or nothing. */
  lemma FieldExact(l: Literal, validated: bool)
    requires IsLiteral(l)
    ensures var r := Field(Text(l), false, validated);
            && (r.Some? ==> r.value <= MAX_U64 && Denotes(l, r.value))
            && (forall n: nat ::
                n <= MAX_U64 && Denotes(l, n) && Fits32(Power(l)) && (l.whole[0] != ZERO || Power(l) <= 20) ==>
                r == Some(n))
            && (r.Some? ==> IsZero(l) || (Fits32(Power(l)) && (l.whole[0] != ZERO || Power(l) <= 20)))
            && (IsZero(l) ==> r == Some(0))
  {
    hide Equals, ReadParts, Text, Signed, TrimZeros, Value, Power, ExponentText, Append, Shift;
    PartsOf(l, []);
    assert Text(l) + [] == Text(l);
    WholeValue(l);
    var integer, fraction := if l.whole[0] == ZERO then [] else l.whole, TrimZeros(FractionOf(l));
    var p := Parts(l.negative, integer, fraction, ExponentText(l.exponent), |Text(l)|);
    assert AllDigits(fraction) && Value(integer) == Value(l.whole) by { TrimValue(FractionOf(l)); }
    TrimEnds(FractionOf(l));
    assert integer == [] <==> AllZeros(l.whole);
    if IsZero(l) {
      ZeroDenotes(l);
      forall n: nat | Denotes(l, n) ensures n == 0 { ZeroOnly(l, n); }
    } else if l.negative {
    } else {
      var e := Power(l);
      ExponentOf(l);
      forall n: nat { ReducedEquals(l.whole, FractionOf(l), integer, e, n); }
      if Fits32(e) {
        DecodeExact(p, e);
      }
    }
  }

  const ZEROS: bytes :=
    [ZERO, ZERO, ZERO, ZERO, ZERO, ZERO, ZERO, ZERO, ZERO, ZERO,
     ZERO, ZERO, ZERO, ZERO, ZERO, ZERO, ZERO, ZERO, ZERO, ZERO]

  /** One, written with a zero before the point and the exponent 21: the limit on the width refuses it. */
  const WIDE_ONE: Literal :=
    Literal(false, [ZERO], Some(ZEROS + [ZERO + 1]), Exponent(0x65, None, [ZERO + 2, ZERO + 1]))

  lemma {:induction false} WideOneRefused()
    ensures IsLiteral(WIDE_ONE) && Denotes(WIDE_ONE, 1) && Field(Text(WIDE_ONE), false, true) == None
  {
    hide Field, Text, Ten;
    var l, one := WIDE_ONE, [ZERO + 1];
    assert l.fraction.value == ZEROS + one && IsLiteral(l);
    assert Value(one) == 1 && Value(l.exponent.digits) == 21 by {
      assert l.exponent.digits[..1] == [ZERO + 2] && Value([ZERO + 2]) == 2;
    }
    var all := l.whole + FractionOf(l);
    assert all == (l.whole + ZEROS) + one;
    ValueSplit(l.whole + ZEROS, one);
    ZerosValue(l.whole + ZEROS);
    assert FractionOf(l)[20] == ZERO + 1;
    FieldExact(l, true);
  }
}
