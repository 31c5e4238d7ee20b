/** What the shifting decoder makes of any text: it reads the literal the text starts with. */
module ProtoTexts {
  import opened Bytes
  import opened Wrappers
  import opened Decimals
  import opened ProtoNumbers
  import opened ProtoExact

  /** The longest literal a text starts with. */
  function Head(s: bytes): Option<Literal> {
    var negative := s != [] && s[0] == MINUS;
    var t := if negative then s[1..] else s;
    var i :- IntegerEnd(t);
    var u := t[i..];
    var f := FractionEnd(u);
    Some(Literal(negative, t[..i], if f > 0 then Some(u[1..f]) else None, HeadExponent(u[f..])))
  }

  function HeadExponent(s: bytes): Exponent {
    if !StartsExponent(s) then NoExponent
    else if IsSign(s[1]) then Exponent(s[0], Some(s[1]), s[2..][..DigitsLen(s[2..])])
    else Exponent(s[0], None, s[1..][..DigitsLen(s[1..])])
  }

  /** `Head` finds the literal the text starts with and that does not go on, if there is one. */
  lemma HeadExact(s: bytes, l: Literal)
    ensures Head(s) == Some(l) <==> IsLiteral(l) && Text(l) <= s && Stops(l, s[|Text(l)|..])
  {
    hide Head, IsLiteral, Text, Stops;
    if Head(s) == Some(l) {
      HeadSound(s);
    }
    if IsLiteral(l) && Text(l) <= s && Stops(l, s[|Text(l)|..]) {
      HeadComplete(l, s[|Text(l)|..]);
      assert s == Text(l) + s[|Text(l)|..];
    }
  }

  lemma HeadComplete(l: Literal, tail: bytes)
    requires IsLiteral(l) && Stops(l, tail)
    ensures Head(Text(l) + tail) == Some(l)
  {
    hide IntegerEnd, FractionEnd, FractionTail, ExponentTail, AllDigits, IsMark, IsSign, Stops, HeadExponent, Text;
    FractionEndOf(l, tail);
    IntegerEndOf(l, tail);
    HeadExponentOf(l, tail);
    TextAt(l, tail);
  }

  lemma HeadExponentOf(l: Literal, tail: bytes)
    requires IsLiteral(l) && Stops(l, tail)
    ensures HeadExponent(ExponentTail(l.exponent) + tail) == l.exponent
  {
    hide HeadExponent, StartsExponent, ExponentTail;
    if l.exponent.Exponent? {
      ReadExponent(l.exponent, tail);
    } else {
      ExponentEndOf(l, tail);
      NoHeadExponent(tail);
    }
  }

  lemma NoHeadExponent(tail: bytes)
    ensures !StartsExponent(tail) ==> HeadExponent(tail) == NoExponent
  {
    hide StartsExponent;
  }

  lemma ReadExponent(x: Exponent, tail: bytes)
    requires x.Exponent? && IsMark(x.mark) && (x.sign.Some? ==> IsSign(x.sign.value)) && x.digits != []
             && AllDigits(x.digits)
    requires !StartsDigit(tail)
    ensures HeadExponent(ExponentTail(x) + tail) == x
  {
    hide DigitsLen, IsMark, ExponentTail, ExponentText;
    DigitsLenOf(x.digits, tail);
    ExponentAt(x, tail);
  }

  lemma HeadSound(s: bytes)
    requires Head(s).Some?
    ensures var l := Head(s).value; IsLiteral(l) && Text(l) <= s && Stops(l, s[|Text(l)|..])
  {
    hide HeadExponent, FractionTail, ExponentTail, StartsDigit, StartsExponent, StartsFraction, Text, Stops, AllDigits,
         IsMark, IsSign, Head, IsLiteral;
    var l := Head(s).value;
    var t, u, v := HeadStages(s);
    var tail := ExponentFound(v);
    FractionJoined(l, u, v, tail);
    TextJoined(l, s, t, tail);
    TailStops(l, u, v, tail);
    IsMade(l);
  }

  /** The stages of the scan: what is left after the sign, the digits and the fraction. */
  lemma HeadStages(s: bytes) returns (t: bytes, u: bytes, v: bytes)
    requires Head(s).Some?
    ensures var l := Head(s).value;
            && s == (if l.negative then [MINUS] else []) + t && t == l.whole + u
            && u == (if l.fraction.None? then [] else [DOT] + l.fraction.value) + v && l.exponent == HeadExponent(v)
            && l.whole != [] && AllDigits(l.whole) && (l.whole[0] == ZERO ==> l.whole == [ZERO])
            && (StartsDigit(u) ==> l.whole == [ZERO])
            && if l.fraction.None? then u == v && !StartsFraction(u)
               else l.fraction.value != [] && AllDigits(l.fraction.value) && !StartsDigit(v)
  {
    hide Head, IntegerEnd, FractionEnd, HeadExponent, AllDigits, StartsDigit, StartsFraction;
    var l := Head(s).value;
    HeadIs(s);
    t := if l.negative then s[1..] else s;
    var i := IntegerEnd(t).value;
    u := t[i..];
    v := u[FractionEnd(u)..];
    assert t == t[..i] + u;
    assert l.negative ==> s == [MINUS] + t;
    IntegerFound(t);
    FractionFound(u);
    Nothing(s);
    Nothing(u);
  }

  lemma Nothing(s: bytes)
    ensures [] + s == s
  {
  }

  /** What `Head` finds at each stage. */
  lemma HeadIs(s: bytes)
    requires Head(s).Some?
    ensures var l := Head(s).value;
            && l.negative == (s != [] && s[0] == MINUS)
            && var t := if l.negative then s[1..] else s;
            && IntegerEnd(t).Some? && l.whole == t[..IntegerEnd(t).value]
            && var u := t[IntegerEnd(t).value..];
            && var f := FractionEnd(u);
            && l.fraction == (if f > 0 then Some(u[1..f]) else None) && l.exponent == HeadExponent(u[f..])
  {
    hide IntegerEnd, FractionEnd, HeadExponent;
  }

  lemma IsMade(l: Literal)
    requires l.whole != [] && AllDigits(l.whole) && (l.whole[0] == ZERO ==> l.whole == [ZERO])
    requires l.fraction.Some? ==> l.fraction.value != [] && AllDigits(l.fraction.value)
    requires l.exponent.Exponent? ==>
               && IsMark(l.exponent.mark) && (l.exponent.sign.Some? ==> IsSign(l.exponent.sign.value))
               && l.exponent.digits != [] && AllDigits(l.exponent.digits)
    ensures IsLiteral(l)
  {
    hide AllDigits, IsMark, IsSign;
  }

  lemma TailStops(l: Literal, u: bytes, v: bytes, tail: bytes)
    requires StartsDigit(u) ==> l.whole == [ZERO]
    requires if l.fraction.Some? then !StartsDigit(v) else u == v && !StartsFraction(u)
    requires if l.exponent.Exponent? then !StartsDigit(tail) else v == tail && !StartsExponent(v)
    ensures Stops(l, tail)
  {
    hide StartsDigit, StartsExponent, StartsFraction;
  }

  lemma TextJoined(l: Literal, s: bytes, t: bytes, tail: bytes)
    requires t == l.whole + (FractionTail(l) + tail) && s == (if l.negative then [MINUS] else []) + t
    ensures s == Text(l) + tail && s[|Text(l)|..] == tail
  {
    hide FractionTail;
    assert t == (l.whole + FractionTail(l)) + tail;
    if !l.negative {
      assert Text(l) == l.whole + FractionTail(l);
    }
  }

  lemma FractionJoined(l: Literal, u: bytes, v: bytes, tail: bytes)
    requires v == ExponentTail(l.exponent) + tail
    requires u == (if l.fraction.None? then [] else [DOT] + l.fraction.value) + v
    ensures u == FractionTail(l) + tail
  {
    hide ExponentTail;
  }

  lemma IntegerFound(t: bytes)
    requires IntegerEnd(t).Some?
    ensures var i := IntegerEnd(t).value;
            && t[..i] != [] && AllDigits(t[..i]) && (t[..i][0] == ZERO ==> t[..i] == [ZERO])
            && (StartsDigit(t[i..]) ==> t[..i] == [ZERO])
  {
    DigitsEnd(t);
  }

  /** The digits at the start of a text go on until another byte. */
  lemma {:induction false} DigitsEnd(s: bytes)
    ensures DigitsLen(s) <= |s| && AllDigits(s[..DigitsLen(s)]) && !StartsDigit(s[DigitsLen(s)..])
  {
    if StartsDigit(s) {
      DigitsEnd(s[1..]);
      assert s[1..][DigitsLen(s[1..])..] == s[DigitsLen(s)..];
    }
  }

  lemma SomeDigits(s: bytes)
    ensures StartsDigit(s) ==> DigitsLen(s) > 0
  {
  }

  lemma FractionFound(u: bytes)
    ensures var f := FractionEnd(u);
            if f == 0 then u == u[f..] && !StartsFraction(u)
            else u == [DOT] + u[1..f] + u[f..] && u[1..f] != [] && AllDigits(u[1..f]) && !StartsDigit(u[f..])
  {
    if StartsFraction(u) {
      DigitsEnd(u[1..]);
      assert u[1..][DigitsLen(u[1..])..] == u[FractionEnd(u)..];
    }
  }

  lemma ExponentFound(v: bytes) returns (tail: bytes)
    ensures var x := HeadExponent(v);
            && v == ExponentTail(x) + tail
            && if x.NoExponent? then v == tail && !StartsExponent(v)
               else
                 && IsMark(x.mark) && (x.sign.Some? ==> IsSign(x.sign.value)) && x.digits != [] && AllDigits(x.digits)
                 && !StartsDigit(tail)
  {
    hide DigitsLen, IsMark, ExponentTail;
    tail := v;
    if StartsExponent(v) {
      var k := if IsSign(v[1]) then 2 else 1;
      DigitsEnd(v[k..]);
      SomeDigits(v[k..]);
      var n := DigitsLen(v[k..]);
      var x := HeadExponent(v);
      tail := v[k + n..];
      assert v[k..][n..] == tail;
      TailOf(x, v, k, n);
    } else {
      NoTail(HeadExponent(v));
    }
  }

  lemma TailOf(x: Exponent, v: bytes, k: nat, n: nat)
    requires x.Exponent? && k == (if x.sign.Some? then 2 else 1) && k + n <= |v|
    requires x.mark == v[0] && (x.sign.Some? ==> x.sign.value == v[1]) && x.digits == v[k..][..n]
    ensures v == ExponentTail(x) + v[k + n..]
  {
    hide ExponentTail;
    Thirds(v, k, n);
    if x.sign.None? {
      assert v[..k] == [x.mark];
    } else {
      assert v[..k] == [x.mark, x.sign.value];
    }
    TailIs(x);
  }

  lemma Thirds(v: bytes, k: nat, n: nat)
    requires k + n <= |v|
    ensures v == v[..k] + v[k..][..n] + v[k + n..]
  {
  }

  lemma TailIs(x: Exponent)
    requires x.Exponent?
    ensures ExponentTail(x) == (if x.sign.None? then [x.mark] else [x.mark, x.sign.value]) + x.digits
  {
  }

  /**
   Which texts a field accepts, and as what: a text that starts with a literal, as that literal.
   What follows the literal does not matter, except that an exponent mark without digits is
   skipped, a sign after it leaves only zero, and a text not read before must go on with a
   delimiter. `FieldExact` says what the literal alone gives.
   */
  lemma FieldText(s: bytes, validated: bool)
    ensures Head(s).None? ==> Field(s, false, validated) == None
    ensures Head(s).Some? ==>
              var l := Head(s).value;
              && Text(l) <= s
              && var tail := s[|Text(l)|..];
              var k := Taken(l, tail);
              Field(s, false, validated) ==
              if k.None? || (k.value == 2 && !IsZero(l)) then None
              else if !validated && k.value < |tail| && IsNotDelimiter(tail[k.value]) then None
              else Field(Text(l), false, true)
  {
    hide Text, Stops, IsNotDelimiter, Head, ReadParts, IsLiteral, IsZero, Taken;
    if Head(s).Some? {
      var l := Head(s).value;
      HeadSound(s);
      var tail := s[|Text(l)|..];
      assert s == Text(l) + tail;
      FieldTail(l, tail, validated);
    } else {
      NoHead(s);
    }
  }

  lemma FieldTail(l: Literal, tail: bytes, validated: bool)
    requires IsLiteral(l) && Stops(l, tail)
    ensures var s, k := Text(l) + tail, Taken(l, tail);
            Field(s, false, validated) ==
            if k.None? || (k.value == 2 && !IsZero(l)) then None
            else if !validated && k.value < |tail| && IsNotDelimiter(tail[k.value]) then None
            else Field(Text(l), false, true)
  {
    hide Text, Stops, TrimZeros, ExponentText, IsNotDelimiter, ReadParts, Decode, IsZero, Taken;
    PartsOf(l, tail);
    NothingTaken(l);
    PartsOf(l, []);
    assert Text(l) + [] == Text(l);
    if Taken(l, tail).Some? {
      DecodeSame(l, tail);
    }
  }

  lemma NoHead(s: bytes)
    requires Head(s).None?
    ensures ReadParts(s).None?
  {
    hide IntegerEnd, FractionEnd, HeadExponent;
  }

  lemma NothingTaken(l: Literal)
    ensures Stops(l, []) && Taken(l, []) == Some(0)
  {
  }

  /** Where the number ends does not change it; a sign without digits leaves only zero. */
  lemma DecodeSame(l: Literal, tail: bytes)
    requires IsLiteral(l) && Taken(l, tail).Some? && ReadParts(Text(l)).Some? && ReadParts(Text(l) + tail).Some?
    requires var k, p, q := Taken(l, tail).value, ReadParts(Text(l)).value, ReadParts(Text(l) + tail).value;
             && p.negative == q.negative == l.negative
             && p.integer == q.integer == (if l.whole[0] == ZERO then [] else l.whole)
             && p.fraction == q.fraction == TrimZeros(FractionOf(l))
             && p.exponent == ExponentText(l.exponent) && q.exponent == if k == 2 then [tail[1]] else p.exponent
    ensures var k, p, q := Taken(l, tail).value, ReadParts(Text(l)).value, ReadParts(Text(l) + tail).value;
            Decode(q) == if k == 2 && !IsZero(l) then None else Decode(p)
  {
    hide ReadParts, Text, TrimZeros, Append, Shift, Value, DigitsLen;
    WholeValue(l);
    TrimEnds(FractionOf(l));
  }
}
