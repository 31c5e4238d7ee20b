/** Decimal numerals. */
module Decimals {
  import opened Bytes
  import opened Arithmetic

  predicate AllDigits(s: bytes) {
    forall i :: 0 <= i < |s| ==> IsDigit(s[i])
  }

  /** The numeral of a number, without leading zeros. */
  function Digits(n: nat): (s: bytes)
    ensures s != [] && AllDigits(s)
  {
    if n < 10 then [Digit(n)] else Digits(n / 10) + [Digit(n % 10)]
  }

  function Digit(d: nat): byte
    requires d < 10
  {
    ZERO + d as byte
  }

  function DigitValue(b: byte): (d: nat)
    requires IsDigit(b)
    ensures d < 10
  {
    (b - ZERO) as nat
  }

  /** The number a string of digits stands for. */
  function Value(s: bytes): nat
    requires AllDigits(s)
  {
    if s == [] then 0 else 10 * Value(s[..|s| - 1]) + DigitValue(s[|s| - 1])
  }

  lemma {:induction false} ValueOfDigits(n: nat)
    ensures Value(Digits(n)) == n
    decreases n
  {
    if n >= 10 {
      ValueOfDigits(n / 10);
      assert Digits(n)[..|Digits(n)| - 1] == Digits(n / 10);
    }
  }

  lemma DigitsInjective(a: nat, b: nat)
    requires Digits(a) == Digits(b)
    ensures a == b
  {
    ValueOfDigits(a);
    ValueOfDigits(b);
  }

  lemma DigitsLenOf(a: bytes, x: bytes)
    requires AllDigits(a) && (x == [] || !IsDigit(x[0]))
    ensures DigitsLen(a + x) == |a| && (a + x)[..|a|] == a && (a + x)[|a|..] == x
  {
    hide DigitsLen;
    var n, s := DigitsLen(a + x), a + x;
    assert forall i :: 0 <= i < |a| ==> s[i] == a[i];
    assert x != [] ==> s[|a|] == x[0];
  }

  /** Two numerals followed by a byte that is no digit are read apart. */
  lemma DigitsEnd(a: bytes, b: bytes, x: bytes, y: bytes)
    requires AllDigits(a) && AllDigits(b) && x != [] && y != [] && !IsDigit(x[0]) && !IsDigit(y[0])
    requires a + x == b + y
    ensures a == b && x == y
  {
    DigitsLenOf(a, x);
    DigitsLenOf(b, y);
    assert (a + x)[..|a|] == a && (b + y)[..|b|] == b;
    assert (a + x)[|a|..] == x && (b + y)[|b|..] == y;
  }

  // ----- powers of ten, and digit strings side by side -----

  function Ten(k: nat): (r: nat)
    ensures r > 0
  {
    Power(10, k)
  }

  lemma TenSum(a: nat, b: nat)
    ensures Ten(a + b) == Ten(a) * Ten(b)
  {
    PowerSum(10, a, b);
  }

  lemma {:induction false} ValueGrows(s: bytes, i: nat)
    requires AllDigits(s) && i <= |s|
    ensures Value(s[..i]) <= Value(s)
    decreases |s|
  {
    if i < |s| {
      ValueGrows(s[..|s| - 1], i);
      assert s[..|s| - 1][..i] == s[..i];
    } else {
      assert s[..i] == s;
    }
  }

  lemma ValueNext(s: bytes, i: nat)
    requires AllDigits(s) && i < |s|
    ensures Value(s[..i + 1]) == Value(s[..i]) * 10 + DigitValue(s[i])
  {
    assert s[..i + 1][..i] == s[..i];
  }

  lemma {:induction false} ValueSplit(a: bytes, b: bytes)
    requires AllDigits(a) && AllDigits(b)
    ensures AllDigits(a + b) && Value(a + b) == Value(a) * Ten(|b|) + Value(b)
    decreases |b|
  {
    if b == [] {
      assert a + b == a;
    } else {
      var init, d := b[..|b| - 1], DigitValue(b[|b| - 1]);
      ValueSplit(a, init);
      assert (a + b)[..|a + b| - 1] == a + init && (a + b)[|a + b| - 1] == b[|b| - 1];
      TimesTen(Value(a), Ten(|init|), Value(init), d);
    }
  }

  lemma TimesTen(x: nat, y: nat, v: nat, d: nat)
    ensures 10 * (x * y + v) + d == x * (10 * y) + (10 * v + d)
  {
    assert 10 * (x * y) == x * (10 * y);
  }

  lemma {:induction false} ValueBelow(s: bytes)
    requires AllDigits(s)
    ensures Value(s) < Ten(|s|)
  {
    if s != [] {
      ValueBelow(s[..|s| - 1]);
    }
  }

  // ----- trailing zeros -----

  function TrimZeros(s: bytes): (r: bytes)
    ensures |r| <= |s| && r == s[..|r|]
  {
    if s != [] && s[|s| - 1] == ZERO then TrimZeros(s[..|s| - 1]) else s
  }

  method DropZeros(s: bytes) returns (r: bytes)
    ensures r == TrimZeros(s)
  {
    r := s;
    while r != [] && r[|r| - 1] == ZERO
      invariant TrimZeros(r) == TrimZeros(s)
    {
      r := r[..|r| - 1];
    }
  }

  lemma {:induction false} TrimValue(s: bytes)
    requires AllDigits(s)
    ensures var t := TrimZeros(s);
            AllDigits(t) && Value(s) == Value(t) * Ten(|s| - |t|)
  {
    if s != [] && s[|s| - 1] == ZERO {
      var init := s[..|s| - 1];
      TrimValue(init);
      var t := TrimZeros(init);
      TimesTen(Value(t), Ten(|init| - |t|), 0, 0);
    }
  }

  lemma {:induction false} TenDivides(k: nat, width: nat)
    requires k <= width
    ensures Ten(width) == Ten(width - k) * Ten(k) && Ten(width) % Ten(k) == 0 && Ten(width) / Ten(k) == Ten(width - k)
    decreases k
  {
    if k > 0 {
      TenDivides(k - 1, width - 1);
      assert Ten(width) == 10 * (Ten(width - k) * Ten(k - 1)) == Ten(width - k) * (10 * Ten(k - 1));
    }
    Multiple(Ten(width - k), Ten(k));
  }

}
