/** Writing durations, and reading them back. */
module DurationText {
  import opened Bytes
  import opened Wrappers
  import opened Decimals
  import opened Arithmetic
  import opened Durations

  const MIN: int := -0x8000_0000_0000_0000

  /** Exactly `width` digits. */
  function Padded(v: nat, width: nat): (s: bytes)
    ensures |s| == width && AllDigits(s)
  {
    if width == 0 then [] else Padded(v / 10, width - 1) + [Digit(v % 10)]
  }

  /** A fraction of a unit of ten to `width`, without trailing zeros. */
  function FractionDigits(v: nat, width: nat): (s: bytes)
    ensures AllDigits(s)
  {
    TrimZeros(Padded(v, width))
  }

  function DecimalItem(total: nat, unit: nat, name: bytes, width: nat): Item
    requires unit > 0
  {
    var whole, fraction := Quotient(total, unit), Remainder(total, unit);
    Item(Digits(whole), fraction != 0, if fraction != 0 then FractionDigits(fraction, width) else [], name)
  }

  function WholeItem(count: nat, name: bytes): Item {
    Item(Digits(count), false, [], name)
  }

  /** The items of a positive number of nanoseconds. */
  function ItemsOf(nanos: nat): seq<Item> {
    if nanos < MICRO then [WholeItem(nanos, NS)]
    else if nanos < MILLI then [DecimalItem(nanos, MICRO, MICRO_SIGN, 3)]
    else if nanos < SECOND then [DecimalItem(nanos, MILLI, MS, 6)]
    else
      var hours, minutes, rest := nanos / HOUR, nanos % HOUR / MINUTE, nanos % HOUR % MINUTE;
      var last := [DecimalItem(rest, SECOND, S, 9)];
      if hours > 0 then [WholeItem(hours, H), WholeItem(minutes, M)] + last
      else if minutes > 0 then [WholeItem(minutes, M)] + last
      else last
  }

  function Magnitude(n: int): nat {
    if n < 0 then -n else n
  }

  function Format(n: int): bytes {
    if n == 0 then [ZERO] + S
    else (if n < 0 then [MINUS] else []) + ItemsText(ItemsOf(Magnitude(n)))
  }

  // ----- the value of the digits -----

  lemma TenStep(v: nat, width: nat)
    requires v < Ten(width)
    ensures if width == 0 then v == 0 else v / 10 < Ten(width - 1)
  {
  }

  lemma DigitOf(d: nat)
    requires d < 10
    ensures IsDigit(Digit(d)) && DigitValue(Digit(d)) == d
  {
  }

  lemma {:induction false} PaddedValue(v: nat, width: nat)
    requires v < Ten(width)
    ensures Value(Padded(v, width)) == v
  {
    hide Digit, Ten, DigitValue;
    TenStep(v, width);
    if width > 0 {
      PaddedValue(v / 10, width - 1);
      DigitOf(v % 10);
      PushedDigit(Padded(v / 10, width - 1), Digit(v % 10));
    }
  }

  lemma PushedDigit(s: bytes, d: byte)
    requires AllDigits(s) && IsDigit(d)
    ensures Value(s + [d]) == Value(s) * 10 + DigitValue(d)
  {
    hide DigitValue;
    assert (s + [d])[..|s|] == s;
  }

  /** A fraction short enough is read whole. */
  lemma {:induction false} MantissaExact(s: bytes, i: nat)
    requires AllDigits(s) && i <= |s| && Value(s) <= (LIMIT - 1) / 10
    ensures Mantissa(s[i..], Value(s[..i]), i, false) == (Value(s), |s|)
    decreases |s| - i
  {
    if i == |s| {
      assert s[..i] == s && s[i..] == [];
    } else {
      ValueGrows(s, i);
      ValueGrows(s, i + 1);
      ValueNext(s, i);
      assert s[i..][1..] == s[i + 1..];
      MantissaExact(s, i + 1);
    }
  }

  lemma FractionValue(v: nat, width: nat)
    requires 0 < v < Ten(width)
    ensures var t := FractionDigits(v, width);
            && t != [] && |t| <= width && 0 < Value(t) <= v && Value(t) * Ten(width - |t|) == v
  {
    hide Padded, TrimZeros, Value, Ten;
    PaddedValue(v, width);
    TrimValue(Padded(v, width));
    var t := FractionDigits(v, width);
    AtLeast(Value(t), Ten(width - |t|));
    assert t == [] ==> Value(t) == 0 by { EmptyValue(t); assert t[..0] == []; }
  }

  // ----- the value of the items -----

  lemma WholeNanos(count: nat, name: bytes, unit: nat, f: Scaling)
    requires UnitOf(name) == Some(unit) && count * unit <= LIMIT
    ensures ItemNanos(WholeItem(count, name), f) == Some(count * unit)
  {
    hide Digits, Value, UnitOf, Mantissa;
    ValueOfDigits(count);
    NoMantissa();
    ProductBound(count, unit, LIMIT);
    AtLeast(count, unit);
  }

  lemma DecimalNanos(total: nat, unit: nat, name: bytes, width: nat, f: Scaling)
    requires UnitOf(name) == Some(unit) && unit == Ten(width) <= SECOND && total <= LIMIT && Exact(f)
    ensures ItemNanos(DecimalItem(total, unit, name, width), f) == Some(total)
  {
    hide Digits, Value, UnitOf, Ten, FractionDigits, Mantissa, Exact, Component;
    var whole, fraction := Quotient(total, unit), Remainder(total, unit);
    ValueOfDigits(whole);
    AtLeast(whole, unit);
    NoMantissa();
    if fraction != 0 {
      var t := FractionDigits(fraction, width);
      FractionValue(fraction, width);
      MantissaExact(t, 0);
      assert t[0..] == t && Value(t[..0]) == 0 by { EmptyValue(t); }
      ScaledFraction(fraction, width, f);
      ComponentOf(whole, Value(t), |t|, unit, fraction, f);
    } else {
      ComponentOf(whole, 0, 0, unit, 0, f);
    }
  }

  lemma ComponentOf(whole: nat, value: nat, count: nat, unit: nat, fraction: nat, f: Scaling)
    requires unit > 0 && whole * unit + fraction <= LIMIT
    requires if value == 0 then fraction == 0 else f(value, unit, count) == fraction
    ensures Component(whole, value, count, unit, f) == Some(whole * unit + fraction)
  {
    ProductBound(whole, unit, LIMIT);
  }

  lemma EmptyValue(t: bytes)
    ensures Value(t[..0]) == 0
  {
  }

  lemma NoMantissa()
    ensures Mantissa([], 0, 0, false) == (0, 0) && Value([]) == 0
  {
  }

  lemma ScaledFraction(v: nat, width: nat, f: Scaling)
    requires 0 < v < Ten(width) && Exact(f) && Ten(width) <= SECOND
    ensures var t := FractionDigits(v, width); f(Value(t), Ten(width), |t|) == v
  {
    hide Ten, FractionDigits, Value;
    var t := FractionDigits(v, width);
    FractionValue(v, width);
    TenDivides(|t|, width);
  }

  // ----- reading back -----

  predicate IsUnit(name: bytes) {
    name != [] && AllUnit(name)
  }

  lemma UnitNames()
    ensures IsUnit(NS) && IsUnit(MICRO_SIGN) && IsUnit(MS) && IsUnit(S) && IsUnit(M) && IsUnit(H)
    ensures UnitOf(NS) == Some(NANO) && UnitOf(MICRO_SIGN) == Some(MICRO) && UnitOf(MS) == Some(MILLI)
    ensures UnitOf(S) == Some(SECOND) && UnitOf(M) == Some(MINUTE) && UnitOf(H) == Some(HOUR)
    ensures Ten(3) == MICRO && Ten(6) == MILLI && Ten(9) == SECOND
  {
    assert Ten(3) == 10 * Ten(2) && Ten(6) == 1000 * Ten(3) && Ten(9) == 1000 * Ten(6);
  }

  predicate Starts(item: Item) {
    item.whole != [] && AllDigits(item.whole) && AllDigits(item.fraction) && (item.fraction != [] ==> item.dot)
    && IsUnit(item.unit)
  }

  /** A list of items that all start with a digit is one the grammar has. */
  lemma {:induction false} AllStart(items: seq<Item>)
    requires forall i :: 0 <= i < |items| ==> Starts(items[i])
    ensures AreItems(items)
    ensures items != [] ==> |ItemsText(items)| > 1 && IsDigit(ItemsText(items)[0])
  {
    if items != [] {
      AllStart(items[1..]);
    }
  }

  /** An item whose value is known, in front of others. */
  lemma SumFirst(item: Item, rest: seq<Item>, total: nat, nanos: nat, f: Scaling)
    requires AreItems([item] + rest) && AreItems(rest) && ItemNanos(item, f) == Some(nanos) && total + nanos <= LIMIT
    ensures Sum([item] + rest, total, f) == Sum(rest, total + nanos, f)
  {
    hide ItemNanos, AreItems, AddNanos;
    assert ([item] + rest)[1..] == rest && ([item] + rest)[0] == item;
    AddSmall(total, nanos);
  }

  lemma AddSmall(total: nat, nanos: nat)
    requires total + nanos <= LIMIT
    ensures AddNanos(total, nanos) == Some(total + nanos)
  {
  }

  lemma SmallItems(nanos: nat, f: Scaling)
    requires 0 < nanos < SECOND && Exact(f)
    ensures var items := ItemsOf(nanos); |items| == 1 && Starts(items[0]) && ItemNanos(items[0], f) == Some(nanos)
  {
    hide ItemNanos, UnitOf, AllUnit, Digits, FractionDigits, Ten, Exact;
    UnitNames();
    if nanos < MICRO {
      WholeNanos(nanos, NS, NANO, f);
    } else if nanos < MILLI {
      DecimalNanos(nanos, MICRO, MICRO_SIGN, 3, f);
    } else {
      DecimalNanos(nanos, MILLI, MS, 6, f);
    }
  }

  lemma SecondItems(nanos: nat, f: Scaling)
    requires SECOND <= nanos <= LIMIT && Exact(f)
    ensures var hours, minutes, rest := nanos / HOUR, nanos % HOUR / MINUTE, nanos % HOUR % MINUTE;
            && hours * HOUR + minutes * MINUTE + rest == nanos
            && Starts(WholeItem(hours, H)) && ItemNanos(WholeItem(hours, H), f) == Some(hours * HOUR)
            && Starts(WholeItem(minutes, M)) && ItemNanos(WholeItem(minutes, M), f) == Some(minutes * MINUTE)
            && Starts(DecimalItem(rest, SECOND, S, 9)) && ItemNanos(DecimalItem(rest, SECOND, S, 9), f) == Some(rest)
  {
    hide ItemNanos, UnitOf, AllUnit, Digits, FractionDigits, Ten, Exact;
    UnitNames();
    var hours, minutes, rest := nanos / HOUR, nanos % HOUR / MINUTE, nanos % HOUR % MINUTE;
    WholeNanos(hours, H, HOUR, f);
    WholeNanos(minutes, M, MINUTE, f);
    DecimalNanos(rest, SECOND, S, 9, f);
  }

  lemma SumOf(nanos: nat, f: Scaling)
    requires 0 < nanos <= LIMIT && Exact(f)
    ensures var items := ItemsOf(nanos);
            && AreItems(items) && |ItemsText(items)| > 1 && IsDigit(ItemsText(items)[0])
            && Sum(items, 0, f) == Some(nanos)
  {
    hide ItemNanos, AreItems, ItemsText, WholeItem, DecimalItem, Starts, Exact;
    var items := ItemsOf(nanos);
    assert AreItems([]) by { AllStart([]); }
    if nanos < SECOND {
      SmallItems(nanos, f);
      AllStart(items);
      assert items == [items[0]] + [];
      SumFirst(items[0], [], 0, nanos, f);
    } else {
      SecondItems(nanos, f);
      var hours, minutes, rest := nanos / HOUR, nanos % HOUR / MINUTE, nanos % HOUR % MINUTE;
      var h, m, s := WholeItem(hours, H), WholeItem(minutes, M), DecimalItem(rest, SECOND, S, 9);
      AllStart([s]);
      AllStart([m] + [s]);
      AllStart([h] + ([m] + [s]));
      assert [s] == [s] + [] && [h, m] + [s] == [h] + ([m] + [s]);
      SumFirst(s, [], hours * HOUR + minutes * MINUTE, rest, f);
      SumFirst(m, [s], hours * HOUR, minutes * MINUTE, f);
      SumFirst(h, [m] + [s], 0, hours * HOUR, f);
    }
  }

  /** Every 64-bit number of nanoseconds, the least one too, is read back from its text. */
  lemma RoundTrip(n: int, f: Scaling)
    requires MIN <= n < LIMIT && Exact(f)
    ensures Parse(Format(n), f) == Some(n)
  {
    hide Exact, Sum, ItemsText, Total, AreItems, ItemsOf;
    if n == 0 {
      ZeroText(f);
    } else {
      var items := ItemsOf(Magnitude(n));
      SumOf(Magnitude(n), f);
      TotalOf(items, 0, f);
      var text := ItemsText(items);
      assert n > 0 ==> Format(n) == text;
      assert n < 0 ==> Format(n)[1..] == text;
    }
  }

  lemma ZeroText(f: Scaling)
    ensures Parse([ZERO] + S, f) == Some(0)
  {
    hide ItemNanos, Total;
    var item := Item([ZERO], false, [], S);
    AllStart([item]);
    TotalOf([item], 0, f);
    assert ItemsText([item]) == [ZERO] + S;
    assert Digits(0) == [ZERO];
    WholeNanos(0, S, SECOND, f);
    assert [item] == [item] + [];
    SumFirst(item, [], 0, 0, f);
  }

  // ----- the writer and the reader -----

  method PushDecimalUnit(out: bytes, total: nat, unit: nat, name: bytes, width: nat) returns (r: bytes)
    requires unit > 0
    ensures r == out + ItemText(DecimalItem(total, unit, name, width), [])
  {
    hide Padded, Digits;
    var whole, fraction := Quotient(total, unit), Remainder(total, unit);
    r := out + Digits(whole);
    ghost var item := DecimalItem(total, unit, name, width);
    if fraction != 0 {
      var digits := DropZeros(Padded(fraction, width));
      r := r + [DOT];
      r := r + digits;
      r := r + name;
      assert r == out + (Digits(whole) + ([DOT] + (digits + (name + []))));
    } else {
      r := r + name;
      assert r == out + (Digits(whole) + ([] + ([] + (name + []))));
    }
  }

  lemma ItemSplit(item: Item, r: bytes)
    ensures ItemText(item, r) == ItemText(item, []) + r
  {
    var dot: bytes := if item.dot then [DOT] else [];
    assert item.whole + (dot + (item.fraction + (item.unit + r))) ==
           item.whole + (dot + (item.fraction + (item.unit + []))) + r;
  }

  method PushWhole(out: bytes, count: nat, name: bytes) returns (r: bytes)
    ensures r == out + ItemText(WholeItem(count, name), [])
  {
    hide Digits;
    r := out + Digits(count);
    r := r + name;
    assert r == out + (Digits(count) + ([] + ([] + (name + []))));
  }

  lemma ItemsSplit(items: seq<Item>)
    ensures |items| == 1 ==> ItemsText(items) == ItemText(items[0], [])
    ensures |items| > 0 ==> ItemsText(items) == ItemText(items[0], []) + ItemsText(items[1..])
  {
    hide ItemText;
    if items != [] {
      ItemSplit(items[0], ItemsText(items[1..]));
    }
  }

  method FormatNanos(nanos: int) returns (out: bytes)
    requires MIN <= nanos < LIMIT
    ensures out == Format(nanos)
  {
    hide ItemText, ItemsText, WholeItem, DecimalItem;
    if nanos == 0 { return [ZERO] + S; }
    var abs := Magnitude(nanos);
    out := if nanos < 0 then [MINUS] else [];
    ItemsSplit(ItemsOf(abs));
    if abs < SECOND {
      if abs < MICRO {
        out := PushWhole(out, abs, NS);
      } else if abs < MILLI {
        out := PushDecimalUnit(out, abs, MICRO, MICRO_SIGN, 3);
      } else {
        out := PushDecimalUnit(out, abs, MILLI, MS, 6);
      }
    } else {
      out := PushSeconds(out, abs);
    }
  }

  method PushSeconds(start: bytes, abs: nat) returns (out: bytes)
    requires abs >= SECOND
    ensures out == start + ItemsText(ItemsOf(abs))
  {
    hide ItemText, ItemsText, WholeItem, DecimalItem;
    out := start;
    var hours, minutes, rest := abs / HOUR, abs % HOUR / MINUTE, abs % HOUR % MINUTE;
    ghost var h, m, s := WholeItem(hours, H), WholeItem(minutes, M), DecimalItem(rest, SECOND, S, 9);
    ItemsSplit([s]);
    ItemsSplit([m] + [s]);
    ItemsSplit([h, m] + [s]);
    assert ([m] + [s])[1..] == [s] && ([h, m] + [s])[1..] == [m] + [s];
    if hours > 0 {
      out := PushWhole(out, hours, H);
      out := PushWhole(out, minutes, M);
    } else if minutes > 0 {
      out := PushWhole(out, minutes, M);
    }
    out := PushDecimalUnit(out, rest, SECOND, S, 9);
    ghost var a, b, c := ItemText(h, []), ItemText(m, []), ItemText(s, []);
    Regroup(start + a, b, c);
    Regroup(start, a, b + c);
    Regroup(start, b, c);
  }

  // ----- the reader's loops -----

  method ReadWhole(s: bytes) returns (ok: bool, whole: nat, end: nat)
    ensures end <= |s| && AllDigits(s[..end])
    ensures ok ==> end == DigitsLen(s) && whole == Value(s[..end]) <= LIMIT
    ensures !ok ==> Value(s[..DigitsLen(s)]) > LIMIT
  {
    hide DigitsLen, Value;
    whole, end := 0, 0;
    EmptyValue(s);
    while end < |s| && IsDigit(s[end])
      invariant 0 <= end <= |s| && AllDigits(s[..end]) && whole == Value(s[..end]) <= LIMIT
    {
      assert s[..end + 1] == s[..end] + [s[end]];
      ValueNext(s[..end + 1], end);
      assert s[..end + 1][..end] == s[..end] && s[..end + 1][..end + 1] == s[..end + 1];
      ghost var next := Value(s[..end + 1]);
      ValueGrows(s[..DigitsLen(s)], end + 1);
      assert s[..DigitsLen(s)][..end + 1] == s[..end + 1];
      if whole > LIMIT / 10 { return false, whole, end; }
      whole := whole * 10 + DigitValue(s[end]);
      if whole > LIMIT { return false, whole, end; }
      end := end + 1;
    }
    ok := true;
  }

  method ReadFraction(s: bytes) returns (value: nat, count: nat, end: nat)
    ensures end == DigitsLen(s) && (value, count) == Mantissa(s[..end], 0, 0, false)
  {
    hide DigitsLen, Mantissa;
    var frozen := false;
    value, count, end := 0, 0, 0;
    ghost var digits := s[..DigitsLen(s)];
    assert digits[0..] == digits;
    while end < |s| && IsDigit(s[end])
      invariant 0 <= end <= |s| && AllDigits(s[..end]) && end <= |digits|
      invariant Mantissa(digits, 0, 0, false) == Mantissa(digits[end..], value, count, frozen)
    {
      assert s[..end + 1] == s[..end] + [s[end]];
      assert digits[end..][0] == s[end] && digits[end..][1..] == digits[end + 1..];
      MantissaStep(digits[end..], value, count, frozen);
      if !frozen {
        var next := value * 10 + DigitValue(s[end]);
        if value > (LIMIT - 1) / 10 || next > LIMIT {
          frozen := true;
        } else {
          value, count := next, count + 1;
        }
      }
      end := end + 1;
    }
    MantissaEnd(digits[end..], value, count, frozen);
  }

  lemma MantissaStep(s: bytes, value: nat, count: nat, frozen: bool)
    requires AllDigits(s) && s != []
    ensures var next := value * 10 + DigitValue(s[0]);
            Mantissa(s, value, count, frozen) ==
            if frozen || value > (LIMIT - 1) / 10 || next > LIMIT then Mantissa(s[1..], value, count, true)
            else Mantissa(s[1..], next, count + 1, false)
  {
  }

  lemma MantissaEnd(s: bytes, value: nat, count: nat, frozen: bool)
    requires s == []
    ensures Mantissa(s, value, count, frozen) == (value, count)
  {
  }

  method ReadUnit(s: bytes) returns (end: nat)
    ensures end == NameLen(s)
  {
    end := 0;
    assert s[0..] == s;
    while end < |s| && s[end] != DOT && !IsDigit(s[end])
      invariant 0 <= end <= |s| && NameLen(s) == end + NameLen(s[end..])
    {
      assert s[end..][1..] == s[end + 1..];
      end := end + 1;
    }
  }

  /** Where the parts of an item end: its digits, the digits after its point, and its unit. */
  datatype Cuts = Cuts(w: nat, dot: bool, u: bytes, k: nat, n: nat)

  function CutItem(s: bytes): (c: Cuts)
    ensures c.w <= |s| && (c.dot ==> c.w < |s|) && c.u == (if c.dot then s[c.w..][1..] else s[c.w..]) && c.k <= |c.u|
            && c.n <= |c.u[c.k..]|
    ensures AllDigits(s[..c.w]) && AllDigits(c.u[..c.k])
  {
    var w := DigitsLen(s);
    var dot := s[w..] != [] && s[w..][0] == DOT;
    var u := if dot then s[w..][1..] else s[w..];
    var k := if dot then DigitsLen(u) else 0;
    Cuts(w, dot, u, k, NameLen(u[k..]))
  }

  lemma ItemParts(s: bytes)
    ensures var c := CutItem(s);
            && ReadItem(s).0 == Item(s[..c.w], c.dot, c.u[..c.k], c.u[c.k..][..c.n])
            && ReadItem(s).1 == s[c.w + (if c.dot then 1 else 0) + c.k + c.n..]
  {
    hide DigitsLen, NameLen;
    var c := CutItem(s);
    SuffixAt(s, c.w, c.dot, c.k, c.n);
  }

  /** One number and its unit. */
  method ReadNanos(s: bytes, f: Scaling) returns (nanos: Option<nat>, end: nat)
    requires s != []
    ensures nanos == ItemNanos(ReadItem(s).0, f)
    ensures nanos.Some? ==> 0 < end <= |s| && s[end..] == ReadItem(s).1
  {
    hide DigitsLen, NameLen, Mantissa, Value, UnitOf, Component, ReadItem;
    ItemParts(s);
    ghost var c := CutItem(s);
    nanos, end := None, 0;
    var ok, whole, w := ReadWhole(s);
    if !ok { return; }
    assert w == c.w;
    var dot := w < |s| && s[w] == DOT;
    var u := if dot then s[w..][1..] else s[w..];
    assert dot == c.dot && u == c.u;
    var value, count, k := ReadDecimals(u, dot);
    if w == 0 && k == 0 { return; }
    var n := ReadUnit(u[k..]);
    var unit := UnitOf(u[k..][..n]);
    if unit.None? { return; }
    nanos := Component(whole, value, count, unit.value, f);
    end := w + (if dot then 1 else 0) + k + n;
  }

  /** The digits after a point, if there is one. */
  method ReadDecimals(u: bytes, dot: bool) returns (value: nat, count: nat, k: nat)
    ensures k == (if dot then DigitsLen(u) else 0) <= |u| && AllDigits(u[..k])
            && (value, count) == Mantissa(u[..k], 0, 0, false)
  {
    hide DigitsLen, Mantissa;
    value, count, k := 0, 0, 0;
    if dot {
      value, count, k := ReadFraction(u);
    } else {
      NoMantissa();
      assert u[..0] == [];
    }
  }

  lemma SuffixAt(s: bytes, w: nat, dot: bool, k: nat, n: nat)
    requires w <= |s| && (dot ==> w < |s|)
    requires var u := if dot then s[w..][1..] else s[w..]; k <= |u| && n <= |u[k..]|
    ensures var u := if dot then s[w..][1..] else s[w..];
            u[k..][n..] == s[w + (if dot then 1 else 0) + k + n..]
  {
  }

  method ParseNanos(s: bytes, f: Scaling) returns (r: Option<int>)
    ensures r == Parse(s, f)
  {
    hide ItemNanos, ReadItem;
    var negative := s != [] && s[0] == MINUS;
    var start := if s != [] && (s[0] == MINUS || s[0] == PLUS) then 1 else 0;
    ghost var t := s[start..];
    assert s[0..] == s;
    if s[start..] == [ZERO] { return Some(0); }
    if start == |s| { return None; }
    var total: nat, position: nat := 0, start;
    while position < |s|
      invariant start <= position <= |s| && total <= LIMIT
      invariant Total(t, 0, f) == Total(s[position..], total, f)
    {
      var nanos, end := ReadNanos(s[position..], f);
      if nanos.None? { return None; }
      assert s[position..][end..] == s[position + end..];
      var next := AddNanos(total, nanos.value);
      if next.None? { return None; }
      total, position := next.value, position + end;
    }
    assert s[position..] == [];
    if negative { return Some(0 - total as int); }
    r := if total >= LIMIT then None else Some(total as int);
  }

  // ----- where the sum is not the value -----

  /** The value of every item, in order. */
  function Nanos(items: seq<Item>, f: Scaling): (r: seq<nat>)
    requires AreItems(items)
    ensures |r| == |items|
  {
    if items == [] then []
    else
      var nanos := ItemNanos(items[0], f);
      [if nanos.Some? then nanos.value else 0] + Nanos(items[1..], f)
  }

  function TrueSum(values: seq<nat>): nat {
    if values == [] then 0 else values[0] + TrueSum(values[1..])
  }

  ghost predicate AllValued(items: seq<Item>, f: Scaling)
    requires AreItems(items)
  {
    items == [] || (ItemNanos(items[0], f).Some? && AllValued(items[1..], f))
  }

  /** The sum of the first `k` values, on top of `total`, modulo 2^64. */
  function Partial(values: seq<nat>, total: nat, k: nat): nat
    requires k <= |values|
  {
    (total + TrueSum(values[..k])) % WRAP
  }

  predicate PartialsFit(values: seq<nat>, total: nat) {
    forall k: nat :: k <= |values| ==> Partial(values, total, k) <= LIMIT
  }

  /**
   The reader gives the sum modulo 2^64 if every item has a value and every partial sum modulo
   2^64 is within the limit, and nothing otherwise.
   */
  lemma {:induction false} SumMeaning(items: seq<Item>, total: nat, f: Scaling)
    requires AreItems(items) && total <= LIMIT
    ensures var values := Nanos(items, f);
            Sum(items, total, f) ==
            if AllValued(items, f) && PartialsFit(values, total) then Some(Partial(values, total, |values|)) else None
    decreases |items|
  {
    hide ItemNanos, ItemsText, PartialsFit, Partial, TrueSum;
    var values := Nanos(items, f);
    if items == [] {
      NoPartial(values, total);
      assert PartialsFit(values, total) by { OnePartial(values, total); }
    } else if ItemNanos(items[0], f).Some? {
      var rest := Nanos(items[1..], f);
      assert values[1..] == rest && values == [values[0]] + rest;
      PartialsStep(values[0], rest, total);
      PartialAt(values[0], rest, total, |rest|);
      var next := (total + values[0]) % WRAP;
      if next <= LIMIT {
        SumMeaning(items[1..], next, f);
      }
    }
  }

  lemma NoPartial(values: seq<nat>, total: nat)
    requires total <= LIMIT
    ensures Partial(values, total, 0) == total
  {
    assert values[..0] == [];
  }

  lemma OnePartial(values: seq<nat>, total: nat)
    requires values == [] && total <= LIMIT
    ensures PartialsFit(values, total)
  {
    hide Partial;
    NoPartial(values, total);
  }

  lemma PartialsStep(first: nat, rest: seq<nat>, total: nat)
    requires total <= LIMIT
    ensures var next := (total + first) % WRAP;
            PartialsFit([first] + rest, total) <==> next <= LIMIT && PartialsFit(rest, next)
  {
    hide Partial;
    var values, next := [first] + rest, (total + first) % WRAP;
    NoPartial(values, total);
    forall k: nat | k <= |rest| ensures Partial(values, total, k + 1) == Partial(rest, next, k) {
      PartialAt(first, rest, total, k);
    }
    if PartialsFit(values, total) {
      assert Partial(values, total, 0 + 1) <= LIMIT;
      FirstPartial(rest, next);
      forall k: nat | k <= |rest| ensures Partial(rest, next, k) <= LIMIT {
        assert Partial(values, total, k + 1) <= LIMIT;
      }
    }
    if next <= LIMIT && PartialsFit(rest, next) {
      forall k: nat | k <= |values| ensures Partial(values, total, k) <= LIMIT {
        if k > 0 {
          assert Partial(rest, next, k - 1) <= LIMIT;
        }
      }
    }
  }

  lemma FirstPartial(rest: seq<nat>, next: nat)
    requires next < WRAP
    ensures Partial(rest, next, 0) == next
  {
    assert rest[..0] == [];
  }

  lemma PartialAt(first: nat, rest: seq<nat>, total: nat, k: nat)
    requires k <= |rest|
    ensures Partial([first] + rest, total, k + 1) == Partial(rest, (total + first) % WRAP, k)
  {
    hide TrueSum;
    assert ([first] + rest)[..k + 1] == [first] + rest[..k];
    TrueSumFirst(first, rest[..k]);
    WrapTwice(total + first, TrueSum(rest[..k]));
  }

  lemma TrueSumFirst(first: nat, rest: seq<nat>)
    ensures TrueSum([first] + rest) == first + TrueSum(rest)
  {
    assert ([first] + rest)[1..] == rest;
  }

  lemma WrapTwice(a: nat, b: nat)
    ensures (a % WRAP + b) % WRAP == (a + b) % WRAP
  {
  }

  /** So the sum is the value exactly when every item has one and the sum is within the limit. */
  lemma SumIsValue(items: seq<Item>, f: Scaling)
    requires AreItems(items)
    ensures Sum(items, 0, f) == Some(TrueSum(Nanos(items, f))) <==>
            AllValued(items, f) && TrueSum(Nanos(items, f)) <= LIMIT
  {
    hide Sum, Nanos, TrueSum, Partial, PartialsFit, AllValued, AreItems;
    SumMeaning(items, 0, f);
    FitsExact(Nanos(items, f));
  }

  lemma FitsExact(values: seq<nat>)
    ensures PartialsFit(values, 0) && Partial(values, 0, |values|) == TrueSum(values) <==> TrueSum(values) <= LIMIT
  {
    hide TrueSum, Partial;
    if TrueSum(values) <= LIMIT {
      forall k: nat | k <= |values| ensures Partial(values, 0, k) <= LIMIT {
        SmallPartial(values, k);
      }
      SmallPartial(values, |values|);
    }
  }

  lemma SmallPartial(values: seq<nat>, k: nat)
    requires k <= |values| && TrueSum(values) <= LIMIT
    ensures Partial(values, 0, k) <= LIMIT && (k == |values| ==> Partial(values, 0, k) == TrueSum(values))
  {
    hide TrueSum;
    PrefixSum(values, k);
    assert k == |values| ==> values[..k] == values;
    SmallRemainder(TrueSum(values[..k]));
  }

  lemma SmallRemainder(n: nat)
    requires n <= LIMIT
    ensures n % WRAP == n
  {
  }

  lemma {:induction false} PrefixSum(values: seq<nat>, k: nat)
    requires k <= |values|
    ensures TrueSum(values[..k]) <= TrueSum(values)
    decreases k
  {
    if k > 0 {
      PrefixSum(values[1..], k - 1);
      assert values[..k][1..] == values[1..][..k - 1];
    }
  }

  /** Two items of the limit each wrap around to nothing. */
  lemma WrapsToZero(f: Scaling)
    ensures var item := WholeItem(LIMIT, NS);
            Parse(ItemsText([item, item]), f) == Some(0)
  {
    hide ItemNanos, Total, ItemsText, AreItems, Digits, Sum;
    var item := WholeItem(LIMIT, NS);
    UnitNames();
    WholeNanos(LIMIT, NS, NANO, f);
    assert Starts(item);
    AllStart([item]);
    AllStart([item, item]);
    TotalOf([item, item], 0, f);
    SumTwo(item, f);
  }

  lemma SumTwo(item: Item, f: Scaling)
    requires AreItems([item, item]) && AreItems([item]) && ItemNanos(item, f) == Some(LIMIT)
    ensures Sum([item, item], 0, f) == Some(0)
  {
    hide ItemNanos, AreItems;
    assert [item, item][1..] == [item] && [item][1..] == [];
    assert AreItems([]) by { AllStart([]); }
    assert Sum([item], LIMIT, f) == Some(0) by { assert AddNanos(LIMIT, LIMIT) == Some(0); }
    assert AddNanos(0, LIMIT) == Some(LIMIT);
  }
}
