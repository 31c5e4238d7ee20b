/** Reading and writing durations as text: a sign, then numbers with units. */
module Durations {
  import opened Bytes
  import opened Wrappers
  import opened Decimals
  import opened Arithmetic

  const LIMIT: nat := 0x8000_0000_0000_0000
  const WRAP: nat := 0x1_0000_0000_0000_0000
  const NANO: nat := 1
  const MICRO: nat := 1_000
  const MILLI: nat := 1_000_000
  const SECOND: nat := 1_000_000_000
  const MINUTE: nat := 60_000_000_000
  const HOUR: nat := 3_600_000_000_000

  const NS: bytes := [0x6e, 0x73]
  const US: bytes := [0x75, 0x73]
  const MICRO_SIGN: bytes := [0xc2, 0xb5, 0x73]
  const GREEK_MU: bytes := [0xce, 0xbc, 0x73]
  const MS: bytes := [0x6d, 0x73]
  const S: bytes := [0x73]
  const M: bytes := [0x6d]
  const H: bytes := [0x68]

  function UnitOf(name: bytes): (r: Option<nat>)
    ensures r.Some? ==> 0 < r.value <= HOUR
  {
    if name == NS then Some(NANO)
    else if name == US || name == MICRO_SIGN || name == GREEK_MU then Some(MICRO)
    else if name == MS then Some(MILLI)
    else if name == S then Some(SECOND)
    else if name == M then Some(MINUTE)
    else if name == H then Some(HOUR)
    else None
  }

  /** The truncated floating-point product of a fraction's digits, a unit, and ten to minus their number. */
  type Scaling = (nat, nat, nat) -> nat

  /**
   On the units of durations, floating point is exact where the scale divides the unit and the
   product has at most 53 bits.
   */
  ghost predicate Exact(f: Scaling) {
    forall v: nat, unit: nat, k: nat ::
      unit <= HOUR && unit % Ten(k) == 0 && v * (unit / Ten(k)) < 0x20_0000_0000_0000 ==>
      f(v, unit, k) == v * (unit / Ten(k))
  }

  // ----- reading -----

  /** The digits of a fraction that count, and their number; once they would overflow, the rest are skipped. */
  function Mantissa(digits: bytes, value: nat, count: nat, frozen: bool): (nat, nat)
    requires AllDigits(digits)
  {
    if digits == [] || frozen then (value, count)
    else
      var next := value * 10 + DigitValue(digits[0]);
      if value > (LIMIT - 1) / 10 || next > LIMIT then (value, count) else Mantissa(digits[1..], next, count + 1, false)
  }

  function Component(whole: nat, fraction: nat, count: nat, unit: nat, f: Scaling): (r: Option<nat>)
    requires unit > 0
    ensures r.Some? ==> r.value <= LIMIT
  {
    if whole > LIMIT / unit then None
    else if fraction == 0 then ProductBound(whole, unit, LIMIT); Some(whole * unit)
    else
      var sum := (whole * unit + Saturate(f(fraction, unit, count))) % WRAP;
      if sum > LIMIT then None else Some(sum)
  }

  /** A floating-point number cast to 64 bits. */
  function Saturate(n: nat): nat {
    if n >= WRAP then WRAP - 1 else n
  }

  function AddNanos(total: nat, component: nat): Option<nat> {
    var sum := (total + component) % WRAP;
    if sum > LIMIT then None else Some(sum)
  }

  predicate InUnit(b: byte) {
    b != DOT && !IsDigit(b)
  }

  /** The number of bytes up to a digit or a dot. */
  function NameLen(s: bytes): (n: nat)
    ensures n <= |s| && (n < |s| ==> !InUnit(s[n]))
  {
    if s == [] || !InUnit(s[0]) then 0 else 1 + NameLen(s[1..])
  }

  /** A number, perhaps with a fraction, and its unit, at the start of a text. */
  datatype Item = Item(whole: bytes, dot: bool, fraction: bytes, unit: bytes)

  function ItemText(item: Item, r: bytes): bytes {
    item.whole + ((if item.dot then [DOT] else []) + (item.fraction + (item.unit + r)))
  }

  function ReadItem(s: bytes): (r: (Item, bytes))
    ensures AllDigits(r.0.whole) && AllDigits(r.0.fraction) && |r.0.whole| + |r.0.fraction| + |r.1| <= |s|
  {
    var w := DigitsLen(s);
    var t := s[w..];
    var dot := t != [] && t[0] == DOT;
    var u := if dot then t[1..] else t;
    var f := if dot then DigitsLen(u) else 0;
    var n := NameLen(u[f..]);
    (Item(s[..w], dot, u[..f], u[f..][..n]), u[f..][n..])
  }

  /** What an item adds, in nanoseconds. */
  function ItemNanos(item: Item, f: Scaling): (r: Option<nat>)
    requires AllDigits(item.whole) && AllDigits(item.fraction)
    ensures r.Some? ==> r.value <= LIMIT
  {
    if Value(item.whole) > LIMIT then None
    else if item.whole == [] && item.fraction == [] then None
    else
      var unit :- UnitOf(item.unit);
      var (value, count) := Mantissa(item.fraction, 0, 0, false);
      Component(Value(item.whole), value, count, unit, f)
  }

  function Total(s: bytes, total: nat, f: Scaling): Option<nat>
    decreases |s|
  {
    if s == [] then Some(total)
    else
      var (item, rest) := ReadItem(s);
      var nanos :- ItemNanos(item, f);
      var next :- AddNanos(total, nanos);
      Total(rest, next, f)
  }

  function Parse(s: bytes, f: Scaling): Option<int> {
    var negative := s != [] && s[0] == MINUS;
    var t := if s != [] && (s[0] == MINUS || s[0] == PLUS) then s[1..] else s;
    if t == [ZERO] then Some(0)
    else if t == [] then None
    else
      var total :- Total(t, 0, f);
      if negative then Some(0 - total as int) else if total >= LIMIT then None else Some(total as int)
  }

  // ----- reading what is written -----

  predicate AllUnit(s: bytes) {
    forall i :: 0 <= i < |s| ==> InUnit(s[i])
  }

  /** An item as the grammar of durations has it, before the next one or the end. */
  predicate IsItem(item: Item, r: bytes) {
    && AllDigits(item.whole) && AllDigits(item.fraction) && (item.fraction != [] ==> item.dot)
    && item.unit != [] && AllUnit(item.unit) && (r == [] || !InUnit(r[0]))
  }

  lemma {:induction false} NameLenOf(a: bytes, x: bytes)
    requires AllUnit(a) && (x == [] || !InUnit(x[0]))
    ensures NameLen(a + x) == |a| && (a + x)[..|a|] == a && (a + x)[|a|..] == x
  {
    if a == [] {
      assert a + x == x;
    } else {
      NameLenOf(a[1..], x);
      assert (a + x)[1..] == a[1..] + x;
    }
  }

  lemma ReadItemOf(item: Item, r: bytes)
    requires IsItem(item, r)
    ensures ReadItem(ItemText(item, r)) == (item, r)
  {
    hide DigitsLen, NameLen, AllDigits, AllUnit;
    var last := item.unit + r;
    var tail := item.fraction + last;
    var rest := (if item.dot then [DOT] else []) + tail;
    assert last[0] == item.unit[0] && InUnit(last[0]) by { FirstUnit(item.unit); }
    NameLenOf(item.unit, r);
    if item.dot {
      DigitsLenOf(item.fraction, last);
      assert rest == [DOT] + tail && rest[1..] == tail;
    } else {
      assert rest == tail == last && tail[..0] == [] && tail[0..] == tail;
    }
    DigitsLenOf(item.whole, rest);
  }

  lemma FirstUnit(s: bytes)
    requires s != [] && AllUnit(s)
    ensures InUnit(s[0])
  {
  }

  function ItemsText(items: seq<Item>): bytes {
    if items == [] then [] else ItemText(items[0], ItemsText(items[1..]))
  }

  /** Every item of the list is one of the grammar, with a number. */
  predicate AreItems(items: seq<Item>) {
    items == []
    || (IsItem(items[0], ItemsText(items[1..])) && (items[0].whole != [] || items[0].fraction != [])
        && AreItems(items[1..]))
  }

  function Sum(items: seq<Item>, total: nat, f: Scaling): Option<nat>
    requires AreItems(items)
  {
    if items == [] then Some(total)
    else
      var nanos :- ItemNanos(items[0], f);
      var next :- AddNanos(total, nanos);
      Sum(items[1..], next, f)
  }

  /** A written list of items is read item by item. */
  lemma {:induction false} TotalOf(items: seq<Item>, total: nat, f: Scaling)
    requires AreItems(items)
    ensures Total(ItemsText(items), total, f) == Sum(items, total, f)
    decreases |items|
  {
    hide ReadItem, ItemNanos, IsItem;
    if items != [] {
      ReadItemOf(items[0], ItemsText(items[1..]));
      var nanos := ItemNanos(items[0], f);
      if nanos.Some? {
        var next := AddNanos(total, nanos.value);
        if next.Some? {
          TotalOf(items[1..], next.value, f);
        }
      }
    }
  }
}
