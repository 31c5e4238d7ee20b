/** Address prefixes, and when two of them overlap. */
module Networks {
  import opened Arithmetic

  /** A prefix of `length` leading bits of `address`; the bits after them do not matter. */
  datatype Net = Net(v6: bool, address: nat, length: nat)

  function Width(v6: bool): nat {
    if v6 then 128 else 32
  }

  predicate IsAddress(v6: bool, address: nat) {
    address < Power(2, Width(v6))
  }

  predicate IsNet(n: Net) {
    n.length <= Width(n.v6) && IsAddress(n.v6, n.address)
  }

  /** The bits of an address that a prefix of this length fixes. */
  function Head(v6: bool, address: nat, length: nat): nat
    requires length <= Width(v6)
  {
    Quotient(address, Power(2, Width(v6) - length))
  }

  predicate Contains(n: Net, address: nat)
    requires IsNet(n)
  {
    Head(n.v6, address, n.length) == Head(n.v6, n.address, n.length)
  }

  /** The lowest address of a prefix. */
  function Network(n: Net): nat
    requires IsNet(n)
  {
    Head(n.v6, n.address, n.length) * Power(2, Width(n.v6) - n.length)
  }

  predicate Covers(outer: Net, inner: Net)
    requires IsNet(outer) && IsNet(inner)
  {
    outer.v6 == inner.v6 && outer.length <= inner.length && Contains(outer, Network(inner))
  }

  predicate Overlap(a: Net, b: Net)
    requires IsNet(a) && IsNet(b)
  {
    Covers(a, b) || Covers(b, a)
  }

  predicate IsDefault(n: Net) {
    n.length == 0
  }

  // ----- the prefix test is exact -----

  lemma DivideTwice(x: nat, a: nat, b: nat)
    requires a > 0 && b > 0
    ensures a * b > 0 && x / (a * b) == (x / a) / b
  {
    var q, r := Quotient(x, a), Remainder(x, a);
    var q', r' := Quotient(q, b), Remainder(q, b);
    Distribute(a, b, q', r');
    Below(a, b, r', r);
    Swapped(q, a);
    Swapped(q', b);
    QuotientOf(x, a * b, q', a * r' + r);
  }

  lemma Swapped(a: nat, b: nat)
    ensures a * b == b * a
  {
  }

  lemma Distribute(a: nat, b: nat, q: nat, r: nat)
    ensures a * (b * q + r) == (a * b) * q + a * r
  {
    assert a * (b * q) == (a * b) * q;
  }

  lemma Below(a: nat, b: nat, r': nat, r: nat)
    requires r < a && r' < b
    ensures a * r' + r < a * b
  {
    assert a * r' + a == a * (r' + 1);
    Monotone(a, r' + 1, b);
  }

  /** A shorter head is determined by a longer one. */
  lemma ShorterHead(v6: bool, x: nat, y: nat, short: nat, long: nat)
    requires short <= long <= Width(v6) && Head(v6, x, long) == Head(v6, y, long)
    ensures Head(v6, x, short) == Head(v6, y, short)
  {
    hide Power, Width;
    var j, k := Width(v6) - long, long - short;
    PowerSum(2, j, k);
    assert Width(v6) - short == j + k;
    DivideTwice(x, Power(2, j), Power(2, k));
    DivideTwice(y, Power(2, j), Power(2, k));
  }

  lemma NetworkInside(n: Net)
    requires IsNet(n)
    ensures Contains(n, Network(n)) && IsAddress(n.v6, Network(n))
  {
    hide Power, Width;
    var m, q := Power(2, Width(n.v6) - n.length), Head(n.v6, n.address, n.length);
    assert q * m == m * q;
    QuotientOf(Network(n), m, q, 0);
  }

  lemma CoversShares(a: Net, b: Net)
    requires IsNet(a) && IsNet(b) && a.v6 == b.v6 && a.length <= b.length
    ensures Covers(a, b) ==> Contains(a, Network(b)) && Contains(b, Network(b))
    ensures IsAddress(b.v6, Network(b))
    ensures forall x: nat :: Contains(a, x) && Contains(b, x) ==> Covers(a, b)
  {
    hide Head, Width;
    NetworkInside(b);
    forall x: nat | Contains(a, x) && Contains(b, x) ensures Covers(a, b) {
      ShorterHead(a.v6, x, Network(b), a.length, b.length);
    }
  }

  /** Two prefixes overlap exactly when they are of one family and share an address. */
  lemma OverlapExact(a: Net, b: Net)
    requires IsNet(a) && IsNet(b)
    ensures Overlap(a, b) <==> a.v6 == b.v6 && exists x: nat :: IsAddress(a.v6, x) && Contains(a, x) && Contains(b, x)
  {
    hide Contains, Network;
    if a.v6 == b.v6 {
      if a.length <= b.length {
        CoversShares(a, b);
      }
      if b.length <= a.length {
        CoversShares(b, a);
      }
    }
  }
}
