/** The messages that are signed: a heading, and fields that each carry their length. */
module Messages {
  import opened Bytes
  import opened Decimals

  function Ascii(s: string): (r: bytes)
    ensures |r| == |s|
  {
    seq(|s|, i requires 0 <= i < |s| => ((s[i] as int) % 256) as byte)
  }

  datatype Capabilities = Capabilities(relay: bool, inference: bool, storage: bool, compute: bool, seed: bool)

  datatype Message =
    | Register(id: bytes, name: bytes, wgPubkey: bytes, endpoints: seq<bytes>, capabilities: Capabilities,
               timestamp: nat, nonce: bytes)
    | Heartbeat(verb: bytes, pathAndQuery: bytes, nodeId: bytes, timestamp: nat, nonce: bytes)
    | Transfer(from: bytes, to: bytes, amount: nat, description: bytes, timestamp: nat, nonce: bytes)

  function Heading(m: Message): bytes {
    match m
    case Register(_, _, _, _, _, _, _) => Ascii("headscale-control-register-v1\n")
    case Heartbeat(_, _, _, _, _) => Ascii("headscale-control-heartbeat-v1\n")
    case Transfer(_, _, _, _, _, _) => Ascii("headscale-control-transfer-v1\n")
  }

  function Flag(value: bool): bytes {
    if value then [ZERO + 1] else [ZERO]
  }

  function FieldsOf(m: Message): seq<bytes> {
    match m
    case Register(id, name, wgPubkey, endpoints, c, timestamp, nonce) =>
      [id, name, wgPubkey, Digits(|endpoints|)] + endpoints +
      [Flag(c.relay), Flag(c.inference), Flag(c.storage), Flag(c.compute), Flag(c.seed), Digits(timestamp), nonce]
    case Heartbeat(verb, pathAndQuery, nodeId, timestamp, nonce) =>
      [verb, pathAndQuery, nodeId, Digits(timestamp), nonce]
    case Transfer(from, to, amount, description, timestamp, nonce) =>
      [from, to, Digits(amount), description, Digits(timestamp), nonce]
  }

  function Field(value: bytes): (r: bytes)
    ensures r != []
  {
    Digits(|value|) + ([COLON] + (value + [LF]))
  }

  function Join(fields: seq<bytes>): bytes {
    if fields == [] then [] else Field(fields[0]) + Join(fields[1..])
  }

  function Canonical(m: Message): bytes {
    Heading(m) + Join(FieldsOf(m))
  }

  // ----- building a message -----

  method AppendField(out: bytes, value: bytes) returns (r: bytes)
    ensures r == out + Field(value)
  {
    r := out + Digits(|value|);
    r := r + [COLON];
    r := r + value;
    r := r + [LF];
    assert r == out + Field(value);
  }

  /** Append fields in order. */
  method AppendFields(out: bytes, fields: seq<bytes>) returns (r: bytes)
    ensures r == out + Join(fields)
  {
    hide Field;
    r := out;
    var i := 0;
    assert fields[0..] == fields;
    while i < |fields|
      invariant 0 <= i <= |fields| && r + Join(fields[i..]) == out + Join(fields)
    {
      assert fields[i..][1..] == fields[i + 1..];
      assert r + (Field(fields[i]) + Join(fields[i + 1..])) == r + Field(fields[i]) + Join(fields[i + 1..]);
      r := AppendField(r, fields[i]);
      i := i + 1;
    }
    assert r + [] == r;
  }

  lemma {:induction false} JoinSplit(a: seq<bytes>, b: seq<bytes>)
    ensures Join(a + b) == Join(a) + Join(b)
  {
    hide Field;
    if a == [] {
      assert a + b == b;
    } else {
      JoinSplit(a[1..], b);
      assert (a + b)[1..] == a[1..] + b;
    }
  }

  method BuildRegister(m: Message) returns (out: bytes)
    requires m.Register?
    ensures out == Canonical(m)
  {
    hide Join, Digits;
    var head := [m.id, m.name, m.wgPubkey, Digits(|m.endpoints|)];
    var c := m.capabilities;
    var tail :=
      [Flag(c.relay), Flag(c.inference), Flag(c.storage), Flag(c.compute), Flag(c.seed), Digits(m.timestamp), m.nonce];
    out := AppendFields(Heading(m), head);
    out := AppendFields(out, m.endpoints);
    out := AppendFields(out, tail);
    JoinSplit(head + m.endpoints, tail);
    JoinSplit(head, m.endpoints);
    assert out == Heading(m) + (Join(head) + Join(m.endpoints) + Join(tail));
  }

  method BuildHeartbeat(m: Message) returns (out: bytes)
    requires m.Heartbeat?
    ensures out == Canonical(m)
  {
    hide Join, Digits;
    out := AppendFields(Heading(m), [m.verb, m.pathAndQuery, m.nodeId, Digits(m.timestamp), m.nonce]);
  }

  method BuildTransfer(m: Message) returns (out: bytes)
    requires m.Transfer?
    ensures out == Canonical(m)
  {
    hide Join, Digits;
    out := AppendFields(Heading(m), [m.from, m.to, Digits(m.amount), m.description, Digits(m.timestamp), m.nonce]);
  }

  // ----- reading a message back -----

  /** A field is read off the front without looking at what follows it. */
  lemma FieldApart(a: bytes, b: bytes, x: bytes, y: bytes)
    requires Field(a) + x == Field(b) + y
    ensures a == b && x == y
  {
    hide Digits;
    var p, q := [COLON] + (a + [LF]) + x, [COLON] + (b + [LF]) + y;
    assert Field(a) + x == Digits(|a|) + p && Field(b) + y == Digits(|b|) + q;
    DigitsEnd(Digits(|a|), Digits(|b|), p, q);
    DigitsInjective(|a|, |b|);
    assert p[1..1 + |a|] == a && q[1..1 + |b|] == b;
    assert p[2 + |a|..] == x && q[2 + |b|..] == y;
  }

  lemma {:induction false} JoinInjective(a: seq<bytes>, b: seq<bytes>)
    requires Join(a) == Join(b)
    ensures a == b
  {
    hide Field;
    if a != [] && b != [] {
      FieldApart(a[0], b[0], Join(a[1..]), Join(b[1..]));
      JoinInjective(a[1..], b[1..]);
      assert a == [a[0]] + a[1..] && b == [b[0]] + b[1..];
    }
  }

  /** The headings tell the kinds apart at one byte. */
  lemma HeadingKind(m: Message)
    ensures |Heading(m)| > 18
    ensures Heading(m)[18] == (if m.Register? then 0x72 else if m.Heartbeat? then 0x68 else 0x74)
  {
  }

  lemma SameFields(a: Message, b: Message)
    requires FieldsOf(a) == FieldsOf(b) && Heading(a) == Heading(b)
    ensures a == b
  {
    hide Digits, Join, Heading;
    HeadingKind(a);
    HeadingKind(b);
    if a.Register? {
      var m, n := |a.endpoints|, |b.endpoints|;
      var fa, fb := FieldsOf(a), FieldsOf(b);
      assert |fa| == m + 11 && |fb| == n + 11;
      assert fa[..4] == [a.id, a.name, a.wgPubkey, Digits(m)] && fb[..4] == [b.id, b.name, b.wgPubkey, Digits(n)];
      assert fa[0] == a.id && fa[1] == a.name && fa[2] == a.wgPubkey && fb[0] == b.id && fb[1] == b.name
             && fb[2] == b.wgPubkey;
      assert fa[4..4 + m] == a.endpoints && fb[4..4 + n] == b.endpoints;
      RegisterTail(a);
      RegisterTail(b);
      DigitsInjective(a.timestamp, b.timestamp);
    } else if a.Heartbeat? {
      assert FieldsOf(a)[3] == FieldsOf(b)[3];
      DigitsInjective(a.timestamp, b.timestamp);
    } else {
      assert FieldsOf(a)[2] == FieldsOf(b)[2] && FieldsOf(a)[4] == FieldsOf(b)[4];
      DigitsInjective(a.amount, b.amount);
      DigitsInjective(a.timestamp, b.timestamp);
    }
  }

  lemma RegisterTail(m: Message)
    requires m.Register?
    ensures var f, i, c := FieldsOf(m), 4 + |m.endpoints|, m.capabilities;
            && |f| == i + 7
            && f[i] == Flag(c.relay) && f[i + 1] == Flag(c.inference) && f[i + 2] == Flag(c.storage)
               && f[i + 3] == Flag(c.compute)
            && f[i + 4] == Flag(c.seed) && f[i + 5] == Digits(m.timestamp) && f[i + 6] == m.nonce
  {
  }

  /** Equal signing texts are texts of one message: its kind and every field. */
  lemma CanonicalInjective(a: Message, b: Message)
    requires Canonical(a) == Canonical(b)
    ensures a == b
  {
    hide Join, FieldsOf, Heading;
    HeadingKind(a);
    HeadingKind(b);
    assert Canonical(a)[18] == Heading(a)[18] && Canonical(b)[18] == Heading(b)[18];
    assert Heading(a) == Heading(b) by { SameHeading(a, b); }
    assert Canonical(a)[|Heading(a)|..] == Join(FieldsOf(a)) && Canonical(b)[|Heading(b)|..] == Join(FieldsOf(b));
    JoinInjective(FieldsOf(a), FieldsOf(b));
    SameFields(a, b);
  }

  lemma SameHeading(a: Message, b: Message)
    requires a.Register? == b.Register? && a.Heartbeat? == b.Heartbeat?
    ensures Heading(a) == Heading(b)
  {
  }
}
