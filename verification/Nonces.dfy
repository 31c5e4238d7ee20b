/**
 Replay protection for signed control requests: an identity and a nonce are remembered until the
 request's timestamp has left the signature window.
 */
module Nonces {
  import opened Bytes
  import opened Arithmetic
  import opened Lists

  const WINDOW: nat := 5 * 60 * 1000

  datatype Key = Key(did: bytes, nonce: bytes)

  datatype Outcome = Accepted | InvalidFormat | TimestampOutOfWindow | InvalidSignature | NonceReplay | NonceCapacity

  predicate IsGraphic(b: byte) {
    0x21 <= b <= 0x7e
  }

  predicate IsNonce(nonce: bytes) {
    nonce != [] && |nonce| <= 128 && forall i :: 0 <= i < |nonce| ==> IsGraphic(nonce[i])
  }

  function SaturatingAdd(a: nat, b: nat): nat {
    if a + b > MAX_U64 then MAX_U64 else a + b
  }

  function SaturatingSub(a: nat, b: nat): nat {
    if a < b then 0 else a - b
  }

  /** A timestamp at most one window away from a clock reading. */
  predicate InWindow(timestamp: nat, reading: nat) {
    timestamp <= SaturatingAdd(reading, WINDOW) && reading <= timestamp + WINDOW
  }

  /** The last clock reading at which a request with this timestamp is admitted. */
  function Expiry(timestamp: nat): nat {
    SaturatingAdd(timestamp, WINDOW)
  }

  // ----- one call, as a function of the remembered keys -----

  type Seen = map<Key, nat>

  /** What is left once every key that expired before `now` is dropped. */
  function Unexpired(seen: Seen, now: nat): Seen {
    map k | k in seen && seen[k] >= now :: seen[k]
  }

  function Verdict(seen: Seen, capacity: nat, key: Key, timestamp: nat, now: nat): Outcome {
    if !IsNonce(key.nonce) then InvalidFormat
    else
      var kept := Unexpired(seen, now);
      if key in kept then NonceReplay
      else if |kept| >= capacity then NonceCapacity
      else if Expiry(timestamp) < now then TimestampOutOfWindow
      else Accepted
  }

  function After(seen: Seen, capacity: nat, key: Key, timestamp: nat, now: nat): Seen {
    if !IsNonce(key.nonce) then seen
    else
      var kept := Unexpired(seen, now);
      if Verdict(seen, capacity, key, timestamp, now).Accepted? then kept[key := Expiry(timestamp)] else kept
  }

  // ----- the store -----

  class NonceStore {
    const capacity: nat
    var seen: Seen
    var expirations: map<nat, seq<Key>>

    constructor (capacity: nat)
      ensures Valid() && this.capacity == capacity && seen == map[]
    {
      this.capacity, seen, expirations := capacity, map[], map[];
    }

    /** Both indexes hold the same keys, each in one bucket, under its own expiry, and no more than fit. */
    ghost predicate Valid()
      reads this
    {
      Indexed(seen, expirations) && |seen| <= capacity
    }

    method CheckAndStore(key: Key, timestamp: nat, now: nat) returns (r: Outcome)
      requires Valid()
      modifies this`seen, this`expirations
      ensures Valid()
      ensures r == Verdict(old(seen), capacity, key, timestamp, now)
      ensures seen == After(old(seen), capacity, key, timestamp, now)
    {
      if !IsNonce(key.nonce) { return InvalidFormat; }
      Purge(now);
      if key in seen { return NonceReplay; }
      if |seen| >= capacity { return NonceCapacity; }
      var expiry := Expiry(timestamp);
      if expiry < now { return TimestampOutOfWindow; }
      IndexedInsert(seen, expirations, key, expiry);
      seen := seen[key := expiry];
      expirations := expirations[expiry := Bucket(expirations, expiry) + [key]];
      r := Accepted;
    }

    /**
     Verify a signed request: the timestamp against a first clock reading, then the signature,
     then the store against a second reading.
     */
    method VerifySignature(key: Key, timestamp: nat, authentic: bool, arrival: nat, now: nat) returns (r: Outcome)
      requires Valid()
      modifies this`seen, this`expirations
      ensures Valid()
      ensures r == if !IsNonce(key.nonce) then InvalidFormat
                   else if !InWindow(timestamp, arrival) then TimestampOutOfWindow
                   else if !authentic then InvalidSignature
                   else Verdict(old(seen), capacity, key, timestamp, now)
      ensures seen == if IsNonce(key.nonce) && InWindow(timestamp, arrival) && authentic
                      then After(old(seen), capacity, key, timestamp, now) else old(seen)
      ensures r.Accepted? ==>
              InWindow(timestamp, arrival) && authentic && key in seen && now <= seen[key] <= arrival + 2 * WINDOW
    {
      if !IsNonce(key.nonce) { return InvalidFormat; }
      if timestamp > SaturatingAdd(arrival, WINDOW) || SaturatingSub(arrival, timestamp) > WINDOW {
        return TimestampOutOfWindow;
      }
      if !authentic { return InvalidSignature; }
      r := CheckAndStore(key, timestamp, now);
    }

    /** Drop the buckets that expired before `now`, the earliest first. */
    method Purge(now: nat)
      requires Valid()
      modifies this`seen, this`expirations
      ensures Valid() && seen == Unexpired(old(seen), now)
    {
      ghost var before := seen;
      while expirations != map[]
        invariant Valid() && Unexpired(seen, now) == Unexpired(before, now)
        decreases expirations.Keys
      {
        var first := Earliest(expirations);
        if first >= now { break; }
        var keys := expirations[first];
        ghost var was := seen;
        PopBucket(seen, expirations, first);
        FewerKeys(seen, KeySet(keys));
        DropBucket(keys);
        expirations := expirations - {first};
        assert Unexpired(seen, now) == Unexpired(was, now);
      }
      assert forall k :: k in seen ==> Holds(expirations, seen[k], k);
      assert Unexpired(seen, now) == seen;
    }

    method DropBucket(keys: seq<Key>)
      modifies this`seen
      ensures seen == old(seen) - KeySet(keys)
    {
      var i := 0;
      while i < |keys|
        invariant 0 <= i <= |keys| && seen == old(seen) - KeySet(keys[..i])
      {
        assert KeySet(keys[..i + 1]) == KeySet(keys[..i]) + {keys[i]};
        seen := seen - {keys[i]};
        i := i + 1;
      }
      assert keys[..i] == keys;
    }
  }

  function KeySet(keys: seq<Key>): set<Key> {
    set k | k in keys
  }

  function Bucket(expirations: map<nat, seq<Key>>, expiry: nat): seq<Key> {
    if expiry in expirations then expirations[expiry] else []
  }

  predicate Holds(expirations: map<nat, seq<Key>>, expiry: nat, key: Key) {
    expiry in expirations && key in expirations[expiry]
  }

  ghost predicate Indexed(seen: Seen, expirations: map<nat, seq<Key>>) {
    && (forall k, e :: Holds(expirations, e, k) <==> k in seen && seen[k] == e)
    && (forall e :: e in expirations ==> expirations[e] != [] && Distinct(expirations[e]))
  }

  lemma IndexedInsert(seen: Seen, expirations: map<nat, seq<Key>>, key: Key, expiry: nat)
    requires Indexed(seen, expirations) && key !in seen
    ensures Indexed(seen[key := expiry], expirations[expiry := Bucket(expirations, expiry) + [key]])
  {
    var next, after := expirations[expiry := Bucket(expirations, expiry) + [key]], seen[key := expiry];
    assert !Holds(expirations, expiry, key);
    forall k, e ensures Holds(next, e, k) <==> k in after && after[k] == e {
      assert Holds(next, e, k) <==> Holds(expirations, e, k) || (e == expiry && k == key);
    }
  }

  lemma PopBucket(seen: Seen, expirations: map<nat, seq<Key>>, first: nat)
    requires Indexed(seen, expirations) && first in expirations
    ensures Indexed(seen - KeySet(expirations[first]), expirations - {first})
    ensures forall k :: k in expirations[first] <==> k in seen && seen[k] == first
  {
    var next, after := expirations - {first}, seen - KeySet(expirations[first]);
    assert forall k :: k in expirations[first] <==> Holds(expirations, first, k);
    forall k, e ensures Holds(next, e, k) <==> k in after && after[k] == e {
      assert Holds(next, e, k) <==> Holds(expirations, e, k) && e != first;
    }
  }

  lemma FewerKeys(seen: Seen, keys: set<Key>)
    ensures |seen - keys| <= |seen|
  {
    SubsetSize((seen - keys).Keys, seen.Keys);
  }

  method Earliest(expirations: map<nat, seq<Key>>) returns (first: nat)
    requires expirations != map[]
    ensures first in expirations && forall e :: e in expirations ==> first <= e
  {
    var left := expirations.Keys;
    first :| first in left;
    while left != {}
      invariant left <= expirations.Keys && first in expirations
      invariant forall e :: e in expirations && e !in left ==> first <= e
    {
      var e :| e in left;
      if e < first { first := e; }
      left := left - {e};
    }
  }
}
