/** What holds over whole runs of the replay store, for any clock readings. */
module NonceRuns {
  import opened Nonces

  datatype Call = Call(key: Key, timestamp: nat, now: nat)

  /** The remembered keys after a run from an empty store. */
  function State(capacity: nat, calls: seq<Call>): Seen {
    if calls == [] then map[]
    else
      var last := calls[|calls| - 1];
      After(State(capacity, calls[..|calls| - 1]), capacity, last.key, last.timestamp, last.now)
  }

  function Result(capacity: nat, calls: seq<Call>, i: nat): Outcome
    requires i < |calls|
  {
    Verdict(State(capacity, calls[..i]), capacity, calls[i].key, calls[i].timestamp, calls[i].now)
  }

  /** Call `i` was accepted with this key and expiry. */
  predicate Admits(capacity: nat, calls: seq<Call>, i: nat, key: Key, expiry: nat)
    requires i < |calls|
  {
    Result(capacity, calls, i).Accepted? && calls[i].key == key && Expiry(calls[i].timestamp) == expiry
  }

  /** From `from` up to `to`, no call that looked at the clock read it past `expiry`. */
  predicate NotPast(calls: seq<Call>, from: nat, to: nat, expiry: nat)
    requires from <= to <= |calls|
  {
    forall m :: from <= m < to ==> IsNonce(calls[m].key.nonce) ==> calls[m].now <= expiry
  }

  lemma StateNext(capacity: nat, calls: seq<Call>, n: nat)
    requires n < |calls|
    ensures State(capacity, calls[..n + 1]) ==
            After(State(capacity, calls[..n]), capacity, calls[n].key, calls[n].timestamp, calls[n].now)
  {
    assert calls[..n + 1][..n] == calls[..n];
  }

  /** An admitted key is remembered until a clock reading passes its expiry. */
  lemma {:induction false} Remembered(capacity: nat, calls: seq<Call>, i: nat, n: nat)
    requires i < n <= |calls| && Result(capacity, calls, i).Accepted?
    requires NotPast(calls, i + 1, n, Expiry(calls[i].timestamp))
    ensures var seen := State(capacity, calls[..n]);
            calls[i].key in seen && seen[calls[i].key] == Expiry(calls[i].timestamp)
    decreases n
  {
    hide State, IsNonce;
    StateNext(capacity, calls, n - 1);
    if n - 1 > i {
      Remembered(capacity, calls, i, n - 1);
    }
  }

  lemma StartsEmpty(capacity: nat)
    ensures State(capacity, []) == map[]
  {
  }

  lemma OneCall(seen: Seen, capacity: nat, call: Call, key: Key)
    requires key in After(seen, capacity, call.key, call.timestamp, call.now)
    ensures var expiry := After(seen, capacity, call.key, call.timestamp, call.now)[key];
            if Verdict(seen, capacity, call.key, call.timestamp, call.now).Accepted? && call.key == key then
              expiry == Expiry(call.timestamp)
            else key in seen && seen[key] == expiry && (IsNonce(call.key.nonce) ==> call.now <= expiry)
  {
    hide IsNonce;
  }

  /** Whatever is remembered was admitted, and no clock reading since has passed its expiry. */
  lemma {:induction false} RememberedOnly(capacity: nat, calls: seq<Call>, n: nat, key: Key)
    requires n <= |calls| && key in State(capacity, calls[..n])
    ensures exists i: nat :: i < n && Admits(capacity, calls, i, key, State(capacity, calls[..n])[key]) &&
                        NotPast(calls, i + 1, n, State(capacity, calls[..n])[key])
    decreases n
  {
    hide IsNonce, State, After, Verdict;
    if n == 0 {
      assert calls[..0] == [];
      StartsEmpty(capacity);
    } else {
      StateNext(capacity, calls, n - 1);
      OneCall(State(capacity, calls[..n - 1]), capacity, calls[n - 1], key);
      var before, expiry := State(capacity, calls[..n - 1]), State(capacity, calls[..n])[key];
      if Result(capacity, calls, n - 1).Accepted? && calls[n - 1].key == key {
        assert Admits(capacity, calls, n - 1, key, expiry) && NotPast(calls, n - 1 + 1, n, expiry);
      } else {
        RememberedOnly(capacity, calls, n - 1, key);
        var i: nat :| i < n - 1 && Admits(capacity, calls, i, key, before[key])
          && NotPast(calls, i + 1, n - 1, before[key]);
        assert NotPast(calls, i + 1, n, expiry);
      }
    }
  }

  /** The remembered keys, exactly. */
  lemma StateExact(capacity: nat, calls: seq<Call>, key: Key, expiry: nat)
    ensures key in State(capacity, calls) && State(capacity, calls)[key] == expiry <==>
            exists i: nat ::
            i < |calls| && Admits(capacity, calls, i, key, expiry) && NotPast(calls, i + 1, |calls|, expiry)
  {
    hide State;
    var n := |calls|;
    assert calls[..n] == calls;
    if key in State(capacity, calls) {
      RememberedOnly(capacity, calls, n, key);
    }
    if i: nat :| i < n && Admits(capacity, calls, i, key, expiry) && NotPast(calls, i + 1, n, expiry) {
      Remembered(capacity, calls, i, n);
    }
  }

  /** A key admitted once is refused as a replay, with whatever timestamp, until a reading passes its expiry. */
  lemma ReplayRefused(capacity: nat, calls: seq<Call>, i: nat, j: nat)
    requires i < j < |calls| && Result(capacity, calls, i).Accepted? && calls[i].key == calls[j].key
    requires NotPast(calls, i + 1, j + 1, Expiry(calls[i].timestamp))
    ensures Result(capacity, calls, j) == NonceReplay
  {
    hide State;
    assert IsNonce(calls[j].key.nonce);
    Remembered(capacity, calls, i, j);
  }

  /** Call `i` admitted the key of call `j`, and no reading after it, up to that of `j`, has passed its expiry. */
  predicate Bars(capacity: nat, calls: seq<Call>, i: nat, j: nat)
    requires i < j < |calls|
  {
    && Result(capacity, calls, i).Accepted? && calls[i].key == calls[j].key
    && NotPast(calls, i + 1, j + 1, Expiry(calls[i].timestamp))
  }

  /**
   A call is refused as a replay exactly when its key was admitted and no reading since, its own
   included, has passed the expiry.
   */
  lemma ReplayExact(capacity: nat, calls: seq<Call>, j: nat)
    requires j < |calls|
    ensures Result(capacity, calls, j) == NonceReplay <==>
            && IsNonce(calls[j].key.nonce)
            && exists i: nat :: i < j && Bars(capacity, calls, i, j)
  {
    hide State, IsNonce;
    var key := calls[j].key;
    if Result(capacity, calls, j) == NonceReplay {
      var expiry := State(capacity, calls[..j])[key];
      RememberedOnly(capacity, calls, j, key);
      var i: nat :| i < j && Admits(capacity, calls, i, key, expiry) && NotPast(calls, i + 1, j, expiry);
      assert Bars(capacity, calls, i, j);
    }
    if i: nat :| i < j && Bars(capacity, calls, i, j) {
      ReplayRefused(capacity, calls, i, j);
    }
  }

  /** Admitting one key twice takes a call in between, or the second one, that reads the clock past the first expiry. */
  lemma AdmittedTwice(capacity: nat, calls: seq<Call>, i: nat, j: nat)
    requires i < j < |calls| && calls[i].key == calls[j].key
    requires Result(capacity, calls, i).Accepted? && Result(capacity, calls, j).Accepted?
    ensures exists m :: i < m <= j && IsNonce(calls[m].key.nonce) && calls[m].now > Expiry(calls[i].timestamp)
  {
    hide State, IsNonce;
    if NotPast(calls, i + 1, j + 1, Expiry(calls[i].timestamp)) {
      ReplayRefused(capacity, calls, i, j);
    }
  }

  /** A call in between read the clock past this expiry. */
  predicate Passed(calls: seq<Call>, i: nat, j: nat, expiry: nat)
    requires j <= |calls|
  {
    exists m :: i < m < j && IsNonce(calls[m].key.nonce) && calls[m].now > expiry
  }

  /**
   The same request a second time, not admitted in between: it is accepted exactly when a call in between read the
   clock past its expiry, the clock now reads no later than that expiry, and there is room.
   */
  lemma RepeatExact(capacity: nat, calls: seq<Call>, i: nat, j: nat)
    requires i < j < |calls| && Result(capacity, calls, i).Accepted?
    requires calls[i].key == calls[j].key && calls[i].timestamp == calls[j].timestamp
    requires forall m :: i < m < j ==> !(calls[m].key == calls[i].key && Result(capacity, calls, m).Accepted?)
    ensures var expiry := Expiry(calls[i].timestamp);
            Result(capacity, calls, j).Accepted? <==>
            && calls[j].now <= expiry && Passed(calls, i, j, expiry)
            && |Unexpired(State(capacity, calls[..j]), calls[j].now)| < capacity
  {
    hide State, IsNonce;
    var key, expiry := calls[i].key, Expiry(calls[i].timestamp);
    assert IsNonce(calls[j].key.nonce);
    if !Passed(calls, i, j, expiry) {
      assert NotPast(calls, i + 1, j, expiry);
      Remembered(capacity, calls, i, j);
    } else if key in State(capacity, calls[..j]) {
      Forgotten(capacity, calls, i, j);
    }
  }

  /** Once a reading has passed its expiry, a key is gone until it is admitted again. */
  lemma Forgotten(capacity: nat, calls: seq<Call>, i: nat, j: nat)
    requires i < j < |calls| && Result(capacity, calls, i).Accepted?
    requires forall m :: i < m < j ==> !(calls[m].key == calls[i].key && Result(capacity, calls, m).Accepted?)
    requires Passed(calls, i, j, Expiry(calls[i].timestamp))
    ensures calls[i].key !in State(capacity, calls[..j])
  {
    hide State, IsNonce;
    var key, seen := calls[i].key, State(capacity, calls[..j]);
    if key in seen {
      RememberedOnly(capacity, calls, j, key);
      var k: nat :| k < j && Admits(capacity, calls, k, key, seen[key]) && NotPast(calls, k + 1, j, seen[key]);
      if k < i {
        ReplayRefused(capacity, calls, k, i);
      }
    }
  }

  predicate ClockNeverBack(calls: seq<Call>) {
    forall i, j :: 0 <= i < j < |calls| ==> calls[i].now <= calls[j].now
  }

  /** While the clock does not go back, no identity, nonce and timestamp are accepted twice. */
  lemma NeverTwice(capacity: nat, calls: seq<Call>, i: nat, j: nat)
    requires ClockNeverBack(calls) && i < j < |calls|
    requires calls[i].key == calls[j].key && calls[i].timestamp == calls[j].timestamp
    ensures !(Result(capacity, calls, i).Accepted? && Result(capacity, calls, j).Accepted?)
  {
    hide State;
    if Result(capacity, calls, i).Accepted? && Result(capacity, calls, j).Accepted? {
      AdmittedTwice(capacity, calls, i, j);
    }
  }

  /** A capacity refusal: the store is full of admitted keys that have not expired. */
  lemma CapacityRefusal(capacity: nat, calls: seq<Call>, j: nat)
    requires j < |calls| && Result(capacity, calls, j) == NonceCapacity
    ensures var kept := Unexpired(State(capacity, calls[..j]), calls[j].now);
            && |kept| >= capacity
            && forall key :: key in kept ==>
                 kept[key] >= calls[j].now && exists i: nat :: i < j && Admits(capacity, calls, i, key, kept[key])
  {
    hide State;
    var seen := State(capacity, calls[..j]);
    forall key | key in seen ensures exists i: nat :: i < j && Admits(capacity, calls, i, key, seen[key]) {
      RememberedOnly(capacity, calls, j, key);
    }
  }

  // ----- a clock that goes back -----

  const FIRST: Key := Key([], [0x61])
  const OTHER: Key := Key([], [0x62])

  /** A clock that goes back past an expiry it had reached lets the same request in again. */
  lemma ClockBack()
    ensures var calls := [Call(FIRST, 0, 0), Call(OTHER, WINDOW + 1, WINDOW + 1), Call(FIRST, 0, 0)];
            Result(2, calls, 0).Accepted? && Result(2, calls, 2).Accepted? && !ClockNeverBack(calls)
  {
    hide State;
    var calls := [Call(FIRST, 0, 0), Call(OTHER, WINDOW + 1, WINDOW + 1), Call(FIRST, 0, 0)];
    assert calls[..0] == [];
    StartsEmpty(2);
    StateNext(2, calls, 0);
    StateNext(2, calls, 1);
    FirstCall();
    SecondCall();
    ThirdCall();
    assert calls[0].now < calls[1].now && calls[1].now > calls[2].now;
  }

  lemma FirstCall()
    ensures Verdict(map[], 2, FIRST, 0, 0).Accepted? && After(map[], 2, FIRST, 0, 0) == map[FIRST := WINDOW]
  {
    assert IsNonce(FIRST.nonce) && Unexpired(map[], 0) == map[];
  }

  lemma SecondCall()
    ensures After(map[FIRST := WINDOW], 2, OTHER, WINDOW + 1, WINDOW + 1) == map[OTHER := 2 * WINDOW + 1]
  {
    assert IsNonce(OTHER.nonce) && Unexpired(map[FIRST := WINDOW], WINDOW + 1) == map[];
  }

  lemma ThirdCall()
    ensures Verdict(map[OTHER := 2 * WINDOW + 1], 2, FIRST, 0, 0).Accepted?
  {
    var seen: Seen := map[OTHER := 2 * WINDOW + 1];
    assert IsNonce(FIRST.nonce) && Unexpired(seen, 0) == seen;
    assert FIRST.nonce[0] != OTHER.nonce[0];
  }
}
