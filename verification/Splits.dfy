/** Splitting a text at every occurrence of a byte. */
module Splits {
  import opened Bytes

  function IndexOf(s: bytes, b: byte): (n: nat)
    ensures n <= |s| && (forall i :: 0 <= i < n ==> s[i] != b) && (n < |s| ==> s[n] == b)
  {
    if s == [] || s[0] == b then 0 else 1 + IndexOf(s[1..], b)
  }

  function Split(s: bytes, b: byte): (r: seq<bytes>)
    ensures r != []
    decreases |s|
  {
    var at := IndexOf(s, b);
    if at == |s| then [s] else [s[..at]] + Split(s[at + 1..], b)
  }

  function Join(parts: seq<bytes>, b: byte): bytes {
    if parts == [] then [] else if |parts| == 1 then parts[0] else parts[0] + ([b] + Join(parts[1..], b))
  }

  lemma IndexOfFirst(a: bytes, b: byte, r: bytes)
    requires b !in a
    ensures IndexOf(a + ([b] + r), b) == |a| && (a + ([b] + r))[..|a|] == a && (a + ([b] + r))[|a| + 1..] == r
  {
    hide IndexOf;
    var s := a + ([b] + r);
    var n := IndexOf(s, b);
    assert s[|a|] == b;
    assert forall i :: 0 <= i < |a| ==> s[i] == a[i];
  }

  lemma IndexOfNone(a: bytes, b: byte)
    requires b !in a
    ensures IndexOf(a, b) == |a|
  {
  }

  /** Joined parts that do not contain the byte are split apart again. */
  lemma {:induction false} SplitJoined(parts: seq<bytes>, b: byte)
    requires parts != [] && forall i :: 0 <= i < |parts| ==> b !in parts[i]
    ensures Split(Join(parts, b), b) == parts
  {
    hide IndexOf;
    if |parts| == 1 {
      IndexOfNone(parts[0], b);
    } else {
      IndexOfFirst(parts[0], b, Join(parts[1..], b));
      SplitJoined(parts[1..], b);
    }
  }

  /** The parts, joined again, are the text, and none contains the byte. */
  lemma {:induction false} JoinSplit(s: bytes, b: byte)
    ensures Join(Split(s, b), b) == s
    ensures forall i :: 0 <= i < |Split(s, b)| ==> b !in Split(s, b)[i]
    decreases |s|
  {
    hide IndexOf;
    var at := IndexOf(s, b);
    if at < |s| {
      JoinSplit(s[at + 1..], b);
      assert s == s[..at] + ([b] + s[at + 1..]);
    }
  }
}
