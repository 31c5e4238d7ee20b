/** Releasing a value without recursion: a stack of containers being drained. */
module PolicyDiscard {
  import opened Wrappers
  import opened Stacks
  import opened Lists
  import opened PolicyValue

  datatype Step = At(index: nat) | Of(name: Name)

  /** A node of a value, as the steps from the root. */
  type Path = seq<Step>

  function Steps(v: Value): set<Step> {
    match v
    case Array(values) => set i | 0 <= i < |values| :: At(i)
    case Object(members) => set name | name in members :: Of(name)
    case _ => {}
  }

  function Sub(v: Value, s: Step): (r: Value)
    requires s in Steps(v)
    ensures r < v
  {
    match v
    case Array(values) => values[s.index]
    case Object(members) => members[s.name]
  }

  function Paths(v: Value): set<Path> {
    {[]} + set s, p | s in Steps(v) && p in Paths(Sub(v, s)) :: [s] + p
  }

  predicate IsContainer(v: Value) {
    v.Array? || v.Object?
  }

  function ValueAt(v: Value, p: Path): Value
    requires p in Paths(v)
    decreases |p|
  {
    if p == [] then v else PathTail(v, p); ValueAt(Sub(v, p[0]), p[1..])
  }

  lemma PathTail(v: Value, p: Path)
    requires p != []
    ensures p in Paths(v) <==> p[0] in Steps(v) && p[1..] in Paths(Sub(v, p[0]))
  {
    assert p == [p[0]] + p[1..];
    if p in Paths(v) {
      var s, q :| s in Steps(v) && q in Paths(Sub(v, s)) && p == [s] + q;
      assert p[1..] == q;
    }
  }

  lemma {:induction false} PathExtend(v: Value, q: Path, s: Step)
    requires q in Paths(v) && s in Steps(ValueAt(v, q))
    ensures q + [s] in Paths(v) && ValueAt(v, q + [s]) == Sub(ValueAt(v, q), s)
    decreases |q|
  {
    PathTail(v, q + [s]);
    if q == [] {
      assert q + [s] == [s] && [s][1..] == [];
    } else {
      PathTail(v, q);
      PathExtend(Sub(v, q[0]), q[1..], s);
      assert (q + [s])[1..] == q[1..] + [s];
    }
  }

  lemma {:induction false} PathPrefix(v: Value, q: Path, p: Path)
    requires p in Paths(v) && q < p
    ensures q in Paths(v) && p[|q|] in Steps(ValueAt(v, q))
    decreases |q|
  {
    PathTail(v, p);
    if q != [] {
      PathTail(v, q);
      PathPrefix(Sub(v, p[0]), q[1..], p[1..]);
    }
  }

  // ----- the draining stack -----

  /** A container and what its iterator has still to give. */
  datatype Drain = Drain(path: Path, container: Value, left: set<Step>)

  predicate Owes(d: Drain, p: Path) {
    d.path < p && p[|d.path|] in d.left
  }

  predicate Owed(parents: Stack<Drain>, p: Path) {
    parents.Push? && (Owes(parents.top, p) || Owed(parents.below, p))
  }

  /** The node just below the top container, which no longer owes it. */
  ghost predicate Under(parents: Stack<Drain>, q: Path) {
    if parents.Empty? then q == [] else |q| == |parents.top.path| + 1 && parents.top.path < q && !Owes(parents.top, q)
  }

  ghost predicate Chain(v: Value, parents: Stack<Drain>) {
    parents.Push? ==>
      && parents.top.path in Paths(v) && parents.top.container == ValueAt(v, parents.top.path)
      && IsContainer(parents.top.container) && parents.top.left <= Steps(parents.top.container)
      && Under(parents.below, parents.top.path) && Chain(v, parents.below)
  }

  lemma {:induction false} UnderHeight(v: Value, parents: Stack<Drain>, q: Path)
    requires Chain(v, parents) && Under(parents, q)
    ensures |q| == Height(parents)
    ensures forall p :: q <= p ==> !Owed(parents, p)
    decreases parents
  {
    if parents.Push? {
      UnderHeight(v, parents.below, parents.top.path);
    }
  }

  /** What has still to be released. */
  predicate Pending(parents: Stack<Drain>, current: Option<Path>, p: Path) {
    Owed(parents, p) || (current.Some? && current.value <= p)
  }

  ghost predicate Progress(v: Value, parents: Stack<Drain>, current: Option<Path>, released: set<Path>) {
    && Chain(v, parents) && (current.Some? ==> current.value in Paths(v) && Under(parents, current.value))
    && released <= Paths(v) && forall p :: p in Paths(v) ==> (p in released <==> !Pending(parents, current, p))
  }

  /** The containers stacked once the node `q` is released. */
  function Released(v: Value, parents: Stack<Drain>, q: Path): Stack<Drain>
    requires q in Paths(v)
  {
    var node := ValueAt(v, q);
    if IsContainer(node) then Push(Drain(q, node, Steps(node)), parents) else parents
  }

  lemma {:induction false} ReleaseStep(v: Value, parents: Stack<Drain>, q: Path, released: set<Path>)
    requires Progress(v, parents, Some(q), released)
    ensures q !in released && Progress(v, Released(v, parents, q), None, released + {q}) && Height(parents) == |q|
  {
    hide Paths, ValueAt, Steps;
    UnderHeight(v, parents, q);
    var after := Released(v, parents, q);
    forall p | p in Paths(v) ensures Pending(after, None, p) <==> Pending(parents, Some(q), p) && p != q {
      assert q <= p <==> q < p || p == q by { if q <= p && |q| == |p| { assert q == p; } }
      if q < p {
        PathPrefix(v, q, p);
        Leaf(ValueAt(v, q));
      }
      assert IsContainer(ValueAt(v, q)) ==> (Owed(after, p) <==> Owes(after.top, p) || Owed(parents, p));
    }
  }

  lemma Leaf(v: Value)
    ensures !IsContainer(v) ==> Steps(v) == {}
  {
  }

  lemma NextStep(v: Value, parents: Stack<Drain>, s: Step, released: set<Path>)
    requires Progress(v, parents, None, released) && parents.Push? && s in parents.top.left
    ensures var d := parents.top;
            Progress(v, Push(d.(left := d.left - {s}), parents.below), Some(d.path + [s]), released)
  {
    hide Paths, ValueAt, Steps;
    var d := parents.top;
    PathExtend(v, d.path, s);
    var after, q := Push(d.(left := d.left - {s}), parents.below), d.path + [s];
    forall p | p in Paths(v) ensures Pending(after, Some(q), p) <==> Pending(parents, None, p) {
      if d.path < p {
        assert p[|d.path|] == s <==> q <= p;
      }
    }
  }

  lemma PopStep(v: Value, parents: Stack<Drain>, released: set<Path>)
    requires Progress(v, parents, None, released) && parents.Push? && parents.top.left == {}
    ensures Progress(v, parents.below, None, released)
  {
    hide Paths, ValueAt;
    assert forall p :: Owed(parents, p) == Owed(parents.below, p);
  }

  ghost predicate Logged(v: Value, released: seq<Path>, seen: set<Path>, height: nat) {
    && Distinct(released) && (forall p :: p in released <==> p in seen)
    && (forall p :: p in seen ==> p in Paths(v) && (IsContainer(ValueAt(v, p)) ==> |p| < height))
    && (height > 0 ==> exists p :: p in Paths(v) && IsContainer(ValueAt(v, p)) && |p| + 1 == height)
  }

  lemma LogStep(v: Value, released: seq<Path>, seen: set<Path>, height: nat, q: Path)
    requires Logged(v, released, seen, height) && q in Paths(v) && q !in seen
    ensures Logged(v, released + [q], seen + {q},
                   if IsContainer(ValueAt(v, q)) && |q| + 1 > height then |q| + 1 else height)
  {
    hide Paths, ValueAt, IsContainer;
  }

  /**
   Every node is released exactly once. The greatest height of the stack, measured after every push, is exactly
   how deep containers nest.
   */
  method Discard(value: Value) returns (released: seq<Path>, height: nat)
    ensures Distinct(released) && forall p :: p in released <==> p in Paths(value)
    ensures forall p :: p in Paths(value) && IsContainer(ValueAt(value, p)) ==> |p| < height
    ensures height > 0 ==> exists p :: p in Paths(value) && IsContainer(ValueAt(value, p)) && |p| + 1 == height
  {
    hide Paths, ValueAt, Progress, Distinct, Logged, Steps, Released, Owed;
    released, height := [], 0;
    var parents: Stack<Drain>, current: Option<Path> := Empty, Some([]);
    ghost var seen: set<Path> := {};
    StartStep(value);
    while true
      invariant Progress(value, parents, current, seen)
      invariant Logged(value, released, seen, height) && Height(parents) <= height
      decreases |Paths(value) - seen|, 2 * Height(parents) + if current.Some? then 0 else 1
    {
      ghost var before := seen;
      if current.Some? {
        var path := current.value;
        ReleaseStep(value, parents, path, seen);
        CurrentPath(value, parents, path, seen);
        LogStep(value, released, seen, height, path);
        ReleasedHeight(value, parents, path);
        parents := Released(value, parents, path);
        released, seen := released + [path], seen + {path};
        height := if Height(parents) > height then Height(parents) else height;
        current := None;
        Shrinks(Paths(value), before, path);
      }
      if parents.Empty? {
        AllReleased(value, released, seen, height);
        return;
      }
      if parents.top.left != {} {
        var s :| s in parents.top.left;
        NextStep(value, parents, s, seen);
        current := Some(parents.top.path + [s]);
        parents := Push(parents.top.(left := parents.top.left - {s}), parents.below);
      } else {
        PopStep(value, parents, seen);
        parents := parents.below;
      }
    }
  }

  lemma ReleasedHeight(v: Value, parents: Stack<Drain>, q: Path)
    requires q in Paths(v)
    ensures Height(Released(v, parents, q)) == Height(parents) + if IsContainer(ValueAt(v, q)) then 1 else 0
  {
    hide Paths, ValueAt;
  }

  lemma StartStep(v: Value)
    ensures Progress(v, Empty, Some([]), {}) && Logged(v, [], {}, 0)
  {
  }

  lemma CurrentPath(v: Value, parents: Stack<Drain>, q: Path, released: set<Path>)
    requires Progress(v, parents, Some(q), released)
    ensures q in Paths(v)
  {
  }

  lemma Shrinks(all: set<Path>, seen: set<Path>, q: Path)
    requires q in all && q !in seen
    ensures |all - (seen + {q})| < |all - seen|
  {
    assert all - seen == (all - (seen + {q})) + {q};
  }

  lemma AllReleased(v: Value, released: seq<Path>, seen: set<Path>, height: nat)
    requires Progress(v, Empty, None, seen) && Logged(v, released, seen, height)
    ensures Distinct(released) && forall p :: p in released <==> p in Paths(v)
    ensures forall p :: p in Paths(v) && IsContainer(ValueAt(v, p)) ==> |p| < height
    ensures height > 0 ==> exists p :: p in Paths(v) && IsContainer(ValueAt(v, p)) && |p| + 1 == height
  {
    hide Paths, ValueAt;
    assert forall p :: p in Paths(v) ==> !Pending(Empty, None, p);
  }
}
