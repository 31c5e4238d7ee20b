/**
 Tag owner chains. Each tag is the root of a walk along the owners that are tags, on a stack, that
 does not enter a tag already on its path; a tag that is not defined ends the check.
 */
module TagOwners {
  import opened Arithmetic
  import opened Lists
  import opened Stacks

  type OwnerMap = map<string, seq<string>>

  /** An owner that names a tag; one with an `@` is a user, however it starts. */
  predicate NamesTag(owner: string) {
    '@' !in owner && "tag:" <= owner
  }

  predicate Settled(owners: OwnerMap, owner: string) {
    NamesTag(owner) ==> owner in owners
  }

  predicate AllSettled(owners: OwnerMap, tag: string)
    requires tag in owners
  {
    forall i :: 0 <= i < |owners[tag]| ==> Settled(owners, owners[tag][i])
  }

  /** A tag and the number of its owners already looked at. */
  datatype Visit = Visit(tag: string, next: nat)

  /** Distinct defined tags, each with its first owners settled. */
  predicate Sound(owners: OwnerMap, stack: Stack<Visit>, visiting: set<string>, root: string) {
    match stack
    case Empty => visiting == {}
    case Push(visit, below) =>
      && visit.tag in owners && visit.tag in visiting && visit.next <= |owners[visit.tag]|
      && (forall i :: 0 <= i < visit.next ==> Settled(owners, owners[visit.tag][i]))
      && (below.Empty? ==> visit.tag == root)
      && Sound(owners, below, visiting - {visit.tag}, root)
  }

  lemma {:induction false} SoundSize(owners: OwnerMap, stack: Stack<Visit>, visiting: set<string>, root: string)
    requires Sound(owners, stack, visiting, root)
    ensures visiting <= owners.Keys && |visiting| == Height(stack) <= |owners|
    decreases stack
  {
    if stack.Push? {
      SoundSize(owners, stack.below, visiting - {stack.top.tag}, root);
    }
    SubsetSize(visiting, owners.Keys);
  }

  // ----- the walk ends -----

  /** No tag has `base` owners or more. */
  predicate Bounds(owners: OwnerMap, base: nat) {
    forall tag :: tag in owners ==> |owners[tag]| + 1 < base
  }

  lemma {:induction false} SomeBound(owners: OwnerMap) returns (base: nat)
    ensures Bounds(owners, base) && base > 0
    decreases |owners|
  {
    if owners == map[] {
      base := 1;
    } else {
      var tag :| tag in owners;
      var rest := owners - {tag};
      var b := SomeBound(rest);
      base := b + |owners[tag]| + 2;
      forall t | t in owners ensures |owners[t]| + 1 < base {
        assert t != tag ==> t in rest && rest[t] == owners[t];
      }
    }
  }

  /** A place of the counter. */
  function Place(base: nat, limit: nat, stack: Stack<Visit>): nat {
    Power(base, limit - (if Height(stack) <= limit then Height(stack) else limit))
  }

  /** The stack as a number: one digit a level, the owners left to look at, plus one. */
  function Weight(owners: OwnerMap, base: nat, limit: nat, stack: Stack<Visit>): nat {
    match stack
    case Empty => 0
    case Push(visit, below) => Digit(owners, visit) * Place(base, limit, stack) + Weight(owners, base, limit, below)
  }

  function Digit(owners: OwnerMap, visit: Visit): nat {
    if visit.tag in owners && visit.next <= |owners[visit.tag]| then |owners[visit.tag]| - visit.next + 1 else 0
  }

  lemma PopShrinks(owners: OwnerMap, base: nat, limit: nat, stack: Stack<Visit>)
    requires stack.Push? && base > 0 && stack.top.tag in owners && stack.top.next <= |owners[stack.top.tag]|
    ensures Weight(owners, base, limit, stack.below) < Weight(owners, base, limit, stack)
  {
    hide Power;
    Positive(Digit(owners, stack.top), Place(base, limit, stack));
  }

  lemma Positive(a: nat, b: nat)
    requires a > 0 && b > 0
    ensures a * b > 0
  {
  }

  lemma NextShrinks(owners: OwnerMap, base: nat, limit: nat, visit: Visit, below: Stack<Visit>)
    requires base > 0 && visit.tag in owners && visit.next < |owners[visit.tag]|
    ensures Weight(owners, base, limit, Push(visit.(next := visit.next + 1), below)) +
            Place(base, limit, Push(visit, below)) ==
            Weight(owners, base, limit, Push(visit, below))
    ensures Place(base, limit, Push(visit.(next := visit.next + 1), below)) ==
            Place(base, limit, Push(visit, below)) > 0
  {
    hide Power;
    var d, p := Digit(owners, visit), Place(base, limit, Push(visit, below));
    assert (d - 1) * p + p == d * p;
  }

  lemma PushFits(owners: OwnerMap, base: nat, limit: nat, tag: string, stack: Stack<Visit>)
    requires Bounds(owners, base) && tag in owners && Height(stack) < limit
    ensures Weight(owners, base, limit, Push(Visit(tag, 0), stack)) <
            Weight(owners, base, limit, stack) + Place(base, limit, stack)
  {
    var next := Push(Visit(tag, 0), stack);
    var p := Place(base, limit, next);
    assert Place(base, limit, stack) == base * p;
    Less(Digit(owners, next.top), base, p);
  }

  lemma Less(a: nat, b: nat, p: nat)
    requires a < b && p > 0
    ensures a * p < b * p
  {
  }

  // ----- the check -----

  /** Every owner that names a tag names a defined one, whatever cycles the tags form. */
  method ValidateTagOwnerChains(owners: OwnerMap) returns (ok: bool)
    ensures ok <==> forall tag :: tag in owners ==> AllSettled(owners, tag)
  {
    var roots := owners.Keys;
    while roots != {}
      invariant roots <= owners.Keys
      invariant forall tag :: tag in owners && tag !in roots ==> AllSettled(owners, tag)
    {
      var root :| root in roots;
      roots := roots - {root};
      ok := Walk(owners, root);
      if !ok { return; }
    }
    ok := true;
  }

  method Walk(owners: OwnerMap, root: string) returns (ok: bool)
    requires root in owners
    ensures ok ==> AllSettled(owners, root)
    ensures !ok ==> exists tag :: tag in owners && !AllSettled(owners, tag)
  {
    hide Weight, Place;
    var stack := Push(Visit(root, 0), Empty);
    var visiting := {root};
    ghost var base := SomeBound(owners);
    ghost var limit := |owners|;
    while stack.Push?
      invariant Sound(owners, stack, visiting, root)
      invariant stack.Empty? ==> AllSettled(owners, root)
      decreases Weight(owners, base, limit, stack)
    {
      var visit, below := stack.top, stack.below;
      SoundSize(owners, stack, visiting, root);
      if visit.next == |owners[visit.tag]| {
        PopShrinks(owners, base, limit, stack);
        stack, visiting := below, visiting - {visit.tag};
        continue;
      }
      var owner := owners[visit.tag][visit.next];
      NextShrinks(owners, base, limit, visit, below);
      if !NamesTag(owner) {
        stack := Push(visit.(next := visit.next + 1), below);
        continue;
      }
      if owner !in owners {
        assert !AllSettled(owners, visit.tag);
        return false;
      }
      stack := Push(visit.(next := visit.next + 1), below);
      if owner !in visiting {
        SoundSize(owners, Push(Visit(owner, 0), stack), visiting + {owner}, root);
        PushFits(owners, base, limit, owner, stack);
        stack, visiting := Push(Visit(owner, 0), stack), visiting + {owner};
      }
    }
    ok := true;
  }
}
