/**
 Group membership. Groups may contain groups, in cycles too; a search keeps the set of groups on
 its active path and does not enter one of them again.
 */
module Groups {
  import opened Wrappers

  type GroupMap = map<string, seq<string>>

  const GROUP: string := "group:"

  predicate IsRef(name: string) {
    GROUP <= name
  }

  function Canonical(group: string): string {
    if IsRef(group) then group else GROUP + group
  }

  /** The members of a group; a `group:` reference may name the short or the long key, the short one first. */
  function Members(groups: GroupMap, group: string): Option<seq<string>> {
    if IsRef(group) && group[|GROUP|..] in groups then Some(groups[group[|GROUP|..]])
    else if group in groups then Some(groups[group])
    else None
  }

  /** The references that have members. */
  function Defined(groups: GroupMap): set<string> {
    (set k | k in groups :: GROUP + k) + (set k | k in groups && IsRef(k) :: k)
  }

  lemma DefinedMembers(groups: GroupMap, group: string)
    requires Members(groups, group).Some?
    ensures Canonical(group) in Defined(groups)
  {
    if IsRef(group) {
      var short := group[|GROUP|..];
      assert group == GROUP + short;
    }
  }

  // ----- what a group contains -----

  /** Each step goes to a group that is a member of the group before it. */
  predicate IsWalk(groups: GroupMap, path: seq<string>) {
    forall i :: 0 <= i < |path| - 1 ==> IsStep(groups, path, i)
  }

  predicate IsStep(groups: GroupMap, path: seq<string>, i: nat)
    requires i + 1 < |path|
  {
    Leads(groups, path[i], path[i + 1]) && IsRef(path[i + 1])
  }

  predicate Leads(groups: GroupMap, group: string, member: string) {
    var members := Members(groups, group);
    members.Some? && member in members.value
  }

  predicate WalksTo(groups: GroupMap, path: seq<string>, leaf: string) {
    path != [] && IsWalk(groups, path) && Leads(groups, path[|path| - 1], leaf) && !IsRef(leaf)
  }

  /** No group twice, and none that is being visited. */
  predicate IsSimple(path: seq<string>, visiting: set<string>) {
    && (forall i :: 0 <= i < |path| ==> Canonical(path[i]) !in visiting)
    && (forall i, j :: 0 <= i < j < |path| ==> Canonical(path[i]) != Canonical(path[j]))
  }

  ghost predicate Contains(groups: GroupMap, group: string, leaf: string) {
    exists path :: WalksTo(groups, path, leaf) && path[0] == group
  }

  ghost predicate ContainsSimply(groups: GroupMap, group: string, visiting: set<string>, leaf: string) {
    exists path :: WalksTo(groups, path, leaf) && IsSimple(path, visiting) && path[0] == group
  }

  // ----- simple walks are enough -----

  /** Two references with one canonical form have the same members, once they have any. */
  lemma SameMembers(groups: GroupMap, a: string, b: string)
    requires Canonical(a) == Canonical(b) && Members(groups, a).Some? && IsRef(b)
    ensures Members(groups, b) == Members(groups, a)
  {
    if !IsRef(a) {
      assert b == GROUP + a && b[|GROUP|..] == a;
    }
  }

  /** Leaving out a cycle. */
  lemma Shortcut(groups: GroupMap, path: seq<string>, leaf: string, i: nat, j: nat)
    requires WalksTo(groups, path, leaf) && i < j < |path| && Canonical(path[i]) == Canonical(path[j])
    ensures WalksTo(groups, path[..i + 1] + path[j + 1..], leaf)
  {
    hide Members, Canonical;
    var cut := path[..i + 1] + path[j + 1..];
    assert IsStep(groups, path, i) && IsStep(groups, path, j - 1);
    SameMembers(groups, path[i], path[j]);
    forall k | 0 <= k < |cut| - 1 ensures IsStep(groups, cut, k) {
      assert IsStep(groups, path, if k < i then k else k - i + j);
    }
  }

  lemma {:induction false} Simplify(groups: GroupMap, path: seq<string>, leaf: string)
    requires WalksTo(groups, path, leaf)
    ensures ContainsSimply(groups, path[0], {}, leaf)
    decreases |path|
  {
    hide WalksTo, Canonical;
    if !IsSimple(path, {}) {
      var i, j :| 0 <= i < j < |path| && Canonical(path[i]) == Canonical(path[j]);
      Shortcut(groups, path, leaf, i, j);
      var cut := path[..i + 1] + path[j + 1..];
      Simplify(groups, cut, leaf);
      assert cut[0] == path[0];
    }
  }

  /** Exploring only simple walks loses no member. */
  lemma SimpleWalksSuffice(groups: GroupMap, group: string, leaf: string)
    ensures ContainsSimply(groups, group, {}, leaf) <==> Contains(groups, group, leaf)
  {
    hide IsWalk, IsSimple;
    if Contains(groups, group, leaf) {
      var path :| WalksTo(groups, path, leaf) && path[0] == group;
      Simplify(groups, path, leaf);
    }
  }

  // ----- one step of the search -----

  ghost predicate MemberContains(groups: GroupMap, member: string, visiting: set<string>, leaf: string) {
    if IsRef(member) then ContainsSimply(groups, member, visiting, leaf) else leaf == member
  }

  lemma ContainsStep(groups: GroupMap, group: string, visiting: set<string>, leaf: string)
    ensures ContainsSimply(groups, group, visiting, leaf) <==>
            && Canonical(group) !in visiting && Members(groups, group).Some?
            && exists member ::
                 && member in Members(groups, group).value
                 && MemberContains(groups, member, visiting + {Canonical(group)}, leaf)
  {
    hide Members;
    if ContainsSimply(groups, group, visiting, leaf) {
      var path :| WalksTo(groups, path, leaf) && IsSimple(path, visiting) && path[0] == group;
      FirstStep(groups, path, visiting, leaf);
    }
    if Canonical(group) !in visiting && Members(groups, group).Some? {
      var seen := visiting + {Canonical(group)};
      if member :| member in Members(groups, group).value && MemberContains(groups, member, seen, leaf) {
        AddStep(groups, group, member, visiting, leaf);
      }
    }
  }

  lemma FirstStep(groups: GroupMap, path: seq<string>, visiting: set<string>, leaf: string)
    requires WalksTo(groups, path, leaf) && IsSimple(path, visiting)
    ensures Canonical(path[0]) !in visiting && Members(groups, path[0]).Some?
    ensures exists member ::
            member in Members(groups, path[0]).value
            && MemberContains(groups, member, visiting + {Canonical(path[0])}, leaf)
  {
    hide Members, Canonical;
    if |path| == 1 {
      assert MemberContains(groups, leaf, visiting + {Canonical(path[0])}, leaf);
    } else {
      var tail := path[1..];
      assert IsStep(groups, path, 0);
      assert IsWalk(groups, tail) by {
        forall i | 0 <= i < |tail| - 1 ensures IsStep(groups, tail, i) {
          assert IsStep(groups, path, i + 1);
        }
      }
      assert IsSimple(tail, visiting + {Canonical(path[0])});
      assert WalksTo(groups, tail, leaf);
      assert MemberContains(groups, tail[0], visiting + {Canonical(path[0])}, leaf);
    }
  }

  lemma AddStep(groups: GroupMap, group: string, member: string, visiting: set<string>, leaf: string)
    requires Canonical(group) !in visiting && Leads(groups, group, member)
    requires MemberContains(groups, member, visiting + {Canonical(group)}, leaf)
    ensures ContainsSimply(groups, group, visiting, leaf)
  {
    hide Members, Canonical;
    if !IsRef(member) {
      assert WalksTo(groups, [group], leaf) && IsSimple([group], visiting);
    } else {
      var tail :| WalksTo(groups, tail, leaf) && IsSimple(tail, visiting + {Canonical(group)}) && tail[0] == member;
      var path := [group] + tail;
      forall i | 0 <= i < |path| - 1 ensures IsStep(groups, path, i) {
        if i > 0 {
          assert IsStep(groups, tail, i - 1);
        }
      }
      assert path[|path| - 1] == tail[|tail| - 1];
      assert WalksTo(groups, path, leaf);
      assert IsSimple(path, visiting);
    }
  }
}
