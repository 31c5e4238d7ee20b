/** The two group searches, over one set of groups on the active path. */
module GroupSearch {
  import opened Groups

  class Search {
    const groups: GroupMap
    var visiting: set<string>

    constructor (groups: GroupMap)
      ensures this.groups == groups && visiting == {}
    {
      this.groups, visiting := groups, {};
    }

    /** Whether some identity in the group matches; the active path is left as it was. */
    method Matches(group: string, matches: string -> bool) returns (found: bool)
      modifies this`visiting
      ensures visiting == old(visiting)
      ensures found <==> exists leaf :: matches(leaf) && ContainsSimply(groups, group, old(visiting), leaf)
      decreases Defined(groups) - visiting
    {
      hide Members, Canonical, Defined, ContainsSimply;
      ghost var before := visiting;
      var reference := Canonical(group);
      EntryStep(groups, group, visiting, matches);
      if reference in visiting { return false; }
      visiting := visiting + {reference};
      var members := Members(groups, group);
      if members.None? {
        visiting := visiting - {reference};
        return false;
      }
      DefinedMembers(groups, group);
      found := false;
      var i := 0;
      while i < |members.value|
        invariant 0 <= i <= |members.value| && visiting == before + {reference}
        invariant !found
        invariant forall k :: 0 <= k < i ==> !MemberMatches(groups, members.value[k], before + {reference}, matches)
      {
        var member := members.value[i];
        if IsRef(member) {
          found := Matches(member, matches);
        } else {
          found := matches(member);
        }
        assert found == MemberMatches(groups, member, before + {reference}, matches) by {
          MemberMatchesMeans(groups, member, before + {reference}, matches);
        }
        if found {
          break;
        }
        i := i + 1;
      }
      visiting := visiting - {reference};
    }

    /** The identities in the group; one in several subgroups is listed once for each walk to it. */
    method Expand(group: string) returns (out: seq<string>)
      modifies this`visiting
      ensures visiting == old(visiting)
      ensures forall leaf :: leaf in out <==> ContainsSimply(groups, group, old(visiting), leaf)
      decreases Defined(groups) - visiting
    {
      hide Members, Canonical, Defined, ContainsSimply;
      ghost var before := visiting;
      out := [];
      var reference := Canonical(group);
      forall leaf { ContainsStep(groups, group, visiting, leaf); }
      if reference in visiting { return; }
      visiting := visiting + {reference};
      var members := Members(groups, group);
      if members.None? {
        visiting := visiting - {reference};
        return;
      }
      DefinedMembers(groups, group);
      var i := 0;
      while i < |members.value|
        invariant 0 <= i <= |members.value| && visiting == before + {reference}
        invariant forall leaf :: leaf in out <==>
                    exists k :: 0 <= k < i && MemberContains(groups, members.value[k], before + {reference}, leaf)
      {
        var member := members.value[i];
        if IsRef(member) {
          var expanded := Expand(member);
          out := out + expanded;
        } else {
          out := out + [member];
        }
        i := i + 1;
      }
      visiting := visiting - {reference};
    }
  }

  ghost predicate MemberMatches(groups: GroupMap, member: string, visiting: set<string>, matches: string -> bool) {
    exists leaf :: matches(leaf) && MemberContains(groups, member, visiting, leaf)
  }

  lemma MemberMatchesMeans(groups: GroupMap, member: string, visiting: set<string>, matches: string -> bool)
    ensures MemberMatches(groups, member, visiting, matches) <==>
            if IsRef(member) then exists leaf :: matches(leaf) && ContainsSimply(groups, member, visiting, leaf)
              else matches(member)
  {
    hide ContainsSimply;
    if !IsRef(member) && matches(member) {
      assert MemberContains(groups, member, visiting, member);
    }
  }

  lemma EntryStep(groups: GroupMap, group: string, visiting: set<string>, matches: string -> bool)
    ensures (exists leaf :: matches(leaf) && ContainsSimply(groups, group, visiting, leaf)) <==>
            && Canonical(group) !in visiting && Members(groups, group).Some?
            && exists k :: 0 <= k < |Members(groups, group).value| &&
                 MemberMatches(groups, Members(groups, group).value[k], visiting + {Canonical(group)}, matches)
  {
    hide Members, Canonical, ContainsSimply;
    forall leaf { ContainsStep(groups, group, visiting, leaf); }
  }

  // ----- from the top -----

  /** A group matches exactly when some identity it contains, through any chain of groups, matches. */
  method GroupMatches(groups: GroupMap, group: string, matches: string -> bool) returns (found: bool)
    ensures found <==> exists leaf :: matches(leaf) && Contains(groups, group, leaf)
  {
    hide Contains, ContainsSimply;
    var search := new Search(groups);
    found := search.Matches(group, matches);
    forall leaf { SimpleWalksSuffice(groups, group, leaf); }
  }

  /** Expanding a group lists exactly the identities it contains. */
  method ExpandGroup(groups: GroupMap, group: string) returns (out: seq<string>)
    ensures forall leaf :: leaf in out <==> Contains(groups, group, leaf)
  {
    hide Contains, ContainsSimply;
    var search := new Search(groups);
    out := search.Expand(group);
    forall leaf { SimpleWalksSuffice(groups, group, leaf); }
  }
}
