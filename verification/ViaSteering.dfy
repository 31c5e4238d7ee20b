/** The steering loop, and what its election guarantees across peers. */
module ViaSteering {
  import opened Wrappers
  import opened Arithmetic
  import opened Lists
  import opened Networks
  import opened Via

  /** A non-via grant or an accepting rule lets the viewer reach the route. */
  predicate ReachesRoute(p: Policy, destinations: seq<string>, route: string, forPrimary: bool) {
    || DestinationsOverlap(p, destinations, route)
    || (forPrimary && DefaultRoute(p, route)
        && ("*" in destinations || AnyTouches(p, destinations, Parse(p, route).value)))
  }

  predicate NonVia(p: Policy, route: string, forPrimary: bool) {
    || (exists g :: g in p.grants && g.via == [] && p.grantApplies(g) && ReachesRoute(p, g.dst, route, forPrimary))
    || (exists u :: u in p.rules && u.accept && p.ruleApplies(u) && ReachesRoute(p, u.dst, route, forPrimary))
  }

  predicate IsSelf(viewerId: nat, peerId: nat) {
    viewerId != 0 && viewerId == peerId
  }

  /** The routes the peer carries for the viewer. */
  function Included(p: Policy, viewerId: nat, peer: Node, candidates: seq<Node>): seq<string> {
    if IsSelf(viewerId, peer.id) then []
    else Filter(Collected(p, p.grants, peer.tags, peer.routes, true), r => Stays(p, p.grants, r, peer.id, candidates))
  }

  // ----- the loop -----

  method Matched(p: Policy, g: Grant, routes: seq<string>) returns (matched: seq<string>)
    ensures matched == MatchedRoutes(p, g, routes)
  {
    hide Filter, Touches, Expand;
    matched := [];
    var i := 0;
    assert g.dst[0..] == g.dst;
    while i < |g.dst|
      invariant 0 <= i <= |g.dst| && matched + TouchedRoutes(p, g.dst[i..], routes) == TouchedRoutes(p, g.dst, routes)
    {
      var touched := Touched(p, g.dst[i], routes);
      assert g.dst[i..][1..] == g.dst[i + 1..];
      Assoc(matched, touched, TouchedRoutes(p, g.dst[i + 1..], routes));
      matched := matched + touched;
      i := i + 1;
    }
    if INTERNET in g.dst {
      matched := matched + Filter(routes, r => DefaultRoute(p, r));
    }
  }

  /** The routes one destination overlaps, in order. */
  method Touched(p: Policy, destination: string, routes: seq<string>) returns (touched: seq<string>)
    ensures touched == Filter(routes, r => TouchedRoute(p, destination, r))
  {
    hide Filter, Overlap, Expand, Parse;
    var keep := r => TouchedRoute(p, destination, r);
    touched := [];
    var text := Expand(p, destination);
    if text.None? || Parse(p, text.value).None? {
      NothingKept(routes, keep);
      return;
    }
    var net := Parse(p, text.value).value;
    var i := 0;
    NoRoutes(keep);
    while i < |routes|
      invariant 0 <= i <= |routes| && touched == Filter(routes[..i], keep)
    {
      FilterOne(routes, i, keep);
      var route := Parse(p, routes[i]);
      if route.Some? && !IsDefault(route.value) && Overlap(net, route.value) {
        touched := touched + [routes[i]];
      }
      i := i + 1;
    }
    assert routes[..i] == routes;
  }

  lemma NoRoutes(keep: string -> bool)
    ensures Filter([], keep) == []
  {
  }

  lemma {:induction false} NothingKept(routes: seq<string>, keep: string -> bool)
    requires forall r :: !keep(r)
    ensures Filter(routes, keep) == []
  {
    if routes != [] {
      NothingKept(routes[1..], keep);
    }
  }

  method Collect(p: Policy, peer: Node) returns (included: seq<string>, excluded: seq<string>)
    ensures included == Collected(p, p.grants, peer.tags, peer.routes, true)
    ensures excluded == Collected(p, p.grants, peer.tags, peer.routes, false)
  {
    hide MatchedRoutes, Steers, HasVia, Collected;
    included, excluded := [], [];
    var i := 0;
    assert p.grants[0..] == p.grants;
    while i < |p.grants|
      invariant 0 <= i <= |p.grants|
      invariant included + Collected(p, p.grants[i..], peer.tags, peer.routes, true) ==
                Collected(p, p.grants, peer.tags, peer.routes, true)
      invariant excluded + Collected(p, p.grants[i..], peer.tags, peer.routes, false) ==
                Collected(p, p.grants, peer.tags, peer.routes, false)
    {
      var g := p.grants[i];
      ghost var was, was' := included, excluded;
      CollectedStep(p, p.grants, i, peer, true);
      CollectedStep(p, p.grants, i, peer, false);
      if Steers(p, g) {
        var matched := Matched(p, g, peer.routes);
        if HasVia(g, peer.tags) {
          included := included + matched;
        } else {
          excluded := excluded + matched;
        }
        Assoc(was, matched, Collected(p, p.grants[i + 1..], peer.tags, peer.routes, true));
        Assoc(was', matched, Collected(p, p.grants[i + 1..], peer.tags, peer.routes, false));
      }
      i := i + 1;
    }
    CollectedNone(p, p.grants[i..], peer);
  }

  lemma CollectedNone(p: Policy, grants: seq<Grant>, peer: Node)
    requires grants == []
    ensures forall named :: Collected(p, grants, peer.tags, peer.routes, named) == []
  {
  }

  lemma CollectedStep(p: Policy, grants: seq<Grant>, i: nat, peer: Node, named: bool)
    requires i < |grants|
    ensures var g, rest := grants[i], Collected(p, grants[i + 1..], peer.tags, peer.routes, named);
            Collected(p, grants[i..], peer.tags, peer.routes, named) ==
            if Steers(p, g) && HasVia(g, peer.tags) == named then MatchedRoutes(p, g, peer.routes) + rest else rest
  {
    hide Steers, HasVia, MatchedRoutes;
    assert grants[i..][0] == grants[i] && grants[i..][1..] == grants[i + 1..];
    assert [] + Collected(p, grants[i + 1..], peer.tags, peer.routes, named) ==
           Collected(p, grants[i + 1..], peer.tags, peer.routes, named);
  }

  /** `after` is `before` and then each wanted route that was not there, once. */
  ghost predicate Pushed(before: seq<string>, after: seq<string>, wanted: set<string>) {
    && before <= after && Distinct(after[|before|..])
    && forall r :: r in after[|before|..] <==> r in wanted && r !in before
  }

  lemma PushOne(before: seq<string>, after: seq<string>, wanted: set<string>, route: string)
    requires Pushed(before, after, wanted)
    ensures Pushed(before, PushUnique(after, route), wanted + {route})
  {
    var next := PushUnique(after, route);
    assert after == before + after[|before|..];
    if route !in after {
      assert next[|before|..] == after[|before|..] + [route];
    }
  }

  /** Retaining all but the routes in `lost`. */
  function Without(routes: seq<string>, lost: set<string>): seq<string> {
    Filter(routes, r => r !in lost)
  }

  lemma WithoutMore(routes: seq<string>, lost: set<string>, route: string)
    ensures Filter(Without(routes, lost), r => r != route) == Without(routes, lost + {route})
  {
    FilterTwice(routes, r => r !in lost, r => r != route, r => r !in lost + {route});
  }

  lemma WithoutNone(routes: seq<string>)
    ensures Without(routes, {}) == routes
  {
    if routes != [] {
      WithoutNone(routes[1..]);
      assert routes == [routes[0]] + routes[1..];
    }
  }

  /** The routes of a list that one grant gives to another node. */
  function Lost(p: Policy, g: Grant, routes: seq<string>, id: nat, candidates: seq<Node>): set<string> {
    set r | r in routes && Loses(p, g, r, id, candidates)
  }

  method ElectGrant(p: Policy, g: Grant, id: nat, candidates: seq<Node>, routes: seq<string>, excluded0: seq<string>,
                    ghost before: seq<string>, ghost wanted: set<string>)
    returns (included: seq<string>, excluded: seq<string>)
    requires Steers(p, g) && Pushed(before, excluded0, wanted)
    ensures included == Without(routes, Lost(p, g, routes, id, candidates))
    ensures Pushed(before, excluded, wanted + Lost(p, g, routes, id, candidates))
  {
    hide Pushed, Without, DestinationsOverlap, Elected, Filter;
    included, excluded := routes, excluded0;
    var i := 0;
    WithoutNone(routes);
    assert Lost(p, g, routes[..0], id, candidates) == {} && wanted + {} == wanted;
    while i < |routes|
      invariant 0 <= i <= |routes|
      invariant included == Without(routes, Lost(p, g, routes[..i], id, candidates))
      invariant Pushed(before, excluded, wanted + Lost(p, g, routes[..i], id, candidates))
    {
      var route := routes[i];
      ghost var lost := Lost(p, g, routes[..i], id, candidates);
      assert forall r :: r in routes[..i + 1] <==> r in routes[..i] || r == route;
      if DestinationsOverlap(p, g.dst, route) {
        var primary := Elected(g, route, candidates);
        if primary.Some? && primary.value != id {
          assert Lost(p, g, routes[..i + 1], id, candidates) == lost + {route};
          assert wanted + lost + {route} == wanted + (lost + {route});
          WithoutMore(routes, lost, route);
          PushOne(before, excluded, wanted + lost, route);
          included := Filter(included, r => r != route);
          excluded := PushUnique(excluded, route);
        } else {
          assert Lost(p, g, routes[..i + 1], id, candidates) == lost;
        }
      } else {
        assert Lost(p, g, routes[..i + 1], id, candidates) == lost;
      }
      i := i + 1;
    }
    assert routes[..i] == routes;
  }

  function Unstable(p: Policy, grants: seq<Grant>, routes: seq<string>, id: nat, candidates: seq<Node>): set<string> {
    set r | r in routes && !Stays(p, grants, r, id, candidates)
  }

  /** One more grant. */
  lemma ElectStep(p: Policy, i: nat, routes: seq<string>, id: nat, candidates: seq<Node>, included: seq<string>)
    requires i < |p.grants| && included == Without(routes, Unstable(p, p.grants[..i], routes, id, candidates))
    ensures var lost := Lost(p, p.grants[i], included, id, candidates);
            && Without(included, lost) == Without(routes, Unstable(p, p.grants[..i + 1], routes, id, candidates))
            && Unstable(p, p.grants[..i], routes, id, candidates) + lost ==
               Unstable(p, p.grants[..i + 1], routes, id, candidates)
  {
    hide Loses, Filter;
    var gone := Unstable(p, p.grants[..i], routes, id, candidates);
    var next := Unstable(p, p.grants[..i + 1], routes, id, candidates);
    FilterMembers(routes, r => r !in gone);
    var lost := Lost(p, p.grants[i], included, id, candidates);
    forall r ensures r in gone + lost <==> r in next {
      StaysNext(p, i, r, id, candidates);
    }
    FilterTwice(routes, r => r !in gone, r => r !in lost, r => r !in next);
  }

  lemma StaysNext(p: Policy, i: nat, r: string, id: nat, candidates: seq<Node>)
    requires i < |p.grants|
    ensures Stays(p, p.grants[..i + 1], r, id, candidates) <==>
            Stays(p, p.grants[..i], r, id, candidates) && !Loses(p, p.grants[i], r, id, candidates)
  {
    hide Loses;
    assert p.grants[..i + 1] == p.grants[..i] + [p.grants[i]];
  }

  method Elect(p: Policy, id: nat, candidates: seq<Node>, routes: seq<string>, excluded0: seq<string>)
    returns (included: seq<string>, excluded: seq<string>)
    ensures included == Filter(routes, r => Stays(p, p.grants, r, id, candidates))
    ensures Pushed(excluded0, excluded, Unstable(p, p.grants, routes, id, candidates))
  {
    hide Pushed, Without, Loses, Filter, Stays;
    included, excluded := routes, excluded0;
    ElectStart(p, routes, id, candidates, excluded0);
    var i := 0;
    while i < |p.grants|
      invariant 0 <= i <= |p.grants|
      invariant included == Without(routes, Unstable(p, p.grants[..i], routes, id, candidates))
      invariant Pushed(excluded0, excluded, Unstable(p, p.grants[..i], routes, id, candidates))
    {
      ElectStep(p, i, routes, id, candidates, included);
      if Steers(p, p.grants[i]) {
        included, excluded :=
          ElectGrant(p, p.grants[i], id, candidates, included, excluded, excluded0,
                     Unstable(p, p.grants[..i], routes, id, candidates));
      } else {
        NoneLost(p, p.grants[i], included, id, candidates);
        assert Unstable(p, p.grants[..i], routes, id, candidates) + {} ==
               Unstable(p, p.grants[..i], routes, id, candidates);
      }
      i := i + 1;
    }
    assert p.grants[..i] == p.grants;
    ElectEnd(p, routes, id, candidates);
  }

  lemma ElectStart(p: Policy, routes: seq<string>, id: nat, candidates: seq<Node>, excluded: seq<string>)
    ensures Unstable(p, p.grants[..0], routes, id, candidates) == {}
    ensures Without(routes, {}) == routes && Pushed(excluded, excluded, {})
  {
    WithoutNone(routes);
  }

  lemma NoneLost(p: Policy, g: Grant, routes: seq<string>, id: nat, candidates: seq<Node>)
    requires !Steers(p, g)
    ensures Lost(p, g, routes, id, candidates) == {} && Without(routes, {}) == routes
  {
    WithoutNone(routes);
  }

  lemma ElectEnd(p: Policy, routes: seq<string>, id: nat, candidates: seq<Node>)
    ensures Without(routes, Unstable(p, p.grants, routes, id, candidates)) ==
            Filter(routes, r => Stays(p, p.grants, r, id, candidates))
  {
    hide Stays;
    var gone := Unstable(p, p.grants, routes, id, candidates);
    FilterTwice(routes, r => r !in gone, r => true, r => Stays(p, p.grants, r, id, candidates));
    FilterTwice(Without(routes, gone), r => true, r => true, r => true);
    FilterAll(Without(routes, gone));
  }

  lemma {:induction false} FilterAll(routes: seq<string>)
    ensures Filter(routes, r => true) == routes
  {
    if routes != [] {
      FilterAll(routes[1..]);
      assert routes == [routes[0]] + routes[1..];
    }
  }

  /**
   What the peer is refused: the matched routes of the other steering grants, then each route the
   election took away.
   */
  ghost predicate Refused(p: Policy, peer: Node, candidates: seq<Node>, excluded: seq<string>) {
    var taken := Unstable(p, p.grants, Collected(p, p.grants, peer.tags, peer.routes, true), peer.id, candidates);
    Pushed(Collected(p, p.grants, peer.tags, peer.routes, false), excluded, taken)
  }

  method Steer(p: Policy, viewerId: nat, peer: Node, candidates: seq<Node>) returns (r: Steering)
    ensures r.included == Included(p, viewerId, peer, candidates)
    ensures r.usePrimary == Unique(Filter(r.included, route => NonVia(p, route, true)))
    ensures IsSelf(viewerId, peer.id) ==> r.excluded == []
    ensures !IsSelf(viewerId, peer.id) ==>
              exists excluded ::
                && Refused(p, peer, candidates, excluded)
                && r.excluded == Filter(excluded, route => !NonVia(p, route, false))
  {
    hide Pushed, Stays, Collected, Unstable, NonVia;
    if IsSelf(viewerId, peer.id) {
      return Steering([], [], []);
    }
    var included, excluded := Collect(p, peer);
    if included == [] && excluded == [] {
      NothingToSteer(p, peer, candidates);
      assert Refused(p, peer, candidates, excluded) && [] == Filter(excluded, route => !NonVia(p, route, false));
      return Steering([], [], []);
    }
    included, excluded := Elect(p, peer.id, candidates, included, excluded);
    var usePrimary: seq<string> := [];
    var i := 0;
    while i < |included|
      invariant 0 <= i <= |included| && usePrimary == Unique(Filter(included[..i], route => NonVia(p, route, true)))
    {
      FilterOne(included, i, route => NonVia(p, route, true));
      assert Filter(included[..i], route => NonVia(p, route, true)) + [] ==
             Filter(included[..i], route => NonVia(p, route, true));
      if NonVia(p, included[i], true) {
        UniqueOne(Filter(included[..i], route => NonVia(p, route, true)), included[i]);
        usePrimary := PushUnique(usePrimary, included[i]);
      }
      i := i + 1;
    }
    assert included[..i] == included;
    assert Refused(p, peer, candidates, excluded);
    r := Steering(included, Filter(excluded, route => !NonVia(p, route, false)), usePrimary);
  }

  lemma UniqueOne(routes: seq<string>, route: string)
    ensures Unique(routes + [route]) == PushUnique(Unique(routes), route)
  {
    assert (routes + [route])[..|routes|] == routes;
  }

  lemma NothingToSteer(p: Policy, peer: Node, candidates: seq<Node>)
    requires Collected(p, p.grants, peer.tags, peer.routes, true) == []
             && Collected(p, p.grants, peer.tags, peer.routes, false) == []
    ensures Refused(p, peer, candidates, [])
  {
    hide Collected, Stays;
  }

  // ----- across peers -----

  /**
   A peer carries a route exactly when a steering grant gave it to the peer and no steering grant
   elects another node.
   */
  lemma IncludedExact(p: Policy, viewerId: nat, peer: Node, candidates: seq<Node>, route: string)
    ensures route in Included(p, viewerId, peer, candidates) <==>
            && !IsSelf(viewerId, peer.id) && route in peer.routes
            && (exists g :: g in p.grants && Collects(p, g, peer.tags, route, true))
            && Stays(p, p.grants, route, peer.id, candidates)
  {
    hide Stays, Collected, Collects, Filter;
    CollectedMembers(p, p.grants, peer.tags, peer.routes, true);
    FilterMembers(Collected(p, p.grants, peer.tags, peer.routes, true),
                  r => Stays(p, p.grants, r, peer.id, candidates));
  }

  /** A grant about a route also takes part in its election. */
  lemma AboutOverlaps(p: Policy, g: Grant, route: string)
    requires About(p, g, route)
    ensures DestinationsOverlap(p, g.dst, route)
  {
    hide AnyTouches;
  }

  /** The grant that gave the peer its route elects the peer. */
  lemma GiverElects(p: Policy, viewerId: nat, peer: Node, candidates: seq<Node>, route: string) returns (g: Grant)
    requires peer in candidates && route in Included(p, viewerId, peer, candidates)
    ensures g in p.grants && Steers(p, g) && About(p, g, route) && Elected(g, route, candidates) == Some(peer.id)
  {
    hide Included, DestinationsOverlap, About, HasVia;
    IncludedExact(p, viewerId, peer, candidates, route);
    g :| g in p.grants && Collects(p, g, peer.tags, route, true);
    AboutOverlaps(p, g, route);
    ElectedIsLeast(g, route, candidates);
    assert Stands(g, route, peer);
    var i :| 0 <= i < |p.grants| && p.grants[i] == g;
    assert !Loses(p, p.grants[i], route, peer.id, candidates);
  }

  /** For one viewer and one list of candidates, at most one of them carries a route. */
  lemma AtMostOneCarrier(p: Policy, viewerId: nat, candidates: seq<Node>, a: Node, b: Node, route: string)
    requires forall x, y :: x in candidates && y in candidates && x.id == y.id ==> x == y
    requires a in candidates && b in candidates
    requires route in Included(p, viewerId, a, candidates) && route in Included(p, viewerId, b, candidates)
    ensures a == b
  {
    hide Included, DestinationsOverlap, About, Elected;
    var g := GiverElects(p, viewerId, a, candidates, route);
    AboutOverlaps(p, g, route);
    IncludedExact(p, viewerId, b, candidates, route);
    var i :| 0 <= i < |p.grants| && p.grants[i] == g;
    assert !Loses(p, p.grants[i], route, b.id, candidates);
  }

  /** Every steering grant that overlaps the route and elects a node elects this one. */
  predicate Unanimous(p: Policy, candidates: seq<Node>, route: string, id: nat) {
    forall h ::
      h in p.grants && Steers(p, h) && DestinationsOverlap(p, h.dst, route) && Elected(h, route, candidates).Some? ==>
      Elected(h, route, candidates).value == id
  }

  /** A grant about the route elects a node that is not the viewer, and no election disagrees. */
  predicate Decides(p: Policy, viewerId: nat, candidates: seq<Node>, route: string, g: Grant, id: nat) {
    && Steers(p, g) && About(p, g, route) && Elected(g, route, candidates) == Some(id)
    && !IsSelf(viewerId, id) && Unanimous(p, candidates, route, id)
  }

  /**
   A candidate carries the route exactly when some grant about it elects a node, not the viewer,
   and all elections agree.
   */
  lemma CarrierExists(p: Policy, viewerId: nat, candidates: seq<Node>, route: string)
    ensures (exists peer :: peer in candidates && route in Included(p, viewerId, peer, candidates)) <==>
            exists g, id :: g in p.grants && Decides(p, viewerId, candidates, route, g, id)
  {
    hide Included, DestinationsOverlap, About, Elected, Stands;
    if peer :| peer in candidates && route in Included(p, viewerId, peer, candidates) {
      var g := GiverElects(p, viewerId, peer, candidates, route);
      IncludedExact(p, viewerId, peer, candidates, route);
      StaysUnanimous(p, candidates, route, peer.id);
      assert Decides(p, viewerId, candidates, route, g, peer.id);
    }
    if g, id :| g in p.grants && Decides(p, viewerId, candidates, route, g, id) {
      ElectedIsLeast(g, route, candidates);
      var peer :| peer in candidates && Stands(g, route, peer) && peer.id == id;
      assert HasVia(g, peer.tags) && route in peer.routes by { StandsParts(g, route, peer); }
      assert Collects(p, g, peer.tags, route, true);
      StaysUnanimous(p, candidates, route, peer.id);
      IncludedExact(p, viewerId, peer, candidates, route);
    }
  }

  lemma StandsParts(g: Grant, route: string, peer: Node)
    requires Stands(g, route, peer)
    ensures HasVia(g, peer.tags) && route in peer.routes
  {
  }

  lemma StaysUnanimous(p: Policy, candidates: seq<Node>, route: string, id: nat)
    ensures Stays(p, p.grants, route, id, candidates) <==> Unanimous(p, candidates, route, id)
  {
    hide DestinationsOverlap, Elected, Steers;
  }

  // ----- where the guarantee stops -----

  /** Two grants through different tags to one prefix, and a node for each tag that serves it. */
  function SplitPolicy(): Policy {
    Policy(
      map[], [Grant(["*"], ["10.0.0.0/8"], [], ["tag:a"]), Grant(["*"], ["10.0.0.0/8"], [], ["tag:b"])], [],
      text => if text == "10.0.0.0/8" then Some(Net(false, 0xa000000, 8)) else None, g => true, u => true)
  }

  const FIRST: Node := Node(1, ["a"], ["10.0.0.0/8"])
  const SECOND: Node := Node(2, ["b"], ["10.0.0.0/8"])

  lemma SplitFacts(g: Grant, node: Node)
    requires g in SplitPolicy().grants && node in [FIRST, SECOND]
    ensures Steers(SplitPolicy(), g) && About(SplitPolicy(), g, "10.0.0.0/8")
            && DestinationsOverlap(SplitPolicy(), g.dst, "10.0.0.0/8")
    ensures HasVia(g, node.tags) <==> g.via[0] == "tag:" + node.tags[0]
  {
    hide Power, Expand, Overlap, Touches, NamesTag;
    var p, route := SplitPolicy(), "10.0.0.0/8";
    SplitRoute();
    assert g.dst[0] == route;
    SplitTag(g.via[0], node);
  }

  /** The prefix both grants name. */
  lemma SplitRoute()
    ensures var p, route, net := SplitPolicy(), "10.0.0.0/8", Net(false, 0xa000000, 8);
            Parse(p, route) == Some(net) && !IsDefault(net) && Touches(p, route, net)
  {
    hide Power, Contains, Network;
    var p, route, net := SplitPolicy(), "10.0.0.0/8", Net(false, 0xa000000, 8);
    TwoTo32();
    assert IsNet(net);
    assert Expand(p, route) == Some(route) by {
      assert route[0] == '1' && TAG[0] == 't' && "group:"[0] == 'g' && "autogroup:"[0] == 'a' && "host:"[0] == 'h';
    }
    NetworkInside(net);
  }

  lemma TwoTo32()
    ensures Power(2, 32) == 0x1_0000_0000
  {
    PowerSum(2, 16, 16);
    PowerSum(2, 8, 8);
    assert Power(2, 8) == 0x100;
  }

  lemma SplitTag(via: string, node: Node)
    requires (via == "tag:a" || via == "tag:b") && node in [FIRST, SECOND]
    ensures NamesTag(via, node.tags) <==> via == "tag:" + node.tags[0]
  {
    var tag, rest := node.tags[0], via[4..];
    assert via == TAG + rest && |rest| == 1 && |tag| == 1;
    assert (TAG + tag)[4..] == tag;
    assert TagMatches(node.tags[0], rest) <==> tag == rest;
  }

  /** Elections that disagree leave a route without any carrier. */
  lemma SplitElection(peer: Node)
    requires peer in [FIRST, SECOND]
    ensures "10.0.0.0/8" !in Included(SplitPolicy(), 0, peer, [FIRST, SECOND])
  {
    hide Steers, About, DestinationsOverlap, HasVia, Elected, Included;
    var p, route, candidates := SplitPolicy(), "10.0.0.0/8", [FIRST, SECOND];
    var other := if peer == FIRST then 1 else 0;
    var g := p.grants[other];
    SplitFacts(g, FIRST);
    SplitFacts(g, SECOND);
    ElectedIsLeast(g, route, candidates);
    assert Stands(g, route, candidates[other]);
    assert (TAG + peer.tags[0])[4] != g.via[0][4];
    assert !Stands(g, route, peer);
    assert Elected(g, route, candidates) == Some(candidates[other].id);
    assert Loses(p, p.grants[other], route, peer.id, candidates);
    IncludedExact(p, 0, peer, candidates, route);
  }

  /** Peers that are missing from the candidates are never stood down: two of them carry one route. */
  lemma MissingCandidates()
    ensures var p := SplitPolicy();
            "10.0.0.0/8" in Included(p, 0, FIRST, []) && "10.0.0.0/8" in Included(p, 0, SECOND, [])
  {
    hide Steers, About, DestinationsOverlap, HasVia, Included;
    var p, route := SplitPolicy(), "10.0.0.0/8";
    SplitFacts(p.grants[0], FIRST);
    SplitFacts(p.grants[1], SECOND);
    assert p.grants[0] in p.grants && p.grants[1] in p.grants;
    IncludedExact(p, 0, FIRST, [], route);
    IncludedExact(p, 0, SECOND, [], route);
  }
}
