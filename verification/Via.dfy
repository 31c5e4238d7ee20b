/**
 Via steering: which of a peer's routes a viewer may use through it, which it may not, and which
 are left to the global election. Among the nodes a via grant names, the one with the lowest id
 carries a route.
 */
module Via {
  import opened Wrappers
  import opened Networks

  const INTERNET: string := "autogroup:internet"
  const TAG: string := "tag:"

  datatype Grant = Grant(src: seq<string>, dst: seq<string>, ip: seq<string>, via: seq<string>)

  datatype Rule = Rule(accept: bool, src: seq<string>, dst: seq<string>, ports: seq<string>)

  datatype Node = Node(id: nat, tags: seq<string>, routes: seq<string>)

  /**
   A policy as one viewer sees it. Parsing an address prefix, and matching the sources and ports
   of a grant or a rule against the viewer, are given.
   */
  datatype Policy = Policy(
    hosts: map<string, string>, grants: seq<Grant>, rules: seq<Rule>,
    parse: string -> Option<Net>, grantApplies: Grant -> bool, ruleApplies: Rule -> bool)

  datatype Steering = Steering(included: seq<string>, excluded: seq<string>, usePrimary: seq<string>)

  /** The prefix a text stands for; a parsed prefix is never longer than an address. */
  function Parse(p: Policy, text: string): (r: Option<Net>)
    ensures r.Some? ==> IsNet(r.value)
  {
    var n :- p.parse(text);
    if IsNet(n) then Some(n) else None
  }

  predicate StartsWith(s: string, prefix: string) {
    prefix <= s
  }

  /** The prefix text of a destination that names one. */
  function Expand(p: Policy, destination: string): Option<string> {
    if destination == "*" || StartsWith(destination, TAG) || StartsWith(destination, "group:") then None
    else if StartsWith(destination, "autogroup:") then None
    else if StartsWith(destination, "host:") then
      var host := destination[5..];
      if host in p.hosts then Some(p.hosts[host]) else None
    else if destination in p.hosts then Some(p.hosts[destination])
    else if Parse(p, destination).Some? then Some(destination)
    else None
  }

  predicate Touches(p: Policy, destination: string, route: Net)
    requires IsNet(route)
  {
    var text := Expand(p, destination);
    text.Some? && Parse(p, text.value).Some? && Overlap(Parse(p, text.value).value, route)
  }

  predicate AnyTouches(p: Policy, destinations: seq<string>, route: Net)
    requires IsNet(route)
  {
    exists d :: d in destinations && Touches(p, d, route)
  }

  predicate DestinationsOverlap(p: Policy, destinations: seq<string>, route: string) {
    var net := Parse(p, route);
    net.Some? &&
      if IsDefault(net.value) then INTERNET in destinations || "*" in destinations
      else AnyTouches(p, destinations, net.value)
  }

  predicate TagMatches(nodeTag: string, tag: string) {
    nodeTag == tag || nodeTag == TAG + tag
  }

  predicate NamesTag(via: string, tags: seq<string>) {
    StartsWith(via, TAG) && exists j :: 0 <= j < |tags| && TagMatches(tags[j], via[|TAG|..])
  }

  predicate HasVia(g: Grant, tags: seq<string>) {
    exists i :: 0 <= i < |g.via| && NamesTag(g.via[i], tags)
  }

  predicate Steers(p: Policy, g: Grant) {
    g.via != [] && p.grantApplies(g)
  }

  // ----- the election -----

  predicate Stands(g: Grant, route: string, node: Node) {
    HasVia(g, node.tags) && route in node.routes
  }

  function Least(a: Option<nat>, b: nat): nat {
    if a.None? || b <= a.value then b else a.value
  }

  /** The lowest id among the candidates that stand. */
  function Elected(g: Grant, route: string, candidates: seq<Node>): Option<nat> {
    if candidates == [] then None
    else
      var rest := Elected(g, route, candidates[1..]);
      if Stands(g, route, candidates[0]) then Some(Least(rest, candidates[0].id)) else rest
  }

  /** The elected id is the least id of a candidate that stands, if one does. */
  lemma {:induction false} ElectedIsLeast(g: Grant, route: string, candidates: seq<Node>)
    ensures var e := Elected(g, route, candidates);
            && (e.Some? ==> exists c :: c in candidates && Stands(g, route, c) && c.id == e.value)
            && (forall c :: c in candidates && Stands(g, route, c) ==> e.Some? && e.value <= c.id)
  {
    hide Stands;
    if candidates != [] {
      ElectedIsLeast(g, route, candidates[1..]);
      var e := Elected(g, route, candidates[1..]);
      assert forall c :: c in candidates ==> c == candidates[0] || c in candidates[1..];
      if Stands(g, route, candidates[0]) && (e.None? || candidates[0].id <= e.value) {
        assert candidates[0] in candidates;
      } else if e.Some? {
        var c :| c in candidates[1..] && Stands(g, route, c) && c.id == e.value;
        assert c in candidates;
      }
    }
  }

  /** This grant gives the route to another node than `id`. */
  predicate Loses(p: Policy, g: Grant, route: string, id: nat, candidates: seq<Node>) {
    && Steers(p, g) && DestinationsOverlap(p, g.dst, route)
    && Elected(g, route, candidates).Some? && Elected(g, route, candidates).value != id
  }

  predicate Stays(p: Policy, grants: seq<Grant>, route: string, id: nat, candidates: seq<Node>) {
    forall i :: 0 <= i < |grants| ==> !Loses(p, grants[i], route, id, candidates)
  }

  // ----- lists of routes -----

  function Filter(routes: seq<string>, keep: string -> bool): seq<string> {
    if routes == [] then []
    else (if keep(routes[0]) then [routes[0]] else []) + Filter(routes[1..], keep)
  }

  lemma {:induction false} FilterMembers(routes: seq<string>, keep: string -> bool)
    ensures forall r :: r in Filter(routes, keep) <==> r in routes && keep(r)
  {
    if routes != [] {
      FilterMembers(routes[1..], keep);
      assert routes == [routes[0]] + routes[1..];
    }
  }

  lemma Assoc(a: seq<string>, b: seq<string>, c: seq<string>)
    ensures a + (b + c) == a + b + c
  {
  }

  lemma {:induction false} FilterSplit(a: seq<string>, b: seq<string>, keep: string -> bool)
    ensures Filter(a + b, keep) == Filter(a, keep) + Filter(b, keep)
  {
    if a == [] {
      assert a + b == b;
    } else {
      FilterSplit(a[1..], b, keep);
      assert (a + b)[1..] == a[1..] + b;
      var head: seq<string> := if keep(a[0]) then [a[0]] else [];
      Assoc(head, Filter(a[1..], keep), Filter(b, keep));
    }
  }

  lemma FilterOne(routes: seq<string>, i: nat, keep: string -> bool)
    requires i < |routes|
    ensures Filter(routes[..i + 1], keep) == Filter(routes[..i], keep) + if keep(routes[i]) then [routes[i]] else []
  {
    assert routes[..i + 1] == routes[..i] + [routes[i]];
    FilterSplit(routes[..i], [routes[i]], keep);
  }

  /** Filtering twice, and filters that agree on the list. */
  lemma {:induction false} FilterTwice(routes: seq<string>, first: string -> bool, second: string -> bool,
                                       both: string -> bool)
    requires forall r :: r in routes ==> (both(r) <==> first(r) && second(r))
    ensures Filter(Filter(routes, first), second) == Filter(routes, both)
  {
    if routes != [] {
      FilterTwice(routes[1..], first, second, both);
      var head: seq<string> := if first(routes[0]) then [routes[0]] else [];
      FilterSplit(head, Filter(routes[1..], first), second);
    }
  }

  function PushUnique(routes: seq<string>, route: string): seq<string> {
    if route in routes then routes else routes + [route]
  }

  /** Each route once, where it first occurs. */
  function Unique(routes: seq<string>): seq<string> {
    if routes == [] then [] else PushUnique(Unique(routes[..|routes| - 1]), routes[|routes| - 1])
  }

  // ----- the routes of a peer that a grant is about -----

  predicate DefaultRoute(p: Policy, route: string) {
    Parse(p, route).Some? && IsDefault(Parse(p, route).value)
  }

  predicate TouchedRoute(p: Policy, destination: string, route: string) {
    Parse(p, route).Some? && !IsDefault(Parse(p, route).value) && Touches(p, destination, Parse(p, route).value)
  }

  function TouchedRoutes(p: Policy, destinations: seq<string>, routes: seq<string>): seq<string> {
    if destinations == [] then []
    else Filter(routes, r => TouchedRoute(p, destinations[0], r)) + TouchedRoutes(p, destinations[1..], routes)
  }

  /** One entry for each destination and route that overlap, then the exit routes of an internet grant. */
  function MatchedRoutes(p: Policy, g: Grant, routes: seq<string>): seq<string> {
    TouchedRoutes(p, g.dst, routes) + if INTERNET in g.dst then Filter(routes, r => DefaultRoute(p, r)) else []
  }

  /** A grant is about a route of the peer if it matches it. */
  predicate About(p: Policy, g: Grant, route: string) {
    Parse(p, route).Some? && if DefaultRoute(p, route) then INTERNET in g.dst
    else AnyTouches(p, g.dst, Parse(p, route).value)
  }

  lemma {:induction false} TouchedMembers(p: Policy, destinations: seq<string>, routes: seq<string>)
    ensures forall r :: r in TouchedRoutes(p, destinations, routes) <==>
                        r in routes && exists d :: d in destinations && TouchedRoute(p, d, r)
  {
    hide TouchedRoute, Filter;
    if destinations != [] {
      TouchedMembers(p, destinations[1..], routes);
      FilterMembers(routes, r => TouchedRoute(p, destinations[0], r));
      assert forall d :: d in destinations <==> d == destinations[0] || d in destinations[1..];
    }
  }

  lemma MatchedMembers(p: Policy, g: Grant, routes: seq<string>)
    ensures forall r :: r in MatchedRoutes(p, g, routes) <==> r in routes && About(p, g, r)
  {
    hide TouchedRoutes, Touches, Filter;
    TouchedMembers(p, g.dst, routes);
    FilterMembers(routes, r => DefaultRoute(p, r));
    forall r ensures r in MatchedRoutes(p, g, routes) <==> r in routes && About(p, g, r) {
      if Parse(p, r).Some? && !IsDefault(Parse(p, r).value) {
        var net := Parse(p, r).value;
        assert forall d :: TouchedRoute(p, d, r) <==> Touches(p, d, net);
      }
    }
  }

  /** The matched routes of every steering grant that names the peer, or of every one that does not. */
  function Collected(p: Policy, grants: seq<Grant>, tags: seq<string>, routes: seq<string>, named: bool): seq<string> {
    if grants == [] then []
    else
      (if Steers(p, grants[0]) && HasVia(grants[0], tags) == named then MatchedRoutes(p, grants[0], routes) else []) +
      Collected(p, grants[1..], tags, routes, named)
  }

  predicate Collects(p: Policy, g: Grant, tags: seq<string>, route: string, named: bool) {
    Steers(p, g) && HasVia(g, tags) == named && About(p, g, route)
  }

  lemma {:induction false} CollectedMembers(p: Policy, grants: seq<Grant>, tags: seq<string>, routes: seq<string>,
                                            named: bool)
    ensures forall r :: r in Collected(p, grants, tags, routes, named) <==>
                        r in routes && exists g :: g in grants && Collects(p, g, tags, r, named)
  {
    hide MatchedRoutes, Steers, HasVia, About;
    if grants != [] {
      assert forall r :: Collects(p, grants[0], tags, r, named) <==>
                         Steers(p, grants[0]) && HasVia(grants[0], tags) == named && About(p, grants[0], r);
      CollectedMembers(p, grants[1..], tags, routes, named);
      MatchedMembers(p, grants[0], routes);
      assert forall g :: g in grants <==> g == grants[0] || g in grants[1..];
    }
  }
}
