/**
 * From a scenario to per-router rule text: for each communication in order,
 * a depth-first search from the source subnet, then a walk back from the
 * target subnet along the parent arrays, appending the rules of each router
 * passed to that router's entry of the rule map.
 *
 * The rule map is a Go map from router id to text; a missing key reads as the
 * empty text (Lookup).
 */
module Compiler {
  import opened Scenario
  import opened RuleText
  import opened Topology
  import opened SearchState
  import opened PathSearch

  /** The protocols the walk-back switch emits rules for; any other protocol gets none. */
  predicate Matched(protocol: string) {
    protocol == "tcp" || protocol == "udp" || protocol == "icmp"
  }

  function Lookup(rules: map<int, string>, r: int): string {
    if r in rules then rules[r] else ""
  }

  /** rules[r] += text, on a Go map: the text is appended to r's entry, which is created if missing. */
  function AddText(rules: map<int, string>, r: int, text: string): (m: map<int, string>)
    ensures m.Keys == rules.Keys + {r}
    ensures Lookup(m, r) == Lookup(rules, r) + text
    ensures forall x :: x != r ==> Lookup(m, x) == Lookup(rules, x)
  {
    rules[r := Lookup(rules, r) + text]
  }

  /** Some route over the links leads from subnet s to subnet t. */
  ghost predicate Connected(links: seq<Link>, s: int, t: int) {
    exists hops :: LinkRoute(links, s, t, hops)
  }

  /**
   * What the walk back needs of a communication: either it stays inside one
   * subnet, or both of its subnets exist and the network joins them.
   */
  ghost predicate Routable(net: Network, com: Communication) {
    || com.sourceSubnetId == com.targetSubnetId
    || (&& 0 <= com.sourceSubnetId < |net.subnets|
        && 0 <= com.targetSubnetId < |net.subnets|
        && Connected(net.links, com.sourceSubnetId, com.targetSubnetId))
  }

  predicate HopFits(input: Input, com: Communication, interfaces: seq<seq<string>>, h: Hop) {
    HopInRange(input, com, h.router, h.ingress, h.egress, interfaces)
  }

  predicate HopsFit(input: Input, com: Communication, interfaces: seq<seq<string>>, hops: seq<Hop>) {
    forall k :: 0 <= k < |hops| ==> HopFits(input, com, interfaces, hops[k])
  }

  // ---------------------------------------------------------------------
  // The rules of one hop, and their accumulation along a route

  /**
   * The text the walk back appends at one router hop: tcpUdpRule for tcp and
   * udp, icmpRule for icmp, entering from the hop's ingress subnet and leaving
   * onto its egress subnet; nothing for any other protocol.
   */
  function HopRule(input: Input, com: Communication, interfaces: seq<seq<string>>, h: Hop): (rule: string)
    requires HopFits(input, com, interfaces, h)
    ensures !Matched(com.protocol) ==> rule == ""
  {
    var bidirectional := com.direction == "bidirectional";
    if com.protocol == "tcp" || com.protocol == "udp" then
      TcpUdpRule(input, com, h.router, h.ingress, h.egress, interfaces, bidirectional)
    else if com.protocol == "icmp" then
      IcmpRule(input, com, h.router, h.ingress, h.egress, interfaces, bidirectional)
    else
      ""
  }

  /** One router step of the walk back; the map is left alone when the protocol is not matched. */
  function AppendHop(input: Input, com: Communication, interfaces: seq<seq<string>>,
                     rules: map<int, string>, h: Hop): map<int, string>
    requires HopFits(input, com, interfaces, h)
  {
    if Matched(com.protocol) then AddText(rules, h.router, HopRule(input, com, interfaces, h)) else rules
  }

  /** The rule map after walking back over hops, in the order given (target end first). */
  function AppendHops(input: Input, com: Communication, interfaces: seq<seq<string>>,
                      rules: map<int, string>, hops: seq<Hop>): map<int, string>
    requires HopsFit(input, com, interfaces, hops)
    decreases |hops|
  {
    if |hops| == 0 then rules
    else
      AppendHop(input, com, interfaces, AppendHops(input, com, interfaces, rules, hops[..|hops| - 1]),
                hops[|hops| - 1])
  }

  /** One route per communication, each fitting its communication. */
  predicate AllFit(input: Input, interfaces: seq<seq<string>>, coms: seq<Communication>, routes: seq<seq<Hop>>) {
    |routes| == |coms| && forall i :: 0 <= i < |coms| ==> HopsFit(input, coms[i], interfaces, routes[i])
  }

  /** The rule map after every communication, each along its own route. */
  function AccumulateAll(input: Input, interfaces: seq<seq<string>>, rules: map<int, string>,
                         coms: seq<Communication>, routes: seq<seq<Hop>>): map<int, string>
    requires AllFit(input, interfaces, coms, routes)
    decreases |coms|
  {
    if |coms| == 0 then rules
    else
      var n := |coms| - 1;
      AppendHops(input, coms[n], interfaces, AccumulateAll(input, interfaces, rules, coms[..n], routes[..n]), routes[n])
  }

  // ---------------------------------------------------------------------
  // Properties of the accumulation

  /** A hop adds one line of rules, two for a bidirectional flow, none for an unmatched protocol. */
  lemma HopRuleLineCount(input: Input, com: Communication, interfaces: seq<seq<string>>, h: Hop)
    requires HopFits(input, com, interfaces, h)
    requires SingleLineInputs(input, com, h.router, h.ingress, h.egress, interfaces)
    ensures CountNewlines(HopRule(input, com, interfaces, h))
            == if !Matched(com.protocol) then 0 else if com.direction == "bidirectional" then 2 else 1
  {
    var bidirectional := com.direction == "bidirectional";
    if com.protocol == "tcp" || com.protocol == "udp" {
      TcpUdpRuleLineCount(input, com, h.router, h.ingress, h.egress, interfaces, bidirectional);
    } else if com.protocol == "icmp" {
      IcmpRuleLineCount(input, com, h.router, h.ingress, h.egress, interfaces, bidirectional);
    }
  }

  /** A route's prefix still fits. */
  lemma HopsFitPrefix(input: Input, com: Communication, interfaces: seq<seq<string>>, hops: seq<Hop>, n: int)
    requires HopsFit(input, com, interfaces, hops)
    requires 0 <= n <= |hops|
    ensures HopsFit(input, com, interfaces, hops[..n])
  {
    assert forall k :: 0 <= k < n ==> hops[..n][k] == hops[k];
  }

  /** Walking back one more hop appends that hop's rules to the walk so far. */
  lemma AppendHopsSnoc(input: Input, com: Communication, interfaces: seq<seq<string>>,
                       rules: map<int, string>, hops: seq<Hop>, k: int)
    requires HopsFit(input, com, interfaces, hops)
    requires 0 <= k < |hops|
    ensures HopsFit(input, com, interfaces, hops[..k]) && HopsFit(input, com, interfaces, hops[..k + 1])
    ensures AppendHops(input, com, interfaces, rules, hops[..k + 1])
            == AppendHop(input, com, interfaces, AppendHops(input, com, interfaces, rules, hops[..k]), hops[k])
  {
    HopsFitPrefix(input, com, interfaces, hops, k);
    HopsFitPrefix(input, com, interfaces, hops, k + 1);
    assert hops[..k + 1][..k] == hops[..k];
  }

  /** The walk back only ever appends: every router's old text is a prefix of its new text. */
  lemma {:induction false} AppendHopsExtends(input: Input, com: Communication, interfaces: seq<seq<string>>,
                                             rules: map<int, string>, hops: seq<Hop>, r: int)
    requires HopsFit(input, com, interfaces, hops)
    ensures Lookup(rules, r) <= Lookup(AppendHops(input, com, interfaces, rules, hops), r)
    decreases |hops|
  {
    if |hops| > 0 {
      var n := |hops| - 1;
      HopsFitPrefix(input, com, interfaces, hops, n);
      AppendHopsExtends(input, com, interfaces, rules, hops[..n], r);
    }
  }

  /** Routers the route does not pass keep their text. */
  lemma {:induction false} AppendHopsOffRoute(input: Input, com: Communication, interfaces: seq<seq<string>>,
                                              rules: map<int, string>, hops: seq<Hop>, r: int)
    requires HopsFit(input, com, interfaces, hops)
    requires forall k :: 0 <= k < |hops| ==> hops[k].router != r
    ensures Lookup(AppendHops(input, com, interfaces, rules, hops), r) == Lookup(rules, r)
    decreases |hops|
  {
    if |hops| > 0 {
      var n := |hops| - 1;
      HopsFitPrefix(input, com, interfaces, hops, n);
      AppendHopsOffRoute(input, com, interfaces, rules, hops[..n], r);
    }
  }

  /** A communication whose protocol is not tcp, udp or icmp changes no rules at all. */
  lemma {:induction false} AppendHopsUnmatched(input: Input, com: Communication, interfaces: seq<seq<string>>,
                                               rules: map<int, string>, hops: seq<Hop>)
    requires HopsFit(input, com, interfaces, hops)
    requires !Matched(com.protocol)
    ensures AppendHops(input, com, interfaces, rules, hops) == rules
    decreases |hops|
  {
    if |hops| > 0 {
      var n := |hops| - 1;
      HopsFitPrefix(input, com, interfaces, hops, n);
      AppendHopsUnmatched(input, com, interfaces, rules, hops[..n]);
    }
  }

  /** The walk back adds no keys when every router it passes already has one. */
  lemma {:induction false} AppendHopsKeys(input: Input, com: Communication, interfaces: seq<seq<string>>,
                                          rules: map<int, string>, hops: seq<Hop>)
    requires HopsFit(input, com, interfaces, hops)
    requires forall k :: 0 <= k < |hops| ==> hops[k].router in rules
    ensures AppendHops(input, com, interfaces, rules, hops).Keys == rules.Keys
    decreases |hops|
  {
    if |hops| > 0 {
      var n := |hops| - 1;
      HopsFitPrefix(input, com, interfaces, hops, n);
      AppendHopsKeys(input, com, interfaces, rules, hops[..n]);
    }
  }

  /**
   * On a route that passes each router once, every router on it gets exactly
   * the rules of its own hop appended to what it had.
   */
  lemma {:induction false} AppendHopsSimple(input: Input, com: Communication, interfaces: seq<seq<string>>,
                                            rules: map<int, string>, hops: seq<Hop>, k: int)
    requires HopsFit(input, com, interfaces, hops)
    requires Simple(hops)
    requires 0 <= k < |hops|
    ensures Lookup(AppendHops(input, com, interfaces, rules, hops), hops[k].router)
            == Lookup(rules, hops[k].router) + HopRule(input, com, interfaces, hops[k])
    decreases |hops|
  {
    var n := |hops| - 1;
    var pre := hops[..n];
    HopsFitPrefix(input, com, interfaces, hops, n);
    if k == n {
      AppendHopsOffRoute(input, com, interfaces, rules, pre, hops[k].router);
    } else {
      assert Simple(pre) by {
        assert forall a :: 0 <= a < n ==> pre[a] == hops[a];
      }
      assert pre[k] == hops[k];
      AppendHopsSimple(input, com, interfaces, rules, pre, k);
    }
  }

  /** With single-line names, a router on a simple route gains one line, or two for a bidirectional flow. */
  lemma RouterLineGain(input: Input, com: Communication, interfaces: seq<seq<string>>,
                       rules: map<int, string>, hops: seq<Hop>, k: int)
    requires HopsFit(input, com, interfaces, hops)
    requires Simple(hops)
    requires 0 <= k < |hops|
    requires Matched(com.protocol)
    requires SingleLineInputs(input, com, hops[k].router, hops[k].ingress, hops[k].egress, interfaces)
    ensures CountNewlines(Lookup(AppendHops(input, com, interfaces, rules, hops), hops[k].router))
            == CountNewlines(Lookup(rules, hops[k].router)) + (if com.direction == "bidirectional" then 2 else 1)
  {
    AppendHopsSimple(input, com, interfaces, rules, hops, k);
    HopRuleLineCount(input, com, interfaces, hops[k]);
    CountNewlinesAppend(Lookup(rules, hops[k].router), HopRule(input, com, interfaces, hops[k]));
  }

  /** One more communication, with its route, extends the accumulation by that route's walk back. */
  lemma AccumulateStep(input: Input, interfaces: seq<seq<string>>, rules: map<int, string>,
                       coms: seq<Communication>, routes: seq<seq<Hop>>, hops: seq<Hop>, i: int)
    requires 0 <= i < |coms|
    requires AllFit(input, interfaces, coms[..i], routes)
    requires HopsFit(input, coms[i], interfaces, hops)
    ensures AllFit(input, interfaces, coms[..i + 1], routes + [hops])
    ensures AccumulateAll(input, interfaces, rules, coms[..i + 1], routes + [hops])
            == AppendHops(input, coms[i], interfaces, AccumulateAll(input, interfaces, rules, coms[..i], routes), hops)
  {
    assert coms[..i + 1][..i] == coms[..i];
    assert (routes + [hops])[..i] == routes;
  }

  /** Router r is passed by none of the routes. */
  predicate OffRoutes(routes: seq<seq<Hop>>, r: int) {
    forall i, k :: 0 <= i < |routes| && 0 <= k < |routes[i]| ==> routes[i][k].router != r
  }

  /** Routers on none of the routes keep their text through all communications. */
  lemma {:induction false} AccumulateOffRoutes(input: Input, interfaces: seq<seq<string>>, rules: map<int, string>,
                                               coms: seq<Communication>, routes: seq<seq<Hop>>, r: int)
    requires AllFit(input, interfaces, coms, routes)
    requires OffRoutes(routes, r)
    ensures Lookup(AccumulateAll(input, interfaces, rules, coms, routes), r) == Lookup(rules, r)
    decreases |coms|
  {
    if |coms| > 0 {
      var n := |coms| - 1;
      assert OffRoutes(routes[..n], r) by {
        forall i | 0 <= i < n ensures routes[..n][i] == routes[i] { }
      }
      AccumulateOffRoutes(input, interfaces, rules, coms[..n], routes[..n], r);
      AppendHopsOffRoute(input, coms[n], interfaces, AccumulateAll(input, interfaces, rules, coms[..n], routes[..n]),
                         routes[n], r);
    }
  }

  /** Every hop of a route over the links names an existing router and two existing subnets. */
  lemma LinkRouteFits(input: Input, com: Communication, interfaces: seq<seq<string>>, hops: seq<Hop>)
    requires LinksWithin(input.net.links, |input.net.routers|, |input.net.subnets|)
    requires IsTable(interfaces, |input.net.routers|, |input.net.subnets|)
    requires 0 <= com.sourceSubnetId < |input.net.subnets| && 0 <= com.targetSubnetId < |input.net.subnets|
    requires LinkRoute(input.net.links, com.sourceSubnetId, com.targetSubnetId, hops)
    ensures HopsFit(input, com, interfaces, hops)
    ensures forall k :: 0 <= k < |hops| ==> 0 <= hops[k].router < |input.net.routers|
  {
    var links := input.net.links;
    forall k | 0 <= k < |hops|
      ensures HopFits(input, com, interfaces, hops[k]) && 0 <= hops[k].router < |input.net.routers|
    {
      var h := hops[k];
      assert Linked(links, h.router, h.ingress);
      var j :| 0 <= j < |links| && links[j].routerId == h.router && links[j].subnetId == h.ingress;
      assert Linked(links, h.router, h.egress);
      var j' :| 0 <= j' < |links| && links[j'].routerId == h.router && links[j'].subnetId == h.egress;
    }
  }

  /** The interface names in a hop's rules are those of the last links joining its router to its two subnets. */
  lemma HopInterfacesNamed(net: Network, hops: seq<Hop>, source: int, target: int, k: int)
    requires LinksWithin(net.links, |net.routers|, |net.subnets|)
    requires LinkRoute(net.links, source, target, hops)
    requires 0 <= k < |hops|
    requires 0 <= hops[k].router < |net.routers|
    requires 0 <= hops[k].ingress < |net.subnets| && 0 <= hops[k].egress < |net.subnets|
    ensures exists j :: LastLinkFor(net.links, hops[k].router, hops[k].ingress, j)
              && InterfaceTable(net.links, |net.routers|, |net.subnets|)[hops[k].router][hops[k].ingress]
                 == net.links[j].interfaceId
    ensures exists j :: LastLinkFor(net.links, hops[k].router, hops[k].egress, j)
              && InterfaceTable(net.links, |net.routers|, |net.subnets|)[hops[k].router][hops[k].egress]
                 == net.links[j].interfaceId
  {
    var h := hops[k];
    var a := LastLinkExists(net.links, h.router, h.ingress);
    var b := LastLinkExists(net.links, h.router, h.egress);
    InterfaceCell(net.links, |net.routers|, |net.subnets|, h.router, h.ingress);
    InterfaceCell(net.links, |net.routers|, |net.subnets|, h.router, h.egress);
  }

  // ---------------------------------------------------------------------
  // The imperative driver

  /** What one communication's route must satisfy: a simple route over the links whose hops all fit. */
  ghost predicate RouteFor(input: Input, interfaces: seq<seq<string>>, com: Communication, hops: seq<Hop>) {
    && LinkRoute(input.net.links, com.sourceSubnetId, com.targetSubnetId, hops)
    && Simple(hops)
    && HopsFit(input, com, interfaces, hops)
    && forall k :: 0 <= k < |hops| ==> 0 <= hops[k].router < |input.net.routers|
  }

  /** The first |routes| communications each have their route. */
  ghost predicate RoutesFor(input: Input, interfaces: seq<seq<string>>, coms: seq<Communication>, routes: seq<seq<Hop>>) {
    |routes| <= |coms| && forall j :: 0 <= j < |routes| ==> RouteFor(input, interfaces, coms[j], routes[j])
  }

  lemma RoutesForSnoc(input: Input, interfaces: seq<seq<string>>, coms: seq<Communication>,
                      routes: seq<seq<Hop>>, hops: seq<Hop>)
    requires RoutesFor(input, interfaces, coms, routes) && |routes| < |coms|
    requires RouteFor(input, interfaces, coms[|routes|], hops)
    ensures RoutesFor(input, interfaces, coms, routes + [hops])
  {
    forall j | 0 <= j < |routes| + 1
      ensures RouteFor(input, interfaces, coms[j], (routes + [hops])[j])
    {
      if j < |routes| {
        assert (routes + [hops])[j] == routes[j];
      }
    }
  }

  /**
   * The search for one communication: fresh visited and parent arrays (all
   * false, all zero), then findPath from the source subnet toward the target
   * subnet. The parent arrays then hold a walk-back chain for a simple route.
   */
  method SearchFor(input: Input, rAdj: map<int, seq<int>>, sAdj: map<int, seq<int>>,
                   interfaces: seq<seq<string>>, com: Communication)
    returns (routerParents: array<int>, subnetParents: array<int>, ghost hops: seq<Hop>)
    requires LinksWithin(input.net.links, |input.net.routers|, |input.net.subnets|)
    requires rAdj == RouterAdjacency(input.net.links) && sAdj == SubnetAdjacency(input.net.links)
    requires interfaces == InterfaceTable(input.net.links, |input.net.routers|, |input.net.subnets|)
    requires Routable(input.net, com)
    ensures ParentChain(routerParents[..], subnetParents[..], com.sourceSubnetId, com.targetSubnetId, hops)
    ensures RouteFor(input, interfaces, com, hops)
    ensures com.sourceSubnetId == com.targetSubnetId ==> hops == []
  {
    var nR, nS := |input.net.routers|, |input.net.subnets|;
    var visitedRouters := new bool[nR](_ => false);
    var visitedSubnets := new bool[nS](_ => false);
    routerParents := new int[nR](_ => 0);
    subnetParents := new int[nS](_ => 0);
    var source, target := com.sourceSubnetId, com.targetSubnetId;
    ghost var vr0, vs0 := visitedRouters[..], visitedSubnets[..];
    ghost var rd0: seq<nat>, sd0: seq<nat> := seq(nR, _ => 0), seq(nS, _ => 0);
    AdjacencyWithin(input.net.links, nR, nS);
    ghost var rd, sd, reached := FindPath(rAdj, sAdj, visitedRouters, visitedSubnets, routerParents, subnetParents,
                                          false, source, target, source, rd0, sd0, false);
    if source == target {
      hops := [];
    } else {
      hops := RouteFromParents(input, rAdj, sAdj, interfaces, com, vr0, vs0, visitedRouters[..], visitedSubnets[..],
                               routerParents[..], subnetParents[..], rd, sd, reached);
    }
  }

  /** Fresh visited arrays mark no node. */
  lemma NoneMarked(vr: seq<bool>, vs: seq<bool>)
    requires forall r :: 0 <= r < |vr| ==> !vr[r]
    requires forall s :: 0 <= s < |vs| ==> !vs[s]
    ensures forall n :: !Marked(vr, vs, n)
  {
    forall n ensures !Marked(vr, vs, n) {
      match n
      case R(r) =>
      case S(s) =>
    }
  }

  /**
   * After a search from the source subnet that started with nothing marked,
   * on a network that joins the two subnets, the target was entered and the
   * parent arrays lead back from it to the source along a simple route.
   */
  lemma RouteFromParents(input: Input, rAdj: map<int, seq<int>>, sAdj: map<int, seq<int>>,
                         interfaces: seq<seq<string>>, com: Communication,
                         vr0: seq<bool>, vs0: seq<bool>, vr: seq<bool>, vs: seq<bool>, rp: seq<int>, sp: seq<int>,
                         rd: seq<nat>, sd: seq<nat>, reached: bool)
    returns (hops: seq<Hop>)
    requires LinksWithin(input.net.links, |input.net.routers|, |input.net.subnets|)
    requires rAdj == RouterAdjacency(input.net.links) && sAdj == SubnetAdjacency(input.net.links)
    requires interfaces == InterfaceTable(input.net.links, |input.net.routers|, |input.net.subnets|)
    requires Routable(input.net, com) && com.sourceSubnetId != com.targetSubnetId
    requires forall r :: 0 <= r < |vr0| ==> !vr0[r]
    requires forall s :: 0 <= s < |vs0| ==> !vs0[s]
    requires Tree(rAdj, sAdj, vr, vs, rp, sp, rd, sd, com.sourceSubnetId, com.targetSubnetId, reached)
    requires NewClosed(rAdj, sAdj, vr0, vs0, vr, vs, com.targetSubnetId, reached)
    requires |vs| == |input.net.subnets| && vs[com.sourceSubnetId] && !vs[com.targetSubnetId]
    ensures ParentChain(rp, sp, com.sourceSubnetId, com.targetSubnetId, hops)
    ensures RouteFor(input, interfaces, com, hops)
  {
    var source, target := com.sourceSubnetId, com.targetSubnetId;
    var route :| LinkRoute(input.net.links, source, target, route);
    AdjRouteIffLinkRoute(input.net.links, source, target, route);
    NoneMarked(vr0, vs0);
    ReachesDest(rAdj, sAdj, vr0, vs0, vr, vs, source, target, reached, route);
    hops := ChainToDest(rAdj, sAdj, vr, vs, rp, sp, rd, sd, source, target);
    AdjRouteIffLinkRoute(input.net.links, source, target, hops);
    LinkRouteFits(input, com, interfaces, hops);
  }

  /**
   * The walk back: from the target subnet, alternately to the subnet's parent
   * router and the router's parent subnet, until the source subnet; at each
   * router, the switch on the protocol appends the hop's rules to its entry.
   */
  method WalkBack(input: Input, com: Communication, interfaces: seq<seq<string>>,
                  routerParents: array<int>, subnetParents: array<int>, rules: map<int, string>, ghost hops: seq<Hop>)
    returns (rules': map<int, string>)
    requires ParentChain(routerParents[..], subnetParents[..], com.sourceSubnetId, com.targetSubnetId, hops)
    requires HopsFit(input, com, interfaces, hops)
    ensures rules' == AppendHops(input, com, interfaces, rules, hops)
  {
    var source, target := com.sourceSubnetId, com.targetSubnetId;
    rules' := rules;
    var after, curr := target, target;
    var isRouter := false;
    ghost var k := 0;
    while curr != source || isRouter
      invariant 0 <= k <= |hops|
      invariant rules' == AppendHops(input, com, interfaces, rules, hops[..k])
      invariant !isRouter ==> curr == if k < |hops| then hops[k].egress else source
      invariant isRouter ==> k < |hops| && curr == hops[k].router && after == hops[k].egress
      decreases 2 * (|hops| - k) + (if isRouter then 0 else 1)
    {
      if isRouter {
        AppendHopsSnoc(input, com, interfaces, rules, hops, k);
        assert hops[k] == Hop(curr, routerParents[curr], after);
        rules' := SwitchOnProtocol(input, com, interfaces, rules', curr, routerParents[curr], after);
        after := curr;
        curr := routerParents[curr];
        isRouter := false;
        k := k + 1;
      } else {
        after := curr;
        curr := subnetParents[curr];
        isRouter := true;
      }
    }
    assert hops[..k] == hops;
  }

  /**
   * The router step's switch: tcp and udp append tcpUdpRule, icmp appends
   * icmpRule, each to the router's entry; any other protocol appends nothing.
   */
  method SwitchOnProtocol(input: Input, com: Communication, interfaces: seq<seq<string>>,
                          rules: map<int, string>, curr: int, ingress: int, after: int)
    returns (rules': map<int, string>)
    requires HopFits(input, com, interfaces, Hop(curr, ingress, after))
    ensures rules' == AppendHop(input, com, interfaces, rules, Hop(curr, ingress, after))
  {
    var bidirectional := com.direction == "bidirectional";
    if com.protocol == "tcp" {
      rules' := AddText(rules, curr, TcpUdpRule(input, com, curr, ingress, after, interfaces, bidirectional));
      AppendHopTcpUdp(input, com, interfaces, rules, curr, ingress, after);
    } else if com.protocol == "udp" {
      rules' := AddText(rules, curr, TcpUdpRule(input, com, curr, ingress, after, interfaces, bidirectional));
      AppendHopTcpUdp(input, com, interfaces, rules, curr, ingress, after);
    } else if com.protocol == "icmp" {
      rules' := AddText(rules, curr, IcmpRule(input, com, curr, ingress, after, interfaces, bidirectional));
      AppendHopIcmp(input, com, interfaces, rules, curr, ingress, after);
    } else {
      rules' := rules;
    }
  }

  /** At a tcp or udp hop, the walk back appends tcpUdpRule's text to the router's entry. */
  lemma AppendHopTcpUdp(input: Input, com: Communication, interfaces: seq<seq<string>>,
                        rules: map<int, string>, router: int, ingress: int, egress: int)
    requires HopFits(input, com, interfaces, Hop(router, ingress, egress))
    requires com.protocol == "tcp" || com.protocol == "udp"
    ensures AppendHop(input, com, interfaces, rules, Hop(router, ingress, egress))
            == AddText(rules, router,
                       TcpUdpRule(input, com, router, ingress, egress, interfaces, com.direction == "bidirectional"))
  {
  }

  /** At an icmp hop, the walk back appends icmpRule's text to the router's entry. */
  lemma AppendHopIcmp(input: Input, com: Communication, interfaces: seq<seq<string>>,
                      rules: map<int, string>, router: int, ingress: int, egress: int)
    requires HopFits(input, com, interfaces, Hop(router, ingress, egress))
    requires com.protocol == "icmp"
    ensures AppendHop(input, com, interfaces, rules, Hop(router, ingress, egress))
            == AddText(rules, router,
                       IcmpRule(input, com, router, ingress, egress, interfaces, com.direction == "bidirectional"))
  {
  }

  /** One communication: its search, then its walk back. */
  method ProcessCommunication(input: Input, rAdj: map<int, seq<int>>, sAdj: map<int, seq<int>>,
                              interfaces: seq<seq<string>>, rules: map<int, string>, com: Communication)
    returns (rules': map<int, string>, ghost hops: seq<Hop>)
    requires LinksWithin(input.net.links, |input.net.routers|, |input.net.subnets|)
    requires rAdj == RouterAdjacency(input.net.links) && sAdj == SubnetAdjacency(input.net.links)
    requires interfaces == InterfaceTable(input.net.links, |input.net.routers|, |input.net.subnets|)
    requires Routable(input.net, com)
    ensures RouteFor(input, interfaces, com, hops)
    ensures rules' == AppendHops(input, com, interfaces, rules, hops)
    // a flow inside one subnet passes no router and changes no rules
    ensures com.sourceSubnetId == com.targetSubnetId ==> rules' == rules
  {
    var routerParents, subnetParents;
    routerParents, subnetParents, hops := SearchFor(input, rAdj, sAdj, interfaces, com);
    rules' := WalkBack(input, com, interfaces, routerParents, subnetParents, rules, hops);
  }

  /** A rule map with an empty text for each of the routers 0 .. n-1 and no other key. */
  function EmptyRules(n: nat): (m: map<int, string>)
    ensures forall r :: r in m <==> 0 <= r < n
    ensures forall r :: r in m ==> m[r] == ""
  {
    if n == 0 then map[] else EmptyRules(n - 1)[n - 1 := ""]
  }

  /**
   * The whole scenario: build the topology, give every router an empty rule
   * text, then process the communications in order.
   */
  method CompileScenario(input: Input) returns (routersRule: map<int, string>, ghost routes: seq<seq<Hop>>)
    requires LinksInRange(input.net)
    requires forall i :: 0 <= i < |input.communications| ==> Routable(input.net, input.communications[i])
    ensures |routes| == |input.communications|
    ensures RoutesFor(input, InterfaceTable(input.net.links, |input.net.routers|, |input.net.subnets|),
                      input.communications, routes)
    ensures AllFit(input, InterfaceTable(input.net.links, |input.net.routers|, |input.net.subnets|),
                   input.communications, routes)
    ensures routersRule == AccumulateAll(input, InterfaceTable(input.net.links, |input.net.routers|, |input.net.subnets|),
                                         EmptyRules(|input.net.routers|), input.communications, routes)
    ensures forall r :: r in routersRule <==> 0 <= r < |input.net.routers|
    ensures forall r :: 0 <= r < |input.net.routers| && OffRoutes(routes, r) ==> routersRule[r] == ""
  {
    var rAdj, sAdj, interfaces := BuildTopology(input.net);
    var init := EmptyRuleMap(|input.net.routers|);
    routersRule, routes := ProcessAll(input, rAdj, sAdj, interfaces, init);
    forall r | 0 <= r < |input.net.routers| && OffRoutes(routes, r)
      ensures routersRule[r] == ""
    {
      AccumulateOffRoutes(input, interfaces, init, input.communications, routes, r);
    }
  }

  /** The loop that gives each router 0 .. n-1 an empty rule text. */
  method EmptyRuleMap(n: nat) returns (routersRule: map<int, string>)
    ensures routersRule == EmptyRules(n)
  {
    routersRule := map[];
    for i := 0 to n
      invariant routersRule == EmptyRules(i)
    {
      routersRule := routersRule[i := ""];
    }
  }

  /** The loop over the communications, in order, each one searched and walked back. */
  method ProcessAll(input: Input, rAdj: map<int, seq<int>>, sAdj: map<int, seq<int>>,
                    interfaces: seq<seq<string>>, init: map<int, string>)
    returns (routersRule: map<int, string>, ghost routes: seq<seq<Hop>>)
    requires LinksWithin(input.net.links, |input.net.routers|, |input.net.subnets|)
    requires rAdj == RouterAdjacency(input.net.links) && sAdj == SubnetAdjacency(input.net.links)
    requires interfaces == InterfaceTable(input.net.links, |input.net.routers|, |input.net.subnets|)
    requires forall i :: 0 <= i < |input.communications| ==> Routable(input.net, input.communications[i])
    requires forall r :: r in init <==> 0 <= r < |input.net.routers|
    ensures |routes| == |input.communications|
    ensures RoutesFor(input, interfaces, input.communications, routes)
    ensures AllFit(input, interfaces, input.communications, routes)
    ensures routersRule == AccumulateAll(input, interfaces, init, input.communications, routes)
    ensures forall r :: r in routersRule <==> 0 <= r < |input.net.routers|
  {
    var coms := input.communications;
    routersRule := init;
    routes := [];
    for i := 0 to |coms|
      invariant |routes| == i
      invariant RoutesFor(input, interfaces, coms, routes)
      invariant AllFit(input, interfaces, coms[..i], routes)
      invariant routersRule == AccumulateAll(input, interfaces, init, coms[..i], routes)
      invariant forall r :: r in routersRule <==> 0 <= r < |input.net.routers|
    {
      ghost var before := routersRule;
      ghost var hops;
      routersRule, hops := ProcessCommunication(input, rAdj, sAdj, interfaces, routersRule, coms[i]);
      AppendHopsKeys(input, coms[i], interfaces, before, hops);
      AccumulateStep(input, interfaces, init, coms, routes, hops, i);
      RoutesForSnoc(input, interfaces, coms, routes, hops);
      routes := routes + [hops];
    }
    assert coms[..|coms|] == coms;
  }
}
