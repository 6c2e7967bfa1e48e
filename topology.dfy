/**
 * The topology of a scenario: the router->subnets and subnet->routers
 * adjacency lists and the router x subnet table of interface names, built by
 * one pass over the links; and routes through that topology.
 *
 * Adjacency lists are maps from id to a list of ids; as with a Go map, a
 * missing key reads as the empty list (Neighbours).
 */
module Topology {
  import opened Scenario

  function Neighbours(adj: map<int, seq<int>>, k: int): seq<int> {
    if k in adj then adj[k] else []
  }

  // ---------------------------------------------------------------------
  // What the topology loop computes, link by link

  /** router -> subnets after processing `links` in order. */
  function RouterAdjacency(links: seq<Link>): map<int, seq<int>>
    decreases |links|
  {
    if |links| == 0 then map[]
    else
      var m := RouterAdjacency(links[..|links| - 1]);
      var l := links[|links| - 1];
      m[l.routerId := Neighbours(m, l.routerId) + [l.subnetId]]
  }

  /** subnet -> routers after processing `links` in order. */
  function SubnetAdjacency(links: seq<Link>): map<int, seq<int>>
    decreases |links|
  {
    if |links| == 0 then map[]
    else
      var m := SubnetAdjacency(links[..|links| - 1]);
      var l := links[|links| - 1];
      m[l.subnetId := Neighbours(m, l.subnetId) + [l.routerId]]
  }

  predicate LinksWithin(links: seq<Link>, nRouters: nat, nSubnets: nat) {
    forall k :: 0 <= k < |links| ==> 0 <= links[k].routerId < nRouters && 0 <= links[k].subnetId < nSubnets
  }

  /** An nRouters x nSubnets table of empty names. */
  function Blank(nRouters: nat, nSubnets: nat): seq<seq<string>> {
    seq(nRouters, _ => seq(nSubnets, _ => ""))
  }

  predicate IsTable(t: seq<seq<string>>, nRouters: nat, nSubnets: nat) {
    |t| == nRouters && forall i :: 0 <= i < |t| ==> |t[i]| == nSubnets
  }

  /** The interface table after writing the interface name of each link, in order, into its cell. */
  function InterfaceTable(links: seq<Link>, nRouters: nat, nSubnets: nat): (t: seq<seq<string>>)
    requires LinksWithin(links, nRouters, nSubnets)
    ensures IsTable(t, nRouters, nSubnets)
    decreases |links|
  {
    if |links| == 0 then Blank(nRouters, nSubnets)
    else
      var t := InterfaceTable(links[..|links| - 1], nRouters, nSubnets);
      var l := links[|links| - 1];
      t[l.routerId := t[l.routerId][l.subnetId := l.interfaceId]]
  }

  // ---------------------------------------------------------------------
  // Independent descriptions of the same tables

  /** Some link joins router r to subnet s. */
  ghost predicate Linked(links: seq<Link>, r: int, s: int) {
    exists k :: 0 <= k < |links| && links[k].routerId == r && links[k].subnetId == s
  }

  /** links[k] is the last link joining router r to subnet s. */
  ghost predicate LastLinkFor(links: seq<Link>, r: int, s: int, k: int) {
    && 0 <= k < |links| && links[k].routerId == r && links[k].subnetId == s
    && forall j :: k < j < |links| ==> !(links[j].routerId == r && links[j].subnetId == s)
  }

  /** The subnets of the links of router r, in link order. */
  function SubnetsOf(links: seq<Link>, r: int): seq<int> {
    if |links| == 0 then []
    else (if links[0].routerId == r then [links[0].subnetId] else []) + SubnetsOf(links[1..], r)
  }

  /** The routers of the links on subnet s, in link order. */
  function RoutersOn(links: seq<Link>, s: int): seq<int> {
    if |links| == 0 then []
    else (if links[0].subnetId == s then [links[0].routerId] else []) + RoutersOn(links[1..], s)
  }

  lemma {:induction false} SubnetsOfSnoc(links: seq<Link>, l: Link, r: int)
    ensures SubnetsOf(links + [l], r) == SubnetsOf(links, r) + (if l.routerId == r then [l.subnetId] else [])
    decreases |links|
  {
    if |links| > 0 {
      assert (links + [l])[1..] == links[1..] + [l];
      SubnetsOfSnoc(links[1..], l, r);
    } else {
      assert links + [l] == [l];
    }
  }

  lemma {:induction false} RoutersOnSnoc(links: seq<Link>, l: Link, s: int)
    ensures RoutersOn(links + [l], s) == RoutersOn(links, s) + (if l.subnetId == s then [l.routerId] else [])
    decreases |links|
  {
    if |links| > 0 {
      assert (links + [l])[1..] == links[1..] + [l];
      RoutersOnSnoc(links[1..], l, s);
    } else {
      assert links + [l] == [l];
    }
  }

  /** Each router's adjacency list holds the subnets of its links, in link order, with repeats. */
  lemma {:induction false} RouterAdjacencyLists(links: seq<Link>, r: int)
    ensures Neighbours(RouterAdjacency(links), r) == SubnetsOf(links, r)
    decreases |links|
  {
    if |links| > 0 {
      var init, l := links[..|links| - 1], links[|links| - 1];
      RouterAdjacencyLists(init, r);
      assert links == init + [l];
      SubnetsOfSnoc(init, l, r);
    }
  }

  /** Each subnet's adjacency list holds the routers of its links, in link order, with repeats. */
  lemma {:induction false} SubnetAdjacencyLists(links: seq<Link>, s: int)
    ensures Neighbours(SubnetAdjacency(links), s) == RoutersOn(links, s)
    decreases |links|
  {
    if |links| > 0 {
      var init, l := links[..|links| - 1], links[|links| - 1];
      SubnetAdjacencyLists(init, s);
      assert links == init + [l];
      RoutersOnSnoc(init, l, s);
    }
  }

  lemma {:induction false} InSubnetsOf(links: seq<Link>, r: int, s: int)
    ensures s in SubnetsOf(links, r) <==> Linked(links, r, s)
    decreases |links|
  {
    if |links| > 0 {
      InSubnetsOf(links[1..], r, s);
      if Linked(links[1..], r, s) {
        var k :| 0 <= k < |links[1..]| && links[1..][k].routerId == r && links[1..][k].subnetId == s;
        assert links[k + 1] == links[1..][k];
      }
      if Linked(links, r, s) {
        var k :| 0 <= k < |links| && links[k].routerId == r && links[k].subnetId == s;
        if k > 0 {
          assert links[1..][k - 1] == links[k];
        }
      }
    }
  }

  lemma {:induction false} InRoutersOn(links: seq<Link>, r: int, s: int)
    ensures r in RoutersOn(links, s) <==> Linked(links, r, s)
    decreases |links|
  {
    if |links| > 0 {
      InRoutersOn(links[1..], r, s);
      if Linked(links[1..], r, s) {
        var k :| 0 <= k < |links[1..]| && links[1..][k].routerId == r && links[1..][k].subnetId == s;
        assert links[k + 1] == links[1..][k];
      }
      if Linked(links, r, s) {
        var k :| 0 <= k < |links| && links[k].routerId == r && links[k].subnetId == s;
        if k > 0 {
          assert links[1..][k - 1] == links[k];
        }
      }
    }
  }

  /** Both adjacency maps record exactly the linked (router, subnet) pairs. */
  lemma AdjacencyIffLinked(links: seq<Link>, r: int, s: int)
    ensures s in Neighbours(RouterAdjacency(links), r) <==> Linked(links, r, s)
    ensures r in Neighbours(SubnetAdjacency(links), s) <==> Linked(links, r, s)
  {
    RouterAdjacencyLists(links, r);
    SubnetAdjacencyLists(links, s);
    InSubnetsOf(links, r, s);
    InRoutersOn(links, r, s);
  }

  /**
   * A cell of the interface table holds the interface name of the last link
   * for that (router, subnet) pair, and stays empty when there is none: later
   * links overwrite earlier ones and touch no other cell.
   */
  lemma {:induction false} InterfaceCell(links: seq<Link>, nRouters: nat, nSubnets: nat, r: int, s: int)
    requires LinksWithin(links, nRouters, nSubnets)
    requires 0 <= r < nRouters && 0 <= s < nSubnets
    ensures !Linked(links, r, s) ==> InterfaceTable(links, nRouters, nSubnets)[r][s] == ""
    ensures forall k :: LastLinkFor(links, r, s, k) ==>
              InterfaceTable(links, nRouters, nSubnets)[r][s] == links[k].interfaceId
    decreases |links|
  {
    if |links| > 0 {
      var n := |links| - 1;
      var init := links[..n];
      InterfaceCell(init, nRouters, nSubnets, r, s);
      forall k | LastLinkFor(links, r, s, k)
        ensures InterfaceTable(links, nRouters, nSubnets)[r][s] == links[k].interfaceId
      {
        if k < n {
          assert LastLinkFor(init, r, s, k);
        }
      }
    }
  }

  /** Every linked pair has a last link. */
  lemma LastLinkExists(links: seq<Link>, r: int, s: int) returns (k: int)
    requires Linked(links, r, s)
    ensures LastLinkFor(links, r, s, k)
  {
    k :| 0 <= k < |links| && links[k].routerId == r && links[k].subnetId == s;
    var j := k + 1;
    while j < |links|
      invariant k < j <= |links|
      invariant 0 <= k < |links| && links[k].routerId == r && links[k].subnetId == s
      invariant forall i :: k < i < j ==> !(links[i].routerId == r && links[i].subnetId == s)
    {
      if links[j].routerId == r && links[j].subnetId == s {
        k := j;
      }
      j := j + 1;
    }
  }

  /** All adjacency entries are valid positions: subnets after routers, routers after subnets. */
  ghost predicate AdjacencyInRange(rAdj: map<int, seq<int>>, sAdj: map<int, seq<int>>, nRouters: int, nSubnets: int) {
    && (forall r, x :: x in Neighbours(rAdj, r) ==> 0 <= x < nSubnets)
    && (forall s, x :: x in Neighbours(sAdj, s) ==> 0 <= x < nRouters)
  }

  lemma AdjacencyWithin(links: seq<Link>, nRouters: nat, nSubnets: nat)
    requires LinksWithin(links, nRouters, nSubnets)
    ensures AdjacencyInRange(RouterAdjacency(links), SubnetAdjacency(links), nRouters, nSubnets)
  {
    forall r, x | x in Neighbours(RouterAdjacency(links), r) ensures 0 <= x < nSubnets {
      AdjacencyIffLinked(links, r, x);
    }
    forall s, x | x in Neighbours(SubnetAdjacency(links), s) ensures 0 <= x < nRouters {
      AdjacencyIffLinked(links, x, s);
    }
  }

  // ---------------------------------------------------------------------
  // The imperative topology build

  /** makeMatrix: i rows of j empty names, each row made in turn. */
  method MakeMatrix(i: nat, j: nat) returns (matrix: seq<seq<string>>)
    ensures IsTable(matrix, i, j)
    ensures forall a, b :: 0 <= a < i && 0 <= b < j ==> matrix[a][b] == ""
  {
    matrix := seq(i, _ => []);
    for k := 0 to i
      invariant |matrix| == i
      invariant forall a :: 0 <= a < k ==> matrix[a] == seq(j, _ => "")
      invariant forall a :: k <= a < i ==> matrix[a] == []
    {
      matrix := matrix[k := seq(j, _ => "")];
    }
  }

  /**
   * The topology loop: for each link in order, append its subnet to its
   * router's list and its router to its subnet's list, and write its interface
   * name into the (router, subnet) cell of the interface table.
   */
  method BuildTopology(net: Network) returns (routers: map<int, seq<int>>, subnets: map<int, seq<int>>,
                                              interfaces: seq<seq<string>>)
    requires LinksInRange(net)
    ensures routers == RouterAdjacency(net.links)
    ensures subnets == SubnetAdjacency(net.links)
    ensures LinksWithin(net.links, |net.routers|, |net.subnets|)
    ensures interfaces == InterfaceTable(net.links, |net.routers|, |net.subnets|)
  {
    routers := map[];
    subnets := map[];
    var r := |net.routers|;
    var s := |net.subnets|;
    interfaces := MakeMatrix(r, s);
    assert forall a | 0 <= a < r :: interfaces[a] == Blank(r, s)[a];
    for i := 0 to |net.links|
      invariant LinksWithin(net.links[..i], r, s)
      invariant routers == RouterAdjacency(net.links[..i])
      invariant subnets == SubnetAdjacency(net.links[..i])
      invariant interfaces == InterfaceTable(net.links[..i], r, s)
    {
      var l := net.links[i];
      assert net.links[..i + 1][..i] == net.links[..i];
      routers := routers[l.routerId := Neighbours(routers, l.routerId) + [l.subnetId]];
      subnets := subnets[l.subnetId := Neighbours(subnets, l.subnetId) + [l.routerId]];
      interfaces := interfaces[l.routerId := interfaces[l.routerId][l.subnetId := l.interfaceId]];
    }
    assert net.links[..|net.links|] == net.links;
  }

  // ---------------------------------------------------------------------
  // Routes

  /** A router hop: the router, the subnet it is entered from and the subnet it leaves onto. */
  datatype Hop = Hop(router: int, ingress: int, egress: int)

  /**
   * hops, listed from the target end, lead from source to target: the first hop
   * leaves onto the target, every hop enters from the subnet the following hop
   * leaves onto, and the last hop enters from the source. No hops: source is target.
   */
  ghost predicate Chained(source: int, target: int, hops: seq<Hop>) {
    && (|hops| == 0 ==> source == target)
    && (|hops| > 0 ==> hops[0].egress == target && hops[|hops| - 1].ingress == source)
    && forall k :: 1 <= k < |hops| ==> hops[k - 1].ingress == hops[k].egress
  }

  /** A route over the links: every hop's router is linked to both subnets of the hop. */
  ghost predicate LinkRoute(links: seq<Link>, source: int, target: int, hops: seq<Hop>) {
    && Chained(source, target, hops)
    && forall k :: 0 <= k < |hops| ==>
         Linked(links, hops[k].router, hops[k].ingress) && Linked(links, hops[k].router, hops[k].egress)
  }

  /** A route along the adjacency lists, in the direction the search walks them. */
  ghost predicate AdjRoute(rAdj: map<int, seq<int>>, sAdj: map<int, seq<int>>, source: int, target: int,
                           hops: seq<Hop>)
  {
    && Chained(source, target, hops)
    && forall k :: 0 <= k < |hops| ==>
         hops[k].router in Neighbours(sAdj, hops[k].ingress) && hops[k].egress in Neighbours(rAdj, hops[k].router)
  }

  /**
   * No router and no subnet is passed twice: routers, entry subnets and exit
   * subnets are each distinct, and no hop leaves onto a subnet that it or a
   * hop nearer the source enters from (for a chained route, the subnets
   * target, ..., source are pairwise distinct).
   */
  ghost predicate Simple(hops: seq<Hop>) {
    && (forall i, j :: 0 <= i < j < |hops| ==>
          && hops[i].router != hops[j].router
          && hops[i].ingress != hops[j].ingress
          && hops[i].egress != hops[j].egress)
    && (forall i, j :: 0 <= i <= j < |hops| ==> hops[i].egress != hops[j].ingress)
  }

  /** A simple route from a subnet back to itself has no hops. */
  lemma SimpleSelfRouteEmpty(s: int, hops: seq<Hop>)
    requires Chained(s, s, hops) && Simple(hops)
    ensures hops == []
  {
  }

  /**
   * On the tree S0 - R1 - S1 - R0 (router 1 joins subnets 0 and 1, router 0
   * hangs off subnet 1), the only simple route from subnet 0 to subnet 1 is
   * the single hop through router 1: router 0 is on no such route.
   */
  lemma {:induction false} SmallTreeRouteUnique(links: seq<Link>, hops: seq<Hop>)
    requires links == [Link(1, "eth0", "", 0), Link(1, "eth1", "", 1), Link(0, "eth0", "", 1)]
    requires LinkRoute(links, 0, 1, hops) && Simple(hops)
    ensures hops == [Hop(1, 0, 1)]
  {
    assert Linked(links, hops[0].router, hops[0].egress) && Linked(links, hops[0].router, hops[0].ingress);
  }

  /** Over the built adjacency, routes along the lists are exactly routes over the links. */
  lemma AdjRouteIffLinkRoute(links: seq<Link>, source: int, target: int, hops: seq<Hop>)
    ensures AdjRoute(RouterAdjacency(links), SubnetAdjacency(links), source, target, hops)
            <==> LinkRoute(links, source, target, hops)
  {
    var rAdj, sAdj := RouterAdjacency(links), SubnetAdjacency(links);
    forall k | 0 <= k < |hops|
      ensures (hops[k].router in Neighbours(sAdj, hops[k].ingress) && hops[k].egress in Neighbours(rAdj, hops[k].router))
              <==> (Linked(links, hops[k].router, hops[k].ingress) && Linked(links, hops[k].router, hops[k].egress))
    {
      AdjacencyIffLinked(links, hops[k].router, hops[k].ingress);
      AdjacencyIffLinked(links, hops[k].router, hops[k].egress);
    }
  }
}
