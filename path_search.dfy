/**
 * The bookkeeping behind the proof of findPath: which nodes are marked, the
 * tree the parent pointers form, and the closure property that makes the
 * search complete. The lemmas here each take one step of the search.
 */
module SearchState {
  import opened Topology

  datatype Node = R(r: int) | S(s: int)

  ghost predicate Marked(vr: seq<bool>, vs: seq<bool>, n: Node) {
    match n
    case R(r) => 0 <= r < |vr| && vr[r]
    case S(s) => 0 <= s < |vs| && vs[s]
  }

  /** Marks are only ever added. */
  ghost predicate Grows(before: seq<bool>, after: seq<bool>) {
    |before| == |after| && forall i :: 0 <= i < |before| && before[i] ==> after[i]
  }

  /** The first `upto` subnets in xs are marked, or are the destination once it has been entered. */
  ghost predicate SubnetsCovered(xs: seq<int>, upto: int, vs: seq<bool>, dest: int, reached: bool) {
    forall j :: 0 <= j < upto && j < |xs| ==> (0 <= xs[j] < |vs| && vs[xs[j]]) || (xs[j] == dest && reached)
  }

  /** The first `upto` routers in xs are marked. */
  ghost predicate RoutersCovered(xs: seq<int>, upto: int, vr: seq<bool>) {
    forall j :: 0 <= j < upto && j < |xs| ==> 0 <= xs[j] < |vr| && vr[xs[j]]
  }

  /** Every neighbour of n is marked, or is the destination subnet and the destination has been entered. */
  ghost predicate Closed(rAdj: map<int, seq<int>>, sAdj: map<int, seq<int>>, vr: seq<bool>, vs: seq<bool>,
                         dest: int, reached: bool, n: Node)
  {
    match n
    case R(r) => SubnetsCovered(Neighbours(rAdj, r), |Neighbours(rAdj, r)|, vs, dest, reached)
    case S(s) => RoutersCovered(Neighbours(sAdj, s), |Neighbours(sAdj, s)|, vr)
  }

  /** Every node marked between (vr0, vs0) and (vr, vs) is closed. */
  ghost predicate NewClosed(rAdj: map<int, seq<int>>, sAdj: map<int, seq<int>>,
                            vr0: seq<bool>, vs0: seq<bool>, vr: seq<bool>, vs: seq<bool>, dest: int, reached: bool)
  {
    forall n :: Marked(vr, vs, n) && !Marked(vr0, vs0, n) ==> Closed(rAdj, sAdj, vr, vs, dest, reached, n)
  }

  /**
   * Parent pointers change only for nodes that went from unmarked to marked,
   * or for the exempt ones.
   */
  ghost predicate ParentFrame(v0: seq<bool>, v: seq<bool>, p0: seq<int>, p: seq<int>, exempt: set<int>) {
    && |v0| == |v| == |p0| == |p|
    && forall i {:trigger p[i]} :: 0 <= i < |p| && (v0[i] || (!v[i] && i !in exempt)) ==> p[i] == p0[i]
  }

  /** Router r's parent is a marked, shallower subnet that lists r among its neighbours. */
  ghost predicate RouterParentOK(sAdj: map<int, seq<int>>, vs: seq<bool>, rp: seq<int>, rd: seq<nat>, sd: seq<nat>,
                                 r: int)
  {
    && 0 <= r < |rp| && r < |rd|
    && 0 <= rp[r] < |vs| && rp[r] < |sd| && vs[rp[r]]
    && sd[rp[r]] < rd[r]
    && r in Neighbours(sAdj, rp[r])
  }

  /** Subnet s's parent is a marked, shallower router that lists s among its neighbours. */
  ghost predicate SubnetParentOK(rAdj: map<int, seq<int>>, vr: seq<bool>, sp: seq<int>, rd: seq<nat>, sd: seq<nat>,
                                 s: int)
  {
    && 0 <= s < |sp| && s < |sd|
    && 0 <= sp[s] < |vr| && sp[s] < |rd| && vr[sp[s]]
    && rd[sp[s]] < sd[s]
    && s in Neighbours(rAdj, sp[s])
  }

  /**
   * The search invariant: every marked router, and every marked subnet except
   * the root, has a good parent; once the destination has been entered, its
   * parent is a marked router next to it.
   */
  ghost predicate Tree(rAdj: map<int, seq<int>>, sAdj: map<int, seq<int>>,
                       vr: seq<bool>, vs: seq<bool>, rp: seq<int>, sp: seq<int>, rd: seq<nat>, sd: seq<nat>,
                       root: int, dest: int, reached: bool)
  {
    && |rp| == |vr| && |rd| == |vr| && |sp| == |vs| && |sd| == |vs|
    && (forall r {:trigger RouterParentOK(sAdj, vs, rp, rd, sd, r)} ::
          0 <= r < |vr| && vr[r] ==> RouterParentOK(sAdj, vs, rp, rd, sd, r))
    && (forall s {:trigger SubnetParentOK(rAdj, vr, sp, rd, sd, s)} ::
          0 <= s < |vs| && vs[s] && s != root ==> SubnetParentOK(rAdj, vr, sp, rd, sd, s))
    && (reached ==>
          0 <= dest < |vs| && 0 <= sp[dest] < |vr| && vr[sp[dest]] && dest in Neighbours(rAdj, sp[dest]))
  }

  // ---------------------------------------------------------------------
  // One step of the search at a time
  // ---------------------------------------------------------------------

  /** Marking a router that already has a good parent keeps the tree. */
  lemma MarkRouter(rAdj: map<int, seq<int>>, sAdj: map<int, seq<int>>,
                   vr: seq<bool>, vs: seq<bool>, rp: seq<int>, sp: seq<int>, rd: seq<nat>, sd: seq<nat>,
                   root: int, dest: int, reached: bool, r: int)
    requires Tree(rAdj, sAdj, vr, vs, rp, sp, rd, sd, root, dest, reached)
    requires RouterParentOK(sAdj, vs, rp, rd, sd, r)
    ensures Tree(rAdj, sAdj, vr[r := true], vs, rp, sp, rd, sd, root, dest, reached)
  {
    forall s | 0 <= s < |vs| && vs[s] && s != root
      ensures SubnetParentOK(rAdj, vr[r := true], sp, rd, sd, s)
    {
      assert SubnetParentOK(rAdj, vr, sp, rd, sd, s);
    }
  }

  /** Marking the root, or a subnet that already has a good parent, keeps the tree. */
  lemma MarkSubnet(rAdj: map<int, seq<int>>, sAdj: map<int, seq<int>>,
                   vr: seq<bool>, vs: seq<bool>, rp: seq<int>, sp: seq<int>, rd: seq<nat>, sd: seq<nat>,
                   root: int, dest: int, reached: bool, s: int)
    requires Tree(rAdj, sAdj, vr, vs, rp, sp, rd, sd, root, dest, reached)
    requires 0 <= s < |vs|
    requires s == root || SubnetParentOK(rAdj, vr, sp, rd, sd, s)
    ensures Tree(rAdj, sAdj, vr, vs[s := true], rp, sp, rd, sd, root, dest, reached)
  {
    forall r | 0 <= r < |vr| && vr[r]
      ensures RouterParentOK(sAdj, vs[s := true], rp, rd, sd, r)
    {
      assert RouterParentOK(sAdj, vs, rp, rd, sd, r);
    }
  }

  /** Giving an unmarked subnet next to a marked router that router as parent keeps the tree. */
  lemma AdoptSubnet(rAdj: map<int, seq<int>>, sAdj: map<int, seq<int>>,
                    vr: seq<bool>, vs: seq<bool>, rp: seq<int>, sp: seq<int>, rd: seq<nat>, sd: seq<nat>,
                    root: int, dest: int, reached: bool, r: int, s: int)
    requires Tree(rAdj, sAdj, vr, vs, rp, sp, rd, sd, root, dest, reached)
    requires 0 <= r < |vr| && vr[r] && 0 <= s < |vs| && !vs[s] && s in Neighbours(rAdj, r)
    ensures Tree(rAdj, sAdj, vr, vs, rp, sp[s := r], rd, sd[s := rd[r] + 1], root, dest, reached)
    ensures SubnetParentOK(rAdj, vr, sp[s := r], rd, sd[s := rd[r] + 1], s)
  {
    forall x | 0 <= x < |vr| && vr[x]
      ensures RouterParentOK(sAdj, vs, rp, rd, sd[s := rd[r] + 1], x)
    {
      assert RouterParentOK(sAdj, vs, rp, rd, sd, x);
    }
    forall x | 0 <= x < |vs| && vs[x] && x != root
      ensures SubnetParentOK(rAdj, vr, sp[s := r], rd, sd[s := rd[r] + 1], x)
    {
      assert SubnetParentOK(rAdj, vr, sp, rd, sd, x);
    }
  }

  /** Giving an unmarked router next to a marked subnet that subnet as parent keeps the tree. */
  lemma AdoptRouter(rAdj: map<int, seq<int>>, sAdj: map<int, seq<int>>,
                    vr: seq<bool>, vs: seq<bool>, rp: seq<int>, sp: seq<int>, rd: seq<nat>, sd: seq<nat>,
                    root: int, dest: int, reached: bool, s: int, r: int)
    requires Tree(rAdj, sAdj, vr, vs, rp, sp, rd, sd, root, dest, reached)
    requires 0 <= s < |vs| && vs[s] && 0 <= r < |vr| && !vr[r] && r in Neighbours(sAdj, s)
    ensures Tree(rAdj, sAdj, vr, vs, rp[r := s], sp, rd[r := sd[s] + 1], sd, root, dest, reached)
    ensures RouterParentOK(sAdj, vs, rp[r := s], rd[r := sd[s] + 1], sd, r)
  {
    forall x | 0 <= x < |vr| && vr[x]
      ensures RouterParentOK(sAdj, vs, rp[r := s], rd[r := sd[s] + 1], sd, x)
    {
      assert RouterParentOK(sAdj, vs, rp, rd, sd, x);
    }
    forall x | 0 <= x < |vs| && vs[x] && x != root
      ensures SubnetParentOK(rAdj, vr, sp, rd[r := sd[s] + 1], sd, x)
    {
      assert SubnetParentOK(rAdj, vr, sp, rd, sd, x);
    }
  }

  lemma ClosedGrows(rAdj: map<int, seq<int>>, sAdj: map<int, seq<int>>, vr: seq<bool>, vs: seq<bool>,
                    vr': seq<bool>, vs': seq<bool>, dest: int, reached: bool, reached': bool, n: Node)
    requires Closed(rAdj, sAdj, vr, vs, dest, reached, n)
    requires Grows(vr, vr') && Grows(vs, vs') && (reached ==> reached')
    ensures Closed(rAdj, sAdj, vr', vs', dest, reached', n)
  {
  }

  /** Closure of the nodes marked before a child search survives it, and the child's own are added. */
  lemma NewClosedStep(rAdj: map<int, seq<int>>, sAdj: map<int, seq<int>>,
                      vr0: seq<bool>, vs0: seq<bool>, vr1: seq<bool>, vs1: seq<bool>, vr2: seq<bool>, vs2: seq<bool>,
                      dest: int, reached1: bool, reached2: bool)
    requires NewClosed(rAdj, sAdj, vr0, vs0, vr1, vs1, dest, reached1)
    requires NewClosed(rAdj, sAdj, vr1, vs1, vr2, vs2, dest, reached2)
    requires Grows(vr1, vr2) && Grows(vs1, vs2) && (reached1 ==> reached2)
    ensures NewClosed(rAdj, sAdj, vr0, vs0, vr2, vs2, dest, reached2)
  {
    forall n | Marked(vr2, vs2, n) && !Marked(vr0, vs0, n)
      ensures Closed(rAdj, sAdj, vr2, vs2, dest, reached2, n)
    {
      if Marked(vr1, vs1, n) {
        ClosedGrows(rAdj, sAdj, vr1, vs1, vr2, vs2, dest, reached1, reached2, n);
      }
    }
  }

  lemma SubnetsCoveredStep(xs: seq<int>, i: int, vs0: seq<bool>, vs: seq<bool>, dest: int, reached0: bool, reached: bool)
    requires 0 <= i < |xs|
    requires SubnetsCovered(xs, i, vs0, dest, reached0)
    requires Grows(vs0, vs) && (reached0 ==> reached)
    requires (0 <= xs[i] < |vs| && vs[xs[i]]) || (xs[i] == dest && reached)
    ensures SubnetsCovered(xs, i + 1, vs, dest, reached)
  {
  }

  lemma RoutersCoveredStep(xs: seq<int>, i: int, vr0: seq<bool>, vr: seq<bool>)
    requires 0 <= i < |xs|
    requires RoutersCovered(xs, i, vr0)
    requires Grows(vr0, vr)
    requires 0 <= xs[i] < |vr| && vr[xs[i]]
    ensures RoutersCovered(xs, i + 1, vr)
  {
  }

  lemma ParentFrameTrans(v0: seq<bool>, v1: seq<bool>, v2: seq<bool>, p0: seq<int>, p1: seq<int>, p2: seq<int>,
                         exempt: set<int>)
    requires ParentFrame(v0, v1, p0, p1, exempt) && ParentFrame(v1, v2, p1, p2, exempt)
    requires Grows(v0, v1) && Grows(v1, v2)
    ensures ParentFrame(v0, v2, p0, p2, exempt)
  {
  }

  /** A parent written for an unmarked node that the search then marks (or that is exempt) stays in frame. */
  lemma ParentFrameWrite(v: seq<bool>, v': seq<bool>, p: seq<int>, p': seq<int>, k: int, x: int, exempt: set<int>)
    requires 0 <= k < |p|
    requires ParentFrame(v, v', p[k := x], p', exempt)
    requires !v[k] && (v'[k] || k in exempt)
    ensures ParentFrame(v, v', p, p', exempt)
  {
  }

  function CountFalse(s: seq<bool>): nat {
    if |s| == 0 then 0 else CountFalse(s[..|s| - 1]) + (if s[|s| - 1] then 0 else 1)
  }

  lemma {:induction false} CountFalseGrows(a: seq<bool>, b: seq<bool>)
    requires Grows(a, b)
    ensures CountFalse(b) <= CountFalse(a)
    decreases |a|
  {
    if |a| > 0 {
      CountFalseGrows(a[..|a| - 1], b[..|b| - 1]);
    }
  }

  lemma {:induction false} CountFalseMark(a: seq<bool>, i: int)
    requires 0 <= i < |a| && !a[i]
    ensures CountFalse(a[i := true]) < CountFalse(a)
    decreases |a|
  {
    var n := |a| - 1;
    if i == n {
      assert a[i := true][..n] == a[..n];
    } else {
      assert a[i := true][..n] == a[..n][i := true];
      CountFalseMark(a[..n], i);
    }
  }

  /**
   * What a search call guarantees about the state it leaves, relative to the
   * state it started from: the tree invariant holds, marks only grow, the
   * destination stays unmarked, every node it marked is closed, and parent pointers changed only where nodes were newly marked
   * (or for the destination subnet).
   */
  ghost predicate Progress(rAdj: map<int, seq<int>>, sAdj: map<int, seq<int>>,
                           vr0: seq<bool>, vs0: seq<bool>, rp0: seq<int>, sp0: seq<int>,
                           vr: seq<bool>, vs: seq<bool>, rp: seq<int>, sp: seq<int>, rd: seq<nat>, sd: seq<nat>,
                           root: int, dest: int, reached0: bool, reached: bool)
  {
    && Tree(rAdj, sAdj, vr, vs, rp, sp, rd, sd, root, dest, reached)
    && (reached0 ==> reached)
    && Grows(vr0, vr) && Grows(vs0, vs)
    && (0 <= dest < |vs| ==> !vs[dest])
    && NewClosed(rAdj, sAdj, vr0, vs0, vr, vs, dest, reached)
    && ParentFrame(vr0, vr, rp0, rp, {})
    && ParentFrame(vs0, vs, sp0, sp, {dest})
  }

  /** The progress of two consecutive searches composes. */
  lemma ProgressTrans(rAdj: map<int, seq<int>>, sAdj: map<int, seq<int>>,
                      vr0: seq<bool>, vs0: seq<bool>, rp0: seq<int>, sp0: seq<int>,
                      vr1: seq<bool>, vs1: seq<bool>, rp1: seq<int>, sp1: seq<int>, rd1: seq<nat>, sd1: seq<nat>,
                      vr2: seq<bool>, vs2: seq<bool>, rp2: seq<int>, sp2: seq<int>, rd2: seq<nat>, sd2: seq<nat>,
                      root: int, dest: int, reached0: bool, reached1: bool, reached2: bool)
    requires Progress(rAdj, sAdj, vr0, vs0, rp0, sp0, vr1, vs1, rp1, sp1, rd1, sd1, root, dest, reached0, reached1)
    requires Progress(rAdj, sAdj, vr1, vs1, rp1, sp1, vr2, vs2, rp2, sp2, rd2, sd2, root, dest, reached1, reached2)
    ensures Progress(rAdj, sAdj, vr0, vs0, rp0, sp0, vr2, vs2, rp2, sp2, rd2, sd2, root, dest, reached0, reached2)
  {
    NewClosedStep(rAdj, sAdj, vr0, vs0, vr1, vs1, vr2, vs2, dest, reached1, reached2);
    ParentFrameTrans(vr0, vr1, vr2, rp0, rp1, rp2, {});
    ParentFrameTrans(vs0, vs1, vs2, sp0, sp1, sp2, {dest});
  }

  /** Once all its neighbours are covered, the router marked at the start of a search step joins the progress. */
  lemma CloseRouter(rAdj: map<int, seq<int>>, sAdj: map<int, seq<int>>,
                    vr0: seq<bool>, vs0: seq<bool>, rp0: seq<int>, sp0: seq<int>,
                    vr: seq<bool>, vs: seq<bool>, rp: seq<int>, sp: seq<int>, rd: seq<nat>, sd: seq<nat>,
                    root: int, dest: int, reached0: bool, reached: bool, r: int)
    requires 0 <= r < |vr0| && !vr0[r]
    requires Progress(rAdj, sAdj, vr0[r := true], vs0, rp0, sp0, vr, vs, rp, sp, rd, sd, root, dest, reached0, reached)
    requires Closed(rAdj, sAdj, vr, vs, dest, reached, R(r))
    ensures Progress(rAdj, sAdj, vr0, vs0, rp0, sp0, vr, vs, rp, sp, rd, sd, root, dest, reached0, reached)
  {
    forall n | Marked(vr, vs, n) && !Marked(vr0, vs0, n)
      ensures Closed(rAdj, sAdj, vr, vs, dest, reached, n)
    {
      if n != R(r) {
        assert !Marked(vr0[r := true], vs0, n);
      }
    }
  }

  /** Once all its neighbours are covered, the subnet marked at the start of a search step joins the progress. */
  lemma CloseSubnet(rAdj: map<int, seq<int>>, sAdj: map<int, seq<int>>,
                    vr0: seq<bool>, vs0: seq<bool>, rp0: seq<int>, sp0: seq<int>,
                    vr: seq<bool>, vs: seq<bool>, rp: seq<int>, sp: seq<int>, rd: seq<nat>, sd: seq<nat>,
                    root: int, dest: int, reached0: bool, reached: bool, s: int)
    requires 0 <= s < |vs0| && !vs0[s] && s != dest
    requires Progress(rAdj, sAdj, vr0, vs0[s := true], rp0, sp0, vr, vs, rp, sp, rd, sd, root, dest, reached0, reached)
    requires Closed(rAdj, sAdj, vr, vs, dest, reached, S(s))
    ensures Progress(rAdj, sAdj, vr0, vs0, rp0, sp0, vr, vs, rp, sp, rd, sd, root, dest, reached0, reached)
  {
    forall n | Marked(vr, vs, n) && !Marked(vr0, vs0, n)
      ensures Closed(rAdj, sAdj, vr, vs, dest, reached, n)
    {
      if n != S(s) {
        assert !Marked(vr0, vs0[s := true], n);
      }
    }
  }
}

/**
 * findPath: a recursive depth-first search over the bipartite router/subnet
 * graph. It writes visited flags and parent pointers into four arrays owned by
 * the caller and does not expand the destination subnet (it returns as soon as
 * it is entered, without marking it).
 *
 * Ghost bookkeeping threaded through the search: a depth for every node that
 * received a parent (parents are always strictly shallower), and whether the
 * destination has been entered. From these follow the two facts the
 * walk-back needs: the parent chain from the destination leads back to the
 * root without repeating a node, and, when the destination is connected to the
 * root at all, the search does enter it.
 */
module PathSearch {
  import opened Topology
  import opened SearchState

  // ---------------------------------------------------------------------
  // The search
  // ---------------------------------------------------------------------

  /**
   * findPath. Entering the destination subnet returns at once and changes
   * nothing. Otherwise the entered node is marked, and each unmarked neighbour
   * gets the node as its parent and is searched in turn. SearchRouter and
   * SearchSubnet are the two branches of the body, EnterSubnet and EnterRouter
   * the body of their loops.
   */
  method FindPath(rAdj: map<int, seq<int>>, sAdj: map<int, seq<int>>,
                  visitedRouters: array<bool>, visitedSubnets: array<bool>,
                  routerParents: array<int>, subnetParents: array<int>,
                  router: bool, source: int, dest: int,
                  ghost root: int, ghost rd: seq<nat>, ghost sd: seq<nat>, ghost reachedIn: bool)
    returns (ghost rd': seq<nat>, ghost sd': seq<nat>, ghost reached: bool)
    requires visitedRouters != visitedSubnets && routerParents != subnetParents
    requires AdjacencyInRange(rAdj, sAdj, visitedRouters.Length, visitedSubnets.Length)
    requires Tree(rAdj, sAdj, visitedRouters[..], visitedSubnets[..], routerParents[..], subnetParents[..],
                  rd, sd, root, dest, reachedIn)
    requires 0 <= dest < visitedSubnets.Length ==> !visitedSubnets[dest]
    requires root != dest || (!router && source == dest)
    requires router ==> 0 <= source < visitedRouters.Length && !visitedRouters[source]
                        && RouterParentOK(sAdj, visitedSubnets[..], routerParents[..], rd, sd, source)
    requires !router && source != dest ==> 0 <= source < visitedSubnets.Length && !visitedSubnets[source]
    requires !router && source != root ==> SubnetParentOK(rAdj, visitedRouters[..], subnetParents[..], rd, sd, source)
    modifies visitedRouters, visitedSubnets, routerParents, subnetParents
    decreases CountFalse(visitedRouters[..]) + CountFalse(visitedSubnets[..]), 1
    ensures Progress(rAdj, sAdj, old(visitedRouters[..]), old(visitedSubnets[..]), old(routerParents[..]),
                     old(subnetParents[..]), visitedRouters[..], visitedSubnets[..], routerParents[..], subnetParents[..],
                     rd', sd', root, dest, reachedIn, reached)
    // the node entered is marked, unless it is the destination subnet
    ensures router ==> visitedRouters[source]
    ensures !router && source != dest ==> visitedSubnets[source]
    // entering the destination changes nothing
    ensures !router && source == dest ==> reached == (reachedIn || source != root)
    ensures !router && source == dest ==> unchanged(visitedRouters, visitedSubnets, routerParents, subnetParents)
  {
    if source == dest && !router {
      rd', sd', reached := rd, sd, reachedIn || source != root;
      return;
    }
    if router {
      rd', sd', reached := SearchRouter(rAdj, sAdj, visitedRouters, visitedSubnets, routerParents, subnetParents,
                                        source, dest, root, rd, sd, reachedIn);
    } else {
      rd', sd', reached := SearchSubnet(rAdj, sAdj, visitedRouters, visitedSubnets, routerParents, subnetParents,
                                        source, dest, root, rd, sd, reachedIn);
    }
  }

  /** The router branch of findPath: mark the router, then search from each unmarked subnet on it. */
  method SearchRouter(rAdj: map<int, seq<int>>, sAdj: map<int, seq<int>>,
                      visitedRouters: array<bool>, visitedSubnets: array<bool>,
                      routerParents: array<int>, subnetParents: array<int>,
                      source: int, dest: int,
                      ghost root: int, ghost rd: seq<nat>, ghost sd: seq<nat>, ghost reachedIn: bool)
    returns (ghost rd': seq<nat>, ghost sd': seq<nat>, ghost reached: bool)
    requires visitedRouters != visitedSubnets && routerParents != subnetParents
    requires AdjacencyInRange(rAdj, sAdj, visitedRouters.Length, visitedSubnets.Length)
    requires Tree(rAdj, sAdj, visitedRouters[..], visitedSubnets[..], routerParents[..], subnetParents[..],
                  rd, sd, root, dest, reachedIn)
    requires 0 <= dest < visitedSubnets.Length ==> !visitedSubnets[dest]
    requires root != dest
    requires 0 <= source < visitedRouters.Length && !visitedRouters[source]
    requires RouterParentOK(sAdj, visitedSubnets[..], routerParents[..], rd, sd, source)
    modifies visitedRouters, visitedSubnets, routerParents, subnetParents
    decreases CountFalse(visitedRouters[..]) + CountFalse(visitedSubnets[..]), 0
    ensures Progress(rAdj, sAdj, old(visitedRouters[..]), old(visitedSubnets[..]), old(routerParents[..]),
                     old(subnetParents[..]), visitedRouters[..], visitedSubnets[..], routerParents[..], subnetParents[..],
                     rd', sd', root, dest, reachedIn, reached)
    ensures visitedRouters[source]
  {
    ghost var vr00, vs00, rp00, sp00 := visitedRouters[..], visitedSubnets[..], routerParents[..], subnetParents[..];
    ghost var entry := CountFalse(vr00) + CountFalse(vs00);
    rd', sd', reached := rd, sd, reachedIn;
    MarkRouter(rAdj, sAdj, vr00, vs00, rp00, sp00, rd, sd, root, dest, reachedIn, source);
    CountFalseMark(vr00, source);
    visitedRouters[source] := true;
    assert visitedRouters[..] == vr00[source := true];
    ghost var vr1, vs1 := visitedRouters[..], visitedSubnets[..];
    for i := 0 to |Neighbours(rAdj, source)|
      invariant visitedRouters[source]
      invariant Progress(rAdj, sAdj, vr1, vs1, rp00, sp00,
                         visitedRouters[..], visitedSubnets[..], routerParents[..], subnetParents[..],
                         rd', sd', root, dest, reachedIn, reached)
      invariant CountFalse(visitedRouters[..]) + CountFalse(visitedSubnets[..]) < entry
      invariant SubnetsCovered(Neighbours(rAdj, source), i, visitedSubnets[..], dest, reached)
    {
      var next := Neighbours(rAdj, source)[i];
      assert next in Neighbours(rAdj, source);
      ghost var vr0, vs0, rp0, sp0, reached0 := visitedRouters[..], visitedSubnets[..], routerParents[..], subnetParents[..], reached;
      ghost var rd0, sd0 := rd', sd';
      if !visitedSubnets[next] {
        rd', sd', reached := EnterSubnet(rAdj, sAdj, visitedRouters, visitedSubnets, routerParents, subnetParents,
                                         source, next, dest, root, rd', sd', reached);
        ProgressTrans(rAdj, sAdj, vr1, vs1, rp00, sp00, vr0, vs0, rp0, sp0, rd0, sd0,
                      visitedRouters[..], visitedSubnets[..], routerParents[..], subnetParents[..], rd', sd',
                      root, dest, reachedIn, reached0, reached);
        CountFalseGrows(vr0, visitedRouters[..]);
        CountFalseGrows(vs0, visitedSubnets[..]);
      }
      SubnetsCoveredStep(Neighbours(rAdj, source), i, vs0, visitedSubnets[..], dest, reached0, reached);
    }
    CloseRouter(rAdj, sAdj, vr00, vs00, rp00, sp00, visitedRouters[..], visitedSubnets[..], routerParents[..],
                subnetParents[..], rd', sd', root, dest, reachedIn, reached, source);
  }

  /** One step of the router branch: an unmarked subnet on the router gets it as parent and is searched. */
  method EnterSubnet(rAdj: map<int, seq<int>>, sAdj: map<int, seq<int>>,
                      visitedRouters: array<bool>, visitedSubnets: array<bool>,
                      routerParents: array<int>, subnetParents: array<int>,
                      parent: int, child: int, dest: int,
                      ghost root: int, ghost rd: seq<nat>, ghost sd: seq<nat>, ghost reachedIn: bool)
    returns (ghost rd': seq<nat>, ghost sd': seq<nat>, ghost reached: bool)
    requires visitedRouters != visitedSubnets && routerParents != subnetParents
    requires AdjacencyInRange(rAdj, sAdj, visitedRouters.Length, visitedSubnets.Length)
    requires Tree(rAdj, sAdj, visitedRouters[..], visitedSubnets[..], routerParents[..], subnetParents[..],
                  rd, sd, root, dest, reachedIn)
    requires 0 <= dest < visitedSubnets.Length ==> !visitedSubnets[dest]
    requires root != dest
    requires 0 <= parent < visitedRouters.Length && visitedRouters[parent]
    requires 0 <= child < visitedSubnets.Length && !visitedSubnets[child] && child in Neighbours(rAdj, parent)
    modifies visitedRouters, visitedSubnets, routerParents, subnetParents
    decreases CountFalse(visitedRouters[..]) + CountFalse(visitedSubnets[..]), 2
    ensures Progress(rAdj, sAdj, old(visitedRouters[..]), old(visitedSubnets[..]), old(routerParents[..]),
                     old(subnetParents[..]), visitedRouters[..], visitedSubnets[..], routerParents[..], subnetParents[..],
                     rd', sd', root, dest, reachedIn, reached)
    ensures visitedSubnets[child] || (child == dest && reached)
  {
    ghost var vr0, vs0, rp0, sp0 := visitedRouters[..], visitedSubnets[..], routerParents[..], subnetParents[..];
    AdoptSubnet(rAdj, sAdj, vr0, vs0, rp0, sp0, rd, sd, root, dest, reachedIn, parent, child);
    subnetParents[child] := parent;
    assert subnetParents[..] == sp0[child := parent];
    rd', sd', reached := FindPath(rAdj, sAdj, visitedRouters, visitedSubnets, routerParents, subnetParents,
                                  false, child, dest, root, rd, sd[child := rd[parent] + 1], reachedIn);
    ParentFrameWrite(vs0, visitedSubnets[..], sp0, subnetParents[..], child, parent, {dest});
  }

  /** The subnet branch of findPath: mark the subnet, then search from each unmarked router on it. */
  method SearchSubnet(rAdj: map<int, seq<int>>, sAdj: map<int, seq<int>>,
                      visitedRouters: array<bool>, visitedSubnets: array<bool>,
                      routerParents: array<int>, subnetParents: array<int>,
                      source: int, dest: int,
                      ghost root: int, ghost rd: seq<nat>, ghost sd: seq<nat>, ghost reachedIn: bool)
    returns (ghost rd': seq<nat>, ghost sd': seq<nat>, ghost reached: bool)
    requires visitedRouters != visitedSubnets && routerParents != subnetParents
    requires AdjacencyInRange(rAdj, sAdj, visitedRouters.Length, visitedSubnets.Length)
    requires Tree(rAdj, sAdj, visitedRouters[..], visitedSubnets[..], routerParents[..], subnetParents[..],
                  rd, sd, root, dest, reachedIn)
    requires 0 <= dest < visitedSubnets.Length ==> !visitedSubnets[dest]
    requires root != dest && source != dest
    requires 0 <= source < visitedSubnets.Length && !visitedSubnets[source]
    requires source != root ==> SubnetParentOK(rAdj, visitedRouters[..], subnetParents[..], rd, sd, source)
    modifies visitedRouters, visitedSubnets, routerParents, subnetParents
    decreases CountFalse(visitedRouters[..]) + CountFalse(visitedSubnets[..]), 0
    ensures Progress(rAdj, sAdj, old(visitedRouters[..]), old(visitedSubnets[..]), old(routerParents[..]),
                     old(subnetParents[..]), visitedRouters[..], visitedSubnets[..], routerParents[..], subnetParents[..],
                     rd', sd', root, dest, reachedIn, reached)
    ensures visitedSubnets[source]
  {
    ghost var vr00, vs00, rp00, sp00 := visitedRouters[..], visitedSubnets[..], routerParents[..], subnetParents[..];
    ghost var entry := CountFalse(vr00) + CountFalse(vs00);
    rd', sd', reached := rd, sd, reachedIn;
    MarkSubnet(rAdj, sAdj, vr00, vs00, rp00, sp00, rd, sd, root, dest, reachedIn, source);
    CountFalseMark(vs00, source);
    visitedSubnets[source] := true;
    assert visitedSubnets[..] == vs00[source := true];
    ghost var vr1, vs1 := visitedRouters[..], visitedSubnets[..];
    for i := 0 to |Neighbours(sAdj, source)|
      invariant visitedSubnets[source]
      invariant Progress(rAdj, sAdj, vr1, vs1, rp00, sp00,
                         visitedRouters[..], visitedSubnets[..], routerParents[..], subnetParents[..],
                         rd', sd', root, dest, reachedIn, reached)
      invariant CountFalse(visitedRouters[..]) + CountFalse(visitedSubnets[..]) < entry
      invariant RoutersCovered(Neighbours(sAdj, source), i, visitedRouters[..])
    {
      var next := Neighbours(sAdj, source)[i];
      assert next in Neighbours(sAdj, source);
      ghost var vr0, vs0, rp0, sp0, reached0 := visitedRouters[..], visitedSubnets[..], routerParents[..], subnetParents[..], reached;
      ghost var rd0, sd0 := rd', sd';
      if !visitedRouters[next] {
        rd', sd', reached := EnterRouter(rAdj, sAdj, visitedRouters, visitedSubnets, routerParents, subnetParents,
                                         source, next, dest, root, rd', sd', reached);
        ProgressTrans(rAdj, sAdj, vr1, vs1, rp00, sp00, vr0, vs0, rp0, sp0, rd0, sd0,
                      visitedRouters[..], visitedSubnets[..], routerParents[..], subnetParents[..], rd', sd',
                      root, dest, reachedIn, reached0, reached);
        CountFalseGrows(vr0, visitedRouters[..]);
        CountFalseGrows(vs0, visitedSubnets[..]);
      }
      RoutersCoveredStep(Neighbours(sAdj, source), i, vr0, visitedRouters[..]);
    }
    CloseSubnet(rAdj, sAdj, vr00, vs00, rp00, sp00, visitedRouters[..], visitedSubnets[..], routerParents[..],
                subnetParents[..], rd', sd', root, dest, reachedIn, reached, source);
  }

  /** One step of the subnet branch: an unmarked router on the subnet gets it as parent and is searched. */
  method EnterRouter(rAdj: map<int, seq<int>>, sAdj: map<int, seq<int>>,
                      visitedRouters: array<bool>, visitedSubnets: array<bool>,
                      routerParents: array<int>, subnetParents: array<int>,
                      parent: int, child: int, dest: int,
                      ghost root: int, ghost rd: seq<nat>, ghost sd: seq<nat>, ghost reachedIn: bool)
    returns (ghost rd': seq<nat>, ghost sd': seq<nat>, ghost reached: bool)
    requires visitedRouters != visitedSubnets && routerParents != subnetParents
    requires AdjacencyInRange(rAdj, sAdj, visitedRouters.Length, visitedSubnets.Length)
    requires Tree(rAdj, sAdj, visitedRouters[..], visitedSubnets[..], routerParents[..], subnetParents[..],
                  rd, sd, root, dest, reachedIn)
    requires 0 <= dest < visitedSubnets.Length ==> !visitedSubnets[dest]
    requires root != dest
    requires 0 <= parent < visitedSubnets.Length && visitedSubnets[parent]
    requires 0 <= child < visitedRouters.Length && !visitedRouters[child] && child in Neighbours(sAdj, parent)
    modifies visitedRouters, visitedSubnets, routerParents, subnetParents
    decreases CountFalse(visitedRouters[..]) + CountFalse(visitedSubnets[..]), 2
    ensures Progress(rAdj, sAdj, old(visitedRouters[..]), old(visitedSubnets[..]), old(routerParents[..]),
                     old(subnetParents[..]), visitedRouters[..], visitedSubnets[..], routerParents[..], subnetParents[..],
                     rd', sd', root, dest, reachedIn, reached)
    ensures visitedRouters[child]
  {
    ghost var vr0, vs0, rp0, sp0 := visitedRouters[..], visitedSubnets[..], routerParents[..], subnetParents[..];
    AdoptRouter(rAdj, sAdj, vr0, vs0, rp0, sp0, rd, sd, root, dest, reachedIn, parent, child);
    routerParents[child] := parent;
    assert routerParents[..] == rp0[child := parent];
    rd', sd', reached := FindPath(rAdj, sAdj, visitedRouters, visitedSubnets, routerParents, subnetParents,
                                  true, child, dest, root, rd[child := sd[parent] + 1], sd, reachedIn);
    ParentFrameWrite(vr0, visitedRouters[..], rp0, routerParents[..], child, parent, {});
  }

  // ---------------------------------------------------------------------
  // What the parent pointers say once the search is over
  // ---------------------------------------------------------------------

  /**
   * hops is what the walk-back reads from the parent arrays: starting at
   * target, each hop's router is the parent of the subnet it leaves onto and
   * its ingress is the parent of that router, and the walk stops at the first
   * subnet equal to source.
   */
  ghost predicate ParentChain(rp: seq<int>, sp: seq<int>, source: int, target: int, hops: seq<Hop>) {
    && Chained(source, target, hops)
    && forall k :: 0 <= k < |hops| ==>
         && 0 <= hops[k].egress < |sp| && hops[k].router == sp[hops[k].egress]
         && 0 <= hops[k].router < |rp| && hops[k].ingress == rp[hops[k].router]
         && hops[k].egress != source
  }

  /** One more hop in front of a walk-back chain that ends where the hop enters. */
  lemma ConsRoute(rAdj: map<int, seq<int>>, sAdj: map<int, seq<int>>, rp: seq<int>, sp: seq<int>,
                  root: int, h: Hop, rest: seq<Hop>)
    requires 0 <= h.egress < |sp| && h.router == sp[h.egress] && h.egress != root
    requires 0 <= h.router < |rp| && h.ingress == rp[h.router]
    requires h.router in Neighbours(sAdj, h.ingress) && h.egress in Neighbours(rAdj, h.router)
    requires ParentChain(rp, sp, root, h.ingress, rest) && AdjRoute(rAdj, sAdj, root, h.ingress, rest)
    ensures ParentChain(rp, sp, root, h.egress, [h] + rest) && AdjRoute(rAdj, sAdj, root, h.egress, [h] + rest)
  {
    var hops := [h] + rest;
    assert forall k :: 1 <= k < |hops| ==> hops[k] == rest[k - 1];
    if |rest| > 0 {
      assert hops[|hops| - 1] == rest[|rest| - 1];
    }
  }

  /**
   * A hop in front of a repetition-free walk-back chain keeps it
   * repetition-free when its router and its ingress are deeper than every
   * router and ingress of the chain, and the subnet it leaves onto is none of
   * the subnets the chain enters from. Exit subnets stay distinct because
   * each one's parent is its hop's router.
   */
  lemma ConsSimple(rp: seq<int>, sp: seq<int>, root: int, rd: seq<nat>, sd: seq<nat>, h: Hop, rest: seq<Hop>)
    requires 0 <= h.ingress < |sd| && 0 <= h.router < |rd| && sd[h.ingress] < rd[h.router]
    requires Simple(rest) && ParentChain(rp, sp, root, h.egress, [h] + rest)
    requires forall k :: 0 <= k < |rest| ==> 0 <= rest[k].router < |rd| && rd[rest[k].router] < sd[h.ingress]
    requires forall k :: 0 <= k < |rest| ==> 0 <= rest[k].ingress < |sd| && sd[rest[k].ingress] < sd[h.ingress]
    requires h.egress != h.ingress && forall k :: 0 <= k < |rest| ==> rest[k].ingress != h.egress
    ensures Simple([h] + rest)
  {
    var hops := [h] + rest;
    forall i, j | 0 <= i < j < |hops|
      ensures hops[i].router != hops[j].router && hops[i].ingress != hops[j].ingress
              && hops[i].egress != hops[j].egress
    {
      assert hops[j] == rest[j - 1];
      if i > 0 {
        assert hops[i] == rest[i - 1];
      }
    }
    forall i, j | 0 <= i <= j < |hops|
      ensures hops[i].egress != hops[j].ingress
    {
      if j > 0 {
        assert hops[j] == rest[j - 1];
      }
      if i > 0 {
        assert hops[i] == rest[i - 1];
      }
    }
  }

  /**
   * From a marked subnet, parent pointers lead back to the root without
   * repeating a router or a subnet: every node on the way is strictly
   * shallower than s.
   */
  lemma {:induction false} ChainFromSubnet(rAdj: map<int, seq<int>>, sAdj: map<int, seq<int>>,
                                           vr: seq<bool>, vs: seq<bool>, rp: seq<int>, sp: seq<int>,
                                           rd: seq<nat>, sd: seq<nat>, root: int, dest: int, reached: bool, s: int)
    returns (hops: seq<Hop>)
    requires Tree(rAdj, sAdj, vr, vs, rp, sp, rd, sd, root, dest, reached)
    requires 0 <= s < |vs| && vs[s]
    ensures ParentChain(rp, sp, root, s, hops) && AdjRoute(rAdj, sAdj, root, s, hops) && Simple(hops)
    ensures forall k :: 0 <= k < |hops| ==> 0 <= hops[k].router < |rd| && rd[hops[k].router] < sd[s]
    ensures forall k :: 0 <= k < |hops| ==> 0 <= hops[k].ingress < |sd| && sd[hops[k].ingress] < sd[s]
    ensures forall k :: 0 <= k < |hops| ==> 0 <= hops[k].ingress < |vs| && vs[hops[k].ingress]
    decreases sd[s]
  {
    if s == root {
      return [];
    }
    assert SubnetParentOK(rAdj, vr, sp, rd, sd, s);
    var r := sp[s];
    assert RouterParentOK(sAdj, vs, rp, rd, sd, r);
    var p := rp[r];
    var rest := ChainFromSubnet(rAdj, sAdj, vr, vs, rp, sp, rd, sd, root, dest, reached, p);
    ConsRoute(rAdj, sAdj, rp, sp, root, Hop(r, p, s), rest);
    ConsSimple(rp, sp, root, rd, sd, Hop(r, p, s), rest);
    hops := [Hop(r, p, s)] + rest;
  }

  /**
   * Once the destination has been entered (it is never marked itself), parent
   * pointers lead from it back to the root along a simple route.
   */
  lemma ChainToDest(rAdj: map<int, seq<int>>, sAdj: map<int, seq<int>>,
                    vr: seq<bool>, vs: seq<bool>, rp: seq<int>, sp: seq<int>,
                    rd: seq<nat>, sd: seq<nat>, root: int, dest: int)
    returns (hops: seq<Hop>)
    requires Tree(rAdj, sAdj, vr, vs, rp, sp, rd, sd, root, dest, true)
    requires dest != root && !vs[dest]
    ensures ParentChain(rp, sp, root, dest, hops) && AdjRoute(rAdj, sAdj, root, dest, hops) && Simple(hops)
  {
    var r := sp[dest];
    assert RouterParentOK(sAdj, vs, rp, rd, sd, r);
    var p := rp[r];
    var rest := ChainFromSubnet(rAdj, sAdj, vr, vs, rp, sp, rd, sd, root, dest, true, p);
    ConsRoute(rAdj, sAdj, rp, sp, root, Hop(r, p, dest), rest);
    ConsSimple(rp, sp, root, rd, sd, Hop(r, p, dest), rest);
    hops := [Hop(r, p, dest)] + rest;
  }

  /**
   * Completeness: when every marked node is closed, the route's source is
   * marked and the destination is not, the destination has been entered.
   * Walked from the source end of the route, hop k's router and the subnet
   * it leaves onto are reached in turn.
   */
  lemma {:induction false} ReachedAlong(rAdj: map<int, seq<int>>, sAdj: map<int, seq<int>>,
                                        vr0: seq<bool>, vs0: seq<bool>, vr: seq<bool>, vs: seq<bool>,
                                        source: int, dest: int, reached: bool, hops: seq<Hop>, k: int)
    requires NewClosed(rAdj, sAdj, vr0, vs0, vr, vs, dest, reached)
    requires forall n :: !Marked(vr0, vs0, n)
    requires 0 <= dest < |vs| && !vs[dest]
    requires AdjRoute(rAdj, sAdj, source, dest, hops)
    requires 0 <= k < |hops| && Marked(vr, vs, S(hops[k].ingress))
    ensures reached
    decreases k
  {
    var h := hops[k];
    assert Closed(rAdj, sAdj, vr, vs, dest, reached, S(h.ingress));
    var i :| 0 <= i < |Neighbours(sAdj, h.ingress)| && Neighbours(sAdj, h.ingress)[i] == h.router;
    assert Closed(rAdj, sAdj, vr, vs, dest, reached, R(h.router));
    var j :| 0 <= j < |Neighbours(rAdj, h.router)| && Neighbours(rAdj, h.router)[j] == h.egress;
    if !reached {
      assert k > 0;
      assert hops[k - 1].ingress == h.egress;
      ReachedAlong(rAdj, sAdj, vr0, vs0, vr, vs, source, dest, reached, hops, k - 1);
    }
  }

  /** A search from a clean state that marked the source enters every destination a route leads to. */
  lemma ReachesDest(rAdj: map<int, seq<int>>, sAdj: map<int, seq<int>>,
                    vr0: seq<bool>, vs0: seq<bool>, vr: seq<bool>, vs: seq<bool>,
                    source: int, dest: int, reached: bool, hops: seq<Hop>)
    requires NewClosed(rAdj, sAdj, vr0, vs0, vr, vs, dest, reached)
    requires forall n :: !Marked(vr0, vs0, n)
    requires 0 <= source < |vs| && vs[source]
    requires 0 <= dest < |vs| && !vs[dest]
    requires AdjRoute(rAdj, sAdj, source, dest, hops)
    ensures reached
  {
    ReachedAlong(rAdj, sAdj, vr0, vs0, vr, vs, source, dest, reached, hops, |hops| - 1);
  }
}
