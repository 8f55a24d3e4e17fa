/**
  The data plane that the vxlan2 plan sets up: a packet to a pod is routed to a gateway, the
  gateway resolved to a MAC, and the MAC forwarded to a node address.
 */
module VxlanDelivery {
  import opened Options
  import opened Addresses
  import opened Nodes
  import opened Sequences
  import opened KernelTables
  import opened VxlanPlanner
  import Neighbours
  import Routes

  /** Disjoint IPv4 pod networks and different addresses. */
  ghost predicate Cluster(all: seq<NodeValue>) {
    && (forall v :: v in all ==> Planable(v) && IsCidr4(Cidr(v)))
    && (forall i, j :: 0 <= i < j < |all| ==> Disjoint(Cidr(all[i]), Cidr(all[j])) && all[i].address != all[j].address)
  }

  /** No peer's address is the base of a peer's pod network; the code indexes both kinds of entry by these IPs. */
  ghost predicate NoAddressIsBase(peers: seq<NodeValue>)
    requires AllRoutable(peers)
  {
    forall v, w :: v in peers && w in peers ==> v.address != Some(Cidr(w).ip)
  }

  lemma ClusterApart(all: seq<NodeValue>, v: NodeValue, w: NodeValue)
    requires Cluster(all) && v in all && w in all && v != w
    ensures v.address != w.address && Disjoint(Cidr(v), Cidr(w)) && Cidr(v).ip != Cidr(w).ip
  {
    hide InPrefix;
    var i :| 0 <= i < |all| && all[i] == v;
    var j :| 0 <= j < |all| && all[j] == w;
    if i < j {
      DisjointBases(Cidr(all[i]), Cidr(all[j]));
    } else {
      DisjointBases(Cidr(all[j]), Cidr(all[i]));
    }
  }

  // ----- the plan is free of clashes -----

  lemma PrefixCluster(me: NodeValue, init: seq<NodeValue>, last: NodeValue)
    requires Cluster([me] + (init + [last]))
    ensures Cluster([me] + init)
    ensures forall r :: r in init ==> r != last
    ensures last != me
  {
    hide InPrefix, IsCidr4;
    var all, part := [me] + (init + [last]), [me] + init;
    assert forall i :: 0 <= i < |part| ==> part[i] == all[i];
    assert forall v :: v in part ==> v in all;
    assert all[|all| - 1] == last && all[0] == me;
    forall r | r in init ensures r != last {
      var i :| 0 <= i < |init| && init[i] == r;
      assert all[i + 1] == r;
    }
  }

  /** Every planned entry has an IP and a kernel key of its own. */
  lemma {:induction false} NeighPlanDistinct(link: int, me: NodeValue, peers: seq<NodeValue>)
    requires Cluster([me] + peers) && AllRoutable(peers) && NoAddressIsBase(peers)
    ensures Neighbours.DistinctEntries(NeighPlan(link, peers))
    decreases |peers|
  {
    hide InPrefix, IsCidr4;
    if peers != [] {
      var init, last := peers[..|peers| - 1], peers[|peers| - 1];
      assert peers == init + [last];
      PrefixCluster(me, init, last);
      NeighPlanDistinct(link, me, init);
      var before, arp, fdb := NeighPlan(link, init), ArpFor(link, last), FdbFor(link, last);
      assert last in [me] + peers;
      forall n | n in before
        ensures n.ip != arp.ip && n.ip != fdb.ip && Neighbours.KeyOf(n) != Neighbours.KeyOf(arp) &&
                Neighbours.KeyOf(n) != Neighbours.KeyOf(fdb)
      {
        NeighMembers(link, init);
        var r :| r in init && (n == ArpFor(link, r) || n == FdbFor(link, r));
        assert r in [me] + peers;
        ClusterApart([me] + peers, r, last);
      }
      assert NeighPlan(link, peers) == before + [arp, fdb];
      SnocEntries(before, arp, fdb);
    }
  }

  lemma SnocEntries(s: seq<Neighbours.Neigh>, x: Neighbours.Neigh, y: Neighbours.Neigh)
    requires Neighbours.DistinctEntries(s) && x.ip.Some? && y.ip.Some?
    requires x.ip != y.ip && Neighbours.KeyOf(x) != Neighbours.KeyOf(y)
    requires forall n :: n in s ==> n.ip != x.ip && n.ip != y.ip
    requires forall n :: n in s ==>
               Neighbours.KeyOf(n) != Neighbours.KeyOf(x) && Neighbours.KeyOf(n) != Neighbours.KeyOf(y)
    ensures Neighbours.DistinctEntries(s + [x, y])
  {
    var t := s + [x, y];
    forall i, j | 0 <= i < j < |t| ensures t[i].ip != t[j].ip && Neighbours.KeyOf(t[i]) != Neighbours.KeyOf(t[j]) {
      if i < |s| && |s| <= j {
        assert t[i] in s;
      }
    }
  }

  lemma {:induction false} RoutePlanGood(link: int, me: NodeValue, peers: seq<NodeValue>)
    requires Cluster([me] + peers) && AllRoutable(peers)
    ensures Routes.GoodExpected(RoutePlan(link, peers), Some(link))
    decreases |peers|
  {
    hide Cluster, Disjoint, InPrefix, IsCidr4;
    if peers != [] {
      var init, last := peers[..|peers| - 1], peers[|peers| - 1];
      assert peers == init + [last];
      PrefixCluster(me, init, last);
      RoutePlanGood(link, me, init);
      var before := RoutePlan(link, init);
      forall e | e in before ensures e.dst != last.podCIDR {
        RouteMembers(link, init);
        var r :| r in init && e == RouteFor(link, r);
        OtherNetwork(me, peers, r, last);
      }
      Routes.GoodSnoc(before, RouteFor(link, last), Some(link));
    }
  }

  /** Whatever the peers are like, planned routes to one destination have one kernel key. */
  lemma RoutePlanPlain(link: int, peers: seq<NodeValue>)
    requires AllRoutable(peers)
    ensures Routes.PlainExpected(RoutePlan(link, peers), Some(link))
  {
    hide RoutePlan;
    RouteMembers(link, peers);
  }

  lemma OtherNetwork(me: NodeValue, peers: seq<NodeValue>, r: NodeValue, s: NodeValue)
    requires Cluster([me] + peers) && r in peers && s in peers && r != s
    ensures r.podCIDR != s.podCIDR
  {
    hide InPrefix, IsCidr4;
    assert r in [me] + peers && s in [me] + peers;
    ClusterApart([me] + peers, r, s);
  }

  // ----- the path of a packet -----

  /** The route applies to destination `a`; a route without destination applies to all. */
  predicate Covers(r: Routes.Route, a: bv32) {
    r.dst.None? || Contains(r.dst.value, a)
  }

  function PrefixLen(r: Routes.Route): bv8 {
    if r.dst.None? then 0 else r.dst.value.mask.ones
  }

  /** Longest prefix match. */
  ghost predicate Best(fib: Routes.Fib, k: Routes.FibKey, a: bv32) {
    && k in fib && Covers(fib[k], a)
    && forall l :: l in fib && Covers(fib[l], a) ==> PrefixLen(fib[l]) <= PrefixLen(fib[k])
  }

  /**
    The kernel sends packets along the route to its gateway: a unicast route (type 1) of the main table (254)
    with universe scope (0), one path, and a gateway that is on the link by flag (4).
   */
  predicate Carries(route: Routes.Route) {
    route.kind == 1 && route.table == 254 && route.scope == 0 && route.multipath == [] && route.flags / 4 % 2 == 1
  }

  /** The kernel takes the MAC from the entry without asking: an IPv4 unicast entry (2, 1), permanent (0x80). */
  predicate Resolves(n: Neighbours.Neigh) {
    n.family == 2 && n.kind == 1 && n.state / 0x80 % 2 == 1
  }

  /** The device forwards by the entry: a bridge entry (7), permanent (0x80), of the device itself (flag 2). */
  predicate Forwards(n: Neighbours.Neigh) {
    n.family == 7 && n.state / 0x80 % 2 == 1 && n.flags / 2 % 2 == 1
  }

  /** Where the device sends a packet that the route gives it: gateway, MAC, node address. */
  function Forward(route: Routes.Route, neigh: Neighbours.NeighTable): Option<IP> {
    var arp := Neighbours.NeighKey.Arp(route.linkIndex, route.gw);
    if !Carries(route) || route.gw.None? || arp !in neigh || !Resolves(neigh[arp]) then None else
      var fdb := Neighbours.NeighKey.Fdb(route.linkIndex, neigh[arp].mac);
      if fdb !in neigh || !Forwards(neigh[fdb]) then None else neigh[fdb].ip
  }

  /** Other links' routes to `a`, and routes without destination, are less specific than the peer's network. */
  ghost predicate OthersShorter(fib: Routes.Fib, link: int, r: NodeValue, a: bv32)
    requires Planable(r)
  {
    forall k :: k in fib && fib[k].linkIndex != link && Covers(fib[k], a) ==> PrefixLen(fib[k]) < Cidr(r).mask.ones
  }

  /** The gateway of a peer resolves to the bytes 00:53 and those of the pod network's base address. */
  ghost predicate HasMac(link: int, r: NodeValue, neigh: Neighbours.NeighTable)
    requires Routable(r)
  {
    var arp := Neighbours.NeighKey.Arp(link, Some(Cidr(r).ip));
    arp in neigh && MacBytes(neigh[arp].mac) == [0x00, 0x53] + Octets(Cidr(r).ip.addr)
  }

  /** The planned entries of a peer lead from its gateway to its address. */
  lemma ForwardReaches(link: int, peers: seq<NodeValue>, r: NodeValue, neigh: Neighbours.NeighTable,
                       before: Neighbours.NeighTable)
    requires AllRoutable(peers) && r in peers
    requires Neighbours.Overlaid(neigh, before, NeighPlan(link, peers))
    ensures Forward(RouteFor(link, r), neigh) == r.address
    ensures HasMac(link, r, neigh)
  {
    NeighMembers(link, peers);
    assert ArpFor(link, r) in NeighPlan(link, peers) && FdbFor(link, r) in NeighPlan(link, peers);
    assert Neighbours.KeyOf(ArpFor(link, r)) == Neighbours.NeighKey.Arp(link, Some(Cidr(r).ip));
    assert Neighbours.KeyOf(FdbFor(link, r)) == Neighbours.NeighKey.Fdb(link, MacOf(r));
    MacBytesOf(Cidr(r).ip.addr);
  }

  /** On the link, only the owner's route covers a pod address with a positive prefix length. */
  lemma OnlyOwnerCovers(link: int, me: NodeValue, peers: seq<NodeValue>, r: NodeValue, a: bv32, e: Routes.Route)
    requires Cluster([me] + peers) && AllRoutable(peers) && r in peers && Contains(Cidr(r), a)
    requires e in RoutePlan(link, peers) && Covers(e, a)
    ensures e == RouteFor(link, r)
  {
    hide InPrefix, IsCidr4;
    RouteMembers(link, peers);
    var x :| x in peers && e == RouteFor(link, x);
    assert x in [me] + peers && r in [me] + peers;
    if x != r {
      ClusterApart([me] + peers, x, r);
    }
  }

  /** Any other route to a pod address is less specific than its owner's. */
  lemma OthersLessSpecific(link: int, me: NodeValue, peers: seq<NodeValue>, r: NodeValue, a: bv32,
                           fib: Routes.Fib, before: Routes.Fib, l: Routes.FibKey)
    requires Cluster([me] + peers) && AllRoutable(peers) && r in peers && Contains(Cidr(r), a)
    requires Routes.WellKeyed(fib) && Routes.WellKeyed(before) &&
             Routes.LinkHolds(fib, before, Some(link), RoutePlan(link, peers))
    requires OthersShorter(before, link, r, a)
    requires l in fib && Covers(fib[l], a) && l != Routes.KeyOf(RouteFor(link, r))
    ensures PrefixLen(fib[l]) < Cidr(r).mask.ones
  {
    hide Cluster, Disjoint, Contains, InPrefix, IsCidr4, RoutePlan;
    if fib[l] in RoutePlan(link, peers) {
      OnlyOwnerCovers(link, me, peers, r, a, fib[l]);
    } else {
      PeerPrefixPositive(me, peers, r);
    }
  }

  /** `k` is the one longest prefix match for `a`. */
  ghost predicate OnlyBest(fib: Routes.Fib, k: Routes.FibKey, a: bv32) {
    forall l :: Best(fib, l, a) <==> l == k
  }

  /** A route that covers an address and beats every other that does is the only best one. */
  lemma StrictlyBest(fib: Routes.Fib, k: Routes.FibKey, a: bv32)
    requires k in fib && Covers(fib[k], a)
    requires forall l :: l in fib && l != k && Covers(fib[l], a) ==> PrefixLen(fib[l]) < PrefixLen(fib[k])
    ensures OnlyBest(fib, k, a)
  {
    hide Covers;
  }

  /** A route at least as specific as the only best one is that one. */
  lemma BestBeats(fib: Routes.Fib, k: Routes.FibKey, l: Routes.FibKey, a: bv32)
    requires OnlyBest(fib, k, a) && l in fib && Covers(fib[l], a)
    ensures k in fib && (PrefixLen(fib[k]) <= PrefixLen(fib[l]) ==> l == k)
  {
    hide Covers;
    assert Best(fib, k, a);
    if PrefixLen(fib[k]) <= PrefixLen(fib[l]) {
      assert Best(fib, l, a);
    }
  }

  lemma OwnerBeatsShorter(link: int, me: NodeValue, peers: seq<NodeValue>, r: NodeValue, a: bv32, fib: Routes.Fib,
                          before: Routes.Fib)
    requires Cluster([me] + peers) && AllRoutable(peers) && r in peers && Contains(Cidr(r), a)
    requires Routes.WellKeyed(fib) && Routes.WellKeyed(before) &&
             Routes.LinkHolds(fib, before, Some(link), RoutePlan(link, peers))
    requires OthersShorter(before, link, r, a)
    ensures OnlyBest(fib, Routes.KeyOf(RouteFor(link, r)), a)
  {
    hide Cluster, Contains, RoutePlan, OthersShorter, OnlyBest, Routes.WellKeyed, Routes.LinkHolds;
    HeldRoute(link, peers, r, fib, before);
    forall l | l in fib && l != Routes.KeyOf(RouteFor(link, r)) && Covers(fib[l], a)
      ensures PrefixLen(fib[l]) < Cidr(r).mask.ones
    {
      OthersLessSpecific(link, me, peers, r, a, fib, before, l);
    }
    StrictlyBest(fib, Routes.KeyOf(RouteFor(link, r)), a);
  }

  lemma OnlyBestMeansShorter(link: int, peers: seq<NodeValue>, r: NodeValue, a: bv32, fib: Routes.Fib,
                             before: Routes.Fib)
    requires AllRoutable(peers) && r in peers
    requires Routes.LinkHolds(fib, before, Some(link), RoutePlan(link, peers)) &&
             OnlyBest(fib, Routes.KeyOf(RouteFor(link, r)), a)
    ensures OthersShorter(before, link, r, a)
  {
    hide RoutePlan, OnlyBest, Contains;
    HeldRoute(link, peers, r, fib, before);
    forall k | k in before && before[k].linkIndex != link && Covers(before[k], a)
      ensures PrefixLen(before[k]) < Cidr(r).mask.ones
    {
      assert k in fib && fib[k] == before[k];
      BestBeats(fib, Routes.KeyOf(RouteFor(link, r)), k, a);
    }
  }

  /**
    The owner's route is the only best one to a pod address if and only if the other links' routes to
    it are less specific.
   */
  lemma OwnerIsBest(link: int, me: NodeValue, peers: seq<NodeValue>, r: NodeValue, a: bv32, fib: Routes.Fib,
                    before: Routes.Fib)
    requires Cluster([me] + peers) && AllRoutable(peers) && r in peers && Contains(Cidr(r), a)
    requires Routes.WellKeyed(fib) && Routes.WellKeyed(before) &&
             Routes.LinkHolds(fib, before, Some(link), RoutePlan(link, peers))
    ensures OnlyBest(fib, Routes.KeyOf(RouteFor(link, r)), a) <==> OthersShorter(before, link, r, a)
  {
    hide Cluster, Contains, RoutePlan, OthersShorter, OnlyBest, Routes.WellKeyed, Routes.LinkHolds;
    if OthersShorter(before, link, r, a) {
      OwnerBeatsShorter(link, me, peers, r, a, fib, before);
    }
    if OnlyBest(fib, Routes.KeyOf(RouteFor(link, r)), a) {
      OnlyBestMeansShorter(link, peers, r, a, fib, before);
    }
  }

  /** With a second node around, no pod network is the whole address space. */
  lemma PeerPrefixPositive(me: NodeValue, peers: seq<NodeValue>, r: NodeValue)
    requires Cluster([me] + peers) && r in peers && Planable(r)
    ensures 0 < Cidr(r).mask.ones
  {
    hide InPrefix;
    var all := [me] + peers;
    var i :| 0 <= i < |peers| && peers[i] == r;
    assert all[0] == me && all[i + 1] == r && me in all && r in all;
    DisjointIsProper(Cidr(me), Cidr(r));
  }

  /** No route with a destination that is left on the link overlaps the local pod network. */
  lemma LocalPodsUntouched(link: int, me: NodeValue, peers: seq<NodeValue>, fib: Routes.Fib, before: Routes.Fib,
                           k: Routes.FibKey)
    requires Cluster([me] + peers) && AllRoutable(peers) && Planable(me)
    requires Routes.WellKeyed(fib) && Routes.LinkHolds(fib, before, Some(link), RoutePlan(link, peers))
    requires k in fib && fib[k].linkIndex == link && k.dst.Some?
    ensures Disjoint(k.dst.value, Cidr(me))
  {
    hide InPrefix, IsCidr4;
    RouteMembers(link, peers);
    var r :| r in peers && fib[k] == RouteFor(link, r);
    var all := [me] + peers;
    var i :| 0 <= i < |peers| && peers[i] == r;
    assert all[0] == me && all[i + 1] == r;
  }

  /**
    End-to-end delivery.  From any neighbour table and any forwarding table with one route per
    destination on the link, a completed application gives every peer a route over which gateway,
    ARP entry, MAC and forwarding entry lead to the peer's address.  That route is the one longest
    prefix match for a pod address of the peer if and only if no other link's route to the address
    is as specific.
   */
  lemma Delivery(link: int, me: NodeValue, peers: seq<NodeValue>, neigh: Neighbours.NeighTable, fib: Routes.Fib,
                 neighOps: seq<Neighbours.NeighOp>, fibOps: seq<Routes.FibOp>, r: NodeValue, a: bv32)
    requires Cluster([me] + peers) && AllRoutable(peers) && NoAddressIsBase(peers)
    requires Routes.WellKeyed(fib) && Routes.UniqueDsts(fib, Some(link))
    requires Neighbours.Plan(neigh, NeighPlan(link, peers), neighOps)
    requires Routes.Plan(fib, Some(link), RoutePlan(link, peers), true, fibOps) && Accepted(fib, fibOps)
    requires r in peers && Contains(Cidr(r), a)
    ensures var k := Routes.FibKey(r.podCIDR, 0, 0);
            && k in Exec(fib, fibOps) && Covers(Exec(fib, fibOps)[k], a) && Exec(fib, fibOps)[k].protocol == 3
            && Forward(Exec(fib, fibOps)[k], Exec(neigh, neighOps)) == r.address
            && HasMac(link, r, Exec(neigh, neighOps))
            && (OnlyBest(Exec(fib, fibOps), k, a) <==> OthersShorter(fib, link, r, a))
  {
    hide Cluster, NeighPlan, RoutePlan, Neighbours.Plan, Neighbours.Overlaid, Routes.Plan,
      Routes.LinkHolds, Routes.UniqueDsts, Routes.WellKeyed, NoAddressIsBase, Exec, Accepted, Forward, HasMac, OnlyBest,
      OthersShorter, Contains;
    Applied(link, me, peers, neigh, fib, neighOps, fibOps);
    OwnerIsBest(link, me, peers, r, a, Exec(fib, fibOps), fib);
    ForwardReaches(link, peers, r, Exec(neigh, neighOps), neigh);
    HeldRoute(link, peers, r, Exec(fib, fibOps), fib);
  }

  lemma HeldRoute(link: int, peers: seq<NodeValue>, r: NodeValue, fib: Routes.Fib, before: Routes.Fib)
    requires AllRoutable(peers) && r in peers && Routes.LinkHolds(fib, before, Some(link), RoutePlan(link, peers))
    ensures Routes.KeyOf(RouteFor(link, r)) in fib && fib[Routes.KeyOf(RouteFor(link, r))] == RouteFor(link, r)
  {
    hide RoutePlan;
    RouteMembers(link, peers);
    assert RouteFor(link, r) in RoutePlan(link, peers);
  }

  /** What a completed application leaves in the two tables. */
  lemma Applied(link: int, me: NodeValue, peers: seq<NodeValue>, neigh: Neighbours.NeighTable, fib: Routes.Fib,
                neighOps: seq<Neighbours.NeighOp>, fibOps: seq<Routes.FibOp>)
    requires Cluster([me] + peers) && AllRoutable(peers) && NoAddressIsBase(peers)
    requires Routes.WellKeyed(fib) && Routes.UniqueDsts(fib, Some(link))
    requires Neighbours.Plan(neigh, NeighPlan(link, peers), neighOps)
    requires Routes.Plan(fib, Some(link), RoutePlan(link, peers), true, fibOps)
    ensures Accepted(neigh, neighOps) && Neighbours.Overlaid(Exec(neigh, neighOps), neigh, NeighPlan(link, peers))
    ensures Accepted(fib, fibOps) <==> Routes.NoForeign(fib, Some(link), RoutePlan(link, peers))
    ensures Routes.WellKeyed(Exec(fib, fibOps)) && Routes.UniqueDsts(Exec(fib, fibOps), Some(link))
    ensures Accepted(fib, fibOps) ==> Routes.LinkHolds(Exec(fib, fibOps), fib, Some(link), RoutePlan(link, peers))
  {
    hide Cluster, NeighPlan, RoutePlan, Neighbours.Plan, Neighbours.Overlaid, Routes.Plan, Routes.LinkHolds,
      Routes.UniqueDsts, Exec, Accepted;
    NeighPlanDistinct(link, me, peers);
    RoutePlanGood(link, me, peers);
    Neighbours.Converges(neigh, NeighPlan(link, peers), neighOps);
    Routes.ConvergesWithDeletion(fib, Some(link), RoutePlan(link, peers), fibOps);
    assert fibOps[..|fibOps|] == fibOps;
    Routes.GoodIsPlain(RoutePlan(link, peers), Some(link));
    Routes.PartialRunKeepsInvariant(fib, Some(link), RoutePlan(link, peers), fibOps, |fibOps|);
  }

  lemma ClusterPermuted(all: seq<NodeValue>, other: seq<NodeValue>)
    requires Cluster(all) && multiset(all) == multiset(other)
    ensures Cluster(other)
  {
    hide Disjoint, IsCidr4;
    PermutedMembers(all, other);
    PermutedDistinct(all, other);
    forall i, j | 0 <= i < j < |other|
      ensures Disjoint(Cidr(other[i]), Cidr(other[j])) && other[i].address != other[j].address
    {
      assert other[i] in other && other[j] in other;
      ClusterApart(all, other[i], other[j]);
    }
  }

  /** What the plans need does not depend on the order of the node list. */
  lemma PeersStayFit(me: NodeValue, nodes: seq<NodeValue>, other: seq<NodeValue>)
    requires multiset(nodes) == multiset(other) && Cluster([me] + Peers(me, nodes))
    requires AllRoutable(Peers(me, nodes)) && NoAddressIsBase(Peers(me, nodes))
    ensures Cluster([me] + Peers(me, other)) && AllRoutable(Peers(me, other)) && NoAddressIsBase(Peers(me, other))
  {
    hide Cluster;
    PeersPermuted(me, nodes, other);
    ClusterPermuted([me] + Peers(me, nodes), [me] + Peers(me, other));
  }

  /** Runs for two orders of the node list, from the same tables, fare alike and leave the same tables. */
  lemma OrderIrrelevant(link: int, me: NodeValue, nodes: seq<NodeValue>, other: seq<NodeValue>,
                        neigh: Neighbours.NeighTable, fib: Routes.Fib,
                        neighOps: seq<Neighbours.NeighOp>, neighOps': seq<Neighbours.NeighOp>,
                        fibOps: seq<Routes.FibOp>, fibOps': seq<Routes.FibOp>)
    requires multiset(nodes) == multiset(other) && AllRoutable(Peers(me, nodes)) && AllRoutable(Peers(me, other))
    requires Cluster([me] + Peers(me, nodes)) && NoAddressIsBase(Peers(me, nodes))
    requires Routes.WellKeyed(fib) && Routes.UniqueDsts(fib, Some(link))
    requires Neighbours.Plan(neigh, NeighPlan(link, Peers(me, nodes)), neighOps)
    requires Neighbours.Plan(neigh, NeighPlan(link, Peers(me, other)), neighOps')
    requires Routes.Plan(fib, Some(link), RoutePlan(link, Peers(me, nodes)), true, fibOps)
    requires Routes.Plan(fib, Some(link), RoutePlan(link, Peers(me, other)), true, fibOps')
    ensures Exec(neigh, neighOps) == Exec(neigh, neighOps')
    ensures Accepted(fib, fibOps) <==> Accepted(fib, fibOps')
    ensures Accepted(fib, fibOps) ==> Exec(fib, fibOps) == Exec(fib, fibOps')
  {
    hide Cluster, Peers, NeighPlan, RoutePlan, Neighbours.Plan, Neighbours.Overlaid, Routes.Plan,
      Routes.LinkHolds, Routes.UniqueDsts, Routes.WellKeyed, NoAddressIsBase, Exec, Accepted;
    var peers, peers' := Peers(me, nodes), Peers(me, other);
    PeersStayFit(me, nodes, other);
    PeersPermuted(me, nodes, other);
    Applied(link, me, peers, neigh, fib, neighOps, fibOps);
    Applied(link, me, peers', neigh, fib, neighOps', fibOps');
    SamePlans(link, peers, peers');
    Neighbours.OverlaidUnique(Exec(neigh, neighOps), Exec(neigh, neighOps'), neigh, NeighPlan(link, peers),
                              NeighPlan(link, peers'));
    if Accepted(fib, fibOps) {
      Routes.HoldsUnique(Exec(fib, fibOps), Exec(fib, fibOps'), fib, Some(link), RoutePlan(link, peers),
                         RoutePlan(link, peers'));
    }
  }

  lemma SamePlans(link: int, peers: seq<NodeValue>, other: seq<NodeValue>)
    requires AllRoutable(peers) && AllRoutable(other) && forall r :: r in peers <==> r in other
    ensures forall n :: n in NeighPlan(link, peers) <==> n in NeighPlan(link, other)
    ensures forall e :: e in RoutePlan(link, peers) <==> e in RoutePlan(link, other)
  {
    NeighMembers(link, peers);
    NeighMembers(link, other);
    RouteMembers(link, peers);
    RouteMembers(link, other);
  }

  // ----- when an address is the base of a pod network -----

  /** The last planned entry of its IP. */
  ghost predicate Survives(link: int, peers: seq<NodeValue>, n: Neighbours.Neigh)
    requires AllRoutable(peers)
  {
    var plan := NeighPlan(link, peers);
    n in plan && n.ip.Some? && n.ip.value in Neighbours.ByIp(plan) && Neighbours.ByIp(plan)[n.ip.value] == n
  }

  /** On a fresh link, an entry is set only if it is the last planned one of its IP. */
  lemma FreshEntries(link: int, peers: seq<NodeValue>, ops: seq<Neighbours.NeighOp>, k: Neighbours.NeighKey)
    requires AllRoutable(peers) && Neighbours.Plan(map[], NeighPlan(link, peers), ops) && k in Exec(map[], ops)
    ensures Survives(link, peers, Exec(map[], ops)[k]) && Neighbours.KeyOf(Exec(map[], ops)[k]) == k
  {
    hide NeighPlan;
    var plan := NeighPlan(link, peers);
    var list: seq<Neighbours.Neigh> :|
      Neighbours.SoundList(list, map[]) && Neighbours.PlanFrom(Neighbours.ByIp(list), Neighbours.ByIp(plan), ops);
    ExecEntries(map[], ops, k);
    var i :| 0 <= i < |ops| && ops[i].key == k && !ops[i].Del? && ops[i].val == Exec(map[], ops)[k];
    assert ops[i] in ops;
    Neighbours.ByIpMembers(plan);
  }

  /** A planned entry of a peer that loses its IP to an entry with another key is not set. */
  lemma Shadowed(link: int, me: NodeValue, peers: seq<NodeValue>, ops: seq<Neighbours.NeighOp>, n: Neighbours.Neigh)
    requires Cluster([me] + peers) && AllRoutable(peers) && Neighbours.Plan(map[], NeighPlan(link, peers), ops)
    requires n in NeighPlan(link, peers) && !Survives(link, peers, n)
    ensures Neighbours.KeyOf(n) !in Exec(map[], ops)
  {
    hide NeighPlan, Cluster, Neighbours.Plan;
    if Neighbours.KeyOf(n) in Exec(map[], ops) {
      FreshEntries(link, peers, ops, Neighbours.KeyOf(n));
      SameKeySamePlanned(link, me, peers, Exec(map[], ops)[Neighbours.KeyOf(n)], n);
    }
  }

  /** Planned entries are told apart by their kernel keys. */
  lemma SameKeySamePlanned(link: int, me: NodeValue, peers: seq<NodeValue>, m: Neighbours.Neigh, n: Neighbours.Neigh)
    requires Cluster([me] + peers) && AllRoutable(peers)
    requires m in NeighPlan(link, peers) && n in NeighPlan(link, peers)
    ensures Neighbours.KeyOf(m) == Neighbours.KeyOf(n) ==> m == n
  {
    hide NeighPlan, InPrefix, IsCidr4;
    NeighMembers(link, peers);
    var x :| x in peers && (m == ArpFor(link, x) || m == FdbFor(link, x));
    var y :| y in peers && (n == ArpFor(link, y) || n == FdbFor(link, y));
    assert x in [me] + peers && y in [me] + peers;
    if x != y {
      ClusterApart([me] + peers, x, y);
    }
  }

  /** One of the two entries that want the same IP is lost, and with it a peer. */
  lemma ClashLosesPeer(link: int, me: NodeValue, peers: seq<NodeValue>, ops: seq<Neighbours.NeighOp>, v: NodeValue,
                       w: NodeValue)
    requires Cluster([me] + peers) && AllRoutable(peers) && Neighbours.Plan(map[], NeighPlan(link, peers), ops)
    requires v in peers && w in peers && v.address == Some(Cidr(w).ip)
    ensures Forward(RouteFor(link, v), Exec(map[], ops)).None? || Forward(RouteFor(link, w), Exec(map[], ops)).None?
  {
    hide NeighPlan, Cluster, InPrefix, Neighbours.Plan;
    NeighMembers(link, peers);
    var plan, ip := NeighPlan(link, peers), Cidr(w).ip;
    var arp, fdb := ArpFor(link, w), FdbFor(link, v);
    assert arp in plan && fdb in plan;
    Neighbours.ByIpMembers(plan);
    assert arp.family != fdb.family;
    if Survives(link, peers, arp) {
      Shadowed(link, me, peers, ops, fdb);
      ArpIsOwn(link, me, peers, ops, v);
    } else {
      Shadowed(link, me, peers, ops, arp);
    }
  }

  /** Whatever sits at a peer's ARP key is that peer's entry. */
  lemma ArpIsOwn(link: int, me: NodeValue, peers: seq<NodeValue>, ops: seq<Neighbours.NeighOp>, v: NodeValue)
    requires Cluster([me] + peers) && AllRoutable(peers) && Neighbours.Plan(map[], NeighPlan(link, peers), ops) &&
             v in peers
    ensures var k := Neighbours.KeyOf(ArpFor(link, v));
            k in Exec(map[], ops) ==> Exec(map[], ops)[k] == ArpFor(link, v)
  {
    hide NeighPlan, Cluster, Neighbours.Plan;
    var k := Neighbours.KeyOf(ArpFor(link, v));
    if k in Exec(map[], ops) {
      FreshEntries(link, peers, ops, k);
      NeighMembers(link, peers);
      SameKeySamePlanned(link, me, peers, Exec(map[], ops)[k], ArpFor(link, v));
    }
  }

  /**
    On a fresh link the plan reaches every peer if and only if no peer's address is the base of a
    peer's pod network.
   */
  lemma ReachesAllIffNoAddressIsBase(link: int, me: NodeValue, peers: seq<NodeValue>, ops: seq<Neighbours.NeighOp>)
    requires Cluster([me] + peers) && AllRoutable(peers) && Neighbours.Plan(map[], NeighPlan(link, peers), ops)
    ensures NoAddressIsBase(peers) <==> forall r :: r in peers ==>
            Forward(RouteFor(link, r), Exec(map[], ops)) == r.address
  {
    hide NeighPlan, Cluster, Neighbours.Plan, Neighbours.Overlaid;
    if NoAddressIsBase(peers) {
      NeighPlanDistinct(link, me, peers);
      Neighbours.Converges(map[], NeighPlan(link, peers), ops);
      forall r | r in peers ensures Forward(RouteFor(link, r), Exec(map[], ops)) == r.address {
        ForwardReaches(link, peers, r, Exec(map[], ops), map[]);
      }
    } else {
      var v, w :| v in peers && w in peers && v.address == Some(Cidr(w).ip);
      ClashLosesPeer(link, me, peers, ops, v, w);
    }
  }

  // ----- applying a plan again -----

  lemma NoEntriesDistinct()
    ensures Neighbours.DistinctEntries([])
  {
  }

  lemma OnePeerDistinct(link: int, r: NodeValue)
    requires Routable(r) && r.address != Some(Cidr(r).ip)
    ensures NeighPlan(link, [r]) == [ArpFor(link, r), FdbFor(link, r)] &&
            Neighbours.DistinctEntries(NeighPlan(link, [r]))
  {
    hide Neighbours.DistinctEntries;
    PlanSnoc(link, [], r);
    assert [] + [r] == [r];
    assert Neighbours.DistinctEntries([]) by {
      NoEntriesDistinct();
    }
    SnocEntries([], ArpFor(link, r), FdbFor(link, r));
  }

  /**
    Entries are never deleted: a peer whose pod network moves leaves its old forwarding entry behind, with
    the same address and another MAC.  Even when the listing shows everything, a run may then set the new
    entry again, for ever.
   */
  lemma MovedNetworkIsSetAgain(link: int, r: NodeValue, net: Net, ops: seq<Neighbours.NeighOp>,
                               again: seq<Neighbours.NeighOp>)
    requires Routable(r) && net.ip.V4? && net.ip != Cidr(r).ip && r.address != Some(Cidr(r).ip) &&
             r.address != Some(net.ip)
    requires Neighbours.Plan(map[], NeighPlan(link, [r]), ops)
    requires var moved := r.(podCIDR := Some(net));
             Neighbours.LinkPlan(Exec(map[], ops), link, true, NeighPlan(link, [moved]), again)
    ensures var moved := r.(podCIDR := Some(net));
            !Neighbours.AlwaysIdle(Exec(Exec(map[], ops), again), link, true, NeighPlan(link, [moved]))
  {
    hide NeighPlan, Neighbours.Plan, Neighbours.LinkPlan, Neighbours.AlwaysIdle, Exec;
    var moved := r.(podCIDR := Some(net));
    OnePeerDistinct(link, r);
    OnePeerDistinct(link, moved);
    Neighbours.Converges(map[], NeighPlan(link, [r]), ops);
    assert ops[..|ops|] == ops;
    Neighbours.PartialRunKeepsInvariant(map[], NeighPlan(link, [r]), ops, |ops|);
    Neighbours.IdleAfterRunIff(Exec(map[], ops), link, true, NeighPlan(link, [moved]), again);
    var stale, e := FdbFor(link, r), FdbFor(link, moved);
    assert stale in NeighPlan(link, [r]) && e in NeighPlan(link, [moved]);
    assert MacOf(r).low != MacOf(moved).low;
    assert Neighbours.Rivals(Exec(map[], ops), link, true, e, Neighbours.KeyOf(stale));
  }

  /** A listing that leaves out forwarding entries makes every run with a peer set them again. */
  lemma HiddenForwardingIsSetAgain(link: int, me: NodeValue, peers: seq<NodeValue>, neigh: Neighbours.NeighTable)
    requires Cluster([me] + peers) && AllRoutable(peers) && NoAddressIsBase(peers) && peers != [] &&
             Neighbours.WellKeyed(neigh)
    ensures !Neighbours.AlwaysIdle(neigh, link, false, NeighPlan(link, peers))
  {
    hide Cluster, NeighPlan, Neighbours.AlwaysIdle;
    NeighPlanDistinct(link, me, peers);
    NeighMembers(link, peers);
    assert peers[0] in peers;
    Neighbours.HiddenIsSetAgain(neigh, link, false, NeighPlan(link, peers), FdbFor(link, peers[0]));
  }
}
