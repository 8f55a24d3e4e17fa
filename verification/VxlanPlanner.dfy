/** The vxlan2 provider's planner: for every peer an ARP entry, a forwarding entry and a route. */
module VxlanPlanner {
  import opened Options
  import opened Addresses
  import opened Nodes
  import opened Neighbours
  import opened Routes

  // ----- hardware addresses -----

  /** The MAC of the VXLAN device of the node whose pod network starts at `addr`. */
  function MapToMac(addr: bv32): Mac {
    Mac(0x0053, addr)
  }

  /** The bytes of a hardware address. */
  function MacBytes(m: Mac): seq<bv8> {
    [((m.vendor >> 8) & 0xff) as bv8, (m.vendor & 0xff) as bv8] + Octets(m.low)
  }

  /** Fills the byte buffer. */
  method FillMac(addr: bv32) returns (hw: array<bv8>)
    ensures fresh(hw) && hw[..] == [0x00, 0x53] + Octets(addr) == MacBytes(MapToMac(addr))
  {
    MacBytesOf(addr);
    hw := new bv8[6];
    hw[0], hw[1] := 0x00, 0x53;
    var ip4 := Octets(addr);
    hw[2], hw[3], hw[4], hw[5] := ip4[0], ip4[1], ip4[2], ip4[3];
  }

  /** The vendor bytes 00:53 and the bytes of the address. */
  lemma MacBytesOf(addr: bv32)
    ensures MacBytes(MapToMac(addr)) == [0x00, 0x53] + Octets(addr)
  {
  }

  lemma OctetsInjective(a: bv32, b: bv32)
    requires Octets(a) == Octets(b)
    ensures a == b
  {
    OctetsRoundTrip(a, 0, 0, 0, 0);
    OctetsRoundTrip(b, 0, 0, 0, 0);
  }

  /** Different base addresses give different MACs. */
  lemma MacsInjective(a: bv32, b: bv32)
    requires MacBytes(MapToMac(a)) == MacBytes(MapToMac(b))
    ensures a == b
  {
    var x, y := MacBytes(MapToMac(a)), MacBytes(MapToMac(b));
    assert x[2..] == Octets(a) && y[2..] == Octets(b);
    OctetsInjective(a, b);
  }

  // ----- the plan -----

  const NUD_PERMANENT: nat := 0x80
  const NTF_SELF: nat := 2
  const RTN_UNICAST: nat := 1
  const RTPROT_BOOT: nat := 3
  const RT_TABLE_MAIN: nat := 254
  const SCOPE_UNIVERSE: nat := 0
  const RTNH_F_ONLINK: nat := 4

  predicate Routable(v: NodeValue) {
    Planable(v) && v.podCIDR.value.ip.V4?
  }

  function MacOf(v: NodeValue): Mac
    requires Routable(v)
  {
    MapToMac(v.podCIDR.value.ip.addr)
  }

  function ArpFor(link: int, r: NodeValue): Neigh
    requires Routable(r)
  {
    Neigh(link, FAMILY_V4, NUD_PERMANENT, RTN_UNICAST, 0, Some(r.podCIDR.value.ip), MacOf(r))
  }

  function FdbFor(link: int, r: NodeValue): Neigh
    requires Routable(r)
  {
    Neigh(link, AF_BRIDGE, NUD_PERMANENT, 0, NTF_SELF, r.address, MacOf(r))
  }

  function RouteFor(link: int, r: NodeValue): Route
    requires Routable(r)
  {
    Route(link, 0, SCOPE_UNIVERSE, r.podCIDR, None, Some(r.podCIDR.value.ip), [],
          RTPROT_BOOT, 0, RT_TABLE_MAIN, RTN_UNICAST, 0, RTNH_F_ONLINK)
  }

  ghost predicate AllRoutable(peers: seq<NodeValue>) {
    forall r :: r in peers ==> Routable(r)
  }

  function NeighPlan(link: int, peers: seq<NodeValue>): seq<Neigh>
    requires forall r :: r in peers ==> Routable(r)
  {
    if peers == [] then []
    else NeighPlan(link, peers[..|peers| - 1]) + [ArpFor(link, peers[|peers| - 1]), FdbFor(link, peers[|peers| - 1])]
  }

  function RoutePlan(link: int, peers: seq<NodeValue>): seq<Route>
    requires forall r :: r in peers ==> Routable(r)
  {
    if peers == [] then []
    else RoutePlan(link, peers[..|peers| - 1]) + [RouteFor(link, peers[|peers| - 1])]
  }

  lemma PlanSnoc(link: int, peers: seq<NodeValue>, r: NodeValue)
    requires AllRoutable(peers) && Routable(r)
    ensures NeighPlan(link, peers + [r]) == NeighPlan(link, peers) + [ArpFor(link, r), FdbFor(link, r)]
    ensures RoutePlan(link, peers + [r]) == RoutePlan(link, peers) + [RouteFor(link, r)]
  {
    assert (peers + [r])[..|peers|] == peers;
  }

  /** The planning loop; a peer without IPv4 pod network stops the process. */
  method BuildPlan(link: int, me: NodeValue, nodes: seq<NodeValue>)
    returns (fatal: bool, neighs: seq<Neigh>, routes: seq<Route>)
    ensures !fatal <==> AllRoutable(Peers(me, nodes))
    ensures fatal <==>
              exists r ::
                r in nodes && r.name != me.name && r.address.Some? && r.podCIDR.Some? && !r.podCIDR.value.ip.V4?
    ensures !fatal ==> neighs == NeighPlan(link, Peers(me, nodes)) && routes == RoutePlan(link, Peers(me, nodes))
  {
    neighs, routes := [], [];
    PeersMembers(me, nodes);
    for i := 0 to |nodes|
      invariant AllRoutable(Peers(me, nodes[..i]))
      invariant neighs == NeighPlan(link, Peers(me, nodes[..i]))
      invariant routes == RoutePlan(link, Peers(me, nodes[..i]))
    {
      var remote := nodes[i];
      assert nodes[..i + 1] == nodes[..i] + [remote];
      PeersSnoc(me, nodes[..i], remote);
      if remote.name == me.name || remote.address.None? || remote.podCIDR.None? {
        continue;
      }
      if !remote.podCIDR.value.ip.V4? {
        assert remote in nodes && remote in Peers(me, nodes);
        return true, [], [];
      }
      PlanSnoc(link, Peers(me, nodes[..i]), remote);
      neighs := neighs + [ArpFor(link, remote), FdbFor(link, remote)];
      routes := routes + [RouteFor(link, remote)];
    }
    assert nodes[..|nodes|] == nodes;
    fatal := false;
  }

  lemma {:induction false} NeighMembers(link: int, peers: seq<NodeValue>)
    requires AllRoutable(peers)
    ensures forall n :: n in NeighPlan(link, peers) <==>
              exists r :: r in peers && (n == ArpFor(link, r) || n == FdbFor(link, r))
    decreases |peers|
  {
    if peers != [] {
      var init, last := peers[..|peers| - 1], peers[|peers| - 1];
      assert peers == init + [last];
      NeighMembers(link, init);
      assert NeighPlan(link, peers) == NeighPlan(link, init) + [ArpFor(link, last), FdbFor(link, last)];
    }
  }

  lemma {:induction false} RouteMembers(link: int, peers: seq<NodeValue>)
    requires AllRoutable(peers)
    ensures forall e :: e in RoutePlan(link, peers) <==> exists r :: r in peers && e == RouteFor(link, r)
    decreases |peers|
  {
    if peers != [] {
      var init, last := peers[..|peers| - 1], peers[|peers| - 1];
      assert peers == init + [last];
      RouteMembers(link, init);
    }
  }
}
