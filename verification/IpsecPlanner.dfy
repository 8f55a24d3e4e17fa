/**
  The IPsec provider's planner: the node numeral, the SPI packing, and the mesh of states
  and policies that one node wants for its peers.
 */
module IpsecPlanner {
  import opened Options
  import opened Addresses
  import opened Nodes
  import opened Xfrm

  // ----- numerals and SPIs -----

  datatype NodeNumeral = NotIPv4 | Numeral(bits: bv32)

  function NumeralBits(addr: bv32, shift: bv8): bv32 {
    (if 32 <= shift then 0 else addr >> (shift as bv32)) & 0x3fff
  }

  /** The low 14 bits of the network number. */
  function ComputeNumeral(n: Net): NodeNumeral {
    if n.ip.V4? then Numeral(NumeralBits(n.ip.addr, n.mask.bits - n.mask.ones)) else NotIPv4
  }

  /** Shifted back, the numeral is the 14 bits of the address just above the host bits, and no bit of it is lost. */
  lemma NumeralReadsBack(addr: bv32, ones: bv8)
    requires 0 < ones <= 32
    ensures var s := (32 - ones) as bv32;
            && (NumeralBits(addr, 32 - ones) << s) == addr & ((0x3fff as bv32) << s)
            && (NumeralBits(addr, 32 - ones) << s) >> s == NumeralBits(addr, 32 - ones)
  {
  }

  const TAG_AH: bv32 := 0
  const TAG_ESP: bv32 := 1

  function PackBits(src: bv32, dst: bv32, tag: bv32): bv32 {
    0xc000_0000 | (src << 16) | (dst << 2) | tag
  }

  function PackSpi(src: bv32, dst: bv32, tag: bv32): SPI {
    SPI(PackBits(src, dst, tag))
  }

  /** The fields of an SPI can be read back. */
  lemma PackFields(s: bv32, d: bv32, g: bv32)
    requires s <= 0x3fff && d <= 0x3fff && g <= 3
    ensures (PackBits(s, d, g) >> 16) & 0x3fff == s
    ensures (PackBits(s, d, g) >> 2) & 0x3fff == d
    ensures PackBits(s, d, g) & 3 == g
    ensures 0xc000_0000 <= PackBits(s, d, g)
  {
  }

  lemma PackBitsInjective(s: bv32, d: bv32, g: bv32, s': bv32, d': bv32, g': bv32)
    requires s <= 0x3fff && d <= 0x3fff && g <= 3
    requires s' <= 0x3fff && d' <= 0x3fff && g' <= 3
    requires PackBits(s, d, g) == PackBits(s', d', g')
    ensures s == s' && d == d' && g == g'
  {
  }

  /** Packing loses nothing, and no packed SPI is in the range reserved by section 2.1 of RFC 4303. */
  lemma PackInjective(s: bv32, d: bv32, g: bv32, s': bv32, d': bv32, g': bv32)
    requires s <= 0x3fff && d <= 0x3fff && g <= 3
    requires s' <= 0x3fff && d' <= 0x3fff && g' <= 3
    ensures PackSpi(s, d, g) == PackSpi(s', d', g') <==> s == s' && d == d' && g == g'
    ensures 255 < PackSpi(s, d, g).bits
  {
    PackFields(s, d, g);
    if PackSpi(s, d, g) == PackSpi(s', d', g') {
      assert PackSpi(s, d, g).bits == PackSpi(s', d', g').bits;
      PackBitsInjective(s, d, g, s', d', g');
    }
  }

  /** A prefix of length `ones` has at most 14 bits more than one of length `sup`. */
  predicate AtMost14More(sup: bv8, ones: bv8) {
    sup <= ones && ones - sup <= 14
  }

  lemma NumeralBitsInjective(a: bv32, b: bv32, ones: bv8, net: bv32, sup: bv8)
    requires AtMost14More(sup, ones)
    requires InPrefix(a, a, ones) && InPrefix(b, b, ones) && InPrefix(a, net, sup) && InPrefix(b, net, sup)
    requires NumeralBits(a, 32 - ones) == NumeralBits(b, 32 - ones)
    ensures a == b
  {
  }

  /** `n` lies in the network `net/sup`. */
  predicate Inside(n: Net, net: bv32, sup: bv8) {
    n.ip.V4? && InPrefix(n.ip.addr, net, sup)
  }

  /** Within a supernet at most 14 bits shorter, different networks get different numerals. */
  lemma NumeralInjective(m: Net, n: Net, net: bv32, sup: bv8)
    requires IsCidr4(m) && IsCidr4(n) && m.mask == n.mask && AtMost14More(sup, m.mask.ones)
    requires Inside(m, net, sup) && Inside(n, net, sup)
    requires ComputeNumeral(m) == ComputeNumeral(n)
    ensures m == n
  {
    NumeralBitsInjective(m.ip.addr, n.ip.addr, m.mask.ones, net, sup);
  }

  /** The network `net` with the lowest bit that the numeral of a network of length `ones` drops. */
  function Twin(net: bv32, ones: bv8): bv32
    requires 15 <= ones <= 32
  {
    net | ((0x4000 as bv32) << ((32 - ones) as bv32))
  }

  lemma TwinIsNew(net: bv32, sup: bv8, ones: bv8)
    requires InPrefix(net, net, sup) && sup <= ones <= 32 && 15 <= ones - sup
    ensures Twin(net, ones) != net
  {
  }

  lemma TwinIsAligned(net: bv32, sup: bv8, ones: bv8)
    requires InPrefix(net, net, sup) && sup <= ones <= 32 && 15 <= ones - sup
    ensures InPrefix(Twin(net, ones), Twin(net, ones), ones)
  {
  }

  lemma LongerPrefix(net: bv32, sup: bv8, ones: bv8)
    requires InPrefix(net, net, sup) && sup <= ones <= 32
    ensures InPrefix(net, net, ones)
  {
  }

  lemma TwinIsInside(net: bv32, sup: bv8, ones: bv8)
    requires InPrefix(net, net, sup) && sup <= ones <= 32 && 15 <= ones - sup
    ensures InPrefix(Twin(net, ones), net, sup)
  {
  }

  lemma TwinCollides(net: bv32, ones: bv8)
    requires 15 <= ones <= 32
    ensures NumeralBits(net, 32 - ones) == NumeralBits(Twin(net, ones), 32 - ones)
  {
  }

  /** With 15 bits or more, every supernet holds two networks of the length that share a numeral. */
  lemma NumeralsCollideBeyond14Bits(net: bv32, sup: bv8, ones: bv8)
    requires InPrefix(net, net, sup) && sup <= ones <= 32 && !AtMost14More(sup, ones)
    ensures exists m, n :: m != n && IsCidr4(m) && IsCidr4(n) && m.mask == n.mask == Mask.Mask(ones, 32)
              && Inside(m, net, sup) && Inside(n, net, sup) && ComputeNumeral(m) == ComputeNumeral(n)
  {
    TwinIsNew(net, sup, ones);
    TwinIsAligned(net, sup, ones);
    LongerPrefix(net, sup, ones);
    TwinIsInside(net, sup, ones);
    TwinCollides(net, ones);
    var m, n := Net(V4(net), Mask.Mask(ones, 32)), Net(V4(Twin(net, ones)), Mask.Mask(ones, 32));
    assert m.ip.addr != n.ip.addr;
    assert IsCidr4(m) && IsCidr4(n) && Inside(m, net, sup) && Inside(n, net, sup);
    assert ComputeNumeral(m) == ComputeNumeral(n);
  }

  // ----- states -----

  /** The strategies: which headers are used, and what they put on a state from one node to another. */
  datatype Strategies = Strategies(
    useAH: bool, useESP: bool,
    auth: (NodeValue, NodeValue) -> Algo,
    crypt: (NodeValue, NodeValue) -> Algo,
    encap: (NodeValue, NodeValue) -> Option<Encap<Option<IP>>>)

  const NO_LIMIT: nat := 0xffff_ffff_ffff_ffff
  const NO_LIMITS := Limits(NO_LIMIT, NO_LIMIT, NO_LIMIT, NO_LIMIT, 0, 0, 0, 0)

  function BlankState(src: NodeValue, dst: NodeValue, proto: nat, spi: SPI): State {
    State.State(src.address, dst.address, proto, MODE_TUNNEL, spi, 0, 0, NO_LIMITS, None, None, None, None, None)
  }

  function NumeralOf(v: NodeValue): bv32 {
    if v.podCIDR.Some? then
      (match ComputeNumeral(v.podCIDR.value) case NotIPv4 => 0 case Numeral(b) => b)
    else 0
  }

  lemma NumeralBound(v: NodeValue)
    ensures NumeralOf(v) <= 0x3fff
  {
  }

  function AhState(st: Strategies, src: NodeValue, dst: NodeValue): State {
    BlankState(src, dst, PROTO_AH, PackSpi(NumeralOf(src), NumeralOf(dst), TAG_AH)).(auth := Some(st.auth(src, dst)))
  }

  function EspState(st: Strategies, src: NodeValue, dst: NodeValue): State {
    BlankState(src, dst, PROTO_ESP, PackSpi(NumeralOf(src), NumeralOf(dst), TAG_ESP))
      .(crypt := Some(st.crypt(src, dst)), encap := st.encap(src, dst))
  }

  /** The states of one direction between two nodes. */
  function StatesBetween(st: Strategies, src: NodeValue, dst: NodeValue): seq<State> {
    (if st.useAH then [AhState(st, src, dst)] else []) + (if st.useESP then [EspState(st, src, dst)] else [])
  }

  function StatesFor(st: Strategies, me: NodeValue, r: NodeValue): seq<State> {
    StatesBetween(st, r, me) + StatesBetween(st, me, r)
  }

  function StatePlan(st: Strategies, me: NodeValue, peers: seq<NodeValue>): seq<State> {
    if peers == [] then []
    else StatePlan(st, me, peers[..|peers| - 1]) + StatesFor(st, me, peers[|peers| - 1])
  }

  lemma NothingPlanned(st: Strategies, me: NodeValue)
    ensures Peers(me, []) == [] && StatePlan(st, me, []) == []
  {
  }

  lemma StatePlanSnoc(st: Strategies, me: NodeValue, peers: seq<NodeValue>, r: NodeValue)
    ensures StatePlan(st, me, peers + [r]) == StatePlan(st, me, peers) + StatesFor(st, me, r)
  {
    assert (peers + [r])[..|peers|] == peers;
  }

  /** The planning loop over nodes and directions. */
  method BuildStates(st: Strategies, me: NodeValue, nodes: seq<NodeValue>) returns (ok: bool, expected: seq<State>)
    requires me.podCIDR.Some? && me.address.Some?
    ensures ok <==> me.podCIDR.value.ip.V4? && forall r :: r in Peers(me, nodes) ==>
              r.podCIDR.Some? && r.podCIDR.value.ip.V4?
    ensures ok ==> expected == StatePlan(st, me, Peers(me, nodes))
  {
    hide StatesFor, NumeralBits, Peers, StatePlan;
    NothingPlanned(st, me);
    expected := [];
    var meNumeral := ComputeNumeral(me.podCIDR.value);
    if meNumeral.NotIPv4? {
      return false, [];
    }
    for i := 0 to |nodes|
      invariant expected == StatePlan(st, me, Peers(me, nodes[..i]))
      invariant forall r :: r in Peers(me, nodes[..i]) ==> r.podCIDR.Some? && r.podCIDR.value.ip.V4?
    {
      var remote := nodes[i];
      assert nodes[..i + 1] == nodes[..i] + [remote];
      PeersSnoc(me, nodes[..i], remote);
      if remote.name == me.name || remote.address.None? || remote.podCIDR.None? {
        continue;
      }
      var remoteNumeral := ComputeNumeral(remote.podCIDR.value);
      if remoteNumeral.NotIPv4? {
        PeersMembers(me, nodes);
        assert remote in nodes && remote in Peers(me, nodes);
        return false, [];
      }
      expected := AppendStates(st, me, remote, expected);
      StatePlanSnoc(st, me, Peers(me, nodes[..i]), remote);
    }
    assert nodes[..|nodes|] == nodes;
    ok := true;
  }

  /** The inner loop over the two directions. */
  method AppendStates(st: Strategies, me: NodeValue, remote: NodeValue, before: seq<State>)
    returns (expected: seq<State>)
    requires me.podCIDR.Some? && me.podCIDR.value.ip.V4? && remote.podCIDR.Some? && remote.podCIDR.value.ip.V4?
    ensures expected == before + StatesFor(st, me, remote)
  {
    var meNumeral, remoteNumeral := ComputeNumeral(me.podCIDR.value).bits, ComputeNumeral(remote.podCIDR.value).bits;
    expected := before;
    for d := 0 to 2
      invariant expected == before + (if 0 < d then StatesBetween(st, remote, me) else [])
                                   + (if 1 < d then StatesBetween(st, me, remote) else [])
    {
      var src, dst := if d == 0 then remote else me, if d == 0 then me else remote;
      var ns, nd := if d == 0 then remoteNumeral else meNumeral, if d == 0 then meNumeral else remoteNumeral;
      var added: seq<State> := [];
      if st.useAH {
        var s := BlankState(src, dst, PROTO_AH, PackSpi(ns, nd, TAG_AH));
        added := added + [s.(auth := Some(st.auth(src, dst)))];
      }
      if st.useESP {
        var s := BlankState(src, dst, PROTO_ESP, PackSpi(ns, nd, TAG_ESP));
        added := added + [s.(crypt := Some(st.crypt(src, dst)), encap := st.encap(src, dst))];
      }
      assert added == StatesBetween(st, src, dst);
      expected := expected + added;
    }
  }

  // ----- policies -----

  const ALL_NET := Net(V4(0), Mask.Mask(0, 32))

  const BLANK_POLICY: Policy := Policy.Policy(None, None, 0, 0, 0, In, 0, 0, None, [])

  /** No IPsec for IPsec over UDP. */
  function BypassPolicy(dir: Dir): Policy {
    BLANK_POLICY.(src := Some(ALL_NET), dst := Some(ALL_NET), dstPort := 4500, dir := dir, proto := PROTO_UDP,
                  priority := 200)
  }

  /** If nothing else matches: no encryption. */
  function SocketPolicy(dir: Dir): Policy {
    BLANK_POLICY.(src := Some(ALL_NET), dst := Some(ALL_NET), dir := dir, priority := 0)
  }

  const BASE_POLICIES: seq<Policy> :=
    [BypassPolicy(In), BypassPolicy(Out), BypassPolicy(Fwd), SocketPolicy(SocketIn), SocketPolicy(SocketOut)]

  /** A policy that sends traffic between two networks through the tunnel between two nodes. */
  function TunnelPolicy(dir: Dir, src: Net, dst: Net, from: Option<IP>, to: Option<IP>): Policy {
    BLANK_POLICY.(src := Some(src), dst := Some(dst), dir := dir, priority := 100,
                 tmpls := [Tmpl.Tmpl(to, from, PROTO_ESP, MODE_TUNNEL, SPI(0), 0)])
  }

  /** The three directions of one pair of networks, seen from `me`. */
  function PolicyGroup(near: Net, far: Net, me: Option<IP>, r: Option<IP>): seq<Policy> {
    [TunnelPolicy(In, far, near, r, me), TunnelPolicy(Out, near, far, me, r), TunnelPolicy(Fwd, far, near, r, me)]
  }

  /** Pods to pods, pods to the node, and the node to pods. */
  function PoliciesFor(me: NodeValue, r: NodeValue): seq<Policy>
    requires Planable(me) && Planable(r)
  {
    PolicyGroup(me.podCIDR.value, r.podCIDR.value, me.address, r.address) +
    PolicyGroup(me.podCIDR.value, Host(r.address.value), me.address, r.address) +
    PolicyGroup(Host(me.address.value), r.podCIDR.value, me.address, r.address)
  }

  function TunnelPlan(me: NodeValue, peers: seq<NodeValue>): seq<Policy>
    requires Planable(me) && forall r :: r in peers ==> Planable(r)
  {
    if peers == [] then []
    else TunnelPlan(me, peers[..|peers| - 1]) + PoliciesFor(me, peers[|peers| - 1])
  }

  lemma TunnelPlanSnoc(me: NodeValue, peers: seq<NodeValue>, r: NodeValue)
    requires Planable(me) && Planable(r) && forall p :: p in peers ==> Planable(p)
    ensures TunnelPlan(me, peers + [r]) == TunnelPlan(me, peers) + PoliciesFor(me, r)
  {
    assert (peers + [r])[..|peers|] == peers;
  }

  function PolicyPlan(me: NodeValue, peers: seq<NodeValue>): seq<Policy>
    requires Planable(me) && forall r :: r in peers ==> Planable(r)
  {
    BASE_POLICIES + TunnelPlan(me, peers)
  }

  lemma PolicyPlanSnoc(me: NodeValue, peers: seq<NodeValue>, r: NodeValue)
    requires Planable(me) && Planable(r) && forall p :: p in peers ==> Planable(p)
    ensures PolicyPlan(me, peers + [r]) == PolicyPlan(me, peers) + PoliciesFor(me, r)
  {
    hide PoliciesFor, BASE_POLICIES;
    TunnelPlanSnoc(me, peers, r);
  }

  lemma NoPeersNoTunnels(me: NodeValue)
    requires Planable(me)
    ensures PolicyPlan(me, []) == BASE_POLICIES
  {
  }

  /** One of the three loops over directions. */
  method AppendGroup(expected: seq<Policy>, near: Net, far: Net, me: Option<IP>, r: Option<IP>)
    returns (extended: seq<Policy>)
    ensures extended == expected + PolicyGroup(near, far, me, r)
  {
    var dirs := [In, Out, Fwd];
    extended := expected;
    for i := 0 to 3
      invariant extended == expected + PolicyGroup(near, far, me, r)[..i]
    {
      var dir := dirs[i];
      var p := BLANK_POLICY;
      if dir == Out {
        p := p.(src := Some(near), dst := Some(far));
      } else {
        p := p.(src := Some(far), dst := Some(near));
      }
      p := p.(dir := dir, priority := 100);
      var t := Tmpl.Tmpl(None, None, PROTO_ESP, MODE_TUNNEL, SPI(0), 0);
      if dir == Out {
        t := t.(src := me, dst := r);
      } else {
        t := t.(src := r, dst := me);
      }
      extended := extended + [p.(tmpls := [t])];
    }
  }

  /** The body of the loop over the nodes. */
  method AppendPolicies(expected: seq<Policy>, me: NodeValue, remote: NodeValue) returns (extended: seq<Policy>)
    requires Planable(me) && Planable(remote)
    ensures extended == expected + PoliciesFor(me, remote)
  {
    extended := AppendGroup(expected, me.podCIDR.value, remote.podCIDR.value, me.address, remote.address);
    extended := AppendGroup(extended, me.podCIDR.value, Host(remote.address.value), me.address, remote.address);
    extended := AppendGroup(extended, Host(me.address.value), remote.podCIDR.value, me.address, remote.address);
  }

  method BasePolicyList() returns (expected: seq<Policy>)
    ensures expected == BASE_POLICIES
  {
    expected := [];
    for i := 0 to 3
      invariant expected == BASE_POLICIES[..i]
    {
      expected := expected + [BypassPolicy([In, Out, Fwd][i])];
    }
    for i := 0 to 2
      invariant expected == BASE_POLICIES[..3 + i]
    {
      expected := expected + [SocketPolicy([SocketIn, SocketOut][i])];
    }
  }

  method BuildPolicies(me: NodeValue, nodes: seq<NodeValue>) returns (expected: seq<Policy>)
    requires Planable(me)
    ensures forall r :: r in Peers(me, nodes) ==> Planable(r)
    ensures expected == PolicyPlan(me, Peers(me, nodes))
  {
    hide PoliciesFor, TunnelPlan, PolicyPlan;
    expected := BasePolicyList();
    NoPeersNoTunnels(me);
    PeersMembers(me, nodes);
    for i := 0 to |nodes|
      invariant forall r :: r in Peers(me, nodes[..i]) ==> Planable(r)
      invariant expected == PolicyPlan(me, Peers(me, nodes[..i]))
    {
      var remote := nodes[i];
      assert nodes[..i + 1] == nodes[..i] + [remote];
      PeersSnoc(me, nodes[..i], remote);
      if remote.name == me.name || remote.address.None? || remote.podCIDR.None? {
        continue;
      }
      expected := AppendPolicies(expected, me, remote);
      PolicyPlanSnoc(me, Peers(me, nodes[..i]), remote);
    }
    assert nodes[..|nodes|] == nodes;
  }
}
