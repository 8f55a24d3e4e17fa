/** The GRE provider: one tunnel per peer, named after the peer's pod network, and one route into each. */
module Gre {
  import opened Options
  import opened Addresses
  import opened Nodes
  import opened NodeMaps
  import opened KernelTables
  import opened Links
  import Routes
  import Watcher

  // ----- tunnel names -----

  const HEX: string := "0123456789abcdef"
  const LINK_PREFIX: string := "k8s-"
  const MAX_NAME: nat := 15

  /** The digits in order. */
  lemma HexDigits(i: nat)
    requires i < 16
    ensures HEX[i] as int == if i < 10 then '0' as int + i else 'a' as int + (i - 10)
  {
    assert HEX[0] == '0' && HEX[1] == '1' && HEX[2] == '2' && HEX[3] == '3' && HEX[4] == '4' && HEX[5] == '5';
    assert HEX[6] == '6' && HEX[7] == '7' && HEX[8] == '8' && HEX[9] == '9' && HEX[10] == 'a' && HEX[11] == 'b';
    assert HEX[12] == 'c' && HEX[13] == 'd' && HEX[14] == 'e' && HEX[15] == 'f';
  }

  /** Two lower-case hexadecimal digits, high half first. */
  function HexByte(b: bv8): (s: string)
    ensures |s| == 2
  {
    [HEX[(b >> 4) as nat], HEX[(b & 0xf) as nat]]
  }

  lemma HexByteReadsBack(b: bv8, hi: nat, lo: nat)
    requires hi < 16 && lo < 16 && HexByte(b) == [HEX[hi], HEX[lo]]
    ensures (b >> 4) as nat == hi && (b & 0xf) as nat == lo
  {
    assert HexByte(b)[0] == HEX[hi] && HexByte(b)[1] == HEX[lo];
    HexDigitInjective((b >> 4) as nat, hi);
    HexDigitInjective((b & 0xf) as nat, lo);
  }

  lemma HexDigitInjective(i: nat, j: nat)
    requires i < 16 && j < 16 && HEX[i] == HEX[j]
    ensures i == j
  {
  }

  lemma NibblesInjective(a: bv8, b: bv8)
    requires a >> 4 == b >> 4 && a & 0xf == b & 0xf
    ensures a == b
  {
  }

  lemma HexByteInjective(a: bv8, b: bv8)
    requires HexByte(a) == HexByte(b)
    ensures a == b
  {
    assert HexByte(a)[0] == HexByte(b)[0] && HexByte(a)[1] == HexByte(b)[1];
    HexDigitInjective((a >> 4) as nat, (b >> 4) as nat);
    HexDigitInjective((a & 0xf) as nat, (b & 0xf) as nat);
    NibblesInjective(a, b);
  }

  function FormatName(o: seq<bv8>): string
    requires |o| == 4
  {
    LINK_PREFIX + HexByte(o[0]) + "-" + HexByte(o[1]) + "-" + HexByte(o[2]) + "-" + HexByte(o[3])
  }

  /** The name of the tunnel, empty for an address that is not IPv4. */
  function TunnelName(ip: IP): (name: string)
    ensures ip.V4? <==> name != ""
    ensures ip.V4? ==> |name| == MAX_NAME && LINK_PREFIX <= name
  {
    if !ip.V4? then "" else
      var name := FormatName(Octets(ip.addr));
      if |name| > MAX_NAME then "" else name
  }

  lemma SameParts(a: string, b: string, c: string, d: string, e: string, f: string, g: string, h: string)
    requires |a| == |b| == |c| == |d| == |e| == |f| == |g| == |h| == 2
    requires LINK_PREFIX + a + "-" + b + "-" + c + "-" + d == LINK_PREFIX + e + "-" + f + "-" + g + "-" + h
    ensures a == e && b == f && c == g && d == h
  {
    var x, y := LINK_PREFIX + a + "-" + b + "-" + c + "-" + d, LINK_PREFIX + e + "-" + f + "-" + g + "-" + h;
    assert x[4] == a[0] && x[5] == a[1] && x[7] == b[0] && x[8] == b[1];
    assert x[10] == c[0] && x[11] == c[1] && x[13] == d[0] && x[14] == d[1];
    assert y[4] == e[0] && y[5] == e[1] && y[7] == f[0] && y[8] == f[1];
    assert y[10] == g[0] && y[11] == g[1] && y[13] == h[0] && y[14] == h[1];
  }

  lemma FormatInjective(o: seq<bv8>, p: seq<bv8>)
    requires |o| == 4 && |p| == 4 && FormatName(o) == FormatName(p)
    ensures o == p
  {
    hide HexByte, HEX;
    SameParts(HexByte(o[0]), HexByte(o[1]), HexByte(o[2]), HexByte(o[3]), HexByte(p[0]), HexByte(p[1]), HexByte(p[2]),
              HexByte(p[3]));
    HexByteInjective(o[0], p[0]);
    HexByteInjective(o[1], p[1]);
    HexByteInjective(o[2], p[2]);
    HexByteInjective(o[3], p[3]);
  }

  /** The name spells the address: a prefix, and the four bytes in order with dashes between them. */
  lemma NameSpellsAddress(a: bv32)
    ensures var name, o := TunnelName(V4(a)), Octets(a);
            name == "k8s-" + HexByte(o[0]) + "-" + HexByte(o[1]) + "-" + HexByte(o[2]) + "-" + HexByte(o[3])
  {
    hide HexByte, Octets;
  }

  /** Different IPv4 addresses give different tunnel names. */
  lemma TunnelNameInjective(a: IP, b: IP)
    requires a.V4? && b.V4? && TunnelName(a) == TunnelName(b)
    ensures a == b
  {
    hide FormatName, Octets;
    FormatInjective(Octets(a.addr), Octets(b.addr));
    OctetsRoundTrip(a.addr, 0, 0, 0, 0);
    OctetsRoundTrip(b.addr, 0, 0, 0, 0);
  }

  // ----- the plan -----

  const TUNNEL_TTL: nat := 255
  const RTPROT_BOOT: nat := 3
  const RT_TABLE_MAIN: nat := 254
  const RTN_UNICAST: nat := 1

  /** A node that gets a tunnel. */
  predicate Wanted(me: NodeValue, r: NodeValue) {
    Eligible(me, r) && r.podCIDR.value.ip.V4?
  }

  function NameFor(r: NodeValue): string
    requires r.podCIDR.Some?
  {
    TunnelName(r.podCIDR.value.ip)
  }

  function TunnelTo(me: NodeValue, r: NodeValue): Link
    requires r.podCIDR.Some?
  {
    Link(NameFor(r), 0, Gretun, None, 0, false, me.address, r.address, TUNNEL_TTL)
  }

  function RouteVia(index: int, r: NodeValue): Routes.Route {
    Routes.Route(index, 0, 0, r.podCIDR, None, None, [], RTPROT_BOOT, 0, RT_TABLE_MAIN, RTN_UNICAST, 0, 0)
  }

  function TunnelsFor(me: NodeValue, nodes: seq<NodeValue>): seq<Link> {
    if nodes == [] then [] else
      var init, r := nodes[..|nodes| - 1], nodes[|nodes| - 1];
      TunnelsFor(me, init) + if Wanted(me, r) then [TunnelTo(me, r)] else []
  }

  /** Every wanted node has its tunnel among `links`. */
  ghost predicate AllFound(links: LinkTable, me: NodeValue, nodes: seq<NodeValue>) {
    forall r :: r in nodes && Wanted(me, r) ==> NameFor(r) in links
  }

  function RoutesFor(links: LinkTable, me: NodeValue, nodes: seq<NodeValue>): seq<Routes.Route>
    requires forall r :: r in nodes && Wanted(me, r) ==> NameFor(r) in links
  {
    if nodes == [] then [] else
      var init, r := nodes[..|nodes| - 1], nodes[|nodes| - 1];
      RoutesFor(links, me, init) + if Wanted(me, r) then [RouteVia(links[NameFor(r)].index, r)] else []
  }

  method BuildTunnels(me: NodeValue, nodes: seq<NodeValue>) returns (tunnels: seq<Link>)
    ensures tunnels == TunnelsFor(me, nodes)
  {
    tunnels := [];
    for i := 0 to |nodes|
      invariant tunnels == TunnelsFor(me, nodes[..i])
    {
      assert nodes[..i + 1][..i] == nodes[..i];
      var remote := nodes[i];
      if remote.name == me.name || remote.address.None? || remote.podCIDR.None? {
        continue;
      }
      var name := TunnelName(remote.podCIDR.value.ip);
      if name == "" {
        continue;
      }
      tunnels := tunnels + [Link(name, 0, Gretun, None, 0, false, me.address, remote.address, TUNNEL_TTL)];
    }
    assert nodes[..|nodes|] == nodes;
  }

  method BuildRoutes(links: LinkTable, me: NodeValue, nodes: seq<NodeValue>)
    returns (found: bool, routes: seq<Routes.Route>)
    ensures found <==> AllFound(links, me, nodes)
    ensures found ==> routes == RoutesFor(links, me, nodes)
  {
    routes := [];
    for i := 0 to |nodes|
      invariant AllFound(links, me, nodes[..i])
      invariant routes == RoutesFor(links, me, nodes[..i])
    {
      assert nodes[..i + 1] == nodes[..i] + [nodes[i]];
      assert nodes[..i + 1][..i] == nodes[..i];
      var remote := nodes[i];
      if remote.name == me.name || remote.address.None? || remote.podCIDR.None? {
        continue;
      }
      var name := TunnelName(remote.podCIDR.value.ip);
      if name == "" {
        continue;
      }
      if name !in links {
        assert remote in nodes;
        return false, [];
      }
      routes := routes + [RouteVia(links[name].index, remote)];
    }
    assert nodes[..|nodes|] == nodes;
    found := true;
  }

  lemma {:induction false} TunnelMembers(me: NodeValue, nodes: seq<NodeValue>)
    ensures forall l :: l in TunnelsFor(me, nodes) <==> exists r :: r in nodes && Wanted(me, r) && l == TunnelTo(me, r)
    ensures forall r :: Wanted(me, r) <==>
              r.name != me.name && r.address.Some? && r.podCIDR.Some? && r.podCIDR.value.ip.V4?
    decreases |nodes|
  {
    if nodes != [] {
      var init, r := nodes[..|nodes| - 1], nodes[|nodes| - 1];
      assert nodes == init + [r];
      TunnelMembers(me, init);
    }
  }

  lemma {:induction false} RouteMembers(links: LinkTable, me: NodeValue, nodes: seq<NodeValue>)
    requires AllFound(links, me, nodes)
    ensures forall e :: e in RoutesFor(links, me, nodes) <==>
              exists r :: r in nodes && Wanted(me, r) && e == RouteVia(links[NameFor(r)].index, r)
    decreases |nodes|
  {
    if nodes != [] {
      var init, r := nodes[..|nodes| - 1], nodes[|nodes| - 1];
      assert nodes == init + [r];
      RouteMembers(links, me, init);
    }
  }

  lemma {:induction false} SameIndexesSameRoutes(links: LinkTable, other: LinkTable, me: NodeValue,
                                                 nodes: seq<NodeValue>)
    requires AllFound(links, me, nodes) && forall n :: n in links ==> n in other && other[n].index == links[n].index
    ensures AllFound(other, me, nodes) && RoutesFor(other, me, nodes) == RoutesFor(links, me, nodes)
    decreases |nodes|
  {
    if nodes != [] {
      SameIndexesSameRoutes(links, other, me, nodes[..|nodes| - 1]);
    }
  }

  /** The expected names are the wanted nodes' names, and all carry the prefix. */
  lemma ExpectedNames(me: NodeValue, nodes: seq<NodeValue>)
    ensures forall r :: r in nodes && Wanted(me, r) ==> NameFor(r) in ByName(TunnelsFor(me, nodes))
    ensures forall n :: n in ByName(TunnelsFor(me, nodes)) ==>
              LINK_PREFIX <= n && exists r :: r in nodes && Wanted(me, r) && NameFor(r) == n
  {
    TunnelMembers(me, nodes);
    ByNameMembers(TunnelsFor(me, nodes));
    forall r | r in nodes && Wanted(me, r) ensures NameFor(r) in ByName(TunnelsFor(me, nodes)) {
      assert TunnelTo(me, r) in TunnelsFor(me, nodes);
    }
  }

  /** Wanted nodes with one base address are one node. */
  ghost predicate DistinctBases(me: NodeValue, nodes: seq<NodeValue>) {
    forall r, s ::
      r in nodes && s in nodes && Wanted(me, r) && Wanted(me, s) && r.podCIDR.value.ip == s.podCIDR.value.ip ==> r == s
  }

  /**
    After a completed run, every wanted node has a tunnel under its name.  The tunnel ends at the
    node's address if and only if no older tunnel of that name ended elsewhere, because an existing
    link is never modified.
   */
  lemma TunnelReachesIffNotStale(t: LinkTable, me: NodeValue, nodes: seq<NodeValue>, dels: seq<LinkOp>,
                                 adds: seq<LinkOp>, r: NodeValue)
    requires Links.Plan(t, LINK_PREFIX, ByName(TunnelsFor(me, nodes)), dels, adds)
    requires DistinctBases(me, nodes) && r in nodes
    requires r.name != me.name && r.address.Some? && r.podCIDR.Some? && r.podCIDR.value.ip.V4?
    ensures var u := Exec(t, dels + adds);
            && Accepted(t, dels + adds) && NameFor(r) in u
            && (if NameFor(r) in t then u[NameFor(r)] == t[NameFor(r)] else
                  u[NameFor(r)] == Link(NameFor(r), u[NameFor(r)].index, Gretun, None, 0, false, me.address, r.address,
                                        255))
            && (u[NameFor(r)].remote == r.address <==> (NameFor(r) in t ==> t[NameFor(r)].remote == r.address))
  {
    hide TunnelName, TunnelsFor, Links.Plan;
    ExpectedNames(me, nodes);
    Links.Converges(t, LINK_PREFIX, ByName(TunnelsFor(me, nodes)), dels, adds, NameFor(r));
    ByNameMembers(TunnelsFor(me, nodes));
    TunnelMembers(me, nodes);
    var e := ByName(TunnelsFor(me, nodes))[NameFor(r)];
    var s :| s in nodes && Wanted(me, s) && e == TunnelTo(me, s);
    TunnelNameInjective(r.podCIDR.value.ip, s.podCIDR.value.ip);
  }

  // ----- the provider -----

  datatype Outcome = Done | NoSelf | LinksFailed | TunnelNotFound | RoutesFailed

  /** `u` is `t` with some of the links set up. */
  ghost predicate OnlyRaised(u: LinkTable, t: LinkTable) {
    u.Keys == t.Keys && forall n :: n in t ==> u[n] == t[n] || u[n] == t[n].(up := true)
  }

  class GreProvider {
    var lastVersionApplied: nat
    const links: Table<string, Link>
    const fib: Table<Routes.FibKey, Routes.Route>

    constructor (links: Table<string, Link>, fib: Table<Routes.FibKey, Routes.Route>)
      ensures lastVersionApplied == 0 && this.links == links && this.fib == fib
    {
      lastVersionApplied := 0;
      this.links, this.fib := links, fib;
    }

    /** Sets up every returned link that is not up. */
    method BringUp(tunnels: LinkTable) returns (ok: bool)
      requires forall n :: n in tunnels ==> n in links.entries && links.entries[n] == tunnels[n]
      modifies links
      ensures OnlyRaised(links.entries, old(links.entries))
      ensures ok ==> forall n :: n in links.entries ==>
                links.entries[n] == if n in tunnels then tunnels[n].(up := true) else old(links.entries)[n]
      ensures links.reliable ==> ok
    {
      var todo := tunnels.Keys;
      while todo != {}
        invariant todo <= tunnels.Keys
        invariant links.entries.Keys == old(links.entries).Keys
        invariant forall n :: n in links.entries ==>
          links.entries[n] == if n in tunnels && n !in todo then tunnels[n].(up := true) else old(links.entries)[n]
      {
        var n :| n in todo;
        if !tunnels[n].up {
          var applied := links.Apply(Op.Update(n, links.entries[n].(up := true)));
          if !applied {
            return false;
          }
        }
        todo := todo - {n};
      }
      ok := true;
    }

    /**
      The fast path changes nothing.  Otherwise the version is recorded exactly on success, and
      then every wanted node of the snapshot has its tunnel and the routes were applied.
     */
    method EnsureCIDRs(nodeMap: NodeMap)
      returns (outcome: Outcome, ghost list: seq<NodeValue>, ghost fibOps: seq<Routes.FibOp>)
      requires nodeMap.Valid() && Routes.WellKeyed(fib.entries)
      modifies this, links, fib
      ensures nodeMap.state == old(nodeMap.state)
      ensures old(lastVersionApplied) != 0 && nodeMap.state.version == old(lastVersionApplied) ==>
                outcome == Done && unchanged(this) && unchanged(links) && unchanged(fib)
      ensures outcome != TunnelNotFound
      ensures outcome != Done ==> lastVersionApplied == old(lastVersionApplied)
      ensures outcome == Done && !(old(lastVersionApplied) != 0 && nodeMap.state.version == old(lastVersionApplied)) ==>
                && nodeMap.state.ready && WellFormed(nodeMap.state) && Enumerates(list, nodeMap.state.nodes)
                && lastVersionApplied == nodeMap.state.version
                && Configured(old(links.entries), links.entries, MeOf(nodeMap.state), list)
                && Routed(old(fib.entries), fib.entries, links.entries, MeOf(nodeMap.state), list)
      ensures outcome == NoSelf ==> !nodeMap.state.ready
      ensures links.reliable && fib.reliable ==> outcome != LinksFailed
      ensures outcome == RoutesFailed && fib.reliable ==>
                WellFormed(nodeMap.state) && RoutesBlocked(old(fib.entries), links.entries, MeOf(nodeMap.state), list,
                                                           fibOps)
    {
      list, fibOps := [], [];
      if lastVersionApplied != 0 {
        var same := nodeMap.IsVersion(lastVersionApplied);
        if same {
          return Done, list, fibOps;
        }
      }
      var present, me, nodes, version := nodeMap.TakeSnapshot();
      if !present {
        return NoSelf, list, fibOps;
      }
      list := nodes;
      outcome, fibOps := Apply(me, nodes);
      if outcome == Done {
        lastVersionApplied := version;
      }
    }

    /** Both passes over the nodes. */
    method Apply(me: NodeValue, nodes: seq<NodeValue>) returns (outcome: Outcome, ghost fibOps: seq<Routes.FibOp>)
      requires Routes.WellKeyed(fib.entries)
      modifies links, fib
      ensures outcome != TunnelNotFound && outcome != NoSelf
      ensures outcome == Done ==>
                && Configured(old(links.entries), links.entries, me, nodes)
                && Routed(old(fib.entries), fib.entries, links.entries, me, nodes)
      ensures links.reliable ==> outcome != LinksFailed
      ensures outcome == RoutesFailed && fib.reliable ==>
              RoutesBlocked(old(fib.entries), links.entries, me, nodes, fibOps)
    {
      fibOps := [];
      var ok, tunnelMap := ConfigureTunnels(me, nodes);
      if !ok {
        return LinksFailed, [];
      }
      var found, routes := BuildRoutes(tunnelMap, me, nodes);
      if !found {
        return TunnelNotFound, [];
      }
      ok, fibOps := ApplyRoutes(tunnelMap, me, nodes, routes);
      outcome := if ok then Done else RoutesFailed;
    }

    method ConfigureTunnels(me: NodeValue, nodes: seq<NodeValue>) returns (ok: bool, tunnelMap: LinkTable)
      modifies links
      ensures ok ==>
                && Configured(old(links.entries), links.entries, me, nodes)
                && AllFound(tunnelMap, me, nodes)
                && forall n :: n in tunnelMap ==> n in links.entries && links.entries[n].index == tunnelMap[n].index
      ensures links.reliable ==> ok
    {
      var tunnels := BuildTunnels(me, nodes);
      var ensured, m, dels, adds, done := Links.Ensure(links, tunnels, LINK_PREFIX);
      tunnelMap := m;
      ExpectedNames(me, nodes);
      Links.AcceptedIffNamesFree(old(links.entries), LINK_PREFIX, ByName(tunnels), dels, adds);
      if !ensured {
        return false, m;
      }
      assert (dels + adds)[..done] == dels + adds;
      ghost var mid := links.entries;
      ok := BringUp(m);
      if ok {
        assert OnlyRaised(links.entries, Exec(old(links.entries), dels + adds));
      }
    }

    method ApplyRoutes(tunnelMap: LinkTable, me: NodeValue, nodes: seq<NodeValue>, routes: seq<Routes.Route>)
      returns (ok: bool, ghost fibOps: seq<Routes.FibOp>)
      requires Routes.WellKeyed(fib.entries) && AllFound(tunnelMap, me, nodes) &&
               routes == RoutesFor(tunnelMap, me, nodes)
      requires forall n :: n in tunnelMap ==> n in links.entries && links.entries[n].index == tunnelMap[n].index
      modifies fib
      ensures links.entries == old(links.entries)
      ensures ok ==> Routed(old(fib.entries), fib.entries, links.entries, me, nodes)
      ensures !ok && fib.reliable ==> RoutesBlocked(old(fib.entries), links.entries, me, nodes, fibOps)
    {
      RouteMembers(tunnelMap, me, nodes);
      SameIndexesSameRoutes(tunnelMap, links.entries, me, nodes);
      var applied, ops, n := Routes.Ensure(fib, None, routes, false);
      assert applied ==> ops[..n] == ops;
      return applied, ops;
    }
  }

  /** The link table after a completed pass over the tunnels. */
  ghost predicate Configured(t: LinkTable, u: LinkTable, me: NodeValue, nodes: seq<NodeValue>) {
    exists dels, adds ::
      && Links.Plan(t, LINK_PREFIX, ByName(TunnelsFor(me, nodes)), dels, adds) && Accepted(t, dels + adds)
      && OnlyRaised(u, Exec(t, dels + adds))
      && forall n :: n in ByName(TunnelsFor(me, nodes)) ==> n in u && u[n].up
  }

  /** The forwarding table after a completed run without deletion of the routes into the tunnels. */
  ghost predicate Routed(t: Routes.Fib, u: Routes.Fib, links: LinkTable, me: NodeValue, nodes: seq<NodeValue>) {
    AllFound(links, me, nodes) && exists ops ::
      && Routes.Plan(t, None, RoutesFor(links, me, nodes), false, ops) && Accepted(t, ops) && u == Exec(t, ops)
  }

  /** The kernel refuses a route of the plan. */
  ghost predicate RoutesBlocked(t: Routes.Fib, links: LinkTable, me: NodeValue, nodes: seq<NodeValue>,
                                ops: seq<Routes.FibOp>) {
    AllFound(links, me, nodes) && Routes.Plan(t, None, RoutesFor(links, me, nodes), false, ops) && !Accepted(t, ops)
  }

  /** Nodes of a snapshot have different names, so wanted ones with different bases have different routes. */
  lemma {:induction false} RoutesGood(links: LinkTable, me: NodeValue, nodes: seq<NodeValue>)
    requires AllFound(links, me, nodes) && DistinctBases(me, nodes)
    requires forall i, j :: 0 <= i < j < |nodes| ==> nodes[i].name != nodes[j].name
    ensures Routes.GoodExpected(RoutesFor(links, me, nodes), None)
    decreases |nodes|
  {
    hide NameFor, Routes.GoodExpected, DistinctBases;
    if nodes == [] {
      Routes.NoneIsGood(None);
    } else {
      var init, last := nodes[..|nodes| - 1], nodes[|nodes| - 1];
      assert nodes == init + [last];
      FewerBases(me, init, last);
      RoutesGood(links, me, init);
      if Wanted(me, last) {
        forall e | e in RoutesFor(links, me, init) ensures e.dst != last.podCIDR {
          RouteMembers(links, me, init);
          var r :| r in init && Wanted(me, r) && e == RouteVia(links[NameFor(r)].index, r);
          assert r.name != last.name;
          OtherNetwork(me, nodes, r, last);
        }
        Routes.GoodSnoc(RoutesFor(links, me, init), RouteVia(links[NameFor(last)].index, last), None);
      } else {
        assert RoutesFor(links, me, nodes) == RoutesFor(links, me, init);
      }
    }
  }

  lemma FewerBases(me: NodeValue, init: seq<NodeValue>, last: NodeValue)
    requires DistinctBases(me, init + [last])
    ensures DistinctBases(me, init)
  {
    hide Wanted;
    assert forall r :: r in init ==> r in init + [last];
  }

  lemma OtherNetwork(me: NodeValue, nodes: seq<NodeValue>, r: NodeValue, s: NodeValue)
    requires DistinctBases(me, nodes) && r in nodes && s in nodes && r != s && Wanted(me, r) && Wanted(me, s)
    ensures r.podCIDR != s.podCIDR
  {
  }

  /** A completed run leaves a route to every wanted node's pods through its tunnel, and removes none. */
  lemma RoutesReach(t: Routes.Fib, u: Routes.Fib, links: LinkTable, me: NodeValue, nodes: seq<NodeValue>, r: NodeValue)
    requires Routed(t, u, links, me, nodes) && Routes.WellKeyed(t) && DistinctBases(me, nodes)
    requires forall i, j :: 0 <= i < j < |nodes| ==> nodes[i].name != nodes[j].name
    requires r in nodes && r.name != me.name && r.address.Some? && r.podCIDR.Some? && r.podCIDR.value.ip.V4?
    requires forall n :: n in nodes && Wanted(me, n) ==> Routes.UniqueTo(t, None, n.podCIDR)
    ensures NameFor(r) in links && Routes.FibKey(r.podCIDR, 0, 0) in u
    ensures u[Routes.FibKey(r.podCIDR, 0, 0)] ==
            Routes.Route(links[NameFor(r)].index, 0, 0, r.podCIDR, None, None, [], 3, 0, 254, 1, 0, 0)
    ensures t.Keys <= u.Keys
  {
    hide RoutesFor;
    RoutesGood(links, me, nodes);
    var expected := RoutesFor(links, me, nodes);
    var ops :| Routes.Plan(t, None, expected, false, ops) && Accepted(t, ops) && u == Exec(t, ops);
    RouteMembers(links, me, nodes);
    Routes.ReachesWithoutDeletion(t, None, expected, ops);
    assert RouteVia(links[NameFor(r)].index, r) in expected;
    forall k | k in t ensures k in u {
      if forall e :: e in expected ==> Routes.KeyOf(e) != k {
        assert SameAt(t, u, k);
      }
    }
  }

  /**
    The provider does not wait for the local node to be identified.  When the predicate accepts no
    other node among those shown so far, the provider wants a tunnel to the local node itself if and
    only if no event so far has shown a node that the predicate accepts, as with a match on a machine
    ID that is not reported yet.
   */
  lemma SelfTunnelIffNotIdentified(c: Config, states: seq<Watcher.WatchState>, events: seq<Watcher.Event>, j: nat,
                                   local: string)
    requires Watcher.Run(c, states, events) && states[0] == Watcher.INITIAL && j < |states|
    requires forall i :: 0 <= i < |events| && i < j ==> Watcher.AcceptsOnly(c, events[i], local)
    requires local != "" && local in states[j].nodeMap.nodes
    ensures WellFormed(states[j].nodeMap)
    ensures var m := states[j].nodeMap;
            Wanted(MeOf(m), m.nodes[local]) <==>
            && Planable(m.nodes[local]) && m.nodes[local].podCIDR.value.ip.V4?
            && forall i :: 0 <= i < j ==> !Watcher.Identifies(c, events[i])
  {
    hide Watcher.Run;
    Watcher.SelfNeverMistaken(c, states, events, j, local);
    Watcher.UnknownIffNotShown(c, states, events, j);
  }

  /** The event shows a node that has reported the machine ID. */
  ghost predicate ReportsId(e: Watcher.Event, id: string) {
    exists n :: Watcher.Carries(e, n) && n.info.machineID == id
  }

  /**
    With the match on a machine ID, in a cluster where only the local node ever reports it, the provider
    wants a tunnel to the local node exactly until the ID is reported.
   */
  lemma SelfTunnelUntilIdReported(c: Config, states: seq<Watcher.WatchState>, events: seq<Watcher.Event>, j: nat,
                                  local: string, id: string)
    requires Watcher.Run(c, states, events) && states[0] == Watcher.INITIAL && j < |states|
    requires forall n :: c.isMe(n) <==> n.info.machineID == id
    requires forall i, n :: 0 <= i < |events| && Watcher.Carries(events[i], n) && n.info.machineID == id ==>
             n.name == local
    requires local != "" && local in states[j].nodeMap.nodes
    ensures WellFormed(states[j].nodeMap)
    ensures var m := states[j].nodeMap;
            Wanted(MeOf(m), m.nodes[local]) <==>
            && Planable(m.nodes[local]) && m.nodes[local].podCIDR.value.ip.V4?
            && forall i :: 0 <= i < j ==> !ReportsId(events[i], id)
  {
    hide Watcher.Run, Watcher.Carries, Wanted;
    assert |states| == |events| + 1 by {
      Watcher.RunStep(c, states, events, j);
    }
    forall i | 0 <= i < |events|
      ensures Watcher.AcceptsOnly(c, events[i], local) &&
              (Watcher.Identifies(c, events[i]) <==> ReportsId(events[i], id))
    {
    }
    SelfTunnelIffNotIdentified(c, states, events, j, local);
  }

  /** A first list that shows the local node before the predicate accepts it makes the provider want a tunnel to it. */
  lemma EarlyListTunnelsToSelf(c: Config, n: ApiNode)
    requires !c.isMe(n) && n.name != "" && Planable(Project(c.parsers, n)) && Cidr(Project(c.parsers, n)).ip.V4?
    ensures var m := MarkReady(ReplaceAllNodes(c, EMPTY_MAP, [n]));
            m.ready && WellFormed(m) && n.name in m.nodes && Wanted(MeOf(m), m.nodes[n.name])
  {
    hide Project, ReplaceAllNodes, Watcher.Follows, Watcher.ProjectAll;
    var s, e := Watcher.INITIAL, Watcher.Listed([n]);
    var m := ReplaceAllNodes(c, EMPTY_MAP, [n]);
    assert m == Watcher.Next(c, s, e).nodeMap;
    Watcher.StepIdentifies(c, s, e);
    Watcher.ListOne(c, n);
  }
}
