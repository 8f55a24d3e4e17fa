/** The vxlan2 provider object: it configures its link once and then applies every new version of the node map. */
module VxlanProvider {
  import opened Options
  import opened Addresses
  import opened Nodes
  import opened NodeMaps
  import opened KernelTables
  import opened Links
  import opened VxlanPlanner
  import LinkAddresses
  import Neighbours
  import Routes

  datatype Outcome = Done | Failed | Fatal

  const LINK_NAME: string := "vxlan1"
  const ADDR_FLAGS: nat := 128

  function LinkAddress(cidr: Net): LinkAddresses.Addr {
    LinkAddresses.Addr(Net(cidr.ip, Mask.Mask(32, 32)), LINK_NAME, ADDR_FLAGS, 0)
  }

  /** Everything about an existing link that the provider does not manage. */
  function Unmanaged(l: Link): Link {
    l.(mac := None, mtu := 0, up := false)
  }

  /** The link carries the MAC of the pod network, the configured MTU, and is up. */
  ghost predicate LinkReady(l: Link, cidr: Net, mtu: int) {
    cidr.ip.V4? && l.mac == Some(MapToMac(cidr.ip.addr)) && l.mtu == mtu && l.up
  }

  /** What a completed `EnsureLink` leaves. */
  ghost predicate LinkConfigured(t: LinkTable, u: LinkTable, cidr: Net, mtu: int, link: Link) {
    LinkFrame(t, u) && LINK_NAME in u && LinkReady(u[LINK_NAME], cidr, mtu) && u[LINK_NAME].index == link.index
  }

  /** Other links are untouched, and an existing link keeps what the provider does not manage. */
  ghost predicate LinkFrame(t: LinkTable, u: LinkTable) {
    && t.Keys <= u.Keys <= t.Keys + {LINK_NAME}
    && (LINK_NAME in t ==> Unmanaged(u[LINK_NAME]) == Unmanaged(t[LINK_NAME]))
    && forall n :: n in t && n != LINK_NAME ==> u[n] == t[n]
  }

  /** The addresses are untouched or part of the way to the wanted ones. */
  ghost predicate AddressesOnTheWay(t: LinkAddresses.AddrTable, u: LinkAddresses.AddrTable, cidr: Net) {
    u == t || exists adds, dels, n: nat ::
      && LinkAddresses.Plan(t, LinkAddresses.ByNet([LinkAddress(cidr)]), adds, dels)
      && n <= |adds + dels| && u == Exec(t, (adds + dels)[..n])
  }

  /** Another address sits at the network of the link's own. */
  ghost predicate AddressTaken(t: LinkAddresses.AddrTable, cidr: Net) {
    !LinkAddresses.Unobstructed(t, LinkAddresses.ByNet([LinkAddress(cidr)]))
  }

  /** The link that exists under the name is of another kind. */
  ghost predicate WrongKind(t: LinkTable) {
    LINK_NAME in t && t[LINK_NAME].kind != Vxlan
  }

  /**
    The link has the /32 of `ip`, labelled and flagged as the provider wants it, and the link-local
    addresses from before.
   */
  ghost predicate OnlyAddress(t: LinkAddresses.AddrTable, u: LinkAddresses.AddrTable, ip: IP) {
    var own := Net(ip, Mask.Mask(32, 32));
    && own in u && u[own] == LinkAddresses.Addr(own, "vxlan1", 128, 0)
    && forall n :: n != own ==>
         if n in t && LinkAddresses.LinkLocal(t[n]) then n in u && u[n] == t[n] else n !in u
  }

  lemma DesiredIsOnlyAddress(t: LinkAddresses.AddrTable, cidr: Net)
    ensures OnlyAddress(t, LinkAddresses.Desired(t, LinkAddresses.ByNet([LinkAddress(cidr)])), cidr.ip)
  {
    hide LinkAddresses.LinkLocal;
    var a := LinkAddress(cidr);
    assert [a][..0] == [];
    LinkAddresses.ByNetOne(a);
  }

  /** A pod network that is not IPv4, of a peer or when the link is to be set up, or a link of another kind. */
  ghost predicate MustAbort(me: NodeValue, nodes: seq<NodeValue>, link: Option<Link>, links: LinkTable)
    requires Planable(me)
  {
    || (link.None? && (!me.podCIDR.value.ip.V4? || WrongKind(links)))
    || exists r :: r in nodes && r.name != me.name && r.address.Some? && r.podCIDR.Some? && !r.podCIDR.value.ip.V4?
  }

  class Vxlan2Provider {
    const mtu: int
    var link: Option<Link>
    var lastVersionApplied: nat
    const links: Table<string, Link>
    const addrs: Table<Net, LinkAddresses.Addr>
    const neighs: Table<Neighbours.NeighKey, Neighbours.Neigh>
    const fib: Table<Routes.FibKey, Routes.Route>

    constructor (mtu: int, links: Table<string, Link>, addrs: Table<Net, LinkAddresses.Addr>,
                 neighs: Table<Neighbours.NeighKey, Neighbours.Neigh>, fib: Table<Routes.FibKey, Routes.Route>)
      ensures this.mtu == mtu && link == None && lastVersionApplied == 0
      ensures this.links == links && this.addrs == addrs && this.neighs == neighs && this.fib == fib
    {
      this.mtu, this.links, this.addrs, this.neighs, this.fib := mtu, links, addrs, neighs, fib;
      link, lastVersionApplied := None, 0;
    }

    /** Finds the link, or creates it with an index of the kernel's choosing. */
    method FindOrAdd(expected: Link) returns (ok: bool, actual: Link)
      requires expected.name == LINK_NAME
      modifies links
      ensures !ok ==> LINK_NAME !in old(links.entries) && links.entries == old(links.entries)
      ensures ok ==> LINK_NAME in links.entries && links.entries[LINK_NAME] == actual
      ensures ok && LINK_NAME in old(links.entries) ==> links.entries == old(links.entries)
      ensures ok && LINK_NAME !in old(links.entries) ==>
                links.entries == old(links.entries)[LINK_NAME := expected.(index := actual.index)]
      ensures links.reliable ==> ok
    {
      if LINK_NAME in links.entries {
        return true, links.entries[LINK_NAME];
      }
      var index: int := *;
      ok := links.Apply(Op.Add(LINK_NAME, expected.(index := index)));
      actual := expected.(index := index);
    }

    method SetLink(value: Link) returns (ok: bool)
      requires LINK_NAME in links.entries
      modifies links
      ensures links.entries == if ok then old(links.entries)[LINK_NAME := value] else old(links.entries)
      ensures links.reliable ==> ok
    {
      ok := links.Apply(Op.Update(LINK_NAME, value));
    }

    /** Each set only when it differs. */
    method SetMacAndMtu(actual: Link, mac: Neighbours.Mac) returns (ok: bool)
      requires LINK_NAME in links.entries && links.entries[LINK_NAME] == actual
      modifies links
      ensures LinkFrame(old(links.entries), links.entries)
      ensures ok ==> links.entries == old(links.entries)[LINK_NAME := actual.(mac := Some(mac), mtu := mtu)]
      ensures links.reliable ==> ok
    {
      if actual.mac != Some(mac) {
        ok := SetLink(actual.(mac := Some(mac)));
        if !ok {
          return false;
        }
      }
      if actual.mtu != mtu {
        ok := SetLink(links.entries[LINK_NAME].(mtu := mtu));
        if !ok {
          return false;
        }
      }
      ok := true;
    }

    /** Link, MAC, MTU, address and flag, each set only when it differs. */
    method EnsureLink(me: Option<IP>, cidr: Net) returns (outcome: Outcome, found: Link)
      requires LinkAddresses.WellKeyed(addrs.entries)
      modifies links, addrs
      ensures outcome == Fatal <==> !cidr.ip.V4?
      ensures outcome == Fatal ==> links.entries == old(links.entries) && addrs.entries == old(addrs.entries)
      ensures outcome == Done ==>
                && LinkConfigured(old(links.entries), links.entries, cidr, mtu, found)
                && addrs.entries == LinkAddresses.Desired(old(addrs.entries), LinkAddresses.ByNet([LinkAddress(cidr)]))
      ensures LinkFrame(old(links.entries), links.entries) && AddressesOnTheWay(old(addrs.entries), addrs.entries, cidr)
      ensures links.reliable && addrs.reliable && outcome == Failed ==> AddressTaken(old(addrs.entries), cidr)
      ensures outcome != Fatal && LINK_NAME in old(links.entries) ==> found.kind == old(links.entries)[LINK_NAME].kind
      ensures outcome == Done && LINK_NAME !in old(links.entries) ==>
                && found.kind == Vxlan
                && links.entries["vxlan1"] ==
                     Link("vxlan1", found.index, Vxlan, Some(MapToMac(cidr.ip.addr)), mtu, true, me, None, 0)
      ensures outcome == Done ==> OnlyAddress(old(addrs.entries), addrs.entries, cidr.ip)
    {
      if !cidr.ip.V4? {
        return Fatal, Link("", 0, OtherLink, None, 0, false, None, None, 0);
      }
      var mac := MapToMac(cidr.ip.addr);
      var ok, actual := FindOrAdd(Link(LINK_NAME, 0, Vxlan, Some(mac), mtu, false, me, None, 0));
      if !ok {
        return Failed, actual;
      }
      ok := SetMacAndMtu(actual, mac);
      if !ok {
        return Failed, actual;
      }
      var addressed := EnsureAddress(cidr);
      if !addressed {
        return Failed, actual;
      }
      if !actual.up {
        var applied := SetLink(links.entries[LINK_NAME].(up := true));
        if !applied {
          return Failed, actual;
        }
      }
      return Done, actual;
    }

    method EnsureAddress(cidr: Net) returns (ok: bool)
      requires LinkAddresses.WellKeyed(addrs.entries)
      modifies addrs
      ensures ok ==>
                addrs.entries == LinkAddresses.Desired(old(addrs.entries), LinkAddresses.ByNet([LinkAddress(cidr)]))
      ensures ok ==> OnlyAddress(old(addrs.entries), addrs.entries, cidr.ip)
      ensures AddressesOnTheWay(old(addrs.entries), addrs.entries, cidr)
      ensures addrs.reliable ==>
                (ok <==> LinkAddresses.Unobstructed(old(addrs.entries), LinkAddresses.ByNet([LinkAddress(cidr)])))
    {
      var applied, adds, dels, n := LinkAddresses.Ensure(addrs, [LinkAddress(cidr)]);
      LinkAddresses.ConvergesIffUnobstructed(old(addrs.entries), LinkAddresses.ByNet([LinkAddress(cidr)]), adds, dels);
      assert applied ==> (adds + dels)[..n] == adds + dels;
      DesiredIsOnlyAddress(old(addrs.entries), cidr);
      ok := applied;
    }

    /** The link exists and was configured for the pod network of `base`; nobody configures it again. */
    ghost predicate LinkIsFor(base: Net)
      reads this, links
    {
      link.Some? && LINK_NAME in links.entries && LinkReady(links.entries[LINK_NAME], base, mtu)
    }

    /** On the first successful call the link is configured for the local pod network; later calls leave it alone. */
    method FindLink(me: NodeValue) returns (outcome: Outcome)
      requires Planable(me) && LinkAddresses.WellKeyed(addrs.entries)
      modifies this`link, links, addrs
      ensures old(link).Some? ==>
                && outcome == Done && link == old(link)
                && links.entries == old(links.entries) && addrs.entries == old(addrs.entries)
      ensures old(link).None? && outcome != Done ==> link == None
      ensures old(link).None? && outcome == Done ==>
                && LinkIsFor(me.podCIDR.value)
                && LinkConfigured(old(links.entries), links.entries, me.podCIDR.value, mtu, link.value)
      ensures outcome == Fatal ==> old(link).None? && (!me.podCIDR.value.ip.V4? || WrongKind(old(links.entries)))
      ensures old(link).None? && (!me.podCIDR.value.ip.V4? || WrongKind(old(links.entries))) ==> outcome != Done
      ensures outcome == Failed && links.reliable && addrs.reliable ==>
              AddressTaken(old(addrs.entries), me.podCIDR.value)
    {
      if link.Some? {
        return Done;
      }
      var found;
      outcome, found := EnsureLink(me.address, me.podCIDR.value);
      if outcome != Done {
        return;
      }
      if !found.kind.Vxlan? {
        return Fatal;
      }
      link := Some(found);
    }

    /** Both tables, neighbours first. */
    method ApplyTables(me: NodeValue, nodes: seq<NodeValue>) returns (outcome: Outcome, ghost run: Performed)
      requires link.Some? && Neighbours.WellKeyed(neighs.entries) && Routes.WellKeyed(fib.entries)
      modifies neighs, fib
      ensures outcome == Fatal <==> !AllRoutable(Peers(me, nodes))
      ensures outcome == Fatal <==>
                exists r ::
                  r in nodes && r.name != me.name && r.address.Some? && r.podCIDR.Some? && !r.podCIDR.value.ip.V4?
      ensures outcome == Fatal ==> neighs.entries == old(neighs.entries) && fib.entries == old(fib.entries)
      ensures outcome != Fatal ==>
                && Attempted(link.value.index, Peers(me, nodes), run,
                             old(neighs.entries), neighs.entries, old(fib.entries), fib.entries)
                && (outcome == Done <==> Complete(run))
      ensures outcome == Failed && neighs.reliable && fib.reliable ==> !Accepted(old(fib.entries), run.fibOps)
    {
      run := NOTHING;
      var fatal, ns, rs := BuildPlan(link.value.index, me, nodes);
      if fatal {
        return Fatal, run;
      }
      var showsFdb: bool := *;
      var ok, nops, n := Neighbours.Ensure(neighs, link.value.index, showsFdb, ns);
      run := Performed(nops, n, [], 0);
      if !ok {
        return Failed, run;
      }
      RouteMembers(link.value.index, Peers(me, nodes));
      var applied, fops, m := Routes.Ensure(fib, Some(link.value.index), rs, true);
      run := Performed(nops, n, fops, m);
      return if applied then Done else Failed, run;
    }

    /** The link on the first call, then both tables. */
    method Apply(me: NodeValue, nodes: seq<NodeValue>) returns (outcome: Outcome, ghost run: Performed)
      requires Planable(me) && LinkAddresses.WellKeyed(addrs.entries)
      requires Neighbours.WellKeyed(neighs.entries) && Routes.WellKeyed(fib.entries)
      modifies this`link, links, addrs, neighs, fib
      ensures old(link).Some? ==>
                link == old(link) && links.entries == old(links.entries) && addrs.entries == old(addrs.entries)
      ensures old(link).None? && link.Some? ==> LinkIsFor(me.podCIDR.value)
      ensures outcome == Done ==>
                && link.Some? && Complete(run)
                && Attempted(link.value.index, Peers(me, nodes), run,
                             old(neighs.entries), neighs.entries, old(fib.entries), fib.entries)
      ensures outcome == Fatal ==> MustAbort(me, nodes, old(link), old(links.entries))
      ensures outcome == Failed ==>
                if link.Some? then
                  && !Complete(run)
                  && Attempted(link.value.index, Peers(me, nodes), run,
                               old(neighs.entries), neighs.entries, old(fib.entries), fib.entries)
                  && (neighs.reliable && fib.reliable ==> !Accepted(old(fib.entries), run.fibOps))
                else
                  && neighs.entries == old(neighs.entries) && fib.entries == old(fib.entries)
                  && (links.reliable && addrs.reliable ==> AddressTaken(old(addrs.entries), me.podCIDR.value))
    {
      hide Attempted, Complete, AddressTaken, WrongKind, AllRoutable, Peers, LinkConfigured, LinkReady,
        LinkAddresses.WellKeyed, Neighbours.WellKeyed, Routes.WellKeyed, Accepted;
      run := NOTHING;
      outcome := FindLink(me);
      if outcome == Done {
        outcome, run := ApplyTables(me, nodes);
      }
    }

    /**
      The fast path changes nothing.  Otherwise the version is recorded exactly on success, after complete
      runs for the peers of the snapshot; a failed call leaves the tables untouched or part of the way.
     */
    method EnsureCIDRs(nodeMap: NodeMap)
      returns (outcome: Outcome, ghost list: seq<NodeValue>, ghost run: Performed)
      requires nodeMap.Valid() && LinkAddresses.WellKeyed(addrs.entries)
      requires Neighbours.WellKeyed(neighs.entries) && Routes.WellKeyed(fib.entries)
      modifies this, links, addrs, neighs, fib
      ensures nodeMap.state == old(nodeMap.state) && WellFormed(nodeMap.state)
      ensures old(lastVersionApplied) != 0 && nodeMap.state.version == old(lastVersionApplied) ==>
                && outcome == Done && unchanged(this)
                && unchanged(links) && unchanged(addrs) && unchanged(neighs) && unchanged(fib)
      ensures outcome != Done ==> lastVersionApplied == old(lastVersionApplied)
      ensures outcome == Done && (old(lastVersionApplied) == 0 || nodeMap.state.version != old(lastVersionApplied)) ==>
                && nodeMap.state.ready && Enumerates(list, nodeMap.state.nodes)
                && Planable(MeOf(nodeMap.state)) && link.Some? && Complete(run)
                && Attempted(link.value.index, Peers(MeOf(nodeMap.state), list), run,
                             old(neighs.entries), neighs.entries, old(fib.entries), fib.entries)
                && lastVersionApplied == nodeMap.state.version
      ensures old(link).Some? ==>
                link == old(link) && links.entries == old(links.entries) && addrs.entries == old(addrs.entries)
      ensures forall base :: old(LinkIsFor(base)) ==> LinkIsFor(base)
      ensures old(link).None? && link.Some? ==>
                Planable(MeOf(nodeMap.state)) && LinkIsFor(MeOf(nodeMap.state).podCIDR.value)
      ensures outcome == Fatal ==>
                && Planable(MeOf(nodeMap.state))
                && MustAbort(MeOf(nodeMap.state), list, old(link), old(links.entries))
      ensures outcome == Failed ==>
                var me := MeOf(nodeMap.state);
                if nodeMap.state.ready && Planable(me) && link.Some? then
                  && Enumerates(list, nodeMap.state.nodes) && !Complete(run)
                  && Attempted(link.value.index, Peers(me, list), run,
                               old(neighs.entries), neighs.entries, old(fib.entries), fib.entries)
                  && (neighs.reliable && fib.reliable ==> !Accepted(old(fib.entries), run.fibOps))
                else
                  && neighs.entries == old(neighs.entries) && fib.entries == old(fib.entries)
                  && (nodeMap.state.ready && Planable(me) && links.reliable && addrs.reliable ==>
                        AddressTaken(old(addrs.entries), me.podCIDR.value))
    {
      hide NodeMap.Valid, WellFormed, Enumerates, Attempted, Complete, AddressTaken, MustAbort, Peers, LinkReady,
        LinkAddresses.WellKeyed, Neighbours.WellKeyed, Routes.WellKeyed, Accepted;
      nodeMap.ValidIsWellFormed();
      list, run := [], NOTHING;
      if lastVersionApplied != 0 {
        var same := nodeMap.IsVersion(lastVersionApplied);
        if same {
          return Done, list, run;
        }
      }
      var present, me, nodes, version := nodeMap.TakeSnapshot();
      if !present || me.podCIDR.None? || me.address.None? {
        return Failed, list, run;
      }
      list := nodes;
      outcome, run := Apply(me, nodes);
      if outcome == Done {
        lastVersionApplied := version;
      }
    }
  }

  /** The two runs of a call, and how many operations of each were performed. */
  datatype Performed = Performed(
    neighOps: seq<Neighbours.NeighOp>, neighDone: nat, fibOps: seq<Routes.FibOp>, fibDone: nat)

  const NOTHING := Performed([], 0, [], 0)

  ghost predicate Complete(run: Performed) {
    run.neighDone == |run.neighOps| && run.fibDone == |run.fibOps|
  }

  /** The tables after a call that got as far as `run` says; routes are planned once all neighbours are done. */
  ghost predicate Attempted(index: int, peers: seq<NodeValue>, run: Performed,
                            neigh: Neighbours.NeighTable, neigh': Neighbours.NeighTable,
                            fib: Routes.Fib, fib': Routes.Fib) {
    && AllRoutable(peers) && Neighbours.Plan(neigh, NeighPlan(index, peers), run.neighOps)
    && Stopped(neigh, neigh', run.neighOps, run.neighDone)
    && if run.neighDone < |run.neighOps| then fib' == fib && run.fibOps == [] else
         && Routes.Plan(fib, Some(index), RoutePlan(index, peers), true, run.fibOps)
         && Stopped(fib, fib', run.fibOps, run.fibDone)
  }

  /**
    MAC agreement: what another node puts into its ARP and forwarding entries for this node is
    the MAC on this node's link if and only if its pod network still starts where it did when
    the link was configured.
   */
  lemma MacsAgreeIffBaseUnchanged(p: Vxlan2Provider, base: Net, remoteLink: int, v: NodeValue)
    requires p.LinkIsFor(base) && Routable(v)
    ensures ArpFor(remoteLink, v).mac == FdbFor(remoteLink, v).mac
    ensures MacBytes(ArpFor(remoteLink, v).mac) == MacBytes(p.links.entries[LINK_NAME].mac.value) <==>
            v.podCIDR.value.ip == base.ip
  {
    if MacBytes(ArpFor(remoteLink, v).mac) == MacBytes(p.links.entries[LINK_NAME].mac.value) {
      MacsInjective(v.podCIDR.value.ip.addr, base.ip.addr);
    }
  }
}
