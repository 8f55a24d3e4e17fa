/**
  What the IPsec plans achieve: distinct SPIs, plans of two nodes that mirror each other,
  one tunnel per packet, and tables that end up holding exactly the plan.
 */
module IpsecMesh {
  import opened Options
  import opened Addresses
  import opened Nodes
  import opened Sequences
  import opened KernelTables
  import opened Xfrm
  import opened IpsecPlanner
  import XfrmStates
  import XfrmPolicies

  /** Nodes with IPv4 addresses, disjoint pod networks, and every address outside all of them. */
  ghost predicate Mesh(all: seq<NodeValue>) {
    && (forall v :: v in all ==> Planable(v) && v.address.value.V4? && IsCidr4(Cidr(v)))
    && (forall i, j :: 0 <= i < j < |all| ==> Disjoint(Cidr(all[i]), Cidr(all[j])) && all[i].address != all[j].address)
    && (forall v, w :: v in all && w in all ==> !Contains(Cidr(v), w.address.value.addr))
  }

  /** Pod networks of one length inside a supernet at most 14 bits shorter. */
  ghost predicate OneSupernet(all: seq<NodeValue>, net: bv32, sup: bv8, ones: bv8) {
    AtMost14More(sup, ones) && forall v :: v in all ==>
      v.podCIDR.Some? && v.podCIDR.value.mask == Mask.Mask(ones, 32) && Inside(v.podCIDR.value, net, sup)
  }

  /** Different nodes of a mesh share neither an address nor a pod address. */
  lemma MeshApart(all: seq<NodeValue>, v: NodeValue, w: NodeValue)
    requires Mesh(all) && v in all && w in all && v != w
    ensures v.address != w.address && Disjoint(Cidr(v), Cidr(w)) && Disjoint(Cidr(w), Cidr(v)) && Cidr(v) != Cidr(w)
  {
    var i :| 0 <= i < |all| && all[i] == v;
    var j :| 0 <= j < |all| && all[j] == w;
    if i < j {
      assert Disjoint(Cidr(all[i]), Cidr(all[j]));
    } else {
      assert Disjoint(Cidr(all[j]), Cidr(all[i]));
    }
    BaseContained(Cidr(v));
    BaseContained(Cidr(w));
  }

  // ----- numerals -----

  /** The numerals of the nodes are pairwise different. */
  ghost predicate NumeralsApart(all: seq<NodeValue>) {
    forall i, j :: 0 <= i < j < |all| ==> NumeralOf(all[i]) != NumeralOf(all[j])
  }

  lemma NumeralsApartAt(all: seq<NodeValue>, v: NodeValue, w: NodeValue)
    requires NumeralsApart(all) && v in all && w in all && v != w
    ensures NumeralOf(v) != NumeralOf(w)
  {
    hide NumeralOf;
    var i :| 0 <= i < |all| && all[i] == v;
    var j :| 0 <= j < |all| && all[j] == w;
  }

  /** Different networks of one length in one supernet at most 14 bits shorter have different numerals. */
  lemma NumeralsDistinct(v: NodeValue, w: NodeValue, net: bv32, sup: bv8, ones: bv8)
    requires OneSupernet([v, w], net, sup, ones) && v.podCIDR != w.podCIDR
    requires v.podCIDR.Some? && IsCidr4(v.podCIDR.value) && w.podCIDR.Some? && IsCidr4(w.podCIDR.value)
    ensures NumeralOf(v) != NumeralOf(w)
  {
    hide InPrefix, NumeralBits;
    assert v in [v, w] && w in [v, w];
    if NumeralOf(v) == NumeralOf(w) {
      NumeralInjective(v.podCIDR.value, w.podCIDR.value, net, sup);
    }
  }

  /** In one supernet, numerals are pairwise different if and only if the pod networks are. */
  lemma ApartIffNetworksDiffer(all: seq<NodeValue>, net: bv32, sup: bv8, ones: bv8)
    requires OneSupernet(all, net, sup, ones) && forall v :: v in all ==> v.podCIDR.Some? && IsCidr4(v.podCIDR.value)
    ensures NumeralsApart(all) <==> forall i, j :: 0 <= i < j < |all| ==> all[i].podCIDR != all[j].podCIDR
  {
    hide IsCidr4, Inside, ComputeNumeral;
    forall i, j | 0 <= i < j < |all|
      ensures NumeralOf(all[i]) != NumeralOf(all[j]) <==> all[i].podCIDR != all[j].podCIDR
    {
      assert all[i] in all && all[j] in all;
      if all[i].podCIDR != all[j].podCIDR {
        NumeralsDistinct(all[i], all[j], net, sup, ones);
      }
    }
  }

  /** A mesh in one supernet has pairwise different numerals. */
  lemma MeshNumerals(all: seq<NodeValue>, net: bv32, sup: bv8, ones: bv8)
    requires Mesh(all) && OneSupernet(all, net, sup, ones)
    ensures NumeralsApart(all)
  {
    hide Disjoint, IsCidr4, Inside, NumeralOf;
    ApartIffNetworksDiffer(all, net, sup, ones);
    forall i, j | 0 <= i < j < |all| ensures all[i].podCIDR != all[j].podCIDR {
      assert all[i] in all && all[j] in all && all[i] != all[j];
      MeshApart(all, all[i], all[j]);
    }
  }

  lemma NumeralsPermuted(all: seq<NodeValue>, other: seq<NodeValue>)
    requires NumeralsApart(all) && multiset(all) == multiset(other)
    ensures NumeralsApart(other)
  {
    hide NumeralOf;
    PermutedMembers(all, other);
    PermutedDistinct(all, other);
    forall i, j | 0 <= i < j < |other| ensures NumeralOf(other[i]) != NumeralOf(other[j]) {
      assert other[i] in other && other[j] in other;
      NumeralsApartAt(all, other[i], other[j]);
    }
  }

  // ----- states -----

  lemma {:induction false} StateMembers(st: Strategies, me: NodeValue, peers: seq<NodeValue>)
    ensures forall s :: s in StatePlan(st, me, peers) <==> exists r :: r in peers && s in StatesFor(st, me, r)
    decreases |peers|
  {
    if peers != [] {
      var init, last := peers[..|peers| - 1], peers[|peers| - 1];
      assert peers == init + [last];
      StateMembers(st, me, init);
    }
  }

  /** The number of states: one per header and direction for every peer. */
  lemma {:induction false} StateCount(st: Strategies, me: NodeValue, peers: seq<NodeValue>)
    ensures |StatePlan(st, me, peers)| ==
            |peers| * (2 * ((if st.useAH then 1 else 0) + (if st.useESP then 1 else 0)))
    decreases |peers|
  {
    if peers != [] {
      StateCount(st, me, peers[..|peers| - 1]);
    }
  }

  /** States with one SPI join nodes of the same numerals in the same direction, with one protocol. */
  lemma SameSpiSameNumerals(st: Strategies, a: NodeValue, b: NodeValue, c: NodeValue, d: NodeValue, s: State, e: State)
    requires s in StatesBetween(st, a, b) && e in StatesBetween(st, c, d) && s.spi == e.spi
    ensures NumeralOf(a) == NumeralOf(c) && NumeralOf(b) == NumeralOf(d) && s.proto == e.proto && s.dst == b.address &&
            e.dst == d.address
  {
    hide NumeralOf, PackSpi;
    NumeralBound(a);
    NumeralBound(b);
    NumeralBound(c);
    NumeralBound(d);
    var tag, tag' := if s.proto == PROTO_AH then TAG_AH else TAG_ESP, if e.proto == PROTO_AH then TAG_AH else TAG_ESP;
    assert s.spi == PackSpi(NumeralOf(a), NumeralOf(b), tag) && e.spi == PackSpi(NumeralOf(c), NumeralOf(d), tag');
    PackInjective(NumeralOf(a), NumeralOf(b), tag, NumeralOf(c), NumeralOf(d), tag');
  }

  /** Nodes of the same numerals have states with one SPI, under the destinations' addresses. */
  lemma SameNumeralsSameSpi(st: Strategies, a: NodeValue, b: NodeValue, c: NodeValue, d: NodeValue)
    returns (s: State, e: State)
    requires (st.useAH || st.useESP) && NumeralOf(a) == NumeralOf(c) && NumeralOf(b) == NumeralOf(d)
    ensures s in StatesBetween(st, a, b) && e in StatesBetween(st, c, d) && s.spi == e.spi
    ensures s.dst == b.address && e.dst == d.address
  {
    hide NumeralOf, PackSpi;
    s := StatesBetween(st, a, b)[0];
    e := StatesBetween(st, c, d)[0];
  }

  /** No planned SPI is in the range reserved by section 2.1 of RFC 4303. */
  lemma NoReservedSpi(st: Strategies, me: NodeValue, peers: seq<NodeValue>, s: State)
    requires s in StatePlan(st, me, peers)
    ensures 255 < s.spi.bits
  {
    hide NumeralOf, PackSpi;
    StateMembers(st, me, peers);
    var r :| r in peers && s in StatesFor(st, me, r);
    NumeralBound(me);
    NumeralBound(r);
    var a, b := if s in StatesBetween(st, r, me) then r else me, if s in StatesBetween(st, r, me) then me else r;
    var tag := if s.proto == PROTO_AH then TAG_AH else TAG_ESP;
    assert s.spi == PackSpi(NumeralOf(a), NumeralOf(b), tag);
    PackInjective(NumeralOf(a), NumeralOf(b), tag, NumeralOf(a), NumeralOf(b), tag);
  }

  lemma BetweenDistinct(st: Strategies, a: NodeValue, b: NodeValue)
    ensures XfrmStates.DistinctSpiList(StatesBetween(st, a, b))
  {
    hide NumeralOf, PackSpi;
    NumeralBound(a);
    NumeralBound(b);
    PackInjective(NumeralOf(a), NumeralOf(b), TAG_AH, NumeralOf(a), NumeralOf(b), TAG_ESP);
  }

  lemma StatesOfPairDistinct(st: Strategies, me: NodeValue, r: NodeValue)
    requires NumeralOf(r) != NumeralOf(me)
    ensures XfrmStates.DistinctSpiList(StatesFor(st, me, r))
  {
    hide NumeralOf, StatesBetween, XfrmStates.DistinctSpiList;
    BetweenDistinct(st, r, me);
    BetweenDistinct(st, me, r);
    forall s, e | s in StatesBetween(st, r, me) && e in StatesBetween(st, me, r) ensures s.spi != e.spi {
      if s.spi == e.spi {
        SameSpiSameNumerals(st, r, me, me, r, s, e);
      }
    }
    ConcatDistinct(StatesBetween(st, r, me), StatesBetween(st, me, r));
  }

  /** The states of two peers share no SPI. */
  lemma PairsShareNoSpi(st: Strategies, me: NodeValue, r: NodeValue, q: NodeValue, s: State, e: State)
    requires NumeralOf(r) != NumeralOf(me) && NumeralOf(q) != NumeralOf(me) && NumeralOf(r) != NumeralOf(q)
    requires s in StatesFor(st, me, r) && e in StatesFor(st, me, q)
    ensures s.spi != e.spi
  {
    hide NumeralOf, StatesBetween;
    var a, b := if s in StatesBetween(st, r, me) then r else me, if s in StatesBetween(st, r, me) then me else r;
    var c, d := if e in StatesBetween(st, q, me) then q else me, if e in StatesBetween(st, q, me) then me else q;
    if s.spi == e.spi {
      SameSpiSameNumerals(st, a, b, c, d, s, e);
    }
  }

  lemma {:induction false} ApartMeansDistinct(st: Strategies, me: NodeValue, peers: seq<NodeValue>)
    requires NumeralsApart([me] + peers)
    ensures XfrmStates.DistinctSpiList(StatePlan(st, me, peers))
    decreases |peers|
  {
    hide NumeralOf, StatesFor;
    if peers != [] {
      var init, last := peers[..|peers| - 1], peers[|peers| - 1];
      assert peers == init + [last];
      var all, part := [me] + peers, [me] + init;
      assert forall i :: 0 <= i < |part| ==> part[i] == all[i];
      ApartMeansDistinct(st, me, init);
      assert all[0] == me && all[|all| - 1] == last;
      StatesOfPairDistinct(st, me, last);
      var before, added := StatePlan(st, me, init), StatesFor(st, me, last);
      forall s, e | s in before && e in added ensures s.spi != e.spi {
        StateMembers(st, me, init);
        var r :| r in init && s in StatesFor(st, me, r);
        var i :| 0 <= i < |init| && init[i] == r;
        assert all[i + 1] == r;
        PairsShareNoSpi(st, me, r, last, s, e);
      }
      ConcatDistinct(before, added);
    }
  }

  lemma {:induction false} DistinctMeansApart(st: Strategies, me: NodeValue, peers: seq<NodeValue>)
    requires (st.useAH || st.useESP) && XfrmStates.DistinctSpiList(StatePlan(st, me, peers))
    ensures NumeralsApart([me] + peers)
    decreases |peers|
  {
    hide NumeralOf, StatesBetween;
    if peers != [] {
      var init, last := peers[..|peers| - 1], peers[|peers| - 1];
      assert peers == init + [last];
      var all, part := [me] + peers, [me] + init;
      var before, added := StatePlan(st, me, init), StatesFor(st, me, last);
      SplitDistinct(before, added);
      DistinctMeansApart(st, me, init);
      SplitDistinct(StatesBetween(st, last, me), StatesBetween(st, me, last));
      if NumeralOf(last) == NumeralOf(me) {
        var s, e := SameNumeralsSameSpi(st, last, me, me, last);
      }
      forall r | r in init ensures NumeralOf(r) != NumeralOf(last) {
        if NumeralOf(r) == NumeralOf(last) {
          var s, e := SharedSpi(st, me, init, r, last);
        }
      }
      forall i, j | 0 <= i < j < |all| ensures NumeralOf(all[i]) != NumeralOf(all[j]) {
        if j < |part| {
          assert all[i] == part[i] && all[j] == part[j];
        } else if i != 0 {
          assert all[i] == init[i - 1] && init[i - 1] in init;
        }
      }
    }
  }

  /** A new peer with the numeral of an earlier one repeats an SPI. */
  lemma SharedSpi(st: Strategies, me: NodeValue, peers: seq<NodeValue>, r: NodeValue, q: NodeValue)
    returns (s: State, e: State)
    requires (st.useAH || st.useESP) && r in peers && NumeralOf(r) == NumeralOf(q)
    ensures s in StatePlan(st, me, peers) && e in StatesFor(st, me, q) && s.spi == e.spi
  {
    hide NumeralOf, StatesBetween;
    s, e := SameNumeralsSameSpi(st, r, me, q, me);
    StateMembers(st, me, peers);
    assert s in StatesFor(st, me, r);
  }

  lemma SplitDistinct(a: seq<State>, b: seq<State>)
    requires XfrmStates.DistinctSpiList(a + b)
    ensures XfrmStates.DistinctSpiList(a) && XfrmStates.DistinctSpiList(b)
    ensures forall s, e :: s in a && e in b ==> s.spi != e.spi
  {
    var c := a + b;
    assert forall i :: 0 <= i < |a| ==> c[i] == a[i];
    assert forall i :: 0 <= i < |b| ==> c[|a| + i] == b[i];
    forall s, e | s in a && e in b ensures s.spi != e.spi {
      var i :| 0 <= i < |a| && a[i] == s;
      var j :| 0 <= j < |b| && b[j] == e;
      assert c[i] == s && c[|a| + j] == e;
    }
  }

  /**
    The planned SPIs are pairwise different, so that the abort on a duplicate is out of reach, if and only if
    the numerals of the local node and its peers are; the nodes' addresses do not matter.
   */
  lemma StatePlanDistinct(st: Strategies, me: NodeValue, peers: seq<NodeValue>)
    ensures XfrmStates.DistinctSpiList(StatePlan(st, me, peers)) <==>
              !(st.useAH || st.useESP) || NumeralsApart([me] + peers)
  {
    hide NumeralOf, NumeralsApart, XfrmStates.DistinctSpiList;
    if !(st.useAH || st.useESP) {
      StateCount(st, me, peers);
      NoStatesDistinct(StatePlan(st, me, peers));
    } else if NumeralsApart([me] + peers) {
      ApartMeansDistinct(st, me, peers);
    } else if XfrmStates.DistinctSpiList(StatePlan(st, me, peers)) {
      DistinctMeansApart(st, me, peers);
    }
  }

  lemma NoStatesDistinct(s: seq<State>)
    requires s == []
    ensures XfrmStates.DistinctSpiList(s)
  {
  }

  lemma ConcatDistinct(a: seq<State>, b: seq<State>)
    requires XfrmStates.DistinctSpiList(a) && XfrmStates.DistinctSpiList(b)
    requires forall s, s' :: s in a && s' in b ==> s.spi != s'.spi
    ensures XfrmStates.DistinctSpiList(a + b)
  {
    var c := a + b;
    forall i, j | 0 <= i < j < |c| ensures c[i].spi != c[j].spi {
      if i < |a| && |a| <= j {
        assert c[i] in a && c[j] in b;
      }
    }
  }

  lemma PrefixMesh(me: NodeValue, init: seq<NodeValue>, last: NodeValue)
    requires Mesh([me] + (init + [last]))
    ensures Mesh([me] + init)
  {
    var all, part := [me] + (init + [last]), [me] + init;
    assert forall i :: 0 <= i < |part| ==> part[i] == all[i];
    assert forall v :: v in part ==> v in all;
  }

  lemma RestIsOther(me: NodeValue, init: seq<NodeValue>, last: NodeValue, r: NodeValue)
    requires Mesh([me] + (init + [last])) && r in init
    ensures r != me && r != last
  {
    var all := [me] + (init + [last]);
    var i :| 0 <= i < |init| && init[i] == r;
    assert all[0] == me && all[i + 1] == r && all[|all| - 1] == last;
  }

  // ----- two nodes that plan independently -----

  /** A node's states towards one peer are the only planned states between the two addresses. */
  lemma StatesTowards(st: Strategies, a: NodeValue, b: NodeValue, peers: seq<NodeValue>, s: State)
    requires Mesh([a] + peers) && b in peers && s.src == a.address && s.dst == b.address
    ensures s in StatePlan(st, a, peers) <==> s in StatesBetween(st, a, b)
  {
    hide InPrefix, IsCidr4, NumeralOf, StatePlan;
    var all := [a] + peers;
    assert a in all && b in all;
    StateMembers(st, a, peers);
    PeerIsOther(a, peers, b);
    MeshApart(all, a, b);
    if s in StatePlan(st, a, peers) {
      var r :| r in peers && s in StatesFor(st, a, r);
      assert r in all;
      PeerIsOther(a, peers, r);
      MeshApart(all, a, r);
      if r != b {
        MeshApart(all, r, b);
      }
    }
    if s in StatesBetween(st, a, b) {
      assert s in StatesFor(st, a, b);
    }
  }

  lemma StatesFrom(st: Strategies, a: NodeValue, b: NodeValue, peers: seq<NodeValue>, s: State)
    requires Mesh([b] + peers) && a in peers && s.src == a.address && s.dst == b.address
    ensures s in StatePlan(st, b, peers) <==> s in StatesBetween(st, a, b)
  {
    hide InPrefix, IsCidr4, NumeralOf, StatePlan;
    var all := [b] + peers;
    assert a in all && b in all;
    StateMembers(st, b, peers);
    PeerIsOther(b, peers, a);
    MeshApart(all, a, b);
    if s in StatePlan(st, b, peers) {
      var r :| r in peers && s in StatesFor(st, b, r);
      assert r in all;
      PeerIsOther(b, peers, r);
      MeshApart(all, b, r);
      if r != a {
        MeshApart(all, r, a);
      }
    }
    if s in StatesBetween(st, a, b) {
      assert s in StatesFor(st, b, a);
    }
  }

  lemma PeerIsOther(me: NodeValue, peers: seq<NodeValue>, r: NodeValue)
    requires Mesh([me] + peers) && r in peers
    ensures r != me
  {
    var all := [me] + peers;
    var i :| 0 <= i < |peers| && peers[i] == r;
    assert all[0] == me && all[i + 1] == r;
  }

  /** The states from `a` to `b` are the same in the plan of `a` and in the plan of `b`. */
  lemma StatesMirror(st: Strategies, a: NodeValue, b: NodeValue, peersA: seq<NodeValue>, peersB: seq<NodeValue>,
                     s: State)
    requires Mesh([a] + peersA) && b in peersA && Mesh([b] + peersB) && a in peersB
    requires s.src == a.address && s.dst == b.address
    ensures s in StatePlan(st, a, peersA) <==> s in StatePlan(st, b, peersB)
  {
    StatesTowards(st, a, b, peersA, s);
    StatesFrom(st, a, b, peersB, s);
  }

  lemma {:induction false} TunnelMembers(me: NodeValue, peers: seq<NodeValue>)
    requires Planable(me) && forall r :: r in peers ==> Planable(r)
    ensures forall p :: p in TunnelPlan(me, peers) <==> exists r :: r in peers && p in PoliciesFor(me, r)
    decreases |peers|
  {
    if peers != [] {
      var init, last := peers[..|peers| - 1], peers[|peers| - 1];
      assert peers == init + [last];
      TunnelMembers(me, init);
    }
  }

  /** The template of the tunnel from `a` to `b`: ESP (50) in tunnel mode (1), any SPI. */
  function TunnelTmpl(a: NodeValue, b: NodeValue): Xfrm.Tmpl {
    Tmpl.Tmpl(b.address, a.address, 50, 1, SPI(0), 0)
  }

  lemma PolicyEnds(a: NodeValue, b: NodeValue, p: Policy)
    requires Planable(a) && Planable(b) && p in PoliciesFor(a, b)
    ensures p.tmpls == [if p.dir == Out then TunnelTmpl(a, b) else TunnelTmpl(b, a)]
  {
  }

  /** The outbound policies of `a` whose tunnel ends at `b` are exactly those for the pair. */
  lemma OutboundPolicies(a: NodeValue, b: NodeValue, peers: seq<NodeValue>, p: Policy)
    requires Mesh([a] + peers) && b in peers && Planable(a) && forall r :: r in peers ==> Planable(r)
    requires p.dir == Out && p.tmpls == [TunnelTmpl(a, b)]
    ensures p in TunnelPlan(a, peers) <==> p in PoliciesFor(a, b)
  {
    hide InPrefix, IsCidr4, PoliciesFor;
    TunnelMembers(a, peers);
    if p in TunnelPlan(a, peers) {
      var r :| r in peers && p in PoliciesFor(a, r);
      assert r in [a] + peers && b in [a] + peers;
      PolicyEnds(a, r, p);
      assert TunnelTmpl(a, r).dst == TunnelTmpl(a, b).dst;
      if r != b {
        MeshApart([a] + peers, r, b);
      }
    }
  }

  lemma InboundPolicies(a: NodeValue, b: NodeValue, peers: seq<NodeValue>, p: Policy)
    requires Mesh([b] + peers) && a in peers && Planable(b) && forall r :: r in peers ==> Planable(r)
    requires p.dir == In && p.tmpls == [TunnelTmpl(a, b)]
    ensures p in TunnelPlan(b, peers) <==> p in PoliciesFor(b, a)
  {
    hide InPrefix, IsCidr4, PoliciesFor;
    TunnelMembers(b, peers);
    if p in TunnelPlan(b, peers) {
      var r :| r in peers && p in PoliciesFor(b, r);
      assert r in [b] + peers && a in [b] + peers;
      PolicyEnds(b, r, p);
      assert TunnelTmpl(r, b).src == TunnelTmpl(a, b).src;
      if r != a {
        MeshApart([b] + peers, r, a);
      }
    }
  }

  /** What `a` sends into the tunnel to `b`, `b` expects out of it: the same networks and template. */
  lemma PoliciesMirror(a: NodeValue, b: NodeValue, peersA: seq<NodeValue>, peersB: seq<NodeValue>, p: Policy)
    requires Mesh([a] + peersA) && b in peersA && Planable(a) && forall r :: r in peersA ==> Planable(r)
    requires Mesh([b] + peersB) && a in peersB && Planable(b) && forall r :: r in peersB ==> Planable(r)
    requires p.dir == Out && p.tmpls == [TunnelTmpl(a, b)]
    ensures p in TunnelPlan(a, peersA) <==> p.(dir := In) in TunnelPlan(b, peersB)
  {
    OutboundPolicies(a, b, peersA, p);
    InboundPolicies(a, b, peersB, p.(dir := In));
    PairMirror(a, b, p);
  }

  /** The pods-to-node group of one end is the node-to-pods group of the other. */
  lemma PairMirror(a: NodeValue, b: NodeValue, p: Policy)
    requires Planable(a) && Planable(b) && p.dir == Out
    ensures p in PoliciesFor(a, b) <==> p.(dir := In) in PoliciesFor(b, a)
  {
    var q := p.(dir := In);
    var x, y := PoliciesFor(a, b), PoliciesFor(b, a);
    assert x[1].(dir := In) == y[0] && x[4].(dir := In) == y[6] && x[7].(dir := In) == y[3];
    assert p in x <==> p == x[1] || p == x[4] || p == x[7];
    assert q in y <==> q == y[0] || q == y[3] || q == y[6];
    assert forall u: Policy, w: Policy :: u.dir == Out && w.dir == Out && u.(dir := In) == w.(dir := In) ==> u == w;
  }

  // ----- policy selection -----

  datatype Packet = Packet(src: bv32, dst: bv32, proto: nat, srcPort: nat, dstPort: nat)

  /** The selector of the policy covers the packet; protocol or port 0 covers all. */
  predicate Selects(p: Policy, k: Packet) {
    && p.src.Some? && Contains(p.src.value, k.src)
    && p.dst.Some? && Contains(p.dst.value, k.dst)
    && (p.proto == 0 || p.proto == k.proto)
    && (p.srcPort == 0 || p.srcPort == k.srcPort)
    && (p.dstPort == 0 || p.dstPort == k.dstPort)
  }

  /** Local pod to remote pod, local pod to remote node, or local node to remote pod. */
  ghost predicate Crosses(me: NodeValue, r: NodeValue, k: Packet)
    requires Planable(me) && Planable(r) && me.address.value.V4? && r.address.value.V4?
  {
    || (Contains(Cidr(me), k.src) && Contains(Cidr(r), k.dst))
    || (Contains(Cidr(me), k.src) && k.dst == r.address.value.addr)
    || (k.src == me.address.value.addr && Contains(Cidr(r), k.dst))
  }

  function Reverse(k: Packet): Packet {
    Packet(k.dst, k.src, k.proto, k.dstPort, k.srcPort)
  }

  /** The packet as the local side sees the connection: outbound as it is, inbound and forwarded turned around. */
  function Facing(dir: Dir, k: Packet): Packet {
    if dir == Out then k else Reverse(k)
  }

  /** A packet to a peer's side, or one from there. */
  ghost predicate Travels(me: NodeValue, r: NodeValue, dir: Dir, k: Packet)
    requires Planable(me) && Planable(r) && me.address.value.V4? && r.address.value.V4?
  {
    dir in {In, Out, Fwd} && Crosses(me, r, Facing(dir, k))
  }

  /** The template of the tunnel that packets of the direction use. */
  function TmplOfDir(me: NodeValue, r: NodeValue, dir: Dir): Xfrm.Tmpl {
    if dir == Out then TunnelTmpl(me, r) else TunnelTmpl(r, me)
  }

  /** The policy that a packet of the direction needs: by its group, and then by direction. */
  function PolicyNeeded(me: NodeValue, r: NodeValue, dir: Dir, k: Packet): Policy
    requires Planable(me) && Planable(r)
  {
    var f := Facing(dir, k);
    var group := if !Contains(Cidr(me), f.src) then 6 else if Contains(Cidr(r), f.dst) then 0 else 3;
    PoliciesFor(me, r)[group + (if dir == In then 0 else if dir == Out then 1 else 2)]
  }

  lemma NeededSelects(me: NodeValue, r: NodeValue, dir: Dir, k: Packet)
    requires Planable(me) && Planable(r) && me.address.value.V4? && r.address.value.V4? && Travels(me, r, dir, k)
    ensures var p := PolicyNeeded(me, r, dir, k);
            && p in PoliciesFor(me, r) && p.dir == dir && p.tmpls == [TmplOfDir(me, r, dir)] && p.priority == 100
            && Selects(p, k)
  {
    hide InPrefix;
    HostContains(r.address.value, Facing(dir, k).dst);
    HostContains(me.address.value, Facing(dir, k).src);
  }

  /** The policies of one direction towards a peer, group by group. */
  lemma PoliciesOfDir(me: NodeValue, x: NodeValue, q: Policy)
    requires Planable(me) && Planable(x) && q in PoliciesFor(me, x)
    ensures var z, d := PoliciesFor(me, x), if q.dir == In then 0 else if q.dir == Out then 1 else 2;
            q == z[d] || q == z[3 + d] || q == z[6 + d]
  {
    hide Host;
    var z := PoliciesFor(me, x);
    assert q == z[0] || q == z[1] || q == z[2] || q == z[3] || q == z[4] || q == z[5] || q == z[6] || q == z[7] ||
      q == z[8];
  }

  /** No other tunnel policy of the direction covers the packet. */
  lemma OnlyNeededSelects(me: NodeValue, peers: seq<NodeValue>, r: NodeValue, x: NodeValue, dir: Dir, k: Packet,
                          q: Policy)
    requires Mesh([me] + peers) && r in peers && x in peers && Planable(me) && Planable(r) && Planable(x)
    requires me.address.value.V4? && r.address.value.V4? && Travels(me, r, dir, k)
    requires q in PoliciesFor(me, x) && q.dir == dir && Selects(q, k)
    ensures q == PolicyNeeded(me, r, dir, k)
  {
    hide InPrefix;
    var all, f := [me] + peers, Facing(dir, k);
    assert me in all && r in all && x in all;
    assert x.address.value.V4?;
    HostContains(x.address.value, f.dst);
    HostContains(me.address.value, f.src);
    if x != r {
      MeshApart(all, x, r);
    }
    PoliciesOfDir(me, x, q);
  }

  /**
    Exactly one tunnel policy of its direction covers a packet between the local side and a peer's: outbound,
    inbound or forwarded.  Its tunnel joins the two nodes, and any other policy of the direction that covers
    the packet lets it pass at a worse priority.
   */
  lemma ExactlyOneTunnel(me: NodeValue, peers: seq<NodeValue>, r: NodeValue, dir: Dir, k: Packet)
    requires Mesh([me] + peers) && r in peers
    requires Planable(me) && me.address.value.V4? && (forall p :: p in peers ==> Planable(p) && p.address.value.V4?)
    requires Travels(me, r, dir, k)
    ensures var p := PolicyNeeded(me, r, dir, k);
            && p in PolicyPlan(me, peers) && p.dir == dir && p.tmpls == [TmplOfDir(me, r, dir)] && Selects(p, k)
            && forall q :: q in PolicyPlan(me, peers) && q.dir == dir && Selects(q, k) ==>
                 q == p || (q.tmpls == [] && p.priority < q.priority)
  {
    hide Mesh, Travels, PoliciesFor, PolicyNeeded, TunnelPlan;
    NeededSelects(me, r, dir, k);
    TunnelMembers(me, peers);
    var p := PolicyNeeded(me, r, dir, k);
    assert p in TunnelPlan(me, peers);
    forall q | q in PolicyPlan(me, peers) && q.dir == dir && Selects(q, k)
      ensures q == p || (q.tmpls == [] && p.priority < q.priority)
    {
      if q in TunnelPlan(me, peers) {
        var x :| x in peers && q in PoliciesFor(me, x);
        OnlyNeededSelects(me, peers, r, x, dir, k, q);
      } else {
        BasePassesLate(me, r, dir, k, q);
      }
    }
  }

  lemma BasePassesLate(me: NodeValue, r: NodeValue, dir: Dir, k: Packet, q: Policy)
    requires Planable(me) && Planable(r) && me.address.value.V4? && r.address.value.V4? && Travels(me, r, dir, k)
    requires q in BASE_POLICIES && q.dir == dir
    ensures q.tmpls == [] && 100 < q.priority
  {
  }

  // ----- what the planned states contain -----

  predicate Unlimited(l: Limits) {
    l == Limits(0xffff_ffff_ffff_ffff, 0xffff_ffff_ffff_ffff, 0xffff_ffff_ffff_ffff, 0xffff_ffff_ffff_ffff, 0, 0, 0, 0)
  }

  /** The SPI of a state from `a` to `b`: two leading ones, both numerals and the header's tag. */
  function SpiBits(a: NodeValue, b: NodeValue, tag: bv32): bv32 {
    0xc000_0000 | (NumeralOf(a) << 16) | (NumeralOf(b) << 2) | tag
  }

  /** A state from `a` to `b` in tunnel mode (1), without limits, mark or other extras. */
  predicate Plain(a: NodeValue, b: NodeValue, s: State) {
    && s.src == a.address && s.dst == b.address && s.mode == 1 && s.reqid == 0 && s.replayWindow == 0
    && Unlimited(s.limits) && s.mark == None && s.aead == None
  }

  /** An ESP state (50): enciphered and encapsulated as the strategies say, not authenticated by itself. */
  predicate ProperEsp(st: Strategies, a: NodeValue, b: NodeValue, s: State) {
    && Plain(a, b, s) && s.proto == 50 && s.spi.bits == SpiBits(a, b, 1)
    && s.crypt == Some(st.crypt(a, b)) && s.encap == st.encap(a, b) && s.auth == None
  }

  /** An AH state (51): authenticated as the strategy says, and nothing else. */
  predicate ProperAh(st: Strategies, a: NodeValue, b: NodeValue, s: State) {
    && Plain(a, b, s) && s.proto == 51 && s.spi.bits == SpiBits(a, b, 0)
    && s.auth == Some(st.auth(a, b)) && s.crypt == None && s.encap == None
  }

  ghost predicate Proper(st: Strategies, a: NodeValue, b: NodeValue, s: State) {
    (st.useAH && ProperAh(st, a, b, s)) || (st.useESP && ProperEsp(st, a, b, s))
  }

  lemma ProperStates(st: Strategies, a: NodeValue, b: NodeValue, s: State)
    ensures ProperAh(st, a, b, s) <==> s == AhState(st, a, b)
    ensures ProperEsp(st, a, b, s) <==> s == EspState(st, a, b)
  {
    hide NumeralOf;
    if ProperAh(st, a, b, s) {
      assert s.spi == SPI(SpiBits(a, b, 0));
    }
    if ProperEsp(st, a, b, s) {
      assert s.spi == SPI(SpiBits(a, b, 1));
    }
  }

  lemma BetweenIsProper(st: Strategies, a: NodeValue, b: NodeValue, s: State)
    ensures s in StatesBetween(st, a, b) <==> Proper(st, a, b, s)
  {
    hide AhState, EspState, ProperAh, ProperEsp;
    ProperStates(st, a, b, s);
  }

  /** The plan holds exactly the proper states of both directions between the local node and each peer. */
  lemma PlannedStates(st: Strategies, me: NodeValue, peers: seq<NodeValue>, s: State)
    ensures s in StatePlan(st, me, peers) <==>
              exists r :: r in peers && (Proper(st, r, me, s) || Proper(st, me, r, s))
  {
    hide StatePlan, StatesBetween, Proper;
    StateMembers(st, me, peers);
    forall r ensures s in StatesFor(st, me, r) <==> Proper(st, r, me, s) || Proper(st, me, r, s) {
      BetweenIsProper(st, r, me, s);
      BetweenIsProper(st, me, r, s);
    }
  }

  /** Between the local address and a peer's, in either direction, the plan holds the proper states and no others. */
  lemma TunnelHasState(st: Strategies, me: NodeValue, peers: seq<NodeValue>, r: NodeValue, s: State)
    requires Mesh([me] + peers) && r in peers
    ensures s.src == me.address && s.dst == r.address ==> (s in StatePlan(st, me, peers) <==> Proper(st, me, r, s))
    ensures s.src == r.address && s.dst == me.address ==> (s in StatePlan(st, me, peers) <==> Proper(st, r, me, s))
  {
    hide Mesh, StatePlan, StatesBetween, Proper;
    BetweenIsProper(st, me, r, s);
    BetweenIsProper(st, r, me, s);
    if s.src == me.address && s.dst == r.address {
      StatesTowards(st, me, r, peers, s);
    }
    if s.src == r.address && s.dst == me.address {
      StatesFrom(st, r, me, peers, s);
    }
  }

  /** There is a proper ESP state from one node to the other. */
  lemma EspExists(st: Strategies, a: NodeValue, b: NodeValue) returns (s: State)
    requires st.useESP
    ensures ProperEsp(st, a, b, s) && Proper(st, a, b, s)
    ensures XfrmStates.KeyOf(s) == XfrmStates.SadKey(b.address, 50, SPI(SpiBits(a, b, 1)))
  {
    hide NumeralOf;
    s := EspState(st, a, b);
    ProperStates(st, a, b, s);
    assert s.spi == SPI(SpiBits(a, b, 1));
  }

  // ----- packets between nodes, and sockets -----

  /** Packets between two node addresses, such as a tunnel's own, are covered by no tunnel policy. */
  lemma TunnellingDoesNotRecurse(me: NodeValue, peers: seq<NodeValue>, r: NodeValue, k: Packet, q: Policy)
    requires Mesh([me] + peers) && r in peers && Planable(me) && (forall p :: p in peers ==> Planable(p))
    requires me.address.value.V4? && r.address.value.V4?
    requires (k.src == me.address.value.addr && k.dst == r.address.value.addr)
          || (k.src == r.address.value.addr && k.dst == me.address.value.addr)
    requires q in TunnelPlan(me, peers)
    ensures !Selects(q, k)
  {
    hide InPrefix;
    var all := [me] + peers;
    TunnelMembers(me, peers);
    var x :| x in peers && q in PoliciesFor(me, x);
    assert me in all && r in all && x in all;
    var a, b := Cidr(me), Cidr(x);
    assert !Contains(a, k.src) && !Contains(b, k.src) && !Contains(a, k.dst) && !Contains(b, k.dst);
    OneEndIsPodNetwork(me, x, q);
  }

  lemma AllNetContains(a: bv32)
    ensures Contains(ALL_NET, a)
  {
    WholeBits(a, 0);
  }

  /**
    What the kernel does with the tunnel's own packets: UDP to port 4500 is let through, and nothing
    else is covered.
   */
  lemma OuterPacketsPass(me: NodeValue, peers: seq<NodeValue>, r: NodeValue, k: Packet, q: Policy)
    requires Mesh([me] + peers) && r in peers && Planable(me) && (forall p :: p in peers ==> Planable(p))
    requires me.address.value.V4? && r.address.value.V4?
    requires (k.src == me.address.value.addr && k.dst == r.address.value.addr)
          || (k.src == r.address.value.addr && k.dst == me.address.value.addr)
    requires q.dir in {In, Out, Fwd}
    ensures q in PolicyPlan(me, peers) && Selects(q, k) <==>
              k.proto == 17 && k.dstPort == 4500 && q == BypassPolicy(q.dir)
    ensures BypassPolicy(q.dir).tmpls == [] && BypassPolicy(q.dir).priority == 200
  {
    hide Mesh, TunnelPlan, Contains;
    AllNetContains(k.src);
    AllNetContains(k.dst);
    if q in TunnelPlan(me, peers) {
      TunnellingDoesNotRecurse(me, peers, r, k, q);
    }
    BaseMembers(q);
    if q == BypassPolicy(q.dir) {
      BypassSelects(q, k);
    }
  }

  lemma BaseMembers(q: Policy)
    ensures q in BASE_POLICIES <==>
              (q.dir in {In, Out, Fwd} && q == BypassPolicy(q.dir)) ||
                (q.dir in {SocketIn, SocketOut} && q == SocketPolicy(q.dir))
  {
    var b := BASE_POLICIES;
    assert q in b <==> q == b[0] || q == b[1] || q == b[2] || q == b[3] || q == b[4];
  }

  lemma BypassSelects(q: Policy, k: Packet)
    requires q.dir in {In, Out, Fwd} && q == BypassPolicy(q.dir) && Contains(ALL_NET, k.src) && Contains(ALL_NET, k.dst)
    ensures Selects(q, k) <==> k.proto == 17 && k.dstPort == 4500
  {
    hide Contains;
  }

  /** A socket policy covers every packet and lets it pass, with the best priority; there is one per direction. */
  lemma SocketsPassAll(me: NodeValue, peers: seq<NodeValue>, q: Policy, k: Packet)
    requires Planable(me) && (forall p :: p in peers ==> Planable(p)) && q.dir in {SocketIn, SocketOut}
    ensures q in PolicyPlan(me, peers) <==> q == SocketPolicy(q.dir)
    ensures q in PolicyPlan(me, peers) ==> Selects(q, k) && q.tmpls == [] && q.priority == 0
  {
    hide TunnelPlan, Contains, PoliciesFor;
    TunnelMembers(me, peers);
    if q in TunnelPlan(me, peers) {
      var r :| r in peers && q in PoliciesFor(me, r);
      PairOwned(me, r);
    }
    BaseMembers(q);
    AllNetContains(k.src);
    AllNetContains(k.dst);
  }

  lemma OneEndIsPodNetwork(me: NodeValue, x: NodeValue, q: Policy)
    requires Planable(me) && Planable(x) && q in PoliciesFor(me, x)
    ensures q.src == Some(Cidr(me)) || q.src == Some(Cidr(x)) || q.dst == Some(Cidr(me)) || q.dst == Some(Cidr(x))
  {
  }

  // ----- selectors -----

  /** A peer's side of a policy: its pod network or its address. */
  ghost predicate Owns(r: NodeValue, n: Option<Net>)
    requires Planable(r)
  {
    n == Some(Cidr(r)) || n == Some(Host(r.address.value))
  }

  function Far(p: Policy): Option<Net> {
    if p.dir == Out then p.dst else p.src
  }

  lemma HostIsNotCidr(all: seq<NodeValue>, v: NodeValue, w: NodeValue)
    requires Mesh(all) && v in all && w in all
    ensures Host(v.address.value) != Cidr(w)
  {
    hide InPrefix;
    HostContains(v.address.value, v.address.value.addr);
  }

  lemma OwnsApart(all: seq<NodeValue>, v: NodeValue, w: NodeValue, n: Option<Net>)
    requires Mesh(all) && v in all && w in all && v != w && Planable(v) && Planable(w)
    ensures !(Owns(v, n) && Owns(w, n))
  {
    hide InPrefix;
    MeshApart(all, v, w);
    HostIsNotCidr(all, v, w);
    HostIsNotCidr(all, w, v);
  }

  lemma PoliciesOfPair(all: seq<NodeValue>, me: NodeValue, r: NodeValue)
    requires Mesh(all) && me in all && r in all && Planable(me) && Planable(r)
    ensures XfrmPolicies.DistinctSelectors(PoliciesFor(me, r))
    ensures forall p :: p in PoliciesFor(me, r) ==>
              Owns(r, Far(p)) && p.proto == 0 && p.mark == None && p.dir in {In, Out, Fwd}
  {
    hide InPrefix, IsCidr4, Mesh, Owns, Far, PolicyGroup, XfrmPolicies.DistinctSelectors;
    HostIsNotCidr(all, me, me);
    HostIsNotCidr(all, r, r);
    var x := PoliciesFor(me, r);
    var a, b, c, d := Cidr(me), Host(me.address.value), Cidr(r), Host(r.address.value);
    assert a != b && c != d;
    assert x == PolicyGroup(a, c, me.address, r.address) + PolicyGroup(a, d, me.address, r.address)
              + PolicyGroup(b, c, me.address, r.address);
    GroupsDistinct(a, b, c, d, me.address, r.address);
    PairOwned(me, r);
  }

  lemma PairOwned(me: NodeValue, r: NodeValue)
    requires Planable(me) && Planable(r)
    ensures forall p :: p in PoliciesFor(me, r) ==>
              Owns(r, Far(p)) && p.proto == 0 && p.mark == None && p.dir in {In, Out, Fwd}
  {
  }

  lemma GroupsDistinct(a: Net, b: Net, c: Net, d: Net, me: Option<IP>, r: Option<IP>)
    requires a != b && c != d
    ensures XfrmPolicies.DistinctSelectors(PolicyGroup(a, c, me, r) + PolicyGroup(a, d, me, r) +
              PolicyGroup(b, c, me, r))
  {
  }

  /** The plan never asks for two policies with one selector. */
  lemma {:induction false} TunnelPlanDistinct(me: NodeValue, peers: seq<NodeValue>)
    requires Mesh([me] + peers) && Planable(me) && forall r :: r in peers ==> Planable(r)
    ensures XfrmPolicies.DistinctSelectors(TunnelPlan(me, peers))
    decreases |peers|
  {
    hide Mesh, PoliciesFor, XfrmPolicies.SelectorOf;
    if peers != [] {
      var init, last := peers[..|peers| - 1], peers[|peers| - 1];
      assert peers == init + [last];
      var all := [me] + peers;
      assert me in all && last in all;
      PrefixMesh(me, init, last);
      TunnelPlanDistinct(me, init);
      PoliciesOfPair(all, me, last);
      var before, added := TunnelPlan(me, init), PoliciesFor(me, last);
      forall p, q | p in before && q in added ensures XfrmPolicies.SelectorOf(p) != XfrmPolicies.SelectorOf(q) {
        TunnelMembers(me, init);
        var r :| r in init && p in PoliciesFor(me, r);
        assert r in all;
        RestIsOther(me, init, last, r);
        PairsApart(all, me, r, last, p, q);
      }
      ConcatSelectors(before, added);
    }
  }

  lemma PairsApart(all: seq<NodeValue>, me: NodeValue, r: NodeValue, s: NodeValue, p: Policy, q: Policy)
    requires Mesh(all) && me in all && r in all && s in all && r != s
    requires Planable(me) && Planable(r) && Planable(s) && p in PoliciesFor(me, r) && q in PoliciesFor(me, s)
    ensures XfrmPolicies.SelectorOf(p) != XfrmPolicies.SelectorOf(q)
  {
    hide Mesh, PoliciesFor, XfrmPolicies.DistinctSelectors;
    PoliciesOfPair(all, me, r);
    PoliciesOfPair(all, me, s);
    OwnsApart(all, r, s, Far(p));
  }

  lemma ConcatSelectors(a: seq<Policy>, b: seq<Policy>)
    requires XfrmPolicies.DistinctSelectors(a) && XfrmPolicies.DistinctSelectors(b)
    requires forall p, q :: p in a && q in b ==> XfrmPolicies.SelectorOf(p) != XfrmPolicies.SelectorOf(q)
    ensures XfrmPolicies.DistinctSelectors(a + b)
  {
    var c := a + b;
    forall i, j | 0 <= i < j < |c| ensures XfrmPolicies.SelectorOf(c[i]) != XfrmPolicies.SelectorOf(c[j]) {
      if i < |a| && |a| <= j {
        assert c[i] in a && c[j] in b;
      }
    }
  }

  lemma BaseDistinct()
    ensures XfrmPolicies.DistinctSelectors(BASE_POLICIES)
  {
  }

  /** No planned policy carries a mark, whatever the nodes are like. */
  lemma PolicyPlanUnmarked(me: NodeValue, peers: seq<NodeValue>)
    requires Planable(me) && forall r :: r in peers ==> Planable(r)
    ensures forall p :: p in PolicyPlan(me, peers) ==> p.mark == None
  {
    hide TunnelPlan, PoliciesFor;
    TunnelMembers(me, peers);
    forall p | p in TunnelPlan(me, peers) ensures p.mark == None {
      var r :| r in peers && p in PoliciesFor(me, r);
      PairOwned(me, r);
    }
  }

  lemma PolicyPlanDistinct(me: NodeValue, peers: seq<NodeValue>)
    requires Mesh([me] + peers) && Planable(me) && forall r :: r in peers ==> Planable(r)
    ensures XfrmPolicies.DistinctSelectors(PolicyPlan(me, peers))
    ensures forall p :: p in PolicyPlan(me, peers) ==> p.mark == None
  {
    hide Mesh, TunnelPlan, PoliciesFor, XfrmPolicies.DistinctSelectors;
    TunnelPlanDistinct(me, peers);
    TunnelMembers(me, peers);
    assert XfrmPolicies.DistinctSelectors(BASE_POLICIES) by {
      BaseDistinct();
    }
    var base, tunnels := BASE_POLICIES, TunnelPlan(me, peers);
    forall q | q in tunnels ensures q.proto == 0 && q.mark == None && q.dir in {In, Out, Fwd} {
      var r :| r in peers && q in PoliciesFor(me, r);
      assert me in [me] + peers && r in [me] + peers;
      PoliciesOfPair([me] + peers, me, r);
    }
    assert forall p :: p in base ==> p.proto == PROTO_UDP || p.dir in {SocketIn, SocketOut};
    ConcatSelectors(base, tunnels);
  }

  // ----- the tables -----

  /** From compatible tables both runs complete, and the tables then hold exactly the plan. */
  lemma IpsecConverges(st: Strategies, me: NodeValue, peers: seq<NodeValue>,
                       sad: XfrmStates.Sad, spd: XfrmPolicies.Spd,
                       stateOps: seq<XfrmStates.SadOp>, policyOps: seq<XfrmPolicies.SpdOp>)
    requires Mesh([me] + peers) && NumeralsApart([me] + peers)
    requires Planable(me) && forall r :: r in peers ==> Planable(r)
    requires XfrmStates.WellKeyed(sad) && XfrmStates.DistinctSpis(sad) && XfrmPolicies.WellKeyed(spd)
    requires XfrmStates.Plan(sad, StatePlan(st, me, peers), stateOps)
    requires XfrmPolicies.Plan(spd, PolicyPlan(me, peers), policyOps)
    ensures Accepted(sad, stateOps) <==> XfrmStates.Compatible(sad, StatePlan(st, me, peers))
    ensures Accepted(sad, stateOps) ==> Exactly(Exec(sad, stateOps), StatePlan(st, me, peers), XfrmStates.KeyOf)
    ensures Accepted(spd, policyOps)
    ensures XfrmPolicies.HoldsExactly(Exec(spd, policyOps), PolicyPlan(me, peers)) <==>
            XfrmPolicies.MarksAgree(spd, PolicyPlan(me, peers))
  {
    hide *;
    StatePlanDistinct(st, me, peers);
    PolicyPlanDistinct(me, peers);
    XfrmStates.AcceptedIffCompatible(sad, StatePlan(st, me, peers), stateOps);
    if Accepted(sad, stateOps) {
      XfrmStates.Converges(sad, StatePlan(st, me, peers), stateOps);
    }
    XfrmPolicies.AlwaysAccepted(spd, PolicyPlan(me, peers), policyOps);
    XfrmPolicies.ConvergesIffMarksAgree(spd, PolicyPlan(me, peers), policyOps);
  }

  // ----- from one view to the next -----

  /** Two pairs of nodes with the same numerals have the same addresses. */
  ghost predicate KeptBy(a: NodeValue, b: NodeValue, c: NodeValue, d: NodeValue) {
    NumeralOf(a) == NumeralOf(c) && NumeralOf(b) == NumeralOf(d) ==> a.address == c.address && b.address == d.address
  }

  /** Pairs of the old and of the new view with equal numerals, in either order, kept both addresses. */
  ghost predicate KeptAddresses(me: NodeValue, peers: seq<NodeValue>, me': NodeValue, peers': seq<NodeValue>) {
    forall r, r' :: r in peers && r' in peers' ==> KeptBy(me, r, me', r') && KeptBy(me, r, r', me')
  }

  lemma KeptIsCompatible(st: Strategies, me: NodeValue, peers: seq<NodeValue>, me': NodeValue, peers': seq<NodeValue>,
                         sad: XfrmStates.Sad)
    requires Exactly(sad, StatePlan(st, me, peers), XfrmStates.KeyOf) && KeptAddresses(me, peers, me', peers')
    ensures XfrmStates.Compatible(sad, StatePlan(st, me', peers'))
  {
    hide StatesBetween, StatePlan, NumeralOf;
    StateMembers(st, me, peers);
    StateMembers(st, me', peers');
    forall k, e | k in sad && e in StatePlan(st, me', peers') && k.spi == e.spi ensures k == XfrmStates.KeyOf(e) {
      var s := sad[k];
      var r :| r in peers && s in StatesFor(st, me, r);
      var r' :| r' in peers' && e in StatesFor(st, me', r');
      assert KeptBy(me, r, me', r') && KeptBy(me, r, r', me');
      SameSpiSameKey(st, me, r, me', r', s, e);
    }
  }

  lemma SameSpiSameKey(st: Strategies, me: NodeValue, r: NodeValue, me': NodeValue, r': NodeValue, s: State, e: State)
    requires s in StatesFor(st, me, r) && e in StatesFor(st, me', r') && s.spi == e.spi
    requires KeptBy(me, r, me', r') && KeptBy(me, r, r', me')
    ensures XfrmStates.KeyOf(s) == XfrmStates.KeyOf(e)
  {
    hide StatesBetween, NumeralOf;
    var a, b := if s in StatesBetween(st, r, me) then r else me, if s in StatesBetween(st, r, me) then me else r;
    var c, d := if e in StatesBetween(st, r', me') then r' else me',
      if e in StatesBetween(st, r', me') then me' else r';
    SameSpiSameNumerals(st, a, b, c, d, s, e);
  }

  lemma CompatibleIsKept(st: Strategies, me: NodeValue, peers: seq<NodeValue>, me': NodeValue, peers': seq<NodeValue>,
                         sad: XfrmStates.Sad)
    requires (st.useAH || st.useESP) && Exactly(sad, StatePlan(st, me, peers), XfrmStates.KeyOf)
    requires XfrmStates.Compatible(sad, StatePlan(st, me', peers'))
    ensures KeptAddresses(me, peers, me', peers')
  {
    hide NumeralOf;
    forall r, r' | r in peers && r' in peers' ensures KeptBy(me, r, me', r') && KeptBy(me, r, r', me') {
      if NumeralOf(me) == NumeralOf(me') && NumeralOf(r) == NumeralOf(r') {
        CompatibleKeepsEnd(st, me, peers, me', peers', sad, me, r, me', r', r, r');
        CompatibleKeepsEnd(st, me, peers, me', peers', sad, r, me, r', me', r, r');
      }
      if NumeralOf(me) == NumeralOf(r') && NumeralOf(r) == NumeralOf(me') {
        CompatibleKeepsEnd(st, me, peers, me', peers', sad, me, r, r', me', r, r');
        CompatibleKeepsEnd(st, me, peers, me', peers', sad, r, me, me', r', r, r');
      }
    }
  }

  /** In a compatible table, states between nodes of the same numerals have the same destination. */
  lemma CompatibleKeepsEnd(st: Strategies, me: NodeValue, peers: seq<NodeValue>, me': NodeValue, peers': seq<NodeValue>,
                           sad: XfrmStates.Sad,
                           a: NodeValue, b: NodeValue, c: NodeValue, d: NodeValue, r: NodeValue, r': NodeValue)
    requires (st.useAH || st.useESP) && Exactly(sad, StatePlan(st, me, peers), XfrmStates.KeyOf)
    requires XfrmStates.Compatible(sad, StatePlan(st, me', peers'))
    requires r in peers && r' in peers' && NumeralOf(a) == NumeralOf(c) && NumeralOf(b) == NumeralOf(d)
    requires (a == me && b == r) || (a == r && b == me)
    requires (c == me' && d == r') || (c == r' && d == me')
    ensures b.address == d.address
  {
    hide StatesBetween, StatePlan, NumeralOf;
    var s, e := SameNumeralsSameSpi(st, a, b, c, d);
    StateMembers(st, me, peers);
    StateMembers(st, me', peers');
    assert s in StatesFor(st, me, r) && e in StatesFor(st, me', r');
    assert XfrmStates.KeyOf(s) in sad && e in StatePlan(st, me', peers');
    assert XfrmStates.KeyOf(s) == XfrmStates.KeyOf(e);
  }

  /**
    The state table that the agent itself left for an earlier view accepts the run for a new view if and
    only if nodes with equal numerals kept their addresses.
   */
  lemma NextViewAcceptedIffKept(st: Strategies, me: NodeValue, peers: seq<NodeValue>, me': NodeValue,
                                peers': seq<NodeValue>,
                                sad: XfrmStates.Sad, ops: seq<XfrmStates.SadOp>)
    requires (st.useAH || st.useESP) && NumeralsApart([me] + peers) && NumeralsApart([me'] + peers')
    requires Exactly(sad, StatePlan(st, me, peers), XfrmStates.KeyOf) &&
             XfrmStates.Plan(sad, StatePlan(st, me', peers'), ops)
    ensures Accepted(sad, ops) <==> KeptAddresses(me, peers, me', peers')
  {
    hide NumeralsApart, StatePlan, XfrmStates.Plan, Exactly, Accepted, KeptAddresses, XfrmStates.Compatible,
      XfrmStates.WellKeyed, XfrmStates.DistinctSpis, XfrmStates.DistinctSpiList;
    StatePlanDistinct(st, me, peers);
    StatePlanDistinct(st, me', peers');
    XfrmStates.ExactlyIsGood(sad, StatePlan(st, me, peers));
    XfrmStates.AcceptedIffCompatible(sad, StatePlan(st, me', peers'), ops);
    if KeptAddresses(me, peers, me', peers') {
      KeptIsCompatible(st, me, peers, me', peers', sad);
    }
    if XfrmStates.Compatible(sad, StatePlan(st, me', peers')) {
      CompatibleIsKept(st, me, peers, me', peers', sad);
    }
  }

  /** A new view with a node that did not keep its address is refused, and stays refused however far an attempt gets. */
  lemma ChangedAddressBlocks(st: Strategies, me: NodeValue, peers: seq<NodeValue>, me': NodeValue,
                             peers': seq<NodeValue>,
                             sad: XfrmStates.Sad, ops: seq<XfrmStates.SadOp>, n: nat)
    requires (st.useAH || st.useESP) && !KeptAddresses(me, peers, me', peers')
    requires NumeralsApart([me] + peers) && NumeralsApart([me'] + peers')
    requires Exactly(sad, StatePlan(st, me, peers), XfrmStates.KeyOf) &&
             XfrmStates.Plan(sad, StatePlan(st, me', peers'), ops)
    requires n <= |ops| && Accepted(sad, ops[..n])
    ensures !Accepted(sad, ops)
    ensures !XfrmStates.Compatible(Exec(sad, ops[..n]), StatePlan(st, me', peers'))
  {
    hide NumeralsApart, StatePlan, XfrmStates.Plan, Exactly, Accepted, Exec, KeptAddresses, XfrmStates.Compatible,
      XfrmStates.WellKeyed, XfrmStates.DistinctSpis, XfrmStates.DistinctSpiList;
    NextViewAcceptedIffKept(st, me, peers, me', peers', sad, ops);
    StatePlanDistinct(st, me, peers);
    StatePlanDistinct(st, me', peers');
    XfrmStates.ExactlyIsGood(sad, StatePlan(st, me, peers));
    XfrmStates.AcceptedIffCompatible(sad, StatePlan(st, me', peers'), ops);
    XfrmStates.BlockedForGood(sad, StatePlan(st, me', peers'), ops, n);
  }

  /** For instance when a peer gets a new address and keeps its pod network. */
  lemma NewAddressBlocks(st: Strategies, me: NodeValue, r: NodeValue, address: IP,
                         sad: XfrmStates.Sad, ops: seq<XfrmStates.SadOp>, n: nat)
    requires (st.useAH || st.useESP) && Some(address) != r.address && NumeralOf(me) != NumeralOf(r)
    requires Exactly(sad, StatePlan(st, me, [r]), XfrmStates.KeyOf)
    requires XfrmStates.Plan(sad, StatePlan(st, me, [r.(address := Some(address))]), ops)
    requires n <= |ops| && Accepted(sad, ops[..n])
    ensures !Accepted(sad, ops)
    ensures !XfrmStates.Compatible(Exec(sad, ops[..n]), StatePlan(st, me, [r.(address := Some(address))]))
  {
    hide StatePlan, XfrmStates.Plan, Exactly, Accepted, Exec, XfrmStates.Compatible, ComputeNumeral;
    var moved := r.(address := Some(address));
    assert NumeralOf(moved) == NumeralOf(r);
    assert r in [r] && moved in [moved] && !KeptBy(me, r, me, moved);
    assert [me] + [r] == [me, r] && [me] + [moved] == [me, moved];
    ChangedAddressBlocks(st, me, [r], me, [moved], sad, ops, n);
  }

  // ----- the order of the node list -----

  lemma MeshPermuted(all: seq<NodeValue>, other: seq<NodeValue>)
    requires Mesh(all) && multiset(all) == multiset(other)
    ensures Mesh(other)
  {
    hide Disjoint, IsCidr4, Contains;
    PermutedMembers(all, other);
    PermutedDistinct(all, other);
    forall i, j | 0 <= i < j < |other|
      ensures Disjoint(Cidr(other[i]), Cidr(other[j])) && other[i].address != other[j].address
    {
      assert other[i] in other && other[j] in other;
      MeshApart(all, other[i], other[j]);
    }
  }

  /** State runs for two orders of the node list, from the same table, fare alike and leave the same table. */
  lemma IpsecOrderIrrelevant(st: Strategies, me: NodeValue, nodes: seq<NodeValue>, other: seq<NodeValue>,
                             sad: XfrmStates.Sad, ops: seq<XfrmStates.SadOp>, ops': seq<XfrmStates.SadOp>)
    requires multiset(nodes) == multiset(other) && NumeralsApart([me] + Peers(me, nodes))
    requires XfrmStates.WellKeyed(sad) && XfrmStates.DistinctSpis(sad)
    requires XfrmStates.Plan(sad, StatePlan(st, me, Peers(me, nodes)), ops)
    requires XfrmStates.Plan(sad, StatePlan(st, me, Peers(me, other)), ops')
    ensures Accepted(sad, ops) <==> Accepted(sad, ops')
    ensures Accepted(sad, ops) ==> Exec(sad, ops) == Exec(sad, ops')
  {
    hide NumeralsApart, Peers, StatePlan, StatesFor, XfrmStates.Plan, XfrmStates.WellKeyed, XfrmStates.DistinctSpis,
      XfrmStates.DistinctSpiList, Exactly, Accepted, Exec;
    var plan, plan' := StatePlan(st, me, Peers(me, nodes)), StatePlan(st, me, Peers(me, other));
    PeersPermuted(me, nodes, other);
    NumeralsPermuted([me] + Peers(me, nodes), [me] + Peers(me, other));
    StatePlanDistinct(st, me, Peers(me, nodes));
    StatePlanDistinct(st, me, Peers(me, other));
    StateMembers(st, me, Peers(me, nodes));
    StateMembers(st, me, Peers(me, other));
    XfrmStates.AcceptedIffCompatible(sad, plan, ops);
    XfrmStates.AcceptedIffCompatible(sad, plan', ops');
    if Accepted(sad, ops) {
      XfrmStates.Converges(sad, plan, ops);
      XfrmStates.Converges(sad, plan', ops');
      ExactlyUnique(Exec(sad, ops), Exec(sad, ops'), plan, plan', XfrmStates.KeyOf);
    }
  }

  /** Policy runs for two orders of the node list, from the same table, leave the same table up to kernel indexes. */
  lemma PolicyOrderIrrelevant(me: NodeValue, nodes: seq<NodeValue>, other: seq<NodeValue>,
                              spd: XfrmPolicies.Spd, ops: seq<XfrmPolicies.SpdOp>, ops': seq<XfrmPolicies.SpdOp>)
    requires multiset(nodes) == multiset(other) && Planable(me) && Mesh([me] + Peers(me, nodes))
    requires (forall r :: r in Peers(me, nodes) ==> Planable(r)) && (forall r :: r in Peers(me, other) ==> Planable(r))
    requires XfrmPolicies.WellKeyed(spd)
    requires XfrmPolicies.Plan(spd, PolicyPlan(me, Peers(me, nodes)), ops)
    requires XfrmPolicies.Plan(spd, PolicyPlan(me, Peers(me, other)), ops')
    ensures Accepted(spd, ops) && Accepted(spd, ops')
    ensures XfrmPolicies.SameUpToIndex(Exec(spd, ops), Exec(spd, ops'))
  {
    hide Mesh, Peers, PolicyPlan, XfrmPolicies.Plan, XfrmPolicies.WellKeyed, XfrmPolicies.DistinctSelectors, Accepted,
      Exec, XfrmPolicies.SameUpToIndex;
    var plan, plan' := PolicyPlan(me, Peers(me, nodes)), PolicyPlan(me, Peers(me, other));
    PeersPermuted(me, nodes, other);
    MeshPermuted([me] + Peers(me, nodes), [me] + Peers(me, other));
    PolicyPlanDistinct(me, Peers(me, nodes));
    PolicyPlanDistinct(me, Peers(me, other));
    SamePolicies(me, Peers(me, nodes), Peers(me, other));
    XfrmPolicies.AlwaysAccepted(spd, plan, ops);
    XfrmPolicies.AlwaysAccepted(spd, plan', ops');
    XfrmPolicies.SameMembersSameResult(spd, plan, plan', ops, ops');
  }

  lemma SamePolicies(me: NodeValue, peers: seq<NodeValue>, other: seq<NodeValue>)
    requires Planable(me) && (forall r :: r in peers ==> Planable(r)) && forall r :: r in peers <==> r in other
    ensures forall p :: p in PolicyPlan(me, peers) <==> p in PolicyPlan(me, other)
  {
    hide TunnelPlan, PoliciesFor, BASE_POLICIES;
    TunnelMembers(me, peers);
    TunnelMembers(me, other);
  }
}
