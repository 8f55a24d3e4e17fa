/**
  The first vxlan provider.  It plans forwarding entries only; ARP requests for pod addresses
  are answered one by one by a monitor, which takes every pod network for a /24.
 */
module LegacyVxlan {
  import opened Options
  import opened Addresses
  import opened Nodes
  import opened KernelTables
  import opened Neighbours
  import opened VxlanPlanner
  import VxlanDelivery

  // ----- the monitor -----

  datatype MessageKind = GetNeigh | NewNeigh | OtherMessage

  /** A neighbour message; one that cannot be read is `Garbled`. */
  datatype Message =
    | Garbled
    | Message(kind: MessageKind, linkIndex: int, reachable: bool, mac: Option<Mac>, ip: Option<IP>)

  const FAMILY_UNSPEC: nat := 0
  const NUD_REACHABLE: nat := 2

  /** The first three bytes of the address. */
  function Base24(a: bv32): bv32 {
    a & 0xffff_ff00
  }

  function MacAnswer(a: bv32): Mac {
    MapToMac(Base24(a))
  }

  /** The neighbour entry that answers for pod address `a`. */
  function Answer(link: int, a: bv32): Neigh {
    Neigh(link, FAMILY_UNSPEC, NUD_REACHABLE, RTN_UNICAST, 0, Some(V4(a)), MacAnswer(a))
  }

  /** A request on our link for the MAC of an IPv4 address. */
  predicate Asks(link: int, m: Message) {
    m.Message? && m.linkIndex == link && m.kind != OtherMessage && !m.reachable && m.mac.None? && m.ip.Some? &&
      m.ip.value.V4?
  }

  function Answers(link: int, messages: seq<Message>): seq<NeighOp> {
    if messages == [] then [] else
      var init, m := messages[..|messages| - 1], messages[|messages| - 1];
      Answers(link, init) + if Asks(link, m) then [PutOp(Answer(link, m.ip.value.addr))] else []
  }

  /** One batch of messages; an answer that the kernel refuses is dropped. */
  method Watch(table: Table<NeighKey, Neigh>, link: int, messages: seq<Message>) returns (ghost applied: seq<NeighOp>)
    modifies table
    ensures table.entries == Exec(old(table.entries), applied)
    ensures forall op :: op in applied ==> op in Answers(link, messages)
    ensures table.reliable ==> applied == Answers(link, messages)
  {
    applied := [];
    for i := 0 to |messages|
      invariant table.entries == Exec(old(table.entries), applied)
      invariant forall op :: op in applied ==> op in Answers(link, messages[..i])
      invariant table.reliable ==> applied == Answers(link, messages[..i])
    {
      assert messages[..i + 1][..i] == messages[..i];
      var m := messages[i];
      if m.Garbled? || m.linkIndex != link || m.kind == OtherMessage || m.reachable {
        continue;
      }
      if m.mac.Some? || m.ip.None? || !m.ip.value.V4? {
        continue;
      }
      var op := PutOp(Answer(link, m.ip.value.addr));
      var ok := table.Apply(op);
      if ok {
        AcceptedSnoc(old(table.entries), applied, op);
        applied := applied + [op];
      }
    }
    assert messages[..|messages|] == messages;
  }

  /** A neighbour was asked for or is new on the link, it is not known to be reachable, and `a` has no MAC yet. */
  predicate IsRequest(link: int, m: Message, a: bv32) {
    && m.Message? && m.linkIndex == link && (m.kind == GetNeigh || m.kind == NewNeigh) && !m.reachable
    && m.mac == None && m.ip == Some(V4(a))
  }

  /** Some message is a request for `a`. */
  ghost predicate Asked(link: int, messages: seq<Message>, a: bv32) {
    exists m :: m in messages && IsRequest(link, m, a)
  }

  lemma AskedSnoc(link: int, messages: seq<Message>, m: Message, a: bv32)
    ensures Asked(link, messages + [m], a) <==> Asked(link, messages, a) || (Asks(link, m) && m.ip.value.addr == a)
  {
    assert m in messages + [m];
    assert IsRequest(link, m, a) <==> Asks(link, m) && m.ip.value.addr == a;
    if Asked(link, messages, a) {
      var x :| x in messages && IsRequest(link, x, a);
      assert x in messages + [m];
    }
  }

  /** An answer for `b` sets the entry of `b` and no other. */
  lemma AnswerLocal(t: NeighTable, t0: NeighTable, link: int, b: bv32, a: bv32)
    ensures var r, k := Effect(t, PutOp(Answer(link, b))), NeighKey.Arp(link, Some(V4(a)));
            if a == b then k in r && r[k] == Answer(link, a)
            else (SameAt(t0, t, k) ==> SameAt(t0, r, k)) && (k in t ==> k in r && r[k] == t[k])
  {
    hide MacAnswer;
    if a != b {
      assert V4(a).addr != V4(b).addr;
    }
  }

  /** Whatever the messages, the ARP entry of an address that was answered is its answer. */
  lemma {:induction false} AnsweredEntries(t: NeighTable, link: int, messages: seq<Message>, a: bv32)
    ensures var r, k := Exec(t, Answers(link, messages)), NeighKey.Arp(link, Some(V4(a)));
            if Asked(link, messages, a)
            then k in r && r[k] == Neigh(link, 0, 2, 1, 0, Some(V4(a)), MapToMac(a & 0xffff_ff00)) else SameAt(t, r, k)
    decreases |messages|
  {
    if messages != [] {
      hide Asked, Exec, SameAt, MacAnswer;
      var init, m := messages[..|messages| - 1], messages[|messages| - 1];
      assert messages == init + [m];
      AskedSnoc(link, init, m, a);
      AnsweredEntries(t, link, init, a);
      if Asks(link, m) {
        AnswerLocal(Exec(t, Answers(link, init)), t, link, m.ip.value.addr, a);
        AcceptedSnoc(t, Answers(link, init), PutOp(Answer(link, m.ip.value.addr)));
      } else {
        assert Answers(link, messages) == Answers(link, init);
      }
    }
  }

  // ----- when the answers are right -----

  lemma RightBits(a: bv32, base: bv32, ones: bv8)
    requires InPrefix(a, base, ones) && 24 <= ones && base & 0xff == 0
    ensures Base24(a) == base
  {
  }

  lemma WideBits(base: bv32, ones: bv8)
    requires InPrefix(base, base, ones) && ones < 24
    ensures InPrefix(base | 0x100, base, ones) && Base24(base | 0x100) != base
  {
  }

  lemma NarrowBits(base: bv32)
    requires base & 0xff != 0
    ensures Base24(base) != base
  {
  }

  /** The pod network fits into one /24 and starts it. */
  predicate StartsA24(n: Net) {
    n.ip.V4? && 24 <= n.mask.ones && n.ip.addr & 0xff == 0
  }

  lemma MacsOfBases(a: bv32, b: bv32)
    ensures MapToMac(a) == MapToMac(b) <==> a == b
  {
    if MapToMac(a) == MapToMac(b) {
      assert MapToMac(a).low == MapToMac(b).low;
    }
  }

  /** Every pod address is answered with its network's MAC if and only if the network starts a /24. */
  lemma AnswersRightIffStartsA24(n: Net)
    requires IsCidr4(n)
    ensures StartsA24(n) <==> forall a :: Contains(n, a) ==> MacAnswer(a) == MapToMac(n.ip.addr)
  {
    hide InPrefix, Base24, MapToMac, MacAnswer;
    if StartsA24(n) {
      forall a | Contains(n, a) ensures MacAnswer(a) == MapToMac(n.ip.addr) {
        RightAnswer(n, a);
      }
    } else {
      var a := WrongAnswer(n);
      assert Contains(n, a) && MacAnswer(a) != MapToMac(n.ip.addr);
    }
  }

  lemma RightAnswer(n: Net, a: bv32)
    requires IsCidr4(n) && StartsA24(n) && Contains(n, a)
    ensures MacAnswer(a) == MapToMac(n.ip.addr)
  {
    hide InPrefix, Base24, MapToMac;
    RightBits(a, n.ip.addr, n.mask.ones);
  }

  lemma WrongAnswer(n: Net) returns (a: bv32)
    requires IsCidr4(n) && !StartsA24(n)
    ensures Contains(n, a) && MacAnswer(a) != MapToMac(n.ip.addr)
  {
    hide InPrefix, Base24, MapToMac;
    if n.mask.ones < 24 {
      a := n.ip.addr | 0x100;
      WideBits(n.ip.addr, n.mask.ones);
      MacsOfBases(Base24(a), n.ip.addr);
    } else {
      a := n.ip.addr;
      NarrowBits(n.ip.addr);
      BaseContained(n);
      MacsOfBases(Base24(n.ip.addr), n.ip.addr);
    }
  }

  /** Every /24 starts one. */
  lemma Slash24Starts(n: Net)
    requires IsCidr4(n) && n.mask.ones == 24
    ensures StartsA24(n)
  {
    Aligned24(n.ip.addr);
  }

  lemma Aligned24(base: bv32)
    requires InPrefix(base, base, 24)
    ensures base & 0xff == 0
  {
  }

  // ----- delivery -----

  function FdbPlan(link: int, peers: seq<NodeValue>): seq<Neigh>
    requires forall r :: r in peers ==> Routable(r)
  {
    if peers == [] then [] else FdbPlan(link, peers[..|peers| - 1]) + [FdbFor(link, peers[|peers| - 1])]
  }

  lemma {:induction false} FdbMembers(link: int, peers: seq<NodeValue>)
    requires AllRoutable(peers)
    ensures forall n :: n in FdbPlan(link, peers) <==> exists r :: r in peers && n == FdbFor(link, r)
    decreases |peers|
  {
    if peers != [] {
      var init, last := peers[..|peers| - 1], peers[|peers| - 1];
      assert peers == init + [last];
      FdbMembers(link, init);
    }
  }

  /** The planning loop over the nodes. */
  method BuildPlan(link: int, me: NodeValue, nodes: seq<NodeValue>) returns (fatal: bool, neighs: seq<Neigh>)
    ensures !fatal <==> AllRoutable(Peers(me, nodes))
    ensures fatal <==>
              exists r ::
                r in nodes && r.name != me.name && r.address.Some? && r.podCIDR.Some? && !r.podCIDR.value.ip.V4?
    ensures !fatal ==> neighs == FdbPlan(link, Peers(me, nodes))
  {
    neighs := [];
    PeersMembers(me, nodes);
    for i := 0 to |nodes|
      invariant AllRoutable(Peers(me, nodes[..i]))
      invariant neighs == FdbPlan(link, Peers(me, nodes[..i]))
    {
      var remote := nodes[i];
      assert nodes[..i + 1] == nodes[..i] + [remote];
      PeersSnoc(me, nodes[..i], remote);
      if remote.name == me.name || remote.address.None? || remote.podCIDR.None? {
        continue;
      }
      if !remote.podCIDR.value.ip.V4? {
        assert remote in nodes && remote in Peers(me, nodes);
        return true, [];
      }
      assert (Peers(me, nodes[..i]) + [remote])[..|Peers(me, nodes[..i])|] == Peers(me, nodes[..i]);
      neighs := neighs + [FdbFor(link, remote)];
    }
    assert nodes[..|nodes|] == nodes;
    fatal := false;
  }

  /**
    Where a packet to `a`, on the link, goes: the address itself is resolved by a unicast entry (1) that counts
    as reachable (2), then the MAC forwarded.
   */
  function Resolve(link: int, a: bv32, t: NeighTable): Option<IP> {
    var arp := NeighKey.Arp(link, Some(V4(a)));
    if arp !in t || t[arp].kind != 1 || t[arp].state / 2 % 2 != 1 then None else
      var fdb := NeighKey.Fdb(link, t[arp].mac);
      if fdb !in t || !VxlanDelivery.Forwards(t[fdb]) then None else t[fdb].ip
  }

  /** Answers do not touch forwarding entries. */
  lemma {:induction false} AnswersKeepFdb(t: NeighTable, link: int, messages: seq<Message>, mac: Mac)
    ensures SameAt(t, Exec(t, Answers(link, messages)), NeighKey.Fdb(link, mac))
    decreases |messages|
  {
    if messages != [] {
      var init, m := messages[..|messages| - 1], messages[|messages| - 1];
      AnswersKeepFdb(t, link, init, mac);
      if Asks(link, m) {
        AcceptedSnoc(t, Answers(link, init), PutOp(Answer(link, m.ip.value.addr)));
      } else {
        assert Answers(link, messages) == Answers(link, init);
      }
    }
  }

  /** Every planned forwarding entry has an IP and a MAC of its own. */
  lemma {:induction false} FdbPlanDistinct(link: int, me: NodeValue, peers: seq<NodeValue>)
    requires VxlanDelivery.Cluster([me] + peers) && AllRoutable(peers)
    ensures DistinctEntries(FdbPlan(link, peers))
    decreases |peers|
  {
    hide VxlanDelivery.Cluster, DistinctEntries, KeyOf;
    if peers == [] {
      VxlanDelivery.NoEntriesDistinct();
    } else {
      var init, last := peers[..|peers| - 1], peers[|peers| - 1];
      assert peers == init + [last];
      VxlanDelivery.PrefixCluster(me, init, last);
      FdbPlanDistinct(link, me, init);
      forall n | n in FdbPlan(link, init) ensures n.ip != last.address && KeyOf(n) != KeyOf(FdbFor(link, last)) {
        FdbMembers(link, init);
        var r :| r in init && n == FdbFor(link, r);
        assert r in [me] + peers && last in [me] + peers;
        FdbApart(link, [me] + peers, r, last);
      }
      SnocEntry(FdbPlan(link, init), FdbFor(link, last));
    }
  }

  lemma FdbApart(link: int, all: seq<NodeValue>, r: NodeValue, s: NodeValue)
    requires VxlanDelivery.Cluster(all) && r in all && s in all && r != s && Routable(r) && Routable(s)
    ensures r.address != s.address && KeyOf(FdbFor(link, r)) != KeyOf(FdbFor(link, s))
  {
    hide VxlanDelivery.Cluster, Disjoint;
    VxlanDelivery.ClusterApart(all, r, s);
    assert MacOf(r).low != MacOf(s).low;
  }

  lemma SnocEntry(s: seq<Neigh>, x: Neigh)
    requires DistinctEntries(s) && x.ip.Some? && forall n :: n in s ==> n.ip != x.ip && KeyOf(n) != KeyOf(x)
    ensures DistinctEntries(s + [x])
  {
    hide KeyOf;
    forall i | 0 <= i < |s| ensures s[i].ip != x.ip && KeyOf(s[i]) != KeyOf(x) {
      assert s[i] in s;
    }
  }

  /**
    After a completed run for the peers, from any table, an answered request for a pod address leads to
    the address of the owning node, if the owner's pod network starts a /24.
   */
  lemma AnswerLeadsToOwner(before: NeighTable, ops: seq<NeighOp>, link: int, me: NodeValue, peers: seq<NodeValue>,
                           r: NodeValue,
                           a: bv32, messages: seq<Message>)
    requires VxlanDelivery.Cluster([me] + peers) && AllRoutable(peers) && r in peers && IsCidr4(r.podCIDR.value)
    requires Plan(before, FdbPlan(link, peers), ops)
    requires Asked(link, messages, a)
    requires Contains(r.podCIDR.value, a) && StartsA24(r.podCIDR.value)
    ensures Accepted(before, ops)
    ensures Resolve(link, a, Exec(Exec(before, ops), Answers(link, messages))) == r.address
  {
    hide VxlanDelivery.Cluster, Plan, Exec, InPrefix, IsCidr4, Contains, StartsA24, MapToMac, FdbPlan, Answers;
    var t := Exec(before, ops);
    var u := Exec(t, Answers(link, messages));
    FdbPlanDistinct(link, me, peers);
    Converges(before, FdbPlan(link, peers), ops);
    FdbMembers(link, peers);
    assert FdbFor(link, r) in FdbPlan(link, peers);
    AnsweredEntries(t, link, messages, a);
    AnswersRightIffStartsA24(r.podCIDR.value);
    AnswersKeepFdb(t, link, messages, MacOf(r));
    assert SameAt(t, u, NeighKey.Fdb(link, MacOf(r)));
  }
}
