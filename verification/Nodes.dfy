/** What the API server reports about a node, and the value the agent derives from it. */
module Nodes {
  import opened Options
  import opened Addresses
  import opened Sequences

  datatype AddressType = InternalIP | OtherAddress

  datatype NodeAddress = NodeAddress(kind: AddressType, address: string)

  datatype ConditionStatus = StatusTrue | StatusFalse | StatusUnknown | StatusOther

  datatype Condition = Condition(networkUnavailable: bool, status: ConditionStatus)

  /** The identifiers of the machine, empty until the node reports them. */
  datatype SystemInfo = SystemInfo(machineID: string, systemUUID: string, bootID: string)

  datatype ApiNode = ApiNode(
    name: string, info: SystemInfo, podCIDR: string, addresses: seq<NodeAddress>, conditions: seq<Condition>)

  /** `net.ParseCIDR` and `net.ParseIP`. */
  datatype Parsers = Parsers(parseCIDR: string -> Option<Net>, parseIP: string -> Option<IP>)

  datatype NodeValue = NodeValue(name: string, address: Option<IP>, podCIDR: Option<Net>, networkAvailable: bool)

  const ZERO_NODE := NodeValue("", None, None, false)

  // ----- string order -----

  /** Go's string order, on the bytes of the string. */
  predicate Leq(a: string, b: string) {
    a == [] || (b != [] && (a[0] < b[0] || (a[0] == b[0] && Leq(a[1..], b[1..]))))
  }

  lemma {:induction false} LeqTotal(a: string, b: string)
    ensures Leq(a, b) || Leq(b, a)
    decreases |a|
  {
    if a != [] && b != [] {
      LeqTotal(a[1..], b[1..]);
    }
  }

  lemma {:induction false} LeqAntisymmetric(a: string, b: string)
    requires Leq(a, b) && Leq(b, a)
    ensures a == b
    decreases |a|
  {
    if a != [] {
      LeqAntisymmetric(a[1..], b[1..]);
      assert a == [a[0]] + a[1..] && b == [b[0]] + b[1..];
    }
  }

  lemma {:induction false} LeqTransitive(a: string, b: string, c: string)
    requires Leq(a, b) && Leq(b, c)
    ensures Leq(a, c)
    decreases |a|
  {
    if a != [] && a[0] == c[0] {
      LeqTransitive(a[1..], b[1..], c[1..]);
    }
  }

  /** The lexicographic order: a prefix comes first, and otherwise the first difference decides. */
  ghost predicate LexLeq(a: string, b: string) {
    a <= b || exists i :: 0 <= i < |a| && i < |b| && a[..i] == b[..i] && a[i] < b[i]
  }

  lemma {:induction false} LeqIsLexicographic(a: string, b: string)
    ensures Leq(a, b) <==> LexLeq(a, b)
    decreases |a|
  {
    if a != [] && b != [] {
      LeqIsLexicographic(a[1..], b[1..]);
      assert a == [a[0]] + a[1..] && b == [b[0]] + b[1..];
      if a[0] == b[0] {
        LexShift(a, b);
      } else {
        assert a[..0] == b[..0];
        forall i | 0 < i <= |a| && i <= |b| ensures a[..i] != b[..i] {
          assert a[..i][0] == a[0] && b[..i][0] == b[0];
        }
      }
    }
  }

  lemma LexShift(a: string, b: string)
    requires a != [] && b != [] && a[0] == b[0]
    ensures LexLeq(a, b) <==> LexLeq(a[1..], b[1..])
  {
    var c, d := a[1..], b[1..];
    assert a == [a[0]] + c && b == [b[0]] + d;
    if i :| 0 <= i < |a| && i < |b| && a[..i] == b[..i] && a[i] < b[i] {
      assert 0 < i;
      assert c[..i - 1] == a[..i][1..] && d[..i - 1] == b[..i][1..];
    }
    if i :| 0 <= i < |c| && i < |d| && c[..i] == d[..i] && c[i] < d[i] {
      assert a[..i + 1] == [a[0]] + c[..i] && b[..i + 1] == [b[0]] + d[..i];
      assert a[i + 1] == c[i] && b[i + 1] == d[i];
    }
  }

  ghost predicate Sorted(s: seq<string>) {
    forall i, j :: 0 <= i < j < |s| ==> Leq(s[i], s[j])
  }

  /** `sort.Strings`. */
  method SortStrings(s: seq<string>) returns (r: seq<string>)
    ensures Sorted(r) && multiset(r) == multiset(s)
  {
    r := [];
    for i := 0 to |s|
      invariant Sorted(r) && multiset(r) == multiset(s[..i])
    {
      assert s[..i + 1] == s[..i] + [s[i]];
      r := Insert(s[i], r);
    }
    assert s[..|s|] == s;
  }

  method Insert(x: string, s: seq<string>) returns (r: seq<string>)
    requires Sorted(s)
    ensures Sorted(r) && multiset(r) == multiset(s) + multiset{x}
  {
    hide Leq;
    var i := 0;
    while i < |s| && Leq(s[i], x)
      invariant 0 <= i <= |s|
      invariant forall j :: 0 <= j < i ==> Leq(s[j], x)
    {
      i := i + 1;
    }
    r := s[..i] + [x] + s[i..];
    assert s == s[..i] + s[i..];
    forall j | i <= j < |s| ensures Leq(x, s[j]) {
      LeqTotal(s[i], x);
      if i < j {
        LeqTransitive(x, s[i], s[j]);
      }
    }
    InsertedSorted(s, x, i);
  }

  lemma InsertedSorted(s: seq<string>, x: string, i: nat)
    requires Sorted(s) && i <= |s|
    requires (forall j :: 0 <= j < i ==> Leq(s[j], x)) && (forall j :: i <= j < |s| ==> Leq(x, s[j]))
    ensures Sorted(s[..i] + [x] + s[i..])
  {
    hide Leq;
    var r := s[..i] + [x] + s[i..];
    assert forall k :: 0 <= k < |r| ==> r[k] == if k < i then s[k] else if k == i then x else s[k - 1];
  }

  // ----- the projection -----

  /** The addresses of the internal kind, in order. */
  function InternalIPs(a: seq<NodeAddress>): seq<string> {
    if a == [] then [] else
      var init, last := a[..|a| - 1], a[|a| - 1];
      InternalIPs(init) + if last.kind == InternalIP then [last.address] else []
  }

  /** `x` is the least string of `s`. */
  ghost predicate IsLeast(x: string, s: seq<string>) {
    x in s && forall y :: y in s ==> Leq(x, y)
  }

  function Smallest(s: seq<string>): (x: string)
    requires s != []
    ensures IsLeast(x, s)
  {
    if |s| == 1 then
      LeqTotal(s[0], s[0]);
      s[0]
    else
      var init, last := s[..|s| - 1], s[|s| - 1];
      var m := Smallest(init);
      assert s == init + [last];
      LeqTotal(m, last);
      var r := if Leq(m, last) then m else last;
      assert forall y :: y in s ==> Leq(r, y) by {
        forall y | y in s ensures Leq(r, y) {
          LeqTotal(y, y);
          if y in init {
            LeqTransitive(r, m, y);
          }
        }
      }
      r
  }

  lemma LeastUnique(x: string, y: string, s: seq<string>, t: seq<string>)
    requires IsLeast(x, s) && IsLeast(y, t) && forall z :: z in s <==> z in t
    ensures x == y
  {
    LeqAntisymmetric(x, y);
  }

  /** Later conditions override earlier ones; other statuses leave the answer as it is. */
  function Available(c: seq<Condition>): bool {
    if c == [] then true else
      var last := c[|c| - 1];
      if last.networkUnavailable && last.status == StatusFalse then true
      else if last.networkUnavailable && last.status == StatusTrue then false
      else Available(c[..|c| - 1])
  }

  function AddressOf(p: Parsers, a: seq<NodeAddress>): Option<IP> {
    var ips := InternalIPs(a);
    if ips == [] then None else p.parseIP(Smallest(ips))
  }

  function CidrOf(p: Parsers, cidr: string): Option<Net> {
    if cidr == "" then None else p.parseCIDR(cidr)
  }

  /** The value that the agent keeps for a node: a function of what the API server last reported. */
  function Project(p: Parsers, src: ApiNode): NodeValue {
    NodeValue(src.name, AddressOf(p, src.addresses), CidrOf(p, src.podCIDR), Available(src.conditions))
  }

  lemma {:induction false} InternalIPsMembers(a: seq<NodeAddress>)
    ensures forall s :: s in InternalIPs(a) <==> NodeAddress(InternalIP, s) in a
    decreases |a|
  {
    if a != [] {
      var init, last := a[..|a| - 1], a[|a| - 1];
      assert a == init + [last];
      InternalIPsMembers(init);
    }
  }

  /** Reordering a node's addresses does not change the chosen one. */
  lemma AddressOrderIrrelevant(p: Parsers, a: seq<NodeAddress>, b: seq<NodeAddress>)
    requires multiset(a) == multiset(b)
    ensures AddressOf(p, a) == AddressOf(p, b)
  {
    InternalIPsMembers(a);
    InternalIPsMembers(b);
    assert forall x :: x in a <==> x in multiset(a);
    assert forall x :: x in b <==> x in multiset(b);
    var s, t := InternalIPs(a), InternalIPs(b);
    assert forall z :: z in s <==> z in t;
    if s == [] || t == [] {
      EmptyIffEmpty(s, t);
    } else {
      LeastUnique(Smallest(s), Smallest(t), s, t);
    }
  }

  lemma EmptyIffEmpty<T>(s: seq<T>, t: seq<T>)
    requires forall z :: z in s <==> z in t
    ensures s == [] <==> t == []
  {
    if s != [] { assert s[0] in t; }
    if t != [] { assert t[0] in s; }
  }

  /** Only the decisive condition matters: the last one about the network that is plainly true or false. */
  lemma {:induction false} AvailableByLastDecisive(c: seq<Condition>, i: nat)
    requires i < |c| && c[i].networkUnavailable && c[i].status in {StatusTrue, StatusFalse}
    requires forall j :: i < j < |c| && c[j].networkUnavailable ==> c[j].status !in {StatusTrue, StatusFalse}
    ensures Available(c) <==> c[i].status == StatusFalse
    decreases |c|
  {
    if i < |c| - 1 {
      AvailableByLastDecisive(c[..|c| - 1], i);
    }
  }

  // ----- what the projection means -----

  /** `x` is the least internal IP of the list in lexicographic order. */
  ghost predicate LeastInternal(x: string, a: seq<NodeAddress>) {
    NodeAddress(InternalIP, x) in a && forall y :: NodeAddress(InternalIP, y) in a ==> LexLeq(x, y)
  }

  predicate Decisive(c: Condition) {
    c.networkUnavailable && (c.status == StatusTrue || c.status == StatusFalse)
  }

  ghost predicate LastDecisive(c: seq<Condition>, i: nat) {
    i < |c| && Decisive(c[i]) && forall j :: i < j < |c| ==> !Decisive(c[j])
  }

  /** The address is the parsed least internal IP; without internal IPs there is none. */
  ghost predicate AddressReflects(p: Parsers, src: ApiNode, address: Option<IP>) {
    && (forall x :: LeastInternal(x, src.addresses) ==> address == p.parseIP(x))
    && ((forall x :: NodeAddress(InternalIP, x) !in src.addresses) ==> address == None)
  }

  /** The last decisive condition settles whether the network is available; without one it is. */
  ghost predicate ConditionsReflect(src: ApiNode, available: bool) {
    && (forall i: nat :: LastDecisive(src.conditions, i) ==> (available <==> src.conditions[i].status == StatusFalse))
    && ((forall i :: 0 <= i < |src.conditions| ==> !Decisive(src.conditions[i])) ==> available)
  }

  /** `v` says of the node what the API server reports: name, parsed pod network, address and availability. */
  ghost predicate Reflects(p: Parsers, src: ApiNode, v: NodeValue) {
    && v.name == src.name
    && v.podCIDR == (if src.podCIDR == "" then None else p.parseCIDR(src.podCIDR))
    && AddressReflects(p, src, v.address) && ConditionsReflect(src, v.networkAvailable)
  }

  /** The projection of a node is what reflects it, and nothing else is. */
  lemma ProjectReflects(p: Parsers, src: ApiNode, v: NodeValue)
    ensures Reflects(p, src, v) <==> v == Project(p, src)
  {
    hide AddressReflects, ConditionsReflect, AddressOf, Available;
    AddressIsLeast(p, src, v.address);
    AvailableIsLastWord(src, v.networkAvailable);
  }

  lemma AddressIsLeast(p: Parsers, src: ApiNode, address: Option<IP>)
    ensures AddressReflects(p, src, address) <==> address == AddressOf(p, src.addresses)
  {
    hide LexLeq;
    var ips := InternalIPs(src.addresses);
    InternalIPsMembers(src.addresses);
    EmptyOrMember(ips);
    forall x, y ensures Leq(x, y) <==> LexLeq(x, y) {
      LeqIsLexicographic(x, y);
    }
    if ips != [] {
      var least := Smallest(ips);
      assert LeastInternal(least, src.addresses);
      forall x | LeastInternal(x, src.addresses) ensures x == least {
        LeastUnique(x, least, ips, ips);
      }
    }
  }

  lemma AvailableIsLastWord(src: ApiNode, available: bool)
    ensures ConditionsReflect(src, available) <==> available == Available(src.conditions)
  {
    var c := src.conditions;
    if i :| 0 <= i < |c| && Decisive(c[i]) {
      var last := FindLastDecisive(c, i);
      AvailableByLastDecisive(c, last);
      assert LastDecisive(c, last);
      forall j: nat | LastDecisive(c, j) ensures j == last {
      }
    } else {
      AvailableByDefault(c);
    }
  }

  lemma {:induction false} FindLastDecisive(c: seq<Condition>, i: nat) returns (last: nat)
    requires i < |c| && Decisive(c[i])
    ensures LastDecisive(c, last)
    decreases |c| - i
  {
    if j :| i < j < |c| && Decisive(c[j]) {
      last := FindLastDecisive(c, j);
    } else {
      last := i;
    }
  }

  lemma {:induction false} AvailableByDefault(c: seq<Condition>)
    requires forall i :: 0 <= i < |c| ==> !Decisive(c[i])
    ensures Available(c)
    decreases |c|
  {
    if c != [] {
      AvailableByDefault(c[..|c| - 1]);
    }
  }

  // ----- the nodes that the providers plan for -----

  predicate Planable(v: NodeValue) {
    v.address.Some? && v.podCIDR.Some?
  }

  function Cidr(v: NodeValue): Net
    requires Planable(v)
  {
    v.podCIDR.value
  }

  predicate Eligible(me: NodeValue, r: NodeValue) {
    r.name != me.name && r.address.Some? && r.podCIDR.Some?
  }

  /** The nodes that the planner does not skip, in order. */
  function Peers(me: NodeValue, nodes: seq<NodeValue>): seq<NodeValue> {
    if nodes == [] then [] else
      var init, last := nodes[..|nodes| - 1], nodes[|nodes| - 1];
      Peers(me, init) + if Eligible(me, last) then [last] else []
  }

  lemma PeersSnoc(me: NodeValue, nodes: seq<NodeValue>, r: NodeValue)
    ensures Peers(me, nodes + [r]) == if Eligible(me, r) then Peers(me, nodes) + [r] else Peers(me, nodes)
  {
    assert (nodes + [r])[..|nodes|] == nodes;
  }

  lemma {:induction false} PeersMembers(me: NodeValue, nodes: seq<NodeValue>)
    ensures forall r :: r in Peers(me, nodes) <==>
              r in nodes && r.name != me.name && r.address.Some? && r.podCIDR.Some?
    decreases |nodes|
  {
    if nodes != [] {
      var init, last := nodes[..|nodes| - 1], nodes[|nodes| - 1];
      assert nodes == init + [last];
      PeersMembers(me, init);
    }
  }

  lemma {:induction false} PeersCounts(me: NodeValue, nodes: seq<NodeValue>)
    ensures forall r :: multiset(Peers(me, nodes))[r] ==
              if r.name != me.name && r.address.Some? && r.podCIDR.Some? then multiset(nodes)[r] else 0
    decreases |nodes|
  {
    if nodes != [] {
      var init, last := nodes[..|nodes| - 1], nodes[|nodes| - 1];
      assert nodes == init + [last];
      PeersCounts(me, init);
    }
  }

  /** A permutation of the nodes permutes the peers. */
  lemma PeersPermuted(me: NodeValue, nodes: seq<NodeValue>, other: seq<NodeValue>)
    requires multiset(nodes) == multiset(other)
    ensures multiset(Peers(me, nodes)) == multiset(Peers(me, other))
    ensures forall r :: r in Peers(me, nodes) <==> r in Peers(me, other)
    ensures forall r :: r in Peers(me, nodes) ==> Planable(r)
  {
    PeersCounts(me, nodes);
    PeersCounts(me, other);
    forall r ensures multiset(Peers(me, nodes))[r] == multiset(Peers(me, other))[r] {
    }
    PermutedMembers(Peers(me, nodes), Peers(me, other));
    PeersMembers(me, nodes);
  }

  // ----- NodeInfo -----

  class NodeInfo {
    const name: string
    var address: Option<IP>
    var podCIDR: Option<Net>
    var networkAvailable: bool

    constructor (name: string)
      ensures Value() == NodeValue(name, None, None, false)
    {
      this.name := name;
      address, podCIDR, networkAvailable := None, None, false;
    }

    function Value(): NodeValue
      reads this
    {
      NodeValue(name, address, podCIDR, networkAvailable)
    }

    /** Takes over what the source says; reports whether the value changed. */
    method Update(p: Parsers, src: ApiNode) returns (changed: bool)
      requires src.name == name
      modifies this
      ensures Value() == Project(p, src) && Reflects(p, src, Value())
      ensures changed <==> Value() != old(Value())
    {
      ProjectReflects(p, src, Project(p, src));
      hide Reflects;
      changed := false;
      if src.podCIDR == "" {
        if podCIDR != None {
          changed := true;
          podCIDR := None;
        }
      } else {
        var ipnet := p.parseCIDR(src.podCIDR);
        if ipnet.None? {
          if podCIDR != None {
            changed := true;
            podCIDR := None;
          }
        } else if podCIDR == None || podCIDR.value != ipnet.value {
          podCIDR := ipnet;
          changed := true;
        }
      }

      var internalIPs := CollectInternal(src.addresses);
      if |internalIPs| == 0 {
        if address != None {
          address := None;
          changed := true;
        }
      } else {
        var internalIP := Choose(internalIPs);
        var a := p.parseIP(internalIP);
        if a.None? {
          if address != None {
            address := None;
            changed := true;
          }
        } else if address != a {
          address := a;
          changed := true;
        }
      }

      var available := ScanConditions(src.conditions);
      if available != networkAvailable {
        networkAvailable := available;
        changed := true;
      }
    }
  }

  method CollectInternal(a: seq<NodeAddress>) returns (r: seq<string>)
    ensures r == InternalIPs(a)
  {
    r := [];
    for i := 0 to |a|
      invariant r == InternalIPs(a[..i])
    {
      assert a[..i + 1][..i] == a[..i];
      if a[i].kind == InternalIP {
        r := r + [a[i].address];
      }
    }
    assert a[..|a|] == a;
  }

  /** Sorts when there is a choice, then takes the first. */
  method Choose(s: seq<string>) returns (x: string)
    requires s != []
    ensures x == Smallest(s)
  {
    var t := s;
    if |t| != 1 {
      t := SortStrings(t);
      assert forall z :: z in t <==> z in multiset(t);
      assert forall z :: z in s <==> z in multiset(s);
    }
    assert |multiset(t)| == |t| && |multiset(s)| == |s|;
    x := t[0];
    forall y | y in t ensures Leq(x, y) {
      LeqTotal(y, y);
    }
    LeastUnique(x, Smallest(s), t, s);
  }

  method ScanConditions(c: seq<Condition>) returns (available: bool)
    ensures available == Available(c)
  {
    available := true;
    for i := 0 to |c|
      invariant available == Available(c[..i])
    {
      assert c[..i + 1][..i] == c[..i];
      if c[i].networkUnavailable {
        match c[i].status
        case StatusFalse => available := true;
        case StatusTrue => available := false;
        case StatusUnknown =>
        case StatusOther =>
      }
    }
    assert c[..|c|] == c;
  }
}
