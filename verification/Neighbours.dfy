/**
  The neighbour reconciler.  ARP entries and VXLAN forwarding entries share one list, which
  the code indexes by IP; the kernel keys the former by IP and the latter by MAC.  Entries
  are only ever set, never deleted.
 */
module Neighbours {
  import opened Options
  import opened Addresses
  import opened Sequences
  import opened KernelTables
  import opened Diffs

  /** A hardware address as six bytes: two leading ones and four more. */
  datatype Mac = Mac(vendor: bv16, low: bv32)

  datatype Neigh = Neigh(
    linkIndex: int, family: nat, state: nat, kind: nat, flags: nat, ip: Option<IP>, mac: Mac)

  const FAMILY_V4: nat := 2
  const AF_BRIDGE: nat := 7

  datatype NeighKey = Arp(link: int, ip: Option<IP>) | Fdb(link: int, mac: Mac)

  type NeighTable = map<NeighKey, Neigh>
  type NeighOp = Op<NeighKey, Neigh>
  type Index = map<IP, Neigh>

  function KeyOf(n: Neigh): NeighKey {
    if n.family == AF_BRIDGE then Fdb(n.linkIndex, n.mac) else Arp(n.linkIndex, n.ip)
  }

  function PutOp(n: Neigh): NeighOp { Op.Put(KeyOf(n), n) }

  ghost predicate WellKeyed(t: NeighTable) {
    forall k :: k in t ==> KeyOf(t[k]) == k
  }

  /** The last entry of each IP; unlike in the other reconcilers, entries without a key are skipped. */
  function ByIp(list: seq<Neigh>): Index {
    if list == [] then map[] else
      var init, last := list[..|list| - 1], list[|list| - 1];
      if last.ip.Some? then ByIp(init)[last.ip.value := last] else ByIp(init)
  }

  lemma {:induction false} ByIpMembers(list: seq<Neigh>)
    ensures forall ip :: ip in ByIp(list) ==> ByIp(list)[ip] in list && ByIp(list)[ip].ip == Some(ip)
    ensures forall n :: n in list && n.ip.Some? ==> n.ip.value in ByIp(list)
    decreases |list|
  {
    if list != [] {
      var init, last := list[..|list| - 1], list[|list| - 1];
      assert list == init + [last];
      ByIpMembers(init);
    }
  }

  method IndexIps(list: seq<Neigh>) returns (m: Index)
    ensures m == ByIp(list)
  {
    m := map[];
    for i := 0 to |list|
      invariant m == ByIp(list[..i])
    {
      assert list[..i + 1][..i] == list[..i];
      if list[i].ip.Some? {
        m := m[list[i].ip.value := list[i]];
      }
    }
    assert list[..|list|] == list;
  }

  /** A sound listing: every entry is in the table.  It need not show every family. */
  ghost predicate SoundList(list: seq<Neigh>, t: NeighTable) {
    forall n :: n in list ==> KeyOf(n) in t && t[KeyOf(n)] == n
  }

  /** The listing call shows the entry: it is on the link, and forwarding entries may be left out. */
  predicate Shows(link: int, showsFdb: bool, n: Neigh) {
    n.linkIndex == link && (showsFdb || n.family != AF_BRIDGE)
  }

  /** A listing of the link, in any order: every entry that the call shows, once. */
  ghost predicate FullListing(list: seq<Neigh>, t: NeighTable, link: int, showsFdb: bool) {
    NoDuplicates(list) && forall n :: n in list <==> KeyOf(n) in t && t[KeyOf(n)] == n && Shows(link, showsFdb, n)
  }

  ghost predicate PlanFrom(actual: Index, expected: Index, ops: seq<NeighOp>) {
    && NoDuplicates(ops)
    && (forall op :: op in ops <==>
          exists ip :: ip in expected && op == PutOp(expected[ip]) && (ip !in actual || actual[ip] != expected[ip]))
  }

  /** `ops` is a run that `Ensure` may perform on table `t`. */
  ghost predicate Plan(t: NeighTable, expected: seq<Neigh>, ops: seq<NeighOp>) {
    exists list: seq<Neigh> :: SoundList(list, t) && PlanFrom(ByIp(list), ByIp(expected), ops)
  }

  /** The same, for a listing of the link. */
  ghost predicate LinkPlan(t: NeighTable, link: int, showsFdb: bool, expected: seq<Neigh>, ops: seq<NeighOp>) {
    exists list: seq<Neigh> :: FullListing(list, t, link, showsFdb) && PlanFrom(ByIp(list), ByIp(expected), ops)
  }

  method Ensure(table: Table<NeighKey, Neigh>, link: int, showsFdb: bool, expectedList: seq<Neigh>)
    returns (ok: bool, ghost ops: seq<NeighOp>, ghost done: nat)
    requires WellKeyed(table.entries)
    modifies table
    ensures LinkPlan(old(table.entries), link, showsFdb, expectedList, ops) &&
            Plan(old(table.entries), expectedList, ops)
    ensures done <= |ops| && (ok <==> done == |ops|)
    ensures Accepted(old(table.entries), ops[..done])
    ensures table.entries == Exec(old(table.entries), ops[..done])
    ensures table.reliable ==> ok
  {
    var list := ListLink(table.entries, link, showsFdb);
    var actual := IndexIps(list);
    var expected := IndexIps(expectedList);
    ByIpMembers(expectedList);
    var upsert := Upserts(actual, expected);
    var applied, n := table.ApplyAll(upsert);
    assert Accepted(old(table.entries), upsert);
    return applied, upsert, n;
  }

  method ListLink(t: NeighTable, link: int, showsFdb: bool) returns (list: seq<Neigh>)
    requires WellKeyed(t)
    ensures FullListing(list, t, link, showsFdb)
  {
    var all, keys := ListEntries(t);
    list := [];
    for i := 0 to |all|
      invariant NoDuplicates(list)
      invariant forall n :: n in list <==> n in all[..i] && Shows(link, showsFdb, n)
    {
      assert all[..i + 1] == all[..i] + [all[i]];
      forall j | 0 <= j < i ensures all[j] != all[i] {
        assert keys[j] != keys[i];
      }
      if Shows(link, showsFdb, all[i]) {
        assert all[i] !in list;
        list := list + [all[i]];
      }
    }
    assert all[..|all|] == all;
    ListingMembers(all, keys, t);
  }

  method Upserts(actual: Index, expected: Index) returns (ops: seq<NeighOp>)
    requires forall ip :: ip in expected ==> expected[ip].ip == Some(ip)
    ensures PlanFrom(actual, expected, ops)
    ensures forall t: NeighTable :: Accepted(t, ops)
  {
    ops := [];
    var todo := expected.Keys;
    while todo != {}
      invariant todo <= expected.Keys
      invariant NoDuplicates(ops)
      invariant forall op :: op in ops <==>
        exists ip :: ip in expected && ip !in todo && op == PutOp(expected[ip]) &&
          (ip !in actual || actual[ip] != expected[ip])
      invariant forall i :: 0 <= i < |ops| ==> ops[i].Put? && ops[i].val.ip.Some? && ops[i].val.ip.value !in todo
    {
      var ip :| ip in todo;
      if ip !in actual || actual[ip] != expected[ip] {
        ops := ops + [PutOp(expected[ip])];
      }
      todo := todo - {ip};
    }
  }

  // ----- what the reconciler achieves -----

  /** Every entry has an IP, no two share it, and no two share a kernel key. */
  ghost predicate DistinctEntries(s: seq<Neigh>) {
    && (forall n :: n in s ==> n.ip.Some?)
    && (forall i, j :: 0 <= i < j < |s| ==> s[i].ip != s[j].ip && KeyOf(s[i]) != KeyOf(s[j]))
  }

  /** `t` with the entries of `expected` set and every other key as before. */
  ghost predicate Overlaid(r: NeighTable, t: NeighTable, expected: seq<Neigh>) {
    && (forall e :: e in expected ==> KeyOf(e) in r && r[KeyOf(e)] == e)
    && (forall k :: (forall e :: e in expected ==> KeyOf(e) != k) ==> SameAt(t, r, k))
  }

  lemma SameIpSame(s: seq<Neigh>, x: Neigh, y: Neigh)
    requires DistinctEntries(s) && x in s && y in s
    ensures x.ip == y.ip || KeyOf(x) == KeyOf(y) ==> x == y
  {
    var i :| 0 <= i < |s| && s[i] == x;
    var j :| 0 <= j < |s| && s[j] == y;
  }

  lemma PlanMembers(t: NeighTable, expected: seq<Neigh>, ops: seq<NeighOp>, list: seq<Neigh>)
    requires DistinctEntries(expected) && SoundList(list, t) && PlanFrom(ByIp(list), ByIp(expected), ops)
    ensures forall i :: 0 <= i < |ops| ==> ops[i].Put? && ops[i].val in expected && ops[i] == PutOp(ops[i].val)
    ensures forall e :: e in expected ==> PutOp(e) in ops || (KeyOf(e) in t && t[KeyOf(e)] == e)
    ensures DistinctKeys(ops)
  {
    ByIpMembers(expected);
    ByIpMembers(list);
    forall e | e in expected ensures ByIp(expected)[e.ip.value] == e {
      SameIpSame(expected, ByIp(expected)[e.ip.value], e);
    }
    forall i | 0 <= i < |ops| ensures ops[i].Put? && ops[i].val in expected && ops[i] == PutOp(ops[i].val) {
      assert ops[i] in ops;
    }
    forall i, j | 0 <= i < j < |ops| ensures ops[i].key != ops[j].key {
      if ops[i].key == ops[j].key {
        SameIpSame(expected, ops[i].val, ops[j].val);
      }
    }
  }

  /** From any table, through any listing, a completed run overlays exactly the expected entries. */
  lemma Converges(t: NeighTable, expected: seq<Neigh>, ops: seq<NeighOp>)
    requires DistinctEntries(expected) && Plan(t, expected, ops)
    ensures Accepted(t, ops) && Overlaid(Exec(t, ops), t, expected)
  {
    var list: seq<Neigh> :| SoundList(list, t) && PlanFrom(ByIp(list), ByIp(expected), ops);
    PlanMembers(t, expected, ops, list);
    BatchExec(t, ops);
    var r := Exec(t, ops);
    forall e | e in expected ensures KeyOf(e) in r && r[KeyOf(e)] == e {
      if PutOp(e) in ops {
        var i :| 0 <= i < |ops| && ops[i] == PutOp(e);
        assert Settled(r, ops[i]);
      } else {
        forall i | 0 <= i < |ops| ensures ops[i].key != KeyOf(e) {
          if ops[i].key == KeyOf(e) {
            SameIpSame(expected, ops[i].val, e);
          }
        }
        assert SameAt(t, r, KeyOf(e));
      }
    }
    forall k | forall e :: e in expected ==> KeyOf(e) != k ensures SameAt(t, r, k) {
      assert !Touches(ops, k);
    }
  }

  lemma OverlaidUnique(r: NeighTable, u: NeighTable, t: NeighTable, e: seq<Neigh>, f: seq<Neigh>)
    requires Overlaid(r, t, e) && Overlaid(u, t, f)
    requires forall n :: n in e <==> n in f
    ensures r == u
  {
    forall k ensures SameAt(r, u, k) {
      if x :| x in e && KeyOf(x) == k {
      } else {
        assert SameAt(t, r, k) && SameAt(t, u, k);
      }
    }
    SameEverywhere(r, u);
  }

  // ----- when a further run is idle -----

  /** Whatever the order of the listing, a run sets nothing. */
  ghost predicate AlwaysIdle(t: NeighTable, link: int, showsFdb: bool, expected: seq<Neigh>) {
    forall ops :: LinkPlan(t, link, showsFdb, expected, ops) ==> ops == []
  }

  /** The listing hides no expected entry. */
  ghost predicate AllShown(link: int, showsFdb: bool, expected: seq<Neigh>) {
    forall e :: e in expected ==> Shows(link, showsFdb, e)
  }

  /** An entry that the listing shows has the IP of the expected entry `e` and is another one. */
  ghost predicate Rivals(t: NeighTable, link: int, showsFdb: bool, e: Neigh, k: NeighKey) {
    k in t && Shows(link, showsFdb, t[k]) && t[k].ip == e.ip && t[k] != e
  }

  ghost predicate NoRival(t: NeighTable, link: int, showsFdb: bool, expected: seq<Neigh>) {
    forall e, k :: e in expected ==> !Rivals(t, link, showsFdb, e, k)
  }

  /** Every listing has a run. */
  lemma PlanExists(list: seq<Neigh>, expected: seq<Neigh>) returns (ops: seq<NeighOp>)
    ensures PlanFrom(ByIp(list), ByIp(expected), ops)
  {
    var a, e := ByIp(list), ByIp(expected);
    ops := Enumerate(set ip | ip in e && (ip !in a || a[ip] != e[ip]) :: PutOp(e[ip]));
  }

  /** An entry that the listing shows may come last in it. */
  lemma ListingWithLast(t: NeighTable, link: int, showsFdb: bool, n: Neigh) returns (list: seq<Neigh>)
    requires WellKeyed(t) && KeyOf(n) in t && t[KeyOf(n)] == n && Shows(link, showsFdb, n)
    ensures FullListing(list, t, link, showsFdb) && list != [] && list[|list| - 1] == n
  {
    var rest := Enumerate((set k | k in t && Shows(link, showsFdb, t[k]) :: t[k]) - {n});
    list := rest + [n];
    forall i | 0 <= i < |rest| ensures rest[i] != n {
      assert rest[i] in rest;
    }
  }

  lemma SomeListing(t: NeighTable, link: int, showsFdb: bool) returns (list: seq<Neigh>)
    requires WellKeyed(t)
    ensures FullListing(list, t, link, showsFdb)
  {
    list := Enumerate(set k | k in t && Shows(link, showsFdb, t[k]) :: t[k]);
  }

  /** A listing that does not show `e` as the last entry of its IP makes the run set it. */
  lemma SetAgain(t: NeighTable, link: int, showsFdb: bool, expected: seq<Neigh>, list: seq<Neigh>, e: Neigh)
    requires DistinctEntries(expected) && e in expected && FullListing(list, t, link, showsFdb)
    requires e.ip.value !in ByIp(list) || ByIp(list)[e.ip.value] != e
    ensures !AlwaysIdle(t, link, showsFdb, expected)
  {
    var ops := PlanExists(list, expected);
    ByIpMembers(expected);
    SameIpSame(expected, ByIp(expected)[e.ip.value], e);
    assert PutOp(e) in ops;
    assert LinkPlan(t, link, showsFdb, expected, ops);
  }

  lemma HiddenIsSetAgain(t: NeighTable, link: int, showsFdb: bool, expected: seq<Neigh>, e: Neigh)
    requires WellKeyed(t) && DistinctEntries(expected) && e in expected && !Shows(link, showsFdb, e)
    ensures !AlwaysIdle(t, link, showsFdb, expected)
  {
    var list := SomeListing(t, link, showsFdb);
    ByIpMembers(list);
    SetAgain(t, link, showsFdb, expected, list, e);
  }

  lemma RivalledIsSetAgain(t: NeighTable, link: int, showsFdb: bool, expected: seq<Neigh>, e: Neigh, k: NeighKey)
    requires WellKeyed(t) && DistinctEntries(expected) && e in expected && Rivals(t, link, showsFdb, e, k)
    ensures !AlwaysIdle(t, link, showsFdb, expected)
  {
    var list := ListingWithLast(t, link, showsFdb, t[k]);
    assert ByIp(list)[e.ip.value] == t[k];
    SetAgain(t, link, showsFdb, expected, list, e);
  }

  lemma UnrivalledIsIdle(t: NeighTable, link: int, showsFdb: bool, expected: seq<Neigh>, ops: seq<NeighOp>,
                         list: seq<Neigh>)
    requires DistinctEntries(expected) && forall e :: e in expected ==> KeyOf(e) in t && t[KeyOf(e)] == e
    requires AllShown(link, showsFdb, expected) && NoRival(t, link, showsFdb, expected)
    requires FullListing(list, t, link, showsFdb) && PlanFrom(ByIp(list), ByIp(expected), ops)
    ensures ops == []
  {
    ByIpMembers(expected);
    ByIpMembers(list);
    forall ip | ip in ByIp(expected) ensures ip in ByIp(list) && ByIp(list)[ip] == ByIp(expected)[ip] {
      var e := ByIp(expected)[ip];
      assert e in list;
      assert !Rivals(t, link, showsFdb, e, KeyOf(ByIp(list)[ip]));
    }
    EmptyOrMember(ops);
  }

  /**
    With the expected entries in place, further runs are idle if and only if the listing hides no
    expected entry and shows no other entry with an expected IP.
   */
  lemma IdleIffShownAndUnrivalled(t: NeighTable, link: int, showsFdb: bool, expected: seq<Neigh>)
    requires WellKeyed(t) && DistinctEntries(expected) && forall e :: e in expected ==>
               KeyOf(e) in t && t[KeyOf(e)] == e
    ensures AlwaysIdle(t, link, showsFdb, expected) <==>
              AllShown(link, showsFdb, expected) && NoRival(t, link, showsFdb, expected)
  {
    if e :| e in expected && !Shows(link, showsFdb, e) {
      HiddenIsSetAgain(t, link, showsFdb, expected, e);
    } else if e, k :| e in expected && Rivals(t, link, showsFdb, e, k) {
      RivalledIsSetAgain(t, link, showsFdb, expected, e, k);
    } else {
      forall ops | LinkPlan(t, link, showsFdb, expected, ops) ensures ops == [] {
        var list: seq<Neigh> :| FullListing(list, t, link, showsFdb) && PlanFrom(ByIp(list), ByIp(expected), ops);
        UnrivalledIsIdle(t, link, showsFdb, expected, ops, list);
      }
    }
  }

  /** The same for the table that a completed run leaves: only entries from before it can be rivals. */
  lemma IdleAfterRunIff(t: NeighTable, link: int, showsFdb: bool, expected: seq<Neigh>, ops: seq<NeighOp>)
    requires WellKeyed(t) && DistinctEntries(expected) && LinkPlan(t, link, showsFdb, expected, ops)
    ensures AlwaysIdle(Exec(t, ops), link, showsFdb, expected) <==>
            && AllShown(link, showsFdb, expected)
            && forall e, k :: e in expected && Rivals(t, link, showsFdb, e, k) ==>
                 exists f :: f in expected && KeyOf(f) == k
  {
    var r := Exec(t, ops);
    LinkPlanIsPlan(t, link, showsFdb, expected, ops);
    Converges(t, expected, ops);
    assert ops[..|ops|] == ops;
    PartialRunKeepsInvariant(t, expected, ops, |ops|);
    IdleIffShownAndUnrivalled(r, link, showsFdb, expected);
    forall e, k | e in expected
      ensures Rivals(r, link, showsFdb, e, k) <==> Rivals(t, link, showsFdb, e, k) && forall f :: f in expected ==>
              KeyOf(f) != k
    {
      if f :| f in expected && KeyOf(f) == k {
        SameIpSame(expected, e, f);
      } else {
        assert SameAt(t, r, k);
      }
    }
  }

  lemma LinkPlanIsPlan(t: NeighTable, link: int, showsFdb: bool, expected: seq<Neigh>, ops: seq<NeighOp>)
    requires LinkPlan(t, link, showsFdb, expected, ops)
    ensures Plan(t, expected, ops)
  {
    var list: seq<Neigh> :| FullListing(list, t, link, showsFdb) && PlanFrom(ByIp(list), ByIp(expected), ops);
    assert SoundList(list, t);
  }

  /** However far a run gets, and whatever it is for, the table stays well keyed. */
  lemma PartialRunKeepsInvariant(t: NeighTable, expected: seq<Neigh>, ops: seq<NeighOp>, n: nat)
    requires WellKeyed(t) && Plan(t, expected, ops) && n <= |ops|
    ensures WellKeyed(Exec(t, ops[..n]))
  {
    hide Exec, ByIp;
    var list: seq<Neigh> :| SoundList(list, t) && PlanFrom(ByIp(list), ByIp(expected), ops);
    var r := Exec(t, ops[..n]);
    forall k | k in r ensures KeyOf(r[k]) == k {
      ExecEntries(t, ops[..n], k);
      if Sets(ops[..n], k, r[k]) {
        var i :| 0 <= i < n && ops[..n][i].key == k && !ops[..n][i].Del? && ops[..n][i].val == r[k];
        assert ops[i] in ops;
      }
    }
  }
}
