/**
  The link address reconciler.  A changed address is created before the old one is removed,
  so the kernel, which keys addresses by network, refuses it.
 */
module LinkAddresses {
  import opened Options
  import opened Addresses
  import opened Sequences
  import opened KernelTables
  import opened Diffs

  datatype Addr = Addr(ipnet: Net, tag: string, flags: nat, scope: nat)

  type AddrTable = map<Net, Addr>
  type AddrOp = Op<Net, Addr>

  /** 169.254.0.0/16 and fe80::/10. */
  predicate LinkLocal(a: Addr) {
    match a.ipnet.ip
    case V4(w) => w & 0xffff_0000 == 0xa9fe_0000
    case V6(b) => |b| == 16 && b[0] == 0xfe && b[1] & 0xc0 == 0x80
  }

  /** By bytes: addresses that begin 169.254, and those whose first ten bits are those of fe80. */
  lemma LinkLocalBytes(a: Addr)
    ensures a.ipnet.ip.V4? ==>
              (LinkLocal(a) <==> Octets(a.ipnet.ip.addr)[0] == 169 && Octets(a.ipnet.ip.addr)[1] == 254)
    ensures a.ipnet.ip.V6? && |a.ipnet.ip.bytes| == 16 ==>
              (LinkLocal(a) <==> a.ipnet.ip.bytes[0] == 0xfe && 0x80 <= a.ipnet.ip.bytes[1] <= 0xbf)
  {
    if a.ipnet.ip.V6? && |a.ipnet.ip.bytes| == 16 {
      TenBits(a.ipnet.ip.bytes[1]);
    } else if a.ipnet.ip.V4? {
      SixteenBits(a.ipnet.ip.addr);
    }
  }

  lemma TenBits(b: bv8)
    ensures b & 0xc0 == 0x80 <==> 0x80 <= b <= 0xbf
  {
  }

  lemma SixteenBits(w: bv32)
    ensures w & 0xffff_0000 == 0xa9fe_0000 <==> Octets(w)[0] == 169 && Octets(w)[1] == 254
  {
  }

  ghost predicate WellKeyed(t: AddrTable) {
    forall n :: n in t ==> t[n].ipnet == n
  }

  function NetOf(a: Addr): Net {
    a.ipnet
  }

  /** The last address of each network. */
  function ByNet(list: seq<Addr>): AddrTable {
    IndexBy(list, NetOf)
  }

  lemma ByNetOne(a: Addr)
    ensures ByNet([a]) == map[a.ipnet := a]
  {
    assert [a][..0] == [] && IndexBy<Net, Addr>([], NetOf) == map[];
  }

  lemma ByNetMembers(list: seq<Addr>)
    ensures forall n :: n in ByNet(list) ==> ByNet(list)[n] in list && ByNet(list)[n].ipnet == n
    ensures forall a :: a in list ==> a.ipnet in ByNet(list)
  {
    IndexByMembers(list, NetOf);
    forall n | n in ByNet(list) ensures ByNet(list)[n] in list && ByNet(list)[n].ipnet == n {
      assert NetOf(ByNet(list)[n]) == n;
    }
    forall a | a in list ensures a.ipnet in ByNet(list) {
      assert NetOf(a) in ByNet(list);
    }
  }

  /** The part of the table that the reconciler looks at. */
  function Listed(t: AddrTable): AddrTable {
    map n | n in t && !LinkLocal(t[n]) :: t[n]
  }

  ghost predicate ToAdd(actual: AddrTable, expected: AddrTable, op: AddrOp) {
    op.Add? && op.key in expected && op.val == expected[op.key] &&
      (op.key !in actual || actual[op.key] != expected[op.key])
  }

  ghost predicate ToDel(actual: AddrTable, expected: AddrTable, op: AddrOp) {
    op.Del? && op.key in actual && (op.key !in expected || actual[op.key] != expected[op.key])
  }

  /** All creates (missing and changed), then all removals (changed and unexpected). */
  ghost predicate Plan(t: AddrTable, expected: AddrTable, adds: seq<AddrOp>, dels: seq<AddrOp>) {
    var actual := Listed(t);
    && NoDuplicates(adds) && NoDuplicates(dels)
    && (forall op :: op in adds <==> ToAdd(actual, expected, op))
    && (forall op :: op in dels <==> ToDel(actual, expected, op))
  }

  method Ensure(table: Table<Net, Addr>, expectedList: seq<Addr>)
    returns (ok: bool, ghost adds: seq<AddrOp>, ghost dels: seq<AddrOp>, ghost done: nat)
    requires WellKeyed(table.entries)
    modifies table
    ensures Plan(old(table.entries), ByNet(expectedList), adds, dels)
    ensures done <= |adds + dels| && (ok <==> done == |adds + dels|)
    ensures Accepted(old(table.entries), (adds + dels)[..done])
    ensures table.entries == Exec(old(table.entries), (adds + dels)[..done])
    ensures table.reliable ==> ok == Accepted(old(table.entries), adds + dels)
  {
    var actual := Listed(table.entries);
    var expected: AddrTable := BuildIndex(expectedList, NetOf);
    ByNetMembers(expectedList);
    var c, r := BuildOps(table.entries, expected);
    var applied, n := table.ApplyAll(c + r);
    return applied, c, r, n;
  }

  method BuildOps(t: AddrTable, expected: AddrTable) returns (adds: seq<AddrOp>, dels: seq<AddrOp>)
    requires forall n :: n in expected ==> expected[n].ipnet == n
    ensures Plan(t, expected, adds, dels)
  {
    var actual := Listed(t);
    adds, dels := [], [];
    var todo := expected.Keys;
    while todo != {}
      invariant todo <= expected.Keys
      invariant forall i :: 0 <= i < |adds| ==> adds[i].key !in todo
      invariant NoDuplicates(adds)
      invariant forall op :: op in adds <==> ToAdd(actual, expected, op) && op.key !in todo
    {
      var n :| n in todo;
      if n !in actual || actual[n] != expected[n] {
        adds := adds + [Op.Add(n, expected[n])];
      }
      todo := todo - {n};
    }
    todo := actual.Keys;
    while todo != {}
      invariant todo <= actual.Keys
      invariant forall i :: 0 <= i < |dels| ==> dels[i].key !in todo
      invariant NoDuplicates(dels)
      invariant forall op :: op in dels <==> ToDel(actual, expected, op) && op.key !in todo
    {
      var n :| n in todo;
      if n !in expected || actual[n] != expected[n] {
        dels := dels + [Op.Del(n)];
      }
      todo := todo - {n};
    }
  }

  // ----- what the reconciler achieves -----

  /** No address sits at an expected network unless it is the expected one, and visible. */
  ghost predicate Unobstructed(t: AddrTable, expected: AddrTable) {
    forall n :: n in expected && n in t ==> t[n] == expected[n] && !LinkLocal(t[n])
  }

  /** The expected addresses together with the link-local ones of `t`. */
  function Desired(t: AddrTable, expected: AddrTable): AddrTable {
    (map n | n in t && LinkLocal(t[n]) :: t[n]) + expected
  }

  lemma PlanKeysDistinct(t: AddrTable, expected: AddrTable, adds: seq<AddrOp>, dels: seq<AddrOp>)
    requires Plan(t, expected, adds, dels)
    ensures DistinctKeys(adds) && DistinctKeys(dels)
    ensures forall i :: 0 <= i < |adds| ==> ToAdd(Listed(t), expected, adds[i])
    ensures forall i :: 0 <= i < |dels| ==> ToDel(Listed(t), expected, dels[i])
    ensures forall n :: n in expected && (n !in Listed(t) || Listed(t)[n] != expected[n]) ==> Touches(adds, n)
    ensures forall n :: n in Listed(t) && (n !in expected || Listed(t)[n] != expected[n]) ==> Touches(dels, n)
  {
    forall i | 0 <= i < |adds| ensures ToAdd(Listed(t), expected, adds[i]) {
      assert adds[i] in adds;
    }
    forall i | 0 <= i < |dels| ensures ToDel(Listed(t), expected, dels[i]) {
      assert dels[i] in dels;
    }
    forall n | n in expected && (n !in Listed(t) || Listed(t)[n] != expected[n]) ensures Touches(adds, n) {
      var op := Op.Add(n, expected[n]);
      assert ToAdd(Listed(t), expected, op);
      var i :| 0 <= i < |adds| && adds[i] == op;
      assert adds[i].key == n;
    }
    forall n | n in Listed(t) && (n !in expected || Listed(t)[n] != expected[n]) ensures Touches(dels, n) {
      var op: AddrOp := Op.Del(n);
      assert ToDel(Listed(t), expected, op);
      var i :| 0 <= i < |dels| && dels[i] == op;
      assert dels[i].key == n;
    }
  }

  lemma CreatesAccepted(t: AddrTable, expected: AddrTable, adds: seq<AddrOp>, dels: seq<AddrOp>)
    requires Plan(t, expected, adds, dels)
    ensures Accepted(t, adds) <==> Unobstructed(t, expected)
  {
    PlanKeysDistinct(t, expected, adds, dels);
    BatchExec(t, adds);
    if Accepted(t, adds) {
      forall n | n in expected && n in t ensures t[n] == expected[n] && !LinkLocal(t[n]) {
        assert forall i :: 0 <= i < |adds| ==> Enabled(t, adds[i]);
        assert !Touches(adds, n);
      }
    }
  }

  lemma AfterCreates(t: AddrTable, expected: AddrTable, adds: seq<AddrOp>, dels: seq<AddrOp>)
    requires Plan(t, expected, adds, dels) && Unobstructed(t, expected)
    ensures Exec(t, adds) == t + expected
  {
    PlanKeysDistinct(t, expected, adds, dels);
    forall k | !Touches(adds, k) ensures SameAt(t, t + expected, k) {
      assert k in expected ==> k in Listed(t);
    }
    BatchReaches(t, adds, t + expected);
  }

  lemma AfterRemovals(t: AddrTable, expected: AddrTable, adds: seq<AddrOp>, dels: seq<AddrOp>)
    requires Plan(t, expected, adds, dels) && Unobstructed(t, expected)
    ensures Accepted(t + expected, dels)
    ensures Exec(t + expected, dels) == Desired(t, expected)
  {
    var u := t + expected;
    PlanKeysDistinct(t, expected, adds, dels);
    BatchExec(u, dels);
    forall k | !Touches(dels, k) ensures SameAt(u, Desired(t, expected), k) {
      assert k in t && k !in expected && !LinkLocal(t[k]) ==> k in Listed(t);
    }
    BatchReaches(u, dels, Desired(t, expected));
  }

  /** The run is accepted exactly when nothing obstructs it, and then it converges. */
  lemma ConvergesIffUnobstructed(t: AddrTable, expected: AddrTable, adds: seq<AddrOp>, dels: seq<AddrOp>)
    requires Plan(t, expected, adds, dels)
    ensures Accepted(t, adds + dels) <==> Unobstructed(t, expected)
    ensures Accepted(t, adds + dels) ==> Exec(t, adds + dels) == Desired(t, expected)
  {
    ExecAppend(t, adds, dels);
    CreatesAccepted(t, expected, adds, dels);
    if Unobstructed(t, expected) {
      AfterCreates(t, expected, adds, dels);
      AfterRemovals(t, expected, adds, dels);
    }
  }

  /** Once the addresses are in place, another run performs no operation. */
  lemma SecondRunIsIdle(t: AddrTable, expected: AddrTable, adds: seq<AddrOp>, dels: seq<AddrOp>)
    requires forall n :: n in expected ==> !LinkLocal(expected[n])
    requires Plan(Desired(t, expected), expected, adds, dels)
    ensures adds == [] && dels == []
  {
    EmptyOrMember(adds);
    EmptyOrMember(dels);
  }

  /** An address with the expected network and another label makes the run fail with nothing removed. */
  lemma ChangedAddressFails(n: Net)
    requires !LinkLocal(Addr(n, "vxlan1", 128, 0))
    ensures var t := map[n := Addr(n, "", 128, 0)];
            var expected := map[n := Addr(n, "vxlan1", 128, 0)];
            forall adds, dels :: Plan(t, expected, adds, dels) ==> !Accepted(t, adds + dels)
  {
    var t, expected := map[n := Addr(n, "", 128, 0)], map[n := Addr(n, "vxlan1", 128, 0)];
    assert t[n] != expected[n] by {
      assert |t[n].tag| == 0;
    }
    forall adds, dels | Plan(t, expected, adds, dels) ensures !Accepted(t, adds + dels) {
      ConvergesIffUnobstructed(t, expected, adds, dels);
    }
  }
}
