/**
  The xfrm state reconciler.  It indexes states by SPI alone, while the kernel's security
  association database keys them by destination, protocol and SPI.
 */
module XfrmStates {
  import opened Options
  import opened Addresses
  import opened Sequences
  import opened KernelTables
  import opened Diffs
  import opened Xfrm

  datatype SadKey = SadKey(dst: Option<IP>, proto: nat, spi: SPI)

  type Sad = map<SadKey, State>
  type SadOp = Op<SadKey, State>
  type Index = map<SPI, State>

  function KeyOf(s: State): SadKey {
    SadKey(s.dst, s.proto, s.spi)
  }

  function Spi(s: State): SPI {
    s.spi
  }

  /** The last listed state of each SPI. */
  function BySpi(list: seq<State>): Index {
    IndexBy(list, Spi)
  }

  ghost predicate DistinctSpiList(list: seq<State>) {
    forall i, j :: 0 <= i < j < |list| ==> list[i].spi != list[j].spi
  }

  lemma BySpiFacts(list: seq<State>)
    ensures forall spi :: spi in BySpi(list) ==> BySpi(list)[spi].spi == spi && BySpi(list)[spi] in list
    ensures forall s :: s in list ==> s.spi in BySpi(list)
    ensures DistinctSpiList(list) ==> forall s :: s in list ==> BySpi(list)[s.spi] == s
  {
    IndexByMembers(list, Spi);
    forall spi | spi in BySpi(list) ensures BySpi(list)[spi].spi == spi && BySpi(list)[spi] in list {
      assert Spi(BySpi(list)[spi]) == spi;
    }
    forall s | s in list ensures s.spi in BySpi(list) {
      assert Spi(s) in BySpi(list);
    }
    if DistinctSpiList(list) {
      assert DistinctBy(list, Spi);
      IndexByDistinct(list, Spi);
    }
  }

  ghost predicate WellKeyed(t: Sad) {
    forall k :: k in t ==> KeyOf(t[k]) == k
  }

  /** The kernel holds one state per SPI. */
  ghost predicate DistinctSpis(t: Sad) {
    forall k, l :: k in t && l in t && k.spi == l.spi ==> k == l
  }

  /** A state holding an expected SPI has the expected destination and protocol. */
  ghost predicate Compatible(t: Sad, expected: seq<State>) {
    forall k, e :: k in t && e in expected && k.spi == e.spi ==> k == KeyOf(e)
  }

  /** `actual` indexes table `t`: for every SPI in use, some state that uses it. */
  ghost predicate Indexes(actual: Index, t: Sad) {
    && (forall spi :: spi in actual ==>
          actual[spi].spi == spi && KeyOf(actual[spi]) in t && t[KeyOf(actual[spi])] == actual[spi])
    && (forall k :: k in t ==> k.spi in actual)
  }

  ghost predicate Planned(actual: Index, expected: Index, op: SadOp) {
    match op
    case Add(k, e) => e.spi in expected && expected[e.spi] == e && k == KeyOf(e) && e.spi !in actual
    case Update(k, e) => e.spi in expected && expected[e.spi] == e && k == KeyOf(e) && e.spi in actual &&
      actual[e.spi] != e
    case Del(k) => k.spi in actual && KeyOf(actual[k.spi]) == k && k.spi !in expected
    case Put(_, _) => false
  }

  ghost predicate PlanFrom(actual: Index, expected: Index, ops: seq<SadOp>) {
    NoDuplicates(ops) && forall op :: op in ops <==> Planned(actual, expected, op)
  }

  /** `ops` is a run that `Ensure` may perform on table `t`. */
  ghost predicate Plan(t: Sad, expected: seq<State>, ops: seq<SadOp>) {
    exists actual: Index :: Indexes(actual, t) && PlanFrom(actual, BySpi(expected), ops)
  }

  // ----- the code -----

  datatype Outcome = Done | Failed | Fatal

  function AddOp(s: State): SadOp { Op.Add(KeyOf(s), s) }
  function UpdateOp(s: State): SadOp { Op.Update(KeyOf(s), s) }
  function DelOp(s: State): SadOp { Op.Del(KeyOf(s)) }

  /** The expected index, or the duplicate-SPI abort. */
  method IndexExpected(list: seq<State>) returns (fatal: bool, m: Index)
    ensures fatal <==> !DistinctSpiList(list)
    ensures !fatal ==> m == BySpi(list)
  {
    m := map[];
    for i := 0 to |list|
      invariant m == BySpi(list[..i])
      invariant DistinctSpiList(list[..i])
    {
      BySpiFacts(list[..i]);
      assert list[..i + 1][..i] == list[..i];
      if list[i].spi in m {
        var j :| 0 <= j < i && list[..i][j] == m[list[i].spi];
        assert list[j].spi == list[i].spi;
        return true, m;
      }
      forall j | 0 <= j < i ensures list[j].spi != list[i].spi {
        assert list[j] in list[..i];
      }
      m := m[list[i].spi := list[i]];
    }
    assert list[..|list|] == list;
    fatal := false;
  }

  method Ensure(table: Table<SadKey, State>, expectedList: seq<State>)
    returns (outcome: Outcome, ghost ops: seq<SadOp>, ghost done: nat)
    requires WellKeyed(table.entries)
    modifies table
    ensures outcome == Fatal <==> !DistinctSpiList(expectedList)
    ensures outcome == Fatal ==> table.entries == old(table.entries)
    ensures outcome != Fatal ==>
              && Plan(old(table.entries), expectedList, ops)
              && done <= |ops| && (outcome == Done <==> done == |ops|)
              && Accepted(old(table.entries), ops[..done])
              && table.entries == Exec(old(table.entries), ops[..done])
    ensures outcome != Fatal && table.reliable ==>
              (outcome == Done <==> Accepted(old(table.entries), ops))
  {
    var list, keys := ListEntries(table.entries);
    ListingMembers(list, keys, table.entries);
    var actual := BuildIndex(list, Spi);
    var fatal, expected := IndexExpected(expectedList);
    if fatal {
      return Fatal, [], 0;
    }
    BySpiFacts(list);
    BySpiFacts(expectedList);
    assert forall k :: k in table.entries ==> table.entries[k] in list;
    assert Indexes(actual, table.entries);
    var create, change, remove := Compare(actual, expected);
    forall l | l in change ensures actual[l] != expected[l] {
      assert l in expected && l in actual;
    }
    forall l | l in expected && l in actual && actual[l] != expected[l] ensures l in change {
    }
    var all := OpsFor(actual, expected, create, change, remove);
    var ok, n := table.ApplyAll(all);
    return if ok then Done else Failed, all, n;
  }

  ghost predicate Compared(actual: Index, expected: Index, create: seq<SPI>, change: seq<SPI>, remove: seq<SPI>) {
    && (forall l :: l in actual ==> actual[l].spi == l)
    && (forall l :: l in expected ==> expected[l].spi == l)
    && NoDuplicates(create) && NoDuplicates(change) && NoDuplicates(remove)
    && (forall l :: l in create <==> l in expected && l !in actual)
    && (forall l :: l in change <==> l in expected && l in actual && actual[l] != expected[l])
    && (forall l :: l in remove <==> l in actual && l !in expected)
  }

  /** Creates come first, then updates, then removals. */
  method OpsFor(actual: Index, expected: Index, create: seq<SPI>, change: seq<SPI>, remove: seq<SPI>)
    returns (ops: seq<SadOp>)
    requires Compared(actual, expected, create, change, remove)
    ensures PlanFrom(actual, expected, ops)
  {
    assert forall i :: 0 <= i < |create| ==> create[i] in create;
    assert forall i :: 0 <= i < |change| ==> change[i] in change;
    assert forall i :: 0 <= i < |remove| ==> remove[i] in remove;
    var c := seq(|create|, i requires 0 <= i < |create| => AddOp(expected[create[i]]));
    var u := seq(|change|, i requires 0 <= i < |change| => UpdateOp(expected[change[i]]));
    var r := seq(|remove|, i requires 0 <= i < |remove| => DelOp(actual[remove[i]]));
    ops := c + u + r;
    OpsDistinct(actual, expected, create, change, remove, ops);
    OpsPlanned(actual, expected, create, change, remove, c, u, r);
  }

  lemma OpsDistinct(actual: Index, expected: Index, create: seq<SPI>, change: seq<SPI>, remove: seq<SPI>,
                    ops: seq<SadOp>)
    requires Compared(actual, expected, create, change, remove)
    requires |ops| == |create| + |change| + |remove|
    requires forall i :: 0 <= i < |ops| ==> ops[i].key.spi == (create + change + remove)[i]
    ensures NoDuplicates(ops)
  {
    var spis := create + change + remove;
    forall i, j | 0 <= i < j < |spis| ensures spis[i] != spis[j] {
      assert spis[i] in create || spis[i] in change || spis[i] in remove;
      assert spis[j] in create || spis[j] in change || spis[j] in remove;
    }
  }

  lemma OpsPlanned(actual: Index, expected: Index, create: seq<SPI>, change: seq<SPI>, remove: seq<SPI>,
                   c: seq<SadOp>, u: seq<SadOp>, r: seq<SadOp>)
    requires Compared(actual, expected, create, change, remove)
    requires |c| == |create| && forall i :: 0 <= i < |c| ==> create[i] in expected && c[i] == AddOp(expected[create[i]])
    requires |u| == |change| && forall i :: 0 <= i < |u| ==>
               change[i] in expected && u[i] == UpdateOp(expected[change[i]])
    requires |r| == |remove| && forall i :: 0 <= i < |r| ==> remove[i] in actual && r[i] == DelOp(actual[remove[i]])
    ensures forall op :: op in c + u + r <==> Planned(actual, expected, op)
  {
    forall op | op in c + u + r ensures Planned(actual, expected, op) {
      if op in c {
        var i :| 0 <= i < |create| && c[i] == op;
        assert create[i] in create;
      } else if op in u {
        var i :| 0 <= i < |change| && u[i] == op;
        assert change[i] in change;
      } else {
        var i :| 0 <= i < |remove| && r[i] == op;
        assert remove[i] in remove;
      }
    }
    forall op | Planned(actual, expected, op) ensures op in c + u + r {
      match op
      case Add(k, e) => var i :| 0 <= i < |create| && create[i] == e.spi; assert c[i] == op;
      case Update(k, e) => var i :| 0 <= i < |change| && change[i] == e.spi; assert u[i] == op;
      case Del(k) => var i :| 0 <= i < |remove| && remove[i] == k.spi; assert r[i] == op;
    }
  }

  // ----- what the reconciler achieves -----

  /** Different operations of a plan are on different SPIs, hence on different keys. */
  lemma PlanTouchesDistinctKeys(t: Sad, expected: seq<State>, ops: seq<SadOp>)
    requires Plan(t, expected, ops)
    ensures forall i, j :: 0 <= i < j < |ops| ==> ops[i].key.spi != ops[j].key.spi
    ensures DistinctKeys(ops)
  {
    var actual: Index :| Indexes(actual, t) && PlanFrom(actual, BySpi(expected), ops);
    forall i, j | 0 <= i < j < |ops| ensures ops[i].key.spi != ops[j].key.spi {
      assert ops[i] in ops && ops[j] in ops;
    }
  }

  /** The kernel refuses no operation of a plan exactly when the table is compatible. */
  lemma AcceptedIffCompatible(t: Sad, expected: seq<State>, ops: seq<SadOp>)
    requires WellKeyed(t) && DistinctSpis(t) && DistinctSpiList(expected)
    requires Plan(t, expected, ops)
    ensures Accepted(t, ops) <==> Compatible(t, expected)
  {
    var actual: Index :| Indexes(actual, t) && PlanFrom(actual, BySpi(expected), ops);
    PlanTouchesDistinctKeys(t, expected, ops);
    BatchExec(t, ops);
    BySpiFacts(expected);
    if Compatible(t, expected) {
      forall i | 0 <= i < |ops| ensures Enabled(t, ops[i]) {
        assert ops[i] in ops;
      }
    }
    if Accepted(t, ops) {
      forall k, e | k in t && e in expected && k.spi == e.spi ensures k == KeyOf(e) {
        if t[k] != e {
          assert Planned(actual, BySpi(expected), UpdateOp(e));
          var i :| 0 <= i < |ops| && ops[i] == UpdateOp(e);
          assert Enabled(t, ops[i]);
        }
      }
    }
  }

  /** A completed run leaves exactly the expected states. */
  lemma Converges(t: Sad, expected: seq<State>, ops: seq<SadOp>)
    requires WellKeyed(t) && DistinctSpis(t) && DistinctSpiList(expected)
    requires Plan(t, expected, ops) && Accepted(t, ops)
    ensures Exactly(Exec(t, ops), expected, KeyOf)
  {
    var actual: Index :| Indexes(actual, t) && PlanFrom(actual, BySpi(expected), ops);
    PlanTouchesDistinctKeys(t, expected, ops);
    BatchExec(t, ops);
    AcceptedIffCompatible(t, expected, ops);
    BySpiFacts(expected);
    var r := Exec(t, ops);
    forall e | e in expected ensures KeyOf(e) in r && r[KeyOf(e)] == e {
      ExpectedInPlace(t, actual, expected, ops, e);
    }
    forall k | k in r ensures r[k] in expected && KeyOf(r[k]) == k {
      NothingElseLeft(t, actual, expected, ops, k);
    }
  }

  lemma NothingElseLeft(t: Sad, actual: Index, expected: seq<State>, ops: seq<SadOp>, k: SadKey)
    requires WellKeyed(t) && DistinctSpis(t)
    requires Indexes(actual, t) && PlanFrom(actual, BySpi(expected), ops) && DistinctKeys(ops)
    requires Compatible(t, expected) && k in Exec(t, ops)
    ensures Exec(t, ops)[k] in expected && KeyOf(Exec(t, ops)[k]) == k
  {
    BatchExec(t, ops);
    BySpiFacts(expected);
    var r := Exec(t, ops);
    if Touches(ops, k) {
      var i :| 0 <= i < |ops| && ops[i].key == k;
      assert ops[i] in ops && Settled(r, ops[i]);
    } else {
      assert SameAt(t, r, k);
      assert k.spi in actual && KeyOf(actual[k.spi]) == k;
      assert Planned(actual, BySpi(expected), Op.Del(k)) ==> Touches(ops, k);
      if k.spi in BySpi(expected) {
        var e := BySpi(expected)[k.spi];
        assert Planned(actual, BySpi(expected), UpdateOp(e)) ==> Touches(ops, KeyOf(e));
      }
    }
  }

  lemma ExpectedInPlace(t: Sad, actual: Index, expected: seq<State>, ops: seq<SadOp>, e: State)
    requires WellKeyed(t) && DistinctSpis(t) && DistinctSpiList(expected)
    requires Indexes(actual, t) && PlanFrom(actual, BySpi(expected), ops) && DistinctKeys(ops)
    requires Compatible(t, expected) && e in expected
    ensures KeyOf(e) in Exec(t, ops) && Exec(t, ops)[KeyOf(e)] == e
  {
    BatchExec(t, ops);
    BySpiFacts(expected);
    if e.spi !in actual {
      assert AddOp(e) in ops;
      var i :| 0 <= i < |ops| && ops[i] == AddOp(e);
      assert Settled(Exec(t, ops), ops[i]);
    } else if actual[e.spi] != e {
      assert UpdateOp(e) in ops;
      var i :| 0 <= i < |ops| && ops[i] == UpdateOp(e);
      assert Settled(Exec(t, ops), ops[i]);
    } else {
      forall i | 0 <= i < |ops| ensures ops[i].key != KeyOf(e) {
        assert ops[i] in ops;
      }
      assert SameAt(t, Exec(t, ops), KeyOf(e));
    }
  }

  /** A table that holds exactly a list with distinct SPIs is a sound starting point. */
  lemma ExactlyIsGood(t: Sad, held: seq<State>)
    requires DistinctSpiList(held) && Exactly(t, held, KeyOf)
    ensures WellKeyed(t) && DistinctSpis(t)
  {
    forall k, l | k in t && l in t && k.spi == l.spi ensures k == l {
      BySpiFacts(held);
      assert t[k].spi == k.spi && t[l].spi == l.spi;
      assert BySpi(held)[k.spi] == t[k] && BySpi(held)[l.spi] == t[l];
    }
  }

  /**
    No attempt repairs an incompatible table: however far a run gets before it is refused, the state in
    the way stays.
   */
  lemma BlockedForGood(t: Sad, expected: seq<State>, ops: seq<SadOp>, n: nat)
    requires WellKeyed(t) && DistinctSpis(t) && DistinctSpiList(expected) && !Compatible(t, expected)
    requires Plan(t, expected, ops) && n <= |ops| && Accepted(t, ops[..n])
    ensures !Compatible(Exec(t, ops[..n]), expected)
  {
    hide PlanFrom, Indexes, DistinctSpiList, WellKeyed, DistinctSpis, BySpi, Exec, Accepted, SameAt;
    var actual: Index :| Indexes(actual, t) && PlanFrom(actual, BySpi(expected), ops);
    var k, e :| k in t && e in expected && k.spi == e.spi && k != KeyOf(e);
    StateInTheWayStays(t, actual, expected, ops, n, k, e);
  }

  lemma StateInTheWayStays(t: Sad, actual: Index, expected: seq<State>, ops: seq<SadOp>, n: nat, k: SadKey, e: State)
    requires DistinctSpiList(expected) && Indexes(actual, t) && PlanFrom(actual, BySpi(expected), ops) && n <= |ops|
    requires k in t && e in expected && k.spi == e.spi && k != KeyOf(e)
    ensures k in Exec(t, ops[..n])
  {
    hide Planned, Indexes, DistinctSpiList, BySpi, Exec, KeyOf;
    var part := ops[..n];
    forall i | 0 <= i < |part| ensures part[i].key != k {
      assert ops[i] in ops;
      OpAvoids(t, actual, expected, ops[i], k, e);
    }
    Untouched(t, part, k);
  }

  lemma OpAvoids(t: Sad, actual: Index, expected: seq<State>, op: SadOp, k: SadKey, e: State)
    requires Indexes(actual, t) && DistinctSpiList(expected) && Planned(actual, BySpi(expected), op)
    requires k in t && e in expected && k.spi == e.spi && k != KeyOf(e)
    ensures op.key != k
  {
    BySpiFacts(expected);
  }

  /** From a table that holds exactly the expected states, `Ensure` performs no operation. */
  lemma SecondRunIsIdle(t: Sad, expected: seq<State>, ops: seq<SadOp>)
    requires DistinctSpiList(expected)
    requires Exactly(t, expected, KeyOf)
    requires Plan(t, expected, ops)
    ensures ops == []
  {
    var actual: Index :| Indexes(actual, t) && PlanFrom(actual, BySpi(expected), ops);
    BySpiFacts(expected);
    assert forall spi :: spi in actual ==> actual[spi] in expected;
    EmptyOrMember(ops);
  }

  /** However far a run gets, the table stays well keyed with one state per SPI. */
  lemma PartialRunKeepsInvariant(t: Sad, expected: seq<State>, ops: seq<SadOp>, n: nat)
    requires WellKeyed(t) && DistinctSpis(t)
    requires Plan(t, expected, ops) && n <= |ops| && Accepted(t, ops[..n])
    ensures WellKeyed(Exec(t, ops[..n])) && DistinctSpis(Exec(t, ops[..n]))
  {
    var actual: Index :| Indexes(actual, t) && PlanFrom(actual, BySpi(expected), ops);
    hide Planned, Exec, DistinctSpis, SameAt;
    var part := ops[..n];
    PlanTouchesDistinctKeys(t, expected, ops);
    assert DistinctKeys(part);
    BatchExec(t, part);
    var r := Exec(t, part);
    forall k | k in r
      ensures KeyOf(r[k]) == k && (k in t || (Touches(part, k) && k.spi !in actual))
    {
      if Touches(part, k) {
        var i :| 0 <= i < |part| && part[i].key == k;
        assert ops[i] in ops && Settled(r, part[i]) && Enabled(t, part[i]);
        SetsOwnKey(t, actual, BySpi(expected), ops[i]);
      } else {
        KeptEntry(t, r, k);
      }
    }
    StillDistinct(t, actual, part, r);
  }

  lemma SetsOwnKey(t: Sad, actual: Index, expected: Index, op: SadOp)
    requires Planned(actual, expected, op) && Enabled(t, op)
    ensures op.Del? || (KeyOf(op.val) == op.key && (op.key in t || op.key.spi !in actual))
  {
  }

  lemma KeptEntry(t: Sad, r: Sad, k: SadKey)
    requires WellKeyed(t) && SameAt(t, r, k) && k in r
    ensures k in t && KeyOf(r[k]) == k
  {
  }

  /** Entries that were there share no SPI, and new ones have SPIs that were not in use, each its own. */
  lemma StillDistinct(t: Sad, actual: Index, part: seq<SadOp>, r: Sad)
    requires DistinctSpis(t) && Indexes(actual, t)
    requires forall i, j :: 0 <= i < j < |part| ==> part[i].key.spi != part[j].key.spi
    requires forall k :: k in r ==> k in t || (Touches(part, k) && k.spi !in actual)
    ensures DistinctSpis(r)
  {
    forall k, l | k in r && l in r && k.spi == l.spi ensures k == l {
      if k !in t && l !in t {
        var i :| 0 <= i < |part| && part[i].key == k;
        var j :| 0 <= j < |part| && part[j].key == l;
      }
    }
  }
}
