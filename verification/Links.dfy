/**
  The link reconciler.  It looks only at links whose name has the given prefix, deletes the
  unexpected ones, creates the missing ones and leaves existing links as they are.
 */
module Links {
  import opened Options
  import opened Addresses
  import opened KernelTables
  import opened Diffs
  import opened Neighbours

  datatype LinkKind = Vxlan | Gretun | OtherLink

  datatype Link = Link(
    name: string, index: int, kind: LinkKind, mac: Option<Mac>, mtu: int, up: bool,
    local: Option<IP>, remote: Option<IP>, ttl: nat)

  type LinkTable = map<string, Link>
  type LinkOp = Op<string, Link>

  function NameOf(l: Link): string {
    l.name
  }

  /** The last expected link of each name. */
  function ByName(list: seq<Link>): LinkTable {
    IndexBy(list, NameOf)
  }

  lemma ByNameMembers(list: seq<Link>)
    ensures forall n :: n in ByName(list) ==> ByName(list)[n] in list && ByName(list)[n].name == n
    ensures forall l :: l in list ==> l.name in ByName(list)
  {
    IndexByMembers(list, NameOf);
    forall n | n in ByName(list) ensures ByName(list)[n] in list && ByName(list)[n].name == n {
      assert NameOf(ByName(list)[n]) == n;
    }
    forall l | l in list ensures l.name in ByName(list) {
      assert NameOf(l) in ByName(list);
    }
  }

  /** A link that the reconciler takes for its own. */
  predicate Visible(t: LinkTable, prefix: string, n: string) {
    n in t && prefix <= n
  }

  predicate ToDel(t: LinkTable, prefix: string, expected: LinkTable, op: LinkOp) {
    op.Del? && Visible(t, prefix, op.key) && op.key !in expected
  }

  /** The index of a created link is the kernel's choice. */
  predicate ToAdd(t: LinkTable, prefix: string, expected: LinkTable, op: LinkOp) {
    op.Add? && op.key in expected && !Visible(t, prefix, op.key) && op.val == expected[op.key].(index := op.val.index)
  }

  /** Deletions first, then creations, one per name. */
  ghost predicate Plan(t: LinkTable, prefix: string, expected: LinkTable, dels: seq<LinkOp>, adds: seq<LinkOp>) {
    && DistinctKeys(dels) && DistinctKeys(adds)
    && (forall i :: 0 <= i < |dels| ==> ToDel(t, prefix, expected, dels[i]))
    && (forall i :: 0 <= i < |adds| ==> ToAdd(t, prefix, expected, adds[i]))
    && (forall n :: Visible(t, prefix, n) && n !in expected ==> Touches(dels, n))
    && (forall n :: n in expected && !Visible(t, prefix, n) ==> Touches(adds, n))
  }

  method BuildDels(t: LinkTable, prefix: string, expected: LinkTable) returns (dels: seq<LinkOp>)
    ensures DistinctKeys(dels)
    ensures forall i :: 0 <= i < |dels| ==> ToDel(t, prefix, expected, dels[i])
    ensures forall n :: Visible(t, prefix, n) && n !in expected ==> Touches(dels, n)
  {
    dels := [];
    var todo := t.Keys;
    while todo != {}
      invariant todo <= t.Keys
      invariant DistinctKeys(dels)
      invariant forall i :: 0 <= i < |dels| ==> ToDel(t, prefix, expected, dels[i]) && dels[i].key !in todo
      invariant forall n :: Visible(t, prefix, n) && n !in expected && n !in todo ==> Touches(dels, n)
    {
      var n :| n in todo;
      ghost var before := dels;
      if prefix <= n && n !in expected {
        dels := dels + [Op.Del(n)];
        assert dels[|before|].key == n;
      }
      assert forall i :: 0 <= i < |before| ==> dels[i] == before[i];
      todo := todo - {n};
    }
  }

  method BuildAdds(t: LinkTable, prefix: string, expected: LinkTable) returns (adds: seq<LinkOp>)
    ensures DistinctKeys(adds)
    ensures forall i :: 0 <= i < |adds| ==> ToAdd(t, prefix, expected, adds[i])
    ensures forall n :: n in expected && !Visible(t, prefix, n) ==> Touches(adds, n)
  {
    adds := [];
    var todo := expected.Keys;
    while todo != {}
      invariant todo <= expected.Keys
      invariant DistinctKeys(adds)
      invariant forall i :: 0 <= i < |adds| ==> ToAdd(t, prefix, expected, adds[i]) && adds[i].key !in todo
      invariant forall n :: n in expected && !Visible(t, prefix, n) && n !in todo ==> Touches(adds, n)
    {
      var n :| n in todo;
      ghost var before := adds;
      if !Visible(t, prefix, n) {
        var kernelIndex: int := *;
        adds := adds + [Op.Add(n, expected[n].(index := kernelIndex))];
        assert adds[|before|].key == n;
      }
      assert forall i :: 0 <= i < |before| ==> adds[i] == before[i];
      todo := todo - {n};
    }
  }

  /** What the caller gets: a link for every expected name, as found or as created. */
  method Collect(t: LinkTable, prefix: string, expected: LinkTable, adds: seq<LinkOp>) returns (links: LinkTable)
    requires DistinctKeys(adds) && forall i :: 0 <= i < |adds| ==> ToAdd(t, prefix, expected, adds[i])
    requires forall n :: n in expected && !Visible(t, prefix, n) ==> Touches(adds, n)
    ensures links.Keys == expected.Keys
    ensures forall n :: n in expected && Visible(t, prefix, n) ==> links[n] == t[n]
    ensures forall i :: 0 <= i < |adds| ==> adds[i].key in links && adds[i].Add? && links[adds[i].key] == adds[i].val
  {
    links := map n | n in expected && Visible(t, prefix, n) :: t[n];
    for i := 0 to |adds|
      invariant forall n :: n in links ==> n in expected
      invariant forall n :: n in expected && Visible(t, prefix, n) ==> n in links && links[n] == t[n]
      invariant forall j :: 0 <= j < i ==> adds[j].key in links && links[adds[j].key] == adds[j].val
    {
      links := links[adds[i].key := adds[i].val];
    }
  }

  method Ensure(table: Table<string, Link>, expectedList: seq<Link>, prefix: string)
    returns (ok: bool, links: LinkTable, ghost dels: seq<LinkOp>, ghost adds: seq<LinkOp>, ghost done: nat)
    modifies table
    ensures Plan(old(table.entries), prefix, ByName(expectedList), dels, adds)
    ensures done <= |dels + adds| && (ok <==> done == |dels + adds|)
    ensures Accepted(old(table.entries), (dels + adds)[..done])
    ensures table.entries == Exec(old(table.entries), (dels + adds)[..done])
    ensures table.reliable ==> ok == Accepted(old(table.entries), dels + adds)
    ensures ok ==> links.Keys == ByName(expectedList).Keys && forall n :: n in links ==>
              n in table.entries && links[n] == table.entries[n]
  {
    var expected: LinkTable := BuildIndex(expectedList, NameOf);
    var d := BuildDels(table.entries, prefix, expected);
    var a := BuildAdds(table.entries, prefix, expected);
    links := Collect(table.entries, prefix, expected, a);
    var applied, n := table.ApplyAll(d + a);
    if applied {
      assert (d + a)[..n] == d + a;
      ReturnsTable(old(table.entries), prefix, expected, d, a, links);
    }
    return applied, links, d, a, n;
  }

  lemma ReturnsTable(t: LinkTable, prefix: string, expected: LinkTable, dels: seq<LinkOp>, adds: seq<LinkOp>,
                     links: LinkTable)
    requires Plan(t, prefix, expected, dels, adds)
    requires links.Keys == expected.Keys
    requires forall n :: n in expected && Visible(t, prefix, n) ==> links[n] == t[n]
    requires forall i :: 0 <= i < |adds| ==> adds[i].key in links && adds[i].Add? && links[adds[i].key] == adds[i].val
    ensures forall n :: n in links ==> n in Exec(t, dels + adds) && links[n] == Exec(t, dels + adds)[n]
  {
    ResultAt(t, prefix, expected, dels, adds);
    forall n | n in links ensures n in Exec(t, dels + adds) && links[n] == Exec(t, dels + adds)[n] {
      if !Visible(t, prefix, n) {
        var i :| 0 <= i < |adds| && adds[i].key == n;
        assert Settled(Exec(t, dels + adds), adds[i]);
      }
    }
  }

  // ----- what the reconciler achieves -----

  /** The effect of all operations, name by name. */
  lemma ResultAt(t: LinkTable, prefix: string, expected: LinkTable, dels: seq<LinkOp>, adds: seq<LinkOp>)
    requires Plan(t, prefix, expected, dels, adds)
    ensures var r := Exec(t, dels + adds);
            && (forall i :: 0 <= i < |adds| ==> Settled(r, adds[i]))
            && (forall n :: Visible(t, prefix, n) && n !in expected ==> n !in r)
            && (forall n :: (n !in expected && !Visible(t, prefix, n)) || (n in expected && Visible(t, prefix, n)) ==>
                 SameAt(t, r, n))
  {
    var u, r := Exec(t, dels), Exec(t, dels + adds);
    ExecAppend(t, dels, adds);
    BatchExec(t, dels);
    BatchExec(u, adds);
    forall n | Visible(t, prefix, n) && n !in expected ensures n !in r {
      assert Touches(dels, n);
      var i :| 0 <= i < |dels| && dels[i].key == n;
      assert Settled(u, dels[i]);
      assert !Touches(adds, n);
      assert SameAt(u, r, n);
    }
    forall n | (n !in expected && !Visible(t, prefix, n)) || (n in expected && Visible(t, prefix, n))
      ensures SameAt(t, r, n)
    {
      assert !Touches(dels, n) && !Touches(adds, n);
      assert SameAt(t, u, n) && SameAt(u, r, n);
    }
  }

  /** A link that the reconciler does not see holds the name of an expected one. */
  ghost predicate NameTaken(t: LinkTable, prefix: string, expected: LinkTable) {
    exists n :: n in expected && n in t && !(prefix <= n)
  }

  /** The run is accepted exactly when no unseen link holds an expected name. */
  lemma AcceptedIffNamesFree(t: LinkTable, prefix: string, expected: LinkTable, dels: seq<LinkOp>, adds: seq<LinkOp>)
    requires Plan(t, prefix, expected, dels, adds)
    ensures Accepted(t, dels + adds) <==> !NameTaken(t, prefix, expected)
  {
    var u := Exec(t, dels);
    ExecAppend(t, dels, adds);
    BatchExec(t, dels);
    BatchExec(u, adds);
    forall n | n in expected ensures SameAt(t, u, n) {
      assert !Touches(dels, n);
    }
    if Accepted(t, dels + adds) {
      forall n | n in expected && n in t ensures prefix <= n {
        assert SameAt(t, u, n);
        assert forall i :: 0 <= i < |adds| ==> Enabled(u, adds[i]);
        assert !Touches(adds, n);
      }
    } else {
      var i :| 0 <= i < |adds| && !Enabled(u, adds[i]);
      assert adds[i].key in expected && adds[i].key in t;
    }
  }

  /**
    After a completed run the prefixed links are exactly the expected names: those that existed
    are as they were, the others are as expected; links without the prefix are untouched.
   */
  lemma Converges(t: LinkTable, prefix: string, expected: LinkTable, dels: seq<LinkOp>, adds: seq<LinkOp>, n: string)
    requires Plan(t, prefix, expected, dels, adds) && forall e :: e in expected ==> prefix <= e
    ensures var r := Exec(t, dels + adds);
            && Accepted(t, dels + adds)
            && (prefix <= n ==> (n in r <==> n in expected))
            && (!(prefix <= n) ==> SameAt(t, r, n))
            && (n in expected && n in t ==> r[n] == t[n])
            && (n in expected && n !in t ==> r[n] == expected[n].(index := r[n].index))
  {
    var r := Exec(t, dels + adds);
    AcceptedIffNamesFree(t, prefix, expected, dels, adds);
    ResultAt(t, prefix, expected, dels, adds);
    if n in expected {
      if Visible(t, prefix, n) {
        assert SameAt(t, r, n);
      } else {
        var i :| 0 <= i < |adds| && adds[i].key == n;
        assert Settled(r, adds[i]);
      }
    } else if !Visible(t, prefix, n) {
      assert SameAt(t, r, n);
    }
  }

  /** Once the names are in place, another run performs no operation, whatever the links look like. */
  lemma SecondRunIsIdle(t: LinkTable, prefix: string, expected: LinkTable, dels: seq<LinkOp>, adds: seq<LinkOp>)
    requires Plan(t, prefix, expected, dels, adds)
    requires forall n :: Visible(t, prefix, n) <==> n in expected
    ensures dels == [] && adds == []
  {
    assert dels != [] ==> ToDel(t, prefix, expected, dels[0]);
    assert adds != [] ==> ToAdd(t, prefix, expected, adds[0]);
  }
}
