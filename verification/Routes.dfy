/**
  The route reconciler.  It indexes routes by destination; the kernel's forwarding table
  keys them by destination, type of service and priority, over all links together.
 */
module Routes {
  import opened Options
  import opened Addresses
  import opened Sequences
  import opened KernelTables
  import opened Diffs

  datatype NexthopInfo = NexthopInfo(linkIndex: int, hops: int, gw: Option<IP>)

  datatype Route = Route(
    linkIndex: int, ilinkIndex: int, scope: nat, dst: Option<Net>, src: Option<IP>, gw: Option<IP>,
    multipath: seq<NexthopInfo>, protocol: nat, priority: nat, table: nat, kind: nat, tos: nat, flags: nat)

  datatype FibKey = FibKey(dst: Option<Net>, tos: nat, priority: nat)

  type Fib = map<FibKey, Route>
  type FibOp = Op<FibKey, Route>
  type Index = map<Net, Route>

  function KeyOf(r: Route): FibKey {
    FibKey(r.dst, r.tos, r.priority)
  }

  /** A link restricts the listing; without one all routes are listed. */
  predicate OnLink(r: Route, link: Option<int>) {
    link.None? || r.linkIndex == link.value
  }

  ghost predicate WellKeyed(t: Fib) {
    forall k :: k in t ==> KeyOf(t[k]) == k
  }

  /** The listed routes have different destinations. */
  ghost predicate UniqueDsts(t: Fib, link: Option<int>) {
    forall k, l {:trigger t[k], t[l]} ::
      k in t && l in t && OnLink(t[k], link) && OnLink(t[l], link) && k.dst.Some? && k.dst == l.dst ==> k == l
  }

  /** At most one listed route leads to `d`. */
  ghost predicate UniqueTo(t: Fib, link: Option<int>, d: Option<Net>) {
    forall k, l {:trigger t[k], t[l]} ::
      k in t && l in t && OnLink(t[k], link) && OnLink(t[l], link) && k.dst == d && l.dst == d ==> k == l
  }

  /** At most one listed route leads to each expected destination. */
  ghost predicate UniqueFor(t: Fib, link: Option<int>, expected: seq<Route>) {
    forall e :: e in expected ==> UniqueTo(t, link, e.dst)
  }

  lemma UniqueDstsForAll(t: Fib, link: Option<int>, expected: seq<Route>)
    requires UniqueDsts(t, link) && GoodExpected(expected, link)
    ensures UniqueFor(t, link, expected)
  {
  }

  /** What the planners pass: routes of the link with different destinations. */
  ghost predicate GoodExpected(expected: seq<Route>, link: Option<int>) {
    && (forall e :: e in expected ==> e.dst.Some? && OnLink(e, link))
    && DistinctDsts(expected)
  }

  ghost predicate DistinctDsts(s: seq<Route>) {
    forall i, j :: 0 <= i < j < |s| ==> s[i].dst != s[j].dst
  }

  /** Weaker: routes of the link, where one destination means one kernel key. */
  ghost predicate PlainExpected(expected: seq<Route>, link: Option<int>) {
    && (forall e :: e in expected ==> e.dst.Some? && OnLink(e, link))
    && (forall e, f :: e in expected && f in expected && e.dst == f.dst ==> KeyOf(e) == KeyOf(f))
  }

  lemma GoodIsPlain(expected: seq<Route>, link: Option<int>)
    requires GoodExpected(expected, link)
    ensures PlainExpected(expected, link)
  {
    forall e, f | e in expected && f in expected && e.dst == f.dst ensures KeyOf(e) == KeyOf(f) {
      SameDstSame(expected, e, f);
    }
  }

  lemma NoneIsGood(link: Option<int>)
    ensures GoodExpected([], link)
  {
  }

  lemma GoodSnoc(s: seq<Route>, x: Route, link: Option<int>)
    requires GoodExpected(s, link) && x.dst.Some? && OnLink(x, link) && forall e :: e in s ==> e.dst != x.dst
    ensures GoodExpected(s + [x], link)
  {
  }

  lemma SameDstSame(s: seq<Route>, x: Route, y: Route)
    requires DistinctDsts(s) && x in s && y in s
    ensures x.dst == y.dst ==> x == y
  {
    var i :| 0 <= i < |s| && s[i] == x;
    var j :| 0 <= j < |s| && s[j] == y;
  }

  // ----- the diff -----

  /** `m` holds, for every listed destination, some listed route to it. */
  ghost predicate IndexesByDst(m: Index, t: Fib, link: Option<int>) {
    && (forall d :: d in m ==> m[d].dst == Some(d) && OnLink(m[d], link) && KeyOf(m[d]) in t && t[KeyOf(m[d])] == m[d])
    && (forall k :: k in t && OnLink(t[k], link) && k.dst.Some? ==> k.dst.value in m)
  }

  predicate Missing(actual: Index, e: Route)
    requires e.dst.Some?
  {
    e.dst.value !in actual || actual[e.dst.value] != e
  }

  predicate Changed(actual: Index, e: Route)
    requires e.dst.Some?
  {
    e.dst.value in actual && actual[e.dst.value] != e
  }

  function CreateOf(actual: Index, expected: seq<Route>): seq<Route>
    requires forall e :: e in expected ==> e.dst.Some?
  {
    if expected == [] then [] else
      var init, e := expected[..|expected| - 1], expected[|expected| - 1];
      CreateOf(actual, init) + if Missing(actual, e) then [e] else []
  }

  function ChangedOf(actual: Index, expected: seq<Route>): seq<Route>
    requires forall e :: e in expected ==> e.dst.Some?
  {
    if expected == [] then [] else
      var init, e := expected[..|expected| - 1], expected[|expected| - 1];
      ChangedOf(actual, init) + if Changed(actual, e) then [actual[e.dst.value]] else []
  }

  ghost predicate IsExpectedDst(expected: seq<Route>, d: Net) {
    exists e :: e in expected && e.dst == Some(d)
  }

  ghost predicate Extra(actual: Index, expected: seq<Route>, a: Route) {
    a.dst.Some? && a.dst.value in actual && actual[a.dst.value] == a && !IsExpectedDst(expected, a.dst.value)
  }

  ghost predicate ExtrasOf(extra: seq<Route>, actual: Index, expected: seq<Route>) {
    NoDuplicates(extra) && forall a :: a in extra <==> Extra(actual, expected, a)
  }

  /** The loop over the expected routes, in order; it fails on a route without destination. */
  method Diff(actual: Index, expected: seq<Route>)
    returns (ok: bool, dsts: set<Net>, remove: seq<Route>, create: seq<Route>)
    ensures ok <==> forall e :: e in expected ==> e.dst.Some?
    ensures ok ==> create == CreateOf(actual, expected) && remove == ChangedOf(actual, expected)
    ensures ok ==> forall d :: d in dsts <==> IsExpectedDst(expected, d)
  {
    dsts, remove, create := {}, [], [];
    for i := 0 to |expected|
      invariant forall e :: e in expected[..i] ==> e.dst.Some?
      invariant create == CreateOf(actual, expected[..i])
      invariant remove == ChangedOf(actual, expected[..i])
      invariant forall d :: d in dsts <==> IsExpectedDst(expected[..i], d)
    {
      var e := expected[i];
      assert e in expected;
      if e.dst.None? {
        return false, {}, [], [];
      }
      var before := expected[..i];
      assert expected[..i + 1] == before + [e];
      assert expected[..i + 1][..i] == before;
      forall d ensures d in dsts + {e.dst.value} <==> IsExpectedDst(expected[..i + 1], d) {
        if IsExpectedDst(before, d) {
          var x :| x in before && x.dst == Some(d);
          assert x in expected[..i + 1];
        }
        assert e in expected[..i + 1];
      }
      dsts := dsts + {e.dst.value};
      if e.dst.value !in actual {
        create := create + [e];
      } else if actual[e.dst.value] != e {
        remove := remove + [actual[e.dst.value]];
        create := create + [e];
      }
    }
    assert expected[..|expected|] == expected;
    ok := true;
  }

  /** The loop over the listed routes that collects the ones nobody expects. */
  method Extras(actual: Index, ghost expected: seq<Route>, dsts: set<Net>) returns (extra: seq<Route>)
    requires forall d :: d in actual ==> actual[d].dst == Some(d)
    requires forall d :: d in dsts <==> IsExpectedDst(expected, d)
    ensures ExtrasOf(extra, actual, expected)
  {
    extra := [];
    var todo := actual.Keys;
    while todo != {}
      invariant todo <= actual.Keys
      invariant NoDuplicates(extra)
      invariant forall a :: a in extra <==> Extra(actual, expected, a) && a.dst.value !in todo
    {
      var d :| d in todo;
      if d !in dsts {
        extra := extra + [actual[d]];
      }
      todo := todo - {d};
    }
  }

  method IndexDsts(t: Fib, link: Option<int>) returns (m: Index)
    requires WellKeyed(t)
    ensures IndexesByDst(m, t, link)
  {
    var list, keys := ListEntries(t);
    ListingMembers(list, keys, t);
    m := map[];
    for i := 0 to |list|
      invariant forall d :: d in m ==>
        m[d].dst == Some(d) && OnLink(m[d], link) && KeyOf(m[d]) in t && t[KeyOf(m[d])] == m[d]
      invariant forall j :: 0 <= j < i && OnLink(list[j], link) && list[j].dst.Some? ==> list[j].dst.value in m
    {
      if OnLink(list[i], link) && list[i].dst.Some? {
        m := m[list[i].dst.value := list[i]];
      }
    }
  }

  // ----- the operations -----

  function AddOp(r: Route): FibOp { Op.Add(KeyOf(r), r) }
  function DelOp(r: Route): FibOp { Op.Del(KeyOf(r)) }
  function Adds(s: seq<Route>): seq<FibOp> { seq(|s|, i requires 0 <= i < |s| => AddOp(s[i])) }
  function Dels(s: seq<Route>): seq<FibOp> { seq(|s|, i requires 0 <= i < |s| => DelOp(s[i])) }

  ghost predicate PlanFrom(actual: Index, extra: seq<Route>, expected: seq<Route>, deleteExtra: bool, ops: seq<FibOp>) {
    && ExtrasOf(extra, actual, expected)
    && (forall e :: e in expected ==> e.dst.Some?)
    && ops == (if deleteExtra then Dels(ChangedOf(actual, expected) + extra) else []) + Adds(CreateOf(actual, expected))
  }

  /** `ops` is a run that `Ensure` may perform on table `t`: deletions, if any, come first. */
  ghost predicate Plan(t: Fib, link: Option<int>, expected: seq<Route>, deleteExtra: bool, ops: seq<FibOp>) {
    exists actual: Index, extra: seq<Route> ::
      IndexesByDst(actual, t, link) && PlanFrom(actual, extra, expected, deleteExtra, ops)
  }

  method Ensure(table: Table<FibKey, Route>, link: Option<int>, expected: seq<Route>, deleteExtra: bool)
    returns (ok: bool, ghost ops: seq<FibOp>, ghost done: nat)
    requires WellKeyed(table.entries)
    modifies table
    ensures (exists e :: e in expected && e.dst.None?) ==> !ok && table.entries == old(table.entries)
    ensures (forall e :: e in expected ==> e.dst.Some?) ==>
              && Plan(old(table.entries), link, expected, deleteExtra, ops)
              && done <= |ops| && (ok <==> done == |ops|)
              && Accepted(old(table.entries), ops[..done])
              && table.entries == Exec(old(table.entries), ops[..done])
    ensures (forall e :: e in expected ==> e.dst.Some?) && table.reliable ==> ok == Accepted(old(table.entries), ops)
  {
    var actual := IndexDsts(table.entries, link);
    var good, dsts, remove, create := Diff(actual, expected);
    if !good {
      return false, [], 0;
    }
    var extra := Extras(actual, expected, dsts);
    var all := (if deleteExtra then Dels(remove + extra) else []) + Adds(create);
    assert PlanFrom(actual, extra, expected, deleteExtra, all);
    var applied, n := table.ApplyAll(all);
    return applied, all, n;
  }

  // ----- what the diff lists contain -----

  lemma {:induction false} CreateMembers(actual: Index, expected: seq<Route>)
    requires forall e :: e in expected ==> e.dst.Some?
    ensures forall e :: e in CreateOf(actual, expected) <==> e in expected && Missing(actual, e)
    ensures DistinctDsts(expected) ==> DistinctDsts(CreateOf(actual, expected))
    decreases |expected|
  {
    if expected != [] {
      var init, e := expected[..|expected| - 1], expected[|expected| - 1];
      assert expected == init + [e];
      CreateMembers(actual, init);
      var c := CreateOf(actual, init);
      forall i | 0 <= i < |c| ensures c[i] in init {
        assert c[i] in c;
      }
    }
  }

  lemma {:induction false} ChangedMembers(actual: Index, expected: seq<Route>)
    requires forall e :: e in expected ==> e.dst.Some?
    requires forall d :: d in actual ==> actual[d].dst == Some(d)
    ensures forall a :: a in ChangedOf(actual, expected) <==> ChangedBy(actual, expected, a)
    ensures DistinctDsts(expected) ==> DistinctDsts(ChangedOf(actual, expected))
    decreases |expected|
  {
    if expected != [] {
      var init, e := expected[..|expected| - 1], expected[|expected| - 1];
      assert expected == init + [e];
      ChangedMembers(actual, init);
      var c := ChangedOf(actual, init);
      forall i | 0 <= i < |c| ensures exists x :: x in init && c[i].dst == x.dst {
        assert c[i] in c;
        var x :| x in init && Changed(actual, x) && c[i] == actual[x.dst.value];
      }
      forall a ensures a in ChangedOf(actual, expected) <==> ChangedBy(actual, expected, a) {
        if ChangedBy(actual, init, a) {
          var x :| x in init && Changed(actual, x) && a == actual[x.dst.value];
          assert x in expected;
        }
        if ChangedBy(actual, expected, a) {
          var x :| x in expected && Changed(actual, x) && a == actual[x.dst.value];
          assert x in init || x == e;
        }
        assert e in expected;
      }
    }
  }

  ghost predicate ChangedBy(actual: Index, expected: seq<Route>, a: Route)
    requires forall e :: e in expected ==> e.dst.Some?
  {
    exists e :: e in expected && Changed(actual, e) && a == actual[e.dst.value]
  }

  // ----- what the reconciler achieves -----

  /** Routes that deletion leaves alone: other links', those without destination, and expected ones. */
  ghost predicate Kept(t: Fib, link: Option<int>, expected: seq<Route>, k: FibKey) {
    k in t && (!OnLink(t[k], link) || k.dst.None? || t[k] in expected)
  }

  ghost function KeptFib(t: Fib, link: Option<int>, expected: seq<Route>): Fib {
    map k | k in t && Kept(t, link, expected, k) :: t[k]
  }

  /** The deletions are accepted and remove exactly the routes that are not kept. */
  lemma DeletionPhase(t: Fib, link: Option<int>, expected: seq<Route>, actual: Index, extra: seq<Route>)
    requires WellKeyed(t) && UniqueDsts(t, link) && GoodExpected(expected, link)
    requires IndexesByDst(actual, t, link) && ExtrasOf(extra, actual, expected)
    ensures DistinctKeys(Dels(ChangedOf(actual, expected) + extra))
    ensures Accepted(t, Dels(ChangedOf(actual, expected) + extra))
    ensures Exec(t, Dels(ChangedOf(actual, expected) + extra)) == KeptFib(t, link, expected)
  {
    var changed := ChangedOf(actual, expected);
    var gone := changed + extra;
    var dels := Dels(gone);
    ChangedMembers(actual, expected);
    forall i | 0 <= i < |gone| ensures Removed(actual, expected, gone[i]) {
      assert gone[i] in changed || gone[i] in extra;
    }
    DelsDistinct(actual, expected, changed, extra);
    BatchExec(t, dels);
    forall i | 0 <= i < |dels| ensures Enabled(t, dels[i]) && Settled(KeptFib(t, link, expected), dels[i]) {
      RemovedIsNotKept(t, link, expected, actual, gone[i]);
    }
    forall k ensures Touches(dels, k) || SameAt(t, KeptFib(t, link, expected), k) {
      if k in t && !Kept(t, link, expected, k) {
        NotKeptIsRemoved(t, link, expected, actual, k);
        assert t[k] in gone;
        var i :| 0 <= i < |gone| && gone[i] == t[k];
        assert dels[i].key == k;
      }
    }
    BatchReaches(t, dels, KeptFib(t, link, expected));
  }

  ghost predicate Removed(actual: Index, expected: seq<Route>, a: Route)
    requires forall e :: e in expected ==> e.dst.Some?
  {
    ChangedBy(actual, expected, a) || Extra(actual, expected, a)
  }

  lemma DelsDistinct(actual: Index, expected: seq<Route>, changed: seq<Route>, extra: seq<Route>)
    requires forall d :: d in actual ==> actual[d].dst == Some(d)
    requires forall e :: e in expected ==> e.dst.Some?
    requires ExtrasOf(extra, actual, expected)
    requires forall a :: a in changed ==> ChangedBy(actual, expected, a)
    requires forall i, j :: 0 <= i < j < |changed| ==> changed[i].dst != changed[j].dst
    ensures DistinctKeys(Dels(changed + extra))
  {
    var gone, dels := changed + extra, Dels(changed + extra);
    forall i, j | 0 <= i < j < |dels| ensures dels[i].key != dels[j].key {
      if |changed| <= j {
        assert gone[j] in extra;
        if i < |changed| {
          assert gone[i] in changed;
        } else {
          assert gone[i] in extra && gone[i] != gone[j];
        }
      }
    }
  }

  lemma RemovedIsNotKept(t: Fib, link: Option<int>, expected: seq<Route>, actual: Index, a: Route)
    requires WellKeyed(t) && GoodExpected(expected, link) && IndexesByDst(actual, t, link)
    requires Removed(actual, expected, a)
    ensures KeyOf(a) in t && !Kept(t, link, expected, KeyOf(a))
  {
    if ChangedBy(actual, expected, a) {
      var e :| e in expected && Changed(actual, e) && a == actual[e.dst.value];
      if a in expected {
        SameDstSame(expected, a, e);
      }
    }
  }

  lemma NotKeptIsRemoved(t: Fib, link: Option<int>, expected: seq<Route>, actual: Index, k: FibKey)
    requires WellKeyed(t) && UniqueDsts(t, link) && GoodExpected(expected, link) && IndexesByDst(actual, t, link)
    requires k in t && !Kept(t, link, expected, k)
    ensures Removed(actual, expected, t[k])
  {
    var a := actual[k.dst.value];
    assert KeyOf(a) == k && a == t[k];
    if IsExpectedDst(expected, k.dst.value) {
      var e :| e in expected && e.dst == k.dst;
      assert Changed(actual, e);
    }
  }

  /** Under unique destinations, an expected route is missing exactly when the table does not hold it. */
  lemma MissingIffAbsent(t: Fib, link: Option<int>, actual: Index, e: Route)
    requires WellKeyed(t) && UniqueTo(t, link, e.dst) && IndexesByDst(actual, t, link)
    requires e.dst.Some? && OnLink(e, link)
    ensures Missing(actual, e) <==> !(KeyOf(e) in t && t[KeyOf(e)] == e)
  {
    if KeyOf(e) in t && t[KeyOf(e)] == e {
      assert e.dst.value in actual;
      assert KeyOf(actual[e.dst.value]) == KeyOf(e);
    }
  }

  /** `u` is part of `t` and holds the expected routes that are in place. */
  ghost predicate InPlaceKept(t: Fib, u: Fib, expected: seq<Route>) {
    && (forall e :: e in expected && KeyOf(e) in t && t[KeyOf(e)] == e ==> KeyOf(e) in u && u[KeyOf(e)] == e)
    && (forall k :: k in u ==> k in t && u[k] == t[k])
  }

  /** No other route sits at the key of an expected one. */
  ghost predicate Unblocked(u: Fib, expected: seq<Route>) {
    forall e :: e in expected && KeyOf(e) in u ==> u[KeyOf(e)] == e
  }

  lemma AddsDistinct(link: Option<int>, actual: Index, expected: seq<Route>)
    requires GoodExpected(expected, link)
    ensures DistinctKeys(Adds(CreateOf(actual, expected)))
    ensures forall i :: 0 <= i < |CreateOf(actual, expected)| ==> CreateOf(actual, expected)[i] in expected
  {
    CreateMembers(actual, expected);
    var create := CreateOf(actual, expected);
    forall i | 0 <= i < |create| ensures create[i] in expected {
      assert create[i] in create;
    }
  }

  /** After the additions every expected route is in place. */
  lemma AddedInPlace(t: Fib, u: Fib, link: Option<int>, expected: seq<Route>, actual: Index, e: Route)
    requires WellKeyed(t) && UniqueFor(t, link, expected) && GoodExpected(expected, link) &&
             IndexesByDst(actual, t, link)
    requires InPlaceKept(t, u, expected)
    requires e in expected
    ensures var r := Exec(u, Adds(CreateOf(actual, expected))); KeyOf(e) in r && r[KeyOf(e)] == e
  {
    hide Exec;
    var create := CreateOf(actual, expected);
    var adds := Adds(create);
    AddsDistinct(link, actual, expected);
    BatchExec(u, adds);
    MissingIffAbsent(t, link, actual, e);
    CreateMembers(actual, expected);
    if e in create {
      var i :| 0 <= i < |create| && create[i] == e;
      assert Settled(Exec(u, adds), adds[i]);
    } else {
      forall i | 0 <= i < |adds| ensures adds[i].key != KeyOf(e) {
        assert create[i] in create;
        SameDstSame(expected, create[i], e);
      }
      assert SameAt(u, Exec(u, adds), KeyOf(e));
    }
  }

  /** Keys of no expected route are not touched. */
  lemma AdditionKeeps(u: Fib, link: Option<int>, expected: seq<Route>, actual: Index, k: FibKey)
    requires GoodExpected(expected, link) && forall e :: e in expected ==> KeyOf(e) != k
    ensures SameAt(u, Exec(u, Adds(CreateOf(actual, expected))), k)
  {
    hide Exec, SameAt;
    AddsDistinct(link, actual, expected);
    BatchExec(u, Adds(CreateOf(actual, expected)));
  }

  lemma AdditionAccepted(t: Fib, u: Fib, link: Option<int>, expected: seq<Route>, actual: Index)
    requires WellKeyed(t) && UniqueFor(t, link, expected) && GoodExpected(expected, link) &&
             IndexesByDst(actual, t, link)
    requires InPlaceKept(t, u, expected)
    ensures Accepted(u, Adds(CreateOf(actual, expected))) <==> Unblocked(u, expected)
  {
    hide Exec, Accepted;
    var create := CreateOf(actual, expected);
    var adds := Adds(create);
    AddsDistinct(link, actual, expected);
    CreateMembers(actual, expected);
    BatchExec(u, adds);
    forall e | e in expected ensures e in create <==> !(KeyOf(e) in t && t[KeyOf(e)] == e) {
      MissingIffAbsent(t, link, actual, e);
    }
    if Accepted(u, adds) {
      forall e | e in expected ensures KeyOf(e) in u ==> u[KeyOf(e)] == e {
        if e in create {
          var i :| 0 <= i < |create| && create[i] == e;
          assert Enabled(u, adds[i]);
        }
      }
    }
    if Unblocked(u, expected) {
      forall i | 0 <= i < |adds| ensures Enabled(u, adds[i]) {
        assert create[i] in create;
      }
    }
  }

  /** Adding the missing routes to `u`. */
  lemma AdditionPhase(t: Fib, u: Fib, link: Option<int>, expected: seq<Route>, actual: Index)
    requires WellKeyed(t) && UniqueFor(t, link, expected) && GoodExpected(expected, link) &&
             IndexesByDst(actual, t, link)
    requires InPlaceKept(t, u, expected)
    ensures Accepted(u, Adds(CreateOf(actual, expected))) <==> Unblocked(u, expected)
    ensures var r := Exec(u, Adds(CreateOf(actual, expected)));
            forall e :: e in expected ==> KeyOf(e) in r && r[KeyOf(e)] == e
    ensures forall k :: (forall e :: e in expected ==> KeyOf(e) != k) ==>
            SameAt(u, Exec(u, Adds(CreateOf(actual, expected))), k)
  {
    hide Exec, Accepted, SameAt, CreateOf, Adds, UniqueFor, IndexesByDst, InPlaceKept, WellKeyed;
    var r := Exec(u, Adds(CreateOf(actual, expected)));
    AdditionAccepted(t, u, link, expected, actual);
    forall e | e in expected ensures KeyOf(e) in r && r[KeyOf(e)] == e {
      AddedInPlace(t, u, link, expected, actual, e);
    }
    forall k | forall e :: e in expected ==> KeyOf(e) != k ensures SameAt(u, r, k) {
      AdditionKeeps(u, link, expected, actual, k);
    }
  }

  /** No route of another link sits at the key of an expected route. */
  ghost predicate NoForeign(t: Fib, link: Option<int>, expected: seq<Route>) {
    forall e :: e in expected && KeyOf(e) in t ==> OnLink(t[KeyOf(e)], link)
  }

  /** The link carries exactly the expected routes and its old routes without destination; all else is as in `t`. */
  ghost predicate LinkHolds(r: Fib, t: Fib, link: Option<int>, expected: seq<Route>) {
    && (forall e :: e in expected ==> KeyOf(e) in r && r[KeyOf(e)] == e)
    && (forall k :: k in r ==> r[k] in expected || (k in t && r[k] == t[k] && (!OnLink(t[k], link) || k.dst.None?)))
    && (forall k :: k in t && (!OnLink(t[k], link) || k.dst.None?) ==> k in r && r[k] == t[k])
  }

  /** The same expected routes, in any order, leave no freedom. */
  lemma HoldsUnique(r: Fib, u: Fib, t: Fib, link: Option<int>, e: seq<Route>, f: seq<Route>)
    requires WellKeyed(r) && WellKeyed(u) && LinkHolds(r, t, link, e) && LinkHolds(u, t, link, f)
    requires forall x :: x in e <==> x in f
    ensures r == u
  {
    forall k ensures SameAt(r, u, k) {
      if k in r {
        assert KeyOf(r[k]) == k;
      }
      if k in u {
        assert KeyOf(u[k]) == k;
      }
    }
    SameEverywhere(r, u);
  }

  lemma KeptIsPart(t: Fib, link: Option<int>, expected: seq<Route>)
    ensures InPlaceKept(t, KeptFib(t, link, expected), expected)
  {
  }

  /** With deletion: the run is accepted exactly when no other link is in the way, and then it converges. */
  lemma ConvergesWithDeletion(t: Fib, link: Option<int>, expected: seq<Route>, ops: seq<FibOp>)
    requires WellKeyed(t) && UniqueDsts(t, link) && GoodExpected(expected, link)
    requires Plan(t, link, expected, true, ops)
    ensures Accepted(t, ops) <==> NoForeign(t, link, expected)
    ensures Accepted(t, ops) ==> LinkHolds(Exec(t, ops), t, link, expected)
  {
    var actual: Index, extra: seq<Route> :|
      IndexesByDst(actual, t, link) && PlanFrom(actual, extra, expected, true, ops);
    hide Exec, Accepted, SameAt, WellKeyed, UniqueDsts, UniqueFor, IndexesByDst, ExtrasOf, KeptFib, NoForeign,
      Unblocked, LinkHolds, InPlaceKept;
    var dels, adds := Dels(ChangedOf(actual, expected) + extra), Adds(CreateOf(actual, expected));
    var u := KeptFib(t, link, expected);
    DeletionPhase(t, link, expected, actual, extra);
    KeptIsPart(t, link, expected);
    UniqueDstsForAll(t, link, expected);
    AdditionPhase(t, u, link, expected, actual);
    ExecAppend(t, dels, adds);
    assert ops == dels + adds;
    ForeignIffBlocked(t, link, expected);
    if Accepted(t, ops) {
      HoldsAfterAddition(t, u, Exec(t, ops), link, expected);
    }
  }

  lemma ForeignIffBlocked(t: Fib, link: Option<int>, expected: seq<Route>)
    requires WellKeyed(t) && GoodExpected(expected, link)
    ensures var u := KeptFib(t, link, expected);
            NoForeign(t, link, expected) <==> Unblocked(u, expected)
  {
    var u := KeptFib(t, link, expected);
    if NoForeign(t, link, expected) {
      forall e | e in expected && KeyOf(e) in u ensures u[KeyOf(e)] == e {
        assert u[KeyOf(e)] in expected && u[KeyOf(e)].dst == e.dst;
        SameDstSame(expected, u[KeyOf(e)], e);
      }
    }
    if forall e :: e in expected && KeyOf(e) in u ==> u[KeyOf(e)] == e {
      forall e | e in expected && KeyOf(e) in t ensures OnLink(t[KeyOf(e)], link) {
        assert Kept(t, link, expected, KeyOf(e)) <==> KeyOf(e) in u;
      }
    }
  }

  lemma HoldsAfterAddition(t: Fib, u: Fib, r: Fib, link: Option<int>, expected: seq<Route>)
    requires WellKeyed(t) && GoodExpected(expected, link) && NoForeign(t, link, expected)
    requires u == KeptFib(t, link, expected)
    requires forall e :: e in expected ==> KeyOf(e) in r && r[KeyOf(e)] == e
    requires forall k :: (forall e :: e in expected ==> KeyOf(e) != k) ==> SameAt(u, r, k)
    ensures LinkHolds(r, t, link, expected)
  {
    forall k | k in r
      ensures r[k] in expected || (k in t && r[k] == t[k] && (!OnLink(t[k], link) || k.dst.None?))
    {
      if e :| e in expected && KeyOf(e) == k {
        assert r[k] == e;
      } else {
        assert SameAt(u, r, k);
      }
    }
    forall k | k in t && (!OnLink(t[k], link) || k.dst.None?) ensures k in r && r[k] == t[k] {
      forall e | e in expected ensures KeyOf(e) != k {
        assert KeyOf(e) in t ==> OnLink(t[KeyOf(e)], link);
      }
      assert SameAt(u, r, k);
    }
  }

  /**
    Without deletion nothing is ever removed, and expected is reached exactly when no other route is in
    the way.  Only the expected destinations need to be unique among the listed routes.
   */
  lemma ReachesWithoutDeletion(t: Fib, link: Option<int>, expected: seq<Route>, ops: seq<FibOp>)
    requires WellKeyed(t) && UniqueFor(t, link, expected) && GoodExpected(expected, link)
    requires Plan(t, link, expected, false, ops)
    ensures Accepted(t, ops) <==> Unblocked(t, expected)
    ensures forall i :: 0 <= i < |ops| ==> ops[i].Add?
    ensures forall e :: e in expected ==> KeyOf(e) in Exec(t, ops) && Exec(t, ops)[KeyOf(e)] == e
    ensures forall k :: (forall e :: e in expected ==> KeyOf(e) != k) ==> SameAt(t, Exec(t, ops), k)
  {
    var actual: Index, extra: seq<Route> :|
      IndexesByDst(actual, t, link) && PlanFrom(actual, extra, expected, false, ops);
    hide Exec, Accepted, SameAt, WellKeyed, UniqueFor, IndexesByDst, GoodExpected, Unblocked;
    assert ops == Adds(CreateOf(actual, expected));
    AdditionPhase(t, t, link, expected, actual);
  }

  /** Once the link holds the expected routes, another run with deletion performs no operation. */
  lemma SecondRunIsIdle(r: Fib, t: Fib, link: Option<int>, expected: seq<Route>, ops: seq<FibOp>)
    requires WellKeyed(r) && GoodExpected(expected, link) && LinkHolds(r, t, link, expected)
    requires Plan(r, link, expected, true, ops)
    ensures ops == []
  {
    var actual: Index, extra: seq<Route> :|
      IndexesByDst(actual, r, link) && PlanFrom(actual, extra, expected, true, ops);
    UniqueAfter(r, t, link, expected);
    forall e | e in expected ensures !Missing(actual, e) {
      MissingIffAbsent(r, link, actual, e);
    }
    forall a ensures !Extra(actual, expected, a) {
      if a.dst.Some? && a.dst.value in actual && actual[a.dst.value] == a {
        assert a in expected;
      }
    }
    CreateMembers(actual, expected);
    ChangedMembers(actual, expected);
    assert forall a :: !ChangedBy(actual, expected, a);
    EmptyOrMember(CreateOf(actual, expected));
    EmptyOrMember(ChangedOf(actual, expected));
    EmptyOrMember(extra);
  }

  lemma UniqueAfter(r: Fib, t: Fib, link: Option<int>, expected: seq<Route>)
    requires WellKeyed(r) && GoodExpected(expected, link) && LinkHolds(r, t, link, expected)
    ensures UniqueDsts(r, link)
  {
    forall k, l | k in r && l in r && OnLink(r[k], link) && OnLink(r[l], link) && k.dst.Some? && k.dst == l.dst
      ensures k == l
    {
      SameDstSame(expected, r[k], r[l]);
    }
  }

  // ----- interrupted runs -----

  /** However far a run gets, the listed routes keep different destinations, even if the expected ones do not. */
  lemma PartialRunKeepsInvariant(t: Fib, link: Option<int>, expected: seq<Route>, ops: seq<FibOp>, n: nat)
    requires WellKeyed(t) && UniqueDsts(t, link) && PlainExpected(expected, link)
    requires Plan(t, link, expected, true, ops) && n <= |ops|
    ensures WellKeyed(Exec(t, ops[..n])) && UniqueDsts(Exec(t, ops[..n]), link)
  {
    hide WellKeyed, UniqueDsts, PlainExpected, IndexesByDst, Exec, CreateOf, ChangedOf;
    var actual: Index, extra: seq<Route> :|
      IndexesByDst(actual, t, link) && PlanFrom(actual, extra, expected, true, ops);
    var dels, adds := Dels(ChangedOf(actual, expected) + extra), Adds(CreateOf(actual, expected));
    if n <= |dels| {
      assert ops[..n] == dels[..n];
      DelsOnlyShrink(t, dels[..n]);
      PartIsGood(t, link, Exec(t, dels[..n]));
    } else {
      assert ops[..n] == (dels + adds)[..|dels| + (n - |dels|)];
      PrefixExec(t, dels, adds, n - |dels|);
      LateStop(t, link, expected, actual, extra, n - |dels|);
    }
  }

  lemma PartIsGood(t: Fib, link: Option<int>, u: Fib)
    requires WellKeyed(t) && UniqueDsts(t, link) && forall k :: k in u ==> k in t && u[k] == t[k]
    ensures WellKeyed(u) && UniqueDsts(u, link)
  {
  }

  lemma DelsOnlyShrink(t: Fib, part: seq<FibOp>)
    requires forall i :: 0 <= i < |part| ==> part[i].Del?
    ensures forall k :: k in Exec(t, part) ==> k in t && Exec(t, part)[k] == t[k]
  {
    hide Exec;
    forall k | k in Exec(t, part) ensures k in t && Exec(t, part)[k] == t[k] {
      ExecEntries(t, part, k);
    }
  }

  /** A route of the link that survives the deletions is not to a destination that is added. */
  lemma SurvivorsApart(t: Fib, link: Option<int>, expected: seq<Route>, actual: Index, extra: seq<Route>, k: FibKey,
                       e: Route)
    requires WellKeyed(t) && UniqueDsts(t, link) && PlainExpected(expected, link)
    requires (forall x :: x in expected ==> x.dst.Some?) && IndexesByDst(actual, t, link)
    requires k in Exec(t, Dels(ChangedOf(actual, expected) + extra)) && k in t && OnLink(t[k], link)
    requires e in expected && Missing(actual, e)
    ensures k.dst != e.dst
  {
    hide Exec, ChangedOf;
    var gone := ChangedOf(actual, expected) + extra;
    if k.dst == e.dst {
      ChangedMembers(actual, expected);
      var a := actual[e.dst.value];
      assert KeyOf(a) == k && Changed(actual, e) && ChangedBy(actual, expected, a);
      var i :| 0 <= i < |ChangedOf(actual, expected)| && ChangedOf(actual, expected)[i] == a;
      assert gone[i] == a && Dels(gone)[i].key == k;
      DeletedIsGone(t, Dels(gone), k);
    }
  }

  lemma {:induction false} DeletedIsGone(t: Fib, part: seq<FibOp>, k: FibKey)
    requires (forall i :: 0 <= i < |part| ==> part[i].Del?) && Touches(part, k)
    ensures k !in Exec(t, part)
    decreases |part|
  {
    var init, last := part[..|part| - 1], part[|part| - 1];
    if last.key != k {
      var i :| 0 <= i < |part| && part[i].key == k;
      assert init[i].key == k;
      DeletedIsGone(t, init, k);
    }
  }

  /** A run that stops among the additions, after `n` of them. */
  lemma LateStop(t: Fib, link: Option<int>, expected: seq<Route>, actual: Index, extra: seq<Route>, n: nat)
    requires WellKeyed(t) && UniqueDsts(t, link) && PlainExpected(expected, link)
    requires (forall e :: e in expected ==> e.dst.Some?) && IndexesByDst(actual, t, link)
    requires n <= |Adds(CreateOf(actual, expected))|
    ensures var u := Exec(t, Dels(ChangedOf(actual, expected) + extra));
            var r := Exec(u, Adds(CreateOf(actual, expected))[..n]);
            WellKeyed(r) && UniqueDsts(r, link)
  {
    hide WellKeyed, UniqueDsts, PlainExpected, IndexesByDst, Exec, ChangedOf;
    var create := CreateOf(actual, expected);
    var dels, part := Dels(ChangedOf(actual, expected) + extra), Adds(create)[..n];
    var u := Exec(t, dels);
    DelsOnlyShrink(t, dels);
    PartIsGood(t, link, u);
    CreateMembers(actual, expected);
    forall i | 0 <= i < |part|
      ensures part[i] == AddOp(create[i]) && create[i] in expected && Missing(actual, create[i])
    {
      assert create[i] in create;
    }
    forall k, e | k in u && OnLink(u[k], link) && e in expected && Missing(actual, e) ensures k.dst != e.dst {
      SurvivorsApart(t, link, expected, actual, extra, k, e);
    }
    AddsKeepUnique(u, link, expected, actual, part);
  }

  lemma AddsKeepUnique(u: Fib, link: Option<int>, expected: seq<Route>, actual: Index, part: seq<FibOp>)
    requires WellKeyed(u) && UniqueDsts(u, link) && PlainExpected(expected, link) && forall e :: e in expected ==>
             e.dst.Some?
    requires forall i :: 0 <= i < |part| ==>
      part[i].Add? && part[i] == AddOp(part[i].val) && part[i].val in expected && Missing(actual, part[i].val)
    requires forall k, e :: k in u && OnLink(u[k], link) && e in expected && Missing(actual, e) ==> k.dst != e.dst
    ensures WellKeyed(Exec(u, part)) && UniqueDsts(Exec(u, part), link)
  {
    hide Exec;
    var r := Exec(u, part);
    forall k | k in r
      ensures KeyOf(r[k]) == k && ((k in u && r[k] == u[k]) || (r[k] in expected && Missing(actual, r[k])))
    {
      ExecEntries(u, part, k);
    }
    forall k, l | k in r && l in r && OnLink(r[k], link) && OnLink(r[l], link) && k.dst.Some? && k.dst == l.dst
      ensures k == l
    {
      assert KeyOf(r[k]) == k && KeyOf(r[l]) == l;
    }
  }
}
