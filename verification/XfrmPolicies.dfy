/**
  The xfrm policy reconciler.  It pairs policies by their selector alone, in a nested loop;
  the kernel's security policy database also tells policies with different marks apart.
 */
module XfrmPolicies {
  import opened Options
  import opened Addresses
  import opened Sequences
  import opened KernelTables
  import opened Diffs
  import opened Xfrm

  datatype Selector = Selector(dir: Dir, srcPort: nat, dstPort: nat, proto: nat, dst: Option<Net>, src: Option<Net>)

  datatype SpdKey = SpdKey(sel: Selector, mark: Option<Xfrm.Mark>)

  type Spd = map<SpdKey, Policy>
  type SpdOp = Op<SpdKey, Policy>

  function SelectorOf(p: Policy): Selector {
    Selector(p.dir, p.srcPort, p.dstPort, p.proto, p.dst, p.src)
  }

  function KeyOf(p: Policy): SpdKey {
    SpdKey(SelectorOf(p), p.mark)
  }

  predicate Matches(a: Policy, e: Policy) {
    a.dir == e.dir && a.srcPort == e.srcPort && a.dstPort == e.dstPort && a.proto == e.proto &&
    a.dst == e.dst && a.src == e.src
  }

  // ----- the diff, entry by entry -----

  /** The last policy of `actual` that matches `e`. */
  function LastMatch(actual: seq<Policy>, e: Policy): (r: Option<Policy>)
    ensures r.Some? <==> exists a :: a in actual && Matches(a, e)
    ensures r.Some? ==> r.value in actual && Matches(r.value, e)
  {
    if actual == [] then None else
      var init, last := actual[..|actual| - 1], actual[|actual| - 1];
      assert actual == init + [last];
      if Matches(last, e) then Some(last) else LastMatch(init, e)
  }

  function CreateOf(actual: seq<Policy>, expected: seq<Policy>): seq<Policy> {
    if expected == [] then [] else
      var init, e := expected[..|expected| - 1], expected[|expected| - 1];
      CreateOf(actual, init) + if LastMatch(actual, e).None? then [e] else []
  }

  function UpdateOf(actual: seq<Policy>, expected: seq<Policy>): seq<Policy> {
    if expected == [] then [] else
      var init, e := expected[..|expected| - 1], expected[|expected| - 1];
      var a := LastMatch(actual, e);
      UpdateOf(actual, init) +
      if a.Some? && a.value != e.(index := a.value.index) then [e.(index := a.value.index)] else []
  }

  predicate Unmatched(a: Policy, expected: seq<Policy>) {
    forall e :: e in expected ==> !Matches(a, e)
  }

  function RemoveOf(actual: seq<Policy>, expected: seq<Policy>): seq<Policy> {
    if actual == [] then [] else
      var init, a := actual[..|actual| - 1], actual[|actual| - 1];
      RemoveOf(init, expected) + if Unmatched(a, expected) then [a] else []
  }

  /** The inner loop: the last match of `e`, flagging every match on the way. */
  method FindMatch(actual: seq<Policy>, e: Policy, matched: array<bool>) returns (a: Option<Policy>)
    requires matched.Length == |actual|
    modifies matched
    ensures a == LastMatch(actual, e)
    ensures forall i :: 0 <= i < |actual| ==> matched[i] == (old(matched[i]) || Matches(actual[i], e))
  {
    a := None;
    for i := 0 to |actual|
      invariant a == LastMatch(actual[..i], e)
      invariant forall k :: 0 <= k < i ==> matched[k] == (old(matched[k]) || Matches(actual[k], e))
      invariant forall k :: i <= k < |actual| ==> matched[k] == old(matched[k])
    {
      assert actual[..i + 1][..i] == actual[..i];
      if Matches(actual[i], e) {
        a := Some(actual[i]);
        matched[i] := true;
      }
    }
    assert actual[..|actual|] == actual;
  }

  /** The nested loop over expected and actual policies, with its flags of matched entries. */
  method Diff(actual: seq<Policy>, expected: seq<Policy>)
    returns (create: seq<Policy>, updates: seq<Policy>, remove: seq<Policy>)
    ensures create == CreateOf(actual, expected)
    ensures updates == UpdateOf(actual, expected)
    ensures remove == RemoveOf(actual, expected)
  {
    hide Matches, LastMatch, CreateOf, UpdateOf, RemoveOf;
    DiffNone(actual);
    create, updates, remove := [], [], [];
    var matched := new bool[|actual|](_ => false);
    for j := 0 to |expected|
      invariant create == CreateOf(actual, expected[..j])
      invariant updates == UpdateOf(actual, expected[..j])
      invariant forall i :: 0 <= i < |actual| ==> matched[i] == !Unmatched(actual[i], expected[..j])
    {
      var e := expected[j];
      var a := FindMatch(actual, e, matched);
      assert expected[..j + 1] == expected[..j] + [e];
      forall i | 0 <= i < |actual| ensures matched[i] == !Unmatched(actual[i], expected[..j + 1]) {
        UnmatchedSnoc(actual[i], expected[..j], e);
      }
      DiffSnoc(actual, expected[..j], e);
      if a.None? {
        create := create + [e];
      } else if a.value != e.(index := a.value.index) {
        updates := updates + [e.(index := a.value.index)];
      }
    }
    assert expected[..|expected|] == expected;
    remove := Collect(actual, expected, matched);
  }

  lemma DiffNone(actual: seq<Policy>)
    ensures CreateOf(actual, []) == [] && UpdateOf(actual, []) == []
  {
  }

  lemma DiffSnoc(actual: seq<Policy>, expected: seq<Policy>, e: Policy)
    ensures var a := LastMatch(actual, e);
            && CreateOf(actual, expected + [e]) == CreateOf(actual, expected) + (if a.None? then [e] else [])
            && UpdateOf(actual, expected + [e]) == UpdateOf(actual, expected) +
                 (if a.Some? && a.value != e.(index := a.value.index) then [e.(index := a.value.index)] else [])
  {
    hide LastMatch;
    assert (expected + [e])[..|expected|] == expected;
  }

  /** The closing loop: the listed policies that nothing matched. */
  method Collect(actual: seq<Policy>, ghost expected: seq<Policy>, matched: array<bool>) returns (remove: seq<Policy>)
    requires matched.Length == |actual|
    requires forall i :: 0 <= i < |actual| ==> matched[i] == !Unmatched(actual[i], expected)
    ensures remove == RemoveOf(actual, expected)
  {
    remove := [];
    for i := 0 to |actual|
      invariant remove == RemoveOf(actual[..i], expected)
    {
      assert actual[..i + 1][..i] == actual[..i];
      if !matched[i] {
        remove := remove + [actual[i]];
      }
    }
    assert actual[..|actual|] == actual;
  }

  lemma UnmatchedSnoc(a: Policy, expected: seq<Policy>, e: Policy)
    ensures Unmatched(a, expected + [e]) <==> Unmatched(a, expected) && !Matches(a, e)
  {
    assert e in expected + [e];
    assert forall x :: x in expected + [e] <==> x in expected || x == e;
  }

  // ----- the keyed reading of the diff -----

  ghost predicate WellKeyed(t: Spd) {
    forall k :: k in t ==> KeyOf(t[k]) == k
  }

  ghost predicate DistinctSelectors(s: seq<Policy>) {
    forall i, j :: 0 <= i < j < |s| ==> SelectorOf(s[i]) != SelectorOf(s[j])
  }

  ghost predicate Lists(list: seq<Policy>, t: Spd) {
    && (forall i, j :: 0 <= i < j < |list| ==> KeyOf(list[i]) != KeyOf(list[j]))
    && (forall a :: a in list ==> KeyOf(a) in t && t[KeyOf(a)] == a)
    && (forall k :: k in t ==> t[k] in list)
  }

  /** Policies by selector; of several with one selector, the last. */
  function BySelector(list: seq<Policy>): map<Selector, Policy> {
    IndexBy(list, SelectorOf)
  }

  lemma {:induction false} LastMatchIsLookup(actual: seq<Policy>, e: Policy)
    ensures LastMatch(actual, e).Some? <==> SelectorOf(e) in BySelector(actual)
    ensures LastMatch(actual, e).Some? ==> LastMatch(actual, e).value == BySelector(actual)[SelectorOf(e)]
    decreases |actual|
  {
    if actual != [] {
      var init, last := actual[..|actual| - 1], actual[|actual| - 1];
      LastMatchIsLookup(init, e);
      assert Matches(last, e) <==> SelectorOf(last) == SelectorOf(e);
    }
  }

  /** The policy to store for `e`, under the kernel index of its counterpart, if that differs. */
  ghost predicate KeyedUpdate(actual: map<Selector, Policy>, e: Policy, u: Policy) {
    SelectorOf(e) in actual && u == e.(index := actual[SelectorOf(e)].index) && u != actual[SelectorOf(e)]
  }

  /**
    The quadratic diff is the diff of two maps keyed by selector: expected policies are created when
    their key is new, updated when the entry differs and left otherwise; listed ones are removed when
    their key is not expected.
   */
  lemma DiffSplits(actual: seq<Policy>, expected: seq<Policy>)
    ensures var a, x := BySelector(actual), BySelector(expected);
            && (forall e :: e in CreateOf(actual, expected) <==> e in expected && SelectorOf(e) !in a)
            && (forall u :: u in UpdateOf(actual, expected) <==> exists e :: e in expected && KeyedUpdate(a, e, u))
            && (forall p :: p in RemoveOf(actual, expected) <==> p in actual && SelectorOf(p) !in x)
  {
    CreateMembers(actual, expected);
    RemoveMembers(actual, expected);
    IndexByMembers(actual, SelectorOf);
    IndexByMembers(expected, SelectorOf);
    forall u
      ensures u in UpdateOf(actual, expected) <==> exists e :: e in expected && KeyedUpdate(BySelector(actual), e, u)
    {
      UpdatesAreKeyed(actual, expected, u);
    }
  }

  lemma UpdatesAreKeyed(actual: seq<Policy>, expected: seq<Policy>, u: Policy)
    ensures u in UpdateOf(actual, expected) <==> exists e :: e in expected && KeyedUpdate(BySelector(actual), e, u)
  {
    hide BySelector, LastMatch, UpdateOf;
    UpdateMembers(actual, expected);
    forall e | e in expected ensures UpdateFor(actual, e, u) <==> KeyedUpdate(BySelector(actual), e, u) {
      LastMatchIsLookup(actual, e);
    }
  }

  ghost predicate UpdateFor(actual: seq<Policy>, e: Policy, u: Policy) {
    var a := LastMatch(actual, e);
    a.Some? && a.value != u && u == e.(index := a.value.index)
  }

  lemma {:induction false} CreateMembers(actual: seq<Policy>, expected: seq<Policy>)
    ensures forall e :: e in CreateOf(actual, expected) <==>
              e in expected && forall a :: a in actual ==> SelectorOf(a) != SelectorOf(e)
    decreases |expected|
  {
    if expected != [] {
      var init, e := expected[..|expected| - 1], expected[|expected| - 1];
      assert expected == init + [e];
      CreateMembers(actual, init);
      assert forall a :: a in actual ==> (Matches(a, e) <==> SelectorOf(a) == SelectorOf(e));
    }
  }

  lemma {:induction false} UpdateMembers(actual: seq<Policy>, expected: seq<Policy>)
    ensures forall u :: u in UpdateOf(actual, expected) <==> exists e :: e in expected && UpdateFor(actual, e, u)
    decreases |expected|
  {
    if expected != [] {
      var init, e := expected[..|expected| - 1], expected[|expected| - 1];
      assert expected == init + [e];
      UpdateMembers(actual, init);
      forall u | exists x :: x in expected && UpdateFor(actual, x, u) ensures u in UpdateOf(actual, expected) {
        var x :| x in expected && UpdateFor(actual, x, u);
        if x != e {
          assert x in init;
        }
      }
      forall u | u in UpdateOf(actual, expected) ensures exists x :: x in expected && UpdateFor(actual, x, u) {
        if u in UpdateOf(actual, init) {
          var x :| x in init && UpdateFor(actual, x, u);
          assert x in expected;
        } else {
          assert UpdateFor(actual, e, u);
        }
      }
    }
  }

  lemma {:induction false} RemoveMembers(actual: seq<Policy>, expected: seq<Policy>)
    ensures forall a :: a in RemoveOf(actual, expected) <==>
              a in actual && forall e :: e in expected ==> SelectorOf(a) != SelectorOf(e)
    decreases |actual|
  {
    if actual != [] {
      var init, a := actual[..|actual| - 1], actual[|actual| - 1];
      assert actual == init + [a];
      RemoveMembers(init, expected);
      assert forall e :: e in expected ==> (Matches(a, e) <==> SelectorOf(a) == SelectorOf(e));
    }
  }

  // ----- the operations -----

  /** The index of a created policy is the kernel's choice. */
  ghost predicate PlanFrom(list: seq<Policy>, expected: seq<Policy>, ops: seq<SpdOp>) {
    var create, updates, remove := CreateOf(list, expected), UpdateOf(list, expected), RemoveOf(list, expected);
    var c, u := |create|, |create| + |updates|;
    && |ops| == u + |remove|
    && (forall i :: 0 <= i < c ==>
          ops[i].Add? && ops[i].key == KeyOf(create[i]) && ops[i].val == create[i].(index := ops[i].val.index))
    && (forall i :: c <= i < u ==> ops[i] == Op.Put(KeyOf(updates[i - c]), updates[i - c]))
    && (forall i :: u <= i < |ops| ==> ops[i] == Op.Del(KeyOf(remove[i - u])))
  }

  /** `ops` is a run that `Ensure` may perform on table `t`. */
  ghost predicate Plan(t: Spd, expected: seq<Policy>, ops: seq<SpdOp>) {
    exists list: seq<Policy> :: Lists(list, t) && PlanFrom(list, expected, ops)
  }

  method Ensure(table: Table<SpdKey, Policy>, expected: seq<Policy>)
    returns (ok: bool, ghost ops: seq<SpdOp>, ghost done: nat)
    requires WellKeyed(table.entries)
    modifies table
    ensures Plan(old(table.entries), expected, ops)
    ensures done <= |ops| && (ok <==> done == |ops|)
    ensures Accepted(old(table.entries), ops[..done])
    ensures table.entries == Exec(old(table.entries), ops[..done])
    ensures table.reliable ==> ok == Accepted(old(table.entries), ops)
  {
    var list, keys := ListEntries(table.entries);
    ListingMembers(list, keys, table.entries);
    assert Lists(list, table.entries);
    var all := BuildOps(list, expected);
    var applied, n := table.ApplyAll(all);
    return applied, all, n;
  }

  method BuildOps(list: seq<Policy>, expected: seq<Policy>) returns (ops: seq<SpdOp>)
    ensures PlanFrom(list, expected, ops)
  {
    hide KeyOf, CreateOf, UpdateOf, RemoveOf, PlanFrom;
    var create, updates, remove := Diff(list, expected);
    var adds: seq<SpdOp> := [];
    for i := 0 to |create|
      invariant |adds| == i
      invariant forall j :: 0 <= j < i ==>
        adds[j].Add? && adds[j].key == KeyOf(create[j]) && adds[j].val == create[j].(index := adds[j].val.index)
    {
      var kernelIndex: nat := *;
      adds := adds + [Op.Add(KeyOf(create[i]), create[i].(index := kernelIndex))];
    }
    var puts := seq(|updates|, i requires 0 <= i < |updates| => Op.Put(KeyOf(updates[i]), updates[i]));
    var dels := seq(|remove|, i requires 0 <= i < |remove| => Op.Del(KeyOf(remove[i])));
    ops := adds + puts + dels;
    PhasesMakePlan(list, expected, adds, puts, dels);
  }

  lemma PhasesMakePlan(list: seq<Policy>, expected: seq<Policy>, adds: seq<SpdOp>, puts: seq<SpdOp>, dels: seq<SpdOp>)
    requires var create, updates, remove := CreateOf(list, expected), UpdateOf(list, expected),
             RemoveOf(list, expected);
      && |adds| == |create| && |puts| == |updates| && |dels| == |remove|
      && (forall i :: 0 <= i < |adds| ==>
           adds[i].Add? && adds[i].key == KeyOf(create[i]) && adds[i].val == create[i].(index := adds[i].val.index))
      && (forall i :: 0 <= i < |puts| ==> puts[i] == Op.Put(KeyOf(updates[i]), updates[i]))
      && (forall i :: 0 <= i < |dels| ==> dels[i] == Op.Del(KeyOf(remove[i])))
    ensures PlanFrom(list, expected, adds + puts + dels)
  {
    hide KeyOf, CreateOf, UpdateOf, RemoveOf;
  }

  // ----- what the reconciler achieves -----

  /** A policy with an expected selector carries the expected mark. */
  ghost predicate MarksAgree(t: Spd, expected: seq<Policy>) {
    forall k, e :: k in t && e in expected && k.sel == SelectorOf(e) ==> k.mark == e.mark
  }

  /** `t` holds exactly the expected policies, whatever indexes the kernel gave them. */
  ghost predicate HoldsExactly(t: Spd, expected: seq<Policy>) {
    && (forall e :: e in expected ==> KeyOf(e) in t && t[KeyOf(e)].(index := e.index) == e)
    && (forall k :: k in t ==> exists e :: e in expected && KeyOf(e) == k)
  }

  /** What each operation of a plan does, seen from the table and the expected policies. */
  ghost predicate Explained(t: Spd, expected: seq<Policy>, op: SpdOp) {
    match op
    case Add(k, v) => (exists e :: e in expected && v == e.(index := v.index)) && k == KeyOf(v) &&
      forall l :: l in t ==> l.sel != k.sel
    case Put(k, v) => (exists e ::
      e in expected && v == e.(index := v.index)) && k == KeyOf(v) && exists l :: l in t && l.sel == k.sel && t[l] != v
    case Del(k) => k in t && forall e :: e in expected ==> SelectorOf(e) != k.sel
    case Update(_, _) => false
  }

  lemma PlanExplained(t: Spd, expected: seq<Policy>, ops: seq<SpdOp>, list: seq<Policy>, i: nat)
    requires WellKeyed(t) && Lists(list, t) && PlanFrom(list, expected, ops) && i < |ops|
    ensures Explained(t, expected, ops[i])
  {
    hide WellKeyed, Lists, Explained, CreateOf, UpdateOf, RemoveOf;
    var create, updates, remove := CreateOf(list, expected), UpdateOf(list, expected), RemoveOf(list, expected);
    var c, u := |create|, |create| + |updates|;
    if i < c {
      CreateExplained(t, expected, list, create[i], ops[i]);
    } else if i < u {
      UpdateExplained(t, expected, list, updates[i - c]);
    } else {
      RemoveExplained(t, expected, list, remove[i - u]);
    }
  }

  lemma CreateExplained(t: Spd, expected: seq<Policy>, list: seq<Policy>, p: Policy, op: SpdOp)
    requires WellKeyed(t) && Lists(list, t) && p in CreateOf(list, expected)
    requires op.Add? && op.key == KeyOf(p) && op.val == p.(index := op.val.index)
    ensures Explained(t, expected, op)
  {
    CreateMembers(list, expected);
    forall l | l in t ensures l.sel != op.key.sel {
      assert t[l] in list;
    }
  }

  lemma UpdateExplained(t: Spd, expected: seq<Policy>, list: seq<Policy>, u: Policy)
    requires WellKeyed(t) && Lists(list, t) && u in UpdateOf(list, expected)
    ensures Explained(t, expected, Op.Put(KeyOf(u), u))
  {
    UpdateMembers(list, expected);
    var e :| e in expected && UpdateFor(list, e, u);
    var a := LastMatch(list, e).value;
    assert KeyOf(a) in t && KeyOf(a).sel == KeyOf(u).sel && t[KeyOf(a)] == a;
  }

  lemma RemoveExplained(t: Spd, expected: seq<Policy>, list: seq<Policy>, p: Policy)
    requires WellKeyed(t) && Lists(list, t) && p in RemoveOf(list, expected)
    ensures Explained(t, expected, Op.Del(KeyOf(p)))
  {
    RemoveMembers(list, expected);
  }

  lemma DistinctSnoc(s: seq<Policy>, e: Policy)
    requires DistinctSelectors(s) && forall p :: p in s ==> SelectorOf(p) != SelectorOf(e)
    ensures DistinctSelectors(s + [e])
  {
    forall i | 0 <= i < |s| ensures SelectorOf(s[i]) != SelectorOf(e) {
      assert s[i] in s;
    }
  }

  lemma {:induction false} SelectorsStayDistinct(actual: seq<Policy>, expected: seq<Policy>)
    requires DistinctSelectors(expected)
    ensures DistinctSelectors(CreateOf(actual, expected)) && DistinctSelectors(UpdateOf(actual, expected))
    decreases |expected|
  {
    if expected != [] {
      var init, e := expected[..|expected| - 1], expected[|expected| - 1];
      assert forall x :: x in init ==> SelectorOf(x) != SelectorOf(e);
      SelectorsStayDistinct(actual, init);
      var c, u := CreateOf(actual, init), UpdateOf(actual, init);
      assert forall p :: p in c ==> SelectorOf(p) != SelectorOf(e) by {
        CreateMembers(actual, init);
      }
      assert forall p :: p in u ==> SelectorOf(p) != SelectorOf(e) by {
        UpdateMembers(actual, init);
      }
      var a := LastMatch(actual, e);
      if a.None? {
        DistinctSnoc(c, e);
      } else {
        DistinctSnoc(u, e.(index := a.value.index));
      }
    }
  }

  lemma {:induction false} KeysStayDistinct(actual: seq<Policy>, expected: seq<Policy>)
    requires forall i, j :: 0 <= i < j < |actual| ==> KeyOf(actual[i]) != KeyOf(actual[j])
    ensures forall i, j :: 0 <= i < j < |RemoveOf(actual, expected)| ==>
              KeyOf(RemoveOf(actual, expected)[i]) != KeyOf(RemoveOf(actual, expected)[j])
    decreases |actual|
  {
    if actual != [] {
      var init, a := actual[..|actual| - 1], actual[|actual| - 1];
      assert actual == init + [a];
      KeysStayDistinct(init, expected);
      RemoveMembers(init, expected);
      assert forall x :: x in init ==> KeyOf(x) != KeyOf(a);
      assert forall p :: p in RemoveOf(init, expected) ==> KeyOf(p) != KeyOf(a);
    }
  }

  lemma PlanTouchesDistinctKeys(t: Spd, expected: seq<Policy>, ops: seq<SpdOp>, list: seq<Policy>)
    requires WellKeyed(t) && Lists(list, t) && PlanFrom(list, expected, ops)
    requires DistinctSelectors(expected)
    ensures DistinctKeys(ops)
  {
    var create, updates, remove := CreateOf(list, expected), UpdateOf(list, expected), RemoveOf(list, expected);
    var c, u := |create|, |create| + |updates|;
    SelectorsStayDistinct(list, expected);
    KeysStayDistinct(list, expected);
    forall i, j | 0 <= i < j < |ops| ensures ops[i].key != ops[j].key {
      PlanExplained(t, expected, ops, list, i);
      PlanExplained(t, expected, ops, list, j);
      if j < c {
        assert SelectorOf(create[i]) != SelectorOf(create[j]);
      } else if c <= i && j < u {
        assert SelectorOf(updates[i - c]) != SelectorOf(updates[j - c]);
      } else if u <= i {
        assert KeyOf(remove[i - u]) != KeyOf(remove[j - u]);
      }
    }
  }

  /** What an accepted operation or an untouched key tells about the result. */
  lemma ResultAt(t: Spd, expected: seq<Policy>, ops: seq<SpdOp>, list: seq<Policy>, k: SpdKey)
    requires WellKeyed(t) && Lists(list, t) && PlanFrom(list, expected, ops) && DistinctSelectors(expected)
    requires k in Exec(t, ops)
    ensures KeyOf(Exec(t, ops)[k]) == k
    ensures (exists e :: e in expected && Exec(t, ops)[k] == e.(index := Exec(t, ops)[k].index))
         || (k in t && Exec(t, ops)[k] == t[k] && exists e :: e in expected && SelectorOf(e) == k.sel)
  {
    hide PlanFrom, Lists, DistinctSelectors;
    PlanTouchesDistinctKeys(t, expected, ops, list);
    BatchExec(t, ops);
    var r := Exec(t, ops);
    if Touches(ops, k) {
      var i :| 0 <= i < |ops| && ops[i].key == k;
      PlanExplained(t, expected, ops, list, i);
      assert Settled(r, ops[i]);
    } else {
      assert SameAt(t, r, k);
      if forall e :: e in expected ==> SelectorOf(e) != k.sel {
        UnwantedIsRemoved(t, expected, ops, list, k);
      }
    }
  }

  lemma UnwantedIsRemoved(t: Spd, expected: seq<Policy>, ops: seq<SpdOp>, list: seq<Policy>, k: SpdKey)
    requires WellKeyed(t) && Lists(list, t) && PlanFrom(list, expected, ops)
    requires k in t && forall e :: e in expected ==> SelectorOf(e) != k.sel
    ensures Touches(ops, k)
  {
    hide CreateOf, UpdateOf, RemoveOf;
    RemoveMembers(list, expected);
    var remove := RemoveOf(list, expected);
    assert t[k] in list && t[k] in remove;
    var i :| 0 <= i < |remove| && remove[i] == t[k];
    assert ops[|ops| - |remove| + i].key == k;
  }

  /** A policy that already equals its match is not touched. */
  lemma EqualIsUntouched(t: Spd, expected: seq<Policy>, ops: seq<SpdOp>, list: seq<Policy>, e: Policy, i: nat)
    requires WellKeyed(t) && Lists(list, t) && PlanFrom(list, expected, ops) && DistinctSelectors(expected)
    requires e in expected && LastMatch(list, e).Some?
    requires LastMatch(list, e).value == e.(index := LastMatch(list, e).value.index)
    requires i < |ops|
    ensures ops[i].key != KeyOf(e)
  {
    PlanExplained(t, expected, ops, list, i);
    var a := LastMatch(list, e).value;
    assert KeyOf(a) == KeyOf(e) && KeyOf(a) in t;
    if ops[i].Put? && ops[i].key == KeyOf(e) {
      var updates := UpdateOf(list, expected);
      var u := updates[i - |CreateOf(list, expected)|];
      assert u in updates;
      UpdateMembers(list, expected);
      var y :| y in expected && UpdateFor(list, y, u);
      SameSelectorSame(expected, y, e);
    }
  }

  /** An expected policy without counterpart has its creation in the plan. */
  lemma CreatedInPlan(expected: seq<Policy>, ops: seq<SpdOp>, list: seq<Policy>, e: Policy) returns (i: nat)
    requires PlanFrom(list, expected, ops) && e in expected && LastMatch(list, e).None?
    ensures i < |ops| && ops[i].Add? && ops[i].key == KeyOf(e) && ops[i].val == e.(index := ops[i].val.index)
  {
    hide CreateOf, UpdateOf, RemoveOf, KeyOf, LastMatch;
    var create := CreateOf(list, expected);
    CreateMembers(list, expected);
    assert forall x :: x in list ==> (Matches(x, e) <==> SelectorOf(x) == SelectorOf(e));
    assert e in create;
    i :| 0 <= i < |create| && create[i] == e;
  }

  /** One that differs from its counterpart has its update in the plan. */
  lemma UpdatedInPlan(expected: seq<Policy>, ops: seq<SpdOp>, list: seq<Policy>, e: Policy, u: Policy) returns (i: nat)
    requires PlanFrom(list, expected, ops) && e in expected && UpdateFor(list, e, u)
    ensures i < |ops| && ops[i] == Op.Put(KeyOf(u), u)
  {
    hide CreateOf, UpdateOf, RemoveOf, KeyOf, UpdateFor;
    var create, updates := CreateOf(list, expected), UpdateOf(list, expected);
    UpdateMembers(list, expected);
    assert u in updates;
    var j :| 0 <= j < |updates| && updates[j] == u;
    i := |create| + j;
  }

  /** Every expected policy ends up at its key. */
  lemma ExpectedInPlace(t: Spd, expected: seq<Policy>, ops: seq<SpdOp>, list: seq<Policy>, e: Policy)
    requires WellKeyed(t) && Lists(list, t) && PlanFrom(list, expected, ops) && DistinctSelectors(expected)
    requires e in expected
    ensures KeyOf(e) in Exec(t, ops) && Exec(t, ops)[KeyOf(e)].(index := e.index) == e
  {
    hide DistinctSelectors, WellKeyed, DistinctKeys, PlanFrom, Exec;
    var a := LastMatch(list, e);
    PlanTouchesDistinctKeys(t, expected, ops, list);
    BatchExec(t, ops);
    if a.None? {
      var i := CreatedInPlan(expected, ops, list, e);
      assert Settled(Exec(t, ops), ops[i]);
    } else if a.value != e.(index := a.value.index) {
      var i := UpdatedInPlan(expected, ops, list, e, e.(index := a.value.index));
      assert Settled(Exec(t, ops), ops[i]);
    } else {
      forall i | 0 <= i < |ops| ensures ops[i].key != KeyOf(e) {
        EqualIsUntouched(t, expected, ops, list, e, i);
      }
      assert SameAt(t, Exec(t, ops), KeyOf(e));
      assert KeyOf(a.value) == KeyOf(e);
    }
  }

  lemma SameSelectorSame(s: seq<Policy>, x: Policy, y: Policy)
    requires DistinctSelectors(s) && x in s && y in s && SelectorOf(x) == SelectorOf(y)
    ensures x == y
  {
    var i :| 0 <= i < |s| && s[i] == x;
    var j :| 0 <= j < |s| && s[j] == y;
  }

  /** No operation is refused: the creates, updates and removals are on different keys. */
  lemma AlwaysAccepted(t: Spd, expected: seq<Policy>, ops: seq<SpdOp>)
    requires WellKeyed(t) && DistinctSelectors(expected) && Plan(t, expected, ops)
    ensures Accepted(t, ops)
  {
    var list: seq<Policy> :| Lists(list, t) && PlanFrom(list, expected, ops);
    PlanTouchesDistinctKeys(t, expected, ops, list);
    BatchExec(t, ops);
    forall i | 0 <= i < |ops| ensures Enabled(t, ops[i]) {
      PlanExplained(t, expected, ops, list, i);
    }
  }

  lemma NothingElseLeft(t: Spd, expected: seq<Policy>, ops: seq<SpdOp>, list: seq<Policy>, k: SpdKey)
    requires WellKeyed(t) && Lists(list, t) && PlanFrom(list, expected, ops) && DistinctSelectors(expected)
    requires MarksAgree(t, expected) && k in Exec(t, ops)
    ensures exists e :: e in expected && KeyOf(e) == k
  {
    ResultAt(t, expected, ops, list, k);
    var p := Exec(t, ops)[k];
    if x :| x in expected && p == x.(index := p.index) {
      assert KeyOf(x) == k;
    } else {
      var x :| x in expected && SelectorOf(x) == k.sel;
      assert KeyOf(x) == k;
    }
  }

  lemma ConvergesWhenMarksAgree(t: Spd, expected: seq<Policy>, ops: seq<SpdOp>, list: seq<Policy>)
    requires WellKeyed(t) && Lists(list, t) && PlanFrom(list, expected, ops) && DistinctSelectors(expected)
    requires MarksAgree(t, expected)
    ensures HoldsExactly(Exec(t, ops), expected)
  {
    var r := Exec(t, ops);
    forall e | e in expected ensures KeyOf(e) in r && r[KeyOf(e)].(index := e.index) == e {
      ExpectedInPlace(t, expected, ops, list, e);
    }
    forall k | k in r ensures exists e :: e in expected && KeyOf(e) == k {
      NothingElseLeft(t, expected, ops, list, k);
    }
  }

  /** A completed run leaves exactly the expected policies if and only if the marks agree. */
  lemma ConvergesIffMarksAgree(t: Spd, expected: seq<Policy>, ops: seq<SpdOp>)
    requires WellKeyed(t) && DistinctSelectors(expected) && Plan(t, expected, ops)
    ensures HoldsExactly(Exec(t, ops), expected) <==> MarksAgree(t, expected)
  {
    var list: seq<Policy> :| Lists(list, t) && PlanFrom(list, expected, ops);
    if MarksAgree(t, expected) {
      ConvergesWhenMarksAgree(t, expected, ops, list);
    } else {
      var k, e :| k in t && e in expected && k.sel == SelectorOf(e) && k.mark != e.mark;
      StaleMarkSurvives(t, expected, ops, list, k, e);
      assert k in Exec(t, ops);
    }
  }

  /** A policy that matches an expected one under another mark is neither replaced nor removed. */
  lemma StaleMarkSurvives(t: Spd, expected: seq<Policy>, ops: seq<SpdOp>, list: seq<Policy>, k: SpdKey, e: Policy)
    requires WellKeyed(t) && Lists(list, t) && PlanFrom(list, expected, ops) && DistinctSelectors(expected)
    requires k in t && e in expected && k.sel == SelectorOf(e) && k.mark != e.mark
    ensures k in Exec(t, ops) && forall x :: x in expected ==> KeyOf(x) != k
  {
    PlanTouchesDistinctKeys(t, expected, ops, list);
    BatchExec(t, ops);
    forall x | x in expected ensures KeyOf(x) != k {
      if SelectorOf(x) == k.sel {
        SameSelectorSame(expected, x, e);
      }
    }
    forall i | 0 <= i < |ops| ensures ops[i].key != k {
      PlanExplained(t, expected, ops, list, i);
    }
    assert SameAt(t, Exec(t, ops), k);
  }

  ghost predicate HasSelector(expected: seq<Policy>, sel: Selector) {
    exists e :: e in expected && SelectorOf(e) == sel
  }

  /**
    What a completed run leaves at a key, whatever the marks: the expected policy of that key, or else a
    policy from before with an expected selector.
   */
  ghost predicate ResultFor(t: Spd, expected: seq<Policy>, r: Spd, k: SpdKey) {
    && (forall e :: e in expected && KeyOf(e) == k ==> k in r && r[k].(index := e.index) == e)
    && ((forall e :: e in expected ==> KeyOf(e) != k) ==>
          if k in t && HasSelector(expected, k.sel) then k in r && r[k] == t[k] else k !in r)
  }

  lemma RunDetermined(t: Spd, expected: seq<Policy>, ops: seq<SpdOp>, k: SpdKey)
    requires WellKeyed(t) && DistinctSelectors(expected) && Plan(t, expected, ops)
    ensures ResultFor(t, expected, Exec(t, ops), k)
  {
    hide DistinctSelectors, WellKeyed, Exec;
    var list: seq<Policy> :| Lists(list, t) && PlanFrom(list, expected, ops);
    hide Lists, PlanFrom;
    forall e | e in expected && KeyOf(e) == k ensures k in Exec(t, ops) && Exec(t, ops)[k].(index := e.index) == e {
      ExpectedInPlace(t, expected, ops, list, e);
    }
    if forall e :: e in expected ==> KeyOf(e) != k {
      OtherKeys(t, expected, ops, list, k);
    }
  }

  ghost predicate SameUpToIndex(r: Spd, u: Spd) {
    r.Keys == u.Keys && forall k :: k in r && k in u ==> u[k] == r[k].(index := u[k].index)
  }

  /** Runs for the same expected policies, in any order, leave the same table up to kernel indexes. */
  lemma SameMembersSameResult(t: Spd, expected: seq<Policy>, other: seq<Policy>, ops: seq<SpdOp>, ops': seq<SpdOp>)
    requires WellKeyed(t) && DistinctSelectors(expected) && DistinctSelectors(other) && forall e :: e in expected <==>
             e in other
    requires Plan(t, expected, ops) && Plan(t, other, ops')
    ensures SameUpToIndex(Exec(t, ops), Exec(t, ops'))
  {
    hide DistinctSelectors, WellKeyed, Plan, Exec;
    var r, u := Exec(t, ops), Exec(t, ops');
    forall k ensures (k in r <==> k in u) && (k in r && k in u ==> u[k] == r[k].(index := u[k].index)) {
      RunDetermined(t, expected, ops, k);
      RunDetermined(t, other, ops', k);
      assert HasSelector(expected, k.sel) <==> HasSelector(other, k.sel);
      if e :| e in expected && KeyOf(e) == k {
        assert r[k].(index := e.index) == e && u[k].(index := e.index) == e;
      }
    }
    assert forall k :: k in r.Keys <==> k in u.Keys;
  }

  lemma OtherKeys(t: Spd, expected: seq<Policy>, ops: seq<SpdOp>, list: seq<Policy>, k: SpdKey)
    requires WellKeyed(t) && Lists(list, t) && PlanFrom(list, expected, ops) && DistinctSelectors(expected)
    requires forall e :: e in expected ==> KeyOf(e) != k
    ensures var r := Exec(t, ops); if k in t && HasSelector(expected, k.sel) then k in r && r[k] == t[k] else k !in r
  {
    hide DistinctSelectors, Lists, PlanFrom, Exec;
    var r := Exec(t, ops);
    if k in r {
      ResultAt(t, expected, ops, list, k);
      forall e | e in expected ensures r[k] != e.(index := r[k].index) {
        assert KeyOf(e.(index := r[k].index)) == KeyOf(e);
      }
    }
    if k in t && HasSelector(expected, k.sel) {
      var e :| e in expected && SelectorOf(e) == k.sel;
      assert e.mark != k.mark;
      StaleMarkSurvives(t, expected, ops, list, k, e);
    }
  }

  /** From a table that holds exactly the expected policies, `Ensure` performs no operation. */
  lemma SecondRunIsIdle(t: Spd, expected: seq<Policy>, ops: seq<SpdOp>)
    requires WellKeyed(t) && DistinctSelectors(expected)
    requires HoldsExactly(t, expected) && Plan(t, expected, ops)
    ensures ops == []
  {
    var list: seq<Policy> :| Lists(list, t) && PlanFrom(list, expected, ops);
    CreateMembers(list, expected);
    UpdateMembers(list, expected);
    RemoveMembers(list, expected);
    forall e | e in expected ensures LastMatch(list, e) == Some(t[KeyOf(e)]) {
      assert t[KeyOf(e)] in list && Matches(t[KeyOf(e)], e);
      var a := LastMatch(list, e).value;
      var x :| x in expected && KeyOf(x) == KeyOf(a);
      SameSelectorSame(expected, x, e);
    }
    assert forall p :: p !in CreateOf(list, expected);
    assert forall p :: p !in UpdateOf(list, expected);
    assert forall p :: p !in RemoveOf(list, expected);
    EmptyOrMember(CreateOf(list, expected));
    EmptyOrMember(UpdateOf(list, expected));
    EmptyOrMember(RemoveOf(list, expected));
  }

  ghost predicate Unmarked(t: Spd) {
    forall k :: k in t ==> k.mark == None
  }

  /** However far a run of unmarked policies gets, even of clashing ones, the table stays well keyed and unmarked. */
  lemma PartialRunKeepsInvariant(t: Spd, expected: seq<Policy>, ops: seq<SpdOp>, n: nat)
    requires WellKeyed(t) && Unmarked(t) && forall e :: e in expected ==> e.mark == None
    requires Plan(t, expected, ops) && n <= |ops|
    ensures WellKeyed(Exec(t, ops[..n])) && Unmarked(Exec(t, ops[..n]))
  {
    hide PlanFrom, Lists, Exec;
    var list: seq<Policy> :| Lists(list, t) && PlanFrom(list, expected, ops);
    var part := ops[..n];
    var r := Exec(t, part);
    forall k | k in r ensures KeyOf(r[k]) == k && k.mark == None {
      ExecEntries(t, part, k);
      if Sets(part, k, r[k]) {
        var i :| 0 <= i < |part| && part[i].key == k && !part[i].Del? && part[i].val == r[k];
        PlanExplained(t, expected, ops, list, i);
      }
    }
  }
}
