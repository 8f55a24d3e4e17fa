/**
  The kernel's tables, reached through netlink.  A table maps the key the kernel uses to
  the stored entry.  Adding fails on a present key, updating and deleting on an absent one,
  putting replaces.  Every operation can also fail for a reason of the kernel's own.
 */
module KernelTables {

  datatype Op<K, V> =
    | Add(key: K, val: V)
    | Update(key: K, val: V)
    | Put(key: K, val: V)
    | Del(key: K)

  predicate Enabled<K(==), V>(t: map<K, V>, op: Op<K, V>) {
    match op
    case Add(k, _) => k !in t
    case Update(k, _) => k in t
    case Put(_, _) => true
    case Del(k) => k in t
  }

  function Effect<K(==), V>(t: map<K, V>, op: Op<K, V>): map<K, V> {
    match op
    case Del(k) => t - {k}
    case Add(k, v) => t[k := v]
    case Update(k, v) => t[k := v]
    case Put(k, v) => t[k := v]
  }

  /** The table after all of `ops`, in order. */
  function Exec<K(==), V>(t: map<K, V>, ops: seq<Op<K, V>>): map<K, V>
    decreases |ops|
  {
    if ops == [] then t else Effect(Exec(t, ops[..|ops| - 1]), ops[|ops| - 1])
  }

  /** No operation of the sequence is refused by the kernel for its key. */
  predicate Accepted<K(==), V>(t: map<K, V>, ops: seq<Op<K, V>>) {
    forall i :: 0 <= i < |ops| ==> Enabled(Exec(t, ops[..i]), ops[i])
  }

  ghost predicate DistinctKeys<K, V>(ops: seq<Op<K, V>>) {
    forall i, j :: 0 <= i < j < |ops| ==> ops[i].key != ops[j].key
  }

  /** `op` has had its effect on `t`. */
  ghost predicate Settled<K, V>(t: map<K, V>, op: Op<K, V>) {
    if op.Del? then op.key !in t else op.key in t && t[op.key] == op.val
  }

  /** `t` and `u` agree on `k`. */
  ghost predicate SameAt<K, V>(t: map<K, V>, u: map<K, V>, k: K) {
    (k in t <==> k in u) && (k in t && k in u ==> t[k] == u[k])
  }

  ghost predicate Touches<K, V>(ops: seq<Op<K, V>>, k: K) {
    exists i :: 0 <= i < |ops| && ops[i].key == k
  }

  /**
    Operations on pairwise distinct keys do not interfere: each is accepted exactly when the
    first table accepts it, each leaves its effect, and every other key keeps its entry.
   */
  lemma {:induction false} BatchExec<K, V>(t: map<K, V>, ops: seq<Op<K, V>>)
    requires DistinctKeys(ops)
    ensures forall i :: 0 <= i < |ops| ==> Settled(Exec(t, ops), ops[i])
    ensures forall k :: !Touches(ops, k) ==> SameAt(t, Exec(t, ops), k)
    ensures Accepted(t, ops) <==> forall i :: 0 <= i < |ops| ==> Enabled(t, ops[i])
    decreases |ops|
  {
    if ops != [] {
      var init, last := ops[..|ops| - 1], ops[|ops| - 1];
      assert ops == init + [last];
      BatchExec(t, init);
      AcceptedSnoc(t, init, last);
      assert !Touches(init, last.key);
      var u, w := Exec(t, init), Exec(t, ops);
      assert SameAt(t, u, last.key);
      EffectLocal(u, last);
      forall i | 0 <= i < |ops| ensures Settled(w, ops[i]) {
        if i < |init| {
          assert ops[i] == init[i] && Settled(u, init[i]);
        }
      }
      forall k | !Touches(ops, k) ensures SameAt(t, w, k) {
        assert !Touches(init, k) by {
          assert forall i :: 0 <= i < |init| ==> init[i] == ops[i];
        }
        assert SameAt(t, u, k);
        assert ops[|init|].key != k;
      }
      assert Enabled(u, last) == Enabled(t, last);
      assert forall i :: 0 <= i < |init| ==> init[i] == ops[i];
    }
  }

  /** Operations that each settle towards `d`, with `d` already in place elsewhere, reach `d`. */
  lemma BatchReaches<K, V>(t: map<K, V>, ops: seq<Op<K, V>>, d: map<K, V>)
    requires DistinctKeys(ops)
    requires forall i :: 0 <= i < |ops| ==> Settled(d, ops[i])
    requires forall k :: !Touches(ops, k) ==> SameAt(t, d, k)
    ensures Exec(t, ops) == d
  {
    BatchExec(t, ops);
    var r := Exec(t, ops);
    forall k ensures SameAt(r, d, k) {
      if Touches(ops, k) {
        var i :| 0 <= i < |ops| && ops[i].key == k;
        assert Settled(r, ops[i]);
      } else {
        assert SameAt(t, r, k);
      }
    }
    SameEverywhere(r, d);
  }

  lemma SameEverywhere<K, V>(t: map<K, V>, u: map<K, V>)
    requires forall k :: SameAt(t, u, k)
    ensures t == u
  {
    assert forall k :: k in t ==> SameAt(t, u, k);
    assert forall k :: k in u ==> SameAt(t, u, k);
  }

  lemma EffectLocal<K, V>(t: map<K, V>, op: Op<K, V>)
    ensures Settled(Effect(t, op), op)
    ensures forall k :: k != op.key ==> SameAt(t, Effect(t, op), k)
  {
  }

  lemma AcceptedSnoc<K, V>(t: map<K, V>, init: seq<Op<K, V>>, last: Op<K, V>)
    ensures Accepted(t, init + [last]) <==> Accepted(t, init) && Enabled(Exec(t, init), last)
    ensures Exec(t, init + [last]) == Effect(Exec(t, init), last)
  {
    var ops := init + [last];
    assert ops[..|init|] == init && ops[|init|] == last;
    assert Exec(t, ops) == Effect(Exec(t, init), last);
    hide Exec, Enabled, Effect;
    forall i | 0 <= i < |init| ensures ops[..i] == init[..i] && ops[i] == init[i] {
    }
    if Accepted(t, ops) {
      assert Enabled(Exec(t, ops[..|init|]), ops[|init|]);
      forall i | 0 <= i < |init| ensures Enabled(Exec(t, init[..i]), init[i]) {
        assert Enabled(Exec(t, ops[..i]), ops[i]);
      }
    }
    if Accepted(t, init) && Enabled(Exec(t, init), last) {
      forall i | 0 <= i < |ops| ensures Enabled(Exec(t, ops[..i]), ops[i]) {
        assert i < |init| ==> Enabled(Exec(t, init[..i]), init[i]);
      }
    }
  }

  /** A run splits at any point. */
  lemma {:induction false} ExecAppend<K, V>(t: map<K, V>, a: seq<Op<K, V>>, b: seq<Op<K, V>>)
    ensures Exec(t, a + b) == Exec(Exec(t, a), b)
    ensures Accepted(t, a + b) <==> Accepted(t, a) && Accepted(Exec(t, a), b)
    decreases |b|
  {
    if b == [] {
      assert a + b == a;
    } else {
      var init, last := b[..|b| - 1], b[|b| - 1];
      assert b == init + [last];
      assert a + b == (a + init) + [last];
      ExecAppend(t, a, init);
      AcceptedSnoc(t, a + init, last);
      AcceptedSnoc(Exec(t, a), init, last);
    }
  }

  /** A key that no operation names keeps its entry. */
  lemma {:induction false} Untouched<K, V>(t: map<K, V>, ops: seq<Op<K, V>>, k: K)
    requires !Touches(ops, k)
    ensures SameAt(t, Exec(t, ops), k)
    decreases |ops|
  {
    if ops != [] {
      var init, last := ops[..|ops| - 1], ops[|ops| - 1];
      assert forall i :: 0 <= i < |init| ==> init[i] == ops[i];
      Untouched(t, init, k);
      EffectLocal(Exec(t, init), last);
    }
  }

  ghost predicate Sets<K, V>(ops: seq<Op<K, V>>, k: K, v: V) {
    exists i :: 0 <= i < |ops| && ops[i].key == k && !ops[i].Del? && ops[i].val == v
  }

  /** An entry is in the table because it was there or because an operation set it. */
  lemma {:induction false} ExecEntries<K, V>(t: map<K, V>, ops: seq<Op<K, V>>, k: K)
    requires k in Exec(t, ops)
    ensures (k in t && Exec(t, ops)[k] == t[k]) || Sets(ops, k, Exec(t, ops)[k])
    decreases |ops|
  {
    if ops != [] {
      var init, last := ops[..|ops| - 1], ops[|ops| - 1];
      if last.key == k {
        assert ops[|init|].key == k;
      } else {
        EffectLocal(Exec(t, init), last);
        assert SameAt(Exec(t, init), Exec(t, ops), k);
        ExecEntries(t, init, k);
        if Sets(init, k, Exec(t, ops)[k]) {
          var i :| 0 <= i < |init| && init[i].key == k && !init[i].Del? && init[i].val == Exec(t, ops)[k];
          assert ops[i].key == k;
        }
      }
    }
  }

  lemma PrefixExec<K, V>(t: map<K, V>, a: seq<Op<K, V>>, b: seq<Op<K, V>>, n: nat)
    requires n <= |b|
    ensures Exec(t, (a + b)[..|a| + n]) == Exec(Exec(t, a), b[..n])
  {
    assert (a + b)[..|a| + n] == a + b[..n];
    ExecAppend(t, a, b[..n]);
  }

  /** `u` is what `t` becomes when a run of `ops` stops after `n` accepted operations. */
  ghost predicate Stopped<K, V>(t: map<K, V>, u: map<K, V>, ops: seq<Op<K, V>>, n: nat) {
    n <= |ops| && Accepted(t, ops[..n]) && u == Exec(t, ops[..n])
  }

  /** `t` holds exactly the expected entries, each at its key. */
  ghost predicate Exactly<K, V>(t: map<K, V>, expected: seq<V>, key: V -> K) {
    && (forall v :: v in expected ==> key(v) in t && t[key(v)] == v)
    && (forall k :: k in t ==> t[k] in expected && key(t[k]) == k)
  }

  /** The same expected entries, in any order, leave no freedom. */
  lemma ExactlyUnique<K, V>(t: map<K, V>, u: map<K, V>, e: seq<V>, f: seq<V>, key: V -> K)
    requires Exactly(t, e, key) && Exactly(u, f, key)
    requires forall v :: v in e <==> v in f
    ensures t == u
  {
    assert forall k :: k in t ==> k in u && u[k] == t[k];
    assert forall k :: k in u ==> k in t;
  }

  /** One kernel table.  A reliable one refuses an operation only for its key. */
  class Table<K(==), V(==)> {
    var entries: map<K, V>
    const reliable: bool

    constructor (entries: map<K, V>, reliable: bool)
      ensures this.entries == entries && this.reliable == reliable
    {
      this.entries := entries;
      this.reliable := reliable;
    }

    method Apply(op: Op<K, V>) returns (ok: bool)
      modifies this
      ensures ok ==> Enabled(old(entries), op) && entries == Effect(old(entries), op)
      ensures !ok ==> entries == old(entries)
      ensures reliable ==> ok == Enabled(old(entries), op)
    {
      var fault: bool := *;
      if !Enabled(entries, op) || (fault && !reliable) {
        return false;
      }
      entries := Effect(entries, op);
      return true;
    }

    /** Applies the operations in order and stops at the first that fails. */
    method ApplyAll(ops: seq<Op<K, V>>) returns (ok: bool, ghost done: nat)
      modifies this
      ensures done <= |ops| && (ok <==> done == |ops|)
      ensures Accepted(old(entries), ops[..done]) && entries == Exec(old(entries), ops[..done])
      ensures reliable ==> ok == Accepted(old(entries), ops)
    {
      var i := 0;
      while i < |ops|
        invariant 0 <= i <= |ops|
        invariant Accepted(old(entries), ops[..i]) && entries == Exec(old(entries), ops[..i])
      {
        var applied := Apply(ops[i]);
        if !applied {
          assert Exec(old(entries), ops[..i]) == entries;
          return false, i;
        }
        AcceptedSnoc(old(entries), ops[..i], ops[i]);
        assert ops[..i + 1] == ops[..i] + [ops[i]];
        i := i + 1;
      }
      assert ops[..i] == ops;
      return true, i;
    }
  }
}
