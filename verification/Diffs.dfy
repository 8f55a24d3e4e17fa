/** What the reconcilers share: listings of kernel tables, indexes of lists, and their comparison. */
module Diffs {
  import opened Sequences
  import opened KernelTables

  /** The last entry of each key. */
  function IndexBy<L(==), V>(list: seq<V>, key: V -> L): map<L, V> {
    if list == [] then map[]
    else IndexBy(list[..|list| - 1], key)[key(list[|list| - 1]) := list[|list| - 1]]
  }

  ghost predicate DistinctBy<L, V>(list: seq<V>, key: V -> L) {
    forall i, j :: 0 <= i < j < |list| ==> key(list[i]) != key(list[j])
  }

  lemma {:induction false} IndexByMembers<L, V>(list: seq<V>, key: V -> L)
    ensures forall l :: l in IndexBy(list, key) ==> IndexBy(list, key)[l] in list && key(IndexBy(list, key)[l]) == l
    ensures forall v :: v in list ==> key(v) in IndexBy(list, key)
    decreases |list|
  {
    if list != [] {
      var init, last := list[..|list| - 1], list[|list| - 1];
      assert list == init + [last];
      IndexByMembers(init, key);
    }
  }

  lemma SameKeySameEntry<L, V>(list: seq<V>, key: V -> L, v: V, w: V)
    requires DistinctBy(list, key) && v in list && w in list && key(v) == key(w)
    ensures v == w
  {
    var i :| 0 <= i < |list| && list[i] == v;
    var j :| 0 <= j < |list| && list[j] == w;
  }

  /** With distinct keys the index forgets nothing. */
  lemma IndexByDistinct<L, V>(list: seq<V>, key: V -> L)
    requires DistinctBy(list, key)
    ensures forall v :: v in list <==> key(v) in IndexBy(list, key) && IndexBy(list, key)[key(v)] == v
  {
    IndexByMembers(list, key);
    forall v | v in list ensures IndexBy(list, key)[key(v)] == v {
      SameKeySameEntry(list, key, v, IndexBy(list, key)[key(v)]);
    }
  }

  method BuildIndex<L(==), V>(list: seq<V>, key: V -> L) returns (m: map<L, V>)
    ensures m == IndexBy(list, key)
  {
    m := map[];
    for i := 0 to |list|
      invariant m == IndexBy(list[..i], key)
    {
      assert list[..i + 1][..i] == list[..i];
      m := m[key(list[i]) := list[i]];
    }
    assert list[..|list|] == list;
  }

  /**
    Compares two indexes; Go iterates over its maps in an unspecified order, and so does this.
    The three results partition the keys that need work.
   */
  method Compare<L(==), V(==)>(actual: map<L, V>, expected: map<L, V>)
    returns (create: seq<L>, change: seq<L>, remove: seq<L>)
    ensures NoDuplicates(create) && NoDuplicates(change) && NoDuplicates(remove)
    ensures forall l :: l in create <==> l in expected && l !in actual
    ensures forall l :: l in change <==> l in expected && l in actual && actual[l] != expected[l]
    ensures forall l :: l in remove <==> l in actual && l !in expected
  {
    create, change, remove := [], [], [];
    var todo := expected.Keys;
    while todo != {}
      invariant todo <= expected.Keys
      invariant NoDuplicates(create) && NoDuplicates(change)
      invariant forall l :: l in create <==> l in expected && l !in actual && l !in todo
      invariant forall l :: l in change <==> l in expected && l in actual && actual[l] != expected[l] && l !in todo
    {
      var l :| l in todo;
      if l !in actual {
        create := create + [l];
      } else if actual[l] != expected[l] {
        change := change + [l];
      }
      todo := todo - {l};
    }
    todo := actual.Keys;
    while todo != {}
      invariant todo <= actual.Keys
      invariant NoDuplicates(remove)
      invariant forall l :: l in remove <==> l in actual && l !in expected && l !in todo
    {
      var l :| l in todo;
      if l !in expected {
        remove := remove + [l];
      }
      todo := todo - {l};
    }
  }

  /** `list` holds the entry of every key, once each; `keys` are the keys in the same order. */
  ghost predicate Listing<K, V>(list: seq<V>, keys: seq<K>, t: map<K, V>) {
    && |list| == |keys| && NoDuplicates(keys)
    && (forall i :: 0 <= i < |keys| ==> keys[i] in t && list[i] == t[keys[i]])
    && (forall k :: k in t ==> k in keys)
  }

  /** A netlink listing, in an order of the kernel's choosing. */
  method ListEntries<K(==), V>(t: map<K, V>) returns (list: seq<V>, ghost keys: seq<K>)
    ensures Listing(list, keys, t)
  {
    list, keys := [], [];
    var todo := t.Keys;
    while todo != {}
      invariant todo <= t.Keys
      invariant |list| == |keys| && NoDuplicates(keys)
      invariant forall i :: 0 <= i < |keys| ==> keys[i] in t && keys[i] !in todo && list[i] == t[keys[i]]
      invariant forall k :: k in t && k !in todo ==> k in keys
    {
      var k :| k in todo;
      list, keys := list + [t[k]], keys + [k];
      todo := todo - {k};
    }
  }

  lemma ListingMembers<K, V>(list: seq<V>, keys: seq<K>, t: map<K, V>)
    requires Listing(list, keys, t)
    ensures forall v :: v in list ==> exists k :: k in t && t[k] == v
    ensures forall k :: k in t ==> t[k] in list
  {
    forall k | k in t ensures t[k] in list {
      var i :| 0 <= i < |keys| && keys[i] == k;
      assert list[i] == t[k];
    }
  }
}
