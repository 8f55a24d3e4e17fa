/** Facts about sequences as listings of sets. */
module Sequences {

  ghost predicate NoDuplicates<T>(s: seq<T>) {
    forall i, j :: 0 <= i < j < |s| ==> s[i] != s[j]
  }

  lemma EmptyOrMember<T>(s: seq<T>)
    ensures s == [] || exists x :: x in s
  {
    if s != [] {
      assert s[0] in s;
    }
  }

  /** Every finite set can be listed, each element once. */
  lemma {:induction false} Enumerate<T>(s: set<T>) returns (list: seq<T>)
    ensures NoDuplicates(list) && forall x :: x in list <==> x in s
  {
    if s == {} {
      return [];
    }
    var x :| x in s;
    var rest := Enumerate(s - {x});
    list := rest + [x];
    forall i | 0 <= i < |rest| ensures rest[i] != x {
      assert rest[i] in rest;
    }
  }

  /** Without duplicates, an element occurs once or never. */
  lemma {:induction false} CountsOfDistinct<T>(s: seq<T>)
    requires NoDuplicates(s)
    ensures forall x :: multiset(s)[x] == if x in s then 1 else 0
    decreases |s|
  {
    if s != [] {
      var init, last := s[..|s| - 1], s[|s| - 1];
      assert s == init + [last];
      CountsOfDistinct(init);
      assert last !in init;
    }
  }

  /** An element that occurs at two places is counted twice. */
  lemma DuplicateCounts<T>(s: seq<T>, i: nat, j: nat)
    requires i < j < |s| && s[i] == s[j]
    ensures 2 <= multiset(s)[s[j]]
  {
    assert s == s[..j] + s[j..];
    assert s[..j][i] == s[j] && s[j..][0] == s[j];
    assert s[j] in multiset(s[..j]) && s[j] in multiset(s[j..]);
  }

  /** A permutation of a sequence without duplicates has none either. */
  lemma PermutedDistinct<T>(s: seq<T>, t: seq<T>)
    requires multiset(s) == multiset(t) && NoDuplicates(s)
    ensures NoDuplicates(t)
  {
    CountsOfDistinct(s);
    forall i, j | 0 <= i < j < |t| ensures t[i] != t[j] {
      if t[i] == t[j] {
        DuplicateCounts(t, i, j);
      }
    }
  }

  lemma PermutedMembers<T>(s: seq<T>, t: seq<T>)
    requires multiset(s) == multiset(t)
    ensures forall x :: x in s <==> x in t
  {
    assert forall x :: x in s <==> x in multiset(s);
    assert forall x :: x in t <==> x in multiset(t);
  }

  /** Two listings of the same elements are permutations of each other. */
  lemma SameMembersPermuted<T>(s: seq<T>, t: seq<T>)
    requires NoDuplicates(s) && NoDuplicates(t) && forall x :: x in s <==> x in t
    ensures multiset(s) == multiset(t)
  {
    CountsOfDistinct(s);
    CountsOfDistinct(t);
    forall x ensures multiset(s)[x] == multiset(t)[x] {
    }
  }
}
