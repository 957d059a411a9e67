/** Sequence helpers shared by the model: duplicate freedom and order-preserving removal. */
module Seqs {

  /** No element occurs twice. */
  predicate NoDuplicates<T(==)>(s: seq<T>) {
    forall i, j :: 0 <= i < j < |s| ==> s[i] != s[j]
  }

  lemma NoDuplicatesSnoc<T>(s: seq<T>, x: T)
    ensures NoDuplicates(s) && x !in s ==> NoDuplicates(s + [x])
  {
  }

  lemma NoDuplicatesCons<T>(x: T, s: seq<T>)
    ensures NoDuplicates(s) && x !in s ==> NoDuplicates([x] + s)
  {
  }

  /** A sequence without members is empty. */
  lemma NoMembersEmpty<T>(s: seq<T>)
    ensures (forall x :: x !in s) ==> s == []
  {
    if s != [] {
      assert s[0] in s;
    }
  }

  /** The elements of `s` that are not in `excluded`, in their original order. */
  function Without(s: seq<string>, excluded: set<string>): (r: seq<string>)
    ensures |r| <= |s|
    ensures forall x :: x in r <==> x in s && x !in excluded
    decreases |s|
  {
    if s == [] then []
    else if s[0] in excluded then Without(s[1..], excluded)
    else [s[0]] + Without(s[1..], excluded)
  }

  /** Removing elements keeps a duplicate-free sequence duplicate free. */
  lemma {:induction false} WithoutNoDuplicates(s: seq<string>, excluded: set<string>)
    ensures NoDuplicates(s) ==> NoDuplicates(Without(s, excluded))
    decreases |s|
  {
    if s != [] && NoDuplicates(s) {
      WithoutNoDuplicates(s[1..], excluded);
      NoDuplicatesCons(s[0], Without(s[1..], excluded));
    }
  }

  /** Removing one set and then another is removing their union. */
  lemma {:induction false} WithoutWithout(s: seq<string>, a: set<string>, b: set<string>)
    ensures Without(Without(s, a), b) == Without(s, a + b)
    decreases |s|
  {
    if s != [] {
      WithoutWithout(s[1..], a, b);
    }
  }

  /** Removing elements that do not occur changes nothing. */
  lemma {:induction false} WithoutAbsent(s: seq<string>, excluded: set<string>)
    requires forall x :: x in s ==> x !in excluded
    ensures Without(s, excluded) == s
    decreases |s|
  {
    if s != [] {
      assert forall x :: x in s[1..] ==> x in s;
      WithoutAbsent(s[1..], excluded);
    }
  }

  /** `Without` distributes over concatenation. */
  lemma {:induction false} WithoutAppend(a: seq<string>, b: seq<string>, excluded: set<string>)
    ensures Without(a + b, excluded) == Without(a, excluded) + Without(b, excluded)
    decreases |a|
  {
    if a == [] {
      assert a + b == b;
    } else {
      assert (a + b)[1..] == a[1..] + b;
      WithoutAppend(a[1..], b, excluded);
    }
  }
}
