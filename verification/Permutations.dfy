/** Sequences that list the same elements in different orders, and what mapping does to them. */
module Permutations {
  function RemoveAt<T>(s: seq<T>, j: nat): (r: seq<T>)
    requires j < |s|
    ensures |r| == |s| - 1
  {
    s[..j] + s[j + 1..]
  }

  function Map<S, T>(f: S -> T, s: seq<S>): (r: seq<T>)
    ensures |r| == |s|
    ensures forall i :: 0 <= i < |s| ==> r[i] == f(s[i])
  {
    seq(|s|, i requires 0 <= i < |s| => f(s[i]))
  }

  lemma MultisetRemoveAt<T>(s: seq<T>, j: nat)
    requires j < |s|
    ensures multiset(s) == multiset(RemoveAt(s, j)) + multiset{s[j]}
  {
    assert s == s[..j] + [s[j]] + s[j + 1..];
  }

  lemma SameMultisetSameLength<T>(a: seq<T>, b: seq<T>)
    requires multiset(a) == multiset(b)
    ensures |a| == |b|
  {
    assert |a| == |multiset(a)| && |b| == |multiset(b)|;
  }

  /** Taking the same element out of two sequences leaves permutations exactly when they were. */
  lemma RemoveSame<T>(a: seq<T>, i: nat, b: seq<T>, j: nat)
    requires i < |a| && j < |b| && a[i] == b[j]
    ensures multiset(RemoveAt(a, i)) == multiset(RemoveAt(b, j)) <==> multiset(a) == multiset(b)
  {
    MultisetRemoveAt(a, i);
    MultisetRemoveAt(b, j);
    var x, y := multiset(RemoveAt(a, i)), multiset(RemoveAt(b, j));
    if multiset(a) == multiset(b) {
      assert x == (x + multiset{a[i]}) - multiset{a[i]};
      assert y == (y + multiset{a[i]}) - multiset{a[i]};
    }
  }

  lemma MapRemoveAt<S, T>(f: S -> T, s: seq<S>, j: nat)
    requires j < |s|
    ensures Map(f, RemoveAt(s, j)) == RemoveAt(Map(f, s), j)
  {
  }

  /** Mapping permutations gives permutations. */
  lemma {:induction false} MapPermutes<S, T>(f: S -> T, a: seq<S>, b: seq<S>)
    requires multiset(a) == multiset(b)
    ensures multiset(Map(f, a)) == multiset(Map(f, b))
    decreases |a|
  {
    SameMultisetSameLength(a, b);
    if a != [] {
      assert a[0] in multiset(b);
      var j :| 0 <= j < |b| && b[j] == a[0];
      RemoveSame(a, 0, b, j);
      MapPermutes(f, RemoveAt(a, 0), RemoveAt(b, j));
      MapRemoveAt(f, a, 0);
      MapRemoveAt(f, b, j);
      RemoveSame(Map(f, a), 0, Map(f, b), j);
    }
  }

  lemma CountCons<T>(first: T, rest: seq<T>, x: T)
    ensures multiset([first] + rest)[x] == multiset(rest)[x] + if first == x then 1 else 0
  {
  }

  lemma MapCons<S, T>(f: S -> T, first: S, rest: seq<S>)
    ensures Map(f, [first] + rest) == [f(first)] + Map(f, rest)
  {
  }

  /** An image is listed as often as its source, when nothing else in the list has that image. */
  lemma {:induction false} MapCount<S, T>(f: S -> T, s: seq<S>, x: S)
    requires forall i :: 0 <= i < |s| && f(s[i]) == f(x) ==> s[i] == x
    ensures multiset(Map(f, s))[f(x)] == multiset(s)[x]
  {
    if s != [] {
      var first, rest := s[0], s[1..];
      assert s == [first] + rest;
      MapCount(f, rest, x);
      CountCons(first, rest, x);
      MapCons(f, first, rest);
      CountCons(f(first), Map(f, rest), f(x));
    }
  }
}
