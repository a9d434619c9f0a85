/** The elements of a sequence that pass a test, and the first that does. */
module Filtering {
  function Filter<T>(s: seq<T>, keep: T -> bool): (out: seq<T>)
    ensures forall k :: 0 <= k < |out| ==> keep(out[k])
  {
    if s == [] then []
    else if keep(s[0]) then [s[0]] + Filter(s[1..], keep)
    else Filter(s[1..], keep)
  }

  /** `findIndex`, or the length when there is no hit. */
  function FirstIndex<T>(s: seq<T>, hit: T -> bool): (i: nat)
    ensures i <= |s|
    ensures forall j :: 0 <= j < i ==> !hit(s[j])
    ensures i < |s| ==> hit(s[i])
  {
    if s == [] || hit(s[0]) then 0 else 1 + FirstIndex(s[1..], hit)
  }

  lemma FirstIndexIs<T>(s: seq<T>, hit: T -> bool, i: nat)
    requires i <= |s| && (forall j :: 0 <= j < i ==> !hit(s[j])) && (i < |s| ==> hit(s[i]))
    ensures FirstIndex(s, hit) == i
  {
  }

  lemma {:induction false} FilterConcat<T>(a: seq<T>, b: seq<T>, keep: T -> bool)
    ensures Filter(a + b, keep) == Filter(a, keep) + Filter(b, keep)
  {
    if a == [] {
      assert a + b == b;
    } else {
      FilterConcat(a[1..], b, keep);
      assert (a + b)[1..] == a[1..] + b;
    }
  }

  lemma FilterOne<T>(x: T, keep: T -> bool)
    ensures Filter([x], keep) == if keep(x) then [x] else []
  {
    assert [x][1..] == [];
  }

  lemma FilterAround<T>(s: seq<T>, i: nat, x: T, keep: T -> bool)
    requires i < |s|
    ensures Filter(s[i := x], keep) == Filter(s[..i], keep) + Filter([x], keep) + Filter(s[i + 1..], keep)
  {
    assert s[i := x] == s[..i] + [x] + s[i + 1..];
    FilterConcat(s[..i] + [x], s[i + 1..], keep);
    FilterConcat(s[..i], [x], keep);
  }

  /** The first hit is the first hit among the elements that are kept, when every hit is kept. */
  lemma {:induction false} FirstInFilter<T(!new)>(s: seq<T>, keep: T -> bool, hit: T -> bool)
    requires forall x :: hit(x) ==> keep(x)
    ensures var i, kept := FirstIndex(s, hit), Filter(s, keep);
            && Filter(s[..i], keep) == kept[..FirstIndex(kept, hit)]
            && (i < |s| <==> FirstIndex(kept, hit) < |kept|)
            && (i < |s| ==> kept[FirstIndex(kept, hit)] == s[i])
  {
    var i, kept := FirstIndex(s, hit), Filter(s, keep);
    if i == |s| {
      assert s[..i] == s;
      FirstIndexIs(kept, hit, |kept|) by {
        NoHitKept(s, keep, hit);
      }
    } else {
      var before := Filter(s[..i], keep);
      assert s == s[i := s[i]];
      FilterAround(s, i, s[i], keep);
      FilterOne(s[i], keep);
      NoHitKept(s[..i], keep, hit);
      assert kept[|before|] == s[i];
      FirstIndexIs(kept, hit, |before|);
    }
  }

  lemma {:induction false} NoHitKept<T>(s: seq<T>, keep: T -> bool, hit: T -> bool)
    requires forall j :: 0 <= j < |s| ==> !hit(s[j])
    ensures forall j :: 0 <= j < |Filter(s, keep)| ==> !hit(Filter(s, keep)[j])
  {
    if s != [] {
      NoHitKept(s[1..], keep, hit);
    }
  }

  /** Replacing the first hit and then filtering is filtering and then replacing the first hit. */
  lemma ReplaceInFilter<T(!new)>(s: seq<T>, x: T, keep: T -> bool, hit: T -> bool)
    requires (forall y :: hit(y) ==> keep(y)) && keep(x)
    requires FirstIndex(s, hit) < |s|
    ensures FirstIndex(Filter(s, keep), hit) < |Filter(s, keep)|
    ensures Filter(s[FirstIndex(s, hit) := x], keep) == Filter(s, keep)[FirstIndex(Filter(s, keep), hit) := x]
  {
    var i := FirstIndex(s, hit);
    FirstInFilter(s, keep, hit);
    ReplaceKept(s, i, x, keep);
    assert |Filter(s[..i], keep)| == FirstIndex(Filter(s, keep), hit);
  }

  lemma ReplaceKept<T>(s: seq<T>, i: nat, x: T, keep: T -> bool)
    requires i < |s| && keep(s[i]) && keep(x)
    ensures |Filter(s[..i], keep)| < |Filter(s, keep)|
    ensures Filter(s[i := x], keep) == Filter(s, keep)[|Filter(s[..i], keep)| := x]
  {
    var a, b := Filter(s[..i], keep), Filter(s[i + 1..], keep);
    FilterOne(x, keep);
    FilterOne(s[i], keep);
    FilterAround(s, i, x, keep);
    FilterAround(s, i, s[i], keep);
    assert s[i := s[i]] == s;
    UpdateMiddle(a, s[i], b, x);
  }

  lemma UpdateMiddle<T>(a: seq<T>, was: T, b: seq<T>, x: T)
    ensures (a + [was] + b)[|a| := x] == a + [x] + b
  {
  }

  /** Replacing something that is not kept by something that is not kept either changes nothing that is. */
  lemma ReplaceDropped<T>(s: seq<T>, i: nat, x: T, keep: T -> bool)
    requires i < |s| && !keep(s[i]) && !keep(x)
    ensures Filter(s[i := x], keep) == Filter(s, keep)
  {
    FilterOne(x, keep);
    FilterOne(s[i], keep);
    FilterAround(s, i, x, keep);
    FilterAround(s, i, s[i], keep);
    assert s[i := s[i]] == s;
  }
}
