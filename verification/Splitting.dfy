/** `split` and `join` on a one-character separator. */
module Splitting {
  /** The first position of `c`, or the length when it does not occur. */
  function IndexOf(s: string, c: char): (i: nat)
    ensures i <= |s|
    ensures forall j :: 0 <= j < i ==> s[j] != c
    ensures i < |s| ==> s[i] == c
  {
    if s == [] || s[0] == c then 0 else 1 + IndexOf(s[1..], c)
  }

  lemma IndexOfIs(s: string, c: char, i: nat)
    requires i <= |s| && (i < |s| ==> s[i] == c) && forall j :: 0 <= j < i ==> s[j] != c
    ensures IndexOf(s, c) == i
  {
  }

  function Split(s: string, sep: char): (parts: seq<string>)
    ensures |parts| >= 1
    decreases |s|
  {
    var i := IndexOf(s, sep);
    if i == |s| then [s] else [s[..i]] + Split(s[i + 1..], sep)
  }

  function Join(parts: seq<string>, sep: char): string
    requires parts != []
  {
    if |parts| == 1 then parts[0] else parts[0] + [sep] + Join(parts[1..], sep)
  }

  lemma {:induction false} SplitHasNoSeparator(s: string, sep: char)
    ensures forall p :: p in Split(s, sep) ==> sep !in p
    decreases |s|
  {
    var i := IndexOf(s, sep);
    if i < |s| {
      SplitHasNoSeparator(s[i + 1..], sep);
    }
  }

  lemma {:induction false} JoinSplit(s: string, sep: char)
    ensures Join(Split(s, sep), sep) == s
    decreases |s|
  {
    var i := IndexOf(s, sep);
    if i < |s| {
      JoinSplit(s[i + 1..], sep);
      JoinFirst(s[..i], Split(s[i + 1..], sep), sep);
      CutAround(s, i, sep);
    }
  }

  lemma JoinFirst(first: string, rest: seq<string>, sep: char)
    requires rest != []
    ensures Join([first] + rest, sep) == first + [sep] + Join(rest, sep)
  {
    assert ([first] + rest)[1..] == rest;
  }

  lemma CutAround(s: string, i: nat, sep: char)
    requires i < |s| && s[i] == sep
    ensures s == s[..i] + [sep] + s[i + 1..]
  {
  }

  lemma SplitAt(s: string, i: nat, sep: char)
    requires i < |s| && s[i] == sep
    requires forall j :: 0 <= j < i ==> s[j] != sep
    ensures Split(s, sep) == [s[..i]] + Split(s[i + 1..], sep)
  {
    assert IndexOf(s, sep) == i;
  }

  lemma SplitFirst(a: string, b: string, sep: char)
    requires forall j :: 0 <= j < |a| ==> a[j] != sep
    ensures Split(a + [sep] + b, sep) == [a] + Split(b, sep)
  {
    var all := a + [sep] + b;
    SplitAt(all, |a|, sep);
    assert all[..|a|] == a && all[|a| + 1..] == b;
  }

  lemma ConcatAssoc<T>(a: seq<T>, b: seq<T>, c: seq<T>)
    ensures a + (b + c) == (a + b) + c
  {
  }

  lemma CutInFront(a: string, i: nat, sep: char, b: string)
    requires i < |a| && a[i] == sep
    ensures a + [sep] + b == a[..i] + [sep] + (a[i + 1..] + [sep] + b)
  {
  }

  /** The pieces of two texts joined by one separator are the pieces of both, in order. */
  lemma {:induction false} SplitAround(a: string, b: string, sep: char)
    ensures Split(a + [sep] + b, sep) == Split(a, sep) + Split(b, sep)
    decreases |a|
  {
    var i := IndexOf(a, sep);
    if i == |a| {
      SplitFirst(a, b, sep);
    } else {
      var first, rest := a[..i], a[i + 1..];
      calc {
        Split(a + [sep] + b, sep);
        { CutInFront(a, i, sep, b); }
        Split(first + [sep] + (rest + [sep] + b), sep);
        { SplitFirst(first, rest + [sep] + b, sep); }
        [first] + Split(rest + [sep] + b, sep);
        { SplitAround(rest, b, sep); }
        [first] + (Split(rest, sep) + Split(b, sep));
        { ConcatAssoc([first], Split(rest, sep), Split(b, sep)); }
        ([first] + Split(rest, sep)) + Split(b, sep);
        Split(a, sep) + Split(b, sep);
      }
    }
  }

  lemma SplitWhole(s: string, sep: char)
    requires sep !in s
    ensures Split(s, sep) == [s]
  {
  }

  lemma {:induction false} SplitJoin(parts: seq<string>, sep: char)
    requires parts != [] && forall p :: p in parts ==> sep !in p
    ensures Split(Join(parts, sep), sep) == parts
  {
    var first, rest := parts[0], parts[1..];
    assert parts == [first] + rest;
    SplitWhole(first, sep);
    if |parts| > 1 {
      SplitJoin(rest, sep);
      JoinFirst(first, rest, sep);
      SplitAround(first, Join(rest, sep), sep);
    }
  }
}
