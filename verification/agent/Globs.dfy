/**
 The exclusion patterns: what a glob says, and the two-pointer loop that decides it and goes back to the last `*`
 only. Both sides are compared in lower case.
 */
module Globs {
  import opened Text

  // ----- what a glob says -----

  /** From `p` on the glob describes the value from `s` on: `*` stands for any run of characters, `?` for any one. */
  predicate Describes(glob: string, p: nat, value: string, s: nat)
    requires p <= |glob| && s <= |value|
    decreases |glob| - p, 1
  {
    if p == |glob| then s == |value|
    else if glob[p] == '*' then exists k :: s <= k <= |value| && Behind(glob, p, value, k)
    else s < |value| && Fits(glob[p], value[s]) && Describes(glob, p + 1, value, s + 1)
  }

  /** What follows the character at `p` describes the value from `k` on. */
  predicate Behind(glob: string, p: nat, value: string, k: nat)
    requires p < |glob| && k <= |value|
    decreases |glob| - p, 0
  {
    Describes(glob, p + 1, value, k)
  }

  predicate Fits(c: char, d: char) {
    c == '?' || c == d
  }

  predicate OnlyStars(glob: string, p: nat) {
    forall j :: p <= j < |glob| ==> glob[j] == '*'
  }

  /** The glob describes the value, in any case. */
  predicate Says(glob: string, value: string) {
    Describes(ToLower(glob), 0, ToLower(value), 0)
  }

  // ----- what the loop computes -----

  /** The last `*` that was passed, and where the run of characters it stands for ends. */
  datatype Star = NoStar | Star(at: nat, end: nat)

  predicate IsPlace(glob: string, value: string, p: nat, s: nat, star: Star) {
    && p <= |glob| && s <= |value|
    && (star.Star? ==> star.at < p && glob[star.at] == '*' && star.end <= s)
  }

  /** The loop from a place on: a character that fits comes before a `*`, and a `*` before going back. */
  predicate Walk(glob: string, value: string, p: nat, s: nat, star: Star)
    requires IsPlace(glob, value, p, s, star)
    decreases if star.Star? then |value| - star.end else |value| + 1,
              if star.Star? then |glob| - star.at else |glob| + 1,
              |glob| - p
  {
    if s == |value| then OnlyStars(glob, p)
    else if p < |glob| && Fits(glob[p], value[s]) then Walk(glob, value, p + 1, s + 1, star)
    else if p < |glob| && glob[p] == '*' then Walk(glob, value, p + 1, s, Star(p, s))
    else if star.Star? then Walk(glob, value, star.at + 1, star.end + 1, Star(star.at, star.end + 1))
    else false
  }

  predicate Matches(glob: string, value: string) {
    Walk(ToLower(glob), ToLower(value), 0, 0, NoStar)
  }

  /** The two pointers over a pattern and a subject that are both in lower case already. */
  method TwoPointers(pattern: string, subject: string) returns (matches: bool)
    ensures matches == Walk(pattern, subject, 0, 0, NoStar)
  {
    var p, s := 0, 0;
    var starP, starS := -1, 0;
    ghost var star := NoStar;
    ghost var answer := Walk(pattern, subject, 0, 0, NoStar);
    while s < |subject|
      invariant IsPlace(pattern, subject, p, s, star)
      invariant star == if starP == -1 then NoStar else Star(starP, starS)
      invariant Walk(pattern, subject, p, s, star) == answer
      decreases if star.Star? then |subject| - star.end else |subject| + 1,
                if star.Star? then |pattern| - star.at else |pattern| + 1,
                |pattern| - p
    {
      if p < |pattern| && (pattern[p] == '?' || pattern[p] == subject[s]) {
        p, s := p + 1, s + 1;
      } else if p < |pattern| && pattern[p] == '*' {
        star := Star(p, s);
        starP, starS := p, s;
        p := p + 1;
      } else if starP != -1 {
        star := Star(star.at, star.end + 1);
        p, starS := starP + 1, starS + 1;
        s := starS;
      } else {
        return false;
      }
    }
    while p < |pattern| && pattern[p] == '*'
      invariant p <= |pattern| && OnlyStars(pattern, p) == answer
    {
      p := p + 1;
    }
    return p == |pattern|;
  }

  method GlobMatches(glob: string, value: string) returns (matches: bool)
    ensures matches == Matches(glob, value)
  {
    matches := TwoPointers(ToLower(glob), ToLower(value));
  }

  // ----- a match is always right -----

  lemma {:induction false} StarsDescribeNothing(glob: string, p: nat, value: string)
    requires p <= |glob|
    ensures Describes(glob, p, value, |value|) <==> OnlyStars(glob, p)
    decreases |glob| - p
  {
    if p < |glob| {
      StarsDescribeNothing(glob, p + 1, value);
      if glob[p] == '*' {
        assert Describes(glob, p, value, |value|) <==> Behind(glob, p, value, |value|);
      }
    }
  }

  /** Where the loop says yes, the glob describes the rest from here or from the last `*`. */
  lemma {:induction false} WalkIsSound(glob: string, value: string, p: nat, s: nat, star: Star)
    requires IsPlace(glob, value, p, s, star) && Walk(glob, value, p, s, star)
    ensures Describes(glob, p, value, s) || (star.Star? && Describes(glob, star.at, value, star.end))
    decreases if star.Star? then |value| - star.end else |value| + 1,
              if star.Star? then |glob| - star.at else |glob| + 1,
              |glob| - p
  {
    if s == |value| {
      StarsDescribeNothing(glob, p, value);
    } else if p < |glob| && Fits(glob[p], value[s]) {
      WalkIsSound(glob, value, p + 1, s + 1, star);
      if Describes(glob, p + 1, value, s + 1) {
        assert Behind(glob, p, value, s + 1);
      }
    } else if p < |glob| && glob[p] == '*' {
      WalkIsSound(glob, value, p + 1, s, Star(p, s));
      if Describes(glob, p + 1, value, s) {
        assert Behind(glob, p, value, s);
      }
    } else {
      WalkIsSound(glob, value, star.at + 1, star.end + 1, Star(star.at, star.end + 1));
      if Describes(glob, star.at + 1, value, star.end + 1) {
        assert Behind(glob, star.at, value, star.end + 1);
      }
    }
  }

  // ----- and where the value holds no `*`, it is never missed -----

  /** From `a` to `p` the glob has no `*` and fits the value from `k` on. */
  predicate FitsFrom(glob: string, a: nat, p: nat, value: string, k: nat) {
    && a <= p <= |glob| && k + (p - a) <= |value|
    && forall j :: a <= j < p ==> glob[j] != '*' && Fits(glob[j], value[k + j - a])
  }

  predicate NoStarIn(glob: string, a: nat, p: nat) {
    a <= p <= |glob| && forall j :: a <= j < p ==> glob[j] != '*'
  }

  /** A stretch without a `*` takes as many characters as it has. */
  lemma {:induction false} Stretch(glob: string, a: nat, p: nat, value: string, k: nat)
    requires NoStarIn(glob, a, p) && k <= |value| && Describes(glob, a, value, k)
    ensures k + (p - a) <= |value| && Describes(glob, p, value, k + (p - a))
    decreases p - a
  {
    if a < p {
      Stretch(glob, a + 1, p, value, k + 1);
    }
  }

  lemma {:induction false} StretchBack(glob: string, a: nat, p: nat, value: string, k: nat)
    requires FitsFrom(glob, a, p, value, k) && Describes(glob, p, value, k + (p - a))
    ensures Describes(glob, a, value, k)
    decreases p - a
  {
    if a < p {
      StretchBack(glob, a + 1, p, value, k + 1);
    }
  }

  lemma StarTakes(glob: string, p: nat, value: string, s: nat) returns (k: nat)
    requires p < |glob| && glob[p] == '*' && s <= |value| && Describes(glob, p, value, s)
    ensures s <= k <= |value| && Describes(glob, p + 1, value, k)
  {
    k :| s <= k <= |value| && Behind(glob, p, value, k);
  }

  lemma StarTakesMore(glob: string, p: nat, value: string, s: nat, k: nat)
    requires p < |glob| && glob[p] == '*' && s <= k <= |value| && Describes(glob, p, value, k)
    ensures Describes(glob, p, value, s)
  {
    var e := StarTakes(glob, p, value, k);
    assert Behind(glob, p, value, e);
  }

  /** What was matched since the last `*`, and that `*` itself. */
  predicate SinceStar(glob: string, value: string, p: nat, s: nat, star: Star) {
    star.Star? ==> FitsFrom(glob, star.at + 1, p, value, star.end) && s == star.end + (p - star.at - 1)
  }

  /** What is still to be decided: the rest from here, or from the last `*` where there is one. */
  predicate Open(glob: string, value: string, p: nat, s: nat, star: Star)
    requires IsPlace(glob, value, p, s, star)
  {
    if star.Star? then Describes(glob, star.at, value, star.end) else Describes(glob, p, value, s)
  }

  lemma AtTheEnd(glob: string, value: string, p: nat, star: Star)
    requires IsPlace(glob, value, p, |value|, star) && SinceStar(glob, value, p, |value|, star)
    ensures Open(glob, value, p, |value|, star) <==> OnlyStars(glob, p)
  {
    StarsDescribeNothing(glob, p, value);
    if star.Star? && Open(glob, value, p, |value|, star) {
      var k := StarTakes(glob, star.at, value, star.end);
      Stretch(glob, star.at + 1, p, value, k);
    }
    if star.Star? && OnlyStars(glob, p) {
      StretchBack(glob, star.at + 1, p, value, star.end);
      assert Behind(glob, star.at, value, star.end);
    }
  }

  /** A second `*` can take over from the first: going back further would never help. */
  lemma LastStarIsEnough(glob: string, value: string, p: nat, s: nat, star: Star)
    requires IsPlace(glob, value, p, s, star) && SinceStar(glob, value, p, s, star)
    requires star.Star? && p < |glob| && glob[p] == '*'
    ensures Open(glob, value, p, s, star) <==> Describes(glob, p, value, s)
  {
    if Open(glob, value, p, s, star) {
      var k := StarTakes(glob, star.at, value, star.end);
      Stretch(glob, star.at + 1, p, value, k);
      StarTakesMore(glob, p, value, s, k + (p - star.at - 1));
    }
    if Describes(glob, p, value, s) {
      StretchBack(glob, star.at + 1, p, value, star.end);
      assert Behind(glob, star.at, value, star.end);
    }
  }

  /** Where nothing fits here, the last `*` has to take one character more. */
  lemma StarGoesOn(glob: string, value: string, p: nat, s: nat, star: Star)
    requires IsPlace(glob, value, p, s, star) && SinceStar(glob, value, p, s, star) && star.Star? && s < |value|
    requires p < |glob| ==> glob[p] != '*' && !Fits(glob[p], value[s])
    ensures Describes(glob, star.at, value, star.end) <==> Describes(glob, star.at, value, star.end + 1)
  {
    if Describes(glob, star.at, value, star.end) {
      var k := StarTakes(glob, star.at, value, star.end);
      if k == star.end {
        Stretch(glob, star.at + 1, p, value, k);
      }
      assert Behind(glob, star.at, value, k);
    }
    if Describes(glob, star.at, value, star.end + 1) {
      StarTakesMore(glob, star.at, value, star.end, star.end + 1);
    }
  }

  lemma {:induction false} WalkDecides(glob: string, value: string, p: nat, s: nat, star: Star)
    requires '*' !in value && IsPlace(glob, value, p, s, star) && SinceStar(glob, value, p, s, star)
    ensures Walk(glob, value, p, s, star) <==> Open(glob, value, p, s, star)
    decreases if star.Star? then |value| - star.end else |value| + 1,
              if star.Star? then |glob| - star.at else |glob| + 1,
              |glob| - p
  {
    if s == |value| {
      AtTheEnd(glob, value, p, star);
    } else if p < |glob| && Fits(glob[p], value[s]) {
      WalkDecides(glob, value, p + 1, s + 1, star);
    } else if p < |glob| && glob[p] == '*' {
      WalkDecides(glob, value, p + 1, s, Star(p, s));
      if star.Star? {
        LastStarIsEnough(glob, value, p, s, star);
      }
    } else if star.Star? {
      WalkDecides(glob, value, star.at + 1, star.end + 1, Star(star.at, star.end + 1));
      StarGoesOn(glob, value, p, s, star);
    }
  }

  lemma LowerKeepsStar(value: string, i: nat)
    requires i < |value|
    ensures ToLower(value)[i] == '*' <==> value[i] == '*'
  {
  }

  lemma LowerHasStar(value: string)
    ensures '*' in ToLower(value) <==> '*' in value
  {
    if '*' in value {
      var i :| 0 <= i < |value| && value[i] == '*';
      LowerKeepsStar(value, i);
    }
    if '*' in ToLower(value) {
      var i :| 0 <= i < |value| && ToLower(value)[i] == '*';
      LowerKeepsStar(value, i);
    }
  }

  /** A match is always what the glob says; for a value without a `*` so is the lack of one. */
  lemma MatchesIsRight(glob: string, value: string)
    ensures Matches(glob, value) ==> Says(glob, value)
    ensures '*' !in value ==> (Matches(glob, value) <==> Says(glob, value))
  {
    if Matches(glob, value) {
      WalkIsSound(ToLower(glob), ToLower(value), 0, 0, NoStar);
    }
    if '*' !in value {
      LowerHasStar(value);
      WalkDecides(ToLower(glob), ToLower(value), 0, 0, NoStar);
    }
  }

  // ----- a `*` in the value is taken for the one in the glob -----

  /** As many `?` as there are characters, and a `*` in front of the one at `i`. */
  function Around(n: nat, i: nat): (glob: string)
    ensures |glob| == n + 1
    ensures forall j :: 0 <= j <= n ==> glob[j] == if j == i then '*' else '?'
  {
    seq(n + 1, j => if j == i then '*' else '?')
  }

  lemma LowerAround(n: nat, i: nat)
    ensures ToLower(Around(n, i)) == Around(n, i)
  {
  }

  /** The loop takes the `*` of the value for the one of the glob, and is left with one `?` too many. */
  lemma {:induction false} WalkMisses(value: string, i: nat, j: nat)
    requires i < |value| && value[i] == '*' && j <= |value|
    ensures !Walk(Around(|value|, i), value, j, j, NoStar)
    decreases |value| - j
  {
    var glob := Around(|value|, i);
    if j < |value| {
      assert Fits(glob[j], value[j]);
      WalkMisses(value, i, j + 1);
    } else {
      assert glob[j] == '?';
    }
  }

  lemma {:induction false} AroundDescribes(value: string, i: nat, j: nat)
    requires i < |value| && j <= |value| + 1
    ensures var s := if j <= i then j else j - 1; Describes(Around(|value|, i), j, value, s)
    decreases |value| + 1 - j
  {
    if j <= |value| {
      AroundDescribes(value, i, j + 1);
      if j == i {
        assert Behind(Around(|value|, i), j, value, j);
      }
    }
  }

  /** The loop decides every glob for a value, if and only if the value holds no `*`. */
  lemma LoopIsExactIff(value: string)
    ensures (forall glob :: Matches(glob, value) <==> Says(glob, value)) <==> '*' !in value
  {
    if '*' !in value {
      forall glob ensures Matches(glob, value) <==> Says(glob, value) {
        MatchesIsRight(glob, value);
      }
    } else {
      var i :| 0 <= i < |value| && value[i] == '*';
      var glob := Around(|value|, i);
      LowerAround(|value|, i);
      LowerKeepsStar(value, i);
      WalkMisses(ToLower(value), i, 0);
      AroundDescribes(ToLower(value), i, 0);
      assert Says(glob, value) && !Matches(glob, value);
    }
  }

  // ----- globs without wildcards -----

  predicate IsPlainGlob(glob: string) {
    '*' !in glob && '?' !in glob
  }

  lemma {:induction false} PlainDescribes(glob: string, p: nat, value: string, s: nat)
    requires IsPlainGlob(glob) && p <= |glob| && s <= |value|
    ensures Describes(glob, p, value, s) <==> glob[p..] == value[s..]
    decreases |glob| - p
  {
    if p < |glob| {
      if s < |value| {
        PlainDescribes(glob, p + 1, value, s + 1);
        assert glob[p..] == [glob[p]] + glob[p + 1..] && value[s..] == [value[s]] + value[s + 1..];
      }
    }
  }

  lemma LowerIsPlain(glob: string)
    requires IsPlainGlob(glob)
    ensures IsPlainGlob(ToLower(glob))
  {
    var lower := ToLower(glob);
    forall i | 0 <= i < |lower| ensures lower[i] != '*' && lower[i] != '?' {
      assert lower[i] == Lower(glob[i]) && glob[i] in glob;
    }
  }

  /** Without wildcards a glob matches the one name it spells, in any case. */
  lemma PlainMatchesIff(glob: string, value: string)
    requires IsPlainGlob(glob)
    ensures Matches(glob, value) <==> ToLower(glob) == ToLower(value)
  {
    var g, v := ToLower(glob), ToLower(value);
    LowerIsPlain(glob);
    PlainDescribes(g, 0, v, 0);
    assert g[0..] == g && v[0..] == v;
    MatchesIsRight(glob, value);
    if g == v {
      LowerHasStar(value);
    }
  }

  /** The one `*` matches every value without one. */
  lemma StarMatches(value: string)
    requires '*' !in value
    ensures Matches("*", value)
  {
    var v := ToLower(value);
    MatchesIsRight("*", value);
    assert ToLower("*") == "*";
    assert Behind("*", 0, v, |v|);
  }

  predicate MatchesAny(globs: seq<string>, value: string) {
    exists g :: g in globs && Matches(g, value)
  }
}
