/**
 The three token patterns as patterns, and the scanner that matches them. A pattern is read twice: as the
 set of texts it describes (`Matches`, where a repeated part may take any number of characters), and as a
 scan that takes every run whole and never goes back (`End`). `ScanIsTheOnlyMatch` says they agree.
 */
module Patterns {
  import opened Options
  import opened Text

  datatype Class = Body | Space | Handle | Id

  predicate IsAlnum(c: char) {
    'a' <= c <= 'z' || 'A' <= c <= 'Z' || '0' <= c <= '9'
  }

  predicate In(cls: Class, c: char) {
    match cls
    case Body => c != '[' && c != ']'
    case Space => IsSpace(c)
    case Handle => IsAlnum(c) || c == '_' || c == '.' || c == '-'
    case Id => IsAlnum(c)
  }

  /** Two classes that share no character. */
  predicate Apart(a: Class, b: Class) {
    (a.Space? && (b.Handle? || b.Id?)) || (b.Space? && (a.Handle? || a.Id?))
  }

  lemma ApartShareNothing(a: Class, b: Class, c: char)
    requires Apart(a, b) && In(a, c)
    ensures !In(b, c)
  {
  }

  predicate All(cls: Class, s: string) {
    forall k :: 0 <= k < |s| ==> In(cls, s[k])
  }

  datatype Pattern =
    | Done
    | One(c: char, rest: Pattern)
    | Word(word: string, rest: Pattern)
    | Star(cls: Class, rest: Pattern)
    | Plus(cls: Class, rest: Pattern)

  /** The whole of `t` is described by `p`. */
  ghost predicate Matches(p: Pattern, t: string)
    decreases p, 1
  {
    match p
    case Done => t == ""
    case One(c, rest) => t != "" && t[0] == c && Matches(rest, t[1..])
    case Word(word, rest) => |word| <= |t| && t[..|word|] == word && Matches(rest, t[|word|..])
    case Star(_, _) => exists n :: RunThen(p, t, n)
    case Plus(_, _) => exists n :: n > 0 && RunThen(p, t, n)
  }

  /** The repeated part takes the first `n` characters, and the rest of `p` describes the others. */
  ghost predicate RunThen(p: Pattern, t: string, n: int)
    requires p.Star? || p.Plus?
    decreases p, 0
  {
    0 <= n <= |t| && All(p.cls, t[..n]) && Matches(p.rest, t[n..])
  }

  /** The length of the longest run of `cls` that starts at `i`. */
  function Run(cls: Class, s: string, i: nat): (n: nat)
    requires i <= |s|
    ensures i + n <= |s|
    ensures forall k :: i <= k < i + n ==> In(cls, s[k])
    ensures i + n < |s| ==> !In(cls, s[i + n])
    decreases |s| - i
  {
    if i == |s| || !In(cls, s[i]) then 0 else 1 + Run(cls, s, i + 1)
  }

  /** Where the scan for `p` from `i` ends, if it succeeds. */
  function End(p: Pattern, s: string, i: nat): (e: Option<nat>)
    requires i <= |s|
    ensures e.Some? ==> i <= e.value <= |s|
    decreases p
  {
    match p
    case Done => Some(i)
    case One(c, rest) => if i < |s| && s[i] == c then End(rest, s, i + 1) else None
    case Word(word, rest) => if HasAt(s, word, i) then End(rest, s, i + |word|) else None
    case Star(cls, rest) => End(rest, s, i + Run(cls, s, i))
    case Plus(cls, rest) => if Run(cls, s, i) == 0 then None else End(rest, s, i + Run(cls, s, i))
  }

  /** Whatever `p` describes starts with a character outside `cls`. */
  predicate StartsOutside(p: Pattern, cls: Class) {
    match p
    case Done => false
    case One(c, _) => !In(cls, c)
    case Word(word, _) => word != "" && !In(cls, word[0])
    case Star(other, rest) => Apart(other, cls) && StartsOutside(rest, cls)
    case Plus(other, _) => Apart(other, cls)
  }

  /** Every repeated part is followed by a character it cannot take itself. */
  predicate Determinate(p: Pattern) {
    match p
    case Done => true
    case One(_, rest) => Determinate(rest)
    case Word(_, rest) => Determinate(rest)
    case Star(cls, rest) => StartsOutside(rest, cls) && Determinate(rest)
    case Plus(cls, rest) => StartsOutside(rest, cls) && Determinate(rest)
  }

  lemma {:induction false} StartOutside(p: Pattern, t: string, cls: Class)
    requires StartsOutside(p, cls) && Matches(p, t)
    ensures t != "" && !In(cls, t[0])
    decreases p
  {
    match p
    case One(_, _) =>
    case Word(word, _) =>
      assert t[..|word|][0] == t[0];
    case Star(other, rest) =>
      var n :| RunThen(p, t, n);
      if n == 0 {
        assert t[n..] == t;
        StartOutside(rest, t, cls);
      } else {
        assert In(other, t[..n][0]);
        ApartShareNothing(other, cls, t[0]);
      }
    case Plus(other, rest) =>
      var n :| n > 0 && RunThen(p, t, n);
      assert In(other, t[..n][0]);
      ApartShareNothing(other, cls, t[0]);
  }

  lemma RunIs(cls: Class, s: string, i: nat, n: nat)
    requires i + n < |s| && !In(cls, s[i + n])
    requires forall k :: i <= k < i + n ==> In(cls, s[k])
    ensures Run(cls, s, i) == n
  {
  }

  /** A run that the pattern takes, followed by what the rest describes, is the longest run. */
  lemma RunIsTheOnlyChoice(cls: Class, rest: Pattern, s: string, i: nat, e: nat, n: nat)
    requires i + n <= e <= |s| && StartsOutside(rest, cls)
    requires All(cls, s[i..e][..n]) && Matches(rest, s[i..e][n..])
    ensures Run(cls, s, i) == n && s[i..e][n..] == s[i + n..e]
  {
    StartOutside(rest, s[i..e][n..], cls);
    SliceOfSlice(s, i, e, n, e - i);
    assert s[i..e][n..] == s[i..e][n..e - i];
    assert s[i + n..e][0] == s[i + n];
    forall k | i <= k < i + n
      ensures In(cls, s[k])
    {
      assert s[i..e][..n][k - i] == s[k];
    }
    RunIs(cls, s, i, n);
  }

  lemma CutWord(word: string, s: string, i: nat, e: nat)
    requires i + |word| <= e <= |s|
    ensures s[i..e][..|word|] == s[i..i + |word|]
    ensures s[i..e][|word|..] == s[i + |word|..e]
  {
    SliceOfSlice(s, i, e, 0, |word|);
    SliceOfSlice(s, i, e, |word|, e - i);
    assert s[i..e][..|word|] == s[i..e][0..|word|];
    assert s[i..e][|word|..] == s[i..e][|word|..e - i];
  }

  lemma WordStep(word: string, rest: Pattern, s: string, i: nat, e: nat)
    requires i <= e <= |s|
    ensures Matches(Word(word, rest), s[i..e])
      <==> i + |word| <= e && HasAt(s, word, i) && Matches(rest, s[i + |word|..e])
  {
    if i + |word| <= e {
      CutWord(word, s, i, e);
    }
  }

  lemma OneStep(c: char, rest: Pattern, s: string, i: nat, e: nat)
    requires i <= e <= |s|
    ensures Matches(One(c, rest), s[i..e]) <==> i < e && s[i] == c && Matches(rest, s[i + 1..e])
  {
    if i < e {
      assert s[i..e][1..] == s[i + 1..e];
    }
  }

  lemma TakenRun(p: Pattern, t: string) returns (n: nat)
    requires (p.Star? || p.Plus?) && Matches(p, t)
    ensures n <= |t| && All(p.cls, t[..n]) && Matches(p.rest, t[n..]) && (p.Plus? ==> n > 0)
  {
    if p.Plus? {
      n :| n > 0 && RunThen(p, t, n);
    } else {
      n :| RunThen(p, t, n);
    }
  }

  // ----- texts of a given form -----

  lemma RunOf(p: Pattern, run: string, tail: string)
    requires (p.Star? || (p.Plus? && run != "")) && All(p.cls, run) && Matches(p.rest, tail)
    ensures Matches(p, run + tail)
  {
    var t := run + tail;
    assert t[..|run|] == run && t[|run|..] == tail;
    assert RunThen(p, t, |run|);
  }

  lemma WordOf(p: Pattern, tail: string)
    requires p.Word? && Matches(p.rest, tail)
    ensures Matches(p, p.word + tail)
  {
    var t := p.word + tail;
    assert t[..|p.word|] == p.word && t[|p.word|..] == tail;
  }

  lemma OneOf(p: Pattern, tail: string)
    requires p.One? && Matches(p.rest, tail)
    ensures Matches(p, [p.c] + tail)
  {
    assert ([p.c] + tail)[1..] == tail;
  }

  lemma TwiceOf(c: char, rest: Pattern, tail: string)
    requires Matches(rest, tail)
    ensures Matches(One(c, One(c, rest)), [c, c] + tail)
  {
    OneOf(One(c, rest), tail);
    OneOf(One(c, One(c, rest)), [c] + tail);
    assert [c, c] + tail == [c] + ([c] + tail);
  }

  lemma TwiceFirst(c: char, rest: Pattern, t: string)
    requires Matches(One(c, One(c, rest)), t)
    ensures |t| >= 2 && t == [c, c] + t[2..] && Matches(rest, t[2..])
  {
    assert t[1..][0] == t[1];
    assert t[1..][1..] == t[2..];
  }

  lemma TwiceOnly(c: char, t: string)
    ensures Matches(One(c, One(c, Done)), t) <==> t == [c, c]
  {
    if Matches(One(c, One(c, Done)), t) {
      TwiceFirst(c, Done, t);
    }
    TwiceOf(c, Done, "");
    assert [c, c] + "" == [c, c];
  }

  /** A run with something else behind it is found whole. */
  lemma RunInside(cls: Class, front: string, run: string, back: string)
    requires All(cls, run) && back != "" && !In(cls, back[0])
    ensures var t := front + run + back;
            Run(cls, t, |front|) == |run| && t[|front|..|front| + |run|] == run
  {
    var t := front + run + back;
    MiddlePiece(front, run, back);
    assert back[..1][0] == back[0];
    forall k | |front| <= k < |front| + |run| ensures In(cls, t[k]) {
      MiddleCharacter(front, run, back, k - |front|);
    }
    RunIs(cls, t, |front|, |run|);
  }

  /** How many characters the scan gives to the first part of `p`. */
  function Taken(p: Pattern, s: string, i: nat): (n: nat)
    requires !p.Done? && i <= |s|
  {
    match p
    case One(_, _) => 1
    case Word(word, _) => |word|
    case Star(cls, _) => Run(cls, s, i)
    case Plus(cls, _) => Run(cls, s, i)
  }

  lemma RunForth(p: Pattern, s: string, i: nat, e: nat)
    requires (p.Star? || p.Plus?) && Determinate(p) && i <= e <= |s| && Matches(p, s[i..e])
    ensures i + Taken(p, s, i) <= e && Matches(p.rest, s[i + Taken(p, s, i)..e])
    ensures End(p, s, i) == End(p.rest, s, i + Taken(p, s, i))
  {
    var n := TakenRun(p, s[i..e]);
    RunIsTheOnlyChoice(p.cls, p.rest, s, i, e, n);
    EndOfRun(p, s, i);
  }

  lemma EndOfRun(p: Pattern, s: string, i: nat)
    requires (p.Star? || (p.Plus? && i <= |s| && Run(p.cls, s, i) > 0)) && i <= |s|
    ensures End(p, s, i) == End(p.rest, s, i + Run(p.cls, s, i))
  {
  }

  lemma OneForth(p: Pattern, s: string, i: nat, e: nat)
    requires p.One? && i <= e <= |s| && Matches(p, s[i..e])
    ensures i + Taken(p, s, i) <= e && Matches(p.rest, s[i + Taken(p, s, i)..e])
    ensures End(p, s, i) == End(p.rest, s, i + Taken(p, s, i))
  {
    OneStep(p.c, p.rest, s, i, e);
  }

  lemma WordForth(p: Pattern, s: string, i: nat, e: nat)
    requires p.Word? && i <= e <= |s| && Matches(p, s[i..e])
    ensures i + Taken(p, s, i) <= e && Matches(p.rest, s[i + Taken(p, s, i)..e])
    ensures End(p, s, i) == End(p.rest, s, i + Taken(p, s, i))
  {
    WordStep(p.word, p.rest, s, i, e);
  }

  /** A text `p` describes starts with exactly what the scan gives to its first part. */
  lemma StepForth(p: Pattern, s: string, i: nat, e: nat)
    requires !p.Done? && Determinate(p) && i <= e <= |s| && Matches(p, s[i..e])
    ensures i + Taken(p, s, i) <= e && Matches(p.rest, s[i + Taken(p, s, i)..e])
    ensures End(p, s, i) == End(p.rest, s, i + Taken(p, s, i))
  {
    if p.One? {
      OneForth(p, s, i, e);
    } else if p.Word? {
      WordForth(p, s, i, e);
    } else {
      RunForth(p, s, i, e);
    }
  }

  lemma DoneEnds(s: string, i: nat, e: nat)
    requires i <= e <= |s| && Matches(Done, s[i..e])
    ensures End(Done, s, i) == Some(e)
  {
    assert |s[i..e]| == e - i;
  }

  lemma {:induction false} ScanFinds(p: Pattern, s: string, i: nat, e: nat)
    requires Determinate(p) && i <= e <= |s| && Matches(p, s[i..e])
    ensures End(p, s, i) == Some(e)
    decreases p
  {
    if p.Done? {
      DoneEnds(s, i, e);
    } else {
      StepForth(p, s, i, e);
      ScanFinds(p.rest, s, i + Taken(p, s, i), e);
    }
  }

  lemma RunStep(p: Pattern, s: string, i: nat, e: nat)
    requires (p.Star? || p.Plus?) && i <= |s| && i + Run(p.cls, s, i) <= e <= |s|
    requires Matches(p.rest, s[i + Run(p.cls, s, i)..e]) && (p.Plus? ==> Run(p.cls, s, i) > 0)
    ensures Matches(p, s[i..e])
  {
    var n := Run(p.cls, s, i);
    SliceOfSlice(s, i, e, n, e - i);
    assert s[i..e][n..] == s[i..e][n..e - i];
    forall k | 0 <= k < n
      ensures In(p.cls, s[i..e][..n][k])
    {
      assert s[i..e][..n][k] == s[i + k];
    }
    assert RunThen(p, s[i..e], n);
  }

  lemma EndStep(p: Pattern, s: string, i: nat)
    requires !p.Done? && i <= |s| && End(p, s, i).Some?
    ensures i + Taken(p, s, i) <= |s| && End(p, s, i) == End(p.rest, s, i + Taken(p, s, i))
  {
  }

  lemma OneBack(p: Pattern, s: string, i: nat, e: nat)
    requires p.One? && i < e <= |s| && s[i] == p.c && Matches(p.rest, s[i + 1..e])
    ensures Matches(p, s[i..e])
  {
    OneStep(p.c, p.rest, s, i, e);
  }

  lemma WordBack(p: Pattern, s: string, i: nat, e: nat)
    requires p.Word? && i + |p.word| <= e <= |s| && HasAt(s, p.word, i) && Matches(p.rest, s[i + |p.word|..e])
    ensures Matches(p, s[i..e])
  {
    WordStep(p.word, p.rest, s, i, e);
  }

  lemma StepBack(p: Pattern, s: string, i: nat, e: nat)
    requires !p.Done? && i <= |s| && End(p, s, i) == Some(e)
    requires i + Taken(p, s, i) <= e && Matches(p.rest, s[i + Taken(p, s, i)..e])
    ensures Matches(p, s[i..e])
  {
    if p.One? {
      OneBack(p, s, i, e);
    } else if p.Word? {
      WordBack(p, s, i, e);
    } else {
      RunStep(p, s, i, e);
    }
  }

  lemma {:induction false} ScanIsRight(p: Pattern, s: string, i: nat, e: nat)
    requires i <= |s| && End(p, s, i) == Some(e)
    ensures Matches(p, s[i..e])
    decreases p
  {
    if !p.Done? {
      EndStep(p, s, i);
      ScanIsRight(p.rest, s, i + Taken(p, s, i), e);
      StepBack(p, s, i, e);
    }
  }

  /** The scan finds a match exactly when there is one, and there is at most one from any position. */
  lemma ScanIsTheOnlyMatch(p: Pattern, s: string, i: nat, e: nat)
    requires Determinate(p) && i <= e <= |s|
    ensures End(p, s, i) == Some(e) <==> Matches(p, s[i..e])
  {
    if End(p, s, i) == Some(e) {
      ScanIsRight(p, s, i, e);
    }
    if Matches(p, s[i..e]) {
      ScanFinds(p, s, i, e);
    }
  }

  // ----- characters a pattern never takes -----

  ghost predicate Avoids(p: Pattern, c: char) {
    match p
    case Done => true
    case One(d, rest) => d != c && Avoids(rest, c)
    case Word(word, rest) => (forall k :: 0 <= k < |word| ==> word[k] != c) && Avoids(rest, c)
    case Star(cls, rest) => !In(cls, c) && Avoids(rest, c)
    case Plus(cls, rest) => !In(cls, c) && Avoids(rest, c)
  }

  lemma TakenAvoids(p: Pattern, c: char, s: string, i: nat, k: nat)
    requires !p.Done? && i <= |s| && End(p, s, i).Some? && Avoids(p, c) && i <= k < i + Taken(p, s, i)
    ensures k < |s| && s[k] != c
  {
    if p.Word? {
      assert s[k] == s[i..i + |p.word|][k - i];
    }
  }

  lemma {:induction false} ScanAvoids(p: Pattern, c: char, s: string, i: nat, e: nat, k: nat)
    requires i <= |s| && End(p, s, i) == Some(e) && Avoids(p, c) && i <= k < e
    ensures s[k] != c
    decreases p
  {
    EndStep(p, s, i);
    if k < i + Taken(p, s, i) {
      TakenAvoids(p, c, s, i, k);
    } else {
      ScanAvoids(p.rest, c, s, i + Taken(p, s, i), e, k);
    }
  }

  /** Cutting a text outside a match neither makes a match nor unmakes one. */
  lemma ScanInSlice(p: Pattern, s: string, lo: nat, hi: nat, i: nat, e: nat)
    requires Determinate(p) && lo <= i <= e <= hi <= |s|
    ensures End(p, s[lo..hi], i - lo) == Some(e - lo) <==> End(p, s, i) == Some(e)
  {
    ScanIsTheOnlyMatch(p, s, i, e);
    ScanIsTheOnlyMatch(p, s[lo..hi], i - lo, e - lo);
    SliceMatches(p, s, lo, hi, i, e);
  }

  lemma SliceMatches(p: Pattern, s: string, lo: nat, hi: nat, i: nat, e: nat)
    requires lo <= i <= e <= hi <= |s|
    ensures Matches(p, s[lo..hi][i - lo..e - lo]) <==> Matches(p, s[i..e])
  {
    SliceOfSlice(s, lo, hi, i - lo, e - lo);
  }

  predicate TakesSomething(p: Pattern) {
    match p
    case Done => false
    case One(_, _) => true
    case Word(word, rest) => word != "" || TakesSomething(rest)
    case Star(_, rest) => TakesSomething(rest)
    case Plus(_, _) => true
  }

  lemma {:induction false} ScanTakesSomething(p: Pattern, s: string, i: nat, e: nat)
    requires i <= |s| && End(p, s, i) == Some(e) && TakesSomething(p)
    ensures i < e
    decreases p
  {
    EndStep(p, s, i);
    if Taken(p, s, i) == 0 {
      ScanTakesSomething(p.rest, s, i, e);
    }
  }

  /** A pattern that opens with one or two copies of a character it never takes again. */
  ghost predicate OpensOnce(p: Pattern) {
    && p.One?
    && (Avoids(p.rest, p.c) || (p.rest.One? && p.rest.c == p.c && Avoids(p.rest.rest, p.c)))
    && (p.rest.One? ==> TakesSomething(p.rest.rest))
  }

  lemma NoOverlap(p: Pattern, s: string, i: nat, e: nat, j: nat)
    requires OpensOnce(p) && i <= |s| && End(p, s, i) == Some(e) && i < j < e
    ensures End(p, s, j) == None
  {
    if Avoids(p.rest, p.c) {
      ScanAvoids(p.rest, p.c, s, i + 1, e, j);
    } else if j == i + 1 {
      ScanTakesSomething(p.rest.rest, s, i + 2, e);
      ScanAvoids(p.rest.rest, p.c, s, i + 2, e, i + 2);
    } else {
      ScanAvoids(p.rest.rest, p.c, s, i + 2, e, j);
    }
  }
}
