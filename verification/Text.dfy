/** The few string operations of the source language that the modelled code relies on. */
module Text {
  import opened Options

  /** What both `\s` in a pattern and `trim` treat as white space. */
  predicate IsSpace(c: char) {
    || c in {' ', '\t', '\n', '\r', '\U{B}', '\U{C}', '\U{A0}', '\U{1680}', '\U{2028}', '\U{2029}'}
    || c in {'\U{202F}', '\U{205F}', '\U{3000}', '\U{FEFF}'}
    || '\U{2000}' <= c <= '\U{200A}'
  }

  /** How many white-space characters `s` opens with. */
  function LeadingSpace(s: string): (n: nat)
    ensures n <= |s|
    ensures forall i :: 0 <= i < n ==> IsSpace(s[i])
    ensures n < |s| ==> !IsSpace(s[n])
  {
    if s == [] || !IsSpace(s[0]) then 0 else 1 + LeadingSpace(s[1..])
  }

  function TrimStart(s: string): string {
    s[LeadingSpace(s)..]
  }

  function TrimEnd(s: string): (t: string)
    ensures |t| <= |s| && t == s[..|t|]
    ensures t != [] ==> !IsSpace(t[|t| - 1])
    ensures forall i :: |t| <= i < |s| ==> IsSpace(s[i])
  {
    if s == [] then []
    else if IsSpace(s[|s| - 1]) then TrimEnd(s[..|s| - 1])
    else s
  }

  function Trim(s: string): string {
    TrimEnd(TrimStart(s))
  }

  /** A string is already trimmed when neither end is white space. */
  predicate Trimmed(s: string) {
    s != [] ==> !IsSpace(s[0]) && !IsSpace(s[|s| - 1])
  }

  lemma TrimTrims(s: string)
    ensures Trimmed(Trim(s))
  {
    var t := TrimStart(s);
    if t != [] {
      assert t[0] == s[LeadingSpace(s)];
    }
  }

  lemma TrimKeepsTrimmed(s: string)
    requires Trimmed(s)
    ensures Trim(s) == s
  {
    assert LeadingSpace(s) == 0;
    assert TrimStart(s) == s;
  }

  lemma TrimIdempotent(s: string)
    ensures Trim(Trim(s)) == Trim(s)
  {
    TrimTrims(s);
    TrimKeepsTrimmed(Trim(s));
  }

  lemma SliceOfSlice<T>(s: seq<T>, lo: nat, hi: nat, a: nat, b: nat)
    requires lo <= hi <= |s| && a <= b <= hi - lo
    ensures s[lo..hi][a..b] == s[lo + a..lo + b]
  {
    var x, y := s[lo..hi][a..b], s[lo + a..lo + b];
    assert |x| == |y|;
    forall j | 0 <= j < |x|
      ensures x[j] == y[j]
    {
      assert x[j] == s[lo..hi][a + j];
      assert y[j] == s[lo + a + j];
    }
  }

  lemma CutInTwo<T>(s: seq<T>, i: nat)
    requires i <= |s|
    ensures s[..i] + s[i..] == s
  {
  }

  lemma TailOfConcat<T>(a: seq<T>, b: seq<T>)
    requires a != []
    ensures (a + b)[0] == a[0] && (a + b)[1..] == a[1..] + b
  {
  }

  lemma InitOfConcat<T>(a: seq<T>, b: seq<T>)
    requires b != []
    ensures (a + b)[..|a + b| - 1] == a + b[..|b| - 1] && (a + b)[|a + b| - 1] == b[|b| - 1]
  {
  }

  /** Two pieces put together can be taken apart again, in the second one too. */
  lemma PiecesOf<T>(a: seq<T>, b: seq<T>)
    ensures (a + b)[..|a|] == a && (a + b)[|a|..] == b
  {
  }

  lemma DropInto<T>(a: seq<T>, b: seq<T>, k: nat)
    requires k <= |b|
    ensures (a + b)[|a| + k..] == b[k..]
  {
  }

  lemma TakeInto<T>(a: seq<T>, b: seq<T>, k: nat)
    requires k <= |b|
    ensures (a + b)[..|a| + k] == a + b[..k]
  {
  }

  lemma SliceInto<T>(a: seq<T>, b: seq<T>, i: nat, j: nat)
    requires i <= j <= |b|
    ensures (a + b)[|a| + i..|a| + j] == b[i..j]
  {
  }

  lemma DropIsSlice<T>(s: seq<T>, lo: nat)
    requires lo <= |s|
    ensures s[lo..] == s[lo..|s|]
  {
  }

  lemma MiddlePiece(front: string, middle: string, back: string)
    requires back != ""
    ensures var t := front + middle + back;
            t[|front|..|front| + |middle|] == middle && t[|front| + |middle|] == back[0]
  {
  }

  lemma MiddleCharacter(front: string, middle: string, back: string, k: nat)
    requires k < |middle|
    ensures (front + middle + back)[|front| + k] == middle[k]
  {
  }

  /** `s` carries `piece` at `at`. */
  predicate HasAt(s: string, piece: string, at: int) {
    0 <= at && at + |piece| <= |s| && s[at..at + |piece|] == piece
  }

  /** The last occurrence of `piece` that starts at or before `at`. */
  function LastAt(s: string, piece: string, at: nat): (k: Option<nat>)
    ensures k.Some? ==> k.value <= at && HasAt(s, piece, k.value)
    ensures k.Some? ==> forall j :: k.value < j <= at ==> !HasAt(s, piece, j)
    ensures k.None? ==> forall j :: 0 <= j <= at ==> !HasAt(s, piece, j)
  {
    if HasAt(s, piece, at) then Some(at)
    else if at == 0 then None
    else LastAt(s, piece, at - 1)
  }

  /** `lastIndexOf` with a start position; a negative one is read as zero. */
  function LastIndexOf(s: string, piece: string, from: int): Option<nat> {
    LastAt(s, piece, if from < 0 then 0 else from)
  }

  /** `slice`: an upper bound below the lower one yields the empty string. */
  function Slice(s: string, lo: nat, hi: nat): string {
    var top := if hi <= |s| then hi else |s|;
    if lo <= top then s[lo..top] else ""
  }

  predicate StartsWith(s: string, prefix: string) {
    HasAt(s, prefix, 0)
  }

  predicate EndsWith(s: string, suffix: string) {
    HasAt(s, suffix, |s| - |suffix|)
  }

  /** Lower case for the letters the modelled code compares without case. */
  function Lower(c: char): char {
    if 'A' <= c <= 'Z' then c - 'A' + 'a' else c
  }

  function ToLower(s: string): (t: string)
    ensures |t| == |s|
    ensures forall i :: 0 <= i < |s| ==> t[i] == Lower(s[i])
  {
    if s == [] then [] else [Lower(s[0])] + ToLower(s[1..])
  }
}
