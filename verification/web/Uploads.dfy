/**
 Concurrent image uploads in the editor: each puts a placeholder into the text and later has the first
 occurrence of that placeholder replaced, or removed. `Doc` remembers where the placeholders are; the editor
 only has the text.
 */
module Uploads {
  import opened Options
  import opened Text
  import opened Splitting

  /** `result` is the reference that a successful upload leaves, and nothing for one that fails. */
  datatype Upload = Upload(name: string, nonce: string, result: Option<string>)

  /** What a placeholder is made of around the name and the nonce, and which nonces are drawn. */
  datatype Format = Format(before: string, after: string, tag: string, draws: string -> bool)

  const TAG := "(uploading:"
  const ELLIPSIS := "\U{2026}"

  function English(draws: string -> bool): Format {
    Format("uploading ", ELLIPSIS, TAG, draws)
  }

  function Spanish(draws: string -> bool): Format {
    Format("subiendo ", ELLIPSIS, TAG, draws)
  }

  /** What stands between the name and the nonce. */
  function Stem(f: Format): string {
    f.after + "]" + f.tag
  }

  function Head(f: Format, u: Upload): string {
    "![" + f.before + u.name
  }

  function Placeholder(f: Format, u: Upload): string {
    Head(f, u) + Stem(f) + u.nonce + ")"
  }

  function Result(u: Upload): string {
    if u.result.Some? then u.result.value else ""
  }

  predicate IsPlain(s: string) {
    forall k :: 0 <= k < |s| ==> s[k] !in {'(', ')', '!', '[', ']'}
  }

  /** The tag opens with the only parenthesis there is, and nothing before the name looks like what follows it. */
  ghost predicate IsFormat(f: Format) {
    && IsPlain(f.after)
    && f.tag != "" && f.tag[0] == '(' && IsPlain(f.tag[1..])
    && Stem(f)[0] !in f.before
    && forall n :: f.draws(n) ==> IsPlain(n)
  }

  lemma TagIsPlain()
    ensures IsPlain(ELLIPSIS) && TAG[0] == '(' && IsPlain(TAG[1..])
  {
  }

  /** Any text of ASCII letters and spaces can stand in front of the name. */
  lemma LettersMakeAFormat(before: string, draws: string -> bool)
    requires forall k :: 0 <= k < |before| ==> before[k] == ' ' || 'a' <= before[k] <= 'z'
    requires forall n :: draws(n) ==> IsPlain(n)
    ensures IsFormat(Format(before, ELLIPSIS, TAG, draws))
  {
    TagIsPlain();
    assert Stem(Format(before, ELLIPSIS, TAG, draws))[0] == '\U{2026}';
  }

  /** Both languages of the editor have such a format, for every way of drawing plain nonces. */
  lemma EditorFormats(draws: string -> bool)
    requires forall n :: draws(n) ==> IsPlain(n)
    ensures IsFormat(English(draws)) && IsFormat(Spanish(draws))
  {
    LettersMakeAFormat("uploading ", draws);
    LettersMakeAFormat("subiendo ", draws);
  }

  /** The text with its placeholders: some text, then a placeholder, and so on. */
  datatype Doc = End(text: string) | Slot(text: string, upload: Upload, rest: Doc)

  function Show(f: Format, d: Doc): string {
    match d
    case End(text) => text
    case Slot(text, u, rest) => text + Placeholder(f, u) + Show(f, rest)
  }

  /** What is left when every upload has settled: each reference where its placeholder was. */
  function Finished(d: Doc): string {
    match d
    case End(text) => text
    case Slot(text, u, rest) => text + Result(u) + Finished(rest)
  }

  /** The text without the placeholders. */
  function Typed(d: Doc): string {
    match d
    case End(text) => text
    case Slot(text, _, rest) => text + Typed(rest)
  }

  function Pending(d: Doc): seq<Upload> {
    match d
    case End(_) => []
    case Slot(_, u, rest) => [u] + Pending(rest)
  }

  function Prepend(text: string, d: Doc): Doc {
    match d
    case End(t) => End(text + t)
    case Slot(t, u, rest) => Slot(text + t, u, rest)
  }

  /** The upload with this nonce has settled. */
  function Settle(d: Doc, nonce: string): Doc {
    match d
    case End(_) => d
    case Slot(text, u, rest) =>
      if u.nonce == nonce then Prepend(text + Result(u), rest) else Slot(text, u, Settle(rest, nonce))
  }

  // ----- what the editor does to the text -----

  /** Where `piece` first occurs, or the length when it does not. */
  function Find(s: string, piece: string, from: nat): (at: nat)
    requires from <= |s|
    ensures from <= at <= |s|
    ensures forall j :: from <= j < at ==> !HasAt(s, piece, j)
    ensures at < |s| ==> HasAt(s, piece, at)
    decreases |s| - from
  {
    if from == |s| || HasAt(s, piece, from) then from else Find(s, piece, from + 1)
  }

  /** `replace` with a text pattern: the first occurrence only. */
  function ReplaceFirst(s: string, piece: string, into: string): string {
    var at := Find(s, piece, 0);
    if at < |s| then s[..at] + into + s[at + |piece|..] else s
  }

  function InsertAt(s: string, caret: nat, piece: string): string {
    Slice(s, 0, caret) + piece + Slice(s, caret, |s|)
  }

  // ----- what keeps placeholders apart -----

  /** From `at` to `k` the text reads like the end of a placeholder: the stem, a nonce and a parenthesis. */
  ghost predicate MarkAt(f: Format, s: string, at: nat, k: nat) {
    && at + |Stem(f)| <= k < |s| && s[at..at + |Stem(f)|] == Stem(f)
    && f.draws(s[at + |Stem(f)|..k]) && s[k] == ')'
  }

  ghost predicate NoMark(f: Format, s: string) {
    forall at: nat, k: nat :: !MarkAt(f, s, at, k)
  }

  /** A name and a reference without a mark, and a nonce that is drawn. */
  ghost predicate Proper(f: Format, u: Upload) {
    NoMark(f, u.name) && f.draws(u.nonce) && (u.result.Some? ==> IsReference(f, u.result.value))
  }

  ghost predicate IsReference(f: Format, r: string) {
    r != "" && r[0] == '!' && r[|r| - 1] == ')' && NoMark(f, r)
  }

  /** Whatever has `u`'s nonce is `u`. */
  predicate Owns(us: seq<Upload>, u: Upload) {
    forall k :: 0 <= k < |us| && us[k].nonce == u.nonce ==> us[k] == u
  }

  predicate DistinctNonces(us: seq<Upload>) {
    forall j, k :: 0 <= j < k < |us| ==> us[j].nonce != us[k].nonce
  }

  ghost predicate Valid(f: Format, d: Doc) {
    && IsFormat(f)
    && NoMark(f, Typed(d))
    && (forall k :: 0 <= k < |Pending(d)| ==> Proper(f, Pending(d)[k]))
    && DistinctNonces(Pending(d))
  }

  /** Where the stem of the format has its parenthesis. */
  function Paren(f: Format): nat {
    |f.after| + 1
  }

  lemma StemChars(f: Format, j: nat)
    requires IsFormat(f) && j < |Stem(f)|
    ensures Stem(f)[j] !in {'!', '[', ')'} && (Stem(f)[j] == '(' <==> j == Paren(f))
  {
    if j > Paren(f) {
      assert Stem(f)[j] == f.tag[1..][j - Paren(f) - 1];
    }
  }

  /** A mark has no `!`, its only closing parenthesis is its last character, and its only opening one is the tag's. */
  lemma MarkChars(f: Format, s: string, at: nat, k: nat, j: nat)
    requires IsFormat(f) && MarkAt(f, s, at, k) && at <= j <= k
    ensures s[j] != '!' && (s[j] == ')' <==> j == k) && (s[j] == '(' <==> j == at + Paren(f))
    ensures j == at ==> s[j] == Stem(f)[0] && s[j] != '['
  {
    var nonce := at + |Stem(f)|;
    if j < nonce {
      assert s[j] == s[at..nonce][j - at];
      StemChars(f, j - at);
    } else if j < k {
      assert s[j] == s[nonce..k][j - nonce];
    }
  }

  /** Two marks that end together are the same. */
  lemma MarksEndTogether(f: Format, s: string, a: nat, b: nat, k: nat)
    requires IsFormat(f) && MarkAt(f, s, a, k) && MarkAt(f, s, b, k)
    ensures a == b
  {
    if a <= b {
      MarkChars(f, s, a, k, b + Paren(f));
      MarkChars(f, s, b, k, b + Paren(f));
    } else {
      MarkChars(f, s, b, k, a + Paren(f));
      MarkChars(f, s, a, k, a + Paren(f));
    }
  }

  lemma SubMark(f: Format, s: string, at: nat, k: nat, lo: nat, hi: nat)
    requires lo <= at <= k < hi <= |s|
    ensures MarkAt(f, s[lo..hi], at - lo, k - lo) <==> MarkAt(f, s, at, k)
  {
    var nonce := at + |Stem(f)|;
    if nonce <= k {
      SliceOfSlice(s, lo, hi, at - lo, nonce - lo);
      SliceOfSlice(s, lo, hi, nonce - lo, k - lo);
    }
  }

  lemma NoMarkPart(f: Format, s: string, lo: nat, hi: nat)
    requires NoMark(f, s) && lo <= hi <= |s|
    ensures NoMark(f, s[lo..hi])
  {
    forall at: nat, k: nat | MarkAt(f, s[lo..hi], at, k)
      ensures false
    {
      SubMark(f, s, lo + at, lo + k, lo, hi);
    }
  }

  lemma EndsInMark(f: Format, u: Upload)
    requires f.draws(u.nonce)
    ensures MarkAt(f, Placeholder(f, u), |Head(f, u)|, |Placeholder(f, u)| - 1)
  {
    var p, nonce := Placeholder(f, u), |Head(f, u)| + |Stem(f)|;
    assert p[|Head(f, u)|..nonce] == Stem(f);
    assert p[nonce..|p| - 1] == u.nonce;
  }

  /** A placeholder has one mark, at its end, when its name has none. */
  lemma MarkInPlaceholder(f: Format, u: Upload, at: nat, k: nat)
    requires IsFormat(f) && Proper(f, u) && MarkAt(f, Placeholder(f, u), at, k)
    ensures at == |Head(f, u)| && k == |Placeholder(f, u)| - 1
  {
    var p, head := Placeholder(f, u), |Head(f, u)|;
    EndsInMark(f, u);
    MarkChars(f, p, at, k, at);
    MarkChars(f, p, at, k, k);
    if k < head {
      MarkInHead(f, u, at, k);
    } else {
      MarkChars(f, p, head, |p| - 1, k);
      MarksEndTogether(f, p, at, head, k);
    }
  }

  lemma MarkInHead(f: Format, u: Upload, at: nat, k: nat)
    requires IsFormat(f) && MarkAt(f, Placeholder(f, u), at, k) && k < |Head(f, u)|
    ensures !NoMark(f, u.name)
  {
    var p, name := Placeholder(f, u), 2 + |f.before|;
    MarkChars(f, p, at, k, at);
    assert p[name..|Head(f, u)|] == u.name;
    SubMark(f, p, at, k, name, |Head(f, u)|);
  }

  // ----- where a placeholder occurs -----

  lemma InTheMiddle(a: string, b: string, c: string)
    ensures var s := a + b + c;
            HasAt(s, b, |a|) && s[0..|a|] == a && s[|a|..|a| + |b|] == b && s[|a| + |b|..|s|] == c
  {
  }

  lemma SubAt(s: string, piece: string, at: nat, lo: nat, hi: nat)
    requires lo <= at && at + |piece| <= hi <= |s|
    ensures HasAt(s[lo..hi], piece, at - lo) <==> HasAt(s, piece, at)
  {
    SliceOfSlice(s, lo, hi, at - lo, at - lo + |piece|);
  }

  /** A mark keeps clear of whatever opens with `!` and ends with `)`, unless it is inside. */
  lemma MarkWithin(f: Format, s: string, at: nat, k: nat, lo: nat, hi: nat)
    requires IsFormat(f) && MarkAt(f, s, at, k) && lo < hi <= |s| && s[lo] == '!' && s[hi - 1] == ')'
    ensures k < lo || (lo < at && k < hi) || hi <= at
  {
    if at <= lo <= k {
      MarkChars(f, s, at, k, lo);
    }
    if at < hi <= k {
      MarkChars(f, s, at, k, hi - 1);
    }
  }

  lemma OpensAndCloses(f: Format, s: string, v: Upload, lo: nat)
    requires HasAt(s, Placeholder(f, v), lo)
    ensures s[lo] == '!' && s[lo + |Placeholder(f, v)| - 1] == ')'
  {
    var p := Placeholder(f, v);
    assert s[lo..lo + |p|][0] == s[lo] && s[lo..lo + |p|][|p| - 1] == s[lo + |p| - 1];
  }

  /** After text without a mark, the first mark is the one of the placeholder. */
  lemma MarkPlace(f: Format, s: string, lo: nat, v: Upload, at: nat, k: nat)
    requires IsFormat(f) && Proper(f, v) && HasAt(s, Placeholder(f, v), lo) && NoMark(f, s[0..lo])
    requires MarkAt(f, s, at, k)
    ensures var end := lo + |Placeholder(f, v)|;
            (at == lo + |Head(f, v)| && k == end - 1) || at >= end
  {
    var end := lo + |Placeholder(f, v)|;
    OpensAndCloses(f, s, v, lo);
    MarkWithin(f, s, at, k, lo, end);
    if k < lo {
      SubMark(f, s, at, k, 0, lo);
    } else if k < end {
      MarkInside(f, s, lo, v, at, k);
    }
  }

  lemma MarkInside(f: Format, s: string, lo: nat, v: Upload, at: nat, k: nat)
    requires IsFormat(f) && Proper(f, v) && HasAt(s, Placeholder(f, v), lo)
    requires MarkAt(f, s, at, k) && lo <= at && k < lo + |Placeholder(f, v)|
    ensures at == lo + |Head(f, v)| && k == lo + |Placeholder(f, v)| - 1
  {
    MarkOfPiece(f, s, Placeholder(f, v), lo, at, k);
    MarkInPlaceholder(f, v, at - lo, k - lo);
  }

  lemma MarkOfPiece(f: Format, s: string, p: string, lo: nat, at: nat, k: nat)
    requires HasAt(s, p, lo) && MarkAt(f, s, at, k) && lo <= at && k < lo + |p|
    ensures MarkAt(f, p, at - lo, k - lo)
  {
    SubMark(f, s, at, k, lo, lo + |p|);
  }

  /** An occurrence of a placeholder opens with `!` and ends in its mark. */
  lemma OccurrenceEndsInMark(f: Format, u: Upload, s: string, q: nat)
    requires f.draws(u.nonce) && HasAt(s, Placeholder(f, u), q)
    ensures var end := q + |Placeholder(f, u)|;
            && s[q] == '!' && MarkAt(f, s, q + |Head(f, u)|, end - 1)
            && s[q + |Head(f, u)| + |Stem(f)|..end - 1] == u.nonce
  {
    var p := Placeholder(f, u);
    var nonce := |Head(f, u)| + |Stem(f)|;
    EndsInMark(f, u);
    assert p[nonce..|p| - 1] == u.nonce;
    MarkOfOccurrence(f, p, s, q, |Head(f, u)|);
    SliceOfSlice(s, q, q + |p|, nonce, |p| - 1);
  }

  lemma MarkOfOccurrence(f: Format, p: string, s: string, q: nat, at: nat)
    requires p != "" && HasAt(s, p, q) && MarkAt(f, p, at, |p| - 1)
    ensures s[q] == p[0] && MarkAt(f, s, q + at, q + |p| - 1)
  {
    assert s[q..q + |p|][0] == s[q];
    SubMark(f, s, q + at, q + |p| - 1, q, q + |p|);
  }

  /** Where the placeholder with this nonce stands. */
  function Offset(f: Format, d: Doc, nonce: string): Option<nat> {
    match d
    case End(_) => None
    case Slot(text, u, rest) =>
      if u.nonce == nonce then Some(|text|)
      else
        match Offset(f, rest, nonce)
        case None => None
        case Some(at) => Some(|text| + |Placeholder(f, u)| + at)
  }

  /** An occurrence of `u`'s placeholder that begins before the end of another one has its mark there too. */
  lemma NoStraddle(f: Format, s: string, v: Upload, at: nat, u: Upload, q: nat)
    requires IsFormat(f) && Proper(f, v) && Proper(f, u)
    requires HasAt(s, Placeholder(f, v), at) && HasAt(s, Placeholder(f, u), q)
    requires q < at + |Placeholder(f, v)|
    ensures q + |Head(f, u)| < at + |Placeholder(f, v)|
  {
    OpensAndCloses(f, s, u, q);
    MarkOfUpload(f, s, v, at);
    MarkInOccurrence(f, s, u, q, at + |Head(f, v)|, at + |Placeholder(f, v)| - 1);
  }

  /** A mark that reaches into an occurrence of a placeholder is the mark of that occurrence, or ends after it. */
  lemma MarkInOccurrence(f: Format, s: string, u: Upload, q: nat, at: nat, k: nat)
    requires IsFormat(f) && Proper(f, u) && HasAt(s, Placeholder(f, u), q) && s[q] == '!'
    requires MarkAt(f, s, at, k) && q <= k
    ensures k >= q + |Placeholder(f, u)| - 1
  {
    if at <= q {
      MarkChars(f, s, at, k, q);
    } else if k < q + |Placeholder(f, u)| {
      MarkOfPiece(f, s, Placeholder(f, u), q, at, k);
      MarkInPlaceholder(f, u, at - q, k - q);
    }
  }

  lemma ValidRest(f: Format, d: Doc)
    requires Valid(f, d) && d.Slot?
    ensures Valid(f, d.rest) && NoMark(f, d.text) && Proper(f, d.upload)
    ensures forall k :: 0 <= k < |Pending(d.rest)| ==> Pending(d.rest)[k].nonce != d.upload.nonce
  {
    var typed := Typed(d);
    NoMarkPart(f, typed, 0, |d.text|);
    NoMarkPart(f, typed, |d.text|, |typed|);
    assert typed[0..|d.text|] == d.text && typed[|d.text|..|typed|] == Typed(d.rest);
    RestIsPending(d);
  }

  lemma NonceOfUpload(f: Format, s: string, u: Upload, q: nat)
    requires f.draws(u.nonce) && HasAt(s, Placeholder(f, u), q)
    ensures s[q + |Head(f, u)| + |Stem(f)|..q + |Placeholder(f, u)| - 1] == u.nonce
  {
    OccurrenceEndsInMark(f, u, s, q);
  }

  /** Placeholders that end together have the same nonce. */
  lemma SameEndSameNonce(f: Format, s: string, u: Upload, q: nat, v: Upload, lo: nat)
    requires IsFormat(f) && f.draws(u.nonce) && f.draws(v.nonce)
    requires HasAt(s, Placeholder(f, u), q) && HasAt(s, Placeholder(f, v), lo)
    requires q + |Placeholder(f, u)| == lo + |Placeholder(f, v)|
    ensures u.nonce == v.nonce
  {
    MarkOfUpload(f, s, u, q);
    MarkOfUpload(f, s, v, lo);
    MarksEndTogether(f, s, q + |Head(f, u)|, lo + |Head(f, v)|, q + |Placeholder(f, u)| - 1);
    NonceOfUpload(f, s, u, q);
    NonceOfUpload(f, s, v, lo);
  }

  /** After text without a mark and a placeholder, another one is behind it, or ends with it. */
  lemma HereOrLater(f: Format, s: string, lo: nat, v: Upload, u: Upload, q: nat)
    requires IsFormat(f) && Proper(f, v) && Proper(f, u)
    requires HasAt(s, Placeholder(f, v), lo) && NoMark(f, s[0..lo]) && HasAt(s, Placeholder(f, u), q)
    ensures var end := lo + |Placeholder(f, v)|;
            if q < end then q + |Head(f, u)| == lo + |Head(f, v)| && u.nonce == v.nonce
            else HasAt(s[end..|s|], Placeholder(f, u), q - end)
  {
    var end := lo + |Placeholder(f, v)|;
    if q < end {
      EndsHere(f, s, lo, v, u, q);
      SameEndSameNonce(f, s, u, q, v, lo);
    } else {
      SubAt(s, Placeholder(f, u), q, end, |s|);
    }
  }

  lemma EndsHere(f: Format, s: string, lo: nat, v: Upload, u: Upload, q: nat)
    requires IsFormat(f) && Proper(f, v) && Proper(f, u) && q < lo + |Placeholder(f, v)|
    requires HasAt(s, Placeholder(f, v), lo) && NoMark(f, s[0..lo]) && HasAt(s, Placeholder(f, u), q)
    ensures q + |Head(f, u)| == lo + |Head(f, v)| && q + |Placeholder(f, u)| == lo + |Placeholder(f, v)|
  {
    NoStraddle(f, s, v, lo, u, q);
    MarkOfUpload(f, s, u, q);
    MarkPlace(f, s, lo, v, q + |Head(f, u)|, q + |Placeholder(f, u)| - 1);
  }

  lemma MarkOfUpload(f: Format, s: string, u: Upload, q: nat)
    requires f.draws(u.nonce) && HasAt(s, Placeholder(f, u), q)
    ensures MarkAt(f, s, q + |Head(f, u)|, q + |Placeholder(f, u)| - 1)
  {
    OccurrenceEndsInMark(f, u, s, q);
  }

  lemma HereOrInTheRest(f: Format, t: string, v: Upload, more: string, u: Upload, q: nat)
    requires IsFormat(f) && Proper(f, v) && Proper(f, u) && NoMark(f, t)
    requires HasAt(t + Placeholder(f, v) + more, Placeholder(f, u), q)
    ensures var end := |t| + |Placeholder(f, v)|;
            if q < end then q + |Head(f, u)| == |t| + |Head(f, v)| && u.nonce == v.nonce
            else HasAt(more, Placeholder(f, u), q - end)
  {
    InTheMiddle(t, Placeholder(f, v), more);
    HereOrLater(f, t + Placeholder(f, v) + more, |t|, v, u, q);
  }

  lemma RestIsPending(d: Doc)
    requires d.Slot?
    ensures |Pending(d)| == |Pending(d.rest)| + 1 && Pending(d)[0] == d.upload
    ensures forall k :: 0 <= k < |Pending(d.rest)| ==> Pending(d.rest)[k] == Pending(d)[k + 1]
  {
    var us := [d.upload] + Pending(d.rest);
    assert forall k :: 0 <= k < |Pending(d.rest)| ==> us[k + 1] == Pending(d.rest)[k];
  }

  lemma OwnsRest(d: Doc, u: Upload)
    requires d.Slot? && Owns(Pending(d), u)
    ensures Owns(Pending(d.rest), u)
  {
    RestIsPending(d);
  }

  /** A placeholder occurs in the shown text only where its upload put it. */
  lemma {:induction false} OnlyAtItsOffset(f: Format, d: Doc, u: Upload, q: nat)
    requires Valid(f, d) && Proper(f, u) && HasAt(Show(f, d), Placeholder(f, u), q)
    requires Owns(Pending(d), u)
    ensures Offset(f, d, u.nonce) == Some(q)
  {
    if d.End? {
      OccurrenceEndsInMark(f, u, d.text, q);
    } else {
      var end := |d.text| + |Placeholder(f, d.upload)|;
      ValidRest(f, d);
      HereOrInTheRest(f, d.text, d.upload, Show(f, d.rest), u, q);
      if q < end {
        RestIsPending(d);
      } else {
        OwnsRest(d, u);
        OnlyAtItsOffset(f, d.rest, u, q - end);
        OffsetIsPending(f, d.rest, u.nonce);
      }
    }
  }

  lemma {:induction false} OffsetIsPending(f: Format, d: Doc, nonce: string)
    requires Offset(f, d, nonce).Some?
    ensures exists k :: 0 <= k < |Pending(d)| && Pending(d)[k].nonce == nonce
  {
    if d.upload.nonce == nonce {
      assert Pending(d)[0].nonce == nonce;
    } else {
      OffsetIsPending(f, d.rest, nonce);
      var k :| 0 <= k < |Pending(d.rest)| && Pending(d.rest)[k].nonce == nonce;
      assert Pending(d)[k + 1].nonce == nonce;
    }
  }

  // ----- settling one upload -----

  lemma PrependShows(f: Format, text: string, d: Doc)
    ensures Show(f, Prepend(text, d)) == text + Show(f, d)
    ensures Finished(Prepend(text, d)) == text + Finished(d)
    ensures Typed(Prepend(text, d)) == text + Typed(d)
    ensures Pending(Prepend(text, d)) == Pending(d)
  {
  }

  /** Settling takes the placeholder at its offset out of the shown text and puts the result there. */
  ghost predicate SettlesInPlace(f: Format, d: Doc, u: Upload) {
    var at, p := Offset(f, d, u.nonce), Placeholder(f, u);
    && at.Some? && HasAt(Show(f, d), p, at.value)
    && Show(f, Settle(d, u.nonce)) == Show(f, d)[..at.value] + Result(u) + Show(f, d)[at.value + |p|..]
  }

  lemma {:induction false} SettleShows(f: Format, d: Doc, k: nat)
    requires DistinctNonces(Pending(d)) && k < |Pending(d)|
    ensures SettlesInPlace(f, d, Pending(d)[k])
  {
    RestIsPending(d);
    if k == 0 {
      ShowsFirst(f, d);
    } else {
      SettleShows(f, d.rest, k - 1);
      ShowsLater(f, d, Pending(d)[k]);
    }
  }

  lemma ShowsFirst(f: Format, d: Doc)
    requires d.Slot?
    ensures SettlesInPlace(f, d, d.upload)
  {
    PrependShows(f, d.text + Result(d.upload), d.rest);
    CutAt(d.text, Placeholder(f, d.upload), Show(f, d.rest));
  }

  lemma ShowsLater(f: Format, d: Doc, u: Upload)
    requires d.Slot? && d.upload.nonce != u.nonce && SettlesInPlace(f, d.rest, u)
    ensures SettlesInPlace(f, d, u)
  {
    SettledLater(d, u);
    ShowSlot(f, d.text, d.upload, Settle(d.rest, u.nonce));
    ShowSlot(f, d.text, d.upload, d.rest);
    CutLaterIs(d.text, Placeholder(f, d.upload), Show(f, d.rest), Show(f, Settle(d.rest, u.nonce)),
               Offset(f, d.rest, u.nonce).value, Placeholder(f, u), Result(u));
    OffsetLater(f, d, u);
  }

  lemma OffsetLater(f: Format, d: Doc, u: Upload)
    requires d.Slot? && d.upload.nonce != u.nonce && Offset(f, d.rest, u.nonce).Some?
    ensures Offset(f, d, u.nonce) == Some(|d.text| + |Placeholder(f, d.upload)| + Offset(f, d.rest, u.nonce).value)
  {
  }

  lemma CutLaterIs(t: string, p: string, more: string, after: string, at: nat, piece: string, into: string)
    requires HasAt(more, piece, at) && after == more[..at] + into + more[at + |piece|..]
    ensures var s, end := t + p + more, |t| + |p| + at;
            HasAt(s, piece, end) && t + p + after == s[..end] + into + s[end + |piece|..]
  {
    CutLater(t, p, more, at, piece, into);
  }

  lemma SettledLater(d: Doc, u: Upload)
    requires d.Slot? && d.upload.nonce != u.nonce
    ensures Settle(d, u.nonce) == Slot(d.text, d.upload, Settle(d.rest, u.nonce))
  {
  }

  lemma ShowSlot(f: Format, text: string, u: Upload, rest: Doc)
    ensures Show(f, Slot(text, u, rest)) == text + Placeholder(f, u) + Show(f, rest)
  {
  }

  lemma CutAt(t: string, p: string, more: string)
    ensures var s := t + p + more; HasAt(s, p, |t|) && s[..|t|] == t && s[|t| + |p|..] == more
  {
  }

  lemma CutLater(t: string, p: string, more: string, at: nat, piece: string, into: string)
    requires HasAt(more, piece, at)
    ensures var s, end := t + p + more, |t| + |p| + at;
            && HasAt(s, piece, end)
            && t + p + (more[..at] + into + more[at + |piece|..]) == s[..end] + into + s[end + |piece|..]
  {
    var front := t + p;
    TakeInto(front, more, at);
    DropInto(front, more, at + |piece|);
    SliceInto(front, more, at, at + |piece|);
    CutAgain(front, more[..at], into, more[at + |piece|..]);
  }

  lemma CutAgain(a: string, b: string, c: string, e: string)
    ensures a + (b + c + e) == (a + b) + c + e
  {
  }

  lemma FindIs(s: string, piece: string, from: nat, at: nat)
    requires from <= at < |s| && HasAt(s, piece, at) && forall j :: from <= j < at ==> !HasAt(s, piece, j)
    ensures Find(s, piece, from) == at
  {
  }

  lemma SameNonceSameUpload(us: seq<Upload>, k: nat)
    requires DistinctNonces(us) && k < |us|
    ensures Owns(us, us[k])
  {
  }

  /** What the editor does when an upload settles is what settling means. */
  lemma ReplaceSettles(f: Format, d: Doc, k: nat)
    requires Valid(f, d) && k < |Pending(d)|
    ensures var u := Pending(d)[k];
            ReplaceFirst(Show(f, d), Placeholder(f, u), Result(u)) == Show(f, Settle(d, u.nonce))
  {
    var u := Pending(d)[k];
    SettleShows(f, d, k);
    SameNonceSameUpload(Pending(d), k);
    NothingBeforeIt(f, d, u);
    ReplaceInPlace(f, d, u);
  }

  lemma ReplaceInPlace(f: Format, d: Doc, u: Upload)
    requires SettlesInPlace(f, d, u)
    requires forall j :: 0 <= j < Offset(f, d, u.nonce).value ==> !HasAt(Show(f, d), Placeholder(f, u), j)
    ensures ReplaceFirst(Show(f, d), Placeholder(f, u), Result(u)) == Show(f, Settle(d, u.nonce))
  {
    ReplaceAt(Show(f, d), Placeholder(f, u), Offset(f, d, u.nonce).value, Result(u));
  }

  lemma ReplaceAt(s: string, piece: string, at: nat, into: string)
    requires piece != "" && HasAt(s, piece, at) && forall j :: 0 <= j < at ==> !HasAt(s, piece, j)
    ensures ReplaceFirst(s, piece, into) == s[..at] + into + s[at + |piece|..]
  {
    FindIs(s, piece, 0, at);
  }

  lemma NothingBeforeIt(f: Format, d: Doc, u: Upload)
    requires Valid(f, d) && Proper(f, u) && Offset(f, d, u.nonce).Some?
    requires Owns(Pending(d), u)
    ensures forall j :: 0 <= j < Offset(f, d, u.nonce).value ==> !HasAt(Show(f, d), Placeholder(f, u), j)
  {
    forall j | 0 <= j < Offset(f, d, u.nonce).value
      ensures !HasAt(Show(f, d), Placeholder(f, u), j)
    {
      if HasAt(Show(f, d), Placeholder(f, u), j) {
        OnlyAtItsOffset(f, d, u, j);
      }
    }
  }

  lemma {:induction false} SettleKeepsFinished(f: Format, d: Doc, nonce: string)
    ensures Finished(Settle(d, nonce)) == Finished(d)
  {
    if d.Slot? {
      if d.upload.nonce == nonce {
        PrependShows(f, d.text + Result(d.upload), d.rest);
      } else {
        SettleKeepsFinished(f, d.rest, nonce);
      }
    }
  }

  lemma RemoveLater<T>(first: T, rest: seq<T>, k: nat)
    requires k < |rest|
    ensures [first] + (rest[..k] + rest[k + 1..]) == ([first] + rest)[..k + 1] + ([first] + rest)[k + 2..]
  {
  }

  lemma {:induction false} SettleRemoves(f: Format, d: Doc, k: nat)
    requires DistinctNonces(Pending(d)) && k < |Pending(d)|
    ensures Pending(Settle(d, Pending(d)[k].nonce)) == Pending(d)[..k] + Pending(d)[k + 1..]
  {
    RestIsPending(d);
    if k == 0 {
      PrependShows(f, d.text + Result(d.upload), d.rest);
      assert Pending(d)[1..] == Pending(d.rest);
    } else {
      SettleRemoves(f, d.rest, k - 1);
      RemoveLater(d.upload, Pending(d.rest), k - 1);
    }
  }

  lemma {:induction false} SettleTypes(f: Format, d: Doc, k: nat) returns (a: string, b: string)
    requires DistinctNonces(Pending(d)) && k < |Pending(d)|
    ensures Typed(d) == a + b && Typed(Settle(d, Pending(d)[k].nonce)) == a + Result(Pending(d)[k]) + b
  {
    var us, u := Pending(d), Pending(d)[k];
    if k == 0 {
      PrependShows(f, d.text + Result(u), d.rest);
      a, b := d.text, Typed(d.rest);
    } else {
      assert us[0] == d.upload && us[1..] == Pending(d.rest);
      a, b := SettleTypes(f, d.rest, k - 1);
      assert d.text + (a + Result(u) + b) == (d.text + a) + Result(u) + b;
      assert d.text + (a + b) == (d.text + a) + b;
      a := d.text + a;
    }
  }

  /** A reference brings no mark into a text, not even across its ends. */
  lemma NoMarkAround(f: Format, a: string, r: string, b: string)
    requires IsFormat(f) && NoMark(f, a + b) && (r == "" || IsReference(f, r))
    ensures NoMark(f, a + r + b)
  {
    if r == "" {
      assert a + r + b == a + b;
    } else {
      forall at: nat, k: nat | MarkAt(f, a + r + b, at, k)
        ensures false
      {
        MarkInPieces(f, a, r, b, at, k);
      }
    }
  }

  lemma MarkLeft(f: Format, a: string, b: string, at: nat, k: nat)
    ensures MarkAt(f, a, at, k) <==> k < |a| && MarkAt(f, a + b, at, k)
  {
    assert (a + b)[0..|a|] == a;
    if at <= k < |a| {
      SubMark(f, a + b, at, k, 0, |a|);
    }
  }

  lemma MarkRight(f: Format, a: string, b: string, at: nat, k: nat)
    requires |a| <= at <= k
    ensures MarkAt(f, b, at - |a|, k - |a|) <==> MarkAt(f, a + b, at, k)
  {
    var s := a + b;
    assert s[|a|..|s|] == b;
    if k < |s| {
      SubMark(f, s, at, k, |a|, |s|);
    }
  }

  /** Around a reference a mark is in front of it or behind it. */
  lemma MarkBeside(f: Format, a: string, r: string, b: string, at: nat, k: nat)
    requires IsFormat(f) && IsReference(f, r) && MarkAt(f, a + r + b, at, k)
    ensures MarkAt(f, a, at, k) || (at >= |a + r| && MarkAt(f, b, at - |a + r|, k - |a + r|))
  {
    MarkWithin(f, a + r + b, at, k, |a|, |a + r|);
    ConcatAssoc(a, r, b);
    if k < |a| {
      MarkLeft(f, a, r + b, at, k);
    } else if at < |a + r| {
      MarkRight(f, a, r + b, at, k);
      MarkLeft(f, r, b, at - |a|, k - |a|);
    } else {
      MarkRight(f, a + r, b, at, k);
    }
  }

  lemma MarkInPieces(f: Format, a: string, r: string, b: string, at: nat, k: nat)
    requires IsFormat(f) && IsReference(f, r) && MarkAt(f, a + r + b, at, k)
    ensures !NoMark(f, a + b)
  {
    MarkBeside(f, a, r, b, at, k);
    if MarkAt(f, a, at, k) {
      MarkLeft(f, a, b, at, k);
    } else {
      MarkRight(f, a, b, at - |r|, k - |r|);
    }
  }

  lemma SettleStaysValid(f: Format, d: Doc, k: nat)
    requires Valid(f, d) && k < |Pending(d)|
    ensures Valid(f, Settle(d, Pending(d)[k].nonce))
  {
    var u := Pending(d)[k];
    SettleRemoves(f, d, k);
    RemovedStaysProper(f, Pending(d), k);
    var a, b := SettleTypes(f, d, k);
    NoMarkAround(f, a, Result(u), b);
  }

  lemma RemovedStaysProper(f: Format, us: seq<Upload>, k: nat)
    requires k < |us| && DistinctNonces(us) && forall j :: 0 <= j < |us| ==> Proper(f, us[j])
    ensures var vs := us[..k] + us[k + 1..];
            DistinctNonces(vs) && forall j :: 0 <= j < |vs| ==> Proper(f, vs[j])
  {
    var vs := us[..k] + us[k + 1..];
    assert forall j :: 0 <= j < |vs| ==> vs[j] == us[if j < k then j else j + 1];
  }

  // ----- settling all of them -----

  function SettleAll(f: Format, s: string, order: seq<Upload>): string
    decreases |order|
  {
    if order == [] then s
    else SettleAll(f, ReplaceFirst(s, Placeholder(f, order[0]), Result(order[0])), order[1..])
  }

  lemma WithoutOne<T>(s: seq<T>, k: nat)
    requires k < |s|
    ensures multiset(s[..k] + s[k + 1..]) == multiset(s) - multiset{s[k]}
  {
    assert s == s[..k] + [s[k]] + s[k + 1..];
  }

  /**
   Once every upload has settled, in whatever order, the text holds each reference exactly where its placeholder
   was put and nothing of those that failed.
   */
  lemma {:induction false} AnyOrderFinishes(f: Format, d: Doc, order: seq<Upload>)
    requires Valid(f, d) && multiset(order) == multiset(Pending(d))
    ensures SettleAll(f, Show(f, d), order) == Finished(d)
    decreases |order|
  {
    if order == [] {
      NothingPending(d);
    } else {
      var k := SettleFirst(f, d, order);
      ReplaceSettles(f, d, k);
      SettleKeepsFinished(f, d, order[0].nonce);
      AnyOrderFinishes(f, Settle(d, order[0].nonce), order[1..]);
    }
  }

  lemma NothingPending(d: Doc)
    requires multiset(Pending(d)) == multiset{}
    ensures d.End?
  {
    assert |multiset(Pending(d))| == |Pending(d)|;
  }

  lemma IndexIn<T>(order: seq<T>, s: seq<T>) returns (k: nat)
    requires order != [] && multiset(order) == multiset(s)
    ensures k < |s| && s[k] == order[0]
  {
    assert order[0] in multiset(order);
    k :| k < |s| && s[k] == order[0];
  }

  lemma TailIsTheRest<T>(order: seq<T>, s: seq<T>, k: nat)
    requires order != [] && multiset(order) == multiset(s) && k < |s| && s[k] == order[0]
    ensures multiset(order[1..]) == multiset(s[..k] + s[k + 1..])
  {
    WithoutOne(s, k);
    assert order == [order[0]] + order[1..];
  }

  lemma SettleFirst(f: Format, d: Doc, order: seq<Upload>) returns (k: nat)
    requires Valid(f, d) && order != [] && multiset(order) == multiset(Pending(d))
    ensures k < |Pending(d)| && Pending(d)[k] == order[0]
    ensures Valid(f, Settle(d, order[0].nonce))
    ensures multiset(order[1..]) == multiset(Pending(Settle(d, order[0].nonce)))
  {
    k := IndexIn(order, Pending(d));
    SettleStaysValid(f, d, k);
    SettleRemoves(f, d, k);
    TailIsTheRest(order, Pending(d), k);
  }

  /** Two orders of completion give the same text. */
  lemma UploadsConverge(f: Format, d: Doc, one: seq<Upload>, other: seq<Upload>)
    requires Valid(f, d) && multiset(one) == multiset(Pending(d)) == multiset(other)
    ensures SettleAll(f, Show(f, d), one) == SettleAll(f, Show(f, d), other)
  {
    AnyOrderFinishes(f, d, one);
    AnyOrderFinishes(f, d, other);
  }

  // ----- uploads that begin while others are under way -----

  /** The placeholder goes in at the caret; nothing when the caret is inside another placeholder. */
  function Insert(f: Format, d: Doc, caret: nat, u: Upload): Option<Doc> {
    match d
    case End(text) =>
      var at := if caret <= |text| then caret else |text|;
      Some(Slot(text[..at], u, End(text[at..])))
    case Slot(text, v, rest) =>
      var end := |text| + |Placeholder(f, v)|;
      if caret <= |text| then Some(Slot(text[..caret], u, Slot(text[caret..], v, rest)))
      else if caret < end then None
      else
        match Insert(f, rest, caret - end, u)
        case None => None
        case Some(after) => Some(Slot(text, v, after))
  }

  lemma InsertLater(front: string, more: string, caret: nat, piece: string)
    requires |front| <= caret
    ensures InsertAt(front + more, caret, piece) == front + InsertAt(more, caret - |front|, piece)
  {
    var s, c := front + more, caret - |front|;
    assert Slice(s, 0, caret) == front + Slice(more, 0, c);
    assert Slice(s, caret, |s|) == Slice(more, c, |more|);
  }

  lemma InsertSooner(text: string, more: string, caret: nat, piece: string)
    requires caret <= |text|
    ensures InsertAt(text + more, caret, piece) == text[..caret] + piece + (text[caret..] + more)
  {
    var s := text + more;
    assert s[caret..|s|] == text[caret..] + more;
    assert s[0..caret] == text[..caret];
  }

  /** What the editor does when an upload begins is what inserting means; nothing that was typed changes. */
  lemma {:induction false} InsertShows(f: Format, d: Doc, caret: nat, u: Upload)
    requires Insert(f, d, caret, u).Some?
    ensures var after := Insert(f, d, caret, u).value;
            && Show(f, after) == InsertAt(Show(f, d), caret, Placeholder(f, u))
            && Typed(after) == Typed(d)
  {
    if d.End? {
      InsertInText(f, d, caret, u);
    } else if caret <= |d.text| {
      InsertHere(f, d, caret, u);
    } else {
      InsertShows(f, d.rest, caret - |d.text + Placeholder(f, d.upload)|, u);
      InsertFurther(f, d, caret, u);
    }
  }

  lemma InsertFurther(f: Format, d: Doc, caret: nat, u: Upload)
    requires Insert(f, d, caret, u).Some? && d.Slot? && |d.text| < caret
    ensures var front, after := d.text + Placeholder(f, d.upload), Insert(f, d, caret, u).value;
            && |front| <= caret && Insert(f, d.rest, caret - |front|, u).Some?
            && after == Slot(d.text, d.upload, Insert(f, d.rest, caret - |front|, u).value)
            && InsertAt(Show(f, d), caret, Placeholder(f, u))
                 == front + InsertAt(Show(f, d.rest), caret - |front|, Placeholder(f, u))
  {
    InsertLater(d.text + Placeholder(f, d.upload), Show(f, d.rest), caret, Placeholder(f, u));
  }

  lemma InsertInText(f: Format, d: Doc, caret: nat, u: Upload)
    requires d.End?
    ensures var after := Insert(f, d, caret, u).value;
            && Show(f, after) == InsertAt(Show(f, d), caret, Placeholder(f, u))
            && Typed(after) == Typed(d)
  {
    var at := if caret <= |d.text| then caret else |d.text|;
    assert d.text[..at] + d.text[at..] == d.text;
    assert Slice(d.text, 0, caret) == d.text[..at] && Slice(d.text, caret, |d.text|) == d.text[at..];
  }

  lemma InsertHere(f: Format, d: Doc, caret: nat, u: Upload)
    requires d.Slot? && caret <= |d.text|
    ensures var after := Insert(f, d, caret, u).value;
            && Show(f, after) == InsertAt(Show(f, d), caret, Placeholder(f, u))
            && Typed(after) == Typed(d)
  {
    var p, more, left, right := Placeholder(f, d.upload), Show(f, d.rest), d.text[..caret], d.text[caret..];
    InsertSooner(d.text, p + more, caret, Placeholder(f, u));
    ConcatAssoc(d.text, p, more);
    ConcatAssoc(right, p, more);
    ConcatAssoc(left, right, Typed(d.rest));
    assert left + right == d.text;
  }

  /**
   The caret cuts the document in two, and the new placeholder stands between the two parts: so does its
   reference in the finished text.
   */
  lemma {:induction false} InsertCuts(f: Format, d: Doc, caret: nat, u: Upload) returns (front: Doc, back: Doc)
    requires Insert(f, d, caret, u).Some?
    ensures Show(f, d) == Show(f, front) + Show(f, back) && Finished(d) == Finished(front) + Finished(back)
    ensures |Show(f, front)| == if caret <= |Show(f, d)| then caret else |Show(f, d)|
    ensures Finished(Insert(f, d, caret, u).value) == Finished(front) + Result(u) + Finished(back)
  {
    if d.End? {
      var at := if caret <= |d.text| then caret else |d.text|;
      front, back := End(d.text[..at]), End(d.text[at..]);
    } else if caret <= |d.text| {
      front, back := End(d.text[..caret]), Slot(d.text[caret..], d.upload, d.rest);
      CutFirstText(f, d, caret);
    } else {
      var left, right := InsertCuts(f, d.rest, caret - |d.text + Placeholder(f, d.upload)|, u);
      front, back := Slot(d.text, d.upload, left), right;
      ConcatAssoc(d.text + Placeholder(f, d.upload), Show(f, left), Show(f, right));
      ConcatAssoc(d.text + Result(d.upload), Finished(left), Finished(right));
      ConcatAssoc(d.text + Result(d.upload), Finished(left) + Result(u), Finished(right));
      ConcatAssoc(d.text + Result(d.upload), Finished(left), Result(u));
    }
  }

  lemma CutFirstText(f: Format, d: Doc, caret: nat)
    requires d.Slot? && caret <= |d.text|
    ensures var back := Slot(d.text[caret..], d.upload, d.rest);
            && Show(f, d) == d.text[..caret] + Show(f, back)
            && Finished(d) == d.text[..caret] + Finished(back)
  {
    var left, right := d.text[..caret], d.text[caret..];
    assert left + right == d.text;
    CutThrice(left, right, Placeholder(f, d.upload), Show(f, d.rest));
    CutThrice(left, right, Result(d.upload), Finished(d.rest));
  }

  lemma CutThrice(a: string, b: string, c: string, e: string)
    ensures a + b + c + e == a + (b + c + e)
  {
  }

  lemma {:induction false} InsertAdds(f: Format, d: Doc, caret: nat, u: Upload) returns (k: nat)
    requires Insert(f, d, caret, u).Some?
    ensures k <= |Pending(d)|
    ensures Pending(Insert(f, d, caret, u).value) == Pending(d)[..k] + [u] + Pending(d)[k..]
  {
    if d.End? || caret <= |d.text| {
      k := 0;
    } else {
      var us := Pending(d);
      var j := InsertAdds(f, d.rest, caret - |d.text + Placeholder(f, d.upload)|, u);
      assert us[0] == d.upload && us[1..] == Pending(d.rest);
      assert us[..j + 1] == [us[0]] + us[1..][..j] && us[j + 1..] == us[1..][j..];
      k := j + 1;
    }
  }

  lemma InsertStaysValid(f: Format, d: Doc, caret: nat, u: Upload)
    requires Valid(f, d) && Proper(f, u) && Insert(f, d, caret, u).Some?
    requires forall k :: 0 <= k < |Pending(d)| ==> Pending(d)[k].nonce != u.nonce
    ensures Valid(f, Insert(f, d, caret, u).value)
  {
    InsertShows(f, d, caret, u);
    var k := InsertAdds(f, d, caret, u);
    InsertStaysDistinct(Pending(d), k, u);
    InsertStaysProper(f, Pending(d), k, u);
  }

  lemma InsertedAt<T>(s: seq<T>, k: nat, x: T)
    requires k <= |s|
    ensures var t := s[..k] + [x] + s[k..];
            forall j :: 0 <= j < |t| ==> t[j] == if j < k then s[j] else if j == k then x else s[j - 1]
  {
  }

  lemma InsertStaysDistinct(us: seq<Upload>, k: nat, u: Upload)
    requires k <= |us| && DistinctNonces(us) && forall j :: 0 <= j < |us| ==> us[j].nonce != u.nonce
    ensures DistinctNonces(us[..k] + [u] + us[k..])
  {
    InsertedAt(us, k, u);
  }

  lemma InsertStaysProper(f: Format, us: seq<Upload>, k: nat, u: Upload)
    requires k <= |us| && Proper(f, u) && forall j :: 0 <= j < |us| ==> Proper(f, us[j])
    ensures var vs := us[..k] + [u] + us[k..]; forall j :: 0 <= j < |vs| ==> Proper(f, vs[j])
  {
    InsertedAt(us, k, u);
  }

  datatype Event = Begin(caret: nat, started: Upload) | Done(settled: Upload)

  /** What one event does to the text in the editor. */
  function EditBy(f: Format, s: string, e: Event): string {
    match e
    case Begin(caret, u) => InsertAt(s, caret, Placeholder(f, u))
    case Done(u) => ReplaceFirst(s, Placeholder(f, u), Result(u))
  }

  function EditAll(f: Format, s: string, events: seq<Event>): string
    decreases |events|
  {
    if events == [] then s else EditAll(f, EditBy(f, s, events[0]), events[1..])
  }

  function DocAfter(f: Format, d: Doc, e: Event): Option<Doc> {
    match e
    case Begin(caret, u) => Insert(f, d, caret, u)
    case Done(u) => Some(Settle(d, u.nonce))
  }

  /** No caret is inside a placeholder, no nonce is in use twice, and only uploads under way settle. */
  ghost predicate Legal(f: Format, d: Doc, events: seq<Event>)
    decreases |events|
  {
    events == [] ||
    (&& (match events[0]
         case Begin(_, u) => Proper(f, u) && forall k :: 0 <= k < |Pending(d)| ==> Pending(d)[k].nonce != u.nonce
         case Done(u) => u in Pending(d))
     && DocAfter(f, d, events[0]).Some?
     && Legal(f, DocAfter(f, d, events[0]).value, events[1..]))
  }

  function DocAfterAll(f: Format, d: Doc, events: seq<Event>): Option<Doc>
    decreases |events|
  {
    if events == [] then Some(d)
    else
      match DocAfter(f, d, events[0])
      case None => None
      case Some(next) => DocAfterAll(f, next, events[1..])
  }

  /**
   However uploads begin and settle among each other, the text in the editor is the tracked one; when none is
   left under way it is the typed text with each reference where its placeholder was put.
   */
  lemma {:induction false} EditorFollowsDoc(f: Format, d: Doc, events: seq<Event>)
    requires Valid(f, d) && Legal(f, d, events)
    ensures DocAfterAll(f, d, events).Some?
    ensures var after := DocAfterAll(f, d, events).value;
            && Valid(f, after) && EditAll(f, Show(f, d), events) == Show(f, after)
            && (Pending(after) == [] ==> EditAll(f, Show(f, d), events) == Finished(after))
    decreases |events|
  {
    if events == [] {
    } else {
      var next := DocAfter(f, d, events[0]).value;
      StepFollows(f, d, events[0]);
      EditorFollowsDoc(f, next, events[1..]);
    }
  }

  lemma StepFollows(f: Format, d: Doc, e: Event)
    requires Valid(f, d) && Legal(f, d, [e])
    ensures Valid(f, DocAfter(f, d, e).value) && EditBy(f, Show(f, d), e) == Show(f, DocAfter(f, d, e).value)
  {
    assert [e][0] == e;
    match e
    case Begin(caret, u) =>
      InsertShows(f, d, caret, u);
      InsertStaysValid(f, d, caret, u);
    case Done(u) =>
      var k :| 0 <= k < |Pending(d)| && Pending(d)[k] == u;
      ReplaceSettles(f, d, k);
      SettleStaysValid(f, d, k);
  }

  // ----- a caret inside a placeholder -----

  /** The text when the caret was `c` characters inside `u`'s placeholder as `v` began. */
  function Nested(f: Format, t: string, u: Upload, c: nat, v: Upload, more: string): string
    requires c <= |Placeholder(f, u)|
  {
    t + Placeholder(f, u)[..c] + Placeholder(f, v) + (Placeholder(f, u)[c..] + more)
  }

  /** Text around the two placeholders, one inside the other. */
  ghost predicate IsNested(f: Format, t: string, u: Upload, c: nat, v: Upload, more: string) {
    && IsFormat(f) && Proper(f, u) && Proper(f, v) && u.nonce != v.nonce
    && NoMark(f, t) && NoMark(f, more) && 0 < c < |Placeholder(f, u)|
  }

  /** As long as the inner upload is under way the outer placeholder is broken: settling it changes nothing. */
  lemma InsertedInsideIsLost(f: Format, t: string, u: Upload, c: nat, v: Upload, more: string)
    requires IsNested(f, t, u, c, v, more)
    ensures var s := Nested(f, t, u, c, v, more);
            Find(s, Placeholder(f, u), 0) == |s| && ReplaceFirst(s, Placeholder(f, u), Result(u)) == s
  {
    var p := Placeholder(f, u);
    var front, back := t + p[..c], p[c..] + more;
    var s := front + Placeholder(f, v) + back;
    FrontHasNoMark(f, t, u, c);
    forall q | 0 <= q < |s|
      ensures !HasAt(s, p, q)
    {
      if HasAt(s, p, q) {
        HereOrInTheRest(f, front, v, back, u, q);
        NotInTheBack(f, u, c, more, q - |front + Placeholder(f, v)|);
      }
    }
    FindNone(s, p, 0);
  }

  /** Behind text without a mark, the first occurrence of a placeholder is the one that stands there. */
  lemma FirstIsHere(f: Format, a: string, v: Upload, b: string)
    requires IsFormat(f) && Proper(f, v) && NoMark(f, a)
    ensures var s := a + Placeholder(f, v) + b;
            Find(s, Placeholder(f, v), 0) == |a| && ReplaceFirst(s, Placeholder(f, v), Result(v)) == a + Result(v) + b
  {
    var p := Placeholder(f, v);
    var s := a + p + b;
    CutAt(a, p, b);
    forall q | 0 <= q < |a|
      ensures !HasAt(s, p, q)
    {
      if HasAt(s, p, q) {
        HereOrInTheRest(f, a, v, b, v, q);
      }
    }
    FindIs(s, p, 0, |a|);
  }

  /** What stays once the inner upload has settled. */
  function Opened(f: Format, t: string, u: Upload, c: nat, r: string, more: string): string
    requires c <= |Placeholder(f, u)|
  {
    t + Placeholder(f, u)[..c] + r + (Placeholder(f, u)[c..] + more)
  }

  lemma InnerSettles(f: Format, t: string, u: Upload, c: nat, v: Upload, more: string)
    requires IsNested(f, t, u, c, v, more)
    ensures ReplaceFirst(Nested(f, t, u, c, v, more), Placeholder(f, v), Result(v))
      == Opened(f, t, u, c, Result(v), more)
  {
    FrontHasNoMark(f, t, u, c);
    FirstIsHere(f, t + Placeholder(f, u)[..c], v, Placeholder(f, u)[c..] + more);
  }

  /** The reference repeats the part of the placeholder in front of it, so that the rest completes it again. */
  predicate Repeats(f: Format, u: Upload, c: nat, r: string)
    requires c <= |Placeholder(f, u)|
  {
    (Placeholder(f, u)[..c] + r)[|r|..] == Placeholder(f, u)[..c]
  }

  lemma RejoinsAs(t: string, head: string, r: string, tail: string, more: string)
    requires (head + r)[|r|..] == head
    ensures t + head + r + (tail + more) == (t + (head + r)[..|r|]) + (head + tail) + more
  {
    var x := head + r;
    assert x == x[..|r|] + head;
    assert t + head + r + (tail + more) == t + x + tail + more;
    assert t + (x[..|r|] + head) + tail + more == (t + x[..|r|]) + (head + tail) + more;
  }

  lemma RejoinsOnly(t: string, head: string, r: string, tail: string, more: string)
    requires HasAt(t + head + r + (tail + more), head + tail, |t| + |r|)
    ensures (head + r)[|r|..] == head
  {
    var s := t + head + r + (tail + more);
    assert s[|t|..|t| + |head| + |r|] == head + r;
    assert s[|t| + |r|..|t| + |r| + |head + tail|][..|head|] == head;
    assert s[|t|..|t| + |head| + |r|][|r|..] == s[|t| + |r|..|t| + |r| + |head|];
    assert s[|t| + |r|..|t| + |r| + |head + tail|][..|head|] == s[|t| + |r|..|t| + |r| + |head|];
  }

  /** Where a mark in the opened placeholder can only be: at the placeholder's own end. */
  lemma MarkInOpened(f: Format, t: string, u: Upload, c: nat, r: string, more: string, at: nat, k: nat)
    requires IsFormat(f) && Proper(f, u) && IsReference(f, r) && NoMark(f, t) && NoMark(f, more)
    requires 0 < c < |Placeholder(f, u)| && MarkAt(f, Opened(f, t, u, c, r, more), at, k)
    ensures at + c == |t| + c + |r| + |Head(f, u)|
  {
    var p := Placeholder(f, u);
    var front, back := t + p[..c], p[c..] + more;
    FrontHasNoMark(f, t, u, c);
    MarkBeside(f, front, r, back, at, k);
    MarkInBack(f, u, c, more, at - |front + r|, k - |front + r|);
  }

  lemma MarkInBack(f: Format, u: Upload, c: nat, more: string, at: nat, k: nat)
    requires IsFormat(f) && Proper(f, u) && NoMark(f, more) && 0 < c < |Placeholder(f, u)|
    requires MarkAt(f, Placeholder(f, u)[c..] + more, at, k)
    ensures at + c == |Head(f, u)|
  {
    var p := Placeholder(f, u);
    if |p| - c <= k {
      NotFromTheFront(f, p[c..], more, at, k);
      MarkRight(f, p[c..], more, at, k);
    } else {
      MarkLeft(f, p[c..], more, at, k);
      MarkInEnd(f, u, c, at, k);
    }
  }

  lemma MarkInEnd(f: Format, u: Upload, c: nat, at: nat, k: nat)
    requires IsFormat(f) && Proper(f, u) && c <= |Placeholder(f, u)| && MarkAt(f, Placeholder(f, u)[c..], at, k)
    ensures at + c == |Head(f, u)|
  {
    MarkOfEnd(f, Placeholder(f, u), c, at, k);
    MarkInPlaceholder(f, u, at + c, k + c);
  }

  lemma MarkOfEnd(f: Format, p: string, c: nat, at: nat, k: nat)
    requires c <= |p| && MarkAt(f, p[c..], at, k)
    ensures MarkAt(f, p, at + c, k + c)
  {
    DropIsSlice(p, c);
    SubMark(f, p, at + c, k + c, c, |p|);
  }

  /** Once the inner upload has left its reference, the outer placeholder is found at most in one place, further on. */
  lemma FoundInOpened(f: Format, t: string, u: Upload, c: nat, r: string, more: string, q: nat)
    requires IsFormat(f) && Proper(f, u) && IsReference(f, r) && NoMark(f, t) && NoMark(f, more)
    requires 0 < c < |Placeholder(f, u)| && HasAt(Opened(f, t, u, c, r, more), Placeholder(f, u), q)
    ensures q == |t| + |r| && Repeats(f, u, c, r)
  {
    var p, s := Placeholder(f, u), Opened(f, t, u, c, r, more);
    MarkOfUpload(f, s, u, q);
    MarkInOpened(f, t, u, c, r, more, q + |Head(f, u)|, q + |p| - 1);
    CutInTwo(p, c);
    RejoinsOnly(t, p[..c], r, p[c..], more);
  }

  lemma OuterAfterReference(f: Format, t: string, u: Upload, c: nat, r: string, more: string)
    requires IsFormat(f) && Proper(f, u) && IsReference(f, r) && NoMark(f, t) && NoMark(f, more)
    requires 0 < c < |Placeholder(f, u)|
    ensures var p, s := Placeholder(f, u), Opened(f, t, u, c, r, more);
            && Find(s, p, 0) == (if Repeats(f, u, c, r) then |t| + |r| else |s|)
            && ReplaceFirst(s, p, Result(u))
               == if Repeats(f, u, c, r) then t + (p[..c] + r)[..|r|] + Result(u) + more else s
  {
    var p, s := Placeholder(f, u), Opened(f, t, u, c, r, more);
    forall q: nat | HasAt(s, p, q)
      ensures q == |t| + |r| && Repeats(f, u, c, r)
    {
      FoundInOpened(f, t, u, c, r, more, q);
    }
    if Repeats(f, u, c, r) {
      CutInTwo(p, c);
      RejoinsAs(t, p[..c], r, p[c..], more);
      CutAt(t + (p[..c] + r)[..|r|], p, more);
      FindIs(s, p, 0, |t| + |r|);
    } else {
      FindNone(s, p, 0);
    }
  }

  lemma OpenedByNothing(f: Format, t: string, u: Upload, c: nat, more: string)
    requires c <= |Placeholder(f, u)|
    ensures Opened(f, t, u, c, "", more) == t + Placeholder(f, u) + more
  {
    var p := Placeholder(f, u);
    CutInTwo(p, c);
    EmptyBetween(t, p[..c], p[c..], more);
  }

  lemma EmptyBetween(a: string, b: string, c: string, e: string)
    ensures a + b + "" + (c + e) == a + (b + c) + e
  {
  }

  /** Where the editor finds the outer placeholder after the inner one has settled: in its place only if that failed. */
  lemma OuterIsFoundIff(f: Format, t: string, u: Upload, c: nat, v: Upload, more: string)
    requires IsNested(f, t, u, c, v, more)
    ensures var left := ReplaceFirst(Nested(f, t, u, c, v, more), Placeholder(f, v), Result(v));
            Find(left, Placeholder(f, u), 0) == |t| <==> v.result.None?
  {
    InnerSettles(f, t, u, c, v, more);
    if v.result.None? {
      OpenedByNothing(f, t, u, c, more);
      FirstIsHere(f, t, u, more);
    } else {
      OuterAfterReference(f, t, u, c, v.result.value, more);
    }
  }

  /** Where both orders of completion end. */
  lemma NestedOrders(f: Format, t: string, u: Upload, c: nat, v: Upload, more: string)
    requires IsNested(f, t, u, c, v, more)
    ensures var s, p := Nested(f, t, u, c, v, more), Placeholder(f, u);
            && SettleAll(f, s, [u, v]) == Opened(f, t, u, c, Result(v), more)
            && SettleAll(f, s, [v, u])
               == if v.result.None? then t + Result(u) + more
                  else if Repeats(f, u, c, Result(v)) then t + (p[..c] + Result(v))[..|Result(v)|] + Result(u) + more
                  else Opened(f, t, u, c, Result(v), more)
  {
    var s := Nested(f, t, u, c, v, more);
    InsertedInsideIsLost(f, t, u, c, v, more);
    InnerSettles(f, t, u, c, v, more);
    SettleTwo(f, s, u, v);
    SettleOne(f, s, v);
    SettleTwo(f, s, v, u);
    SettleOne(f, Opened(f, t, u, c, Result(v), more), u);
    if v.result.None? {
      OpenedByNothing(f, t, u, c, more);
      FirstIsHere(f, t, u, more);
    } else {
      OuterAfterReference(f, t, u, c, v.result.value, more);
    }
  }

  lemma SettleOne(f: Format, s: string, u: Upload)
    ensures SettleAll(f, s, [u]) == ReplaceFirst(s, Placeholder(f, u), Result(u))
  {
    assert [u][1..] == [];
  }

  lemma SettleTwo(f: Format, s: string, first: Upload, second: Upload)
    ensures SettleAll(f, s, [first, second])
      == SettleAll(f, ReplaceFirst(s, Placeholder(f, first), Result(first)), [second])
  {
    assert [first, second][0] == first && [first, second][1..] == [second];
  }

  /** The two orders agree if and only if the inner upload leaves a reference, and one that does not repeat. */
  lemma NestedOrdersAgreeIff(f: Format, t: string, u: Upload, c: nat, v: Upload, more: string)
    requires IsNested(f, t, u, c, v, more)
    ensures var s := Nested(f, t, u, c, v, more);
            SettleAll(f, s, [u, v]) == SettleAll(f, s, [v, u])
            <==> v.result.Some? && !Repeats(f, u, c, v.result.value)
  {
    NestedOrders(f, t, u, c, v, more);
    if v.result.None? {
      FailedInsideDiffers(f, t, u, c, more);
    } else if Repeats(f, u, c, v.result.value) {
      RepeatedInsideDiffers(f, t, u, c, v.result.value, more);
    }
  }

  lemma FailedInsideDiffers(f: Format, t: string, u: Upload, c: nat, more: string)
    requires IsFormat(f) && Proper(f, u) && c <= |Placeholder(f, u)|
    ensures Opened(f, t, u, c, "", more) != t + Result(u) + more
  {
    ResultIsNoPlaceholder(f, u);
    OpenedByNothing(f, t, u, c, more);
    if t + Placeholder(f, u) + more == t + Result(u) + more {
      SameAround(t, Placeholder(f, u), Result(u), more);
    }
  }

  lemma RepeatedInsideDiffers(f: Format, t: string, u: Upload, c: nat, r: string, more: string)
    requires IsFormat(f) && Proper(f, u) && c <= |Placeholder(f, u)| && Repeats(f, u, c, r)
    ensures Opened(f, t, u, c, r, more) != t + (Placeholder(f, u)[..c] + r)[..|r|] + Result(u) + more
  {
    var p := Placeholder(f, u);
    var front := t + (p[..c] + r)[..|r|];
    ResultIsNoPlaceholder(f, u);
    CutInTwo(p, c);
    RejoinsAs(t, p[..c], r, p[c..], more);
    if front + p + more == front + Result(u) + more {
      SameAround(front, p, Result(u), more);
    }
  }

  lemma ResultIsNoPlaceholder(f: Format, u: Upload)
    requires IsFormat(f) && Proper(f, u)
    ensures Result(u) != Placeholder(f, u)
  {
    EndsInMark(f, u);
  }

  lemma SameAround(a: string, x: string, y: string, b: string)
    requires a + x + b == a + y + b
    ensures x == y
  {
    var s := a + x + b;
    assert |s| == |a| + |x| + |b| == |a| + |y| + |b|;
    assert s[|a|..|a| + |x|] == x && s[|a|..|a| + |y|] == y;
  }

  lemma FindNone(s: string, piece: string, from: nat)
    requires from <= |s| && forall q :: from <= q < |s| ==> !HasAt(s, piece, q)
    ensures Find(s, piece, from) == |s|
  {
  }

  lemma FrontHasNoMark(f: Format, t: string, u: Upload, c: nat)
    requires IsFormat(f) && Proper(f, u) && NoMark(f, t) && 0 < c < |Placeholder(f, u)|
    ensures NoMark(f, t + Placeholder(f, u)[..c])
  {
    var p := Placeholder(f, u);
    assert p[..c] == p[0..c] && p[..c][0] == '!';
    forall at: nat, k: nat | MarkAt(f, p[..c], at, k)
      ensures false
    {
      SubMark(f, p, at, k, 0, c);
      MarkInPlaceholder(f, u, at, k);
    }
    NoMarkAcross(f, t, p[..c]);
  }

  /** Nothing that opens with `!` completes a mark. */
  lemma NoMarkAcross(f: Format, a: string, b: string)
    requires IsFormat(f) && NoMark(f, a) && NoMark(f, b) && b != "" && b[0] == '!'
    ensures NoMark(f, a + b)
  {
    forall at: nat, k: nat | MarkAt(f, a + b, at, k)
      ensures false
    {
      if k < |a| {
        MarkLeft(f, a, b, at, k);
      } else if at <= |a| {
        MarkChars(f, a + b, at, k, |a|);
      } else {
        MarkRight(f, a, b, at, k);
      }
    }
  }

  lemma NotInTheBack(f: Format, u: Upload, c: nat, more: string, q: nat)
    requires IsFormat(f) && Proper(f, u) && NoMark(f, more) && 0 < c < |Placeholder(f, u)|
    ensures !HasAt(Placeholder(f, u)[c..] + more, Placeholder(f, u), q)
  {
    var p := Placeholder(f, u);
    var front := p[c..];
    if HasAt(front + more, p, q) {
      MarkOfUpload(f, front + more, u, q);
      assert front[|front| - 1] == p[|p| - 1] == ')';
      MarkBehind(f, front, more, q + |Head(f, u)|, q + |p| - 1);
    }
  }

  lemma MarkBehind(f: Format, front: string, more: string, at: nat, k: nat)
    requires IsFormat(f) && front != "" && front[|front| - 1] == ')'
    requires MarkAt(f, front + more, at, k) && |front| <= k
    ensures !NoMark(f, more)
  {
    NotFromTheFront(f, front, more, at, k);
    MarkRight(f, front, more, at, k);
  }

  /** A mark that ends behind a closing parenthesis begins behind it. */
  lemma NotFromTheFront(f: Format, front: string, more: string, at: nat, k: nat)
    requires IsFormat(f) && front != "" && front[|front| - 1] == ')'
    requires MarkAt(f, front + more, at, k) && |front| <= k
    ensures |front| <= at
  {
    if at < |front| {
      MarkChars(f, front + more, at, k, |front| - 1);
    }
  }

  // ----- exactly which names are harmless -----

  function Beside(u: Upload, v: Upload): Doc {
    Slot("", u, Slot("", v, End("")))
  }

  /** With `u`'s placeholder in front of `v`'s, what the editor does when `v` settles is what settling means. */
  predicate SettlesBeside(f: Format, u: Upload, v: Upload) {
    var d := Beside(u, v);
    ReplaceFirst(Show(f, d), Placeholder(f, v), Result(v)) == Show(f, Settle(d, v.nonce))
  }

  lemma ShowBeside(f: Format, u: Upload, v: Upload)
    requires u.nonce != v.nonce
    ensures Show(f, Beside(u, v)) == Placeholder(f, u) + Placeholder(f, v)
    ensures Show(f, Settle(Beside(u, v), v.nonce)) == Placeholder(f, u) + Result(v)
  {
    var rest := Slot("", v, End(""));
    EmptyAround(Placeholder(f, v));
    EmptyAround(Result(v));
    EmptyAround(Placeholder(f, u));
    assert Show(f, rest) == Placeholder(f, v);
    assert Settle(rest, v.nonce) == End(Result(v));
  }

  lemma EmptyAround(s: string)
    ensures "" + s + "" == "" + s == s + "" == s
  {
  }

  /** A placeholder that occurs inside an earlier one is replaced there, and stays where it was put. */
  lemma OccurrenceTakesTheReplacement(f: Format, u: Upload, v: Upload, q: nat)
    requires IsFormat(f) && f.draws(u.nonce) && f.draws(v.nonce) && u.nonce != v.nonce && v.result == None
    requires HasAt(Placeholder(f, u), Placeholder(f, v), q)
    ensures !SettlesBeside(f, u, v)
  {
    var p, piece := Placeholder(f, u), Placeholder(f, v);
    ShowBeside(f, u, v);
    var first := FirstInside(p, piece, q);
    if p[..first] + p[first + |piece|..] + piece == p {
      EndsDiffer(f, u, v, p[..first] + p[first + |piece|..]);
    }
  }

  /** A placeholder does not end in another one. */
  lemma EndsDiffer(f: Format, u: Upload, v: Upload, front: string)
    requires IsFormat(f) && f.draws(u.nonce) && f.draws(v.nonce) && u.nonce != v.nonce
    ensures Placeholder(f, u) != front + Placeholder(f, v)
  {
    var p := Placeholder(f, u);
    if p == front + Placeholder(f, v) {
      InTheMiddle(front, Placeholder(f, v), "");
      InTheMiddle("", p, "");
      assert "" + p + "" == p && front + Placeholder(f, v) + "" == p;
      SameEndSameNonce(f, p, u, 0, v, |front|);
    }
  }

  lemma FirstInside(p: string, piece: string, q: nat) returns (first: nat)
    requires piece != "" && HasAt(p, piece, q)
    ensures first + |piece| <= |p|
    ensures ReplaceFirst(p + piece, piece, "") == p[..first] + p[first + |piece|..] + piece
  {
    var s := p + piece;
    assert s[0..|p|] == p;
    SubAt(s, piece, q, 0, |p|);
    first := Find(s, piece, 0);
    assert first <= q;
    assert s[..first] == p[..first] && s[first + |piece|..] == p[first + |piece|..] + piece;
    assert p[..first] + "" + (p[first + |piece|..] + piece) == p[..first] + p[first + |piece|..] + piece;
  }

  lemma InTheName(a: string, x: string, piece: string, y: string, b: string, c: string, e: string)
    ensures HasAt(a + (x + piece + y) + b + c + e, piece, |a| + |x|)
  {
    InTheMiddle(a + x, piece, y + b + c + e);
    assert a + (x + piece + y) + b + c + e == (a + x) + piece + (y + b + c + e);
  }

  /** A name that holds another upload's placeholder, with any text around it, takes that upload's replacement. */
  lemma NameCanTakeTheReplacement(f: Format, x: string, y: string, nonce: string, v: Upload)
    requires IsFormat(f) && f.draws(nonce) && f.draws(v.nonce) && nonce != v.nonce && v.result == None
    ensures !SettlesBeside(f, Upload(x + Placeholder(f, v) + y, nonce, None), v)
  {
    InTheName("![" + f.before, x, Placeholder(f, v), y, Stem(f), nonce, ")");
    OccurrenceTakesTheReplacement(f, Upload(x + Placeholder(f, v) + y, nonce, None), v, |"![" + f.before| + |x|);
  }

  /** The part of a name before its first mark. */
  lemma FirstMark(f: Format, name: string, at: nat, k: nat) returns (first: nat, end: nat)
    requires MarkAt(f, name, at, k)
    ensures MarkAt(f, name, first, end) && NoMark(f, name[..first])
    decreases at
  {
    if NoMark(f, name[..at]) {
      first, end := at, k;
    } else {
      var a: nat, b: nat :| MarkAt(f, name[..at], a, b);
      assert name[..at] == name[0..at];
      SubMark(f, name, a, b, 0, at);
      first, end := FirstMark(f, name, a, b);
    }
  }

  lemma AtTheStart(a: string, b: string, c: string, n: string, at: nat, k: nat)
    requires at + |b| <= k < |n| && n[at..at + |b|] == b && n[at + |b|..k] == c && n[k] == ')'
    ensures HasAt(a + n, a + n[..at] + b + c + ")", 0)
  {
    assert n[..k + 1] == n[..at] + b + c + ")";
    assert (a + n)[0..|a| + k + 1] == a + n[..k + 1];
    assert a + (n[..at] + b + c + ")") == a + n[..at] + b + c + ")";
  }

  lemma AtTheStartOf(s: string, piece: string, more: string)
    requires HasAt(s, piece, 0)
    ensures HasAt(s + more, piece, 0)
  {
    assert (s + more)[0..|piece|] == s[0..|piece|];
  }

  lemma MarkedNameTakes(f: Format, name: string, at: nat, k: nat, nonce: string) returns (v: Upload)
    requires IsFormat(f) && MarkAt(f, name, at, k) && NoMark(f, name[..at])
    requires f.draws(nonce) && nonce != name[at + |Stem(f)|..k]
    ensures Proper(f, v) && v.nonce == name[at + |Stem(f)|..k] && !SettlesBeside(f, Upload(name, nonce, None), v)
  {
    var u := Upload(name, nonce, None);
    v := Upload(name[..at], name[at + |Stem(f)|..k], None);
    AtTheStart("![" + f.before, Stem(f), v.nonce, name, at, k);
    AtTheStartOf(Head(f, u), Placeholder(f, v), Stem(f) + nonce + ")");
    CutThrice(Head(f, u), Stem(f), nonce, ")");
    OccurrenceTakesTheReplacement(f, u, v, 0);
  }

  /**
   A name is harmless beside every other upload, if and only if it holds no mark: no end of a placeholder with a
   nonce that could be drawn. Two nonces, `a` and `b`, must exist for there to be another upload.
   */
  lemma HarmlessNameIff(f: Format, name: string, a: string, b: string)
    requires IsFormat(f) && f.draws(a) && f.draws(b) && a != b
    ensures NoMark(f, name)
      <==> forall nonce: string, v: Upload :: f.draws(nonce) && Proper(f, v) && v.nonce != nonce
             ==> SettlesBeside(f, Upload(name, nonce, None), v)
  {
    if NoMark(f, name) {
      forall nonce: string, v: Upload | f.draws(nonce) && Proper(f, v) && v.nonce != nonce
        ensures SettlesBeside(f, Upload(name, nonce, None), v)
      {
        HarmlessBeside(f, Upload(name, nonce, None), v);
      }
    } else {
      var at: nat, k: nat :| MarkAt(f, name, at, k);
      var first, end := FirstMark(f, name, at, k);
      var other := if name[first + |Stem(f)|..end] == a then b else a;
      var v := MarkedNameTakes(f, name, first, end, other);
    }
  }

  lemma HarmlessBeside(f: Format, u: Upload, v: Upload)
    requires IsFormat(f) && Proper(f, u) && Proper(f, v) && u.nonce != v.nonce
    ensures SettlesBeside(f, u, v)
  {
    var d := Beside(u, v);
    var rest := Slot("", v, End(""));
    assert Pending(rest) == [v] + [] == [v];
    assert Pending(d) == [u] + [v] == [u, v];
    assert Typed(rest) == "" + "" == "";
    assert Typed(d) == "" + Typed(rest);
    assert Pending(d)[1] == v;
    ReplaceSettles(f, d, 1);
  }

  // ----- the editor's own copy of the text -----

  class ValueRef {
    const format: Format
    var current: string

    constructor (format: Format, text: string)
      ensures this.format == format && current == text
    {
      this.format := format;
      current := text;
    }

    method OnStart(caret: nat, u: Upload)
      modifies this
      ensures current == EditBy(format, old(current), Begin(caret, u))
    {
      var before := Slice(current, 0, caret);
      var after := Slice(current, caret, |current|);
      current := before + Placeholder(format, u) + after;
    }

    method OnSettled(u: Upload)
      modifies this
      ensures current == EditBy(format, old(current), Done(u))
    {
      if u.result.Some? {
        current := ReplaceFirst(current, Placeholder(format, u), u.result.value);
      } else {
        current := ReplaceFirst(current, Placeholder(format, u), "");
      }
    }
  }

  /** In either language: the text of an editor that was opened on a text without a mark follows the document. */
  lemma EveryEditorFollows(draws: string -> bool, english: bool, text: string, events: seq<Event>)
    requires forall n :: draws(n) ==> IsPlain(n)
    requires var f := if english then English(draws) else Spanish(draws);
             NoMark(f, text) && Legal(f, End(text), events)
    ensures var f := if english then English(draws) else Spanish(draws);
            DocAfterAll(f, End(text), events).Some?
            && EditAll(f, text, events) == Show(f, DocAfterAll(f, End(text), events).value)
  {
    EditorFormats(draws);
    EditorFollowsDoc(if english then English(draws) else Spanish(draws), End(text), events);
  }
}
