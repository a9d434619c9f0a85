/** The three inline tokens: what they look like, what they carry, and the element each is turned into. */
module Tokens {
  import opened Options
  import opened Text
  import opened Splitting
  import opened Patterns
  import opened Hast
  import opened Scanner

  /** One pass per token kind. `slugify` is the shared slug function; no result depends on what it computes. */
  datatype Pass = WikiLinks(slugify: string -> string) | SecretChips | AttachmentImages

  const OPEN := '\U{E000}'
  const CLOSE := '\U{E001}'
  const SECRET := "lazyit_secret."

  function WikiPattern(): Pattern {
    One('[', One('[', Plus(Body, One(']', One(']', Done)))))
  }

  /** The part of the chip pattern after its two opening braces. */
  function ChipInside(): Pattern {
    Star(Space, Word(SECRET, Plus(Handle, Star(Space, One('}', One('}', Done))))))
  }

  function ChipPattern(): Pattern {
    One('{', One('{', ChipInside()))
  }

  function ImagePattern(): Pattern {
    One(OPEN, Plus(Id, One(CLOSE, Done)))
  }

  function PatternOf(pass: Pass): Pattern {
    match pass
    case WikiLinks(_) => WikiPattern()
    case SecretChips => ChipPattern()
    case AttachmentImages => ImagePattern()
  }

  lemma SecretIsPlain(k: nat)
    requires k < |SECRET|
    ensures SECRET[k] != '{' && SECRET[k] != '[' && SECRET[k] != '}'
  {
  }

  lemma PatternsAreDeterminate(pass: Pass)
    ensures Determinate(PatternOf(pass))
  {
    if pass.SecretChips? {
      var close := One('}', One('}', Done));
      assert Determinate(Plus(Handle, Star(Space, close)));
      assert SECRET[0] == 'l';
    }
  }

  lemma PatternsOpenOnce(pass: Pass)
    ensures OpensOnce(PatternOf(pass))
  {
    if pass.SecretChips? {
      forall k | 0 <= k < |SECRET|
        ensures SECRET[k] != '{'
      {
        SecretIsPlain(k);
      }
    }
  }

  // ----- what a token stands for -----

  /** The part of a token the code captures: the wiki body, the handle, or the attachment id. */
  function Capture(pass: Pass, t: string): string {
    match pass
    case WikiLinks(_) => if |t| < 2 then "" else t[2..2 + Run(Body, t, 2)]
    case SecretChips =>
      if |t| < 2 then ""
      else
        var handle := 2 + Run(Space, t, 2) + |SECRET|;
        if |t| < handle then "" else t[handle..handle + Run(Handle, t, handle)]
    case AttachmentImages => if |t| < 1 then "" else t[1..1 + Run(Id, t, 1)]
  }

  function UpToFirst(s: string, c: char): string {
    s[..IndexOf(s, c)]
  }

  /** The target is what comes before the alias and before the anchor. */
  function Target(body: string): string {
    UpToFirst(UpToFirst(body, '|'), '#')
  }

  /** What comes after the first bar, if there is one. */
  function Alias(body: string): Option<string> {
    var bar := IndexOf(body, '|');
    if bar < |body| then Some(body[bar + 1..]) else None
  }

  function Label(body: string): string {
    var shown := if Alias(body).Some? then Trim(Alias(body).value) else Trim(Target(body));
    if shown != "" then shown else Trim(Target(body))
  }

  lemma UpToFirstBehind(front: string, more: string, c: char)
    requires forall k :: 0 <= k < |front| ==> front[k] != c
    ensures UpToFirst(front + more, c) == front + UpToFirst(more, c)
  {
    IndexBehind(front, more, c);
    assert (front + more)[..|front| + IndexOf(more, c)] == front + more[..IndexOf(more, c)];
  }

  lemma OpensAtOnce(more: string, c: char)
    requires more != "" ==> more[0] == c
    ensures UpToFirst(more, c) == ""
  {
  }

  /** Whatever stands behind `#` or `|`, the target is what comes before. */
  lemma TargetIs(target: string, more: string)
    requires forall k :: 0 <= k < |target| ==> target[k] != '|' && target[k] != '#'
    requires more != "" ==> more[0] == '|' || more[0] == '#'
    ensures Target(target + more) == target
  {
    UpToFirstBehind(target, more, '|');
    UpToFirstBehind(target, UpToFirst(more, '|'), '#');
    OpensAtOnce(UpToFirst(more, '|'), '#');
    assert target + "" == target;
  }

  lemma AliasBehind(front: string, more: string)
    requires forall k :: 0 <= k < |front| ==> front[k] != '|'
    ensures Alias(front + more) == Alias(more)
  {
    var bar := IndexOf(more, '|');
    IndexBehind(front, more, '|');
    if bar < |more| {
      TailBehind(front, more, bar + 1);
    }
  }

  lemma TailBehind(front: string, more: string, k: nat)
    requires k <= |more|
    ensures (front + more)[|front| + k..] == more[k..]
  {
  }

  /** Only what follows the first `|` is shown, trimmed, and the target where that is blank or missing. */
  lemma LabelIs(target: string, more: string)
    requires forall k :: 0 <= k < |target| ==> target[k] != '|' && target[k] != '#'
    requires more != "" ==> more[0] == '|' || more[0] == '#'
    ensures Label(target + more)
      == if Alias(more).Some? && Trim(Alias(more).value) != "" then Trim(Alias(more).value) else Trim(target)
  {
    TargetIs(target, more);
    AliasBehind(target, more);
  }

  lemma IndexBehind(front: string, more: string, c: char)
    requires forall k :: 0 <= k < |front| ==> front[k] != c
    ensures IndexOf(front + more, c) == |front| + IndexOf(more, c)
  {
    var s, i := front + more, IndexOf(more, c);
    assert forall k :: |front| <= k < |s| ==> s[k] == more[k - |front|];
    IndexOfIs(s, c, |front| + i);
  }

  /** The element a token becomes; an empty or anchor-only wiki link becomes none. */
  function Mint(pass: Pass, t: string): Option<Node> {
    var captured := Capture(pass, t);
    match pass
    case WikiLinks(slugify) =>
      var slug := slugify(Target(captured));
      if slug == "" then None
      else
        var props := map["slug" := Str(slug), "label" := Str(Label(captured))];
        Some(Element(WikiLink, props, [Node.Text(Label(captured))]))
    case SecretChips => Some(Element(SecretChip, map["handle" := Str(captured)], [Node.Text(t)]))
    case AttachmentImages => Some(Element(AttachmentImg, map["attachment" := Str(captured)], []))
  }

  // ----- what the code reads, said without patterns -----

  predicate NoBrackets(s: string) {
    forall k :: 0 <= k < |s| ==> s[k] != '[' && s[k] != ']'
  }

  lemma LinkCaptures(slugify: string -> string, body: string)
    requires body != "" && NoBrackets(body)
    ensures Matches(WikiPattern(), "[[" + body + "]]")
    ensures Capture(WikiLinks(slugify), "[[" + body + "]]") == body
  {
    TwiceOnly(']', "]]");
    RunOf(Plus(Body, One(']', One(']', Done))), body, "]]");
    TwiceOf('[', Plus(Body, One(']', One(']', Done))), body + "]]");
    assert "[[" + body + "]]" == "[[" + (body + "]]");
    RunInside(Body, "[[", body, "]]");
  }

  /** Nothing but a body without brackets between two pairs of them is a wiki link. */
  lemma EveryLinkHasBody(t: string) returns (body: string)
    requires Matches(WikiPattern(), t)
    ensures body != "" && NoBrackets(body) && t == "[[" + body + "]]"
  {
    TwiceFirst('[', Plus(Body, One(']', One(']', Done))), t);
    var n := TakenRun(Plus(Body, One(']', One(']', Done))), t[2..]);
    body := t[2..][..n];
    TwiceOnly(']', t[2..][n..]);
    CutInTwo(t[2..], n);
    ConcatAssoc("[[", body, "]]");
  }

  /** A target, perhaps an anchor behind it, perhaps an alias behind both. */
  function BodyOf(target: string, anchor: string, alias: Option<string>): string {
    target + anchor + if alias.Some? then "|" + alias.value else ""
  }

  predicate BodyParts(target: string, anchor: string) {
    && (forall k :: 0 <= k < |target| ==> target[k] != '|' && target[k] != '#')
    && (forall k :: 0 <= k < |anchor| ==> anchor[k] != '|')
    && (anchor != "" ==> anchor[0] == '#')
  }

  lemma AliasOf(front: string, alias: Option<string>)
    requires forall k :: 0 <= k < |front| ==> front[k] != '|'
    ensures Alias(front + if alias.Some? then "|" + alias.value else "")
      == alias
  {
    var more := if alias.Some? then "|" + alias.value else "";
    AliasBehind(front, more);
    if alias.Some? {
      assert more[1..] == alias.value;
    }
  }

  /**
   A link goes to the slug of its target, whatever anchor and alias follow; it shows its alias, trimmed, or its
   trimmed target where the alias is missing or blank; and a target with an empty slug makes no link.
   */
  lemma LinkMeans(slugify: string -> string, target: string, anchor: string, alias: Option<string>)
    requires BodyParts(target, anchor)
    requires BodyOf(target, anchor, alias) != "" && NoBrackets(BodyOf(target, anchor, alias))
    ensures var shown := if alias.Some? && Trim(alias.value) != "" then Trim(alias.value) else Trim(target);
            Mint(WikiLinks(slugify), "[[" + BodyOf(target, anchor, alias) + "]]")
            == if slugify(target) == "" then None
               else Some(Element(WikiLink, map["slug" := Str(slugify(target)), "label" := Str(shown)],
                                 [Node.Text(shown)]))
  {
    LinkCaptures(slugify, BodyOf(target, anchor, alias));
    BodyMeans(target, anchor, alias);
  }

  lemma BodyMeans(target: string, anchor: string, alias: Option<string>)
    requires BodyParts(target, anchor)
    ensures Target(BodyOf(target, anchor, alias)) == target
    ensures Label(BodyOf(target, anchor, alias))
      == if alias.Some? && Trim(alias.value) != "" then Trim(alias.value) else Trim(target)
  {
    var tail := if alias.Some? then "|" + alias.value else "";
    ConcatAssoc(target, anchor, tail);
    BehindTarget(anchor, alias);
    TargetIs(target, anchor + tail);
    AliasOf(target + anchor, alias);
    LabelFrom(BodyOf(target, anchor, alias), target, alias);
  }

  lemma BehindTarget(anchor: string, alias: Option<string>)
    requires anchor != "" ==> anchor[0] == '#'
    ensures var more := anchor + if alias.Some? then "|" + alias.value else "";
            more != "" ==> more[0] == '|' || more[0] == '#'
  {
  }

  lemma LabelFrom(body: string, target: string, alias: Option<string>)
    requires Target(body) == target && Alias(body) == alias
    ensures Label(body) == if alias.Some? && Trim(alias.value) != "" then Trim(alias.value) else Trim(target)
  {
  }

  /** Every body is of that form. */
  lemma EveryBodyHasParts(body: string) returns (target: string, anchor: string, alias: Option<string>)
    ensures BodyParts(target, anchor) && body == BodyOf(target, anchor, alias)
  {
    var bar := IndexOf(body, '|');
    var hash := IndexOf(body[..bar], '#');
    target, anchor := body[..bar][..hash], body[..bar][hash..];
    alias := if bar < |body| then Some(body[bar + 1..]) else None;
    CutInTwo(body[..bar], hash);
    CutInTwo(body, bar);
    BehindBar(body, bar);
  }

  lemma BehindBar(body: string, bar: nat)
    requires bar <= |body| && (bar < |body| ==> body[bar] == '|')
    ensures body[bar..] == if bar < |body| then "|" + body[bar + 1..] else ""
  {
  }

  function ChipText(before: string, handle: string, after: string): string {
    "{{" + before + SECRET + handle + after + "}}"
  }

  predicate IsHandle(s: string) {
    s != "" && forall k :: 0 <= k < |s| ==> HandleChar(s[k])
  }

  predicate HandleChar(c: char) {
    'a' <= c <= 'z' || 'A' <= c <= 'Z' || '0' <= c <= '9' || c == '_' || c == '.' || c == '-'
  }

  /** The texts that are a chip: a handle behind the fixed word, and white space between them and the braces. */
  predicate ChipParts(before: string, handle: string, after: string) {
    All(Space, before) && All(Space, after) && IsHandle(handle)
  }

  lemma ChipMatches(before: string, handle: string, after: string)
    requires ChipParts(before, handle, after)
    ensures Matches(ChipPattern(), ChipText(before, handle, after))
  {
    var close := One('}', One('}', Done));
    TwiceOnly('}', "}}");
    RunOf(Star(Space, close), after, "}}");
    RunOf(Plus(Handle, Star(Space, close)), handle, after + "}}");
    WordOf(Word(SECRET, Plus(Handle, Star(Space, close))), handle + (after + "}}"));
    RunOf(ChipInside(), before, SECRET + (handle + (after + "}}")));
    TwiceOf('{', ChipInside(), before + (SECRET + (handle + (after + "}}"))));
    ChipBraced(before, SECRET, handle, after);
  }

  lemma ChipBraced(before: string, word: string, handle: string, after: string)
    ensures "{{" + before + word + handle + after + "}}" == "{{" + (before + (word + (handle + (after + "}}"))))
  {
  }

  lemma ChipRuns(open: string, before: string, word: string, handle: string, after: string, close: string)
    requires All(Space, before) && All(Space, after) && All(Handle, handle) && handle != ""
    requires word != "" && !IsSpace(word[0])
    requires close != "" && !In(Handle, close[0])
    ensures var t := open + before + word + handle + after + close;
            && Run(Space, t, |open|) == |before|
            && Run(Handle, t, |open| + |before| + |word|) == |handle|
            && t[|open| + |before| + |word|..|open| + |before| + |word| + |handle|] == handle
  {
    Regrouped(open, before, word, handle, after, close);
    RunInside(Space, open, before, word + handle + after + close);
    HandleEnds(after, close);
    RunInside(Handle, open + before + word, handle, after + close);
  }

  lemma HandleEnds(after: string, close: string)
    requires All(Space, after) && close != "" && !In(Handle, close[0])
    ensures after + close != "" && !In(Handle, (after + close)[0])
  {
    if after != "" {
      ApartShareNothing(Space, Handle, after[0]);
    }
  }

  lemma Regrouped(open: string, before: string, word: string, handle: string, after: string, close: string)
    ensures open + before + word + handle + after + close == (open + before) + (word + handle + after + close)
    ensures open + before + word + handle + after + close == (open + before + word) + handle + (after + close)
  {
    var x := open + before;
    ConcatAssoc(x, word + handle + after, close);
    ConcatAssoc(x, word + handle, after);
    ConcatAssoc(x, word, handle);
    ConcatAssoc(x + word + handle, after, close);
  }

  lemma CaptureIs(t: string, spaces: nat, handle: nat)
    requires 2 + spaces + |SECRET| + handle <= |t| && Run(Space, t, 2) == spaces
    requires Run(Handle, t, 2 + spaces + |SECRET|) == handle
    ensures Capture(SecretChips, t) == t[2 + spaces + |SECRET|..2 + spaces + |SECRET| + handle]
  {
  }

  lemma ChipCaptures(before: string, handle: string, after: string)
    requires ChipParts(before, handle, after)
    ensures Capture(SecretChips, ChipText(before, handle, after)) == handle
  {
    assert SECRET[0] == 'l';
    ChipRuns("{{", before, SECRET, handle, after, "}}");
    CaptureIs(ChipText(before, handle, after), |before|, |handle|);
  }

  /** A chip carries its handle and reads like the text it was written as. */
  lemma ChipMeans(before: string, handle: string, after: string)
    requires ChipParts(before, handle, after)
    ensures var t := ChipText(before, handle, after);
            Mint(SecretChips, t) == Some(Element(SecretChip, map["handle" := Str(handle)], [Node.Text(t)]))
  {
    ChipCaptures(before, handle, after);
  }

  /** Nothing else is one. */
  lemma EveryChipHasParts(t: string) returns (before: string, handle: string, after: string)
    requires Matches(ChipPattern(), t)
    ensures ChipParts(before, handle, after) && t == ChipText(before, handle, after)
  {
    var close := One('}', One('}', Done));
    TwiceFirst('{', ChipInside(), t);
    var n := TakenRun(ChipInside(), t[2..]);
    before := t[2..][..n];
    CutInTwo(t[2..], n);
    var rest := AfterSecret(t[2..][n..]);
    var m := TakenRun(Plus(Handle, Star(Space, close)), rest);
    handle := rest[..m];
    CutInTwo(rest, m);
    var k := TakenRun(Star(Space, close), rest[m..]);
    after := rest[m..][..k];
    CutInTwo(rest[m..], k);
    TwiceOnly('}', rest[m..][k..]);
    ChipBraced(before, SECRET, handle, after);
  }

  lemma AfterSecret(t: string) returns (rest: string)
    requires Matches(ChipInside().rest, t)
    ensures t == SECRET + rest && Matches(ChipInside().rest.rest, rest)
  {
    rest := t[|SECRET|..];
    CutInTwo(t, |SECRET|);
  }

  /** Nothing but letters and digits between the two private characters is an attachment token. */
  lemma EveryImageHasId(t: string) returns (id: string)
    requires Matches(ImagePattern(), t)
    ensures id != "" && (forall k :: 0 <= k < |id| ==> IsAlnum(id[k])) && t == ['\U{E000}'] + id + ['\U{E001}']
  {
    var n := TakenRun(Plus(Id, One(CLOSE, Done)), t[1..]);
    id := t[1..][..n];
    CutInTwo(t[1..], n);
    assert t[1..][n..] == [CLOSE];
    assert t == [OPEN] + t[1..];
  }

  /** The rule the scanner runs for a pass. */
  function RuleOf(pass: Pass): Rule {
    PatternsAreDeterminate(pass);
    PatternsOpenOnce(pass);
    AnyRule(PatternOf(pass), t => Mint(pass, t))
  }
}
