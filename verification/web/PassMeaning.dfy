/**
 What a pass does to a tree, said without the walk, its scan or its cuts: which result is the right one for a
 given tree. `PassIsExact` says that a pass returns that result, and that there is only one.
 */
module PassMeaning {
  import opened Options
  import opened Text
  import opened Hast
  import opened Patterns
  import opened Scanner
  import opened Tokens
  import opened Walk
  import opened Passes

  /** The elements whose text a pass must leave alone: code of either kind, and what is already a token. */
  predicate Verbatim(pass: Pass, tag: Tag) {
    || tag.Code? || tag.Pre?
    || (match pass
        case WikiLinks(_) => tag.WikiLink?
        case SecretChips => tag.SecretChip? || tag.WikiLink?
        case AttachmentImages => tag.AttachmentImg?)
  }

  /** `s[i..e]` is a token that becomes an element. */
  ghost predicate TokenAt(pass: Pass, s: string, i: nat, e: nat) {
    i <= e <= |s| && Matches(PatternOf(pass), s[i..e]) && Mint(pass, s[i..e]).Some?
  }

  ghost predicate NoTokenAt(pass: Pass, s: string, i: nat) {
    forall e :: !TokenAt(pass, s, i, e)
  }

  /** No token begins between `lo` and `hi`. */
  ghost predicate Clear(pass: Pass, s: string, lo: nat, hi: nat) {
    forall i :: lo <= i < hi ==> NoTokenAt(pass, s, i)
  }

  /** `ns` is `s[from..]` with every token in its place turned into its element, and the text between them whole. */
  ghost predicate SplitsInto(pass: Pass, s: string, from: nat, ns: seq<Node>)
    decreases |ns|, 1
  {
    if ns == [] then from == |s|
    else if ns[0].Text? then PlainThen(pass, s, from, from + |ns[0].value|, ns)
    else exists e :: TokenThen(pass, s, from, e, ns)
  }

  /** First comes text up to `to`, in which no token begins, and then no further text. */
  ghost predicate PlainThen(pass: Pass, s: string, from: nat, to: nat, ns: seq<Node>)
    requires ns != []
    decreases |ns|, 0
  {
    && from < to <= |s| && ns[0] == Node.Text(s[from..to])
    && Clear(pass, s, from, to)
    && (|ns| > 1 ==> !ns[1].Text?)
    && SplitsInto(pass, s, to, ns[1..])
  }

  ghost predicate TokenThen(pass: Pass, s: string, from: nat, e: nat, ns: seq<Node>)
    requires ns != []
    decreases |ns|, 0
  {
    TokenAt(pass, s, from, e) && Mint(pass, s[from..e]) == Some(ns[0]) && SplitsInto(pass, s, e, ns[1..])
  }

  /** What may stand for one child: a text split, if there is anything to split, and all else as it was. */
  ghost predicate RendersChild(pass: Pass, c: Node, ns: seq<Node>)
    decreases c, 1
  {
    match c
    case Text(s) =>
      if exists i, e :: TokenAt(pass, s, i, e) then SplitsInto(pass, s, 0, ns) else ns == [c]
    case Leaf(_) => ns == [c]
    case Element(tag, props, children) =>
      if Verbatim(pass, tag) then ns == [c]
      else |ns| == 1 && ns[0].Element? && ns[0].tag == tag && ns[0].props == props
           && Renders(pass, children, ns[0].children)
    case Container(kind, children) =>
      |ns| == 1 && ns[0].Container? && ns[0].kind == kind && Renders(pass, children, ns[0].children)
  }

  /** `after` is what stands for each child in turn. */
  ghost predicate Renders(pass: Pass, before: seq<Node>, after: seq<Node>)
    decreases before, 0
  {
    if before == [] then after == []
    else exists n :: RendersFirst(pass, before, after, n)
  }

  ghost predicate RendersFirst(pass: Pass, before: seq<Node>, after: seq<Node>, n: int)
    requires before != []
    decreases before, 0, 0
  {
    0 <= n <= |after| && RendersChild(pass, before[0], after[..n]) && Renders(pass, before[1..], after[n..])
  }

  // ----- a pass does that -----

  lemma VerbatimIsLiteral(pass: Pass, tag: Tag)
    ensures Verbatim(pass, tag) <==> tag in Literals(pass)
  {
  }

  lemma TokenIsUsable(pass: Pass, s: string, i: nat, e: nat)
    ensures TokenAt(pass, s, i, e) <==> Usable(RuleOf(pass), s, i, e)
  {
    if i <= e <= |s| {
      ScanIsTheOnlyMatch(RuleOf(pass).pattern, s, i, e);
    }
  }

  /** The cut is right: a token and its element, or a stretch in which none begins. */
  ghost predicate RightCut(pass: Pass, s: string, c: Cut) {
    && c.lo < c.hi <= |s|
    && if c.minted.Some? then TokenAt(pass, s, c.lo, c.hi) && Mint(pass, s[c.lo..c.hi]) == c.minted
       else Clear(pass, s, c.lo, c.hi)
  }

  lemma OneCutPerPlace(cuts: seq<Cut>, end: nat, j: nat, k: nat, i: nat)
    requires Tile(cuts, 0, end) && j < |cuts| && k < |cuts|
    requires cuts[j].lo <= i < cuts[j].hi && cuts[k].lo <= i < cuts[k].hi
    ensures j == k
  {
    if j < k {
      TileApart(cuts, 0, end, j, k);
    } else if k < j {
      TileApart(cuts, 0, end, k, j);
    }
  }

  lemma NoTokenInPlain(pass: Pass, s: string, k: nat, i: nat, e: nat)
    requires var cuts := Cuts(RuleOf(pass), s);
             k < |cuts| && cuts[k].minted.None? && cuts[k].lo <= i < cuts[k].hi
    ensures !TokenAt(pass, s, i, e)
  {
    TokenIsUsable(pass, s, i, e);
    if Usable(RuleOf(pass), s, i, e) {
      var j := MintedAt(RuleOf(pass), s, i, e);
      CutsTile(RuleOf(pass), s, 0, 0);
      TileWithin(Cuts(RuleOf(pass), s), 0, |s|, j);
      OneCutPerPlace(Cuts(RuleOf(pass), s), |s|, j, k, i);
    }
  }

  lemma CutIsRight(pass: Pass, s: string, k: nat)
    requires k < |Cuts(RuleOf(pass), s)|
    ensures RightCut(pass, s, Cuts(RuleOf(pass), s)[k])
  {
    var c := Cuts(RuleOf(pass), s)[k];
    assert c in Cuts(RuleOf(pass), s);
    CutsInRange(RuleOf(pass), s);
    SplitIsExact(RuleOf(pass), s);
    TokenIsUsable(pass, s, c.lo, c.hi);
    if c.minted.None? {
      forall i | c.lo <= i < c.hi ensures NoTokenAt(pass, s, i) {
        forall e: nat ensures !TokenAt(pass, s, i, e) {
          NoTokenInPlain(pass, s, k, i, e);
        }
      }
    }
  }

  lemma PlainComesFirst(pass: Pass, s: string, lo: nat, hi: nat, rest: seq<Node>)
    requires lo < hi <= |s| && Clear(pass, s, lo, hi)
    requires SplitsInto(pass, s, hi, rest) && (rest != [] ==> !rest[0].Text?)
    ensures SplitsInto(pass, s, lo, [Node.Text(s[lo..hi])] + rest)
  {
    var ns := [Node.Text(s[lo..hi])] + rest;
    assert ns[1..] == rest && lo + |ns[0].value| == hi;
    assert PlainThen(pass, s, lo, hi, ns);
  }

  lemma TokenComesFirst(pass: Pass, s: string, lo: nat, hi: nat, node: Node, rest: seq<Node>)
    requires TokenAt(pass, s, lo, hi) && Mint(pass, s[lo..hi]) == Some(node) && SplitsInto(pass, s, hi, rest)
    ensures SplitsInto(pass, s, lo, [node] + rest)
  {
    var ns := [node] + rest;
    assert ns[1..] == rest;
    MintedIsNoText(pass, s[lo..hi]);
    assert TokenThen(pass, s, lo, hi, ns);
  }

  lemma CutThen(pass: Pass, s: string, c: Cut, rest: seq<Node>)
    requires RightCut(pass, s, c) && SplitsInto(pass, s, c.hi, rest)
    requires c.minted.None? && rest != [] ==> !rest[0].Text?
    ensures SplitsInto(pass, s, c.lo, [NodeOf(s, c)] + rest)
  {
    if c.minted.None? {
      PlainComesFirst(pass, s, c.lo, c.hi, rest);
    } else {
      TokenComesFirst(pass, s, c.lo, c.hi, c.minted.value, rest);
    }
  }

  lemma {:induction false} RightCutsSplit(pass: Pass, s: string, cuts: seq<Cut>, from: nat)
    requires Tile(cuts, from, |s|) && forall c :: c in cuts ==> RightCut(pass, s, c)
    ensures forall c :: c in cuts ==> c.lo <= c.hi <= |s|
    ensures SplitsInto(pass, s, from, Nodes(s, cuts))
    decreases |cuts|
  {
    assert forall c :: c in cuts ==> RightCut(pass, s, c) && c.lo <= c.hi <= |s|;
    if cuts != [] {
      assert forall c :: c in cuts[1..] ==> c in cuts;
      RightCutsSplit(pass, s, cuts[1..], cuts[0].hi);
      if |cuts| > 1 && cuts[1].minted.Some? {
        MintedIsNoText(pass, s[cuts[1].lo..cuts[1].hi]);
      }
      CutThen(pass, s, cuts[0], Nodes(s, cuts[1..]));
    }
  }

  lemma TextIsSplit(pass: Pass, s: string)
    ensures RendersChild(pass, Node.Text(s), VisitChild(WalkerOf(pass), Node.Text(s)))
  {
    var r := RuleOf(pass);
    ReplacedIffUsable(r, s);
    if i: nat, e: nat :| TokenAt(pass, s, i, e) {
      TokenIsUsable(pass, s, i, e);
      SplitIsExact(r, s);
      CutsInRange(r, s);
      forall c | c in Cuts(r, s) ensures RightCut(pass, s, c) {
        var k :| 0 <= k < |Cuts(r, s)| && Cuts(r, s)[k] == c;
        CutIsRight(pass, s, k);
      }
      RightCutsSplit(pass, s, Cuts(r, s), 0);
    } else if i: nat, e: nat :| Usable(r, s, i, e) {
      TokenIsUsable(pass, s, i, e);
    }
  }

  lemma {:induction false} WalkRendersChild(pass: Pass, c: Node)
    ensures RendersChild(pass, c, VisitChild(WalkerOf(pass), c))
    decreases c, 1
  {
    match c
    case Text(s) => TextIsSplit(pass, s);
    case Leaf(_) =>
    case Element(tag, _, children) =>
      VerbatimIsLiteral(pass, tag);
      if !Verbatim(pass, tag) {
        WalkRenders(pass, children);
      }
    case Container(_, children) => WalkRenders(pass, children);
  }

  lemma {:induction false} WalkRenders(pass: Pass, ns: seq<Node>)
    ensures Renders(pass, ns, VisitAll(WalkerOf(pass), ns))
    decreases ns, 0
  {
    if ns != [] {
      var first, rest := VisitChild(WalkerOf(pass), ns[0]), VisitAll(WalkerOf(pass), ns[1..]);
      WalkRendersChild(pass, ns[0]);
      WalkRenders(pass, ns[1..]);
      PiecesOf(first, rest);
      assert RendersFirst(pass, ns, first + rest, |first|);
    }
  }

  // ----- and nothing else does -----

  lemma OneEnd(pass: Pass, s: string, i: nat, d: nat, e: nat)
    requires TokenAt(pass, s, i, d) && TokenAt(pass, s, i, e)
    ensures d == e
  {
    TokenIsUsable(pass, s, i, d);
    TokenIsUsable(pass, s, i, e);
  }

  lemma MintedIsNoText(pass: Pass, t: string)
    ensures Mint(pass, t).Some? ==> Mint(pass, t).value.Element?
  {
  }

  /** A piece of text comes first exactly where no token begins. */
  lemma FirstIsText(pass: Pass, s: string, from: nat, ns: seq<Node>)
    requires ns != [] && SplitsInto(pass, s, from, ns)
    ensures ns[0].Text? <==> NoTokenAt(pass, s, from)
  {
    if !ns[0].Text? {
      var e :| TokenThen(pass, s, from, e, ns);
      assert TokenAt(pass, s, from, e);
    }
  }

  /** Behind a piece of text begins a token, or nothing does. */
  lemma NextIsToken(pass: Pass, s: string, from: nat, to: nat, ns: seq<Node>)
    requires ns != [] && PlainThen(pass, s, from, to, ns)
    ensures to < |s| ==> !NoTokenAt(pass, s, to)
  {
    assert SplitsInto(pass, s, to, ns[1..]);
    if |ns| > 1 {
      assert ns[1..][0] == ns[1];
      FirstIsText(pass, s, to, ns[1..]);
    }
  }

  lemma {:induction false} OneSplit(pass: Pass, s: string, from: nat, ns: seq<Node>, ms: seq<Node>)
    requires SplitsInto(pass, s, from, ns) && SplitsInto(pass, s, from, ms)
    ensures ns == ms
    decreases |ns|
  {
    if ns != [] && ms != [] {
      var to := SameFirst(pass, s, from, ns, ms);
      OneSplit(pass, s, to, ns[1..], ms[1..]);
      CutInTwo(ns, 1);
      CutInTwo(ms, 1);
    } else {
      EndsAtTheEnd(pass, s, from, ns);
      EndsAtTheEnd(pass, s, from, ms);
    }
  }

  lemma EndsAtTheEnd(pass: Pass, s: string, from: nat, ns: seq<Node>)
    requires SplitsInto(pass, s, from, ns)
    ensures ns == [] <==> from == |s|
  {
    if ns != [] && !ns[0].Text? {
      var e :| TokenThen(pass, s, from, e, ns);
      TokenIsUsable(pass, s, from, e);
      assert PatternOf(pass).One?;
    }
  }

  lemma SameFirst(pass: Pass, s: string, from: nat, ns: seq<Node>, ms: seq<Node>) returns (to: nat)
    requires ns != [] && ms != [] && SplitsInto(pass, s, from, ns) && SplitsInto(pass, s, from, ms)
    ensures ns[0] == ms[0] && SplitsInto(pass, s, to, ns[1..]) && SplitsInto(pass, s, to, ms[1..])
  {
    FirstIsText(pass, s, from, ns);
    FirstIsText(pass, s, from, ms);
    if ns[0].Text? {
      to := from + |ns[0].value|;
      SameText(pass, s, from, to, from + |ms[0].value|, ns, ms);
    } else {
      to :| TokenThen(pass, s, from, to, ns);
      var e :| TokenThen(pass, s, from, e, ms);
      OneEnd(pass, s, from, to, e);
    }
  }

  lemma SameText(pass: Pass, s: string, from: nat, to: nat, e: nat, ns: seq<Node>, ms: seq<Node>)
    requires ns != [] && ms != [] && PlainThen(pass, s, from, to, ns) && PlainThen(pass, s, from, e, ms)
    ensures to == e
  {
    NextIsToken(pass, s, from, to, ns);
    NextIsToken(pass, s, from, e, ms);
  }

  lemma {:induction false} OneRenderingOfChild(pass: Pass, c: Node, ns: seq<Node>, ms: seq<Node>)
    requires RendersChild(pass, c, ns) && RendersChild(pass, c, ms)
    ensures ns == ms
    decreases c, 1
  {
    match c
    case Text(s) =>
      if exists i, e :: TokenAt(pass, s, i, e) {
        OneSplit(pass, s, 0, ns, ms);
      }
    case Leaf(_) =>
    case Element(tag, _, children) =>
      if !Verbatim(pass, tag) {
        OneRendering(pass, children, ns[0].children, ms[0].children);
      }
    case Container(_, children) => OneRendering(pass, children, ns[0].children, ms[0].children);
  }

  lemma {:induction false} OneRendering(pass: Pass, before: seq<Node>, after: seq<Node>, other: seq<Node>)
    requires Renders(pass, before, after) && Renders(pass, before, other)
    ensures after == other
    decreases before, 0
  {
    if before != [] {
      var n :| RendersFirst(pass, before, after, n);
      var m :| RendersFirst(pass, before, other, m);
      OneRenderingOfChild(pass, before[0], after[..n], other[..m]);
      OneRendering(pass, before[1..], after[n..], other[m..]);
      CutInTwo(after, n);
      CutInTwo(other, m);
    }
  }

  /**
   For every page and each pass: outside `code`, `pre` and what is already a token, each text is cut at exactly its
   tokens, every one of them becomes the element it stands for, in its place, and nothing else is changed.
   */
  lemma PassIsExact(pass: Pass, kind: string, before: seq<Node>, after: seq<Node>)
    ensures RunPass(pass, Container(kind, before)) == Container(kind, after) <==> Renders(pass, before, after)
  {
    WalkRenders(pass, before);
    if Renders(pass, before, after) {
      OneRendering(pass, before, after, VisitAll(WalkerOf(pass), before));
    }
  }

  ghost predicate RendersVia(
      slugify: string -> string, before: seq<Node>, linked: seq<Node>, chipped: seq<Node>, after: seq<Node>)
  {
    && Renders(WikiLinks(slugify), before, linked)
    && Renders(SecretChips, linked, chipped)
    && Renders(AttachmentImages, chipped, after)
  }

  /** The whole rendering is the links first, the chips in what they leave, and the images in what those leave. */
  lemma RenderIsExact(slugify: string -> string, kind: string, before: seq<Node>, after: seq<Node>)
    ensures Render(slugify, Container(kind, before)) == Container(kind, after)
            <==> exists linked, chipped :: RendersVia(slugify, before, linked, chipped, after)
  {
    var links, chips, images := WikiLinks(slugify), SecretChips, AttachmentImages;
    var ns1 := VisitAll(WalkerOf(links), before);
    var ns2 := VisitAll(WalkerOf(chips), ns1);
    PassIsExact(links, kind, before, ns1);
    PassIsExact(chips, kind, ns1, ns2);
    PassIsExact(images, kind, ns2, after);
    if linked, chipped :| RendersVia(slugify, before, linked, chipped, after) {
      OneRendering(links, before, linked, ns1);
      OneRendering(chips, ns1, chipped, ns2);
    } else if Render(slugify, Container(kind, before)) == Container(kind, after) {
      assert RendersVia(slugify, before, ns1, ns2, after);
    }
  }

  // ----- nothing is left over -----

  /** The texts a pass reads. */
  function TextsOf(pass: Pass, n: Node): set<string>
    decreases n, 1
  {
    match n
    case Text(s) => {s}
    case Leaf(_) => {}
    case Element(tag, _, children) => if Verbatim(pass, tag) then {} else TextsOfAll(pass, children)
    case Container(_, children) => TextsOfAll(pass, children)
  }

  function TextsOfAll(pass: Pass, ns: seq<Node>): set<string>
    decreases ns, 0
  {
    if ns == [] then {} else TextsOf(pass, ns[0]) + TextsOfAll(pass, ns[1..])
  }

  lemma {:induction false} StableHasNoToken(pass: Pass, c: Node, s: string, i: nat)
    requires Stable(WalkerOf(pass), c) && s in TextsOf(pass, c)
    ensures NoTokenAt(pass, s, i)
    decreases c, 1
  {
    match c
    case Text(_) =>
      ReplacedIffUsable(RuleOf(pass), s);
      forall e: nat ensures !TokenAt(pass, s, i, e) {
        TokenIsUsable(pass, s, i, e);
      }
    case Element(tag, _, children) =>
      VerbatimIsLiteral(pass, tag);
      AllStableHaveNoToken(pass, children, s, i);
    case Container(_, children) => AllStableHaveNoToken(pass, children, s, i);
  }

  lemma {:induction false} AllStableHaveNoToken(pass: Pass, ns: seq<Node>, s: string, i: nat)
    requires AllStable(WalkerOf(pass), ns) && s in TextsOfAll(pass, ns)
    ensures NoTokenAt(pass, s, i)
    decreases ns, 0
  {
    if s in TextsOf(pass, ns[0]) {
      StableHasNoToken(pass, ns[0], s, i);
    } else {
      AllStableHaveNoToken(pass, ns[1..], s, i);
    }
  }

  /** After a pass there is no token of its kind left in any text it reads. */
  lemma PassLeavesNoToken(pass: Pass, tree: Node, s: string, i: nat)
    requires tree.Container? && s in TextsOf(pass, RunPass(pass, tree))
    ensures NoTokenAt(pass, s, i)
  {
    PassSkipsItsOwn(pass);
    AllBecomeStable(WalkerOf(pass), tree.children);
    AllStableHaveNoToken(pass, RunPass(pass, tree).children, s, i);
  }

  /** So it is after all three, for the tokens of each. */
  lemma RenderLeavesNoToken(slugify: string -> string, pass: Pass, tree: Node, s: string, i: nat)
    requires tree.Container? && pass in {WikiLinks(slugify), SecretChips, AttachmentImages}
    requires s in TextsOf(pass, Render(slugify, tree))
    ensures NoTokenAt(pass, s, i)
  {
    RenderIsStable(slugify, tree, pass);
    AllStableHaveNoToken(pass, Render(slugify, tree).children, s, i);
  }
}
