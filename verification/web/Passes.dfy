/** The three token passes as `MarkdownView` runs them, and what is true of all of them and of their sequence. */
module Passes {
  import opened Options
  import opened Hast
  import opened Patterns
  import opened Scanner
  import opened Tokens
  import opened Walk

  function Literals(pass: Pass): set<Tag> {
    match pass
    case WikiLinks(_) => {Code, Pre, WikiLink}
    case SecretChips => {Code, Pre, SecretChip, WikiLink}
    case AttachmentImages => {Code, Pre, AttachmentImg}
  }

  function WalkerOf(pass: Pass): Walker {
    Walker(RuleOf(pass), Literals(pass))
  }

  function RunPass(pass: Pass, tree: Node): Node {
    Visit(WalkerOf(pass), tree)
  }

  lemma PassSkipsItsOwn(pass: Pass)
    ensures SkipsItsOwn(WalkerOf(pass))
  {
    forall t | Mint(pass, t).Some?
      ensures IsLiteral(WalkerOf(pass), Mint(pass, t).value)
    {
    }
  }

  /** Running a pass twice is running it once, on every tree. */
  lemma PassIdempotent(pass: Pass, tree: Node)
    ensures RunPass(pass, RunPass(pass, tree)) == RunPass(pass, tree)
  {
    PassSkipsItsOwn(pass);
    VisitIdempotent(WalkerOf(pass), tree);
  }

  lemma MintedHasNoCode(pass: Pass, t: string)
    requires Mint(pass, t).Some?
    ensures CodeBlocks(Mint(pass, t).value) == []
  {
    var children := Mint(pass, t).value.children;
    NoCodeInAll(children);
  }

  /** Every `code` and `pre` element comes out of a pass as it went in. */
  lemma PassKeepsCode(pass: Pass, tree: Node)
    requires tree.Container?
    ensures CodeBlocks(RunPass(pass, tree)) == CodeBlocks(tree)
  {
    var w := WalkerOf(pass);
    forall t | w.rule.mint(t).Some?
      ensures CodeBlocks(w.rule.mint(t).value) == []
    {
      MintedHasNoCode(pass, t);
    }
    CodeIsKept(w, tree);
  }

  /** The chips pass changes no character of what the page says. */
  lemma ChipsKeepTheText(tree: Node)
    ensures Flatten(RunPass(SecretChips, tree)) == Flatten(tree)
  {
    var w := WalkerOf(SecretChips);
    forall t | w.rule.mint(t).Some?
      ensures Flatten(w.rule.mint(t).value) == t
    {
      var only := Node.Text(t);
      assert FlattenAll([only]) == Flatten(only) + FlattenAll([]);
    }
    TextIsKept(w, tree);
  }

  // ----- the three passes in order -----

  function Render(slugify: string -> string, tree: Node): Node {
    RunPass(AttachmentImages, RunPass(SecretChips, RunPass(WikiLinks(slugify), tree)))
  }

  lemma ChipAvoidsBracket()
    ensures Avoids(ChipPattern(), '[')
  {
    forall j | 0 <= j < |SECRET|
      ensures SECRET[j] != '['
    {
      SecretIsPlain(j);
    }
  }

  lemma ChipTokenHasNoBracket(t: string, k: nat)
    requires Matches(ChipPattern(), t) && k < |t|
    ensures t[k] != '['
  {
    assert t[0..|t|] == t;
    PatternsAreDeterminate(SecretChips);
    ScanIsTheOnlyMatch(ChipPattern(), t, 0, |t|);
    ChipAvoidsBracket();
    ScanAvoids(ChipPattern(), '[', t, 0, |t|, k);
  }

  lemma ChipTokenHoldsNoLink(slugify: string -> string, t: string)
    requires Matches(ChipPattern(), t)
    ensures Replaced(RuleOf(WikiLinks(slugify)), t) == None
  {
    var r := RuleOf(WikiLinks(slugify));
    ReplacedIffUsable(r, t);
    if i: nat, e: nat :| Usable(r, t, i, e) {
      assert t[i] == '[';
      ChipTokenHasNoBracket(t, i);
    }
  }

  lemma LinksLeaveChipsAlone(slugify: string -> string)
    ensures MintsStable(WalkerOf(WikiLinks(slugify)), WalkerOf(SecretChips))
  {
    var links, chips := WalkerOf(WikiLinks(slugify)), WalkerOf(SecretChips);
    forall t | Matches(chips.rule.pattern, t) && chips.rule.mint(t).Some?
      ensures Stable(links, chips.rule.mint(t).value)
    {
      ChipTokenHoldsNoLink(slugify, t);
    }
  }

  lemma NobodyTouchesImages(pass: Pass)
    ensures MintsStable(WalkerOf(pass), WalkerOf(AttachmentImages))
  {
    var images := WalkerOf(AttachmentImages);
    forall t | images.rule.mint(t).Some?
      ensures Stable(WalkerOf(pass), images.rule.mint(t).value)
    {
    }
  }

  /** In what the three passes leave, none of them finds anything to do. */
  lemma RenderIsStable(slugify: string -> string, tree: Node, pass: Pass)
    requires HasChildren(tree) && pass in {WikiLinks(slugify), SecretChips, AttachmentImages}
    ensures AllStable(WalkerOf(pass), Render(slugify, tree).children)
  {
    var links, chips, images := WalkerOf(WikiLinks(slugify)), WalkerOf(SecretChips), WalkerOf(AttachmentImages);
    PassSkipsItsOwn(pass);
    LinksLeaveChipsAlone(slugify);
    NobodyTouchesImages(WikiLinks(slugify));
    NobodyTouchesImages(SecretChips);
    var ns1 := VisitAll(links, tree.children);
    var ns2 := VisitAll(chips, ns1);
    match pass {
      case WikiLinks(_) =>
        AllBecomeStable(links, tree.children);
        AllStayStable(links, chips, ns1);
        AllStayStable(links, images, ns2);
      case SecretChips =>
        AllBecomeStable(chips, ns1);
        AllStayStable(chips, images, ns2);
      case AttachmentImages =>
        AllBecomeStable(images, ns2);
    }
  }

  /** A later pass makes no work for an earlier one, so rendering a rendered tree changes nothing. */
  lemma RenderIdempotent(slugify: string -> string, tree: Node)
    ensures Render(slugify, Render(slugify, tree)) == Render(slugify, tree)
  {
    if HasChildren(tree) {
      var ns := Render(slugify, tree).children;
      RenderIsStable(slugify, tree, WikiLinks(slugify));
      RenderIsStable(slugify, tree, SecretChips);
      RenderIsStable(slugify, tree, AttachmentImages);
      AllStableStay(WalkerOf(WikiLinks(slugify)), ns);
      AllStableStay(WalkerOf(SecretChips), ns);
      AllStableStay(WalkerOf(AttachmentImages), ns);
    }
  }
}
