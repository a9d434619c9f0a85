/**
 Everything `MarkdownView` does to a tree after it has been sanitized: callouts first, then the three token passes.
 */
module PageRender {
  import opened Text
  import opened Splitting
  import opened Hast
  import opened Scanner
  import opened Tokens
  import opened Passes
  import Callouts
  import PassMeaning
  import Walk

  function RenderPage(slugify: string -> string, tree: Node): Node {
    Render(slugify, Callouts.Visit(tree))
  }

  // ----- trees the callout pass leaves alone -----

  predicate Unmarked(n: Node)
    decreases n, 1
  {
    !Callouts.IsMarked(n) && (HasChildren(n) ==> AllUnmarked(n.children))
  }

  predicate AllUnmarked(ns: seq<Node>)
    decreases ns, 0
  {
    forall k :: 0 <= k < |ns| ==> Unmarked(ns[k])
  }

  lemma {:induction false} UnmarkedStays(n: Node)
    requires Unmarked(n)
    ensures Callouts.Visit(n) == n
    decreases n, 1
  {
    if HasChildren(n) {
      AllUnmarkedStay(n.children);
    }
  }

  lemma {:induction false} AllUnmarkedStay(ns: seq<Node>)
    requires AllUnmarked(ns)
    ensures Callouts.VisitAll(ns) == ns
    decreases ns, 0
  {
    if ns != [] {
      UnmarkedStays(ns[0]);
      AllUnmarkedStay(ns[1..]);
    }
  }

  lemma {:induction false} CalloutsUnmark(n: Node)
    ensures Unmarked(Callouts.Visit(n))
    decreases Callouts.Size(n)
  {
    var m := Callouts.Transformed(n);
    Callouts.TransformedIsNoLarger(n);
    if HasChildren(m) {
      AllCalloutsUnmark(m.children);
      Callouts.VisitKeepsOpening(m.children);
    }
  }

  lemma {:induction false} AllCalloutsUnmark(ns: seq<Node>)
    ensures AllUnmarked(Callouts.VisitAll(ns))
    decreases Callouts.SizeAll(ns)
  {
    if ns != [] {
      CalloutsUnmark(ns[0]);
      AllCalloutsUnmark(ns[1..]);
    }
  }

  // ----- a token pass makes no marked quote -----

  /** What is minted is no quote and no paragraph, and has no quote in it. */
  ghost predicate MintsUnmarked(w: Walk.Walker) {
    forall t :: w.rule.mint(t).Some? ==> IsInline(w.rule.mint(t).value)
  }

  predicate IsInline(n: Node) {
    n.Element? && !n.tag.P? && !n.tag.Blockquote? && Unmarked(n)
  }

  /** A cut-off text opens with a marker only if the whole text does. */
  lemma MarkerOfPrefix(s: string, hi: nat)
    requires hi <= |s| && Callouts.MarkerOf(s[..hi]).Some?
    ensures Callouts.MarkerOf(s).Some?
  {
    var close := IndexOf(s[..hi][2..], ']');
    SameIndex(s, hi);
    SliceOfSlice(s, 0, hi, 2, 2 + close);
    assert s[0..hi] == s[..hi];
  }

  lemma SameIndex(s: string, hi: nat)
    requires 2 <= hi <= |s| && IndexOf(s[..hi][2..], ']') < hi - 2
    ensures IndexOf(s[2..], ']') == IndexOf(s[..hi][2..], ']')
  {
    var t := s[..hi][2..];
    assert forall j :: 0 <= j < |t| ==> t[j] == s[2..][j];
    IndexOfIs(s[2..], ']', IndexOf(t, ']'));
  }

  lemma PieceKind(w: Walk.Walker, s: string, k: nat)
    requires MintsUnmarked(w) && Replaced(w.rule, s).Some? && k < |Replaced(w.rule, s).value|
    ensures var out := Replaced(w.rule, s).value; out[k].Text? || IsInline(out[k])
  {
    CutsInRange(w.rule, s);
    if Cuts(w.rule, s)[k].minted.Some? {
      Walk.MintedMatches(w.rule, s, k);
    }
  }

  lemma PieceKinds(w: Walk.Walker, s: string)
    requires MintsUnmarked(w) && Replaced(w.rule, s).Some?
    ensures var out := Replaced(w.rule, s).value;
            && (forall k :: 0 <= k < |out| ==> out[k].Text? || IsInline(out[k]))
            && exists k :: 0 <= k < |out| && out[k].Element?
  {
    var out := Replaced(w.rule, s).value;
    forall k | 0 <= k < |out|
      ensures out[k].Text? || IsInline(out[k])
    {
      PieceKind(w, s, k);
    }
    CutsInRange(w.rule, s);
    var k, t := SomePieceIsMinted(w.rule, s);
    Walk.MintedMatches(w.rule, s, k);
    assert out[k].Element?;
  }

  lemma FirstCutIs(r: Rule, s: string)
    requires Cuts(r, s) != []
    ensures Cuts(r, s)[0].lo == 0
  {
    CutsTile(r, s, 0, 0);
  }

  /** The first piece is minted, or it is the start of the text. */
  lemma FirstPiece(w: Walk.Walker, s: string)
    requires MintsUnmarked(w) && Replaced(w.rule, s).Some?
    ensures var out := Replaced(w.rule, s).value;
            out != [] && (out[0].Text? ==> |out[0].value| <= |s| && out[0].value == s[..|out[0].value|])
  {
    CutsInRange(w.rule, s);
    var _, _ := SomePieceIsMinted(w.rule, s);
    var c := Cuts(w.rule, s)[0];
    FirstCutIs(w.rule, s);
    if c.minted.Some? {
      Walk.MintedMatches(w.rule, s, 0);
    }
    assert c in Cuts(w.rule, s) && s[0..c.hi] == s[..c.hi];
  }

  /** A child that is not a text is visited into one node of its own kind. */
  lemma ParentStaysOne(w: Walk.Walker, c: Node)
    requires !c.Text?
    ensures var out := Walk.VisitChild(w, c);
            && |out| == 1 && (out[0].Element? <==> c.Element?) && !out[0].Text?
            && (c.Element? ==> out[0].Element? && out[0].tag == c.tag)
  {
  }

  predicate CarriesMarker(n: Node) {
    n.Text? && Callouts.MarkerOf(n.value).Some?
  }

  /** The first node a paragraph has after the pass carries a marker only if its first node did before. */
  lemma FirstNodeMarked(w: Walk.Walker, ns: seq<Node>)
    requires MintsUnmarked(w) && Walk.VisitAll(w, ns) != [] && CarriesMarker(Walk.VisitAll(w, ns)[0])
    ensures ns != [] && CarriesMarker(ns[0])
  {
    var c := ns[0];
    if c.Text? && Replaced(w.rule, c.value).Some? {
      FirstPiece(w, c.value);
      var first := Replaced(w.rule, c.value).value[0];
      assert Walk.VisitAll(w, ns)[0] == first;
      MarkerOfPrefix(c.value, |first.value|);
    } else if !c.Text? {
      ParentStaysOne(w, c);
    }
  }

  predicate OpensMarked(ns: seq<Node>) {
    Callouts.OpeningMarker(ns).Some?
  }

  lemma OpensMarkedIs(ns: seq<Node>)
    ensures var k := Callouts.FirstElement(ns);
            OpensMarked(ns) <==> k < |ns| && ns[k].tag.P? && ns[k].children != [] && CarriesMarker(ns[k].children[0])
  {
  }

  lemma ElementFirst(front: seq<Node>, more: seq<Node>)
    requires exists k :: 0 <= k < |front| && front[k].Element?
    ensures Callouts.FirstElement(front + more) == Callouts.FirstElement(front) < |front|
  {
    var k := Callouts.FirstElement(front);
    Callouts.FirstElementIs(front + more, k);
  }

  lemma NoElementFirst(c: Node, more: seq<Node>)
    requires !c.Element?
    ensures OpensMarked([c] + more) <==> OpensMarked(more)
  {
    assert ([c] + more)[1..] == more;
    OpensMarkedIs([c] + more);
    OpensMarkedIs(more);
  }

  lemma TextFirst(w: Walk.Walker, c: Node, more: seq<Node>)
    requires MintsUnmarked(w) && c.Text? && OpensMarked(Walk.VisitChild(w, c) + more)
    ensures OpensMarked(more)
  {
    var out := Walk.VisitChild(w, c);
    if Replaced(w.rule, c.value).Some? {
      PieceKinds(w, c.value);
      ElementFirst(out, more);
      OpensMarkedIs(out + more);
    } else {
      NoElementFirst(c, more);
    }
  }

  lemma ElementFirstMarked(w: Walk.Walker, c: Node, more: seq<Node>, rest: seq<Node>)
    requires MintsUnmarked(w) && c.Element? && OpensMarked(Walk.VisitChild(w, c) + more)
    ensures OpensMarked([c] + rest)
  {
    var o := Walk.VisitChild(w, c)[0];
    ParentStaysOne(w, c);
    assert [o][0].Element? && [c][0].Element?;
    ElementFirst([o], more);
    ElementFirst([c], rest);
    OpensMarkedIs([o] + more);
    OpensMarkedIs([c] + rest);
    if !Walk.IsLiteral(w, c) {
      FirstNodeMarked(w, c.children);
    }
  }

  /** A pass makes nothing open with a marker that did not do so before. */
  lemma {:induction false} OpensMarkedBefore(w: Walk.Walker, ns: seq<Node>)
    requires MintsUnmarked(w) && OpensMarked(Walk.VisitAll(w, ns))
    ensures OpensMarked(ns)
  {
    OpensMarkedIs(Walk.VisitAll(w, ns));
    var c, more := ns[0], Walk.VisitAll(w, ns[1..]);
    assert ns == [c] + ns[1..];
    if c.Text? {
      TextFirst(w, c, more);
      OpensMarkedBefore(w, ns[1..]);
      NoElementFirst(c, ns[1..]);
    } else if c.Element? {
      ElementFirstMarked(w, c, more, ns[1..]);
    } else {
      ParentStaysOne(w, c);
      NoElementFirst(Walk.VisitChild(w, c)[0], more);
      OpensMarkedBefore(w, ns[1..]);
      NoElementFirst(c, ns[1..]);
    }
  }

  lemma {:induction false} PassStaysUnmarked(w: Walk.Walker, n: Node)
    requires MintsUnmarked(w) && Unmarked(n)
    ensures Unmarked(Walk.Visit(w, n))
    decreases n, 1
  {
    if HasChildren(n) {
      PassStaysAllUnmarked(w, n.children);
      if OpensMarked(Walk.VisitAll(w, n.children)) {
        OpensMarkedBefore(w, n.children);
      }
    }
  }

  lemma {:induction false} PassStaysAllUnmarked(w: Walk.Walker, ns: seq<Node>)
    requires MintsUnmarked(w) && AllUnmarked(ns)
    ensures AllUnmarked(Walk.VisitAll(w, ns))
    decreases ns, 0
  {
    if ns != [] {
      var c := ns[0];
      PassStaysAllUnmarked(w, ns[1..]);
      if c.Text? {
        if Replaced(w.rule, c.value).Some? {
          PieceKinds(w, c.value);
        }
      } else if !Walk.IsLiteral(w, c) {
        PassStaysUnmarked(w, c);
      }
    }
  }

  lemma PassMintsUnmarked(pass: Pass)
    ensures MintsUnmarked(WalkerOf(pass))
  {
    forall t | Mint(pass, t).Some?
      ensures IsInline(Mint(pass, t).value)
    {
      assert AllUnmarked(Mint(pass, t).value.children);
    }
  }

  /** Rendering a rendered page changes nothing: callouts, links, chips and images make no work for each other. */
  lemma PageRenderIdempotent(slugify: string -> string, tree: Node)
    ensures RenderPage(slugify, RenderPage(slugify, tree)) == RenderPage(slugify, tree)
  {
    var c := Callouts.Visit(tree);
    CalloutsUnmark(tree);
    PassMintsUnmarked(WikiLinks(slugify));
    PassMintsUnmarked(SecretChips);
    PassMintsUnmarked(AttachmentImages);
    PassStaysUnmarked(WalkerOf(WikiLinks(slugify)), c);
    PassStaysUnmarked(WalkerOf(SecretChips), RunPass(WikiLinks(slugify), c));
    PassStaysUnmarked(WalkerOf(AttachmentImages), RunPass(SecretChips, RunPass(WikiLinks(slugify), c)));
    UnmarkedStays(Render(slugify, c));
    RenderIdempotent(slugify, c);
  }

  /** The page is the callouts first and the three passes on what they leave. */
  lemma PageIsExact(slugify: string -> string, kind: string, before: seq<Node>, after: seq<Node>)
    ensures RenderPage(slugify, Container(kind, before)) == Container(kind, after)
            <==> exists linked, chipped ::
                   PassMeaning.RendersVia(slugify, Callouts.VisitAll(before), linked, chipped, after)
  {
    Callouts.ContainerIsVisited(kind, before);
    PassMeaning.RenderIsExact(slugify, kind, Callouts.VisitAll(before), after);
  }
}
