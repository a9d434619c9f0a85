/**
 `visit` of the three token passes: the walk that rewrites the text children of every element but the literal ones.
 */
module Walk {
  import opened Options
  import opened Splitting
  import opened Hast
  import opened Patterns
  import opened Scanner

  /** What a pass mints, and the elements it leaves alone with everything in them. */
  datatype Walker = Walker(rule: Rule, literals: set<Tag>)

  predicate IsLiteral(w: Walker, n: Node) {
    n.Element? && n.tag in w.literals
  }

  function Visit(w: Walker, n: Node): Node
    decreases n, 1
  {
    match n
    case Text(_) => n
    case Leaf(_) => n
    case Element(tag, props, children) => Element(tag, props, VisitAll(w, children))
    case Container(kind, children) => Container(kind, VisitAll(w, children))
  }

  function VisitChild(w: Walker, c: Node): seq<Node>
    decreases c, 2
  {
    if c.Text? then
      match Replaced(w.rule, c.value)
      case Some(nodes) => nodes
      case None => [c]
    else if IsLiteral(w, c) then [c]
    else [Visit(w, c)]
  }

  function VisitAll(w: Walker, ns: seq<Node>): seq<Node>
    decreases ns, 0
  {
    if ns == [] then [] else VisitChild(w, ns[0]) + VisitAll(w, ns[1..])
  }

  /** A walker that does not look into what it mints itself. */
  ghost predicate SkipsItsOwn(w: Walker) {
    forall t :: w.rule.mint(t).Some? ==> IsLiteral(w, w.rule.mint(t).value)
  }

  /** A child in which the walk finds nothing to do. */
  predicate Stable(w: Walker, c: Node)
    decreases c, 1
  {
    match c
    case Text(value) => Replaced(w.rule, value) == None
    case Leaf(_) => true
    case Element(_, _, children) => IsLiteral(w, c) || AllStable(w, children)
    case Container(_, children) => AllStable(w, children)
  }

  predicate AllStable(w: Walker, ns: seq<Node>)
    decreases ns, 0
  {
    forall k :: 0 <= k < |ns| ==> Stable(w, ns[k])
  }

  lemma {:induction false} VisitConcat(w: Walker, a: seq<Node>, b: seq<Node>)
    ensures VisitAll(w, a + b) == VisitAll(w, a) + VisitAll(w, b)
  {
    if a == [] {
      assert a + b == b;
    } else {
      VisitConcat(w, a[1..], b);
      assert (a + b)[0] == a[0] && (a + b)[1..] == a[1..] + b;
      ConcatAssoc(VisitChild(w, a[0]), VisitAll(w, a[1..]), VisitAll(w, b));
    }
  }

  lemma VisitOne(w: Walker, c: Node)
    ensures VisitAll(w, [c]) == VisitChild(w, c)
  {
    assert VisitAll(w, [c]) == VisitChild(w, c) + VisitAll(w, []);
  }

  // ----- one pass twice -----

  lemma {:induction false} StableStays(w: Walker, c: Node)
    requires Stable(w, c)
    ensures VisitChild(w, c) == [c]
    decreases c, 1
  {
    if HasChildren(c) && !IsLiteral(w, c) {
      AllStableStay(w, c.children);
    }
  }

  lemma {:induction false} AllStableStay(w: Walker, ns: seq<Node>)
    requires AllStable(w, ns)
    ensures VisitAll(w, ns) == ns
    decreases ns, 0
  {
    if ns != [] {
      StableStays(w, ns[0]);
      AllStableStay(w, ns[1..]);
    }
  }

  lemma PiecesAreStable(w: Walker, s: string)
    requires SkipsItsOwn(w) && Replaced(w.rule, s).Some?
    ensures AllStable(w, Replaced(w.rule, s).value)
  {
    CutsInRange(w.rule, s);
    forall k | 0 <= k < |Cuts(w.rule, s)|
      ensures Stable(w, Replaced(w.rule, s).value[k])
    {
      PieceIsStable(w, s, k);
    }
  }

  lemma PieceIsStable(w: Walker, s: string, k: nat)
    requires SkipsItsOwn(w) && k < |Cuts(w.rule, s)|
    ensures Cuts(w.rule, s)[k].lo <= Cuts(w.rule, s)[k].hi <= |s|
    ensures Stable(w, NodeOf(s, Cuts(w.rule, s)[k]))
  {
    CutsInRange(w.rule, s);
    CutsMint(w.rule, s, 0, 0);
    assert Cuts(w.rule, s)[k] in Cuts(w.rule, s);
    if Cuts(w.rule, s)[k].minted.None? {
      PlainIsNotReplaced(w.rule, s, k);
    }
  }

  lemma {:induction false} ChildBecomesStable(w: Walker, c: Node)
    requires SkipsItsOwn(w)
    ensures AllStable(w, VisitChild(w, c))
    decreases c, 2
  {
    if c.Text? {
      if Replaced(w.rule, c.value).Some? {
        PiecesAreStable(w, c.value);
      }
    } else if HasChildren(c) && !IsLiteral(w, c) {
      AllBecomeStable(w, c.children);
    }
  }

  lemma {:induction false} AllBecomeStable(w: Walker, ns: seq<Node>)
    requires SkipsItsOwn(w)
    ensures AllStable(w, VisitAll(w, ns))
    decreases ns, 0
  {
    if ns != [] {
      ChildBecomesStable(w, ns[0]);
      AllBecomeStable(w, ns[1..]);
    }
  }

  /** On every tree, a second run of a pass changes nothing. */
  lemma VisitIdempotent(w: Walker, n: Node)
    requires SkipsItsOwn(w)
    ensures Visit(w, Visit(w, n)) == Visit(w, n)
  {
    if HasChildren(n) {
      AllBecomeStable(w, n.children);
      AllStableStay(w, VisitAll(w, n.children));
    }
  }

  // ----- what a pass keeps -----

  lemma {:induction false} CodeIsKeptInAll(w: Walker, ns: seq<Node>)
    requires {Code, Pre} <= w.literals
    requires forall t :: w.rule.mint(t).Some? ==> CodeBlocks(w.rule.mint(t).value) == []
    ensures CodeBlocksOf(VisitAll(w, ns)) == CodeBlocksOf(ns)
    decreases ns, 0
  {
    if ns != [] {
      var c := ns[0];
      CodeIsKeptInAll(w, ns[1..]);
      CodeBlocksConcat(VisitChild(w, c), VisitAll(w, ns[1..]));
      if c.Text? {
        TextHasNoCode(w, c);
      } else {
        if !IsLiteral(w, c) {
          CodeIsKept(w, c);
        }
        CodeBlocksOfOne(VisitChild(w, c)[0]);
      }
    }
  }

  lemma CodeBlocksOfOne(n: Node)
    ensures CodeBlocksOf([n]) == CodeBlocks(n)
  {
    assert CodeBlocksOf([n]) == CodeBlocks(n) + CodeBlocksOf([]);
  }

  lemma {:induction false} NoCodeInAll(ns: seq<Node>)
    requires forall k :: 0 <= k < |ns| ==> CodeBlocks(ns[k]) == []
    ensures CodeBlocksOf(ns) == []
  {
    if ns != [] {
      NoCodeInAll(ns[1..]);
    }
  }

  lemma TextHasNoCode(w: Walker, c: Node)
    requires c.Text? && forall t :: w.rule.mint(t).Some? ==> CodeBlocks(w.rule.mint(t).value) == []
    ensures CodeBlocksOf(VisitChild(w, c)) == []
  {
    var cuts := Cuts(w.rule, c.value);
    CutsInRange(w.rule, c.value);
    CutsMint(w.rule, c.value, 0, 0);
    forall k | 0 <= k < |cuts|
      ensures CodeBlocks(NodeOf(c.value, cuts[k])) == []
    {
      assert cuts[k] in cuts;
    }
    NoCodeInAll(VisitChild(w, c));
  }

  /** The `code` and `pre` elements of a tree come out unchanged, all of them and in order. */
  lemma {:induction false} CodeIsKept(w: Walker, n: Node)
    requires {Code, Pre} <= w.literals && !IsLiteral(w, n)
    requires forall t :: w.rule.mint(t).Some? ==> CodeBlocks(w.rule.mint(t).value) == []
    ensures CodeBlocks(Visit(w, n)) == CodeBlocks(n)
    decreases n, 1
  {
    if HasChildren(n) {
      CodeIsKeptInAll(w, n.children);
    }
  }

  lemma {:induction false} TextIsKeptInAll(w: Walker, ns: seq<Node>)
    requires forall t :: w.rule.mint(t).Some? ==> Flatten(w.rule.mint(t).value) == t
    ensures FlattenAll(VisitAll(w, ns)) == FlattenAll(ns)
    decreases ns, 0
  {
    if ns != [] {
      TextIsKeptInAll(w, ns[1..]);
      FlattenConcat(VisitChild(w, ns[0]), VisitAll(w, ns[1..]));
      TextIsKeptInChild(w, ns[0]);
    }
  }

  lemma {:induction false} TextIsKeptInChild(w: Walker, c: Node)
    requires forall t :: w.rule.mint(t).Some? ==> Flatten(w.rule.mint(t).value) == t
    ensures FlattenAll(VisitChild(w, c)) == Flatten(c)
    decreases c, 2
  {
    if c.Text? && Replaced(w.rule, c.value).Some? {
      var s := c.value;
      var cuts := Cuts(w.rule, s);
      CutsInRange(w.rule, s);
      SplitIsExact(w.rule, s);
      TileConserves(s, cuts, 0, |s|);
      NodesReadTheSame(w.rule, s, cuts);
    } else {
      if HasChildren(c) {
        TextIsKept(w, c);
      }
      var only := VisitChild(w, c)[0];
      assert FlattenAll([only]) == Flatten(only) + FlattenAll([]);
    }
  }

  /** A pass whose elements read like their tokens leaves the text of the whole tree as it was. */
  lemma {:induction false} TextIsKept(w: Walker, n: Node)
    requires forall t :: w.rule.mint(t).Some? ==> Flatten(w.rule.mint(t).value) == t
    ensures Flatten(Visit(w, n)) == Flatten(n)
    decreases n, 1
  {
    if HasChildren(n) {
      TextIsKeptInAll(w, n.children);
    }
  }

  // ----- one pass after another -----

  /** In what the second walker mints, the first one finds nothing to do. */
  ghost predicate MintsStable(first: Walker, second: Walker) {
    forall t :: Matches(second.rule.pattern, t) && second.rule.mint(t).Some?
      ==> Stable(first, second.rule.mint(t).value)
  }

  lemma SliceIsNotReplaced(r: Rule, s: string, lo: nat, hi: nat)
    requires Replaced(r, s) == None && lo <= hi <= |s|
    ensures Replaced(r, s[lo..hi]) == None
  {
    ReplacedIffUsable(r, s);
    ReplacedIffUsable(r, s[lo..hi]);
    if i: nat, e: nat :| Usable(r, s[lo..hi], i, e) {
      UsableInSlice(r, s, lo, hi, i, e);
    }
  }

  lemma MintedMatches(r: Rule, s: string, k: nat)
    requires k < |Cuts(r, s)| && Cuts(r, s)[k].minted.Some?
    ensures var c := Cuts(r, s)[k];
            c.lo <= c.hi <= |s| && Matches(r.pattern, s[c.lo..c.hi]) && c.minted == r.mint(s[c.lo..c.hi])
  {
    var c := Cuts(r, s)[k];
    CutsInRange(r, s);
    CutsMint(r, s, 0, 0);
    assert c in Cuts(r, s);
    ScanIsRight(r.pattern, s, c.lo, c.hi);
  }

  lemma CutStaysStable(first: Walker, second: Walker, s: string, k: nat)
    requires MintsStable(first, second) && Replaced(first.rule, s) == None && k < |Cuts(second.rule, s)|
    ensures Cuts(second.rule, s)[k].lo <= Cuts(second.rule, s)[k].hi <= |s|
    ensures Stable(first, NodeOf(s, Cuts(second.rule, s)[k]))
  {
    var c := Cuts(second.rule, s)[k];
    CutsInRange(second.rule, s);
    assert c in Cuts(second.rule, s);
    if c.minted.None? {
      SliceIsNotReplaced(first.rule, s, c.lo, c.hi);
    } else {
      MintedMatches(second.rule, s, k);
    }
  }

  lemma PiecesStayStable(first: Walker, second: Walker, s: string)
    requires MintsStable(first, second)
    requires Replaced(first.rule, s) == None && Replaced(second.rule, s).Some?
    ensures AllStable(first, Replaced(second.rule, s).value)
  {
    CutsInRange(second.rule, s);
    forall k | 0 <= k < |Cuts(second.rule, s)|
      ensures Stable(first, Replaced(second.rule, s).value[k])
    {
      CutStaysStable(first, second, s, k);
    }
  }

  lemma {:induction false} ChildStaysStable(first: Walker, second: Walker, c: Node)
    requires MintsStable(first, second) && Stable(first, c)
    ensures AllStable(first, VisitChild(second, c))
    decreases c, 2
  {
    if c.Text? {
      if Replaced(second.rule, c.value).Some? {
        PiecesStayStable(first, second, c.value);
      }
    } else if HasChildren(c) && !IsLiteral(first, c) {
      AllStayStable(first, second, c.children);
    }
  }

  lemma {:induction false} AllStayStable(first: Walker, second: Walker, ns: seq<Node>)
    requires MintsStable(first, second) && AllStable(first, ns)
    ensures AllStable(first, VisitAll(second, ns))
    decreases ns, 0
  {
    if ns != [] {
      ChildStaysStable(first, second, ns[0]);
      AllStayStable(first, second, ns[1..]);
    }
  }
}
