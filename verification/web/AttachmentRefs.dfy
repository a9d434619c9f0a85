/**
 The pre-pass that takes every image out of the tree before it is sanitized, and its round trip with the
 post-pass. `Resolve` says directly what the pair is for; `RoundTripIffFree` says exactly when the pair does it.
 */
module AttachmentRefs {
  import opened Options
  import opened Text
  import opened Hast
  import opened Patterns
  import opened Scanner
  import opened Tokens
  import opened Walk
  import opened Passes

  const PREFIX := "attachment:"

  function AttachmentRefId(src: string): (id: Option<string>)
    ensures id.Some? ==> id.value != "" && All(Id, id.value) && src == PREFIX + id.value
  {
    if !StartsWith(src, PREFIX) then None
    else
      var id := src[|PREFIX|..];
      if id != "" && All(Id, id) then Some(id) else None
  }

  /** A reference gives back its id, and nothing but a reference gives one. */
  lemma RefIdIff(src: string, id: string)
    ensures AttachmentRefId(src) == Some(id) <==> id != "" && All(Id, id) && src == PREFIX + id
  {
    if id != "" && All(Id, id) && src == PREFIX + id {
      PrefixStarts(PREFIX, id);
    }
  }

  lemma PrefixStarts(prefix: string, rest: string)
    ensures StartsWith(prefix + rest, prefix) && (prefix + rest)[|prefix|..] == rest
  {
  }

  function SourceId(props: Props): (id: Option<string>)
    ensures id.Some? ==> id.value != "" && All(Id, id.value)
  {
    if "src" in props && props["src"].Str? then AttachmentRefId(props["src"].s) else None
  }

  function ImageId(img: Node): (id: Option<string>)
    requires img.Element?
    ensures id.Some? ==> id.value != "" && All(Id, id.value)
  {
    SourceId(img.props)
  }

  /** An image is an attachment's exactly when its source is the prefix and a non-empty alphanumeric id. */
  lemma ImageIdIff(img: Node, id: string)
    requires img.Element?
    ensures ImageId(img) == Some(id)
      <==> && id != "" && (forall k :: 0 <= k < |id| ==> IsAlnum(id[k]))
           && "src" in img.props && img.props["src"] == Str("attachment:" + id)
  {
    if "src" in img.props && img.props["src"].Str? {
      RefIdIff(img.props["src"].s, id);
    }
  }

  predicate IsImg(n: Node) {
    n.Element? && n.tag.Img?
  }

  function Sentinel(id: string): string {
    [OPEN] + id + [CLOSE]
  }

  function Minted(id: string): Node {
    Element(AttachmentImg, map["attachment" := Str(id)], [])
  }

  function Strip(n: Node): Node
    decreases n, 1
  {
    match n
    case Text(_) => n
    case Leaf(_) => n
    case Element(tag, props, children) => Element(tag, props, StripAll(children))
    case Container(kind, children) => Container(kind, StripAll(children))
  }

  function StripChild(c: Node): seq<Node>
    decreases c, 2
  {
    if IsImg(c) then
      match ImageId(c)
      case Some(id) => [Node.Text(Sentinel(id))]
      case None => []
    else [Strip(c)]
  }

  function StripAll(ns: seq<Node>): seq<Node>
    decreases ns, 0
  {
    if ns == [] then [] else StripChild(ns[0]) + StripAll(ns[1..])
  }

  // ----- no image survives -----

  predicate NoImage(n: Node)
    decreases n, 1
  {
    !IsImg(n) && (HasChildren(n) ==> NoImages(n.children))
  }

  predicate NoImages(ns: seq<Node>)
    decreases ns, 0
  {
    forall k :: 0 <= k < |ns| ==> NoImage(ns[k])
  }

  lemma {:induction false} StripLeavesNoImages(ns: seq<Node>)
    ensures NoImages(StripAll(ns))
    decreases ns, 0
  {
    if ns != [] {
      if !IsImg(ns[0]) {
        StripLeavesNoImage(ns[0]);
      }
      StripLeavesNoImages(ns[1..]);
    }
  }

  /** After the pre-pass there is no `img` element anywhere in the tree, whatever its source was. */
  lemma {:induction false} StripLeavesNoImage(tree: Node)
    requires !IsImg(tree)
    ensures NoImage(Strip(tree))
    decreases tree, 1
  {
    if HasChildren(tree) {
      StripLeavesNoImages(tree.children);
    }
  }

  // ----- the round trip -----

  /** Every attachment image outside `code` and `pre` becomes its element; every other image is dropped. */
  function Resolve(n: Node): Node
    decreases n, 1
  {
    match n
    case Text(_) => n
    case Leaf(_) => n
    case Element(tag, props, children) => Element(tag, props, ResolveAll(children))
    case Container(kind, children) => Container(kind, ResolveAll(children))
  }

  function ResolveChild(c: Node): seq<Node>
    decreases c, 2
  {
    if IsImg(c) then
      match ImageId(c)
      case Some(id) => [Minted(id)]
      case None => []
    else if c.Element? && c.tag in {Code, Pre, AttachmentImg} then [Strip(c)]
    else [Resolve(c)]
  }

  function ResolveAll(ns: seq<Node>): seq<Node>
    decreases ns, 0
  {
    if ns == [] then [] else ResolveChild(ns[0]) + ResolveAll(ns[1..])
  }

  /** No text the post-pass reads holds a sentinel of its own. */
  predicate Free(c: Node)
    decreases c, 1
  {
    if c.Text? then Replaced(RuleOf(AttachmentImages), c.value) == None
    else if c.Leaf? || (c.Element? && c.tag in {Img, Code, Pre, AttachmentImg}) then true
    else AllFree(c.children)
  }

  predicate AllFree(ns: seq<Node>)
    decreases ns, 0
  {
    forall k :: 0 <= k < |ns| ==> Free(ns[k])
  }

  lemma SentinelMints(id: string)
    requires id != "" && All(Id, id)
    ensures Replaced(RuleOf(AttachmentImages), Sentinel(id)) == Some([Minted(id)])
  {
    SentinelIsToken(id);
    SentinelCarriesId(id);
    WholeToken(RuleOf(AttachmentImages), Sentinel(id));
  }

  lemma SentinelIsToken(id: string)
    requires id != "" && All(Id, id)
    ensures Matches(ImagePattern(), Sentinel(id))
  {
    var rest := Sentinel(id)[1..];
    assert rest[..|id|] == id && rest[|id|..] == [CLOSE];
    assert [CLOSE][1..] == "";
    assert Matches(One(CLOSE, Done), [CLOSE]);
    assert RunThen(Plus(Id, One(CLOSE, Done)), rest, |id|);
  }

  lemma SentinelCarriesId(id: string)
    requires id != "" && All(Id, id)
    ensures Mint(AttachmentImages, Sentinel(id)) == Some(Minted(id))
  {
    var t := Sentinel(id);
    forall k | 1 <= k < 1 + |id|
      ensures In(Id, t[k])
    {
      assert t[k] == id[k - 1];
    }
    RunIs(Id, t, 1, |id|);
    assert t[1..1 + |id|] == id;
  }

  /** The elements the post-pass has minted so far, outside `code` and `pre`. */
  function Count(n: Node): nat
    decreases n, 1
  {
    if n.Text? || n.Leaf? then 0
    else if n.Element? && n.tag in {Code, Pre} then 0
    else if n.Element? && n.tag.AttachmentImg? then 1
    else CountAll(n.children)
  }

  function CountAll(ns: seq<Node>): nat
    decreases ns, 0
  {
    if ns == [] then 0 else Count(ns[0]) + CountAll(ns[1..])
  }

  lemma {:induction false} CountConcat(a: seq<Node>, b: seq<Node>)
    ensures CountAll(a + b) == CountAll(a) + CountAll(b)
  {
    if a == [] {
      assert a + b == b;
    } else {
      CountConcat(a[1..], b);
      assert (a + b)[1..] == a[1..] + b;
    }
  }

  lemma {:induction false} CountSome(ns: seq<Node>, k: nat)
    requires k < |ns|
    ensures CountAll(ns) >= Count(ns[k])
  {
    if k > 0 {
      CountSome(ns[1..], k - 1);
    }
  }

  lemma CountOne(n: Node)
    ensures CountAll([n]) == Count(n)
  {
    assert CountAll([n]) == Count(n) + CountAll([]);
  }

  lemma SentinelTextIsCounted(c: Node)
    requires c.Text? && !Free(c)
    ensures CountAll(VisitChild(WalkerOf(AttachmentImages), c)) > 0
  {
    var k, t := SomePieceIsMinted(RuleOf(AttachmentImages), c.value);
    CountSome(VisitChild(WalkerOf(AttachmentImages), c), k);
  }

  lemma {:induction false} ChildRoundTrip(c: Node)
    ensures var twice := VisitAll(WalkerOf(AttachmentImages), StripChild(c));
            if Free(c) then twice == ResolveChild(c) else CountAll(twice) > CountAll(ResolveChild(c))
    decreases c, 2
  {
    var w := WalkerOf(AttachmentImages);
    if IsImg(c) {
      if ImageId(c).Some? {
        SentinelMints(ImageId(c).value);
        VisitOne(w, Node.Text(Sentinel(ImageId(c).value)));
      }
    } else {
      VisitOne(w, Strip(c));
      CountOne(ResolveChild(c)[0]);
      if c.Text? {
        if !Free(c) {
          SentinelTextIsCounted(c);
        }
      } else if HasChildren(c) && !IsLiteral(w, c) {
        AllRoundTrip(c.children);
        CountOne(Visit(w, Strip(c)));
      }
    }
  }

  lemma {:induction false} AllRoundTrip(ns: seq<Node>)
    ensures var twice := VisitAll(WalkerOf(AttachmentImages), StripAll(ns));
            if AllFree(ns) then twice == ResolveAll(ns) else CountAll(twice) > CountAll(ResolveAll(ns))
    decreases ns, 0
  {
    if ns != [] {
      var w := WalkerOf(AttachmentImages);
      ChildRoundTrip(ns[0]);
      AllRoundTrip(ns[1..]);
      VisitConcat(w, StripChild(ns[0]), StripAll(ns[1..]));
      CountConcat(VisitAll(w, StripChild(ns[0])), VisitAll(w, StripAll(ns[1..])));
      CountConcat(ResolveChild(ns[0]), ResolveAll(ns[1..]));
      assert AllFree(ns) <==> Free(ns[0]) && AllFree(ns[1..]);
    }
  }

  /**
   The pre-pass and the post-pass together turn exactly the attachment images outside `code` and `pre` into
   their elements, in place, and drop every other image; they do so exactly when no text the post-pass reads
   already held a sentinel.
   */
  lemma RoundTripIffFree(tree: Node)
    requires tree.Container?
    ensures RunPass(AttachmentImages, Strip(tree)) == Resolve(tree) <==> Free(tree)
  {
    AllRoundTrip(tree.children);
  }
}
