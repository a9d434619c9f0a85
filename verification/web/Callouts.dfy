/** The pass that turns a blockquote opening with a `[!TYPE]` marker into a callout. */
module Callouts {
  import opened Options
  import opened Text
  import opened Splitting
  import opened Hast

  datatype Variant = Note | Tip | Important | Warning | Caution

  function VariantName(v: Variant): string {
    match v
    case Note => "note"
    case Tip => "tip"
    case Important => "important"
    case Warning => "warning"
    case Caution => "caution"
  }

  function VariantOf(word: string): Option<Variant> {
    var lower := ToLower(word);
    if lower == VariantName(Note) then Some(Note)
    else if lower == VariantName(Tip) then Some(Tip)
    else if lower == VariantName(Important) then Some(Important)
    else if lower == VariantName(Warning) then Some(Warning)
    else if lower == VariantName(Caution) then Some(Caution)
    else None
  }

  datatype Marker = Marker(variant: Variant, length: nat)

  /** The marker `s` opens with, and how much of `s` it takes with the white space after it. */
  function MarkerOf(s: string): (m: Option<Marker>)
    ensures m.Some? ==> 0 < m.value.length <= |s|
  {
    if |s| < 2 || s[0] != '[' || s[1] != '!' then None
    else
      var close := 2 + IndexOf(s[2..], ']');
      if close == |s| then None
      else
        match VariantOf(s[2..close])
        case None => None
        case Some(variant) => Some(Marker(variant, close + 1 + LeadingSpace(s[close + 1..])))
  }

  /**
   A marker is `[!`, one of the five names in any case, `]`, and all the white space after it; nothing else is.
   */
  lemma MarkerOfIff(s: string, v: Variant, n: nat)
    ensures MarkerOf(s) == Some(Marker(v, n)) <==> OpensWith(s, v, n)
  {
    if OpensWith(s, v, n) {
      MarkerFound(s, v, n);
    }
    if MarkerOf(s) == Some(Marker(v, n)) {
      MarkerRead(s, v, n);
    }
  }

  /** `s` opens with the marker of `v`, which takes `n` characters with the white space after it. */
  ghost predicate OpensWith(s: string, v: Variant, n: nat) {
    var close := 2 + |VariantName(v)|;
    && close < n <= |s|
    && s[0] == '[' && s[1] == '!' && ToLower(s[2..close]) == VariantName(v) && s[close] == ']'
    && (forall k :: close < k < n ==> IsSpace(s[k]))
    && (n < |s| ==> !IsSpace(s[n]))
  }

  lemma VariantOfName(word: string, v: Variant)
    ensures VariantOf(word) == Some(v) <==> ToLower(word) == VariantName(v)
  {
    assert VariantName(Note)[0] == 'n' && VariantName(Tip)[0] == 't' && VariantName(Important)[0] == 'i';
    assert VariantName(Warning)[0] == 'w' && VariantName(Caution)[0] == 'c';
  }

  lemma NameHasNoBracket(word: string, v: Variant)
    requires ToLower(word) == VariantName(v)
    ensures forall k :: 0 <= k < |word| ==> word[k] != ']'
  {
    forall k | 0 <= k < |word|
      ensures word[k] != ']'
    {
      assert ToLower(word)[k] == Lower(word[k]) == VariantName(v)[k];
      NameIsLetters(v, k);
    }
  }

  lemma NameIsLetters(v: Variant, k: nat)
    requires k < |VariantName(v)|
    ensures 'a' <= VariantName(v)[k] <= 'z'
  {
  }

  lemma MarkerFound(s: string, v: Variant, n: nat)
    requires OpensWith(s, v, n)
    ensures MarkerOf(s) == Some(Marker(v, n))
  {
    var close := 2 + |VariantName(v)|;
    NameHasNoBracket(s[2..close], v);
    ClosesAt(s, close);
    VariantOfName(s[2..close], v);
    SpacesTo(s, close + 1, n);
  }

  lemma ClosesAt(s: string, close: nat)
    requires 2 <= close < |s| && s[close] == ']' && forall k :: 0 <= k < close - 2 ==> s[2..close][k] != ']'
    ensures IndexOf(s[2..], ']') == close - 2
  {
    assert forall k :: 0 <= k < close - 2 ==> s[2..][k] == s[2..close][k];
    IndexOfIs(s[2..], ']', close - 2);
  }

  lemma SpacesTo(s: string, from: nat, n: nat)
    requires from <= n <= |s| && (forall k :: from <= k < n ==> IsSpace(s[k])) && (n < |s| ==> !IsSpace(s[n]))
    ensures LeadingSpace(s[from..]) == n - from
  {
    var rest := s[from..];
    assert forall k :: 0 <= k < |rest| ==> rest[k] == s[from + k];
    SpacesAre(rest, n - from);
  }

  lemma MarkerRead(s: string, v: Variant, n: nat)
    requires MarkerOf(s) == Some(Marker(v, n))
    ensures OpensWith(s, v, n)
  {
    var close := MarkerParts(s, v, n);
    VariantOfName(s[2..close], v);
    SpacesFrom(s, close + 1);
  }

  lemma MarkerParts(s: string, v: Variant, n: nat) returns (close: nat)
    requires MarkerOf(s) == Some(Marker(v, n))
    ensures 2 <= close < |s| && s[0] == '[' && s[1] == '!' && s[close] == ']'
    ensures VariantOf(s[2..close]) == Some(v) && n == close + 1 + LeadingSpace(s[close + 1..])
  {
    close := 2 + IndexOf(s[2..], ']');
    assert s[close] == s[2..][close - 2];
  }

  lemma SpacesFrom(s: string, from: nat)
    requires from <= |s|
    ensures var n := from + LeadingSpace(s[from..]);
            n <= |s| && (forall k :: from <= k < n ==> IsSpace(s[k])) && (n < |s| ==> !IsSpace(s[n]))
  {
    var rest := s[from..];
    assert forall k :: from <= k < |s| ==> s[k] == rest[k - from];
  }

  lemma SpacesAre(s: string, n: nat)
    requires n <= |s| && (forall k :: 0 <= k < n ==> IsSpace(s[k])) && (n < |s| ==> !IsSpace(s[n]))
    ensures LeadingSpace(s) == n
  {
  }

  /** The five names, in any case and with nothing else in the brackets. */
  lemma MarkerNames(word: string)
    requires ']' !in word
    ensures MarkerOf("[!" + word + "]").Some?
      <==> var lower := ToLower(word);
           lower == "note" || lower == "tip" || lower == "important" || lower == "warning" || lower == "caution"
  {
    var s := "[!" + word + "]";
    assert s[2..][..|word|] == word && s[2..][|word|] == ']';
    IndexOfIs(s[2..], ']', |word|);
    assert s[2..2 + |word|] == word;
  }

  /** The first element child, wherever it stands among the other nodes. */
  function FirstElement(ns: seq<Node>): (k: nat)
    ensures k <= |ns|
    ensures forall j :: 0 <= j < k ==> !ns[j].Element?
    ensures k < |ns| ==> ns[k].Element?
  {
    if ns == [] || ns[0].Element? then 0 else 1 + FirstElement(ns[1..])
  }

  /** The text the marker is looked for in: the first node of a paragraph that is the first element. */
  function Opening(ns: seq<Node>): (text: Option<string>)
    ensures text.Some? ==> FirstElement(ns) < |ns| && ns[FirstElement(ns)].children != []
  {
    var k := FirstElement(ns);
    if k == |ns| || !ns[k].tag.P? || ns[k].children == [] || !ns[k].children[0].Text? then None
    else Some(ns[k].children[0].value)
  }

  function OpeningMarker(ns: seq<Node>): Option<Marker> {
    match Opening(ns)
    case None => None
    case Some(text) => MarkerOf(text)
  }

  /** The paragraph without its marker; nothing when the marker was all it held. */
  function WithoutMarker(p: Node, length: nat): seq<Node>
    requires p.Element? && p.children != [] && p.children[0].Text? && length <= |p.children[0].value|
  {
    var rest := p.children[0].value[length..];
    if rest != "" then [Element(p.tag, p.props, [Node.Text(rest)] + p.children[1..])]
    else if |p.children| > 1 then [Element(p.tag, p.props, p.children[1..])]
    else []
  }

  /** A blockquote that opens with a marker. */
  predicate IsMarked(n: Node) {
    n.Element? && n.tag.Blockquote? && OpeningMarker(n.children).Some?
  }

  function Transformed(n: Node): Node {
    if IsMarked(n) then
      var marker := OpeningMarker(n.children).value;
      var k := FirstElement(n.children);
      Element(Callout, n.props["variant" := Str(VariantName(marker.variant))],
              n.children[..k] + WithoutMarker(n.children[k], marker.length) + n.children[k + 1..])
    else n
  }

  // ----- the walk goes into what it has just changed, so it is bounded by size -----

  function Size(n: Node): nat
    decreases n, 1
  {
    if HasChildren(n) then 1 + SizeAll(n.children) else 1
  }

  function SizeAll(ns: seq<Node>): nat
    decreases ns, 0
  {
    if ns == [] then 0 else 1 + Size(ns[0]) + SizeAll(ns[1..])
  }

  lemma {:induction false} SizeConcat(a: seq<Node>, b: seq<Node>)
    ensures SizeAll(a + b) == SizeAll(a) + SizeAll(b)
  {
    if a == [] {
      assert a + b == b;
    } else {
      SizeConcat(a[1..], b);
      assert (a + b)[1..] == a[1..] + b;
    }
  }

  lemma SizeAround(ns: seq<Node>, k: nat, middle: seq<Node>)
    requires k < |ns|
    ensures SizeAll(ns[..k] + middle + ns[k + 1..]) == SizeAll(ns) - 1 - Size(ns[k]) + SizeAll(middle)
  {
    assert ns == ns[..k] + [ns[k]] + ns[k + 1..];
    assert SizeAll([ns[k]]) == 1 + Size(ns[k]) + SizeAll([]);
    SizeConcat(ns[..k], [ns[k]]);
    SizeConcat(ns[..k] + [ns[k]], ns[k + 1..]);
    SizeConcat(ns[..k], middle);
    SizeConcat(ns[..k] + middle, ns[k + 1..]);
  }

  lemma MarkerHasNoSize(p: Node, length: nat)
    requires p.Element? && p.children != [] && p.children[0].Text? && length <= |p.children[0].value|
    ensures SizeAll(WithoutMarker(p, length)) <= 1 + Size(p)
  {
    var left := WithoutMarker(p, length);
    if left != [] {
      assert SizeAll(left) == 1 + Size(left[0]) + SizeAll([]);
      if p.children[0].value[length..] != "" {
        assert left[0].children[1..] == p.children[1..];
        assert Size(left[0].children[0]) == Size(p.children[0]);
      }
    }
  }

  lemma TransformedIsNoLarger(n: Node)
    ensures Size(Transformed(n)) <= Size(n)
  {
    if IsMarked(n) {
      var k := FirstElement(n.children);
      var length := OpeningMarker(n.children).value.length;
      MarkerHasNoSize(n.children[k], length);
      SizeAround(n.children, k, WithoutMarker(n.children[k], length));
    }
  }

  function Visit(n: Node): Node
    decreases Size(n)
  {
    TransformedIsNoLarger(n);
    match Transformed(n)
    case Text(value) => Node.Text(value)
    case Leaf(kind) => Leaf(kind)
    case Element(tag, props, children) => Element(tag, props, VisitAll(children))
    case Container(kind, children) => Container(kind, VisitAll(children))
  }

  function VisitAll(ns: seq<Node>): (out: seq<Node>)
    ensures |out| == |ns|
    decreases SizeAll(ns)
  {
    if ns == [] then [] else [Visit(ns[0])] + VisitAll(ns[1..])
  }

  // ----- a second run -----

  lemma {:induction false} VisitEach(ns: seq<Node>, k: nat)
    requires k < |ns|
    ensures VisitAll(ns)[k] == Visit(ns[k])
  {
    if k > 0 {
      VisitEach(ns[1..], k - 1);
    }
  }

  lemma FirstElementIs(ns: seq<Node>, k: nat)
    requires k < |ns| && ns[k].Element? && forall j :: 0 <= j < k ==> !ns[j].Element?
    ensures FirstElement(ns) == k
  {
  }

  lemma VisitKeepsKind(n: Node)
    ensures Visit(n).Element? <==> n.Element?
    ensures n.Text? ==> Visit(n) == n
    ensures n.Element? ==> (Visit(n).tag.P? <==> n.tag.P?)
    ensures n.Element? && n.tag.P? ==> Visit(n).children == VisitAll(n.children)
    ensures Visit(n).Text? ==> n.Text?
  {
  }

  lemma VisitKeepsFirstElement(ns: seq<Node>)
    ensures FirstElement(VisitAll(ns)) == FirstElement(ns)
  {
    var k := FirstElement(ns);
    forall j | 0 <= j < |ns|
      ensures VisitAll(ns)[j].Element? <==> ns[j].Element?
    {
      VisitEach(ns, j);
      VisitKeepsKind(ns[j]);
    }
    if k < |ns| {
      FirstElementIs(VisitAll(ns), k);
    }
  }

  /** Visiting the children does not change what the blockquote opens with. */
  lemma VisitKeepsOpening(ns: seq<Node>)
    ensures Opening(VisitAll(ns)) == Opening(ns)
  {
    var k := FirstElement(ns);
    VisitKeepsFirstElement(ns);
    if k < |ns| {
      VisitEach(ns, k);
      VisitKeepsKind(ns[k]);
      if ns[k].tag.P? && ns[k].children != [] {
        VisitEach(ns[k].children, 0);
        VisitKeepsKind(ns[k].children[0]);
      }
    }
  }

  /** On every tree, nested blockquotes included, a second run of the pass changes nothing. */
  lemma {:induction false} VisitIdempotent(n: Node)
    ensures Visit(Visit(n)) == Visit(n)
    decreases Size(n)
  {
    var m := Transformed(n);
    TransformedIsNoLarger(n);
    if HasChildren(m) {
      VisitAllIdempotent(m.children);
      VisitKeepsOpening(m.children);
    }
  }

  lemma {:induction false} VisitAllIdempotent(ns: seq<Node>)
    ensures VisitAll(VisitAll(ns)) == VisitAll(ns)
    decreases SizeAll(ns)
  {
    if ns != [] {
      VisitIdempotent(ns[0]);
      VisitAllIdempotent(ns[1..]);
    }
  }

  /** Without a marker a blockquote stays a blockquote with its own properties and as many children. */
  lemma PlainQuoteKeepsItsShape(n: Node)
    requires n.Element? && n.tag.Blockquote?
    ensures OpeningMarker(n.children).None? <==> Visit(n).tag.Blockquote?
    ensures OpeningMarker(n.children).None? ==> Visit(n) == Element(Blockquote, n.props, VisitAll(n.children))
    ensures OpeningMarker(n.children).Some? ==> Visit(n).tag.Callout?
    ensures OpeningMarker(n.children).Some?
      ==> Visit(n).props == n.props["variant" := Str(VariantName(OpeningMarker(n.children).value.variant))]
  {
  }

  lemma {:induction false} VisitConcat(a: seq<Node>, b: seq<Node>)
    ensures VisitAll(a + b) == VisitAll(a) + VisitAll(b)
  {
    if a == [] {
      assert a + b == b;
    } else {
      VisitConcat(a[1..], b);
      assert (a + b)[0] == a[0] && (a + b)[1..] == a[1..] + b;
      ConcatAssoc([Visit(a[0])], VisitAll(a[1..]), VisitAll(b));
    }
  }

  /** The first element of a quote is a paragraph that opens with a text that opens with the marker of `v`. */
  ghost predicate OpensCallout(n: Node, k: nat, v: Variant, length: nat) {
    && n.Element? && n.tag.Blockquote? && k < |n.children|
    && (forall j :: 0 <= j < k ==> !n.children[j].Element?)
    && n.children[k].Element? && n.children[k].tag.P?
    && n.children[k].children != [] && n.children[k].children[0].Text?
    && OpensWith(n.children[k].children[0].value, v, length)
  }

  /** The paragraph with the marker taken off its opening text: that text goes where it is empty then. */
  function Opened(p: Node, length: nat): Node
    requires p.Element? && p.children != [] && p.children[0].Text? && length <= |p.children[0].value|
  {
    var rest := p.children[0].value[length..];
    Element(P, p.props, (if rest == "" then [] else [Node.Text(rest)]) + VisitAll(p.children[1..]))
  }

  /**
   Such a quote becomes a callout of that variant with its other properties; its paragraph loses the marker, and
   goes with it when that was all it held; every other child is the child visited, in its place.
   */
  lemma MarkedQuoteBecomes(n: Node, k: nat, v: Variant, length: nat)
    requires OpensCallout(n, k, v, length)
    ensures var p := Opened(n.children[k], length);
            Visit(n) == Element(Callout, n.props["variant" := Str(VariantName(v))],
                                VisitAll(n.children[..k]) + (if p.children == [] then [] else [p])
                                + VisitAll(n.children[k + 1..]))
  {
    var left := WithoutMarker(n.children[k], length);
    MarkedQuoteIs(n, k, v, length);
    VisitAround(n.children[..k], left, n.children[k + 1..]);
    LeftIsVisited(n.children[k], length);
  }

  lemma MarkedQuoteIs(n: Node, k: nat, v: Variant, length: nat)
    requires OpensCallout(n, k, v, length)
    ensures Transformed(n)
      == Element(Callout, n.props["variant" := Str(VariantName(v))],
                 n.children[..k] + WithoutMarker(n.children[k], length) + n.children[k + 1..])
  {
    OpeningIs(n, k, v, length);
  }

  lemma OpeningIs(n: Node, k: nat, v: Variant, length: nat)
    requires OpensCallout(n, k, v, length)
    ensures FirstElement(n.children) == k && OpeningMarker(n.children) == Some(Marker(v, length))
  {
    FirstElementIs(n.children, k);
    MarkerOfIff(n.children[k].children[0].value, v, length);
  }

  lemma VisitAround(a: seq<Node>, b: seq<Node>, c: seq<Node>)
    ensures VisitAll(a + b + c) == VisitAll(a) + VisitAll(b) + VisitAll(c)
  {
    VisitConcat(a + b, c);
    VisitConcat(a, b);
  }

  lemma ContainerIsVisited(kind: string, ns: seq<Node>)
    ensures Visit(Container(kind, ns)) == Container(kind, VisitAll(ns))
  {
  }

  lemma LeftIsVisited(p: Node, length: nat)
    requires p.Element? && p.tag.P? && p.children != [] && p.children[0].Text? && length <= |p.children[0].value|
    ensures VisitAll(WithoutMarker(p, length)) == if Opened(p, length).children == [] then [] else [Opened(p, length)]
  {
    var rest, left := p.children[0].value[length..], WithoutMarker(p, length);
    if left != [] {
      assert left[1..] == [];
      if rest != "" {
        assert left[0].children[1..] == p.children[1..];
      }
      assert VisitAll(left[0].children) == Opened(p, length).children;
    }
  }

  /** All else is only visited: no other element and no other quote changes its name or its properties. */
  lemma OthersAreVisited(n: Node)
    requires n.Element? && forall k, v, length :: !OpensCallout(n, k, v, length)
    ensures Visit(n) == Element(n.tag, n.props, VisitAll(n.children))
  {
    if IsMarked(n) {
      var k, marker := FirstElement(n.children), OpeningMarker(n.children).value;
      MarkerOfIff(n.children[k].children[0].value, marker.variant, marker.length);
      assert OpensCallout(n, k, marker.variant, marker.length);
    }
  }

  // ----- the text that is left -----

  /** A stretch of the page's text, and whether the pass takes it out. */
  datatype Piece = Kept(text: string) | Struck(text: string)

  function TextBefore(ps: seq<Piece>): string {
    if ps == [] then "" else ps[0].text + TextBefore(ps[1..])
  }

  function TextAfter(ps: seq<Piece>): string {
    if ps == [] then "" else (if ps[0].Kept? then ps[0].text else "") + TextAfter(ps[1..])
  }

  function StruckIn(ps: seq<Piece>): nat {
    if ps == [] then 0 else (if ps[0].Struck? then 1 else 0) + StruckIn(ps[1..])
  }

  lemma {:induction false} BeforeConcat(a: seq<Piece>, b: seq<Piece>)
    ensures TextBefore(a + b) == TextBefore(a) + TextBefore(b)
  {
    if a == [] {
      assert a + b == b;
    } else {
      BeforeConcat(a[1..], b);
      TailOfConcat(a, b);
      ConcatAssoc(a[0].text, TextBefore(a[1..]), TextBefore(b));
    }
  }

  lemma {:induction false} AfterConcat(a: seq<Piece>, b: seq<Piece>)
    ensures TextAfter(a + b) == TextAfter(a) + TextAfter(b)
  {
    if a == [] {
      assert a + b == b;
    } else {
      AfterConcat(a[1..], b);
      TailOfConcat(a, b);
      ConcatAssoc(if a[0].Kept? then a[0].text else "", TextAfter(a[1..]), TextAfter(b));
    }
  }

  lemma {:induction false} StruckInConcat(a: seq<Piece>, b: seq<Piece>)
    ensures StruckIn(a + b) == StruckIn(a) + StruckIn(b)
  {
    if a == [] {
      assert a + b == b;
    } else {
      StruckInConcat(a[1..], b);
      assert (a + b)[1..] == a[1..] + b;
    }
  }

  /** A text that is one marker and the white space after it, nothing more. */
  predicate IsMarker(m: string) {
    MarkerOf(m).Some? && MarkerOf(m).value.length == |m|
  }

  function Callouts(n: Node): nat
    decreases n, 1
  {
    if HasChildren(n) then (if n.Element? && n.tag.Callout? then 1 else 0) + CalloutsIn(n.children) else 0
  }

  function CalloutsIn(ns: seq<Node>): nat
    decreases ns, 0
  {
    if ns == [] then 0 else Callouts(ns[0]) + CalloutsIn(ns[1..])
  }

  /** What a marker takes is a marker by itself. */
  lemma MarkerIsMarker(s: string)
    requires MarkerOf(s).Some?
    ensures IsMarker(s[..MarkerOf(s).value.length])
  {
    var close := 2 + IndexOf(s[2..], ']');
    var spaces := LeadingSpace(s[close + 1..]);
    var m := s[..close + 1 + spaces];
    IndexOfIs(m[2..], ']', close - 2);
    assert m[2..close] == s[2..close];
    assert m[close + 1..] == s[close + 1..][..spaces];
    SpacesAre(m[close + 1..], spaces);
  }

  /** The pieces tell how the text of the visited nodes came from the text of the nodes. */
  ghost predicate Tells(ps: seq<Piece>, before: string, after: string, more: int) {
    && TextBefore(ps) == before && TextAfter(ps) == after && StruckIn(ps) == more
    && forall k :: 0 <= k < |ps| && ps[k].Struck? ==> IsMarker(ps[k].text)
  }

  lemma TellsBoth(a: seq<Piece>, b: seq<Piece>, f1: string, k1: string, m1: int, f2: string, k2: string, m2: int)
    requires Tells(a, f1, k1, m1) && Tells(b, f2, k2, m2)
    ensures Tells(a + b, f1 + f2, k1 + k2, m1 + m2)
  {
    BeforeConcat(a, b);
    AfterConcat(a, b);
    StruckInConcat(a, b);
  }

  lemma {:induction false} CalloutsConcat(a: seq<Node>, b: seq<Node>)
    ensures CalloutsIn(a + b) == CalloutsIn(a) + CalloutsIn(b)
  {
    if a == [] {
      assert a + b == b;
    } else {
      CalloutsConcat(a[1..], b);
      assert (a + b)[1..] == a[1..] + b;
    }
  }

  lemma MarkerLeavesText(p: Node, length: nat)
    requires p.Element? && p.children != [] && p.children[0].Text? && length <= |p.children[0].value|
    ensures Flatten(p) == p.children[0].value[..length] + FlattenAll(WithoutMarker(p, length))
  {
    var value, tail := p.children[0].value, FlattenAll(p.children[1..]);
    var left, rest := WithoutMarker(p, length), value[length..];
    assert value == value[..length] + rest;
    assert Flatten(p.children[0]) == value;
    assert Flatten(p) == value + tail == value[..length] + (rest + tail);
    if left == [] {
      assert p.children[1..] == [];
    } else {
      FlattenOne(left[0]);
      if rest != "" {
        assert left[0].children[1..] == p.children[1..];
        assert Flatten(left[0].children[0]) == rest;
      } else {
        assert rest + tail == tail;
      }
    }
  }

  lemma FlattenOne(n: Node)
    ensures FlattenAll([n]) == Flatten(n)
  {
    assert FlattenAll([n]) == Flatten(n) + FlattenAll([]);
  }

  lemma MarkerLeavesCallouts(p: Node, length: nat)
    requires p.Element? && p.tag.P? && p.children != [] && p.children[0].Text? && length <= |p.children[0].value|
    ensures CalloutsIn(WithoutMarker(p, length)) == Callouts(p)
  {
    var left := WithoutMarker(p, length);
    assert Callouts(p) == CalloutsIn(p.children) == CalloutsIn(p.children[1..]);
    if left == [] {
      assert p.children[1..] == [];
    } else {
      assert CalloutsIn(left) == Callouts(left[0]) + CalloutsIn([]);
      if p.children[0].value[length..] != "" {
        assert left[0].children[1..] == p.children[1..];
        assert Callouts(left[0].children[0]) == 0;
      }
    }
  }

  lemma Around(ns: seq<Node>, k: nat)
    requires k < |ns|
    ensures FlattenAll(ns) == FlattenAll(ns[..k]) + (Flatten(ns[k]) + FlattenAll(ns[k + 1..]))
    ensures CalloutsIn(ns) == CalloutsIn(ns[..k]) + Callouts(ns[k]) + CalloutsIn(ns[k + 1..])
  {
    assert ns == ns[..k] + ns[k..];
    assert ns[k..][1..] == ns[k + 1..];
    FlattenConcat(ns[..k], ns[k..]);
    CalloutsConcat(ns[..k], ns[k..]);
  }

  lemma VisitedAround(a: seq<Node>, b: seq<Node>, c: seq<Node>)
    ensures FlattenAll(VisitAll(a + b + c))
      == FlattenAll(VisitAll(a)) + (FlattenAll(VisitAll(b)) + FlattenAll(VisitAll(c)))
    ensures CalloutsIn(VisitAll(a + b + c))
      == CalloutsIn(VisitAll(a)) + CalloutsIn(VisitAll(b)) + CalloutsIn(VisitAll(c))
  {
    assert a + b + c == a + (b + c);
    VisitConcat(a, b + c);
    VisitConcat(b, c);
    FlattenConcat(VisitAll(a), VisitAll(b + c));
    FlattenConcat(VisitAll(b), VisitAll(c));
    CalloutsConcat(VisitAll(a), VisitAll(b + c));
    CalloutsConcat(VisitAll(b), VisitAll(c));
  }

  // ----- exactly which text is left -----

  /** The text that should be left: everything but the marker at the opening of each marked quote. */
  function TextLeft(n: Node): string
    decreases Size(n)
  {
    if IsMarked(n) then
      MarkedPartsAreSmaller(n);
      var k := FirstElement(n.children);
      var texts := n.children[k].children;
      TextLeftIn(n.children[..k])
      + ((texts[0].value[OpeningMarker(n.children).value.length..] + TextLeftIn(texts[1..]))
         + TextLeftIn(n.children[k + 1..]))
    else if HasChildren(n) then TextLeftIn(n.children)
    else Flatten(n)
  }

  function TextLeftIn(ns: seq<Node>): string
    decreases SizeAll(ns)
  {
    if ns == [] then "" else TextLeft(ns[0]) + TextLeftIn(ns[1..])
  }

  lemma MarkedPartsAreSmaller(n: Node)
    requires IsMarked(n)
    ensures var k := FirstElement(n.children);
            && SizeAll(n.children[..k]) < Size(n) && SizeAll(n.children[k + 1..]) < Size(n)
            && SizeAll(n.children[k].children[1..]) < Size(n)
  {
    SizeAround(n.children, FirstElement(n.children), []);
    var k := FirstElement(n.children);
    SizeConcat(n.children[..k] + [], n.children[k + 1..]);
    assert n.children[..k] + [] == n.children[..k];
  }

  lemma VisitWithoutMarker(p: Node, length: nat)
    requires p.Element? && p.tag.P? && p.children != [] && p.children[0].Text? && length <= |p.children[0].value|
    ensures FlattenAll(VisitAll(WithoutMarker(p, length)))
      == p.children[0].value[length..] + FlattenAll(VisitAll(p.children[1..]))
  {
    var left, rest := WithoutMarker(p, length), p.children[0].value[length..];
    if left != [] {
      assert VisitAll(left) == [Visit(left[0])] + VisitAll([]);
      FlattenOne(Visit(left[0]));
      VisitOpening(rest, p.children[1..]);
    } else {
      assert p.children[1..] == [];
    }
  }

  lemma VisitOpening(rest: string, tail: seq<Node>)
    ensures FlattenAll(VisitAll([Node.Text(rest)] + tail)) == rest + FlattenAll(VisitAll(tail))
  {
    var all := [Node.Text(rest)] + tail;
    assert all[1..] == tail;
    assert VisitAll(all) == [Node.Text(rest)] + VisitAll(tail);
    assert VisitAll(all)[1..] == VisitAll(tail);
  }

  /** A marked quote in parts: what stands around its opening paragraph, that paragraph, and its marker's length. */
  predicate IsMarkedAs(n: Node, a: seq<Node>, p: Node, length: nat, c: seq<Node>) {
    && IsMarked(n)
    && a == n.children[..FirstElement(n.children)] && p == n.children[FirstElement(n.children)]
    && c == n.children[FirstElement(n.children) + 1..] && length == OpeningMarker(n.children).value.length
  }

  predicate OpensWithText(p: Node, length: nat) {
    p.Element? && p.tag.P? && p.children != [] && p.children[0].Text? && length <= |p.children[0].value|
  }

  lemma MarkedOpensWithText(n: Node, a: seq<Node>, p: Node, length: nat, c: seq<Node>)
    requires IsMarkedAs(n, a, p, length, c)
    ensures OpensWithText(p, length)
  {
  }

  lemma FlattenVisited(n: Node, a: seq<Node>, p: Node, length: nat, c: seq<Node>)
    requires IsMarkedAs(n, a, p, length, c) && OpensWithText(p, length)
    ensures Flatten(Visit(n)) == FlattenAll(VisitAll(a + WithoutMarker(p, length) + c))
  {
  }

  lemma TextOfParts(a: seq<Node>, p: Node, length: nat, c: seq<Node>)
    requires OpensWithText(p, length)
    ensures FlattenAll(VisitAll(a + WithoutMarker(p, length) + c))
      == FlattenAll(VisitAll(a))
         + ((p.children[0].value[length..] + FlattenAll(VisitAll(p.children[1..]))) + FlattenAll(VisitAll(c)))
  {
    VisitWithoutMarker(p, length);
    VisitedAround(a, WithoutMarker(p, length), c);
  }

  lemma LeftOfMarked(n: Node, a: seq<Node>, p: Node, length: nat, c: seq<Node>)
    requires IsMarkedAs(n, a, p, length, c) && OpensWithText(p, length)
    ensures TextLeft(n)
      == TextLeftIn(a) + ((p.children[0].value[length..] + TextLeftIn(p.children[1..])) + TextLeftIn(c))
  {
  }

  /** On every tree, the text after the pass is the text without the markers that made callouts, and no other. */
  lemma {:induction false} VisitLeaves(n: Node)
    ensures Flatten(Visit(n)) == TextLeft(n)
    decreases Size(n)
  {
    if IsMarked(n) {
      MarkedPartsAreSmaller(n);
      var k, length := FirstElement(n.children), OpeningMarker(n.children).value.length;
      var a, p, c := n.children[..k], n.children[k], n.children[k + 1..];
      VisitAllLeaves(a);
      VisitAllLeaves(p.children[1..]);
      VisitAllLeaves(c);
      MarkedOpensWithText(n, a, p, length, c);
      FlattenVisited(n, a, p, length, c);
      TextOfParts(a, p, length, c);
      LeftOfMarked(n, a, p, length, c);
    } else if HasChildren(n) {
      VisitAllLeaves(n.children);
    }
  }

  lemma {:induction false} VisitAllLeaves(ns: seq<Node>)
    ensures FlattenAll(VisitAll(ns)) == TextLeftIn(ns)
    decreases SizeAll(ns)
  {
    if ns != [] {
      VisitLeaves(ns[0]);
      VisitAllLeaves(ns[1..]);
      assert VisitAll(ns)[1..] == VisitAll(ns[1..]);
    }
  }

  // ----- how many markers went -----

  /** How much more callouts there are among the visited nodes. */
  function Gained(ns: seq<Node>): int {
    CalloutsIn(VisitAll(ns)) - CalloutsIn(ns)
  }

  ghost predicate TellsAll(ps: seq<Piece>, ns: seq<Node>) {
    Tells(ps, FlattenAll(ns), FlattenAll(VisitAll(ns)), Gained(ns))
  }

  ghost predicate TellsOf(ps: seq<Piece>, n: Node) {
    Tells(ps, Flatten(n), Flatten(Visit(n)), Callouts(Visit(n)) - Callouts(n))
  }

  /** A marked quote in parts: the nodes around its opening paragraph, its marker, and what the marker leaves. */
  ghost predicate CutsQuote(n: Node, before: seq<Node>, left: seq<Node>, after: seq<Node>, marker: string) {
    IsMarked(n) &&
    var k, length := FirstElement(n.children), OpeningMarker(n.children).value.length;
    && before == n.children[..k] && after == n.children[k + 1..]
    && left == WithoutMarker(n.children[k], length) && marker == Opening(n.children).value[..length]
  }

  lemma QuoteText(n: Node, before: seq<Node>, left: seq<Node>, after: seq<Node>, marker: string)
    requires CutsQuote(n, before, left, after, marker)
    ensures Flatten(n) == FlattenAll(before) + ((marker + FlattenAll(left)) + FlattenAll(after))
  {
    var k := FirstElement(n.children);
    MarkerLeavesText(n.children[k], OpeningMarker(n.children).value.length);
    Around(n.children, k);
  }

  lemma QuoteVisited(n: Node, before: seq<Node>, left: seq<Node>, after: seq<Node>, marker: string)
    requires CutsQuote(n, before, left, after, marker)
    ensures Flatten(Visit(n))
      == FlattenAll(VisitAll(before)) + (FlattenAll(VisitAll(left)) + FlattenAll(VisitAll(after)))
  {
    VisitedAround(before, left, after);
  }

  lemma QuoteAdds(n: Node, before: seq<Node>, left: seq<Node>, after: seq<Node>, marker: string)
    requires CutsQuote(n, before, left, after, marker)
    ensures Callouts(Visit(n)) - Callouts(n) == Gained(before) + (1 + Gained(left) + Gained(after))
  {
    var k := FirstElement(n.children);
    MarkerLeavesCallouts(n.children[k], OpeningMarker(n.children).value.length);
    Around(n.children, k);
    VisitedAround(before, left, after);
  }

  lemma TellMarker(marker: string, w: seq<Piece>, left: seq<Node>)
    requires IsMarker(marker) && TellsAll(w, left)
    ensures Tells([Struck(marker)] + w, marker + FlattenAll(left), FlattenAll(VisitAll(left)), 1 + Gained(left))
  {
    var only := [Struck(marker)];
    assert TextBefore(only) == marker + TextBefore([]);
    assert TextAfter(only) == "" + TextAfter([]);
    TellsBoth(only, w, marker, "", 1, FlattenAll(left), FlattenAll(VisitAll(left)), Gained(left));
    assert "" + FlattenAll(VisitAll(left)) == FlattenAll(VisitAll(left));
  }

  lemma TellQuote(n: Node, before: seq<Node>, left: seq<Node>, after: seq<Node>, marker: string,
                  a: seq<Piece>, w: seq<Piece>, b: seq<Piece>) returns (ps: seq<Piece>)
    requires CutsQuote(n, before, left, after, marker) && IsMarker(marker)
    requires TellsAll(a, before) && TellsAll(w, left) && TellsAll(b, after)
    ensures TellsOf(ps, n)
  {
    QuoteText(n, before, left, after, marker);
    QuoteVisited(n, before, left, after, marker);
    QuoteAdds(n, before, left, after, marker);
    TellMarker(marker, w, left);
    ps := JoinTold(a, [Struck(marker)] + w, b, before, after,
                   marker + FlattenAll(left), FlattenAll(VisitAll(left)), 1 + Gained(left));
  }

  lemma JoinTold(a: seq<Piece>, w: seq<Piece>, b: seq<Piece>, before: seq<Node>, after: seq<Node>,
                 full: string, kept: string, more: int) returns (ps: seq<Piece>)
    requires TellsAll(a, before) && TellsAll(b, after) && Tells(w, full, kept, more)
    ensures Tells(ps, FlattenAll(before) + (full + FlattenAll(after)),
                  FlattenAll(VisitAll(before)) + (kept + FlattenAll(VisitAll(after))),
                  Gained(before) + (more + Gained(after)))
  {
    ps := a + (w + b);
    TellsBoth(w, b, full, kept, more, FlattenAll(after), FlattenAll(VisitAll(after)), Gained(after));
    TellsBoth(a, w + b, FlattenAll(before), FlattenAll(VisitAll(before)), Gained(before),
              full + FlattenAll(after), kept + FlattenAll(VisitAll(after)), more + Gained(after));
  }

  lemma PartsAreSmaller(n: Node)
    requires IsMarked(n)
    ensures var k := FirstElement(n.children);
            && SizeAll(n.children[..k]) < Size(n) && SizeAll(n.children[k + 1..]) < Size(n)
            && SizeAll(WithoutMarker(n.children[k], OpeningMarker(n.children).value.length)) < Size(n)
  {
    var k := FirstElement(n.children);
    var left := WithoutMarker(n.children[k], OpeningMarker(n.children).value.length);
    TransformedIsNoLarger(n);
    SizeConcat(n.children[..k], left);
    SizeConcat(n.children[..k] + left, n.children[k + 1..]);
  }

  lemma OneKept(s: string)
    ensures TextBefore([Kept(s)]) == s && TextAfter([Kept(s)]) == s && StruckIn([Kept(s)]) == 0
  {
    var ps := [Kept(s)];
    assert ps[1..] == [] && s + "" == s;
    assert TextBefore(ps) == s + TextBefore(ps[1..]);
    assert TextAfter(ps) == s + TextAfter(ps[1..]);
  }

  /**
   The text of the page after the pass is its text before it with some markers taken out, each whole and with
   the white space after it; there are exactly as many of them as callouts the pass made.
   */
  lemma {:induction false} OnlyMarkersGo(n: Node) returns (ps: seq<Piece>)
    ensures TextBefore(ps) == Flatten(n) && TextAfter(ps) == Flatten(Visit(n))
    ensures forall k :: 0 <= k < |ps| && ps[k].Struck? ==> IsMarker(ps[k].text)
    ensures StruckIn(ps) == Callouts(Visit(n)) - Callouts(n)
    decreases Size(n)
  {
    if IsMarked(n) {
      PartsAreSmaller(n);
      var k, length := FirstElement(n.children), OpeningMarker(n.children).value.length;
      var before, left, after := n.children[..k], WithoutMarker(n.children[k], length), n.children[k + 1..];
      var a := OnlyMarkersGoIn(before);
      var w := OnlyMarkersGoIn(left);
      var b := OnlyMarkersGoIn(after);
      MarkerIsMarker(Opening(n.children).value);
      ps := TellQuote(n, before, left, after, Opening(n.children).value[..length], a, w, b);
    } else if HasChildren(n) {
      ps := OnlyMarkersGoIn(n.children);
    } else {
      ps := [Kept(Flatten(n))];
      OneKept(Flatten(n));
    }
  }

  lemma {:induction false} OnlyMarkersGoIn(ns: seq<Node>) returns (ps: seq<Piece>)
    ensures TellsAll(ps, ns)
    decreases SizeAll(ns)
  {
    if ns == [] {
      ps := [];
    } else {
      var first := OnlyMarkersGo(ns[0]);
      var rest := OnlyMarkersGoIn(ns[1..]);
      ps := first + rest;
      TellsBoth(first, rest, Flatten(ns[0]), Flatten(Visit(ns[0])), Callouts(Visit(ns[0])) - Callouts(ns[0]),
                FlattenAll(ns[1..]), FlattenAll(VisitAll(ns[1..])), Gained(ns[1..]));
      assert VisitAll(ns)[1..] == VisitAll(ns[1..]);
    }
  }
}
