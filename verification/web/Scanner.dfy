/**
 `splitText` of the three passes: one text cut into plain pieces and minted elements. The pieces are
 specified by what they are (`SplitIsExact`), the loop with its moving `lastIndex` is `SplitText`, and the
 two are tied together by the recursion `CutFrom`.
 */
module Scanner {
  import opened Options
  import opened Text
  import opened Patterns
  import opened Hast

  datatype AnyRule = AnyRule(pattern: Pattern, mint: string -> Option<Node>)

  /** A token pattern whose scan is unambiguous, and the element a token becomes, if it becomes one. */
  type Rule = r: AnyRule | Determinate(r.pattern) && OpensOnce(r.pattern) witness AnyRule(One('[', Done), t => None)

  /** A stretch of the source text, and the element it was turned into if it was. */
  datatype Cut = Cut(lo: nat, hi: nat, minted: Option<Node>)

  /** A token starts at `i`, ends at `e`, and becomes an element. */
  predicate Usable(r: Rule, s: string, i: nat, e: nat) {
    i <= e <= |s| && End(r.pattern, s, i) == Some(e) && r.mint(s[i..e]).Some?
  }

  /** The first token that starts at or after `from`. */
  function Next(r: Rule, s: string, from: nat): (span: Option<(nat, nat)>)
    requires from <= |s|
    ensures span.Some? ==> from <= span.value.0 < span.value.1 <= |s|
    ensures span.Some? ==> End(r.pattern, s, span.value.0) == Some(span.value.1)
    ensures span.Some? ==> forall j :: from <= j < span.value.0 ==> End(r.pattern, s, j) == None
    ensures span.None? ==> forall j :: from <= j <= |s| ==> End(r.pattern, s, j) == None
    decreases |s| - from
  {
    match End(r.pattern, s, from)
    case Some(e) => Some((from, e))
    case None => if from == |s| then None else Next(r, s, from + 1)
  }

  function Plain(lo: nat, hi: nat): seq<Cut> {
    if lo < hi then [Cut(lo, hi, None)] else []
  }

  /** The cuts of `s[last..]`, given that no usable token starts before `from`. */
  function CutFrom(r: Rule, s: string, last: nat, from: nat): seq<Cut>
    requires last <= from <= |s|
    decreases |s| - from
  {
    match Next(r, s, from)
    case None => Plain(last, |s|)
    case Some((i, e)) =>
      match r.mint(s[i..e])
      case None => CutFrom(r, s, last, e)
      case Some(node) => Plain(last, i) + [Cut(i, e, Some(node))] + CutFrom(r, s, e, e)
  }

  function Cuts(r: Rule, s: string): seq<Cut> {
    CutFrom(r, s, 0, 0)
  }

  /** The cuts lie end to end from `lo` to `hi`, and no two plain ones are next to each other. */
  ghost predicate Tile(cuts: seq<Cut>, lo: nat, hi: nat)
    decreases |cuts|
  {
    if cuts == [] then lo == hi
    else
      && cuts[0].lo == lo < cuts[0].hi <= hi
      && (cuts[0].minted.None? && |cuts| > 1 ==> cuts[1].minted.Some?)
      && Tile(cuts[1..], cuts[0].hi, hi)
  }

  /** Exactly the usable tokens of `s` that start at or after `from` are minted. */
  ghost predicate MintsExactly(r: Rule, s: string, cuts: seq<Cut>, from: nat) {
    && (forall c :: c in cuts && c.minted.Some? ==> from <= c.lo && Usable(r, s, c.lo, c.hi))
    && (forall c :: c in cuts && c.minted.Some? ==> c.minted == r.mint(s[c.lo..c.hi]))
    && (forall i: nat, e: nat :: from <= i && Usable(r, s, i, e) ==> Cut(i, e, r.mint(s[i..e])) in cuts)
  }

  lemma {:induction false} CutsTile(r: Rule, s: string, last: nat, from: nat)
    requires last <= from <= |s|
    ensures Tile(CutFrom(r, s, last, from), last, |s|)
    decreases |s| - from
  {
    var next := Next(r, s, from);
    if next.Some? {
      var (i, e) := next.value;
      var node := r.mint(s[i..e]);
      if node.None? {
        CutsTile(r, s, last, e);
      } else {
        CutsTile(r, s, e, e);
        TileMinted(last, i, e, |s|, node, CutFrom(r, s, e, e));
      }
    }
  }

  lemma TileMinted(last: nat, i: nat, e: nat, end: nat, node: Option<Node>, rest: seq<Cut>)
    requires last <= i < e && node.Some? && Tile(rest, e, end)
    ensures Tile(Plain(last, i) + [Cut(i, e, node)] + rest, last, end)
  {
    TileBound(rest, e, end);
    var tail := [Cut(i, e, node)] + rest;
    assert tail[1..] == rest;
    assert Tile(tail, i, end);
    if last == i {
      assert Plain(last, i) + [Cut(i, e, node)] + rest == tail;
    } else {
      var all := Plain(last, i) + [Cut(i, e, node)] + rest;
      assert all[1..] == tail;
    }
  }

  lemma {:induction false} TileBound(cuts: seq<Cut>, lo: nat, hi: nat)
    requires Tile(cuts, lo, hi)
    ensures lo <= hi
    decreases |cuts|
  {
    if cuts != [] {
      TileBound(cuts[1..], cuts[0].hi, hi);
    }
  }

  /** Between two matches of the scan there is nothing: a token that starts inside a match does not exist. */
  lemma UsableIsNext(r: Rule, s: string, from: nat, i: nat, e: nat)
    requires from <= i && Usable(r, s, i, e)
    ensures Next(r, s, from).Some?
    ensures Next(r, s, from).value == (i, e) || Next(r, s, from).value.1 <= i
  {
    var (j, f) := Next(r, s, from).value;
    if j < i < f {
      NoOverlap(r.pattern, s, j, f, i);
    }
  }

  lemma SkipMintsNothing(r: Rule, s: string, from: nat, e: nat, cuts: seq<Cut>)
    requires from <= |s| && Next(r, s, from).Some? && Next(r, s, from).value.1 == e
    requires r.mint(s[Next(r, s, from).value.0..e]).None?
    requires MintsExactly(r, s, cuts, e)
    ensures MintsExactly(r, s, cuts, from)
  {
    forall a: nat, b: nat | from <= a && Usable(r, s, a, b)
      ensures Cut(a, b, r.mint(s[a..b])) in cuts
    {
      UsableIsNext(r, s, from, a, b);
    }
  }

  lemma TokenMintsOne(r: Rule, s: string, last: nat, from: nat, i: nat, e: nat, rest: seq<Cut>)
    requires last <= from <= |s| && Next(r, s, from) == Some((i, e))
    requires r.mint(s[i..e]).Some? && MintsExactly(r, s, rest, e)
    ensures MintsExactly(r, s, Plain(last, i) + [Cut(i, e, r.mint(s[i..e]))] + rest, from)
  {
    var here := Cut(i, e, r.mint(s[i..e]));
    var cuts := Plain(last, i) + [here] + rest;
    assert here in [here];
    forall a: nat, b: nat | from <= a && Usable(r, s, a, b)
      ensures Cut(a, b, r.mint(s[a..b])) in cuts
    {
      UsableIsNext(r, s, from, a, b);
    }
  }

  lemma {:induction false} CutsMint(r: Rule, s: string, last: nat, from: nat)
    requires last <= from <= |s|
    ensures MintsExactly(r, s, CutFrom(r, s, last, from), from)
    decreases |s| - from
  {
    var next := Next(r, s, from);
    if next.None? {
      forall i: nat, e: nat | from <= i && Usable(r, s, i, e)
        ensures false
      {
        UsableIsNext(r, s, from, i, e);
      }
    } else {
      var (i, e) := next.value;
      if r.mint(s[i..e]).None? {
        CutsMint(r, s, last, e);
        SkipMintsNothing(r, s, from, e, CutFrom(r, s, last, e));
      } else {
        CutsMint(r, s, e, e);
        TokenMintsOne(r, s, last, from, i, e, CutFrom(r, s, e, e));
      }
    }
  }

  /**
   The cuts lie end to end over the whole text, and what they mint is the usable tokens of the text: each
   of them once, each as the element it stands for, and nothing else. Anchor-only tokens stay in plain cuts.
   */
  lemma SplitIsExact(r: Rule, s: string)
    ensures Tile(Cuts(r, s), 0, |s|)
    ensures MintsExactly(r, s, Cuts(r, s), 0)
  {
    CutsTile(r, s, 0, 0);
    CutsMint(r, s, 0, 0);
  }

  // ----- the pieces put back together -----

  function Source(s: string, cuts: seq<Cut>): string
    requires forall c :: c in cuts ==> c.lo <= c.hi <= |s|
  {
    if cuts == [] then "" else s[cuts[0].lo..cuts[0].hi] + Source(s, cuts[1..])
  }

  lemma {:induction false} TileWithin(cuts: seq<Cut>, lo: nat, hi: nat, k: nat)
    requires Tile(cuts, lo, hi) && k < |cuts|
    ensures lo <= cuts[k].lo < cuts[k].hi <= hi
    decreases |cuts|
  {
    TileBound(cuts[1..], cuts[0].hi, hi);
    if k > 0 {
      TileWithin(cuts[1..], cuts[0].hi, hi, k - 1);
    }
  }

  /** Every piece replaced by the text it was cut from gives the text back. */
  lemma {:induction false} TileConserves(s: string, cuts: seq<Cut>, lo: nat, hi: nat)
    requires Tile(cuts, lo, hi) && hi <= |s|
    ensures forall c :: c in cuts ==> c.lo < c.hi <= |s|
    ensures Source(s, cuts) == s[lo..hi]
    decreases |cuts|
  {
    TileBound(cuts, lo, hi);
    if cuts != [] {
      TileBound(cuts[1..], cuts[0].hi, hi);
      TileConserves(s, cuts[1..], cuts[0].hi, hi);
      assert s[lo..hi] == s[lo..cuts[0].hi] + s[cuts[0].hi..hi];
    }
  }

  lemma {:induction false} TileApart(cuts: seq<Cut>, lo: nat, hi: nat, j: nat, k: nat)
    requires Tile(cuts, lo, hi) && j < k < |cuts|
    ensures cuts[j].hi <= cuts[k].lo
    decreases |cuts|
  {
    if j == 0 {
      TileWithin(cuts[1..], cuts[0].hi, hi, k - 1);
    } else {
      TileApart(cuts[1..], cuts[0].hi, hi, j - 1, k - 1);
    }
  }

  lemma UsableInSlice(r: Rule, s: string, lo: nat, hi: nat, a: nat, b: nat)
    requires lo <= hi <= |s| && Usable(r, s[lo..hi], a, b)
    ensures Usable(r, s, lo + a, lo + b)
  {
    ScanInSlice(r.pattern, s, lo, hi, lo + a, lo + b);
    SliceOfSlice(s, lo, hi, a, b);
  }

  lemma MintedAt(r: Rule, s: string, i: nat, e: nat) returns (j: nat)
    requires Usable(r, s, i, e)
    ensures j < |Cuts(r, s)| && Cuts(r, s)[j] == Cut(i, e, r.mint(s[i..e]))
  {
    CutsMint(r, s, 0, 0);
    j :| j < |Cuts(r, s)| && Cuts(r, s)[j] == Cut(i, e, r.mint(s[i..e]));
  }

  /** A plain piece holds no token that could be turned into anything. */
  lemma PlainHoldsNoToken(r: Rule, s: string, k: nat, a: nat, b: nat)
    requires k < |Cuts(r, s)| && Cuts(r, s)[k].minted.None?
    requires Cuts(r, s)[k].lo < Cuts(r, s)[k].hi <= |s|
    ensures !Usable(r, s[Cuts(r, s)[k].lo..Cuts(r, s)[k].hi], a, b)
  {
    var cuts := Cuts(r, s);
    var lo, hi := cuts[k].lo, cuts[k].hi;
    if Usable(r, s[lo..hi], a, b) {
      UsableInSlice(r, s, lo, hi, a, b);
      var j := MintedAt(r, s, lo + a, lo + b);
      CutsTile(r, s, 0, 0);
      if j < k {
        TileApart(cuts, 0, |s|, j, k);
      } else if k < j {
        TileApart(cuts, 0, |s|, k, j);
      }
    }
  }

  lemma {:induction false} FirstCutReaches(r: Rule, s: string, last: nat, from: nat)
    requires last < from <= |s|
    ensures CutFrom(r, s, last, from) != []
    ensures var c := CutFrom(r, s, last, from)[0]; c.minted.None? && c.lo == last && from <= c.hi
    decreases |s| - from
  {
    var next := Next(r, s, from);
    if next.Some? {
      var (i, e) := next.value;
      if r.mint(s[i..e]).None? {
        FirstCutReaches(r, s, last, e);
      }
    }
  }

  /** A token that becomes nothing lies whole inside one plain piece. */
  lemma {:induction false} SkippedTokenStaysPlain(r: Rule, s: string, last: nat, from: nat, i: nat, e: nat)
    requires last <= from <= i <= |s| && End(r.pattern, s, i) == Some(e) && r.mint(s[i..e]).None?
    ensures exists k :: 0 <= k < |CutFrom(r, s, last, from)| && PlainOver(CutFrom(r, s, last, from)[k], i, e)
    decreases |s| - from
  {
    var cuts := CutFrom(r, s, last, from);
    var (a, b) := Next(r, s, from).value;
    if a < i < b {
      NoOverlap(r.pattern, s, a, b, i);
    }
    if r.mint(s[a..b]).None? {
      if a == i {
        FirstCutReaches(r, s, last, e);
        assert PlainOver(cuts[0], i, e);
      } else {
        SkippedTokenStaysPlain(r, s, last, b, i, e);
      }
    } else {
      SkippedTokenStaysPlain(r, s, b, b, i, e);
      var rest := CutFrom(r, s, b, b);
      var k :| 0 <= k < |rest| && PlainOver(rest[k], i, e);
      assert cuts[|cuts| - |rest| + k] == rest[k];
    }
  }

  predicate PlainOver(c: Cut, i: nat, e: nat) {
    c.minted.None? && c.lo <= i && e <= c.hi
  }

  // ----- the nodes -----

  function NodeOf(s: string, c: Cut): Node
    requires c.lo <= c.hi <= |s|
  {
    if c.minted.Some? then c.minted.value else Node.Text(s[c.lo..c.hi])
  }

  function Nodes(s: string, cuts: seq<Cut>): (ns: seq<Node>)
    requires forall c :: c in cuts ==> c.lo <= c.hi <= |s|
    ensures |ns| == |cuts|
    ensures forall k :: 0 <= k < |cuts| ==> ns[k] == NodeOf(s, cuts[k])
  {
    if cuts == [] then [] else [NodeOf(s, cuts[0])] + Nodes(s, cuts[1..])
  }

  predicate AnyMinted(cuts: seq<Cut>) {
    exists k :: 0 <= k < |cuts| && cuts[k].minted.Some?
  }

  lemma CutsInRange(r: Rule, s: string)
    ensures forall c :: c in Cuts(r, s) ==> c.lo < c.hi <= |s|
  {
    CutsTile(r, s, 0, 0);
    TileConserves(s, Cuts(r, s), 0, |s|);
  }

  /** What a text child is replaced by; nothing when no token in it can be used. */
  function Replaced(r: Rule, s: string): Option<seq<Node>> {
    CutsInRange(r, s);
    if AnyMinted(Cuts(r, s)) then Some(Nodes(s, Cuts(r, s))) else None
  }

  /** A text is replaced exactly when it holds a usable token. */
  lemma ReplacedIffUsable(r: Rule, s: string)
    ensures Replaced(r, s).Some? <==> exists i: nat, e: nat :: Usable(r, s, i, e)
  {
    SplitIsExact(r, s);
    var cuts := Cuts(r, s);
    if i: nat, e: nat :| Usable(r, s, i, e) {
      var k: nat :| k < |cuts| && cuts[k] == Cut(i, e, r.mint(s[i..e]));
      assert AnyMinted(cuts);
    }
  }

  lemma PlainIsNotReplaced(r: Rule, s: string, k: nat)
    requires k < |Cuts(r, s)| && Cuts(r, s)[k].minted.None?
    requires Cuts(r, s)[k].lo < Cuts(r, s)[k].hi <= |s|
    ensures Replaced(r, s[Cuts(r, s)[k].lo..Cuts(r, s)[k].hi]) == None
  {
    var piece := s[Cuts(r, s)[k].lo..Cuts(r, s)[k].hi];
    ReplacedIffUsable(r, piece);
    if i: nat, e: nat :| Usable(r, piece, i, e) {
      PlainHoldsNoToken(r, s, k, i, e);
    }
  }

  /** When every element reads like the token it replaces, the whole split reads like the text. */
  lemma {:induction false} NodesReadTheSame(r: Rule, s: string, cuts: seq<Cut>)
    requires forall t :: r.mint(t).Some? ==> Flatten(r.mint(t).value) == t
    requires forall c :: c in cuts ==> c.lo <= c.hi <= |s|
    requires forall c :: c in cuts && c.minted.Some? ==> c.minted == r.mint(s[c.lo..c.hi])
    ensures FlattenAll(Nodes(s, cuts)) == Source(s, cuts)
  {
    if cuts != [] {
      NodesReadTheSame(r, s, cuts[1..]);
      var ns := Nodes(s, cuts);
      assert ns[1..] == Nodes(s, cuts[1..]);
      assert cuts[0] in cuts;
      assert Flatten(NodeOf(s, cuts[0])) == s[cuts[0].lo..cuts[0].hi];
    }
  }

  lemma SomePieceIsMinted(r: Rule, s: string) returns (k: nat, t: string)
    requires Replaced(r, s).Some?
    ensures k < |Replaced(r, s).value| && r.mint(t) == Some(Replaced(r, s).value[k])
  {
    var cuts := Cuts(r, s);
    CutsInRange(r, s);
    CutsMint(r, s, 0, 0);
    k :| k < |cuts| && cuts[k].minted.Some?;
    assert cuts[k] in cuts;
    t := s[cuts[k].lo..cuts[k].hi];
  }

  /** A text that is one usable token is replaced by just what the token becomes. */
  lemma WholeToken(r: Rule, t: string)
    requires Matches(r.pattern, t) && r.mint(t).Some?
    ensures Replaced(r, t) == Some([r.mint(t).value])
  {
    assert t[0..|t|] == t;
    ScanFinds(r.pattern, t, 0, |t|);
    assert Next(r, t, |t|) == None;
    assert CutFrom(r, t, |t|, |t|) == [];
    assert Cuts(r, t) == [Cut(0, |t|, r.mint(t))];
    assert Cuts(r, t)[0].minted.Some?;
    assert Nodes(t, Cuts(r, t)) == [r.mint(t).value];
  }

  // ----- the loop -----

  lemma {:induction false} NodesConcat(s: string, a: seq<Cut>, b: seq<Cut>)
    requires forall c :: c in a + b ==> c.lo <= c.hi <= |s|
    ensures forall c :: c in a ==> c.lo <= c.hi <= |s|
    ensures forall c :: c in b ==> c.lo <= c.hi <= |s|
    ensures Nodes(s, a + b) == Nodes(s, a) + Nodes(s, b)
  {
    assert forall c :: c in a ==> c in a + b;
    assert forall c :: c in b ==> c in a + b;
  }

  function PlainNodes(s: string, lo: nat, hi: nat): seq<Node>
    requires hi <= |s|
  {
    if lo < hi then [Node.Text(s[lo..hi])] else []
  }

  lemma NodesOfOne(s: string, c: Cut)
    requires c.lo <= c.hi <= |s|
    ensures Nodes(s, [c]) == [NodeOf(s, c)]
  {
  }

  lemma NodesOfPlain(s: string, lo: nat, hi: nat)
    requires hi <= |s|
    ensures Nodes(s, Plain(lo, hi)) == PlainNodes(s, lo, hi)
  {
  }

  /** One turn of the loop moves the front of the remaining cuts to the end of the finished ones. */
  lemma TurnMoves(r: Rule, s: string, done: seq<Cut>, last: nat, from: nat, i: nat, e: nat)
    requires last <= from <= |s| && Next(r, s, from) == Some((i, e)) && r.mint(s[i..e]).Some?
    ensures done + CutFrom(r, s, last, from)
      == done + Plain(last, i) + [Cut(i, e, r.mint(s[i..e]))] + CutFrom(r, s, e, e)
  {
    var here, rest := [Cut(i, e, r.mint(s[i..e]))], CutFrom(r, s, e, e);
    calc {
      done + (Plain(last, i) + here + rest);
      done + Plain(last, i) + here + rest;
    }
  }

  lemma TurnPushes(s: string, done: seq<Cut>, last: nat, here: Cut)
    requires last <= here.lo <= here.hi <= |s| && here.minted.Some?
    requires forall c :: c in done ==> c.lo <= c.hi <= |s|
    ensures forall c :: c in done + Plain(last, here.lo) + [here] ==> c.lo <= c.hi <= |s|
    ensures Nodes(s, done + Plain(last, here.lo) + [here])
      == Nodes(s, done) + PlainNodes(s, last, here.lo) + [here.minted.value]
    ensures AnyMinted(done + Plain(last, here.lo) + [here])
  {
    var plain := done + Plain(last, here.lo);
    assert (plain + [here])[|plain|] == here;
    NodesConcat(s, done, Plain(last, here.lo));
    NodesConcat(s, plain, [here]);
    NodesOfOne(s, here);
    NodesOfPlain(s, last, here.lo);
  }

  lemma PlainMintsNothing(done: seq<Cut>, last: nat, hi: nat)
    ensures AnyMinted(done + Plain(last, hi)) <==> AnyMinted(done)
  {
    var cuts := done + Plain(last, hi);
    if k :| 0 <= k < |done| && done[k].minted.Some? {
      assert cuts[k].minted.Some?;
    }
  }

  /** Between two turns: `nodes` are those of the finished cuts, and the remaining cuts are still to come. */
  ghost predicate Midway(r: Rule, s: string, done: seq<Cut>, nodes: seq<Node>, last: nat, from: nat) {
    && last <= from <= |s|
    && done + CutFrom(r, s, last, from) == Cuts(r, s)
    && (forall c :: c in done ==> c.lo <= c.hi <= |s|)
    && nodes == Nodes(s, done)
    && (nodes != [] <==> AnyMinted(done))
  }

  lemma TokenTurn(r: Rule, s: string, done: seq<Cut>, nodes: seq<Node>, last: nat, from: nat, i: nat, e: nat)
    requires Midway(r, s, done, nodes, last, from) && Next(r, s, from) == Some((i, e)) && r.mint(s[i..e]).Some?
    ensures Midway(r, s, done + Plain(last, i) + [Cut(i, e, r.mint(s[i..e]))],
                   nodes + PlainNodes(s, last, i) + [r.mint(s[i..e]).value], e, e)
  {
    TurnMoves(r, s, done, last, from, i, e);
    TurnPushes(s, done, last, Cut(i, e, r.mint(s[i..e])));
  }

  lemma TurnEnds(r: Rule, s: string, done: seq<Cut>, nodes: seq<Node>, last: nat, from: nat)
    requires Midway(r, s, done, nodes, last, from) && Next(r, s, from) == None
    ensures nodes == [] ==> Replaced(r, s) == None
    ensures nodes != [] && last == |s| ==> Replaced(r, s) == Some(nodes)
    ensures nodes != [] && last < |s| ==> Replaced(r, s) == Some(nodes + [Node.Text(s[last..])])
  {
    CutsInRange(r, s);
    assert Cuts(r, s) == done + Plain(last, |s|);
    PlainMintsNothing(done, last, |s|);
    NodesConcat(s, done, Plain(last, |s|));
    NodesOfPlain(s, last, |s|);
    DropIsSlice(s, last);
    NothingMore(nodes);
  }

  lemma NothingMore<T>(nodes: seq<T>)
    ensures nodes + [] == nodes
  {
  }

  /** What a token adds to the nodes is the plain text in front of it, where there is any, and its own node. */
  lemma PushedIs(s: string, nodes: seq<Node>, last: nat, i: nat, node: Node)
    requires last <= i <= |s|
    ensures nodes + PlainNodes(s, last, i) + [node]
      == (if last < i then nodes + [Node.Text(s[last..i])] else nodes) + [node]
  {
    NothingMore(nodes);
  }

  method SplitText(r: Rule, value: string) returns (out: Option<seq<Node>>)
    ensures out == Replaced(r, value)
  {
    ghost var done: seq<Cut> := [];
    var nodes: seq<Node> := [];
    var last, from := 0, 0;
    var next := Next(r, value, from);
    if next.None? {
      TurnEnds(r, value, done, nodes, last, from);
      return None;
    }
    while next.Some?
      invariant Midway(r, value, done, nodes, last, from) && next == Next(r, value, from)
      decreases |value| - from
    {
      var (i, e) := next.value;
      var node := r.mint(value[i..e]);
      if node.Some? {
        TokenTurn(r, value, done, nodes, last, from, i, e);
        PushedIs(value, nodes, last, i, node.value);
        done := done + Plain(last, i) + [Cut(i, e, node)];
        if last < i {
          nodes := nodes + [Node.Text(value[last..i])];
        }
        nodes := nodes + [node.value];
        last := e;
      }
      from := e;
      next := Next(r, value, from);
    }
    TurnEnds(r, value, done, nodes, last, from);
    if nodes == [] {
      return None;
    }
    if last < |value| {
      nodes := nodes + [Node.Text(value[last..])];
    }
    return Some(nodes);
  }
}
