/** The callout pass as it is written: it changes tag, properties, a text and two child arrays in place. */
module CalloutTree {
  import opened Options
  import opened Hast
  import opened HastTree
  import Callouts

  /** The nodes of the trees before and after the `k`-th one. */
  lemma GroveSplit(ts: seq<Tree>, ms: seq<Node>, cells: set<object>, k: nat) returns (a: set<object>, b: set<object>)
    requires Grove(ts, ms, cells) && k < |ts|
    ensures Grove(ts[..k], ms[..k], a) && Grove(ts[k + 1..], ms[k + 1..], b)
    ensures a <= cells && b <= cells && a !! b && a !! ts[k].repr && b !! ts[k].repr
    decreases k
  {
    GroveTail(ts, ms, cells);
    if k == 0 {
      a, b := {}, cells - ts[0].repr;
    } else {
      a, b := GroveSplit(ts[1..], ms[1..], cells - ts[0].repr, k - 1);
      GroveOne(ts[0]);
      GroveConcat([ts[0]], [ms[0]], ts[0].repr, ts[1..][..k - 1], ms[1..][..k - 1], a);
      a := ts[0].repr + a;
      assert [ts[0]] + ts[1..][..k - 1] == ts[..k] && [ms[0]] + ms[1..][..k - 1] == ms[..k];
      assert ts[1..][k..] == ts[k + 1..] && ms[1..][k..] == ms[k + 1..];
    }
  }

  lemma GroveJoin(a: seq<Tree>, am: seq<Node>, ac: set<object>, t: Tree, b: seq<Tree>, bm: seq<Node>, bc: set<object>)
    requires Grove(a, am, ac) && Grove(b, bm, bc) && t.Valid()
    requires ac !! bc && ac !! t.repr && bc !! t.repr
    ensures Grove(a + [t] + b, am + [t.model] + bm, ac + t.repr + bc)
  {
    GroveOne(t);
    GroveConcat(a, am, ac, [t], [t.model], t.repr);
    GroveConcat(a + [t], am + [t.model], ac + t.repr, b, bm, bc);
  }

  /** `first` gets a new value. */
  method SetValue(first: Tree, value: string)
    requires first.Valid() && first.shell.TextShell?
    modifies first
    ensures first.Valid() && first.model == Node.Text(value) && first.repr == old(first.repr)
  {
    first.shell := TextShell(value);
    first.model := Node.Text(value);
  }

  method SetTag(node: Tree, tag: Tag, props: Props)
    requires node.Valid() && node.shell.ElementShell?
    modifies node
    ensures node.Valid() && node.model == Element(tag, props, old(node.model).children) && node.repr == old(node.repr)
  {
    node.shell := ElementShell(tag, props);
    node.model := Element(tag, props, node.model.children);
  }

  /** The first element child, if it is a paragraph. */
  method FirstParagraph(bq: Tree) returns (at: Option<nat>)
    requires bq.Valid() && IsParent(bq.shell)
    ensures var k := Callouts.FirstElement(bq.model.children);
            at == if k < |bq.model.children| && bq.model.children[k].tag.P? then Some(k) else None
  {
    var i := 0;
    ghost var ms := bq.model.children;
    while i < |bq.children|
      invariant i <= |bq.children|
      invariant forall j :: 0 <= j < i ==> !ms[j].Element?
    {
      var child := bq.children[i];
      assert child.Valid() && child.model == ms[i];
      if child.shell.ElementShell? {
        Callouts.FirstElementIs(ms, i);
        return if child.shell.tag.P? then Some(i) else None;
      }
      i := i + 1;
    }
    assert Callouts.FirstElement(ms) == |ms|;
    at := None;
  }

  /** Takes the marker off the paragraph; afterwards the paragraph may hold nothing. */
  method StripMarker(p: Tree, length: nat)
    requires p.Valid() && p.model.Element? && p.model.children != [] && p.model.children[0].Text?
    requires length <= |p.model.children[0].value|
    modifies p.repr
    ensures p.Valid() && p.shell == old(p.shell) && p.repr <= old(p.repr)
    ensures Callouts.WithoutMarker(old(p.model), length) == if p.children == [] then [] else [p.model]
  {
    var first := p.children[0];
    ghost var ms, cells := p.model.children, p.repr - {p};
    GroveTail(p.children, ms, cells);
    ghost var rest := cells - first.repr;
    var value := first.shell.value[length..];
    SetValue(first, value);
    if value == "" {
      p.Adopt(p.children[1..], ms[1..], rest);
    } else {
      GroveOne(first);
      GroveConcat([first], [first.model], first.repr, p.children[1..], ms[1..], rest);
      assert [first] + p.children[1..] == p.children;
      p.Adopt(p.children, [first.model] + ms[1..], first.repr + rest);
    }
  }

  /** Puts the stripped paragraph back, or takes it out when nothing is left of it. */
  method Replace(bq: Tree, k: nat, p: Tree, ghost ms: seq<Node>, ghost a: set<object>, ghost b: set<object>)
    requires IsParent(bq.shell) && k < |bq.children| && |bq.children| == |ms| && p == bq.children[k] && p.Valid()
    requires Grove(bq.children[..k], ms[..k], a) && Grove(bq.children[k + 1..], ms[k + 1..], b)
    requires a !! b && a !! p.repr && b !! p.repr && bq !in a && bq !in b && bq !in p.repr
    modifies bq
    ensures bq.Valid() && bq.shell == old(bq.shell) && bq.repr <= {bq} + a + b + p.repr
    ensures bq.model
      == Assemble(bq.shell, ms[..k] + (if p.children == [] then [] else [p.model]) + ms[k + 1..])
  {
    if |p.children| == 0 {
      GroveConcat(bq.children[..k], ms[..k], a, bq.children[k + 1..], ms[k + 1..], b);
      assert ms[..k] + [] + ms[k + 1..] == ms[..k] + ms[k + 1..];
      bq.Adopt(bq.children[..k] + bq.children[k + 1..], ms[..k] + ms[k + 1..], a + b);
    } else {
      GroveJoin(bq.children[..k], ms[..k], a, p, bq.children[k + 1..], ms[k + 1..], b);
      assert bq.children[..k] + [p] + bq.children[k + 1..] == bq.children;
      bq.Adopt(bq.children, ms[..k] + [p.model] + ms[k + 1..], a + p.repr + b);
    }
  }

  lemma ChildrenGrove(t: Tree)
    requires t.Valid()
    ensures Grove(t.children, ChildrenOf(t.model), t.repr - {t})
  {
  }

  /** The marker in the first text of the first paragraph, if there is one there. */
  method OpeningMarker(p: Tree) returns (marker: Option<Callouts.Marker>)
    requires p.Valid() && p.model.Element?
    ensures marker
      == if p.model.children != [] && p.model.children[0].Text? then Callouts.MarkerOf(p.model.children[0].value)
         else None
  {
    ChildrenGrove(p);
    if |p.children| == 0 {
      return None;
    }
    var first := p.children[0];
    assert first.model == p.model.children[0] && first.Valid();
    if !first.shell.TextShell? {
      return None;
    }
    marker := Callouts.MarkerOf(first.shell.value);
  }

  /** The marker goes, and the quote becomes a callout of its variant. */
  method Rewrite(bq: Tree, k: nat, marker: Callouts.Marker)
    requires bq.Valid() && bq.model.Element? && k < |bq.model.children| && |bq.children| == |bq.model.children|
    requires var p := bq.model.children[k];
             p.Element? && p.children != [] && p.children[0].Text? && marker.length <= |p.children[0].value|
    modifies bq.repr
    ensures bq.Valid() && bq.repr <= old(bq.repr)
    ensures bq.model
      == Element(Callout, old(bq.model).props["variant" := Str(Callouts.VariantName(marker.variant))],
                 old(bq.model).children[..k] + Callouts.WithoutMarker(old(bq.model).children[k], marker.length)
                 + old(bq.model).children[k + 1..])
  {
    ghost var ms, cells := bq.model.children, bq.repr - {bq};
    ChildrenGrove(bq);
    var p := bq.children[k];
    assert p.Valid() && p.model == ms[k];
    ghost var a, b := GroveSplit(bq.children, ms, cells, k);
    StripMarker(p, marker.length);
    Replace(bq, k, p, ms, a, b);
    SetTag(bq, Callout, bq.shell.props["variant" := Str(Callouts.VariantName(marker.variant))]);
  }

  method TransformBlockquote(bq: Tree) returns (matched: bool)
    requires bq.Valid() && bq.shell.ElementShell? && bq.shell.tag.Blockquote?
    modifies bq.repr
    ensures bq.Valid() && bq.model == Callouts.Transformed(old(bq.model)) && bq.repr <= old(bq.repr)
    ensures matched <==> Callouts.OpeningMarker(old(bq.model).children).Some?
  {
    ghost var ms := bq.model.children;
    ChildrenGrove(bq);
    var at := FirstParagraph(bq);
    if at.None? {
      return false;
    }
    var k := at.value;
    var p := bq.children[k];
    assert p.Valid() && p.model == ms[k];
    var marker := OpeningMarker(p);
    assert Callouts.OpeningMarker(ms) == marker;
    if marker.None? {
      return false;
    }
    assert Callouts.IsMarked(bq.model);
    Rewrite(bq, k, marker.value);
    matched := true;
  }

  lemma VisitOneFurther(front: seq<Node>, ms: seq<Node>)
    requires ms != []
    ensures front + [Callouts.Visit(ms[0])] + Callouts.VisitAll(ms[1..]) == front + Callouts.VisitAll(ms)
  {
  }

  /** The walk: transforms on the way down, then goes into every child. */
  method Visit(node: Tree)
    requires node.Valid()
    modifies node.repr
    ensures node.Valid() && node.model == Callouts.Visit(old(node.model)) && node.repr <= old(node.repr)
    decreases node.repr, 1
  {
    if node.shell.ElementShell? && node.shell.tag.Blockquote? {
      var _ := TransformBlockquote(node);
    }
    if !IsParent(node.shell) {
      return;
    }
    ghost var reshaped := node.model;
    assert reshaped == Callouts.Transformed(old(node.model));
    ChildrenGrove(node);
    VisitChildren(node);
  }

  lemma MoveFirst<T>(front: seq<T>, back: seq<T>)
    requires back != []
    ensures front + [back[0]] + back[1..] == front + back
  {
  }

  method VisitChildren(node: Tree)
    requires node.Valid() && IsParent(node.shell)
    modifies node.repr
    ensures node.Valid() && node.repr <= old(node.repr) && node.shell == old(node.shell)
    ensures node.model == Assemble(node.shell, Callouts.VisitAll(old(node.model).children))
    decreases node.repr, 0
  {
    var todo := node.children;
    ghost var visited: seq<Tree>, done: seq<Node>, made: set<object> := [], [], {};
    ghost var ms, cells := node.model.children, node.repr - {node};
    while todo != []
      invariant unchanged(node) && visited + todo == node.children
      invariant Grove(visited, done, made) && Grove(todo, ms, cells)
      invariant done + Callouts.VisitAll(ms) == Callouts.VisitAll(old(node.model).children)
      invariant made !! cells && made <= node.repr - {node} && cells <= node.repr - {node}
      decreases |todo|
    {
      var child := todo[0];
      GroveTail(todo, ms, cells);
      ghost var rest := cells - child.repr;
      VisitOneFurther(done, ms);
      Visit(child);
      GroveOne(child);
      GroveConcat(visited, done, made, [child], [child.model], child.repr);
      MoveFirst(visited, todo);
      visited, todo := visited + [child], todo[1..];
      done, made := done + [child.model], made + child.repr;
      ms, cells := ms[1..], rest;
    }
    assert visited == node.children;
    assert done + Callouts.VisitAll([]) == done;
    node.Adopt(node.children, done, made);
  }
}
