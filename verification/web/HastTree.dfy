/**
 The document tree as the passes meet it: mutable nodes whose `children` array is replaced in place. `model`
 is the value of a subtree and `repr` its nodes; `Valid` ties both to the fields.
 */
module HastTree {
  import opened Hast
  import Scanner
  import Walk
  import AttachmentRefs

  /** A node without its children. */
  datatype Shell =
    | TextShell(value: string)
    | LeafShell(kind: string)
    | ElementShell(tag: Tag, props: Props)
    | ContainerShell(kind: string)

  predicate IsParent(s: Shell) {
    s.ElementShell? || s.ContainerShell?
  }

  function Assemble(s: Shell, children: seq<Node>): Node {
    match s
    case TextShell(value) => Node.Text(value)
    case LeafShell(kind) => Leaf(kind)
    case ElementShell(tag, props) => Element(tag, props, children)
    case ContainerShell(kind) => Container(kind, children)
  }

  function ShellOf(n: Node): Shell {
    match n
    case Text(value) => TextShell(value)
    case Leaf(kind) => LeafShell(kind)
    case Element(tag, props, _) => ElementShell(tag, props)
    case Container(kind, _) => ContainerShell(kind)
  }

  function ChildrenOf(n: Node): seq<Node> {
    if HasChildren(n) then n.children else []
  }

  class Tree {
    var shell: Shell
    var children: seq<Tree>
    ghost var repr: set<object>
    ghost var model: Node

    ghost predicate Valid()
      reads this, repr
      decreases repr, 0
    {
      && this in repr
      && Grove(children, ChildrenOf(model), repr - {this})
      && shell == ShellOf(model)
    }

    constructor (shell: Shell, children: seq<Tree>, ghost ms: seq<Node>, ghost cells: set<object>)
      requires Grove(children, ms, cells) && (IsParent(shell) || ms == [])
      ensures Valid() && model == Assemble(shell, ms) && fresh(this) && repr == {this} + cells
    {
      this.shell := shell;
      this.children := children;
      this.repr := {this} + cells;
      this.model := Assemble(shell, ms);
      new;
      assert {this} + cells - {this} == cells;
    }

    /** `node.children = next`. */
    method Adopt(next: seq<Tree>, ghost ms: seq<Node>, ghost cells: set<object>)
      requires IsParent(shell) && Grove(next, ms, cells) && this !in cells
      modifies this
      ensures Valid() && shell == old(shell) && model == Assemble(shell, ms) && repr == {this} + cells
    {
      children := next;
      repr := {this} + cells;
      model := Assemble(shell, ms);
      assert repr - {this} == cells;
    }
  }

  /** Trees with the values `ms`, all their nodes in `cells`, that share nothing. */
  ghost predicate Grove(ts: seq<Tree>, ms: seq<Node>, cells: set<object>)
    reads cells
    decreases cells, 1
  {
    && |ts| == |ms|
    && (forall k :: 0 <= k < |ts| ==>
          ts[k] in cells && ts[k].repr <= cells && ts[k].Valid() && ts[k].model == ms[k])
    && (forall j, k :: 0 <= j < k < |ts| ==> ts[j].repr !! ts[k].repr)
  }

  lemma GroveConcat(a: seq<Tree>, am: seq<Node>, ac: set<object>, b: seq<Tree>, bm: seq<Node>, bc: set<object>)
    requires Grove(a, am, ac) && Grove(b, bm, bc) && ac !! bc
    ensures Grove(a + b, am + bm, ac + bc)
  {
  }

  /** The first tree of a grove stands apart from the rest. */
  lemma GroveTail(ts: seq<Tree>, ms: seq<Node>, cells: set<object>)
    requires ts != [] && Grove(ts, ms, cells)
    ensures ts[0].Valid() && ts[0].model == ms[0] && ts[0].repr <= cells
    ensures Grove(ts[1..], ms[1..], cells - ts[0].repr)
  {
    var tail := ts[1..];
    assert forall k :: 0 <= k < |tail| ==> tail[k] == ts[k + 1] && tail[k].repr !! ts[0].repr;
  }

  lemma GroveOne(t: Tree)
    requires t.Valid()
    ensures Grove([t], [t.model], t.repr)
  {
  }

  method Allocate(n: Node) returns (t: Tree)
    ensures t.Valid() && t.model == n && fresh(t.repr)
    decreases n, 1
  {
    var children: seq<Tree> := [];
    ghost var cells: set<object> := {};
    if HasChildren(n) {
      children, cells := AllocateAll(n.children);
    }
    t := new Tree(ShellOf(n), children, ChildrenOf(n), cells);
  }

  method AllocateAll(ns: seq<Node>) returns (ts: seq<Tree>, ghost cells: set<object>)
    ensures Grove(ts, ns, cells) && fresh(cells)
    decreases ns, 0
  {
    if ns == [] {
      return [], {};
    }
    var first := Allocate(ns[0]);
    var rest, more := AllocateAll(ns[1..]);
    GroveOne(first);
    GroveConcat([first], [ns[0]], first.repr, rest, ns[1..], more);
    ts, cells := [first] + rest, first.repr + more;
    assert ns == [ns[0]] + ns[1..];
  }

  // ----- the walk of the token passes -----

  /** What the walk leaves of the nodes before and of those still to come, one child further on. */
  lemma OneFurther(w: Walk.Walker, front: seq<Node>, ms: seq<Node>)
    requires ms != []
    ensures front + Walk.VisitChild(w, ms[0]) + Walk.VisitAll(w, ms[1..]) == front + Walk.VisitAll(w, ms)
  {
  }

  method VisitChild(w: Walk.Walker, child: Tree) returns (out: seq<Tree>, ghost cells: set<object>)
    requires child.Valid()
    modifies child.repr
    ensures Grove(out, Walk.VisitChild(w, old(child.model)), cells) && fresh(cells - old(child.repr))
    decreases child.repr, 1
  {
    match child.shell {
      case TextShell(value) =>
        var replaced := Scanner.SplitText(w.rule, value);
        if replaced.Some? {
          out, cells := AllocateAll(replaced.value);
          return;
        }
      case ElementShell(tag, _) =>
        if tag !in w.literals {
          Visit(w, child);
        }
      case _ =>
        Visit(w, child);
    }
    GroveOne(child);
    out, cells := [child], child.repr;
  }

  method Visit(w: Walk.Walker, node: Tree)
    requires node.Valid()
    modifies node.repr
    ensures node.Valid() && node.model == Walk.Visit(w, old(node.model))
    ensures fresh(node.repr - old(node.repr))
    decreases node.repr, 0
  {
    if !IsParent(node.shell) {
      return;
    }
    var next: seq<Tree> := [];
    var todo := node.children;
    ghost var done: seq<Node>, made: set<object> := [], {};
    ghost var ms, cells := node.model.children, node.repr - {node};
    while todo != []
      invariant unchanged(node)
      invariant Grove(next, done, made) && Grove(todo, ms, cells)
      invariant done + Walk.VisitAll(w, ms) == Walk.VisitAll(w, old(node.model).children)
      invariant made !! cells && node !in made && node !in cells
      invariant cells <= old(node.repr) && fresh(made - old(node.repr))
      decreases |todo|
    {
      GroveTail(todo, ms, cells);
      ghost var rest := cells - todo[0].repr;
      OneFurther(w, done, ms);
      ghost var replaced := Walk.VisitChild(w, ms[0]);
      var out, more := VisitChild(w, todo[0]);
      GroveConcat(next, done, made, out, replaced, more);
      next, todo := next + out, todo[1..];
      done, made := done + replaced, made + more;
      ms, cells := ms[1..], rest;
    }
    assert done + Walk.VisitAll(w, []) == done;
    node.Adopt(next, done, made);
  }

  // ----- the pre-pass -----

  lemma StripFurther(front: seq<Node>, ms: seq<Node>)
    requires ms != []
    ensures front + AttachmentRefs.StripChild(ms[0]) + AttachmentRefs.StripAll(ms[1..])
      == front + AttachmentRefs.StripAll(ms)
  {
  }

  method StripChild(child: Tree) returns (out: seq<Tree>, ghost cells: set<object>)
    requires child.Valid()
    modifies child.repr
    ensures Grove(out, AttachmentRefs.StripChild(old(child.model)), cells) && fresh(cells - old(child.repr))
    decreases child.repr, 1
  {
    if child.shell.ElementShell? && child.shell.tag.Img? {
      var id := AttachmentRefs.SourceId(child.shell.props);
      if id.Some? {
        out, cells := AllocateAll([Node.Text(AttachmentRefs.Sentinel(id.value))]);
      } else {
        out, cells := [], {};
      }
      return;
    }
    StripImages(child);
    GroveOne(child);
    out, cells := [child], child.repr;
  }

  method StripImages(node: Tree)
    requires node.Valid()
    modifies node.repr
    ensures node.Valid() && node.model == AttachmentRefs.Strip(old(node.model))
    ensures fresh(node.repr - old(node.repr))
    decreases node.repr, 0
  {
    if !IsParent(node.shell) {
      return;
    }
    var next: seq<Tree> := [];
    var todo := node.children;
    ghost var done: seq<Node>, made: set<object> := [], {};
    ghost var ms, cells := node.model.children, node.repr - {node};
    while todo != []
      invariant unchanged(node)
      invariant Grove(next, done, made) && Grove(todo, ms, cells)
      invariant done + AttachmentRefs.StripAll(ms) == AttachmentRefs.StripAll(old(node.model).children)
      invariant made !! cells && node !in made && node !in cells
      invariant cells <= old(node.repr) && fresh(made - old(node.repr))
      decreases |todo|
    {
      GroveTail(todo, ms, cells);
      ghost var rest := cells - todo[0].repr;
      StripFurther(done, ms);
      ghost var replaced := AttachmentRefs.StripChild(ms[0]);
      var out, more := StripChild(todo[0]);
      GroveConcat(next, done, made, out, replaced, more);
      next, todo := next + out, todo[1..];
      done, made := done + replaced, made + more;
      ms, cells := ms[1..], rest;
    }
    assert done + AttachmentRefs.StripAll([]) == done;
    node.Adopt(next, done, made);
  }
}
