/** The document tree the Markdown passes rewrite. */
module Hast {
  import opened Splitting

  /** The element names the passes look at or mint; every other element is `Named`. */
  datatype Tag =
    | Code | Pre | Img | P | Blockquote
    | WikiLink | SecretChip | AttachmentImg | Callout
    | Named(name: string)

  datatype Value = Str(s: string) | NotAString

  type Props = map<string, Value>

  /** `Container` is the root and any other node with children; `Leaf` is a node with none, like a comment. */
  datatype Node =
    | Text(value: string)
    | Element(tag: Tag, props: Props, children: seq<Node>)
    | Container(kind: string, children: seq<Node>)
    | Leaf(kind: string)

  predicate HasChildren(n: Node) {
    n.Element? || n.Container?
  }

  /** Everything a reader would see of a tree, in document order. */
  function Flatten(n: Node): string
    decreases n, 1
  {
    match n
    case Text(value) => value
    case Leaf(_) => ""
    case Element(_, _, children) => FlattenAll(children)
    case Container(_, children) => FlattenAll(children)
  }

  function FlattenAll(ns: seq<Node>): string
    decreases ns, 0
  {
    if ns == [] then "" else Flatten(ns[0]) + FlattenAll(ns[1..])
  }

  lemma {:induction false} FlattenConcat(a: seq<Node>, b: seq<Node>)
    ensures FlattenAll(a + b) == FlattenAll(a) + FlattenAll(b)
  {
    if a == [] {
      assert a + b == b;
    } else {
      FlattenConcat(a[1..], b);
      assert (a + b)[0] == a[0] && (a + b)[1..] == a[1..] + b;
      ConcatAssoc(Flatten(a[0]), FlattenAll(a[1..]), FlattenAll(b));
    }
  }

  /** The outermost `code` and `pre` elements, in document order: the text no pass may touch. */
  function CodeBlocks(n: Node): seq<Node>
    decreases n, 1
  {
    match n
    case Text(_) => []
    case Leaf(_) => []
    case Element(tag, _, children) => if tag.Code? || tag.Pre? then [n] else CodeBlocksOf(children)
    case Container(_, children) => CodeBlocksOf(children)
  }

  function CodeBlocksOf(ns: seq<Node>): seq<Node>
    decreases ns, 0
  {
    if ns == [] then [] else CodeBlocks(ns[0]) + CodeBlocksOf(ns[1..])
  }

  lemma {:induction false} CodeBlocksConcat(a: seq<Node>, b: seq<Node>)
    ensures CodeBlocksOf(a + b) == CodeBlocksOf(a) + CodeBlocksOf(b)
  {
    if a == [] {
      assert a + b == b;
    } else {
      CodeBlocksConcat(a[1..], b);
      assert (a + b)[0] == a[0] && (a + b)[1..] == a[1..] + b;
      ConcatAssoc(CodeBlocks(a[0]), CodeBlocksOf(a[1..]), CodeBlocksOf(b));
    }
  }
}
