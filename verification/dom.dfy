/** The html5ever `RcDom` tree the cleaner works on, as an immutable value:
    a node is its data and its ordered children. Parent links, reference
    counting and in-place mutation are replaced by rebuilding the tree. */
module Dom {

  datatype Attribute = Attribute(name: string, value: string)

  /** `NodeData`; processing instructions are left out. */
  datatype NodeData =
    | Document
    | Doctype(doctypeName: string)
    | Text(contents: string)
    | Comment(comment: string)
    | Element(name: string, attrs: seq<Attribute>)

  datatype Node = Node(data: NodeData, children: seq<Node>)

  predicate IsElement(n: Node, name: string) {
    n.data.Element? && n.data.name == name
  }

  /** `<ul>` or `<ol>`. */
  predicate IsList(n: Node) {
    IsElement(n, "ul") || IsElement(n, "ol")
  }

  predicate IsLi(n: Node) {
    IsElement(n, "li")
  }

  /** The number of nodes in the tree. */
  function Size(n: Node): (k: nat)
    ensures k >= 1
    decreases n, 1
  {
    1 + SizeSeq(n.children)
  }

  function SizeSeq(cs: seq<Node>): nat
    decreases cs, 0
  {
    if cs == [] then 0 else Size(cs[0]) + SizeSeq(cs[1..])
  }

  /** The data of every node of the tree, as a multiset. */
  function Labels(n: Node): multiset<NodeData>
    decreases n, 1
  {
    multiset{n.data} + LabelsSeq(n.children)
  }

  function LabelsSeq(cs: seq<Node>): multiset<NodeData>
    decreases cs, 0
  {
    if cs == [] then multiset{} else Labels(cs[0]) + LabelsSeq(cs[1..])
  }

  /** The text of the tree in document order (`textContent`). */
  function TextContent(n: Node): string
    decreases n, 1
  {
    if n.data.Text? then n.data.contents + TextSeq(n.children) else TextSeq(n.children)
  }

  function TextSeq(cs: seq<Node>): string
    decreases cs, 0
  {
    if cs == [] then "" else TextContent(cs[0]) + TextSeq(cs[1..])
  }

  lemma {:induction false} SizeSeqAppend(a: seq<Node>, b: seq<Node>)
    ensures SizeSeq(a + b) == SizeSeq(a) + SizeSeq(b)
    decreases |a|
  {
    if a != [] {
      assert (a + b)[1..] == a[1..] + b;
      SizeSeqAppend(a[1..], b);
    } else {
      assert a + b == b;
    }
  }

  lemma {:induction false} LabelsSeqAppend(a: seq<Node>, b: seq<Node>)
    ensures LabelsSeq(a + b) == LabelsSeq(a) + LabelsSeq(b)
    decreases |a|
  {
    if a != [] {
      assert (a + b)[1..] == a[1..] + b;
      LabelsSeqAppend(a[1..], b);
    } else {
      assert a + b == b;
    }
  }

  lemma {:induction false} TextSeqAppend(a: seq<Node>, b: seq<Node>)
    ensures TextSeq(a + b) == TextSeq(a) + TextSeq(b)
    decreases |a|
  {
    if a != [] {
      assert (a + b)[1..] == a[1..] + b;
      TextSeqAppend(a[1..], b);
    } else {
      assert a + b == b;
    }
  }
}
