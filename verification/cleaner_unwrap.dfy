/** The first two passes of `clean_html_structure`: every `<p>` whose only
    child is an inline element is replaced, in its parent, by that child.
    The candidates are collected on the tree as parsed and replaced
    afterwards, so the test is applied to the original nodes. */
module UnwrapPass {
  import opened Dom

  /** The elements a `<p>` is removed around. */
  predicate IsInline(n: Node) {
    n.data.Element? && n.data.name in {"img", "a", "span", "code", "em", "strong"}
  }

  /** The test of `collect_nodes_to_unwrap`: a `<p>` with exactly one child,
      which is an inline element. */
  predicate ShouldUnwrap(n: Node) {
    IsElement(n, "p") && |n.children| == 1 && IsInline(n.children[0])
  }

  /** The tree after `unwrap_p_tag` has run on every collected `<p>`. The
      root itself is never replaced: it has no parent. */
  function Unwrap(n: Node): (r: Node)
    ensures r.data == n.data && |r.children| == |n.children|
    decreases n, 1
  {
    Node(n.data, UnwrapChildren(n.children))
  }

  function UnwrapChildren(cs: seq<Node>): (r: seq<Node>)
    ensures |r| == |cs|
    ensures forall i | 0 <= i < |cs| && ShouldUnwrap(cs[i]) :: r[i].data == cs[i].children[0].data
    ensures forall i | 0 <= i < |cs| && !ShouldUnwrap(cs[i]) :: r[i].data == cs[i].data
    decreases cs, 0
  {
    if cs == [] then [] else [UnwrapChild(cs[0])] + UnwrapChildren(cs[1..])
  }

  /** A child of a processed node: a collected `<p>` gives way to its
      (processed) child, anything else is processed in place. */
  function UnwrapChild(c: Node): Node
    decreases c, 2
  {
    if ShouldUnwrap(c) then Unwrap(c.children[0]) else Unwrap(c)
  }

  /** How many `<p>` elements of the tree (other than the root) are collected. */
  function Eligible(n: Node): nat
    decreases n, 1
  {
    EligibleSeq(n.children)
  }

  function EligibleSeq(cs: seq<Node>): nat
    decreases cs, 0
  {
    if cs == [] then 0
    else (if ShouldUnwrap(cs[0]) then 1 else 0) + Eligible(cs[0]) + EligibleSeq(cs[1..])
  }

  /** Each collected `<p>` removes exactly one node: the `<p>` itself. */
  lemma {:induction false} UnwrapSize(n: Node)
    ensures Size(Unwrap(n)) + Eligible(n) == Size(n)
    decreases n, 1
  {
    UnwrapSeqSize(n.children);
  }

  lemma {:induction false} UnwrapSeqSize(cs: seq<Node>)
    ensures SizeSeq(UnwrapChildren(cs)) + EligibleSeq(cs) == SizeSeq(cs)
    decreases cs, 0
  {
    if cs != [] {
      var c := cs[0];
      var r := UnwrapChildren(cs);
      assert r[0] == UnwrapChild(c) && r[1..] == UnwrapChildren(cs[1..]);
      UnwrapSeqSize(cs[1..]);
      if ShouldUnwrap(c) {
        var ch := c.children[0];
        UnwrapSize(ch);
        assert c.children[1..] == [];
        assert SizeSeq(c.children) == Size(ch);
        assert EligibleSeq(c.children) == Eligible(ch);
      } else {
        UnwrapSize(c);
      }
    }
  }

  /** Unwrapping loses no text and keeps it in order. */
  lemma {:induction false} UnwrapText(n: Node)
    ensures TextContent(Unwrap(n)) == TextContent(n)
    decreases n, 1
  {
    UnwrapSeqText(n.children);
  }

  lemma {:induction false} UnwrapSeqText(cs: seq<Node>)
    ensures TextSeq(UnwrapChildren(cs)) == TextSeq(cs)
    decreases cs, 0
  {
    if cs != [] {
      var c := cs[0];
      var r := UnwrapChildren(cs);
      assert r[0] == UnwrapChild(c) && r[1..] == UnwrapChildren(cs[1..]);
      UnwrapSeqText(cs[1..]);
      if ShouldUnwrap(c) {
        var ch := c.children[0];
        UnwrapText(ch);
        assert c.children[1..] == [];
        assert TextSeq(c.children) == TextContent(ch) + "";
      } else {
        UnwrapText(c);
      }
    }
  }

  lemma {:induction false} UnwrapFixed(n: Node)
    requires Eligible(n) == 0
    ensures Unwrap(n) == n
    decreases n, 1
  {
    UnwrapSeqFixed(n.children);
  }

  lemma {:induction false} UnwrapSeqFixed(cs: seq<Node>)
    requires EligibleSeq(cs) == 0
    ensures UnwrapChildren(cs) == cs
    decreases cs, 0
  {
    if cs != [] {
      UnwrapFixed(cs[0]);
      UnwrapSeqFixed(cs[1..]);
      assert cs == [cs[0]] + cs[1..];
    }
  }

  /** The pass changes the tree exactly when it collects something. */
  lemma UnwrapIdentityIff(n: Node)
    ensures Unwrap(n) == n <==> Eligible(n) == 0
  {
    UnwrapSize(n);
    if Eligible(n) == 0 {
      UnwrapFixed(n);
    }
  }
}
