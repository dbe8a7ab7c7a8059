/** The fourth pass of `clean_html_structure`: trailing line feeds are cut
    from every text node, and leading line feeds from a text node that
    directly follows a `<code>` element. */
module TextPass {
  import opened Dom
  import Strings

  predicate IsCode(n: Node) {
    IsElement(n, "code")
  }

  /** The new contents of a text node; `afterCode` says whether its previous
      sibling is a `<code>` element. The leading line feeds go first, when the
      `<code>` is visited; the trailing ones when the text itself is. */
  function CleanContents(s: string, afterCode: bool): (r: string)
    ensures |r| == 0 || r[|r| - 1] != '\n'
    ensures afterCode ==> |r| == 0 || r[0] != '\n'
    ensures exists lead, trail ::
              && s == lead + r + trail
              && Strings.All(lead, Strings.IsLineFeed) && Strings.All(trail, Strings.IsLineFeed)
              && (!afterCode ==> lead == [])
    ensures !afterCode ==> r == s[..|r|]
  {
    var t := if afterCode then Strings.TrimStartWhere(s, Strings.IsLineFeed) else s;
    var r := Strings.TrimEndWhere(t, Strings.IsLineFeed);
    LineFeedsAround(s, t, r, afterCode);
    r
  }

  /** What the two trims cut off: line feeds in front (only after a
      `<code>`) and line feeds behind. */
  lemma LineFeedsAround(s: string, t: string, r: string, afterCode: bool)
    requires t == if afterCode then Strings.TrimStartWhere(s, Strings.IsLineFeed) else s
    requires r == Strings.TrimEndWhere(t, Strings.IsLineFeed)
    ensures exists lead, trail ::
              && s == lead + r + trail
              && Strings.All(lead, Strings.IsLineFeed) && Strings.All(trail, Strings.IsLineFeed)
              && (!afterCode ==> lead == [])
  {
    Strings.DroppedPrefix(s, t, Strings.IsLineFeed);
    Strings.DroppedSuffix(t, r, Strings.IsLineFeed);
    var lead, trail := s[..|s| - |t|], t[|r|..];
    Strings.JoinThree(s, lead, t, r, trail);
  }

  /** Only line feeds go: removing every line feed from the old and from the
      new contents gives the same string. */
  lemma ContentsKeepText(s: string, afterCode: bool)
    ensures Strings.RemoveWhere(CleanContents(s, afterCode), Strings.IsLineFeed) == Strings.RemoveWhere(s, Strings.IsLineFeed)
  {
    var r := CleanContents(s, afterCode);
    var lead, trail :| s == lead + r + trail && Strings.All(lead, Strings.IsLineFeed) && Strings.All(trail, Strings.IsLineFeed);
    Strings.RemoveWhereTrimmed(lead, r, trail, Strings.IsLineFeed);
  }

  /** `clean_text_nodes` on the subtree `n`. */
  function CleanNode(n: Node, afterCode: bool): (r: Node)
    ensures r.data.Text? <==> n.data.Text?
    ensures !n.data.Text? ==> r.data == n.data
    ensures |r.children| == |n.children|
    decreases n, 1
  {
    var data := if n.data.Text? then Text(CleanContents(n.data.contents, afterCode)) else n.data;
    Node(data, CleanChildren(n.children, false))
  }

  /** The children of a node, left to right, each knowing whether its
      previous sibling is a `<code>` element. */
  function CleanChildren(cs: seq<Node>, afterCode: bool): (r: seq<Node>)
    ensures |r| == |cs|
    ensures forall i | 0 <= i < |cs| :: r[i].data.Text? <==> cs[i].data.Text?
    ensures forall i | 0 <= i < |cs| :: !cs[i].data.Text? ==> r[i].data == cs[i].data
    decreases cs, 0
  {
    if cs == [] then [] else [CleanNode(cs[0], afterCode)] + CleanChildren(cs[1..], IsCode(cs[0]))
  }

  /** The pass removes nothing but line feeds: with every line feed taken
      out, the text of the tree is what it was. */
  lemma {:induction false} CleanNodeKeepsText(n: Node, afterCode: bool)
    ensures Strings.RemoveWhere(TextContent(CleanNode(n, afterCode)), Strings.IsLineFeed)
         == Strings.RemoveWhere(TextContent(n), Strings.IsLineFeed)
    decreases n, 1
  {
    var r := CleanNode(n, afterCode);
    CleanChildrenKeepText(n.children, false);
    if n.data.Text? {
      ContentsKeepText(n.data.contents, afterCode);
      Strings.RemoveWhereAppend(r.data.contents, TextSeq(r.children), Strings.IsLineFeed);
      Strings.RemoveWhereAppend(n.data.contents, TextSeq(n.children), Strings.IsLineFeed);
    }
  }

  lemma {:induction false} CleanChildrenKeepText(cs: seq<Node>, afterCode: bool)
    ensures Strings.RemoveWhere(TextSeq(CleanChildren(cs, afterCode)), Strings.IsLineFeed)
         == Strings.RemoveWhere(TextSeq(cs), Strings.IsLineFeed)
    decreases cs, 0
  {
    if cs != [] {
      var r := CleanChildren(cs, afterCode);
      assert r[0] == CleanNode(cs[0], afterCode);
      assert r[1..] == CleanChildren(cs[1..], IsCode(cs[0]));
      CleanNodeKeepsText(cs[0], afterCode);
      CleanChildrenKeepText(cs[1..], IsCode(cs[0]));
      Strings.RemoveWhereAppend(TextContent(r[0]), TextSeq(r[1..]), Strings.IsLineFeed);
      Strings.RemoveWhereAppend(TextContent(cs[0]), TextSeq(cs[1..]), Strings.IsLineFeed);
    }
  }

  /** No text node ends with a line feed, and none that follows a `<code>`
      starts with one. */
  predicate TextClean(n: Node, afterCode: bool)
    decreases n, 1
  {
    && (n.data.Text? ==> var s := n.data.contents;
          (|s| == 0 || s[|s| - 1] != '\n') && (afterCode ==> |s| == 0 || s[0] != '\n'))
    && TextCleanSeq(n.children, false)
  }

  predicate TextCleanSeq(cs: seq<Node>, afterCode: bool)
    decreases cs, 0
  {
    cs == [] || (TextClean(cs[0], afterCode) && TextCleanSeq(cs[1..], IsCode(cs[0])))
  }

  /** The pass leaves every text node clean. */
  lemma {:induction false} CleanNodeClean(n: Node, afterCode: bool)
    ensures TextClean(CleanNode(n, afterCode), afterCode)
    decreases n, 1
  {
    CleanChildrenClean(n.children, false);
  }

  lemma {:induction false} CleanChildrenClean(cs: seq<Node>, afterCode: bool)
    ensures TextCleanSeq(CleanChildren(cs, afterCode), afterCode)
    decreases cs, 0
  {
    if cs != [] {
      var r := CleanChildren(cs, afterCode);
      assert r[0] == CleanNode(cs[0], afterCode);
      assert r[1..] == CleanChildren(cs[1..], IsCode(cs[0]));
      assert IsCode(r[0]) == IsCode(cs[0]);
      CleanNodeClean(cs[0], afterCode);
      CleanChildrenClean(cs[1..], IsCode(cs[0]));
    }
  }

  /** A clean tree is left alone. */
  lemma {:induction false} CleanNodeFixed(n: Node, afterCode: bool)
    requires TextClean(n, afterCode)
    ensures CleanNode(n, afterCode) == n
    decreases n, 1
  {
    if n.data.Text? {
      var s := n.data.contents;
      if afterCode {
        Strings.TrimStartFixed(s, Strings.IsLineFeed);
      }
      Strings.TrimEndFixed(s, Strings.IsLineFeed);
    }
    CleanChildrenFixed(n.children, false);
  }

  lemma {:induction false} CleanChildrenFixed(cs: seq<Node>, afterCode: bool)
    requires TextCleanSeq(cs, afterCode)
    ensures CleanChildren(cs, afterCode) == cs
    decreases cs, 0
  {
    if cs != [] {
      CleanNodeFixed(cs[0], afterCode);
      CleanChildrenFixed(cs[1..], IsCode(cs[0]));
      assert cs == [cs[0]] + cs[1..];
    }
  }

  /** The pass changes a tree exactly when the tree is not clean. */
  lemma CleanIdentityIff(n: Node, afterCode: bool)
    ensures CleanNode(n, afterCode) == n <==> TextClean(n, afterCode)
  {
    CleanNodeClean(n, afterCode);
    if TextClean(n, afterCode) {
      CleanNodeFixed(n, afterCode);
    }
  }

  /** Running the pass again changes nothing. */
  lemma CleanIdempotent(n: Node, afterCode: bool)
    ensures CleanNode(CleanNode(n, afterCode), afterCode) == CleanNode(n, afterCode)
  {
    CleanNodeClean(n, afterCode);
    CleanNodeFixed(CleanNode(n, afterCode), afterCode);
  }
}
