/** `clean_html_structure` on the parsed document: unwrap, restructure the
    lists, clean the text. Parsing the HTML string and serializing the tree
    back are outside the model. */
module Cleaner {
  import opened Dom
  import UnwrapPass
  import ListPass
  import TextPass
  import Strings

  /** The text pass neither adds nor removes a `<li>` or a list, so it keeps
      a flat tree flat and a non-flat one non-flat. */
  lemma {:induction false} CleanKeepsFlat(n: Node, afterCode: bool, inList: bool)
    ensures ListPass.FlatIn(TextPass.CleanNode(n, afterCode), inList) <==> ListPass.FlatIn(n, inList)
    decreases n, 1
  {
    CleanChildrenKeepFlat(n.children, false, IsList(n));
  }

  lemma {:induction false} CleanChildrenKeepFlat(cs: seq<Node>, afterCode: bool, inList: bool)
    ensures ListPass.FlatSeq(TextPass.CleanChildren(cs, afterCode), inList) <==> ListPass.FlatSeq(cs, inList)
    decreases cs, 0
  {
    if cs != [] {
      var r := TextPass.CleanChildren(cs, afterCode);
      assert r[0] == TextPass.CleanNode(cs[0], afterCode);
      assert r[1..] == TextPass.CleanChildren(cs[1..], TextPass.IsCode(cs[0]));
      CleanKeepsFlat(cs[0], afterCode, inList);
      CleanChildrenKeepFlat(cs[1..], TextPass.IsCode(cs[0]), inList);
    }
  }

  /** The cleaned document, with nested lists moved out in document order
      (the corrected placement): no `<li>` of a list holds a list, no text
      node ends with a line feed and none after a `<code>` starts with one. */
  function CleanHtmlStructure(doc: Node): (r: Node)
    ensures !doc.data.Text? ==> r.data == doc.data
    ensures ListPass.FlatIn(r, false)
    ensures TextPass.TextClean(r, false)
  {
    var unwrapped := UnwrapPass.Unwrap(doc);
    var restructured := ListPass.Restructure(unwrapped);
    CleanKeepsFlat(restructured, false, false);
    TextPass.CleanNodeClean(restructured, false);
    TextPass.CleanNode(restructured, false)
  }

  /** The same passes with the lists placed as the source places them. */
  function CleanHtmlStructureAsWritten(doc: Node): (r: Node)
    ensures !doc.data.Text? ==> r.data == doc.data
    ensures ListPass.FlatIn(r, false)
    ensures TextPass.TextClean(r, false)
  {
    var unwrapped := UnwrapPass.Unwrap(doc);
    var restructured := ListPass.RestructureAsWritten(unwrapped);
    CleanKeepsFlat(restructured, false, false);
    TextPass.CleanNodeClean(restructured, false);
    TextPass.CleanNode(restructured, false)
  }

  /** A child the unwrap pass puts in place of another is a list, or a
      line-feed text node, exactly when the other one was: an unwrapped `<p>`
      gives way to an inline element. */
  lemma UnwrapChildKind(c: Node)
    ensures IsList(UnwrapPass.UnwrapChild(c)) <==> IsList(c)
    ensures ListPass.IsLineBreaks(UnwrapPass.UnwrapChild(c)) <==> ListPass.IsLineBreaks(c)
  {
    if !UnwrapPass.ShouldUnwrap(c) && c.children != [] {
      assert UnwrapPass.UnwrapChild(c).children != [];
    }
  }

  lemma {:induction false} UnwrapChildAt(cs: seq<Node>, i: nat)
    requires i < |cs|
    ensures UnwrapPass.UnwrapChildren(cs)[i] == UnwrapPass.UnwrapChild(cs[i])
    decreases i
  {
    if i > 0 {
      UnwrapChildAt(cs[1..], i - 1);
    }
  }

  /** The unwrap pass keeps the order of lists and line-feed text nodes among
      the children of a node. */
  lemma UnwrapTrail(cs: seq<Node>)
    ensures ListPass.ListsTrail(UnwrapPass.UnwrapChildren(cs)) <==> ListPass.ListsTrail(cs)
  {
    var r := UnwrapPass.UnwrapChildren(cs);
    forall i | 0 <= i < |cs|
      ensures IsList(r[i]) <==> IsList(cs[i])
      ensures ListPass.IsLineBreaks(r[i]) <==> ListPass.IsLineBreaks(cs[i])
    {
      UnwrapChildAt(cs, i);
      UnwrapChildKind(cs[i]);
    }
  }

  lemma {:induction false} UnwrapListCount(cs: seq<Node>)
    ensures |ListPass.ListChildren(UnwrapPass.UnwrapChildren(cs))| == |ListPass.ListChildren(cs)|
    decreases cs
  {
    if cs != [] {
      var r := UnwrapPass.UnwrapChildren(cs);
      assert r[0] == UnwrapPass.UnwrapChild(cs[0]) && r[1..] == UnwrapPass.UnwrapChildren(cs[1..]);
      UnwrapChildKind(cs[0]);
      UnwrapListCount(cs[1..]);
    }
  }

  /** A node other than an `<li>` is well nested or not whatever its parent. */
  lemma NotItemNested(n: Node, a: bool, b: bool)
    requires !IsLi(n)
    ensures ListPass.WellNested(n, a) <==> ListPass.WellNested(n, b)
    ensures ListPass.FewNested(n, a) <==> ListPass.FewNested(n, b)
  {
  }

  /** Unwrapping neither creates nor removes text after a nested list, nor a
      second list in an `<li>`: the conditions of the text lemmas below can
      be checked on the parsed document. */
  lemma {:induction false} UnwrapKeepsNesting(n: Node, inList: bool)
    ensures ListPass.WellNested(UnwrapPass.Unwrap(n), inList) <==> ListPass.WellNested(n, inList)
    ensures ListPass.FewNested(UnwrapPass.Unwrap(n), inList) <==> ListPass.FewNested(n, inList)
    decreases n, 1
  {
    UnwrapChildrenKeepNesting(n.children, IsList(n));
    UnwrapTrail(n.children);
    UnwrapListCount(n.children);
  }

  lemma {:induction false} UnwrapChildrenKeepNesting(cs: seq<Node>, inList: bool)
    ensures ListPass.WellNestedSeq(UnwrapPass.UnwrapChildren(cs), inList) <==> ListPass.WellNestedSeq(cs, inList)
    ensures ListPass.FewNestedSeq(UnwrapPass.UnwrapChildren(cs), inList) <==> ListPass.FewNestedSeq(cs, inList)
    decreases cs, 0
  {
    if cs != [] {
      var r := UnwrapPass.UnwrapChildren(cs);
      assert r[0] == UnwrapPass.UnwrapChild(cs[0]) && r[1..] == UnwrapPass.UnwrapChildren(cs[1..]);
      UnwrapChildKeepsNesting(cs[0], inList);
      UnwrapChildrenKeepNesting(cs[1..], inList);
    }
  }

  lemma {:induction false} UnwrapChildKeepsNesting(c: Node, inList: bool)
    ensures ListPass.WellNested(UnwrapPass.UnwrapChild(c), inList) <==> ListPass.WellNested(c, inList)
    ensures ListPass.FewNested(UnwrapPass.UnwrapChild(c), inList) <==> ListPass.FewNested(c, inList)
    decreases c, 2
  {
    if UnwrapPass.ShouldUnwrap(c) {
      var ch := c.children[0];
      assert c.children[1..] == [] && !IsList(c) && !IsLi(c);
      assert ListPass.WellNestedSeq(c.children[1..], false) && ListPass.FewNestedSeq(c.children[1..], false);
      assert ListPass.WellNestedSeq(c.children, false) <==> ListPass.WellNested(ch, false);
      assert ListPass.FewNestedSeq(c.children, false) <==> ListPass.FewNested(ch, false);
      assert ListPass.WellNested(c, inList) <==> ListPass.WellNested(ch, false);
      assert ListPass.FewNested(c, inList) <==> ListPass.FewNested(ch, false);
      UnwrapKeepsNesting(ch, false);
      NotItemNested(ch, false, inList);
      NotItemNested(UnwrapPass.Unwrap(ch), false, inList);
    } else {
      UnwrapKeepsNesting(c, inList);
    }
  }

  /** With the corrected list placement, nothing but line feeds is lost or
      moved when every `<li>` ends with its nested lists, line feeds aside,
      as in tight sub-lists and the repository's tests: the cleaned document,
      line feeds aside, reads as the parsed one. */
  lemma CleanHtmlStructureKeepsText(doc: Node)
    requires ListPass.WellNested(doc, false)
    ensures Strings.RemoveWhere(TextContent(CleanHtmlStructure(doc)), Strings.IsLineFeed)
         == Strings.RemoveWhere(TextContent(doc), Strings.IsLineFeed)
  {
    var unwrapped := UnwrapPass.Unwrap(doc);
    UnwrapKeepsNesting(doc, false);
    UnwrapPass.UnwrapText(doc);
    ListPass.RestructureText(unwrapped, false);
    TextPass.CleanNodeKeepsText(ListPass.Restructure(unwrapped), false);
  }

  /** The same for the source's own list placement, on documents where no
      `<li>` holds two or more lists: there both placements agree. */
  lemma CleanHtmlStructureAsWrittenKeepsText(doc: Node)
    requires ListPass.WellNested(doc, false)
    requires ListPass.FewNested(doc, false)
    ensures Strings.RemoveWhere(TextContent(CleanHtmlStructureAsWritten(doc)), Strings.IsLineFeed)
         == Strings.RemoveWhere(TextContent(doc), Strings.IsLineFeed)
  {
    AsWrittenAgrees(doc);
    CleanHtmlStructureKeepsText(doc);
  }

  /** The last two passes have nothing left to do on a cleaned document. */
  lemma CleanedIsStable(doc: Node)
    ensures ListPass.Restructure(CleanHtmlStructure(doc)) == CleanHtmlStructure(doc)
    ensures TextPass.CleanNode(CleanHtmlStructure(doc), false) == CleanHtmlStructure(doc)
  {
    var r := CleanHtmlStructure(doc);
    ListPass.HoistFixesFlat(r, false, false);
    TextPass.CleanNodeFixed(r, false);
  }

  /** The two versions differ only on documents where some `<li>` holds two
      or more lists. */
  lemma AsWrittenAgrees(doc: Node)
    requires ListPass.FewNested(doc, false)
    ensures CleanHtmlStructureAsWritten(doc) == CleanHtmlStructure(doc)
  {
    UnwrapKeepsNesting(doc, false);
    ListPass.HoistAgree(UnwrapPass.Unwrap(doc), false);
  }
}
