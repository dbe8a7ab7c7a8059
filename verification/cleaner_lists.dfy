/** The third pass of `clean_html_structure`: every `<ul>`/`<ol>` that is a
    direct child of an `<li>` whose parent is a `<ul>`/`<ol>` is taken out of
    the `<li>` and placed right after it in the outer list. All such lists are
    collected first, on the tree as it is, and then moved. */
module ListPass {
  import opened Dom
  import Strings

  /** `s` back to front. */
  function Rev<T>(s: seq<T>): (r: seq<T>)
    ensures |r| == |s|
    ensures forall i | 0 <= i < |s| :: r[i] == s[|s| - 1 - i]
  {
    if s == [] then [] else Rev(s[1..]) + [s[0]]
  }

  /** What follows an `<li>` once each of `lists`, in order, has been inserted
      at the position right after the `<li>` (in front of `after`). */
  function InsertEachAfterLi(after: seq<Node>, lists: seq<Node>): seq<Node>
    decreases |lists|
  {
    if lists == [] then after else InsertEachAfterLi([lists[0]] + after, lists[1..])
  }

  /** Inserting one after another at the same position reverses them. */
  lemma {:induction false} InsertEachReverses(after: seq<Node>, lists: seq<Node>)
    ensures InsertEachAfterLi(after, lists) == Rev(lists) + after
    decreases |lists|
  {
    if lists != [] {
      InsertEachReverses([lists[0]] + after, lists[1..]);
      assert Rev(lists[1..]) + ([lists[0]] + after) == (Rev(lists[1..]) + [lists[0]]) + after;
    }
  }

  /** Where the moved lists end up, in the order the source produces
      (`asWritten`) or in document order. */
  function Placed(lists: seq<Node>, asWritten: bool): seq<Node> {
    if asWritten then InsertEachAfterLi([], lists) else lists
  }

  /** The tree after the pass. `asWritten` selects the source's placement of
      several lists taken from one `<li>`. */
  function Hoist(n: Node, asWritten: bool): (r: Node)
    ensures r.data == n.data
    decreases n, 1
  {
    Node(n.data, HoistChildren(n.children, IsList(n), asWritten))
  }

  /** The children of a node; `inList` says whether that node is a list. */
  function HoistChildren(cs: seq<Node>, inList: bool, asWritten: bool): seq<Node>
    decreases cs, 0
  {
    if cs == [] then []
    else HoistChild(cs[0], inList, asWritten) + HoistChildren(cs[1..], inList, asWritten)
  }

  /** An `<li>` of a list becomes the `<li>` without its list children,
      followed by those lists; any other child is processed in place. */
  function HoistChild(c: Node, inList: bool, asWritten: bool): seq<Node>
    decreases c, 2
  {
    if inList && IsLi(c) then
      [Node(c.data, Kept(c.children, asWritten))] + Placed(Nested(c.children, asWritten), asWritten)
    else [Hoist(c, asWritten)]
  }

  /** The non-list children of an `<li>`, processed. */
  function Kept(cs: seq<Node>, asWritten: bool): (r: seq<Node>)
    ensures forall i | 0 <= i < |r| :: !IsList(r[i])
    decreases cs, 0
  {
    if cs == [] then []
    else (if IsList(cs[0]) then [] else [Hoist(cs[0], asWritten)]) + Kept(cs[1..], asWritten)
  }

  /** The list children of an `<li>`, processed, in document order. */
  function Nested(cs: seq<Node>, asWritten: bool): (r: seq<Node>)
    ensures forall i | 0 <= i < |r| :: IsList(r[i])
    decreases cs, 0
  {
    if cs == [] then []
    else (if IsList(cs[0]) then [Hoist(cs[0], asWritten)] else []) + Nested(cs[1..], asWritten)
  }

  /** The pass as the source performs it: afterwards no `<li>` of a list
      holds a list, and the tree has the same nodes as before. */
  function RestructureAsWritten(n: Node): (r: Node)
    ensures FlatIn(r, false)
    ensures Labels(r) == Labels(n)
  {
    HoistFlat(n, true, false);
    HoistLabels(n, true);
    Hoist(n, true)
  }

  /** The pass with nested lists kept in document order; the same two
      guarantees hold. */
  function Restructure(n: Node): (r: Node)
    ensures FlatIn(r, false)
    ensures Labels(r) == Labels(n)
  {
    HoistFlat(n, false, false);
    HoistLabels(n, false);
    Hoist(n, false)
  }

  // ----- what the pass collects -----

  /** The list children of `cs`, unprocessed. */
  function ListChildren(cs: seq<Node>): (r: seq<Node>)
    ensures forall i | 0 <= i < |r| :: IsList(r[i])
    decreases |cs|
  {
    if cs == [] then [] else (if IsList(cs[0]) then [cs[0]] else []) + ListChildren(cs[1..])
  }

  /** What `collect_nested_lists` gathers from the subtree `n`, whose parent
      is a list exactly when `inList`. */
  function Collected(n: Node, inList: bool): (r: seq<Node>)
    ensures forall i | 0 <= i < |r| :: IsList(r[i])
    decreases n, 1
  {
    (if inList && IsLi(n) then ListChildren(n.children) else []) + CollectedSeq(n.children, IsList(n))
  }

  function CollectedSeq(cs: seq<Node>, inList: bool): (r: seq<Node>)
    ensures forall i | 0 <= i < |r| :: IsList(r[i])
    decreases cs, 0
  {
    if cs == [] then [] else Collected(cs[0], inList) + CollectedSeq(cs[1..], inList)
  }

  /** No `<li>` of a list has a list child anywhere in the subtree `n`. */
  predicate FlatIn(n: Node, inList: bool)
    decreases n, 1
  {
    && (inList && IsLi(n) ==> forall i | 0 <= i < |n.children| :: !IsList(n.children[i]))
    && FlatSeq(n.children, IsList(n))
  }

  predicate FlatSeq(cs: seq<Node>, inList: bool)
    decreases cs, 0
  {
    cs == [] || (FlatIn(cs[0], inList) && FlatSeq(cs[1..], inList))
  }

  lemma {:induction false} ListChildrenEmpty(cs: seq<Node>)
    ensures ListChildren(cs) == [] <==> forall i | 0 <= i < |cs| :: !IsList(cs[i])
    decreases |cs|
  {
    if cs != [] {
      ListChildrenEmpty(cs[1..]);
      assert forall i | 1 <= i < |cs| :: cs[i] == cs[1..][i - 1];
    }
  }

  /** The collection finds something exactly when the subtree is not flat. */
  lemma {:induction false} CollectedEmptyIff(n: Node, inList: bool)
    ensures Collected(n, inList) == [] <==> FlatIn(n, inList)
    decreases n, 1
  {
    ListChildrenEmpty(n.children);
    CollectedSeqEmptyIff(n.children, IsList(n));
  }

  lemma {:induction false} CollectedSeqEmptyIff(cs: seq<Node>, inList: bool)
    ensures CollectedSeq(cs, inList) == [] <==> FlatSeq(cs, inList)
    decreases cs, 0
  {
    if cs != [] {
      CollectedEmptyIff(cs[0], inList);
      CollectedSeqEmptyIff(cs[1..], inList);
    }
  }

  // ----- flatness -----

  lemma {:induction false} FlatSeqAppend(a: seq<Node>, b: seq<Node>, inList: bool)
    ensures FlatSeq(a + b, inList) <==> FlatSeq(a, inList) && FlatSeq(b, inList)
    decreases |a|
  {
    if a == [] {
      assert a + b == b;
    } else {
      assert (a + b)[0] == a[0] && (a + b)[1..] == a[1..] + b;
      FlatSeqAppend(a[1..], b, inList);
    }
  }

  lemma {:induction false} FlatSeqAll(cs: seq<Node>, inList: bool)
    ensures FlatSeq(cs, inList) <==> forall i | 0 <= i < |cs| :: FlatIn(cs[i], inList)
    decreases |cs|
  {
    if cs != [] {
      FlatSeqAll(cs[1..], inList);
      assert forall i | 1 <= i < |cs| :: cs[i] == cs[1..][i - 1];
    }
  }

  /** After the pass the tree is flat (unless it is itself an `<li>` of a
      list, which its parent's pass restructures). */
  lemma {:induction false} HoistFlat(n: Node, asWritten: bool, inList: bool)
    requires !(inList && IsLi(n))
    ensures FlatIn(Hoist(n, asWritten), inList)
    decreases n, 1
  {
    HoistChildrenFlat(n.children, IsList(n), asWritten);
  }

  lemma {:induction false} HoistChildrenFlat(cs: seq<Node>, inList: bool, asWritten: bool)
    ensures FlatSeq(HoistChildren(cs, inList, asWritten), inList)
    decreases cs, 0
  {
    if cs != [] {
      var c := cs[0];
      HoistChildFlat(c, inList, asWritten);
      HoistChildrenFlat(cs[1..], inList, asWritten);
      FlatSeqAppend(HoistChild(c, inList, asWritten), HoistChildren(cs[1..], inList, asWritten), inList);
    }
  }

  lemma {:induction false} HoistChildFlat(c: Node, inList: bool, asWritten: bool)
    ensures FlatSeq(HoistChild(c, inList, asWritten), inList)
    decreases c, 2
  {
    if inList && IsLi(c) {
      var kept := Kept(c.children, asWritten);
      var nested := Nested(c.children, asWritten);
      var li := Node(c.data, kept);
      KeptFlat(c.children, asWritten);
      NestedFlat(c.children, asWritten);
      assert FlatIn(li, inList);
      var placed := Placed(nested, asWritten);
      assert forall i | 0 <= i < |placed| :: FlatIn(placed[i], true) by {
        if asWritten {
          InsertEachReverses([], nested);
          assert placed == Rev(nested) + [];
        }
      }
      FlatSeqAll(placed, inList);
      FlatSeqAppend([li], placed, inList);
    } else {
      HoistFlat(c, asWritten, inList);
    }
  }

  lemma {:induction false} KeptFlat(cs: seq<Node>, asWritten: bool)
    ensures FlatSeq(Kept(cs, asWritten), false)
    decreases cs, 0
  {
    if cs != [] {
      var head := if IsList(cs[0]) then [] else [Hoist(cs[0], asWritten)];
      if !IsList(cs[0]) {
        HoistFlat(cs[0], asWritten, false);
      }
      KeptFlat(cs[1..], asWritten);
      FlatSeqAppend(head, Kept(cs[1..], asWritten), false);
    }
  }

  lemma {:induction false} NestedFlat(cs: seq<Node>, asWritten: bool)
    ensures forall i | 0 <= i < |Nested(cs, asWritten)| :: FlatIn(Nested(cs, asWritten)[i], true)
    decreases cs, 0
  {
    if cs != [] {
      var head := if IsList(cs[0]) then [Hoist(cs[0], asWritten)] else [];
      if IsList(cs[0]) {
        HoistFlat(cs[0], asWritten, true);
      }
      NestedFlat(cs[1..], asWritten);
      assert Nested(cs, asWritten) == head + Nested(cs[1..], asWritten);
    }
  }

  // ----- flat trees are left alone -----

  /** A flat tree is its own result. */
  lemma {:induction false} HoistFixesFlat(n: Node, asWritten: bool, inList: bool)
    requires FlatIn(n, inList)
    ensures Hoist(n, asWritten) == n
    decreases n, 1
  {
    HoistChildrenFixFlat(n.children, IsList(n), asWritten);
  }

  lemma {:induction false} HoistChildrenFixFlat(cs: seq<Node>, inList: bool, asWritten: bool)
    requires FlatSeq(cs, inList)
    ensures HoistChildren(cs, inList, asWritten) == cs
    decreases cs, 0
  {
    if cs != [] {
      var c := cs[0];
      HoistChildrenFixFlat(cs[1..], inList, asWritten);
      if inList && IsLi(c) {
        FlatSeqAll(c.children, false);
        KeptNestedFixFlat(c.children, asWritten);
        assert HoistChild(c, inList, asWritten) == [c];
      } else {
        HoistFixesFlat(c, asWritten, inList);
      }
      assert cs == [c] + cs[1..];
    }
  }

  /** In an `<li>` without list children nothing is moved and the rest is
      left alone. */
  lemma {:induction false} KeptNestedFixFlat(cs: seq<Node>, asWritten: bool)
    requires forall i | 0 <= i < |cs| :: !IsList(cs[i]) && FlatIn(cs[i], false)
    ensures Kept(cs, asWritten) == cs
    ensures Nested(cs, asWritten) == []
    decreases cs, 0
  {
    if cs != [] {
      HoistFixesFlat(cs[0], asWritten, false);
      KeptNestedFixFlat(cs[1..], asWritten);
      assert cs == [cs[0]] + cs[1..];
    }
  }

  /** The pass changes a tree (other than an `<li>` of a list) exactly when
      there is something to collect in it. */
  lemma HoistIdentityIff(n: Node, asWritten: bool, inList: bool)
    requires !(inList && IsLi(n))
    ensures Hoist(n, asWritten) == n <==> Collected(n, inList) == []
  {
    CollectedEmptyIff(n, inList);
    HoistFlat(n, asWritten, inList);
    if FlatIn(n, inList) {
      HoistFixesFlat(n, asWritten, inList);
    }
  }

  /** Running the pass again changes nothing. */
  lemma HoistIdempotent(n: Node, asWritten: bool)
    ensures Hoist(Hoist(n, asWritten), asWritten) == Hoist(n, asWritten)
  {
    HoistFlat(n, asWritten, false);
    HoistFixesFlat(Hoist(n, asWritten), asWritten, false);
  }

  /** `restructure_nested_lists` collects on the whole tree, moves, and then
      calls itself on every child of the result; those later collections all
      come back empty, so the recursion moves nothing more. */
  lemma PassLeavesNothingToCollect(n: Node, asWritten: bool)
    ensures Collected(Hoist(n, asWritten), false) == []
    ensures var m := Hoist(n, asWritten);
            forall i | 0 <= i < |m.children| :: Collected(m.children[i], IsList(m)) == []
  {
    var m := Hoist(n, asWritten);
    HoistFlat(n, asWritten, false);
    CollectedEmptyIff(m, false);
    FlatSeqAll(m.children, IsList(m));
    forall i | 0 <= i < |m.children|
      ensures Collected(m.children[i], IsList(m)) == []
    {
      CollectedEmptyIff(m.children[i], IsList(m));
    }
  }

  // ----- nothing is lost -----

  lemma {:induction false} LabelsSeqRev(s: seq<Node>)
    ensures LabelsSeq(Rev(s)) == LabelsSeq(s)
    decreases |s|
  {
    if s != [] {
      LabelsSeqRev(s[1..]);
      LabelsSeqAppend(Rev(s[1..]), [s[0]]);
      assert [s[0]][1..] == [];
    }
  }

  /** Every node of the tree is still there, the same number of times. */
  lemma {:induction false} HoistLabels(n: Node, asWritten: bool)
    ensures Labels(Hoist(n, asWritten)) == Labels(n)
    decreases n, 1
  {
    HoistChildrenLabels(n.children, IsList(n), asWritten);
  }

  lemma {:induction false} HoistChildrenLabels(cs: seq<Node>, inList: bool, asWritten: bool)
    ensures LabelsSeq(HoistChildren(cs, inList, asWritten)) == LabelsSeq(cs)
    decreases cs, 0
  {
    if cs != [] {
      var c := cs[0];
      HoistChildrenLabels(cs[1..], inList, asWritten);
      LabelsSeqAppend(HoistChild(c, inList, asWritten), HoistChildren(cs[1..], inList, asWritten));
      HoistChildLabels(c, inList, asWritten);
    }
  }

  lemma {:induction false} HoistChildLabels(c: Node, inList: bool, asWritten: bool)
    ensures LabelsSeq(HoistChild(c, inList, asWritten)) == Labels(c)
    decreases c, 2
  {
    if inList && IsLi(c) {
      var kept := Kept(c.children, asWritten);
      var nested := Nested(c.children, asWritten);
      KeptNestedLabels(c.children, asWritten);
      if asWritten {
        InsertEachReverses([], nested);
        assert Placed(nested, asWritten) == Rev(nested);
        LabelsSeqRev(nested);
      }
      var placed := Placed(nested, asWritten);
      LabelsSeqAppend([Node(c.data, kept)], placed);
      LabelsOne(Node(c.data, kept));
      ItemLabels(multiset{c.data}, LabelsSeq(kept), LabelsSeq(nested), LabelsSeq(c.children),
                 LabelsSeq(placed), LabelsSeq([Node(c.data, kept)] + placed));
    } else {
      HoistLabels(c, asWritten);
      assert [Hoist(c, asWritten)][1..] == [];
    }
  }

  /** The multiset bookkeeping of one split `<li>`, on the parts alone. */
  lemma ItemLabels<T>(root: multiset<T>, kept: multiset<T>, nested: multiset<T>, children: multiset<T>,
                      placed: multiset<T>, out: multiset<T>)
    requires kept + nested == children && placed == nested
    requires out == root + kept + placed
    ensures out == root + children
  {
    assert root + kept + placed == root + (kept + nested);
  }

  lemma {:induction false} KeptNestedLabels(cs: seq<Node>, asWritten: bool)
    ensures LabelsSeq(Kept(cs, asWritten)) + LabelsSeq(Nested(cs, asWritten)) == LabelsSeq(cs)
    decreases cs, 0
  {
    if cs != [] {
      var c, rest := cs[0], cs[1..];
      var hc := Hoist(c, asWritten);
      KeptNestedLabels(rest, asWritten);
      HoistLabels(c, asWritten);
      LabelsOne(hc);
      KeptNestedCons(cs, asWritten);
      LabelsSeqAppend([hc], Kept(rest, asWritten));
      LabelsSeqAppend([hc], Nested(rest, asWritten));
      Combine(IsList(c), LabelsSeq(Kept(cs, asWritten)), LabelsSeq(Nested(cs, asWritten)),
              LabelsSeq(Kept(rest, asWritten)), LabelsSeq(Nested(rest, asWritten)), Labels(c), LabelsSeq(cs));
    }
  }

  /** One step of `Kept` and `Nested`, and of the labels of a sequence. */
  lemma KeptNestedCons(cs: seq<Node>, asWritten: bool)
    requires cs != []
    ensures Kept(cs, asWritten)
            == if IsList(cs[0]) then Kept(cs[1..], asWritten) else [Hoist(cs[0], asWritten)] + Kept(cs[1..], asWritten)
    ensures Nested(cs, asWritten)
            == if IsList(cs[0]) then [Hoist(cs[0], asWritten)] + Nested(cs[1..], asWritten) else Nested(cs[1..], asWritten)
    ensures LabelsSeq(cs) == Labels(cs[0]) + LabelsSeq(cs[1..])
  {
    assert [] + Kept(cs[1..], asWritten) == Kept(cs[1..], asWritten);
    assert [] + Nested(cs[1..], asWritten) == Nested(cs[1..], asWritten);
  }

  lemma LabelsOne(n: Node)
    ensures LabelsSeq([n]) == Labels(n)
  {
    assert [n][1..] == [];
  }

  /** The multiset bookkeeping of one step of `KeptNestedLabels`. */
  lemma Combine<T>(isList: bool, kept: multiset<T>, nested: multiset<T>, keptRest: multiset<T>,
                   nestedRest: multiset<T>, head: multiset<T>, all: multiset<T>)
    requires all == head + (keptRest + nestedRest)
    requires isList ==> kept == keptRest && nested == head + nestedRest
    requires !isList ==> kept == head + keptRest && nested == nestedRest
    ensures kept + nested == all
  {
  }

  // ----- text order -----

  /** The text of `s` without its line feeds: what the text pass cannot
      change, and all that a reordering of line feeds leaves to compare. */
  function Visible(s: string): string {
    Strings.RemoveWhere(s, Strings.IsLineFeed)
  }

  /** A text node holding only line feeds, such as the HTML renderer writes
      between block elements (`<li>a\n<ul>...</ul>\n</li>`). */
  predicate IsLineBreaks(n: Node) {
    n.data.Text? && Strings.All(n.data.contents, Strings.IsLineFeed) && n.children == []
  }

  /** Once a list child occurs, only list children and line-feed text nodes
      follow. */
  predicate ListsTrail(cs: seq<Node>) {
    forall i, j | 0 <= i < j < |cs| :: IsList(cs[i]) ==> IsList(cs[j]) || IsLineBreaks(cs[j])
  }

  /** Every `<li>` of a list in the subtree ends with its nested lists, line
      feeds aside, as tight sub-lists (`RenderedSubListNested`) and the
      repository's tests do. A loose item with a paragraph after its
      sub-list does not (`LooseItemNotNested`). */
  predicate WellNested(n: Node, inList: bool)
    decreases n, 1
  {
    (inList && IsLi(n) ==> ListsTrail(n.children)) && WellNestedSeq(n.children, IsList(n))
  }

  predicate WellNestedSeq(cs: seq<Node>, inList: bool)
    decreases cs, 0
  {
    cs == [] || (WellNested(cs[0], inList) && WellNestedSeq(cs[1..], inList))
  }

  lemma VisibleAppend(a: string, b: string)
    ensures Visible(a + b) == Visible(a) + Visible(b)
  {
    Strings.RemoveWhereAppend(a, b, Strings.IsLineFeed);
  }

  /** The visible text of a sequence of nodes, node by node. */
  lemma VisibleSeqCons(cs: seq<Node>)
    requires cs != []
    ensures Visible(TextSeq(cs)) == Visible(TextContent(cs[0])) + Visible(TextSeq(cs[1..]))
  {
    VisibleAppend(TextContent(cs[0]), TextSeq(cs[1..]));
  }

  lemma VisibleSeqAppend(a: seq<Node>, b: seq<Node>)
    ensures Visible(TextSeq(a + b)) == Visible(TextSeq(a)) + Visible(TextSeq(b))
  {
    TextSeqAppend(a, b);
    VisibleAppend(TextSeq(a), TextSeq(b));
  }

  /** A line-feed text node shows nothing and is left as it is. */
  lemma LineBreaksInvisible(n: Node)
    requires IsLineBreaks(n)
    ensures Visible(TextContent(n)) == []
    ensures Hoist(n, false) == n
  {
    assert TextSeq(n.children) == "";
    assert TextContent(n) == n.data.contents + "" == n.data.contents;
    Strings.RemoveWhereAll(n.data.contents, Strings.IsLineFeed);
  }

  /** With only line feeds after the nested lists of each `<li>`, the
      corrected pass keeps the text of the tree in document order, line
      feeds aside. */
  lemma {:induction false} RestructureText(n: Node, inList: bool)
    requires WellNested(n, inList)
    ensures Visible(TextContent(Restructure(n))) == Visible(TextContent(n))
    decreases n, 1
  {
    HoistChildrenText(n.children, IsList(n));
    if n.data.Text? {
      VisibleAppend(n.data.contents, TextSeq(HoistChildren(n.children, IsList(n), false)));
      VisibleAppend(n.data.contents, TextSeq(n.children));
    }
  }

  lemma {:induction false} HoistChildrenText(cs: seq<Node>, inList: bool)
    requires WellNestedSeq(cs, inList)
    ensures Visible(TextSeq(HoistChildren(cs, inList, false))) == Visible(TextSeq(cs))
    decreases cs, 0
  {
    if cs != [] {
      var c := cs[0];
      HoistChildrenText(cs[1..], inList);
      VisibleSeqAppend(HoistChild(c, inList, false), HoistChildren(cs[1..], inList, false));
      VisibleSeqCons(cs);
      HoistChildText(c, inList);
    }
  }

  lemma {:induction false} HoistChildText(c: Node, inList: bool)
    requires WellNested(c, inList)
    ensures Visible(TextSeq(HoistChild(c, inList, false))) == Visible(TextContent(c))
    decreases c, 2
  {
    if inList && IsLi(c) {
      var kept := Kept(c.children, false);
      var nested := Nested(c.children, false);
      KeptNestedText(c.children);
      var li := Node(c.data, kept);
      VisibleSeqAppend([li], nested);
      TextOfOne(li);
    } else {
      RestructureText(c, inList);
      TextOfOne(Hoist(c, false));
    }
  }

  lemma {:induction false} KeptNestedText(cs: seq<Node>)
    requires ListsTrail(cs) && WellNestedSeq(cs, false)
    ensures Visible(TextSeq(Kept(cs, false))) + Visible(TextSeq(Nested(cs, false))) == Visible(TextSeq(cs))
    decreases cs, 1
  {
    if cs != [] {
      var c := cs[0];
      VisibleSeqCons(cs);
      if IsList(c) {
        AllListsText(cs);
      } else {
        var k, m := Kept(cs[1..], false), Nested(cs[1..], false);
        var h := [Hoist(c, false)];
        assert ListsTrail(cs[1..]) by {
          forall i, j | 0 <= i < j < |cs| - 1 && IsList(cs[1..][i])
            ensures IsList(cs[1..][j]) || IsLineBreaks(cs[1..][j])
          {
            assert cs[1..][i] == cs[i + 1] && cs[1..][j] == cs[j + 1];
          }
        }
        KeptNestedText(cs[1..]);
        RestructureText(c, false);
        TextOfOne(Hoist(c, false));
        assert Kept(cs, false) == h + k && Nested(cs, false) == m;
        VisibleSeqAppend(h, k);
        StringAssoc(Visible(TextContent(c)), Visible(TextSeq(k)), Visible(TextSeq(m)));
      }
    }
  }

  lemma StringAssoc(a: string, b: string, c: string)
    ensures a + b + c == a + (b + c)
  {
  }

  /** Children from the first nested list on: the lists move out whole and
      the line feeds between them stay behind, showing nothing. */
  lemma {:induction false} AllListsText(cs: seq<Node>)
    requires forall i | 0 <= i < |cs| :: IsList(cs[i]) || IsLineBreaks(cs[i])
    requires WellNestedSeq(cs, false)
    ensures Visible(TextSeq(Kept(cs, false))) == []
    ensures Visible(TextSeq(Nested(cs, false))) == Visible(TextSeq(cs))
    decreases cs, 0
  {
    if cs != [] {
      var c := cs[0];
      var h := [Hoist(c, false)];
      AllListsText(cs[1..]);
      VisibleSeqCons(cs);
      TextOfOne(Hoist(c, false));
      if IsList(c) {
        RestructureText(c, false);
        assert Kept(cs, false) == Kept(cs[1..], false);
        assert Nested(cs, false) == h + Nested(cs[1..], false);
        VisibleSeqAppend(h, Nested(cs[1..], false));
      } else {
        LineBreaksInvisible(c);
        assert Kept(cs, false) == h + Kept(cs[1..], false);
        assert Nested(cs, false) == Nested(cs[1..], false);
        VisibleSeqAppend(h, Kept(cs[1..], false));
      }
    }
  }

  // ----- where the two placements agree -----

  /** Every `<li>` of a list in the subtree has at most one list child. */
  predicate FewNested(n: Node, inList: bool)
    decreases n, 1
  {
    (inList && IsLi(n) ==> |ListChildren(n.children)| <= 1) && FewNestedSeq(n.children, IsList(n))
  }

  predicate FewNestedSeq(cs: seq<Node>, inList: bool)
    decreases cs, 0
  {
    cs == [] || (FewNested(cs[0], inList) && FewNestedSeq(cs[1..], inList))
  }

  /** When no `<li>` holds two lists, the source's placement is the
      document-order one. */
  lemma {:induction false} HoistAgree(n: Node, inList: bool)
    requires FewNested(n, inList)
    ensures RestructureAsWritten(n) == Restructure(n)
    decreases n, 1
  {
    HoistChildrenAgree(n.children, IsList(n));
  }

  lemma {:induction false} HoistChildrenAgree(cs: seq<Node>, inList: bool)
    requires FewNestedSeq(cs, inList)
    ensures HoistChildren(cs, inList, true) == HoistChildren(cs, inList, false)
    decreases cs, 0
  {
    if cs != [] {
      var c := cs[0];
      HoistChildrenAgree(cs[1..], inList);
      if inList && IsLi(c) {
        KeptNestedAgree(c.children);
        var nested := Nested(c.children, false);
        InsertEachReverses([], nested);
        assert Rev(nested) + [] == nested;
      } else {
        HoistAgree(c, inList);
      }
    }
  }

  lemma {:induction false} KeptNestedAgree(cs: seq<Node>)
    requires FewNestedSeq(cs, false)
    ensures Kept(cs, true) == Kept(cs, false)
    ensures Nested(cs, true) == Nested(cs, false)
    ensures |Nested(cs, false)| == |ListChildren(cs)|
    decreases cs, 0
  {
    if cs != [] {
      HoistAgree(cs[0], false);
      KeptNestedAgree(cs[1..]);
    }
  }

  // ----- several lists in one <li> -----

  function Leaf(text: string): Node {
    Node(Text(text), [])
  }

  function Elem(name: string, children: seq<Node>): Node {
    Node(Element(name, []), children)
  }

  /** `<ul><li>a<ul><li>x</li></ul><ol><li>y</li></ol></li></ul>`, the HTML of
      a list item holding two sub-lists. */
  function TwoSubLists(): Node {
    Elem("ul", [Elem("li", [Leaf("a"), Elem("ul", [Elem("li", [Leaf("x")])]),
                                      Elem("ol", [Elem("li", [Leaf("y")])])])])
  }

  lemma TextOfOne(n: Node)
    ensures TextSeq([n]) == TextContent(n)
  {
    assert [n][1..] == [];
  }

  lemma TextOfThree(a: Node, b: Node, c: Node)
    ensures TextSeq([a, b, c]) == TextContent(a) + TextContent(b) + TextContent(c)
  {
    assert [a, b, c][1..] == [b, c];
    assert [b, c][1..] == [c];
    TextOfOne(c);
  }

  /** The text of a one-item list. */
  lemma SubListText(name: string, t: string)
    ensures TextContent(Elem(name, [Elem("li", [Leaf(t)])])) == t
  {
    TextOfOne(Leaf(t));
    assert TextContent(Leaf(t)) == t + "";
    TextOfOne(Elem("li", [Leaf(t)]));
  }

  lemma SplitCons(c: Node, rest: seq<Node>, asWritten: bool)
    ensures Kept([c] + rest, asWritten)
            == (if IsList(c) then [] else [Hoist(c, asWritten)]) + Kept(rest, asWritten)
    ensures Nested([c] + rest, asWritten)
            == (if IsList(c) then [Hoist(c, asWritten)] else []) + Nested(rest, asWritten)
  {
    assert ([c] + rest)[0] == c && ([c] + rest)[1..] == rest;
  }

  /** The kept and the nested children of the item of `TwoSubLists`. */
  lemma ItemSplit(x: Node, y: Node, asWritten: bool)
    requires x == Elem("ul", [Elem("li", [Leaf("x")])]) && y == Elem("ol", [Elem("li", [Leaf("y")])])
    ensures Kept([Leaf("a"), x, y], asWritten) == [Leaf("a")]
    ensures Nested([Leaf("a"), x, y], asWritten) == [x, y]
  {
    HoistFixesFlat(x, asWritten, false);
    HoistFixesFlat(y, asWritten, false);
    HoistFixesFlat(Leaf("a"), asWritten, false);
    SplitThree(Leaf("a"), x, y, asWritten);
  }

  lemma SplitThree(a: Node, x: Node, y: Node, asWritten: bool)
    requires !IsList(a) && IsList(x) && IsList(y)
    requires Hoist(a, asWritten) == a && Hoist(x, asWritten) == x && Hoist(y, asWritten) == y
    ensures Kept([a, x, y], asWritten) == [a]
    ensures Nested([a, x, y], asWritten) == [x, y]
  {
    SplitCons(y, [], asWritten);
    SplitCons(x, [y], asWritten);
    SplitCons(a, [x, y], asWritten);
    assert [y] + [] == [y] && [x] + [y] == [x, y] && [a] + [x, y] == [a, x, y];
  }

  /** How the source lays out the item of `TwoSubLists`. */
  lemma TwoSubListsMoved(x: Node, y: Node, li: Node)
    requires x == Elem("ul", [Elem("li", [Leaf("x")])]) && y == Elem("ol", [Elem("li", [Leaf("y")])])
    requires li == Elem("li", [Leaf("a"), x, y])
    ensures HoistChildren([li], true, true) == [Elem("li", [Leaf("a")]), y, x]
  {
    ItemSplit(x, y, true);
    assert InsertEachAfterLi([], [x, y]) == [y, x] by {
      InsertEachReverses([], [x, y]);
      assert Rev([x, y]) + [] == [y, x];
    }
    assert HoistChild(li, true, true) == [Elem("li", [Leaf("a")])] + [y, x];
    assert [li][1..] == [];
  }

  lemma TwoSubListsNested()
    ensures WellNested(TwoSubLists(), false)
  {
    var x := Elem("ul", [Elem("li", [Leaf("x")])]);
    var y := Elem("ol", [Elem("li", [Leaf("y")])]);
    var li := Elem("li", [Leaf("a"), x, y]);
    SubListNested("ul", "x");
    SubListNested("ol", "y");
    LeafNested("a", false);
    ItemNested(Leaf("a"), x, y);
    OneNested(li, true);
    assert TwoSubLists() == Elem("ul", [li]);
  }

  lemma LeafNested(t: string, inList: bool)
    ensures WellNested(Leaf(t), inList)
  {
  }

  lemma OneNested(n: Node, inList: bool)
    requires WellNested(n, inList)
    ensures WellNestedSeq([n], inList)
  {
    assert [n][1..] == [];
  }

  /** A one-item list holding one text is well nested. */
  lemma SubListNested(name: string, t: string)
    requires name == "ul" || name == "ol"
    ensures WellNested(Elem(name, [Elem("li", [Leaf(t)])]), false)
  {
    var li := Elem("li", [Leaf(t)]);
    LeafNested(t, false);
    OneNested(Leaf(t), false);
    assert ListsTrail(li.children);
    assert WellNested(li, true);
    OneNested(li, true);
    assert IsList(Elem(name, [li]));
  }

  /** An item whose text comes before its two sub-lists is well nested. */
  lemma ItemNested(a: Node, x: Node, y: Node)
    requires !IsList(a) && IsList(x) && IsList(y)
    requires WellNested(a, false) && WellNested(x, false) && WellNested(y, false)
    ensures WellNested(Elem("li", [a, x, y]), true)
  {
    var cs := [a, x, y];
    assert ListsTrail(cs);
    OneNested(y, false);
    assert cs[1..][1..] == [y];
    assert cs[1..] == [x, y];
    assert WellNestedSeq(cs, false);
  }

  /** `- a` with the sub-list `- x`, as the HTML renderer writes it and the
      parser reads it back: `<ul>\n<li>a\n<ul>\n<li>x</li>\n</ul>\n</li>\n</ul>`,
      line-feed text nodes included. */
  function RenderedSubList(): Node {
    var inner := Elem("ul", [Leaf("\n"), Elem("li", [Leaf("x")]), Leaf("\n")]);
    Elem("ul", [Leaf("\n"), Elem("li", [Leaf("a\n"), inner, Leaf("\n")]), Leaf("\n")])
  }

  /** The line feed after a rendered sub-list does not stop the text-order
      guarantee from applying. */
  lemma RenderedSubListNested()
    ensures WellNested(RenderedSubList(), false)
    ensures Visible(TextContent(Restructure(RenderedSubList()))) == Visible(TextContent(RenderedSubList()))
  {
    RenderedIsNested();
    RestructureText(RenderedSubList(), false);
  }

  lemma RenderedIsNested()
    ensures WellNested(RenderedSubList(), false)
  {
    var x := Elem("li", [Leaf("x")]);
    var inner := Elem("ul", [Leaf("\n"), x, Leaf("\n")]);
    var li := Elem("li", [Leaf("a\n"), inner, Leaf("\n")]);
    PlainItemNested("x");
    PaddedList("ul", x);
    SubListThenBreak("a\n", inner);
    PaddedList("ul", li);
  }

  lemma PlainItemNested(t: string)
    ensures WellNested(Elem("li", [Leaf(t)]), true)
  {
    LeafNested(t, false);
    OneNested(Leaf(t), false);
  }

  /** A rendered list of one item, with its line feeds around the item. */
  lemma PaddedList(name: string, item: Node)
    requires name == "ul" || name == "ol"
    requires WellNested(item, true)
    ensures WellNested(Elem(name, [Leaf("\n"), item, Leaf("\n")]), false)
  {
    LeafNested("\n", true);
    ThreeNested(Leaf("\n"), item, Leaf("\n"), true);
  }

  /** A rendered item: its text, its sub-list and the line feed after it. */
  lemma SubListThenBreak(t: string, sub: Node)
    requires IsList(sub) && WellNested(sub, false)
    ensures WellNested(Elem("li", [Leaf(t), sub, Leaf("\n")]), true)
  {
    var cs := [Leaf(t), sub, Leaf("\n")];
    assert IsLineBreaks(Leaf("\n"));
    assert ListsTrail(cs);
    LeafNested(t, false);
    LeafNested("\n", false);
    ThreeNested(Leaf(t), sub, Leaf("\n"), false);
  }

  lemma ThreeNested(a: Node, b: Node, c: Node, inList: bool)
    requires WellNested(a, inList) && WellNested(b, inList) && WellNested(c, inList)
    ensures WellNestedSeq([a, b, c], inList)
  {
    OneNested(c, inList);
    assert [a, b, c][1..] == [b, c] && [b, c][1..] == [c];
  }

  lemma TwoSubListsText()
    ensures TextContent(TwoSubLists()) == "axy"
  {
    var x := Elem("ul", [Elem("li", [Leaf("x")])]);
    var y := Elem("ol", [Elem("li", [Leaf("y")])]);
    var li := Elem("li", [Leaf("a"), x, y]);
    SubListText("ul", "x");
    SubListText("ol", "y");
    assert TextContent(Leaf("a")) == "a" + "";
    TextOfThree(Leaf("a"), x, y);
    TextOfOne(li);
    assert TwoSubLists().children == [li];
  }

  lemma AsWrittenText()
    ensures TextContent(RestructureAsWritten(TwoSubLists())) == "ayx"
  {
    HoistedText();
  }

  lemma HoistedText()
    ensures TextContent(Hoist(TwoSubLists(), true)) == "ayx"
  {
    var x := Elem("ul", [Elem("li", [Leaf("x")])]);
    var y := Elem("ol", [Elem("li", [Leaf("y")])]);
    var a := Elem("li", [Leaf("a")]);
    var li := Elem("li", [Leaf("a"), x, y]);
    assert TwoSubLists() == Elem("ul", [li]);
    TwoSubListsMoved(x, y, li);
    assert Hoist(TwoSubLists(), true) == Elem("ul", [a, y, x]);
    SubListText("ul", "x");
    SubListText("ol", "y");
    ItemText("a");
    TextOfThree(a, y, x);
    ElemText("ul", [a, y, x], "a" + "y" + "x");
  }

  lemma ItemText(t: string)
    ensures TextContent(Elem("li", [Leaf(t)])) == t
  {
    TextOfOne(Leaf(t));
    assert TextContent(Leaf(t)) == t + "";
    TextOfOne(Elem("li", [Leaf(t)]));
  }

  lemma ElemText(name: string, cs: seq<Node>, t: string)
    requires TextSeq(cs) == t
    ensures TextContent(Elem(name, cs)) == t
  {
  }

  /** Moving the two sub-lists as the source does puts the second one first:
      the text reads "ayx" instead of "axy". The corrected pass keeps it. */
  lemma AsWrittenSwapsSubLists()
    ensures WellNested(TwoSubLists(), false)
    ensures TextContent(TwoSubLists()) == "axy"
    ensures TextContent(RestructureAsWritten(TwoSubLists())) == "ayx"
    ensures TextContent(Restructure(TwoSubLists())) == "axy"
  {
    TwoSubListsNested();
    TwoSubListsText();
    AsWrittenText();
    CorrectedText();
  }

  lemma CorrectedText()
    ensures TextContent(Restructure(TwoSubLists())) == "axy"
  {
    HoistedInOrder();
  }

  lemma HoistedInOrder()
    ensures TextContent(Hoist(TwoSubLists(), false)) == "axy"
  {
    var x := Elem("ul", [Elem("li", [Leaf("x")])]);
    var y := Elem("ol", [Elem("li", [Leaf("y")])]);
    var a := Elem("li", [Leaf("a")]);
    var li := Elem("li", [Leaf("a"), x, y]);
    assert TwoSubLists() == Elem("ul", [li]);
    TwoSubListsKeptInOrder(x, y, li);
    assert Hoist(TwoSubLists(), false) == Elem("ul", [a, x, y]);
    SubListText("ul", "x");
    SubListText("ol", "y");
    ItemText("a");
    TextOfThree(a, x, y);
    ElemText("ul", [a, x, y], "a" + "x" + "y");
  }

  /** How the corrected pass lays out the item of `TwoSubLists`. */
  lemma TwoSubListsKeptInOrder(x: Node, y: Node, li: Node)
    requires x == Elem("ul", [Elem("li", [Leaf("x")])]) && y == Elem("ol", [Elem("li", [Leaf("y")])])
    requires li == Elem("li", [Leaf("a"), x, y])
    ensures HoistChildren([li], true, false) == [Elem("li", [Leaf("a")]), x, y]
  {
    ItemSplit(x, y, false);
    assert HoistChild(li, true, false) == [Elem("li", [Leaf("a")])] + [x, y];
    assert [li][1..] == [];
  }

  // ----- text after a nested list -----

  /** A loose item with a paragraph after its sub-list, the Markdown
      `- a\n  - b\n\n  c`, as the HTML renderer writes it:
      `<ul>\n<li>\n<p>a</p>\n<ul>\n<li>b</li>\n</ul>\n<p>c</p>\n</li>\n</ul>`. */
  function LooseItem(): Node {
    var sub := Elem("ul", [Leaf("\n"), Elem("li", [Leaf("b")]), Leaf("\n")]);
    var li := Elem("li", [Leaf("\n"), Elem("p", [Leaf("a")]), Leaf("\n"), sub,
                          Leaf("\n"), Elem("p", [Leaf("c")]), Leaf("\n")]);
    Elem("ul", [Leaf("\n"), li, Leaf("\n")])
  }

  /** The paragraph after the sub-list puts the loose item outside the
      documents whose text order the list pass keeps. */
  lemma LooseItemNotNested()
    ensures !WellNested(LooseItem(), false)
  {
    var sub := Elem("ul", [Leaf("\n"), Elem("li", [Leaf("b")]), Leaf("\n")]);
    var cs := [Leaf("\n"), Elem("p", [Leaf("a")]), Leaf("\n"), sub,
               Leaf("\n"), Elem("p", [Leaf("c")]), Leaf("\n")];
    NotNestedAt(cs, 3, 5);
    ThreeNotNested(Leaf("\n"), Elem("li", cs), Leaf("\n"));
    assert LooseItem() == Elem("ul", [Leaf("\n"), Elem("li", cs), Leaf("\n")]);
  }

  /** An item with something other than line feeds after a list child. */
  lemma NotNestedAt(cs: seq<Node>, i: nat, j: nat)
    requires i < j < |cs| && IsList(cs[i]) && !IsList(cs[j]) && !IsLineBreaks(cs[j])
    ensures !WellNested(Elem("li", cs), true)
  {
    assert !ListsTrail(cs);
  }

  lemma ThreeNotNested(a: Node, b: Node, c: Node)
    requires !WellNested(b, true)
    ensures !WellNested(Elem("ul", [a, b, c]), false)
  {
    assert [a, b, c][1..] == [b, c] && [b, c][0] == b;
    assert !WellNestedSeq([b, c], true);
  }

  /** The same item with its line feeds left out. */
  function ParagraphAfterSubList(): Node {
    Elem("ul", [Elem("li", [Elem("p", [Leaf("a")]), Elem("ul", [Elem("li", [Leaf("b")])]),
                            Elem("p", [Leaf("c")])])])
  }

  /** Either placement moves the sub-list behind the paragraph that followed
      it: the text "abc" comes out as "acb". */
  lemma ParagraphAfterSubListMoved(asWritten: bool)
    ensures !WellNested(ParagraphAfterSubList(), false)
    ensures TextContent(ParagraphAfterSubList()) == "abc"
    ensures TextContent(Hoist(ParagraphAfterSubList(), asWritten)) == "acb"
  {
    var pa := Elem("p", [Leaf("a")]);
    var sub := Elem("ul", [Elem("li", [Leaf("b")])]);
    var pc := Elem("p", [Leaf("c")]);
    assert ParagraphAfterSubList() == Elem("ul", [Elem("li", [pa, sub, pc])]);
    ParagraphAfterNotNested(pa, sub, pc);
    ParagraphAfterText(pa, sub, pc);
    ParagraphAfterHoisted(pa, sub, pc, asWritten);
  }

  lemma ParagraphAfterNotNested(pa: Node, sub: Node, pc: Node)
    requires IsList(sub) && !IsList(pc) && !IsLineBreaks(pc)
    ensures !WellNested(Elem("ul", [Elem("li", [pa, sub, pc])]), false)
  {
    NotNestedAt([pa, sub, pc], 1, 2);
    assert [Elem("li", [pa, sub, pc])][0] == Elem("li", [pa, sub, pc]);
  }

  lemma ParagraphAfterText(pa: Node, sub: Node, pc: Node)
    requires pa == Elem("p", [Leaf("a")]) && pc == Elem("p", [Leaf("c")])
    requires sub == Elem("ul", [Elem("li", [Leaf("b")])])
    ensures TextContent(Elem("ul", [Elem("li", [pa, sub, pc])])) == "abc"
  {
    OneLeafText("p", "a");
    OneLeafText("p", "c");
    SubListText("ul", "b");
    TextOfThree(pa, sub, pc);
    OneChildText("ul", Elem("li", [pa, sub, pc]));
  }

  lemma ParagraphAfterHoisted(pa: Node, sub: Node, pc: Node, asWritten: bool)
    requires pa == Elem("p", [Leaf("a")]) && pc == Elem("p", [Leaf("c")])
    requires sub == Elem("ul", [Elem("li", [Leaf("b")])])
    ensures TextContent(Hoist(Elem("ul", [Elem("li", [pa, sub, pc])]), asWritten)) == "acb"
  {
    ParagraphAfterShape(pa, sub, pc, asWritten);
    MovedText(pa, sub, pc);
  }

  lemma ParagraphAfterShape(pa: Node, sub: Node, pc: Node, asWritten: bool)
    requires pa == Elem("p", [Leaf("a")]) && pc == Elem("p", [Leaf("c")])
    requires sub == Elem("ul", [Elem("li", [Leaf("b")])])
    ensures Hoist(Elem("ul", [Elem("li", [pa, sub, pc])]), asWritten) == Elem("ul", [Elem("li", [pa, pc]), sub])
  {
    LeafElemFixed("p", "a", asWritten);
    LeafElemFixed("p", "c", asWritten);
    OneItemFixed("ul", "b", asWritten);
    ItemMoved(pa, sub, pc, asWritten);
  }

  /** An element holding one text is left as it is. */
  lemma LeafElemFixed(name: string, t: string, asWritten: bool)
    ensures Hoist(Elem(name, [Leaf(t)]), asWritten) == Elem(name, [Leaf(t)])
  {
    assert [Leaf(t)][1..] == [];
    assert FlatIn(Leaf(t), IsList(Elem(name, [Leaf(t)])));
    HoistFixesFlat(Elem(name, [Leaf(t)]), asWritten, false);
  }

  /** A one-item list holding one text is left as it is. */
  lemma OneItemFixed(name: string, t: string, asWritten: bool)
    ensures Hoist(Elem(name, [Elem("li", [Leaf(t)])]), asWritten) == Elem(name, [Elem("li", [Leaf(t)])])
  {
    var item := Elem("li", [Leaf(t)]);
    var inList := IsList(Elem(name, [item]));
    assert [item][1..] == [];
    assert HoistChildren([item], inList, asWritten) == HoistChild(item, inList, asWritten) + [];
    if inList {
      KeptNestedFixFlat([Leaf(t)], asWritten);
      assert Placed([], asWritten) == [];
      assert HoistChild(item, inList, asWritten) == [item];
    } else {
      LeafElemFixed("li", t, asWritten);
    }
  }

  lemma MovedText(pa: Node, sub: Node, pc: Node)
    requires pa == Elem("p", [Leaf("a")]) && pc == Elem("p", [Leaf("c")])
    requires sub == Elem("ul", [Elem("li", [Leaf("b")])])
    ensures TextContent(Elem("ul", [Elem("li", [pa, pc]), sub])) == "acb"
  {
    var moved := Elem("li", [pa, pc]);
    OneLeafText("p", "a");
    OneLeafText("p", "c");
    SubListText("ul", "b");
    TextOfTwo(pa, pc);
    TextOfTwo(moved, sub);
    ElemText("ul", [moved, sub], "a" + "c" + "b");
  }

  /** An item whose one list child sits between two other children. */
  lemma ItemMoved(a: Node, x: Node, c: Node, asWritten: bool)
    requires !IsList(a) && IsList(x) && !IsList(c)
    requires Hoist(a, asWritten) == a && Hoist(x, asWritten) == x && Hoist(c, asWritten) == c
    ensures Hoist(Elem("ul", [Elem("li", [a, x, c])]), asWritten) == Elem("ul", [Elem("li", [a, c]), x])
  {
    var li := Elem("li", [a, x, c]);
    SplitCons(c, [], asWritten);
    SplitCons(x, [c], asWritten);
    SplitCons(a, [x, c], asWritten);
    assert [c] + [] == [c] && [x] + [c] == [x, c] && [a] + [x, c] == [a, x, c];
    assert Kept([a, x, c], asWritten) == [a, c];
    assert Nested([a, x, c], asWritten) == [x];
    PlacedOne(x, asWritten);
    assert HoistChild(li, true, asWritten) == [Elem("li", [a, c])] + [x];
    assert [li][1..] == [];
    assert HoistChildren([li], true, asWritten) == HoistChild(li, true, asWritten) + [];
  }

  lemma PlacedOne(x: Node, asWritten: bool)
    ensures Placed([x], asWritten) == [x]
  {
    if asWritten {
      assert [x][1..] == [] && [x] + [] == [x];
      assert InsertEachAfterLi([], [x]) == InsertEachAfterLi([x], []);
    }
  }

  lemma OneChildText(name: string, n: Node)
    ensures TextContent(Elem(name, [n])) == TextContent(n)
  {
    TextOfOne(n);
  }

  lemma OneLeafText(name: string, t: string)
    ensures TextContent(Elem(name, [Leaf(t)])) == t
  {
    TextOfOne(Leaf(t));
    assert TextContent(Leaf(t)) == t + "";
  }

  lemma TextOfTwo(a: Node, b: Node)
    ensures TextSeq([a, b]) == TextContent(a) + TextContent(b)
  {
    assert [a, b][1..] == [b];
    TextOfOne(b);
  }

  // ----- four levels of nesting -----

  function Item(text: string): Node {
    Elem("li", [Leaf(text)])
  }

  /** An item whose text is followed by one sub-list. */
  function ItemWith(text: string, sub: Node): Node {
    Elem("li", [Leaf(text), sub])
  }

  /** The list structure of the repository's nested-list tests: four levels
      deep, `name` being "ol" for the ordered test and "ul" for the unordered
      one. The line-feed text nodes the HTML renderer writes between the
      elements are left out. */
  function FourLevels(name: string): Node {
    var level4 := Elem(name, [Item("四级列表测试")]);
    var level3 := Elem(name, [ItemWith("三级列表测试", level4)]);
    var level2 := Elem(name, [Item("测试一下！"), ItemWith("测试二级列表", level3)]);
    Elem(name, [ItemWith("一级测试", level2), Item("这是一个测试"), Item("hellbchqwleld"), Item("snwebqw")])
  }

  /** The structure the tests expect after cleaning: each sub-list right
      after the item that held it. */
  function FourLevelsExpected(name: string): Node {
    var level4 := Elem(name, [Item("四级列表测试")]);
    var level3 := Elem(name, [Item("三级列表测试"), level4]);
    var level2 := Elem(name, [Item("测试一下！"), Item("测试二级列表"), level3]);
    Elem(name, [Item("一级测试"), level2, Item("这是一个测试"), Item("hellbchqwleld"), Item("snwebqw")])
  }

  lemma PlainItem(text: string, asWritten: bool)
    ensures HoistChild(Item(text), true, asWritten) == [Item(text)]
  {
    SplitCons(Leaf(text), [], asWritten);
    assert [Leaf(text)] + [] == [Leaf(text)];
  }

  lemma SubListItem(text: string, sub: Node, asWritten: bool)
    requires IsList(sub)
    ensures HoistChild(ItemWith(text, sub), true, asWritten) == [Item(text), Hoist(sub, asWritten)]
  {
    var cs, h := [Leaf(text), sub], Hoist(sub, asWritten);
    SplitCons(sub, [], asWritten);
    SplitCons(Leaf(text), [sub], asWritten);
    assert [sub] + [] == [sub] && [Leaf(text)] + [sub] == cs;
    assert Hoist(Leaf(text), asWritten) == Leaf(text);
    assert Kept(cs, asWritten) == [Leaf(text)];
    assert Nested(cs, asWritten) == [h];
    InsertEachReverses([], [h]);
    assert Rev([h]) + [] == [h];
  }

  lemma ChildrenCons(c: Node, rest: seq<Node>, asWritten: bool)
    ensures HoistChildren([c] + rest, true, asWritten) == HoistChild(c, true, asWritten) + HoistChildren(rest, true, asWritten)
  {
    assert ([c] + rest)[1..] == rest;
  }

  /** A list is processed item by item. */
  lemma ListOfOne(name: string, a: Node, ra: seq<Node>, asWritten: bool)
    requires name == "ul" || name == "ol"
    requires HoistChild(a, true, asWritten) == ra
    ensures Hoist(Elem(name, [a]), asWritten) == Elem(name, ra)
  {
    ChildrenCons(a, [], asWritten);
    assert [a] + [] == [a];
  }

  lemma ListOfTwo(name: string, a: Node, b: Node, ra: seq<Node>, rb: seq<Node>, asWritten: bool)
    requires name == "ul" || name == "ol"
    requires HoistChild(a, true, asWritten) == ra && HoistChild(b, true, asWritten) == rb
    ensures Hoist(Elem(name, [a, b]), asWritten) == Elem(name, ra + rb)
  {
    ChildrenCons(b, [], asWritten);
    ChildrenCons(a, [b], asWritten);
    assert [b] + [] == [b] && [a] + [b] == [a, b];
  }

  lemma ListOfFour(name: string, a: Node, b: Node, c: Node, d: Node, ra: seq<Node>, asWritten: bool)
    requires name == "ul" || name == "ol"
    requires HoistChild(a, true, asWritten) == ra
    requires HoistChild(b, true, asWritten) == [b] && HoistChild(c, true, asWritten) == [c]
    requires HoistChild(d, true, asWritten) == [d]
    ensures Hoist(Elem(name, [a, b, c, d]), asWritten) == Elem(name, ra + [b, c, d])
  {
    ChildrenCons(d, [], asWritten);
    ChildrenCons(c, [d], asWritten);
    ChildrenCons(b, [c, d], asWritten);
    ChildrenCons(a, [b, c, d], asWritten);
    assert [d] + [] == [d] && [c] + [d] == [c, d] && [b] + [c, d] == [b, c, d] && [a] + [b, c, d] == [a, b, c, d];
  }

  /** Both placements turn the four-level list of the tests into the
      expected structure: every `<li>` holds at most one list there. */
  lemma FourLevelsRestructured(name: string)
    requires name == "ul" || name == "ol"
    ensures Restructure(FourLevels(name)) == FourLevelsExpected(name)
    ensures RestructureAsWritten(FourLevels(name)) == FourLevelsExpected(name)
  {
    FourLevelsHoisted(name, false);
    FourLevelsHoisted(name, true);
  }

  lemma FourLevelsHoisted(name: string, asWritten: bool)
    requires name == "ul" || name == "ol"
    ensures Hoist(FourLevels(name), asWritten) == FourLevelsExpected(name)
  {
    var level4 := Elem(name, [Item("四级列表测试")]);
    var level3 := Elem(name, [ItemWith("三级列表测试", level4)]);
    var flat3 := Elem(name, [Item("三级列表测试"), level4]);
    var level2 := Elem(name, [Item("测试一下！"), ItemWith("测试二级列表", level3)]);
    var flat2 := Elem(name, [Item("测试一下！"), Item("测试二级列表"), flat3]);
    LevelThree(name, "三级列表测试", "四级列表测试", asWritten);
    LevelTwo(name, "测试一下！", "测试二级列表", level3, flat3, asWritten);
    LevelOne(name, "一级测试", level2, flat2, "这是一个测试", "hellbchqwleld", "snwebqw", asWritten);
  }

  lemma LevelThree(name: string, t: string, u: string, asWritten: bool)
    requires name == "ul" || name == "ol"
    ensures var sub := Elem(name, [Item(u)]);
            Hoist(Elem(name, [ItemWith(t, sub)]), asWritten) == Elem(name, [Item(t), sub])
  {
    var sub := Elem(name, [Item(u)]);
    PlainItem(u, asWritten);
    ListOfOne(name, Item(u), [Item(u)], asWritten);
    SubListItem(t, sub, asWritten);
    ListOfOne(name, ItemWith(t, sub), [Item(t), sub], asWritten);
  }

  lemma LevelTwo(name: string, t: string, u: string, sub: Node, flat: Node, asWritten: bool)
    requires name == "ul" || name == "ol"
    requires IsList(sub) && Hoist(sub, asWritten) == flat
    ensures Hoist(Elem(name, [Item(t), ItemWith(u, sub)]), asWritten) == Elem(name, [Item(t), Item(u), flat])
  {
    PlainItem(t, asWritten);
    SubListItem(u, sub, asWritten);
    ListOfTwo(name, Item(t), ItemWith(u, sub), [Item(t)], [Item(u), flat], asWritten);
    assert [Item(t)] + [Item(u), flat] == [Item(t), Item(u), flat];
  }

  lemma LevelOne(name: string, t: string, sub: Node, flat: Node, b: string, c: string, d: string, asWritten: bool)
    requires name == "ul" || name == "ol"
    requires IsList(sub) && Hoist(sub, asWritten) == flat
    ensures Hoist(Elem(name, [ItemWith(t, sub), Item(b), Item(c), Item(d)]), asWritten)
            == Elem(name, [Item(t), flat, Item(b), Item(c), Item(d)])
  {
    SubListItem(t, sub, asWritten);
    PlainItem(b, asWritten);
    PlainItem(c, asWritten);
    PlainItem(d, asWritten);
    ListOfFour(name, ItemWith(t, sub), Item(b), Item(c), Item(d), [Item(t), flat], asWritten);
    assert [Item(t), flat] + [Item(b), Item(c), Item(d)] == [Item(t), flat, Item(b), Item(c), Item(d)];
  }
}
