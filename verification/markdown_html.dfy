/** The HTML fragments `MarkdownEventProcessor` builds: math images, image
    tags, `<pre>` tags and tables. */
module MarkdownHtml {
  import Strings

  // ----- math -----

  predicate IsLineBreak(c: char) {
    c == '\n' || c == '\r'
  }

  /** The equation text with every line feed and carriage return removed. */
  function Equation(text: string): (eq: string)
    ensures forall i | 0 <= i < |eq| :: !IsLineBreak(eq[i])
    ensures forall c | !IsLineBreak(c) :: multiset(eq)[c] == multiset(text)[c]
    ensures (forall i | 0 <= i < |text| :: !IsLineBreak(text[i])) ==> eq == text
  {
    Strings.RemoveWhereKeeps(text, IsLineBreak);
    Strings.RemoveWhere(text, IsLineBreak)
  }

  /** The equation is built character by character, in order: each line
      break is dropped and every other character stays where it was. The two
      facts together determine `Equation` on every string. */
  lemma EquationInOrder(a: string, b: string, c: char)
    ensures Equation(a + b) == Equation(a) + Equation(b)
    ensures Equation([c]) == if IsLineBreak(c) then [] else [c]
  {
    Strings.RemoveWhereAppend(a, b, IsLineBreak);
    Strings.RemoveWhereOne(c, IsLineBreak);
  }

  const MathOpen := "<img eeimg=\"1\" src=\"//www.zhihu.com/equation?tex="
  const MathBetween := "\" alt=\""
  const MathClose := "\"/>"
  /** Two backslashes, the line-end mark display math carries. */
  const DisplayMark := "\\\\"

  /** The formula as the image carries it. */
  function Tex(text: string, display: bool): string {
    if display then Equation(text) + DisplayMark else Equation(text)
  }

  /** The `<img>` that stands for a formula. */
  function MathImg(text: string, display: bool): string {
    MathOpen + Tex(text, display) + MathBetween + Tex(text, display) + MathClose
  }

  /** The cleaned equation, followed by two backslashes for display math, is
      both the `tex` query of `src` and the `alt` text, and holds no line
      break. */
  lemma MathImgShape(text: string, display: bool)
    ensures var tex := Equation(text) + (if display then DisplayMark else "");
            && MathImg(text, display) == MathOpen + tex + MathBetween + tex + MathClose
            && (forall i | 0 <= i < |tex| :: !IsLineBreak(tex[i]))
  {
    var eq := Equation(text);
    MarkedNoBreak(eq, display);
    NilUnit(eq);
  }

  lemma NilUnit(s: string)
    ensures s + "" == s
  {
  }

  lemma MarkedNoBreak(eq: string, display: bool)
    requires forall i | 0 <= i < |eq| :: !IsLineBreak(eq[i])
    ensures var tex := eq + (if display then DisplayMark else "");
            forall i | 0 <= i < |tex| :: !IsLineBreak(tex[i])
  {
    var mark := if display then DisplayMark else "";
    assert forall i | 0 <= i < |mark| :: !IsLineBreak(mark[i]);
    var tex := eq + mark;
    forall i | 0 <= i < |tex|
      ensures !IsLineBreak(tex[i])
    {
      if i >= |eq| {
        assert tex[i] == mark[i - |eq|];
      }
    }
  }

  // ----- images -----

  /** The Zhihu `<img>` for a Markdown image: the URL is both `src` and
      `data-original-src`, the collected alt text is `data-caption`. */
  function ImageHtml(url: string, caption: string): string {
    "<img src=\"" + url + "\" data-caption=\"" + caption
    + "\" data-size=\"normal\" data-watermark=\"watermark\" data-original-src=\"" + url
    + "\" data-watermark-src=\"\" data-private-watermark-src=\"\" />"
  }

  // ----- code blocks -----

  /** `char::is_whitespace`: the Unicode White_Space property. */
  predicate IsWhitespace(c: char) {
    var n := c as int;
    || 0x09 <= n <= 0x0D || n == 0x20 || n == 0x85 || n == 0xA0 || n == 0x1680
    || 0x2000 <= n <= 0x200A || n == 0x2028 || n == 0x2029 || n == 0x202F
    || n == 0x205F || n == 0x3000
  }

  /** `str::trim`: the text between the leading and the trailing whitespace. */
  function TrimWhitespace(s: string): string {
    Strings.TrimEndWhere(Strings.TrimStartWhere(s, IsWhitespace), IsWhitespace)
  }

  /** The trimmed text is the input with only whitespace cut from each end,
      and starts and ends with a non-whitespace character when non-empty. */
  lemma TrimWhitespaceSlice(s: string)
    ensures exists lead, trail ::
              && s == lead + TrimWhitespace(s) + trail
              && Strings.All(lead, IsWhitespace) && Strings.All(trail, IsWhitespace)
    ensures var r := TrimWhitespace(s);
            |r| == 0 || (!IsWhitespace(r[0]) && !IsWhitespace(r[|r| - 1]))
  {
    var lead, trail := Strings.TrimBothSlice(s, IsWhitespace);
    TrimWhitespaceEnds(s);
  }

  /** `TrimWhitespaceSlice` with the cut-off whitespace named. */
  lemma TrimWhitespaceSplit(s: string) returns (lead: string, trail: string)
    ensures s == lead + TrimWhitespace(s) + trail
    ensures Strings.All(lead, IsWhitespace) && Strings.All(trail, IsWhitespace)
    ensures var r := TrimWhitespace(s);
            |r| == 0 || (!IsWhitespace(r[0]) && !IsWhitespace(r[|r| - 1]))
  {
    lead, trail := Strings.TrimBothSlice(s, IsWhitespace);
    TrimWhitespaceEnds(s);
  }

  /** A non-empty trimmed text starts and ends with non-whitespace. */
  lemma TrimWhitespaceEnds(s: string)
    ensures var r := TrimWhitespace(s);
            |r| == 0 || (!IsWhitespace(r[0]) && !IsWhitespace(r[|r| - 1]))
  {
    var front := Strings.TrimStartWhere(s, IsWhitespace);
    var r := Strings.TrimEndWhere(front, IsWhitespace);
    if |r| > 0 {
      assert r[0] == front[0];
    }
  }

  function PreOpen(lang: string): string {
    "<pre lang=\"" + lang + "\">"
  }

  const PreClose := "</pre>"

  // ----- tables -----

  const TableOpen := "<table data-draft-node=\"block\" data-draft-type=\"table\" data-size=\"normal\"><tbody>"
  const TableClose := "</tbody></table>"

  /** Each cell wrapped in `open` ... `close`, in order. */
  function Cells(open: string, close: string, cells: seq<string>): string
    decreases |cells|
  {
    if cells == [] then ""
    else Cells(open, close, cells[..|cells| - 1]) + (open + cells[|cells| - 1] + close)
  }

  /** The header row, present only when there are headers. */
  function HeaderRow(headers: seq<string>): string {
    if |headers| == 0 then "" else "<tr>" + Cells("<th>", "</th>", headers) + "</tr>"
  }

  function BodyRow(row: seq<string>): string {
    "<tr>" + Cells("<td>", "</td>", row) + "</tr>"
  }

  /** One `<tr>` of `<td>`s per row, in order. */
  function BodyRows(rows: seq<seq<string>>): string
    decreases |rows|
  {
    if rows == [] then "" else BodyRows(rows[..|rows| - 1]) + BodyRow(rows[|rows| - 1])
  }

  /** The table a header list and row list render to. */
  function TableHtml(headers: seq<string>, rows: seq<seq<string>>): string {
    TableOpen + HeaderRow(headers) + BodyRows(rows) + TableClose
  }

  lemma {:induction false} CellsAppend(open: string, close: string, a: seq<string>, b: seq<string>)
    ensures Cells(open, close, a + b) == Cells(open, close, a) + Cells(open, close, b)
    decreases |b|
  {
    if b == [] {
      NilRight(a);
      NilRight(Cells(open, close, a));
    } else {
      var init := b[..|b| - 1];
      InitOfAppend(a, b);
      CellsAppend(open, close, a, init);
      StringAssoc(Cells(open, close, a), Cells(open, close, init), open + b[|b| - 1] + close);
    }
  }

  /** Rows render one after another: the body of `a + b` is the body of `a`
      followed by the body of `b`. */
  lemma {:induction false} BodyRowsAppend(a: seq<seq<string>>, b: seq<seq<string>>)
    ensures BodyRows(a + b) == BodyRows(a) + BodyRows(b)
    decreases |b|
  {
    if b == [] {
      NilRight(a);
      NilRight(BodyRows(a));
    } else {
      var init := b[..|b| - 1];
      InitOfAppend(a, b);
      BodyRowsAppend(a, init);
      StringAssoc(BodyRows(a), BodyRows(init), BodyRow(b[|b| - 1]));
    }
  }

  lemma NilRight<T>(a: seq<T>)
    ensures a + [] == a
  {
  }

  lemma InitOfAppend<T>(a: seq<T>, b: seq<T>)
    requires b != []
    ensures (a + b)[..|a + b| - 1] == a + b[..|b| - 1] && (a + b)[|a + b| - 1] == b[|b| - 1]
  {
  }

  lemma StringAssoc(a: string, b: string, c: string)
    ensures a + b + c == a + (b + c)
  {
  }

  /** A text between fixed tags, with an optional part in front of the body. */
  lemma Wrapped(open: string, head: string, body: string, close: string)
    ensures var t := open + (head + body) + close;
            && |t| >= |open| + |close|
            && t[..|open|] == open
            && t[|t| - |close|..] == close
    ensures open + (head + body) + close == open + body + close <==> head == []
  {
    var t := open + (head + body) + close;
    assert t[..|open|] == open;
    assert t[|t| - |close|..] == close;
    if open + (head + body) + close == open + body + close {
      assert |head| == 0;
    }
  }

  lemma HeaderRowEmpty(headers: seq<string>)
    ensures HeaderRow(headers) == [] <==> |headers| == 0
  {
  }

  /** The table is wrapped in the fixed opening and closing tags and has a
      header row exactly when there are headers. */
  lemma TableShape(headers: seq<string>, rows: seq<seq<string>>)
    ensures var t := TableHtml(headers, rows);
            && |t| >= |TableOpen| + |TableClose|
            && t[..|TableOpen|] == TableOpen
            && t[|t| - |TableClose|..] == TableClose
    ensures |headers| == 0 <==> TableHtml(headers, rows) == TableOpen + BodyRows(rows) + TableClose
  {
    var head, body := HeaderRow(headers), BodyRows(rows);
    Wrapped(TableOpen, head, body, TableClose);
    HeaderRowEmpty(headers);
    StringAssoc(TableOpen, head, body);
  }

  /** One table row as the inner `for` loop appends it: the opening tag, each
      cell wrapped in `open` ... `close`, the closing tag. */
  method AppendRow(open: string, close: string, cells: seq<string>) returns (html: string)
    ensures html == "<tr>" + Cells(open, close, cells) + "</tr>"
  {
    var acc := "";
    var i := 0;
    while i < |cells|
      invariant 0 <= i <= |cells|
      invariant acc == Cells(open, close, cells[..i])
    {
      assert cells[..i + 1][..i] == cells[..i];
      acc := acc + (open + cells[i] + close);
      i := i + 1;
    }
    assert cells[..|cells|] == cells;
    html := "<tr>" + acc + "</tr>";
  }

  /** `process_table`: the loops building the table string. */
  method ProcessTable(headers: seq<string>, rows: seq<seq<string>>) returns (html: string)
    ensures html == TableHtml(headers, rows)
  {
    var head := "";
    if |headers| > 0 {
      head := AppendRow("<th>", "</th>", headers);
    }
    var body := "";
    var i := 0;
    while i < |rows|
      invariant 0 <= i <= |rows|
      invariant body == BodyRows(rows[..i])
    {
      assert rows[..i + 1][..i] == rows[..i];
      var row := AppendRow("<td>", "</td>", rows[i]);
      body := body + row;
      i := i + 1;
    }
    assert rows[..|rows|] == rows;
    html := TableOpen + head + body + TableClose;
  }
}
