/** What the processor does to whole event streams: how runs compose, and the
    output of a table, an image and a code block as pulldown-cmark reports
    them. */
module MarkdownStreams {
  import opened Wrappers
  import opened MarkdownState
  import opened MarkdownHtml
  import opened MarkdownEvents

  predicate IsImageEvent(ev: Event) {
    (ev.Start? && ev.tag.ImageTag?) || ev == End(ImageEnd)
  }

  predicate NoImageEvents(evs: seq<Event>) {
    forall i | 0 <= i < |evs| :: !IsImageEvent(evs[i])
  }

  predicate AllBlank(out: seq<Event>) {
    forall i | 0 <= i < |out| :: out[i] == Blank
  }

  lemma {:induction false} ImagesAppend(open: bool, a: seq<Event>, b: seq<Event>)
    ensures ImagesClosedWhenOpen(open, a + b)
            <==> ImagesClosedWhenOpen(open, a) && ImagesClosedWhenOpen(ImageOpenAfter(open, a), b)
    ensures ImageOpenAfter(open, a + b) == ImageOpenAfter(ImageOpenAfter(open, a), b)
    decreases |a|
  {
    if a == [] {
      assert a + b == b;
    } else {
      assert (a + b)[0] == a[0];
      assert (a + b)[1..] == a[1..] + b;
      var next := if a[0].Start? && a[0].tag.ImageTag? then true
                  else if a[0] == End(ImageEnd) then false else open;
      ImagesAppend(next, a[1..], b);
    }
  }

  lemma {:induction false} NoImagesClosed(open: bool, evs: seq<Event>)
    requires NoImageEvents(evs)
    ensures ImagesClosedWhenOpen(open, evs)
    ensures ImageOpenAfter(open, evs) == open
    decreases |evs|
  {
    if evs != [] {
      assert !IsImageEvent(evs[0]);
      NoImagesClosed(open, evs[1..]);
    }
  }

  // ----- sequence facts, stated apart from runs -----

  lemma NilUnit<T>(a: seq<T>)
    ensures a + [] == a && [] + a == a
  {
  }

  lemma SplitFirst<T>(a: seq<T>, b: seq<T>)
    requires |a| > 0
    ensures (a + b)[0] == a[0] && (a + b)[1..] == a[1..] + b
  {
  }

  lemma Assoc<T>(a: seq<T>, b: seq<T>, c: seq<T>)
    ensures a + (b + c) == a + b + c
  {
  }

  lemma Single<T>(e: T)
    ensures [e][0] == e && [e][1..] == []
  {
  }

  lemma Pair<T>(x: T, y: T)
    ensures [x] + [y] == [x, y]
  {
  }

  lemma Snoc3<T>(a: seq<T>, x: T, y: T, z: T)
    ensures a + [x, y, z] == a + [x] + [y] + [z]
  {
  }

  lemma InitLast<T>(a: seq<T>, x: T)
    ensures (a + [x])[..|a|] == a && (a + [x])[|a|] == x
  {
  }

  lemma Rejoin<T>(s: seq<T>)
    requires |s| > 0
    ensures s[..|s| - 1] + [s[|s| - 1]] == s
  {
  }

  lemma BlankAppend(a: seq<Event>, b: seq<Event>)
    requires AllBlank(a) && AllBlank(b)
    ensures AllBlank(a + b)
  {
    assert forall i | 0 <= i < |a + b| :: (a + b)[i] == (if i < |a| then a[i] else b[i - |a|]);
  }

  // ----- composing runs -----

  /** Joining two runs whose outcomes are known: the run over `a + b` ends
      where the run over `b` ends and emits both outputs in order. */
  lemma {:induction false} Join(pr: Processor, a: seq<Event>, b: seq<Event>, p: Processor, outA: seq<Event>,
                                q: Processor, outB: seq<Event>)
    requires ImagesClosedWhenOpen(pr.image.url.Some?, a) && Run(pr, a) == (p, outA)
    requires ImagesClosedWhenOpen(p.image.url.Some?, b) && Run(p, b) == (q, outB)
    ensures ImagesClosedWhenOpen(pr.image.url.Some?, a + b)
    ensures Run(pr, a + b) == (q, outA + outB)
    decreases |a|
  {
    ImagesAppend(pr.image.url.Some?, a, b);
    if a == [] {
      NilUnit(b);
      NilUnit(outB);
    } else {
      SplitFirst(a, b);
      var e := Step(pr, a[0]);
      var ra := Run(e.state, a[1..]);
      Join(e.state, a[1..], b, ra.0, ra.1, q, outB);
      Assoc([e.event], ra.1, outB);
    }
  }

  /** Running over `a + b` runs over `a`, then over `b` from where `a` left off. */
  lemma RunAppend(pr: Processor, a: seq<Event>, b: seq<Event>)
    requires ImagesClosedWhenOpen(pr.image.url.Some?, a + b)
    ensures ImagesClosedWhenOpen(pr.image.url.Some?, a)
    ensures ImagesClosedWhenOpen(Run(pr, a).0.image.url.Some?, b)
    ensures Run(pr, a + b) == (Run(Run(pr, a).0, b).0, Run(pr, a).1 + Run(Run(pr, a).0, b).1)
  {
    ImagesAppend(pr.image.url.Some?, a, b);
    var ra := Run(pr, a);
    var rb := Run(ra.0, b);
    Join(pr, a, b, ra.0, ra.1, rb.0, rb.1);
  }

  /** A run over one event is one step. */
  lemma RunOne(pr: Processor, e: Event)
    requires CanStep(pr, e)
    ensures ImagesClosedWhenOpen(pr.image.url.Some?, [e])
    ensures Run(pr, [e]) == (Step(pr, e).state, [Step(pr, e).event])
  {
    Single(e);
    NilUnit([Step(pr, e).event]);
  }

  /** Extending a run whose outcome is known by one event. */
  lemma Extend(pr: Processor, a: seq<Event>, e: Event, p: Processor, out: seq<Event>)
    requires ImagesClosedWhenOpen(pr.image.url.Some?, a) && Run(pr, a) == (p, out)
    requires CanStep(p, e)
    ensures ImagesClosedWhenOpen(pr.image.url.Some?, a + [e])
    ensures Run(pr, a + [e]) == (Step(p, e).state, out + [Step(p, e).event])
  {
    RunOne(p, e);
    var s := Step(p, e);
    Join(pr, a, [e], p, out, s.state, [s.event]);
  }

  // ----- tables -----

  /** The events of a run of cells, one text event each. */
  function CellEvents(cells: seq<string>): (evs: seq<Event>)
    ensures NoImageEvents(evs)
    decreases |cells|
  {
    if cells == [] then []
    else CellEvents(cells[..|cells| - 1]) + [Start(TableCellTag), Text(cells[|cells| - 1]), End(TableCellEnd)]
  }

  function RowEvent(row: seq<string>): (evs: seq<Event>)
    ensures NoImageEvents(evs)
  {
    [Start(TableRowTag)] + CellEvents(row) + [End(TableRowEnd)]
  }

  function RowEvents(rows: seq<seq<string>>): (evs: seq<Event>)
    ensures NoImageEvents(evs)
    decreases |rows|
  {
    if rows == [] then [] else RowEvents(rows[..|rows| - 1]) + RowEvent(rows[|rows| - 1])
  }

  /** A table as pulldown-cmark reports it when every cell is plain text, one
      `Text` event each: the head's cells, then each row. Inline markup in a
      cell adds other events (`InlineCellEscapes`). */
  function TableEvents(headers: seq<string>, rows: seq<seq<string>>): (evs: seq<Event>)
    ensures NoImageEvents(evs)
  {
    [Start(TableTag), Start(TableHeadTag)] + CellEvents(headers) + [End(TableHeadEnd)]
    + RowEvents(rows) + [End(TableEnd)]
  }

  /** Table state after a run of finished cells. */
  function AfterCells(t: TableState, cells: seq<string>): TableState {
    if t.inHead then t.(headers := t.headers + cells) else t.(currentRow := t.currentRow + cells)
  }

  /** The three steps of one cell: its start, its text and its end. */
  lemma CellSteps(p: Processor, cell: string)
    requires p.image.url.None? && p.table.collecting && p.table.currentCell == ""
    ensures Step(p, Start(TableCellTag)) == Emitted(p, Blank)
    ensures Step(p, Text(cell)) == Emitted(p.(table := p.table.(currentCell := cell)), Blank)
    ensures Step(p.(table := p.table.(currentCell := cell)), End(TableCellEnd))
            == Emitted(p.(table := AfterCells(p.table, [cell])), Blank)
  {
    assert "" + cell == cell;
  }

  /** Running one more cell after `a`. */
  lemma CellSnoc(pr: Processor, a: seq<Event>, cell: string, p: Processor, out: seq<Event>)
    requires ImagesClosedWhenOpen(pr.image.url.Some?, a) && Run(pr, a) == (p, out)
    requires p.image.url.None? && p.table.collecting && p.table.currentCell == ""
    ensures ImagesClosedWhenOpen(pr.image.url.Some?, a + [Start(TableCellTag), Text(cell), End(TableCellEnd)])
    ensures Run(pr, a + [Start(TableCellTag), Text(cell), End(TableCellEnd)])
            == (p.(table := AfterCells(p.table, [cell])), out + [Blank, Blank, Blank])
  {
    var e1, e2, e3 := Start(TableCellTag), Text(cell), End(TableCellEnd);
    CellSteps(p, cell);
    var p1 := p.(table := p.table.(currentCell := cell));
    Extend(pr, a, e1, p, out);
    Extend(pr, a + [e1], e2, p, out + [Blank]);
    Extend(pr, a + [e1] + [e2], e3, p1, out + [Blank] + [Blank]);
    Snoc3(a, e1, e2, e3);
    Snoc3(out, Blank, Blank, Blank);
  }

  lemma {:induction false} CellsRun(pr: Processor, cells: seq<string>)
    requires pr.image.url.None? && pr.table.collecting && pr.table.currentCell == ""
    ensures ImagesClosedWhenOpen(false, CellEvents(cells))
    ensures Run(pr, CellEvents(cells)).0 == pr.(table := AfterCells(pr.table, cells))
    ensures AllBlank(Run(pr, CellEvents(cells)).1)
    decreases |cells|
  {
    if cells == [] {
      NilUnit(pr.table.headers);
      NilUnit(pr.table.currentRow);
    } else {
      var init := cells[..|cells| - 1];
      var last := cells[|cells| - 1];
      CellsRun(pr, init);
      var a := CellEvents(init);
      var r := Run(pr, a);
      CellSnoc(pr, a, last, r.0, r.1);
      BlankAppend(r.1, [Blank, Blank, Blank]);
      Rejoin(cells);
      Assoc(pr.table.headers, init, [last]);
      Assoc(pr.table.currentRow, init, [last]);
    }
  }

  /** One row's events append the row's cells to `rows`. */
  lemma OneRowRun(pr: Processor, row: seq<string>)
    requires pr.image.url.None? && pr.table.collecting && !pr.table.inHead
    requires pr.table.currentRow == [] && pr.table.currentCell == ""
    requires |row| > 0
    ensures ImagesClosedWhenOpen(false, RowEvent(row))
    ensures Run(pr, RowEvent(row)).0 == pr.(table := pr.table.(rows := pr.table.rows + [row]))
    ensures AllBlank(Run(pr, RowEvent(row)).1)
  {
    var b := [Start(TableRowTag)];
    RunOne(pr, Start(TableRowTag));
    CellsRun(pr, row);
    var rc := Run(pr, CellEvents(row));
    NilUnit(row);
    Join(pr, b, CellEvents(row), pr, [Blank], rc.0, rc.1);
    Extend(pr, b + CellEvents(row), End(TableRowEnd), rc.0, [Blank] + rc.1);
    BlankAppend([Blank], rc.1);
    BlankAppend([Blank] + rc.1, [Blank]);
  }

  lemma {:induction false} RowsRun(pr: Processor, rows: seq<seq<string>>)
    requires pr.image.url.None? && pr.table.collecting && !pr.table.inHead
    requires pr.table.currentRow == [] && pr.table.currentCell == ""
    requires forall i | 0 <= i < |rows| :: |rows[i]| > 0
    ensures ImagesClosedWhenOpen(false, RowEvents(rows))
    ensures Run(pr, RowEvents(rows)).0 == pr.(table := pr.table.(rows := pr.table.rows + rows))
    ensures AllBlank(Run(pr, RowEvents(rows)).1)
    decreases |rows|
  {
    if rows == [] {
      NilUnit(pr.table.rows);
    } else {
      var init := rows[..|rows| - 1];
      var last := rows[|rows| - 1];
      RowsRun(pr, init);
      var ra := Run(pr, RowEvents(init));
      OneRowRun(ra.0, last);
      var rb := Run(ra.0, RowEvent(last));
      Join(pr, RowEvents(init), RowEvent(last), ra.0, ra.1, rb.0, rb.1);
      BlankAppend(ra.1, rb.1);
      Rejoin(rows);
      Assoc(pr.table.rows, init, [last]);
    }
  }

  /** The events opening a table and its head: the header cells collected. */
  function HeadEvents(headers: seq<string>): (evs: seq<Event>)
    ensures NoImageEvents(evs)
  {
    [Start(TableTag), Start(TableHeadTag)] + CellEvents(headers) + [End(TableHeadEnd)]
  }

  lemma HeadRun(pr: Processor, headers: seq<string>)
    requires pr.image.url.None? && pr.table == DefaultTable
    ensures ImagesClosedWhenOpen(false, HeadEvents(headers))
    ensures Run(pr, HeadEvents(headers)).0
            == pr.(table := DefaultTable.(collecting := true, headers := headers))
    ensures AllBlank(Run(pr, HeadEvents(headers)).1)
  {
    var a1 := [Start(TableTag)];
    var a2 := [Start(TableTag), Start(TableHeadTag)];
    var p1 := pr.(table := DefaultTable.(collecting := true));
    var p2 := pr.(table := DefaultTable.(collecting := true, inHead := true));
    RunOne(pr, Start(TableTag));
    Pair(Start(TableTag), Start(TableHeadTag));
    Extend(pr, a1, Start(TableHeadTag), p1, [Blank]);
    CellsRun(p2, headers);
    var rc := Run(p2, CellEvents(headers));
    NilUnit(headers);
    Pair(Blank, Blank);
    Join(pr, a2, CellEvents(headers), p2, [Blank, Blank], rc.0, rc.1);
    Extend(pr, a2 + CellEvents(headers), End(TableHeadEnd), rc.0, [Blank, Blank] + rc.1);
    BlankAppend([Blank, Blank], rc.1);
    BlankAppend([Blank, Blank] + rc.1, [Blank]);
  }

  /** A table's events leave the processor as they found it and produce
      blanks followed by exactly the table `process_table` renders from the
      header cells and the rows, in order. */
  lemma TableRendered(pr: Processor, headers: seq<string>, rows: seq<seq<string>>)
    requires pr.image.url.None? && pr.table == DefaultTable
    requires forall i | 0 <= i < |rows| :: |rows[i]| > 0
    ensures ImagesClosedWhenOpen(false, TableEvents(headers, rows))
    ensures BlanksThen(Run(pr, TableEvents(headers, rows)), pr, Html(TableHtml(headers, rows)))
  {
    HeadRun(pr, headers);
    var rh := Run(pr, HeadEvents(headers));
    RowsRun(rh.0, rows);
    var rr := Run(rh.0, RowEvents(rows));
    NilUnit(rows);
    Join(pr, HeadEvents(headers), RowEvents(rows), rh.0, rh.1, rr.0, rr.1);
    Extend(pr, HeadEvents(headers) + RowEvents(rows), End(TableEnd), rr.0, rh.1 + rr.1);
    BlankAppend(rh.1, rr.1);
    ShowBlanksThen(Run(pr, TableEvents(headers, rows)), pr, rh.1 + rr.1, Html(TableHtml(headers, rows)));
  }

  /** Inline markup inside a cell is not collected: a cell holding only
      inline code, or another event the processor does not rewrite, is
      recorded as the empty cell, and the event itself passes through, so it
      lands in the output ahead of the table's HTML. */
  lemma InlineCellEscapes(p: Processor, kind: string, content: string)
    requires p.image.url.None? && p.table.collecting && p.table.currentCell == ""
    ensures ImagesClosedWhenOpen(false, [Start(TableCellTag), OtherEvent(kind, content), End(TableCellEnd)])
    ensures Run(p, [Start(TableCellTag), OtherEvent(kind, content), End(TableCellEnd)])
            == (p.(table := AfterCells(p.table, [""])), [Blank, OtherEvent(kind, content), Blank])
  {
    var e1, e2, e3 := Start(TableCellTag), OtherEvent(kind, content), End(TableCellEnd);
    EmptyCellSteps(p);
    RunOne(p, e1);
    Extend(p, [e1], e2, p, [Blank]);
    Extend(p, [e1] + [e2], e3, p, [Blank] + [e2]);
    assert [e1] + [e2] + [e3] == [e1, e2, e3];
    assert [Blank] + [e2] + [Blank] == [Blank, e2, Blank];
  }

  /** A cell pulldown-cmark reports with no `Text` event, an empty one,
      finishes as the cell `""` does. */
  lemma EmptyCellSteps(p: Processor)
    requires p.image.url.None? && p.table.collecting && p.table.currentCell == ""
    ensures Step(p, Start(TableCellTag)) == Emitted(p, Blank)
    ensures Step(p, End(TableCellEnd)) == Emitted(p.(table := AfterCells(p.table, [""])), Blank)
  {
    CellSteps(p, "");
    assert p.(table := p.table.(currentCell := "")) == p;
  }

  // ----- images and code blocks -----

  /** One text event per string. */
  function TextEvents(texts: seq<string>): (evs: seq<Event>)
    ensures |evs| == |texts|
    ensures forall i | 0 <= i < |texts| :: evs[i] == Text(texts[i])
    ensures NoImageEvents(evs)
  {
    seq(|texts|, i requires 0 <= i < |texts| => Text(texts[i]))
  }

  /** The strings joined in order. */
  function Concat(texts: seq<string>): string
    decreases |texts|
  {
    if texts == [] then "" else Concat(texts[..|texts| - 1]) + texts[|texts| - 1]
  }

  lemma TextEventsSnoc(texts: seq<string>)
    requires |texts| > 0
    ensures TextEvents(texts) == TextEvents(texts[..|texts| - 1]) + [Text(texts[|texts| - 1])]
  {
  }

  /** Text inside an open image goes to the end of its alt text. */
  lemma AltStep(p: Processor, t: string)
    requires p.image.url.Some? && p.image.alt.Some?
    ensures Step(p, Text(t)) == Emitted(p.(image := p.image.(alt := Some(p.image.alt.value + t))), Blank)
  {
  }

  lemma {:induction false} AltRun(pr: Processor, texts: seq<string>)
    requires pr.image.url.Some? && pr.image.alt.Some?
    ensures ImagesClosedWhenOpen(true, TextEvents(texts))
    ensures Run(pr, TextEvents(texts)).0
            == pr.(image := pr.image.(alt := Some(pr.image.alt.value + Concat(texts))))
    ensures AllBlank(Run(pr, TextEvents(texts)).1)
    decreases |texts|
  {
    if texts == [] {
      NilUnit(pr.image.alt.value);
    } else {
      var init := texts[..|texts| - 1];
      var last := texts[|texts| - 1];
      var a := TextEvents(init);
      AltRun(pr, init);
      var r := Run(pr, a);
      AltStep(r.0, last);
      Extend(pr, a, Text(last), r.0, r.1);
      BlankAppend(r.1, [Blank]);
      TextEventsSnoc(texts);
      Assoc(pr.image.alt.value, Concat(init), last);
    }
  }

  lemma ImageSteps(p: Processor, url: string, caption: string)
    requires p.image == ImageState(Some(url), Some(caption))
    ensures Step(p, End(ImageEnd)) == Emitted(p.(image := DefaultImage), Html(ImageHtml(url, caption)))
  {
  }

  /** A run that ends in `state` having emitted blanks and then `last`. */
  predicate BlanksThen(r: (Processor, seq<Event>), state: Processor, last: Event) {
    && r.0 == state
    && |r.1| > 0
    && AllBlank(r.1[..|r.1| - 1])
    && r.1[|r.1| - 1] == last
  }

  lemma ShowBlanksThen(r: (Processor, seq<Event>), state: Processor, pre: seq<Event>, last: Event)
    requires r == (state, pre + [last]) && AllBlank(pre)
    ensures BlanksThen(r, state, last)
  {
    InitLast(pre, last);
  }

  /** An image's events produce blanks and then one `<img>` whose caption is
      the image's text joined in order, whatever state the processor was in,
      even in the middle of a table; only the image state is touched. */
  /** After an image's start and its text, the image holds the text as its
      alt and only blanks have been emitted. */
  lemma ImageOpened(pr: Processor, url: string, alts: seq<string>)
    ensures ImagesClosedWhenOpen(pr.image.url.Some?, [Start(ImageTag(url))] + TextEvents(alts))
    ensures Run(pr, [Start(ImageTag(url))] + TextEvents(alts)).0
            == pr.(image := ImageState(Some(url), Some(Concat(alts))))
    ensures AllBlank(Run(pr, [Start(ImageTag(url))] + TextEvents(alts)).1)
  {
    var start := [Start(ImageTag(url))];
    var p1 := pr.(image := ImageState(Some(url), Some("")));
    RunOne(pr, Start(ImageTag(url)));
    AltRun(p1, alts);
    var ra := Run(p1, TextEvents(alts));
    NilUnit(Concat(alts));
    Join(pr, start, TextEvents(alts), p1, [Blank], ra.0, ra.1);
    BlankAppend([Blank], ra.1);
  }

  lemma ImageRendered(pr: Processor, url: string, alts: seq<string>)
    ensures ImagesClosedWhenOpen(pr.image.url.Some?, [Start(ImageTag(url))] + TextEvents(alts) + [End(ImageEnd)])
    ensures BlanksThen(Run(pr, [Start(ImageTag(url))] + TextEvents(alts) + [End(ImageEnd)]),
                       pr.(image := DefaultImage), Html(ImageHtml(url, Concat(alts))))
  {
    var front := [Start(ImageTag(url))] + TextEvents(alts);
    ImageOpened(pr, url, alts);
    var r := Run(pr, front);
    ImageSteps(r.0, url, Concat(alts));
    Extend(pr, front, End(ImageEnd), r.0, r.1);
    ShowBlanksThen(Run(pr, front + [End(ImageEnd)]), pr.(image := DefaultImage),
                   r.1, Html(ImageHtml(url, Concat(alts))));
  }

  /** Text inside a code block passes through as text. */
  lemma CodeTextStep(p: Processor, t: string)
    requires p.image.url.None? && !p.table.collecting && p.codeBlock.active
    ensures Step(p, Text(t)) == Emitted(p, Text(t))
  {
  }

  lemma {:induction false} CodeTextRun(pr: Processor, texts: seq<string>)
    requires pr.image.url.None? && !pr.table.collecting && pr.codeBlock.active
    ensures ImagesClosedWhenOpen(false, TextEvents(texts))
    ensures Run(pr, TextEvents(texts)) == (pr, TextEvents(texts))
    decreases |texts|
  {
    if texts != [] {
      var init := texts[..|texts| - 1];
      var last := texts[|texts| - 1];
      var a := TextEvents(init);
      CodeTextRun(pr, init);
      CodeTextStep(pr, last);
      Extend(pr, a, Text(last), pr, a);
      TextEventsSnoc(texts);
    }
  }

  /** A code block's events produce `<pre lang="...">`, its text verbatim, and
      `</pre>`, and leave the processor outside a code block. */
  lemma CodeBlockRendered(pr: Processor, kind: CodeBlockKind, texts: seq<string>)
    requires pr.image.url.None? && !pr.table.collecting
    ensures ImagesClosedWhenOpen(false, [Start(CodeBlockTag(kind))] + TextEvents(texts) + [End(CodeBlockEnd)])
    ensures Run(pr, [Start(CodeBlockTag(kind))] + TextEvents(texts) + [End(CodeBlockEnd)])
            == (pr.(codeBlock := pr.codeBlock.(active := false)),
                [Html(PreOpen(CodeLang(kind)))] + TextEvents(texts) + [Html(PreClose)])
  {
    var a1 := [Start(CodeBlockTag(kind))];
    var open := [Html(PreOpen(CodeLang(kind)))];
    var p1 := pr.(codeBlock := pr.codeBlock.(active := true));
    RunOne(pr, Start(CodeBlockTag(kind)));
    CodeTextRun(p1, texts);
    Join(pr, a1, TextEvents(texts), p1, open, p1, TextEvents(texts));
    Extend(pr, a1 + TextEvents(texts), End(CodeBlockEnd), p1, open + TextEvents(texts));
  }
}
