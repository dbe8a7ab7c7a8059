/** The event rewriting of `markdown_to_html`: each pulldown-cmark event is
    mapped, in order, to one output event by `MarkdownEventProcessor`, whose
    image, code-block and table state threads through the stream. Parsing,
    `html::push_html` and the cleaning of the resulting HTML are outside this
    module. */
module MarkdownEvents {
  import opened Wrappers
  import opened MarkdownState
  import opened MarkdownHtml
  import Strings

  datatype CodeBlockKind = Indented | Fenced(info: string)

  /** The `Tag`s the processor reacts to; every other tag is `OtherTag`. */
  datatype Tag =
    | ImageTag(destUrl: string)
    | CodeBlockTag(kind: CodeBlockKind)
    | TableTag
    | TableHeadTag
    | TableRowTag
    | TableCellTag
    | OtherTag(name: string)

  datatype TagEnd =
    | ImageEnd
    | CodeBlockEnd
    | TableEnd
    | TableHeadEnd
    | TableRowEnd
    | TableCellEnd
    | OtherTagEnd(name: string)

  /** pulldown-cmark `Event`s; those the processor never rewrites (inline
      code, rules, hard breaks, footnote references, task markers, ...) are
      `OtherEvent`. */
  datatype Event =
    | Start(tag: Tag)
    | End(tagEnd: TagEnd)
    | Text(text: string)
    | Html(html: string)
    | InlineMath(math: string)
    | DisplayMath(math: string)
    | SoftBreak
    | OtherEvent(kind: string, content: string)

  datatype Processor = Processor(image: ImageState, codeBlock: CodeBlockState, table: TableState)

  /** `MarkdownEventProcessor::new`. */
  const NewProcessor: Processor := Processor(DefaultImage, DefaultCodeBlock, DefaultTable)

  /** A processor step: the next state and the event emitted. */
  datatype Emitted = Emitted(state: Processor, event: Event)

  /** The placeholder event the processor emits for what it swallows. */
  const Blank: Event := Text("")

  /** A URL and an alt text are stored together or not at all. */
  predicate ImageConsistent(pr: Processor) {
    pr.image.url.Some? <==> pr.image.alt.Some?
  }

  // ----- EventProcessor -----

  /** `process_text`: inside a code block the text is kept as text; outside,
      it becomes raw HTML. */
  function ProcessText(text: string, inCodeBlock: bool): Event {
    if inCodeBlock then Text(text) else Html(Strings.ReplaceChar(text, '\n', ' '))
  }

  /** Text in a code block is kept verbatim; elsewhere it becomes HTML of the
      same length in which each line feed is a space and nothing else changes. */
  lemma ProcessTextSpec(text: string, inCodeBlock: bool)
    ensures inCodeBlock ==> ProcessText(text, inCodeBlock) == Text(text)
    ensures var r := ProcessText(text, inCodeBlock);
            !inCodeBlock ==> && r.Html? && |r.html| == |text|
                             && (forall i | 0 <= i < |text| ::
                                   r.html[i] == (if text[i] == '\n' then ' ' else text[i]))
                             && (forall i | 0 <= i < |r.html| :: r.html[i] != '\n')
  {
  }

  /** `process_soft_break`: a line feed inside a code block, a space outside. */
  function ProcessSoftBreak(inCodeBlock: bool): (r: Event)
    ensures r.Text? && |r.text| == 1
    ensures r.text[0] == (if inCodeBlock then '\n' else ' ')
  {
    if inCodeBlock then Text("\n") else Text(" ")
  }

  /** The `lang` attribute of a code block: empty for an indented block, the
      trimmed info string for a fenced one. */
  function CodeLang(kind: CodeBlockKind): string {
    match kind
    case Indented => ""
    case Fenced(info) => TrimWhitespace(info)
  }

  /** An indented block has no language; a fenced one has its info string
      with only the surrounding whitespace cut off. */
  lemma CodeLangTrimmed(kind: CodeBlockKind) returns (lead: string, trail: string)
    ensures kind.Indented? ==> CodeLang(kind) == ""
    ensures kind.Fenced? ==>
              && kind.info == lead + CodeLang(kind) + trail
              && Strings.All(lead, IsWhitespace) && Strings.All(trail, IsWhitespace)
    ensures var l := CodeLang(kind);
            |l| == 0 || (!IsWhitespace(l[0]) && !IsWhitespace(l[|l| - 1]))
  {
    match kind
    case Indented =>
      lead, trail := "", "";
    case Fenced(info) =>
      assert CodeLang(kind) == TrimWhitespace(info);
      lead, trail := TrimWhitespaceSplit(info);
  }

  /** `process_code_block_start`. */
  function ProcessCodeBlockStart(pr: Processor, kind: CodeBlockKind): (r: Emitted)
    ensures r.state.codeBlock.active
    ensures r.state == pr.(codeBlock := pr.codeBlock.(active := true))
    ensures r.event == Html(PreOpen(CodeLang(kind)))
  {
    Emitted(pr.(codeBlock := pr.codeBlock.(active := true)), Html(PreOpen(CodeLang(kind))))
  }

  /** `process_code_block_end`. */
  function ProcessCodeBlockEnd(pr: Processor): (r: Emitted)
    ensures !r.state.codeBlock.active
    ensures r.state == pr.(codeBlock := pr.codeBlock.(active := false))
    ensures r.event == Html(PreClose)
  {
    Emitted(pr.(codeBlock := pr.codeBlock.(active := false)), Html(PreClose))
  }

  /** `process_image_start`: remember the URL, start an empty alt text. */
  function ProcessImageStart(pr: Processor, url: string): (r: Emitted)
    ensures r.state.image == ImageState(Some(url), Some(""))
    ensures r.state.codeBlock == pr.codeBlock && r.state.table == pr.table
    ensures r.event == Blank
  {
    Emitted(pr.(image := ImageState(Some(url), Some(""))), Blank)
  }

  /** `process_image_alt_text`: the text goes to the end of the alt text. */
  function ProcessImageAltText(pr: Processor, text: string): (r: Emitted)
    ensures pr.image.alt.Some? ==> r.state.image.alt == Some(pr.image.alt.value + text)
    ensures pr.image.alt.None? ==> r.state.image.alt.None?
    ensures r.state.image.url == pr.image.url
    ensures r.state.codeBlock == pr.codeBlock && r.state.table == pr.table
    ensures r.event == Blank
  {
    match pr.image.alt
    case Some(alt) => Emitted(pr.(image := pr.image.(alt := Some(alt + text))), Blank)
    case None => Emitted(pr, Blank)
  }

  /** `process_image_end`: one `<img>` from the stored URL and alt text, which
      are both cleared. The source unwraps the URL, so an image must be open. */
  function ProcessImageEnd(pr: Processor): (r: Emitted)
    requires pr.image.url.Some?
    ensures r.state.image == DefaultImage
    ensures r.state.codeBlock == pr.codeBlock && r.state.table == pr.table
    ensures r.event == Html(ImageHtml(pr.image.url.value, pr.image.alt.GetOr("")))
  {
    var url := pr.image.url.value;
    var caption := pr.image.alt.GetOr("");
    Emitted(pr.(image := DefaultImage), Html(ImageHtml(url, caption)))
  }

  // ----- the dispatch closure of markdown_to_html -----

  /** `End(Image)` is only handled when an image is open (the source panics
      otherwise). */
  predicate CanStep(pr: Processor, ev: Event) {
    ev == End(ImageEnd) ==> pr.image.url.Some?
  }

  predicate IsPassThrough(ev: Event) {
    || ev.Html? || ev.OtherEvent?
    || (ev.Start? && ev.tag.OtherTag?)
    || (ev.End? && ev.tagEnd.OtherTagEnd?)
  }

  /** One application of the `parser.map` closure. */
  function Step(pr: Processor, ev: Event): (r: Emitted)
    requires CanStep(pr, ev)
    ensures ev.Start? && ev.tag.ImageTag? ==> r.state.image.url.Some?
    ensures ev == End(ImageEnd) ==> r.state.image.url.None?
    ensures !(ev.Start? && ev.tag.ImageTag?) && ev != End(ImageEnd) ==> r.state.image.url == pr.image.url
    ensures ImageConsistent(pr) ==> ImageConsistent(r.state)
  {
    match ev
    case InlineMath(text) => Emitted(pr, Html(MathImg(text, false)))
    case DisplayMath(text) => Emitted(pr, Html(MathImg(text, true)))
    case Start(ImageTag(url)) => ProcessImageStart(pr, url)
    case Text(text) =>
      if pr.image.url.Some? then ProcessImageAltText(pr, text)
      else if pr.table.collecting then Emitted(pr.(table := AddCellContent(pr.table, text)), Blank)
      else Emitted(pr, ProcessText(text, pr.codeBlock.active))
    case End(ImageEnd) => ProcessImageEnd(pr)
    case Start(CodeBlockTag(kind)) => ProcessCodeBlockStart(pr, kind)
    case End(CodeBlockEnd) => ProcessCodeBlockEnd(pr)
    case SoftBreak => Emitted(pr, ProcessSoftBreak(pr.codeBlock.active))
    case Start(TableTag) => Emitted(pr.(table := StartCollecting(pr.table)), Blank)
    case End(TableEnd) =>
      Emitted(pr.(table := Reset(pr.table)), Html(TableHtml(pr.table.headers, pr.table.rows)))
    case Start(TableHeadTag) => Emitted(pr.(table := pr.table.(inHead := true)), Blank)
    case End(TableHeadEnd) => Emitted(pr.(table := pr.table.(inHead := false)), Blank)
    case Start(TableRowTag) => Emitted(pr, Blank)
    case End(TableRowEnd) => Emitted(pr.(table := FinishRow(pr.table)), Blank)
    case Start(TableCellTag) => Emitted(pr, Blank)
    case End(TableCellEnd) => Emitted(pr.(table := FinishCell(pr.table)), Blank)
    case _ => Emitted(pr, ev)
  }

  /** Where text goes: to an open image first, then to an open table, and
      only otherwise through `process_text`; soft breaks go through
      `process_soft_break`; every other event passes through unchanged. */
  lemma StepRouting(pr: Processor, ev: Event)
    requires CanStep(pr, ev)
    ensures ev.Text? && pr.image.url.Some? ==> Step(pr, ev) == ProcessImageAltText(pr, ev.text)
    ensures ev.Text? && pr.image.url.None? && pr.table.collecting ==>
              Step(pr, ev) == Emitted(pr.(table := AddCellContent(pr.table, ev.text)), Blank)
    ensures ev.Text? && pr.image.url.None? && !pr.table.collecting ==>
              Step(pr, ev) == Emitted(pr, ProcessText(ev.text, pr.codeBlock.active))
    ensures ev == SoftBreak ==> Step(pr, ev) == Emitted(pr, ProcessSoftBreak(pr.codeBlock.active))
    ensures IsPassThrough(ev) ==> Step(pr, ev) == Emitted(pr, ev)
  {
  }

  /** Whether an image is open after `evs`, starting from `open`. */
  function ImageOpenAfter(open: bool, evs: seq<Event>): bool
    decreases |evs|
  {
    if evs == [] then open
    else if evs[0].Start? && evs[0].tag.ImageTag? then ImageOpenAfter(true, evs[1..])
    else if evs[0] == End(ImageEnd) then ImageOpenAfter(false, evs[1..])
    else ImageOpenAfter(open, evs[1..])
  }

  /** Every `End(Image)` in `evs` closes an open image. */
  predicate ImagesClosedWhenOpen(open: bool, evs: seq<Event>)
    decreases |evs|
  {
    if evs == [] then true
    else if evs[0].Start? && evs[0].tag.ImageTag? then ImagesClosedWhenOpen(true, evs[1..])
    else if evs[0] == End(ImageEnd) then open && ImagesClosedWhenOpen(false, evs[1..])
    else ImagesClosedWhenOpen(open, evs[1..])
  }

  /** An image inside an image's description, `![a ![b](/u)](/v)`: the inner
      image's end closes the only image there is, so the outer end finds none
      and the source's `unwrap` panics. */
  lemma NestedImageUnhandled()
    ensures !ImagesClosedWhenOpen(false, [Start(ImageTag("/v")), Text("a "), Start(ImageTag("/u")),
                                          Text("b"), End(ImageEnd), End(ImageEnd)])
  {
    var evs := [Start(ImageTag("/v")), Text("a "), Start(ImageTag("/u")), Text("b"), End(ImageEnd), End(ImageEnd)];
    assert evs[1..] == [Text("a "), Start(ImageTag("/u")), Text("b"), End(ImageEnd), End(ImageEnd)];
    assert evs[2..] == evs[1..][1..];
    assert evs[3..] == evs[2..][1..];
    assert evs[4..] == evs[3..][1..];
    assert evs[5..] == evs[4..][1..] == [End(ImageEnd)];
    assert !ImagesClosedWhenOpen(false, evs[5..]);
  }

  /** The processor mapped over an event stream: one output per input, in
      order, and the final state. */
  function Run(pr: Processor, evs: seq<Event>): (r: (Processor, seq<Event>))
    requires ImagesClosedWhenOpen(pr.image.url.Some?, evs)
    ensures |r.1| == |evs|
    ensures r.0.image.url.Some? == ImageOpenAfter(pr.image.url.Some?, evs)
    ensures ImageConsistent(pr) ==> ImageConsistent(r.0)
    decreases |evs|
  {
    if evs == [] then (pr, [])
    else
      var e := Step(pr, evs[0]);
      var rest := Run(e.state, evs[1..]);
      (rest.0, [e.event] + rest.1)
  }

  /** The event stream `markdown_to_html` hands to `push_html`. */
  function ProcessEvents(evs: seq<Event>): (out: seq<Event>)
    requires ImagesClosedWhenOpen(false, evs)
    ensures |out| == |evs|
  {
    Run(NewProcessor, evs).1
  }
}
