/** The mutable state `MarkdownEventProcessor` keeps between pulldown-cmark
    events (`ImageState`, `CodeBlockState`, `TableState` of
    `crates/markdown_to_html/src/lib.rs`), as immutable values, with the
    `TableState` methods as functions from old to new state. */
module MarkdownState {
  import opened Wrappers

  datatype ImageState = ImageState(url: Option<string>, alt: Option<string>)

  /** `content` and `info` exist in the source but are never written. */
  datatype CodeBlockState = CodeBlockState(active: bool, content: Option<string>, info: Option<string>)

  datatype TableState = TableState(
    inHead: bool,
    headers: seq<string>,
    currentRow: seq<string>,
    rows: seq<seq<string>>,
    currentCell: string,
    collecting: bool)

  /** The `#[derive(Default)]` values. */
  const DefaultImage: ImageState := ImageState(None, None)
  const DefaultCodeBlock: CodeBlockState := CodeBlockState(false, None, None)
  const DefaultTable: TableState := TableState(false, [], [], [], "", false)

  /** `TableState::reset`: every field back to its default. */
  function Reset(t: TableState): (r: TableState)
    ensures !r.inHead && !r.collecting
    ensures r.headers == [] && r.currentRow == [] && r.rows == [] && r.currentCell == ""
  {
    DefaultTable
  }

  /** `TableState::start_collecting`: starts a table with no header and no
      rows; the head flag, the open row and the open cell are left alone. */
  function StartCollecting(t: TableState): (r: TableState)
    ensures r.collecting && r.headers == [] && r.rows == []
    ensures r.inHead == t.inHead && r.currentRow == t.currentRow && r.currentCell == t.currentCell
  {
    t.(collecting := true, headers := [], rows := [])
  }

  /** `TableState::add_cell_content`: text goes to the end of the open cell. */
  function AddCellContent(t: TableState, content: string): (r: TableState)
    ensures r.currentCell == t.currentCell + content
    ensures r.(currentCell := t.currentCell) == t
  {
    t.(currentCell := t.currentCell + content)
  }

  /** `TableState::finish_cell`: the open cell's text becomes the next header
      in the head and the next cell of the open row elsewhere; the open cell
      is then empty. */
  function FinishCell(t: TableState): (r: TableState)
    ensures r.currentCell == ""
    ensures t.inHead ==> r.headers == t.headers + [t.currentCell] && r.currentRow == t.currentRow
    ensures !t.inHead ==> r.currentRow == t.currentRow + [t.currentCell] && r.headers == t.headers
    ensures r.inHead == t.inHead && r.rows == t.rows && r.collecting == t.collecting
  {
    var content := t.currentCell;
    if t.inHead then t.(currentCell := "", headers := t.headers + [content])
    else t.(currentCell := "", currentRow := t.currentRow + [content])
  }

  /** `TableState::finish_row`: outside the head a non-empty open row is moved
      to the end of `rows`; otherwise nothing changes. */
  function FinishRow(t: TableState): (r: TableState)
    ensures !t.inHead && |t.currentRow| > 0 ==> r.rows == t.rows + [t.currentRow] && r.currentRow == []
    ensures t.inHead || |t.currentRow| == 0 ==> r == t
    ensures r.(rows := t.rows, currentRow := t.currentRow) == t
  {
    if !t.inHead && |t.currentRow| > 0 then t.(rows := t.rows + [t.currentRow], currentRow := [])
    else t
  }
}
