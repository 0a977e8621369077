/** The two header rows of the sheet: the top row of spanning headers built
    from the `title1` row, the second row built from the `title2` row, and the
    sums the width check compares. */
module Headers {
  import opened Wrappers
  import opened ChartCell

  /** A top-row header: its text (`None` when its literal has no text) and
      the number of columns it spans. */
  datatype Header = Header(text: Option<string>, span: int)

  const Placeholder: string := "Add Analysis Columns Here"

  const NotesHeader: string := "Notes"

  const RowHeader: string := "Row"

  /** A header cell's text: the text of its first literal, or the empty
      string when it has none. */
  function HeaderText(cell: Cell): Option<string>
  {
    if cell.main.Some? && First(cell.main.value, LitTag).Some? then First(cell.main.value, LitTag).value.text
    else Some("")
  }

  /** `list.insert(-1, x)` on a non-empty list. */
  function InsertBeforeLast<T>(s: seq<T>, x: T): seq<T>
    requires |s| > 0
  {
    s[..|s| - 1] + [x] + [s[|s| - 1]]
  }

  /** The header of one top-row cell. */
  function CellHeader(cell: Cell): Header
  {
    Header(HeaderText(cell), cell.cols)
  }

  /** The top headers: a blank one-column header, one header per `title1`
      cell, and the analysis placeholder slipped in before the last. */
  function MainHeaders(cells: seq<Cell>): (r: seq<Header>)
    ensures |r| == |cells| + 2
    ensures r[|r| - 2] == Header(Some(Placeholder), 1)
    ensures cells == [] ==> r[|r| - 1] == Header(Some(""), 1)
    ensures cells != [] ==> r[0] == Header(Some(""), 1) && r[|r| - 1] == CellHeader(cells[|cells| - 1])
    ensures forall i :: 0 <= i < |cells| - 1 ==> r[i + 1] == CellHeader(cells[i])
  {
    var hs := [Header(Some(""), 1)] + seq(|cells|, i requires 0 <= i < |cells| => CellHeader(cells[i]));
    InsertBeforeLast(hs, Header(Some(Placeholder), 1))
  }

  /** `cells[1:-1]`: every cell but the first and the last. */
  function Middle<T>(s: seq<T>): (r: seq<T>)
    ensures |r| == if |s| > 2 then |s| - 2 else 0
    ensures forall i :: 0 <= i < |r| ==> r[i] == s[i + 1]
  {
    if |s| > 2 then s[1..|s| - 1] else []
  }

  /** The second header row: a blank, `Row`, the texts of the inner `title2`
      cells, the analysis placeholder and `Notes`. */
  function SubHeaders(cells: seq<Cell>): (r: seq<Option<string>>)
    ensures |r| == 4 + |Middle(cells)|
    ensures r[0] == Some("") && r[1] == Some(RowHeader)
    ensures r[|r| - 2] == Some(Placeholder) && r[|r| - 1] == Some(NotesHeader)
    ensures forall i :: 0 <= i < |Middle(cells)| ==> r[i + 2] == HeaderText(Middle(cells)[i])
  {
    var inner := Middle(cells);
    [Some(""), Some(RowHeader)] + seq(|inner|, i requires 0 <= i < |inner| => HeaderText(inner[i]))
      + [Some(Placeholder), Some(NotesHeader)]
  }

  /** `sum(span for _, span in main_headers)`. */
  function SpanSum(hs: seq<Header>): int
  {
    if hs == [] then 0 else hs[0].span + SpanSum(hs[1..])
  }

  /** The sum of the `cols` of the cells. */
  function ColsSum(cells: seq<Cell>): int
  {
    if cells == [] then 0 else cells[0].cols + ColsSum(cells[1..])
  }

  lemma {:induction false} SpanSumAppend(a: seq<Header>, b: seq<Header>)
    ensures SpanSum(a + b) == SpanSum(a) + SpanSum(b)
  {
    if a == [] {
      assert a + b == b;
    } else {
      assert (a + b)[1..] == a[1..] + b;
      SpanSumAppend(a[1..], b);
    }
  }

  lemma {:induction false} SpanSumCells(cells: seq<Cell>)
    ensures SpanSum(seq(|cells|, i requires 0 <= i < |cells| => CellHeader(cells[i]))) == ColsSum(cells)
  {
    if cells != [] {
      SpanSumCells(cells[1..]);
      var hs := seq(|cells|, i requires 0 <= i < |cells| => CellHeader(cells[i]));
      assert hs[1..] == seq(|cells[1..]|, i requires 0 <= i < |cells[1..]| => CellHeader(cells[1..][i]));
    }
  }

  /** The top headers span two columns more than the `title1` cells: the blank
      column and the analysis placeholder. */
  lemma MainHeadersSpan(cells: seq<Cell>)
    ensures SpanSum(MainHeaders(cells)) == ColsSum(cells) + 2
  {
    var hs := [Header(Some(""), 1)] + seq(|cells|, i requires 0 <= i < |cells| => CellHeader(cells[i]));
    var n := |hs| - 1;
    assert hs == hs[..n] + [hs[n]];
    SpanSumAppend(hs[..n], [hs[n]]);
    SpanSumAppend(hs[..n] + [Header(Some(Placeholder), 1)], [hs[n]]);
    SpanSumAppend(hs[..n], [Header(Some(Placeholder), 1)]);
    SpanSumAppend([Header(Some(""), 1)], seq(|cells|, i requires 0 <= i < |cells| => CellHeader(cells[i])));
    SpanSumCells(cells);
  }
}
