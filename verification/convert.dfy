/** `convert_to_excel`, up to the point where the table is handed to the
    spreadsheet writer: the title rows, the check that the two header rows
    agree in width, and the data rows of the `normal` chart rows. */
module Conversion {
  import opened Wrappers
  import opened Counter
  import opened ChartCell
  import opened Headers
  import opened DataRow

  /** A chart row: its `type` attribute, when it has one, and its cells. */
  datatype Row = Row(rowType: Option<string>, cells: seq<Cell>)

  /** The `chart` element: its rows in document order. */
  datatype Chart = Chart(rows: seq<Row>)

  /** What the conversion hands to the spreadsheet writer. */
  datatype Table = Table(mainHeaders: seq<Header>, subHeaders: seq<Option<string>>,
                         data: seq<seq<string>>, counter: map<string, nat>)

  /** The exceptions the conversion raises before writing anything. A missing
      title row makes the source fail on attribute access; a width mismatch is
      the explicit header check. */
  datatype ConvertError =
    | MissingTitleRow(rowType: string)
    | HeaderMismatch(total: int, columns: nat)

  const Title1: string := "title1"

  const Title2: string := "title2"

  const NormalRow: string := "normal"

  /** `chart.find('row[@type="..."]')`. */
  function FirstRow(rows: seq<Row>, rowType: string): (r: Option<Row>)
    ensures r.None? <==> forall i :: 0 <= i < |rows| ==> rows[i].rowType != Some(rowType)
    ensures r.Some? ==> r.value.rowType == Some(rowType) && r.value in rows
  {
    if rows == [] then None
    else if rows[0].rowType == Some(rowType) then Some(rows[0])
    else
      assert forall i :: 1 <= i < |rows| ==> rows[i] == rows[1..][i - 1];
      FirstRow(rows[1..], rowType)
  }

  /** `find` returns the first row of the type: a row of the type in an earlier
      part of the chart hides every later one. */
  lemma {:induction false} FirstRowAppend(a: seq<Row>, b: seq<Row>, rowType: string)
    ensures FirstRow(a + b, rowType) == if FirstRow(a, rowType).Some? then FirstRow(a, rowType) else FirstRow(b, rowType)
  {
    if a == [] {
      assert a + b == b;
    } else {
      assert (a + b)[0] == a[0];
      assert (a + b)[1..] == a[1..] + b;
      FirstRowAppend(a[1..], b, rowType);
    }
  }

  /** The row found is the first of its type: no row before it has the type. */
  lemma {:induction false} FirstRowIsFirst(rows: seq<Row>, rowType: string)
    requires FirstRow(rows, rowType).Some?
    ensures exists i ::
      && 0 <= i < |rows| && rows[i] == FirstRow(rows, rowType).value
      && forall j :: 0 <= j < i ==> rows[j].rowType != Some(rowType)
  {
    if rows[0].rowType != Some(rowType) {
      FirstRowIsFirst(rows[1..], rowType);
      var i :|
        && 0 <= i < |rows[1..]| && rows[1..][i] == FirstRow(rows, rowType).value
        && forall j :: 0 <= j < i ==> rows[1..][j].rowType != Some(rowType);
      assert rows[i + 1] == rows[1..][i];
      forall j | 0 <= j < i + 1
        ensures rows[j].rowType != Some(rowType)
      {
        if j > 0 {
          assert rows[j] == rows[1..][j - 1];
        }
      }
    }
  }

  /** The rows that produce a data row: `normal` rows with at least one cell. */
  predicate Emits(row: Row)
  {
    row.rowType == Some(NormalRow) && row.cells != []
  }

  /** The emitting rows, in chart order. */
  function EmittingRows(rows: seq<Row>): (r: seq<Row>)
    ensures forall i :: 0 <= i < |r| ==> Emits(r[i]) && r[i] in rows
    ensures |r| <= |rows|
  {
    if rows == [] then []
    else
      var rest := EmittingRows(rows[1..]);
      assert forall i :: 0 <= i < |rest| ==> rest[i] in rows;
      if Emits(rows[0]) then
        assert forall i :: 1 <= i < |rest| + 1 ==> ([rows[0]] + rest)[i] == rest[i - 1];
        [rows[0]] + rest
      else rest
  }

  /** The row filter keeps chart order: the emitting rows of two row lists in
      a row are those of the first, then those of the second. */
  lemma {:induction false} EmittingRowsAppend(a: seq<Row>, b: seq<Row>)
    ensures EmittingRows(a + b) == EmittingRows(a) + EmittingRows(b)
  {
    if a == [] {
      assert a + b == b;
    } else {
      assert (a + b)[0] == a[0];
      assert (a + b)[1..] == a[1..] + b;
      EmittingRowsAppend(a[1..], b);
    }
  }

  /** One row is kept exactly when it is a `normal` row with cells. */
  lemma EmittingRowsOne(row: Row)
    ensures EmittingRows([row]) == if Emits(row) then [row] else []
  {
    assert [row][1..] == [];
  }

  /** Every `normal` row with cells is kept, and nothing else. */
  lemma {:induction false} EmittingRowsMembers(rows: seq<Row>)
    ensures forall x :: x in EmittingRows(rows) <==> x in rows && Emits(x)
  {
    if rows != [] {
      EmittingRowsMembers(rows[1..]);
      assert forall x :: x in rows <==> x == rows[0] || x in rows[1..];
    }
  }

  /** The codes the emitting rows add to the counter, in chart order. */
  function ChartCodes(rows: seq<Row>): seq<string>
  {
    if rows == [] then []
    else (if Emits(rows[0]) then CodesOf(rows[0].cells) else []) + ChartCodes(rows[1..])
  }

  /** The counter-free reference for the data rows: each emitting row's
      layout fitted to `width`. */
  function FittedLayouts(rows: seq<Row>, width: nat): (r: seq<seq<string>>)
    requires forall i :: 0 <= i < |rows| ==> Emits(rows[i])
    ensures |r| == |rows|
    ensures forall j :: 0 <= j < |r| ==> Emits(rows[j]) && r[j] == Fit(RowLayout(rows[j].cells), width)
  {
    if rows == [] then []
    else
      assert Emits(rows[0]);
      assert forall i :: 1 <= i < |rows| ==> rows[i] == rows[1..][i - 1];
      var rest := FittedLayouts(rows[1..], width);
      assert forall j :: 1 <= j < 1 + |rest| ==> ([Fit(RowLayout(rows[0].cells), width)] + rest)[j] == rest[j - 1];
      [Fit(RowLayout(rows[0].cells), width)] + rest
  }

  /** The loop over the chart's rows: every `normal` row with cells becomes one
      data row fitted to `width`; the others are skipped. */
  function DataRows(rows: seq<Row>, width: nat, counter: map<string, nat>): (r: (seq<seq<string>>, map<string, nat>))
    ensures r.0 == FittedLayouts(EmittingRows(rows), width)
    ensures r.1 == Tally(counter, ChartCodes(rows))
  {
    if rows == [] then ([], counter)
    else if !Emits(rows[0]) then
      assert ChartCodes(rows) == ChartCodes(rows[1..]);
      DataRows(rows[1..], width, counter)
    else
      var (line, after) := AssembleRow(rows[0].cells, counter);
      var (rest, final) := DataRows(rows[1..], width, after);
      TallyThreads(counter, CodesOf(rows[0].cells), ChartCodes(rows[1..]));
      assert ChartCodes(rows) == CodesOf(rows[0].cells) + ChartCodes(rows[1..]);
      var emitted := EmittingRows(rows);
      assert emitted == [rows[0]] + EmittingRows(rows[1..]);
      assert emitted[1..] == EmittingRows(rows[1..]);
      ([Fit(line, width)] + rest, final)
  }

  /** `convert_to_excel` up to the spreadsheet writer. */
  function Convert(chart: Chart): (r: Result<Table, ConvertError>)
    ensures FirstRow(chart.rows, Title1).None? ==> r == Failure(MissingTitleRow(Title1))
    ensures FirstRow(chart.rows, Title1).Some? && FirstRow(chart.rows, Title2).None? ==>
      r == Failure(MissingTitleRow(Title2))
    ensures r.Failure? && r.error.HeaderMismatch? ==> r.error.total != r.error.columns
    ensures r.Success? ==>
      && SpanSum(r.value.mainHeaders) == |r.value.subHeaders| >= 4
      && r.value.data == FittedLayouts(EmittingRows(chart.rows), |r.value.subHeaders|)
      && r.value.counter == Tally(map[], ChartCodes(chart.rows))
    ensures r.Success? ==>
      && FirstRow(chart.rows, Title1).Some? && FirstRow(chart.rows, Title2).Some?
      && r.value.mainHeaders == MainHeaders(FirstRow(chart.rows, Title1).value.cells)
      && r.value.subHeaders == SubHeaders(FirstRow(chart.rows, Title2).value.cells)
  {
    var t1 := FirstRow(chart.rows, Title1);
    var t2 := FirstRow(chart.rows, Title2);
    if t1.None? then Failure(MissingTitleRow(Title1))
    else if t2.None? then Failure(MissingTitleRow(Title2))
    else
      var main := MainHeaders(t1.value.cells);
      var sub := SubHeaders(t2.value.cells);
      if SpanSum(main) != |sub| then Failure(HeaderMismatch(SpanSum(main), |sub|))
      else
        var (data, counter) := DataRows(chart.rows, |sub|, map[]);
        Success(Table(main, sub, data, counter))
  }

  /** The counter of a converted chart, the tally of its emitting rows' codes,
      holds every code of those rows as often as it occurs, only codes that
      occur, and never the empty code. */
  lemma ChartTally(rows: seq<Row>)
    ensures var counter := Tally(map[], ChartCodes(rows));
      && (forall k :: Count(counter, k) == multiset(ChartCodes(rows))[k])
      && (forall k :: k in counter ==> k in ChartCodes(rows) && counter[k] >= 1)
      && "" !in counter
  {
    TallyFresh(ChartCodes(rows));
    ChartCodesPresent(rows);
  }

  /** No cell ever contributes the empty code. */
  lemma {:induction false} ChartCodesPresent(rows: seq<Row>)
    ensures "" !in ChartCodes(rows)
  {
    if rows != [] {
      ChartCodesPresent(rows[1..]);
      if Emits(rows[0]) {
        CodesOfPresent(rows[0].cells);
      }
    }
  }

  /** The header check passes exactly when the `title1` spans add up to the
      number of inner `title2` cells plus two; when it fails no data row is
      produced and no code is counted. */
  lemma HeaderCheck(chart: Chart)
    requires FirstRow(chart.rows, Title1).Some? && FirstRow(chart.rows, Title2).Some?
    ensures var c1 := FirstRow(chart.rows, Title1).value.cells;
      var c2 := FirstRow(chart.rows, Title2).value.cells;
      && (Convert(chart).Success? <==> ColsSum(c1) + 2 == 4 + |Middle(c2)|)
      && (Convert(chart).Failure? ==>
            Convert(chart) == Failure(HeaderMismatch(ColsSum(c1) + 2, 4 + |Middle(c2)|)))
  {
    var c1 := FirstRow(chart.rows, Title1).value.cells;
    var c2 := FirstRow(chart.rows, Title2).value.cells;
    MainHeadersSpan(c1);
    assert SpanSum(MainHeaders(c1)) == ColsSum(c1) + 2;
    assert |SubHeaders(c2)| == 4 + |Middle(c2)|;
  }

  /** The outcome of the header check depends on the title rows alone: two
      charts with the same title rows either both fail, with the same error,
      or both pass, whatever their other rows are. The check comes before the
      first data row. */
  lemma HeaderCheckIgnoresBody(a: Chart, b: Chart)
    requires FirstRow(a.rows, Title1) == FirstRow(b.rows, Title1)
    requires FirstRow(a.rows, Title2) == FirstRow(b.rows, Title2)
    ensures Convert(a).Failure? <==> Convert(b).Failure?
    ensures Convert(a).Failure? ==> Convert(a) == Convert(b)
    ensures Convert(a).Success? ==>
      Convert(a).value.mainHeaders == Convert(b).value.mainHeaders
      && Convert(a).value.subHeaders == Convert(b).value.subHeaders
  {
  }

  /** A data row of a chart that passes the header check is exactly as wide as
      the second header row, holds the leading blank, and keeps the layout's
      columns up to that width. The data rows of a converted chart are these
      fitted layouts at the width of its second header row, which has at
      least four columns. */
  lemma DataRowShape(chart: Chart, width: nat, j: nat)
    requires width >= 1 && j < |EmittingRows(chart.rows)|
    ensures var line := FittedLayouts(EmittingRows(chart.rows), width)[j];
      var layout := RowLayout(EmittingRows(chart.rows)[j].cells);
      && |line| == width
      && line[0] == ""
      && forall i :: 0 <= i < width ==> line[i] == if i < |layout| then layout[i] else ""
  {
    var layout := RowLayout(EmittingRows(chart.rows)[j].cells);
    FitKeepsPrefix(layout, width);
  }
}
