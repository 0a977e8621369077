/** One data row of the sheet: each body cell spread over its span, the
    analysis blank, the notes cell, and the trim or pad to the header width. */
module DataRow {
  import opened Counter
  import opened ChartCell

  /** The number of sheet columns a body cell occupies: its span, and at
      least one. */
  function Slots(span: int): (r: nat)
    ensures r >= 1 && (span >= 1 ==> r == span)
    ensures span < 1 ==> r == 1
  {
    if span > 1 then span else 1
  }

  /** `[''] * n`. */
  function Blanks(n: nat): (r: seq<string>)
    ensures |r| == n && forall i :: 0 <= i < n ==> r[i] == ""
  {
    seq(n, _ => "")
  }

  /** The columns of one body cell: its value, then a blank for every further
      column of its span. */
  function CellColumns(value: string, span: int): (r: seq<string>)
    ensures |r| == Slots(span) && r[0] == value
    ensures forall i :: 0 < i < |r| ==> r[i] == ""
  {
    [value] + Blanks(Slots(span) - 1)
  }

  /** The number of sheet columns the body cells occupy together. */
  function SlotTotal(cells: seq<Cell>): nat
  {
    if cells == [] then 0 else Slots(cells[0].cols) + SlotTotal(cells[1..])
  }

  /** The body columns of a row, as a counter-free reference: each cell's
      display text spread over its span, in cell order. */
  function BodyLayout(cells: seq<Cell>): (r: seq<string>)
    ensures |r| == SlotTotal(cells)
  {
    if cells == [] then [] else CellColumns(CellText(cells[0]), cells[0].cols) + BodyLayout(cells[1..])
  }

  /** The concatenation of `f` over the elements, in order. */
  function ConcatMap<T>(s: seq<T>, f: T -> seq<string>): seq<string>
  {
    if s == [] then [] else f(s[0]) + ConcatMap(s[1..], f)
  }

  /** The codes the cells add to the counter, in cell order. */
  function CodesOf(cells: seq<Cell>): seq<string>
  {
    ConcatMap(cells, CellCodes)
  }

  /** The loop over a row's body cells, threading the counter through
      `parse_cell`: the columns are the counter-free layout and the counter
      gains exactly the cells' codes. */
  function BodyColumns(cells: seq<Cell>, counter: map<string, nat>): (r: (seq<string>, map<string, nat>))
    ensures r.0 == BodyLayout(cells)
    ensures r.1 == Tally(counter, CodesOf(cells))
  {
    if cells == [] then ([], counter)
    else
      var (value, after) := ParseCell(cells[0], counter);
      var (rest, final) := BodyColumns(cells[1..], after);
      TallyThreads(counter, CellCodes(cells[0]), CodesOf(cells[1..]));
      (CellColumns(value, cells[0].cols) + rest, final)
  }

  /** The counter-free reference for a whole row: the leading blank, the body
      layout, one analysis blank, and the notes text of the last cell. */
  function RowLayout(cells: seq<Cell>): seq<string>
    requires |cells| > 0
  {
    [""] + BodyLayout(cells[..|cells| - 1]) + Blanks(1) + [CellText(cells[|cells| - 1])]
  }

  /** One data row before fitting: the body cells, the analysis blank, then
      the last cell parsed as the notes. */
  function AssembleRow(cells: seq<Cell>, counter: map<string, nat>): (r: (seq<string>, map<string, nat>))
    requires |cells| > 0
    ensures r.0 == RowLayout(cells)
    ensures |r.0| == SlotTotal(cells[..|cells| - 1]) + 3
    ensures r.1 == Tally(counter, CodesOf(cells))
  {
    var body := cells[..|cells| - 1];
    var notes := cells[|cells| - 1];
    var (columns, after) := BodyColumns(body, counter);
    var (note, final) := ParseCell(notes, after);
    CodesOfSplitLast(cells);
    TallyThreads(counter, CodesOf(body), CellCodes(notes));
    ([""] + columns + Blanks(1) + [note], final)
  }

  /** Trims a row to `width` columns or pads it with blanks to that width. */
  function Fit(row: seq<string>, width: nat): (r: seq<string>)
    ensures |r| == width
    ensures |row| >= width ==> r == row[..width]
    ensures |row| <= width ==> r[..|row|] == row && forall i :: |row| <= i < width ==> r[i] == ""
  {
    if |row| > width then row[..width]
    else if |row| < width then row + Blanks(width - |row|)
    else row
  }

  lemma {:induction false} ConcatMapAppend<T>(a: seq<T>, b: seq<T>, f: T -> seq<string>)
    ensures ConcatMap(a + b, f) == ConcatMap(a, f) + ConcatMap(b, f)
  {
    if a == [] {
      assert a + b == b;
    } else {
      assert (a + b)[0] == a[0];
      assert (a + b)[1..] == a[1..] + b;
      ConcatMapAppend(a[1..], b, f);
    }
  }

  lemma CodesOfSplitLast(cells: seq<Cell>)
    requires |cells| > 0
    ensures CodesOf(cells) == CodesOf(cells[..|cells| - 1]) + CellCodes(cells[|cells| - 1])
  {
    var n := |cells| - 1;
    assert cells == cells[..n] + [cells[n]];
    ConcatMapAppend(cells[..n], [cells[n]], CellCodes);
    assert ConcatMap([cells[n]], CellCodes) == CellCodes(cells[n]) + ConcatMap([], CellCodes);
  }

  lemma {:induction false} CodesOfPresent(cells: seq<Cell>)
    ensures "" !in CodesOf(cells)
  {
    if cells != [] {
      CodesOfPresent(cells[1..]);
      var head := CellCodes(cells[0]);
      assert forall i :: 0 <= i < |head| ==> head[i] != "";
      assert CodesOf(cells) == head + CodesOf(cells[1..]);
    }
  }

  lemma {:induction false} BodyLayoutAppend(a: seq<Cell>, b: seq<Cell>)
    ensures BodyLayout(a + b) == BodyLayout(a) + BodyLayout(b)
  {
    if a == [] {
      assert a + b == b;
    } else {
      assert (a + b)[0] == a[0];
      assert (a + b)[1..] == a[1..] + b;
      BodyLayoutAppend(a[1..], b);
    }
  }

  /** Body cell `i` starts at the column after all the slots of the cells
      before it, holds its display text there and blanks over the rest of its
      span. */
  lemma BodyCellPlacement(cells: seq<Cell>, i: nat)
    requires i < |cells|
    ensures var start := SlotTotal(cells[..i]);
      var layout := BodyLayout(cells);
      && start + Slots(cells[i].cols) <= |layout|
      && layout[start] == CellText(cells[i])
      && forall j :: start < j < start + Slots(cells[i].cols) ==> layout[j] == ""
  {
    assert cells == cells[..i] + ([cells[i]] + cells[i + 1..]);
    BodyLayoutAppend(cells[..i], [cells[i]] + cells[i + 1..]);
    assert ([cells[i]] + cells[i + 1..])[1..] == cells[i + 1..];
    var start := SlotTotal(cells[..i]);
    var layout := BodyLayout(cells);
    var cols := CellColumns(CellText(cells[i]), cells[i].cols);
    assert layout == BodyLayout(cells[..i]) + (cols + BodyLayout(cells[i + 1..]));
    forall j | start <= j < start + Slots(cells[i].cols)
      ensures layout[j] == cols[j - start]
    {
    }
  }

  /** Fitting a row keeps the data that fits: its first `width` columns, or all
      of it followed by blanks. Fitting twice is fitting once. */
  lemma FitKeepsPrefix(row: seq<string>, width: nat)
    ensures var r := Fit(row, width);
      forall i :: 0 <= i < width ==> r[i] == if i < |row| then row[i] else ""
    ensures Fit(Fit(row, width), width) == Fit(row, width)
  {
  }
}
