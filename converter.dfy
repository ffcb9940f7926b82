/** `convert_to_excel` as a whole: the branch for a document without tables, the branch
    without a master layout, and the placement of every cell of every table on the
    worksheet followed by the row-height pass. */
module Converter {
  import opened Wrappers
  import opened Text
  import opened Html
  import opened Styles
  import opened Layout
  import opened Sheet

  /** `PIXELS_TO_EXCEL_UNITS` */
  const PixelsPerUnit: real := 8.43

  /** A master width in Excel units, `px / PIXELS_TO_EXCEL_UNITS`, over exact reals. */
  function PixelsToUnits(px: nat): real {
    px as real / PixelsPerUnit
  }

  /** The outcome of a conversion. */
  datatype Conversion =
      /** No table: a one-column sheet headed "Content", one row per line. */
    | ContentColumn(lines: seq<string>)
      /** No master layout: the `pd.read_html` fallback, not modelled further. */
    | ReadHtmlFallback
      /** A cell failed to render and the exception is not caught: a font size that is not a
          float literal, a font colour whose code fails the aRGB test, or an illegal control
          character in the stored value. Nothing is saved. */
    | Raised
      /** The workbook saved with the styled sheet. */
    | Saved(sheet: Grid)

  /** The non-empty strings of `ls`, in order (`[line for line in ... if line]`). */
  function NonEmpty(ls: seq<string>): (r: seq<string>)
    ensures forall i :: 0 <= i < |r| ==> r[i] != "" && r[i] in ls
  {
    if ls == [] then [] else (if ls[0] != "" then [ls[0]] else []) + NonEmpty(ls[1..])
  }

  lemma {:induction false} NonEmptyAppend(a: seq<string>, b: seq<string>)
    ensures NonEmpty(a + b) == NonEmpty(a) + NonEmpty(b)
  {
    if a == [] {
      assert a + b == b;
    } else {
      assert (a + b)[0] == a[0];
      assert (a + b)[1..] == a[1..] + b;
      NonEmptyAppend(a[1..], b);
    }
  }

  /** The rows of the "Content" column: the lines of the extracted text that are not
      empty, none holding a newline. */
  function ContentLines(text: string): (ls: seq<string>)
    ensures forall i :: 0 <= i < |ls| ==> ls[i] != "" && '\n' !in ls[i]
  {
    NonEmpty(SplitLines(text))
  }

  /** The lines of two texts joined by a newline are the lines of the first followed by
      those of the second, ... */
  lemma ContentLinesAtNewline(a: string, b: string)
    ensures ContentLines(a + "\n" + b) == ContentLines(a) + ContentLines(b)
  {
    SplitLinesAtNewline(a, b);
    NonEmptyAppend(SplitLines(a), SplitLines(b));
  }

  /** ... and a text without a newline is one line, or none when it is empty. */
  lemma ContentLinesOfLine(s: string)
    requires '\n' !in s
    ensures ContentLines(s) == if s == "" then [] else [s]
  {
    SplitLinesOfLine(s);
    assert [s][1..] == [];
    assert NonEmpty([s]) == (if s != "" then [s] else []) + NonEmpty([]);
  }

  /** Where one cell goes: its row, its first column and the number of columns it spans,
      with the cell and the style of its row. */
  datatype Placement = Placement(row: nat, col: nat, span: nat, cell: Cell, rowStyle: string)

  /** The cells of `row` from index `idx` on, with the column cursor at `col` and the row
      cursor at `r`. The target width is taken at the cell's index in the row. */
  function CellPlacements(master: seq<nat>, local: seq<nat>, row: Row, idx: nat, col: nat, r: nat)
    : (ps: seq<Placement>)
    requires col >= 1 && idx <= |row.cells|
    ensures |ps| == |row.cells| - idx
    ensures forall i :: 0 <= i < |ps| ==> ps[i].span >= 1 && ps[i].row == r && ps[i].col >= col
    decreases |row.cells| - idx
  {
    if idx == |row.cells| then []
    else
      var c := row.cells[idx];
      var k := EffectiveColspan(master, col - 1, TargetWidth(local, idx, c.colspan));
      [Placement(r, col, k, c, row.style)] + CellPlacements(master, local, row, idx + 1, col + k, r)
  }

  lemma CellPlacementsStep(master: seq<nat>, local: seq<nat>, row: Row, idx: nat, col: nat, r: nat)
    requires col >= 1 && idx < |row.cells|
    ensures var k := EffectiveColspan(master, col - 1, TargetWidth(local, idx, row.cells[idx].colspan));
      CellPlacements(master, local, row, idx, col, r)
        == [Placement(r, col, k, row.cells[idx], row.style)] + CellPlacements(master, local, row, idx + 1, col + k, r)
  {
  }

  /** The rows from index `i` on, from row cursor `r`; the column cursor restarts at 1
      in every row. */
  function RowPlacements(master: seq<nat>, local: seq<nat>, rows: seq<Row>, i: nat, r: nat)
    : (ps: seq<Placement>)
    requires i <= |rows|
    ensures forall k :: 0 <= k < |ps| ==> ps[k].span >= 1 && r <= ps[k].row < r + |rows| - i
    decreases |rows| - i
  {
    if i == |rows| then []
    else
      CellPlacements(master, local, rows[i], 0, 1, r)
        + RowPlacements(master, local, rows, i + 1, r + 1)
  }

  /** The tables from index `t` on, from row cursor `r`, each with its own local layout
      and one empty row after each table. */
  function TablePlacements(master: seq<nat>, tables: seq<Table>, t: nat, r: nat): (ps: seq<Placement>)
    requires t <= |tables|
    ensures forall k :: 0 <= k < |ps| ==> ps[k].span >= 1 && r <= ps[k].row
    decreases |tables| - t
  {
    if t == |tables| then []
    else
      RowPlacements(master, Widths(tables[t].cols), tables[t].rows, 0, r)
        + TablePlacements(master, tables, t + 1, r + |tables[t].rows| + 1)
  }

  lemma RowPlacementsStep(master: seq<nat>, local: seq<nat>, rows: seq<Row>, i: nat, r: nat)
    requires i < |rows|
    ensures RowPlacements(master, local, rows, i, r)
         == CellPlacements(master, local, rows[i], 0, 1, r) + RowPlacements(master, local, rows, i + 1, r + 1)
  {
  }

  lemma TablePlacementsStep(master: seq<nat>, tables: seq<Table>, t: nat, r: nat)
    requires t < |tables|
    ensures TablePlacements(master, tables, t, r)
         == RowPlacements(master, Widths(tables[t].cols), tables[t].rows, 0, r)
              + TablePlacements(master, tables, t + 1, r + |tables[t].rows| + 1)
  {
  }

  /** What the converter writes for a placement, or `None` when rendering the cell raises:
      a font size that is not a float literal, a font colour whose code fails the aRGB
      test, or an illegal control character in the stored value.
      The placement loops below take the rendering as a parameter and are instantiated
      with this one. */
  function Rendering(names: string -> Option<string>): Placement -> Option<OutCell> {
    (p: Placement) => RenderCell(p.cell, p.rowStyle, names)
  }

  /** The worksheet after the placements are rendered and written in order, or `None`
      when one of them raises. */
  function Apply(g: Grid, ps: seq<Placement>, render: Placement -> Option<OutCell>): Option<Grid>
    decreases |ps|
  {
    if ps == [] then Some(g)
    else
      match render(ps[0])
      case None => None
      case Some(out) => Apply(Stamp(g, ps[0].row, ps[0].col, ps[0].span, out), ps[1..], render)
  }

  lemma {:induction false} ApplyAppend(g: Grid, a: seq<Placement>, b: seq<Placement>,
                                       render: Placement -> Option<OutCell>)
    ensures Apply(g, a + b, render)
         == if Apply(g, a, render).None? then None else Apply(Apply(g, a, render).value, b, render)
    decreases |a|
  {
    if a != [] {
      assert (a + b)[0] == a[0];
      assert (a + b)[1..] == a[1..] + b;
      var out := render(a[0]);
      if out.Some? {
        ApplyAppend(Stamp(g, a[0].row, a[0].col, a[0].span, out.value), a[1..], b, render);
      }
    } else {
      assert a + b == b;
    }
  }

  /** Writing `p` then `rest`, when `p` renders as `out`. */
  lemma ConsStep(whole: Option<Grid>, g: Grid, p: Placement, rest: seq<Placement>, out: Option<OutCell>,
                 render: Placement -> Option<OutCell>)
    requires whole == Apply(g, [p] + rest, render) && out == render(p)
    ensures out.None? ==> whole == None
    ensures out.Some? ==> whole == Apply(Stamp(g, p.row, p.col, p.span, out.value), rest, render)
  {
    assert ([p] + rest)[0] == p;
    assert ([p] + rest)[1..] == rest;
  }

  /** Writing `a` then `b`, when writing `a` alone raised (`!ok`) or gave `h`. */
  lemma ChainStep(whole: Option<Grid>, g: Grid, a: seq<Placement>, b: seq<Placement>, ok: bool, h: Grid,
                  render: Placement -> Option<OutCell>)
    requires whole == Apply(g, a + b, render)
    requires Apply(g, a, render) == if ok then Some(h) else None
    ensures ok ==> whole == Apply(h, b, render)
    ensures !ok ==> whole == None
  {
    ApplyAppend(g, a, b, render);
  }


  /** Writing the cell at index `idx` of a row, spanning `k` columns: it raises, or the
      rest of the row is written on the worksheet carrying that cell. */
  lemma CellStep(whole: Option<Grid>, g: Grid, master: seq<nat>, local: seq<nat>, row: Row, idx: nat,
                 col: nat, r: nat, k: nat, next: nat, out: Option<OutCell>, render: Placement -> Option<OutCell>)
    requires col >= 1 && idx < |row.cells| && next == col + k
    requires k == EffectiveColspan(master, col - 1, TargetWidth(local, idx, row.cells[idx].colspan))
    requires out == render(Placement(r, col, k, row.cells[idx], row.style))
    requires whole == Apply(g, CellPlacements(master, local, row, idx, col, r), render)
    ensures out.None? ==> whole == None
    ensures out.Some? ==> whole == Apply(Stamp(g, r, col, k, out.value),
                                         CellPlacements(master, local, row, idx + 1, next, r), render)
  {
    CellPlacementsStep(master, local, row, idx, col, r);
    ConsStep(whole, g, Placement(r, col, k, row.cells[idx], row.style),
             CellPlacements(master, local, row, idx + 1, next, r), out, render);
  }

  /** Row `i` of a table written on `g`, raising (`!ok`) or giving `h`: the rows after
      it are then written on `h`, one row lower. */
  lemma RowStep(whole: Option<Grid>, g: Grid, master: seq<nat>, local: seq<nat>, rows: seq<Row>,
                i: nat, r: nat, next: nat, ok: bool, h: Grid, render: Placement -> Option<OutCell>)
    requires i < |rows| && next == r + 1
    requires whole == Apply(g, RowPlacements(master, local, rows, i, r), render)
    requires Apply(g, CellPlacements(master, local, rows[i], 0, 1, r), render) == if ok then Some(h) else None
    ensures ok ==> whole == Apply(h, RowPlacements(master, local, rows, i + 1, next), render)
    ensures !ok ==> whole == None
  {
    RowPlacementsStep(master, local, rows, i, r);
    ChainStep(whole, g, CellPlacements(master, local, rows[i], 0, 1, r),
              RowPlacements(master, local, rows, i + 1, next), ok, h, render);
  }

  /** Table `t` written on `g` with its local layout, raising (`!ok`) or giving `h`: the
      tables after it are then written on `h`, below an empty row. */
  lemma TableStep(whole: Option<Grid>, g: Grid, master: seq<nat>, tables: seq<Table>, t: nat, r: nat,
                  next: nat, ok: bool, h: Grid, render: Placement -> Option<OutCell>)
    requires t < |tables| && next == r + |tables[t].rows| + 1
    requires whole == Apply(g, TablePlacements(master, tables, t, r), render)
    requires Apply(g, RowPlacements(master, Widths(tables[t].cols), tables[t].rows, 0, r), render)
          == if ok then Some(h) else None
    ensures ok ==> whole == Apply(h, TablePlacements(master, tables, t + 1, next), render)
    ensures !ok ==> whole == None
  {
    TablePlacementsStep(master, tables, t, r);
    ChainStep(whole, g, RowPlacements(master, Widths(tables[t].cols), tables[t].rows, 0, r),
              TablePlacements(master, tables, t + 1, next), ok, h, render);
  }

  /** The conversion raises exactly when one of the cells does. */
  lemma {:induction false} ApplyRaises(g: Grid, ps: seq<Placement>, render: Placement -> Option<OutCell>)
    ensures Apply(g, ps, render).None? <==> exists i :: 0 <= i < |ps| && render(ps[i]).None?
    decreases |ps|
  {
    if ps != [] && render(ps[0]).Some? {
      var out := render(ps[0]).value;
      ApplyRaises(Stamp(g, ps[0].row, ps[0].col, ps[0].span, out), ps[1..], render);
      if exists i :: 0 <= i < |ps| && render(ps[i]).None? {
        var i :| 0 <= i < |ps| && render(ps[i]).None?;
        assert ps[1..][i - 1] == ps[i];
      }
      if exists i :: 0 <= i < |ps[1..]| && render(ps[1..][i]).None? {
        var i :| 0 <= i < |ps[1..]| && render(ps[1..][i]).None?;
        assert ps[i + 1] == ps[1..][i];
      }
    }
  }

  /** The widths the converter sets on columns 1 to `n` of the master grid. */
  function UnitWidths(master: seq<nat>, n: nat): map<nat, real>
    requires n <= |master|
  {
    if n == 0 then map[] else UnitWidths(master, n - 1)[n := PixelsToUnits(master[n - 1])]
  }

  /** The whole conversion. */
  function Convert(doc: Document, names: string -> Option<string>, dflt: real): Conversion {
    if doc.tables == [] then ContentColumn(ContentLines(doc.text))
    else
      var master := MasterLayout(doc.tables);
      if master == [] then ReadHtmlFallback
      else
        var g := EmptyGrid.(widths := UnitWidths(master, |master|));
        match Apply(g, TablePlacements(master, doc.tables, 0, 1), Rendering(names))
        case None => Raised
        case Some(h) => Saved(WithRowHeights(h, dflt))
  }

  /** The loop over the cells of one row: the target width and the colspan come from the
      cell's index and the column cursor, which then moves past the columns spanned. */
  method PlaceCells(ws: Worksheet, master: seq<nat>, local: seq<nat>, row: Row, r: nat,
                    render: Placement -> Option<OutCell>) returns (ok: bool)
    modifies ws
    ensures Apply(old(ws.State()), CellPlacements(master, local, row, 0, 1, r), render)
         == if ok then Some(ws.State()) else None
  {
    ghost var whole := Apply(ws.State(), CellPlacements(master, local, row, 0, 1, r), render);
    var col := 1;
    for idx := 0 to |row.cells|
      invariant col >= 1
      invariant whole == Apply(ws.State(), CellPlacements(master, local, row, idx, col, r), render)
    {
      var cell := row.cells[idx];
      var target := ComputeTargetWidth(local, idx, cell.colspan);
      var span := GreedyColspan(master, col - 1, target);
      var out := render(Placement(r, col, span, cell, row.style));
      var next := col + span;
      CellStep(whole, ws.State(), master, local, row, idx, col, r, span, next, out, render);
      if out.None? {
        return false;
      }
      ws.WriteCell(r, col, span, out.value);
      col := next;
    }
    return true;
  }

  /** The loop over the rows of one table; the row cursor moves down one row per row. */
  method PlaceRows(ws: Worksheet, master: seq<nat>, local: seq<nat>, rows: seq<Row>, r: nat,
                   render: Placement -> Option<OutCell>) returns (ok: bool)
    modifies ws
    ensures Apply(old(ws.State()), RowPlacements(master, local, rows, 0, r), render)
         == if ok then Some(ws.State()) else None
  {
    ghost var whole := Apply(ws.State(), RowPlacements(master, local, rows, 0, r), render);
    var current := r;
    for i := 0 to |rows|
      invariant current == r + i
      invariant whole == Apply(ws.State(), RowPlacements(master, local, rows, i, current), render)
    {
      ghost var g := ws.State();
      ok := PlaceCells(ws, master, local, rows[i], current, render);
      var next := current + 1;
      RowStep(whole, g, master, local, rows, i, current, next, ok, ws.State(), render);
      if !ok {
        return false;
      }
      current := next;
    }
    return true;
  }

  /** One table: its local layout (only when it has cols), then its rows. */
  method PlaceTable(ws: Worksheet, master: seq<nat>, table: Table, r: nat,
                    render: Placement -> Option<OutCell>) returns (ok: bool)
    modifies ws
    ensures Apply(old(ws.State()), RowPlacements(master, Widths(table.cols), table.rows, 0, r), render)
         == if ok then Some(ws.State()) else None
  {
    var local: seq<nat> := [];
    if table.cols != [] {
      local := ParseLayout(table.cols);
    }
    ok := PlaceRows(ws, master, local, table.rows, r, render);
  }

  /** The loop over the tables, with an empty row after each. */
  method PlaceTables(ws: Worksheet, master: seq<nat>, tables: seq<Table>,
                     render: Placement -> Option<OutCell>) returns (ok: bool)
    modifies ws
    ensures Apply(old(ws.State()), TablePlacements(master, tables, 0, 1), render)
         == if ok then Some(ws.State()) else None
  {
    ghost var whole := Apply(ws.State(), TablePlacements(master, tables, 0, 1), render);
    var current: nat := 1;
    for t := 0 to |tables|
      invariant whole == Apply(ws.State(), TablePlacements(master, tables, t, current), render)
    {
      ghost var g := ws.State();
      ok := PlaceTable(ws, master, tables[t], current, render);
      var next := current + |tables[t].rows| + 1;
      TableStep(whole, g, master, tables, t, current, next, ok, ws.State(), render);
      if !ok {
        return false;
      }
      current := next;
    }
    return true;
  }

  /** `convert_to_excel` on a parsed document; `names` is the colour-name table and `dflt`
      the width of a column that was never given one. */
  method ConvertToExcel(doc: Document, names: string -> Option<string>, dflt: real)
    returns (result: Conversion)
    ensures result == Convert(doc, names, dflt)
  {
    if doc.tables == [] {
      return ContentColumn(ContentLines(doc.text));
    }
    var master := ResolveMasterLayout(doc.tables);
    if master == [] {
      return ReadHtmlFallback;
    }
    var ws := new Worksheet();
    for i := 0 to |master|
      invariant ws.State() == EmptyGrid.(widths := UnitWidths(master, i))
    {
      ws.SetColumnWidth(i + 1, PixelsToUnits(master[i]));
    }
    var ok := PlaceTables(ws, master, doc.tables, Rendering(names));
    if !ok {
      return Raised;
    }
    ws.SetRowHeights(dflt);
    return Saved(ws.State());
  }

  /** The column cursor (`current_col_excel`), one cell at a time: the `i`-th placement of
      a row is cell `idx + i` with the style of its row, and spans the greedy colspan for
      the target width taken at that cell's index, from the column the cursor is at. */
  lemma {:induction false} CellPlacementAt(master: seq<nat>, local: seq<nat>, row: Row, idx: nat,
                                           col: nat, r: nat, i: nat)
    requires col >= 1 && idx + i < |row.cells|
    ensures var p := CellPlacements(master, local, row, idx, col, r)[i];
      p.cell == row.cells[idx + i] && p.rowStyle == row.style &&
      p.span == EffectiveColspan(master, p.col - 1, TargetWidth(local, idx + i, row.cells[idx + i].colspan))
    decreases i
  {
    CellPlacementsStep(master, local, row, idx, col, r);
    if i > 0 {
      var k := EffectiveColspan(master, col - 1, TargetWidth(local, idx, row.cells[idx].colspan));
      CellPlacementAt(master, local, row, idx + 1, col + k, r, i - 1);
      assert idx + i == idx + 1 + (i - 1);
    }
  }

  /** ... and the next placement starts right after the columns it spans. */
  lemma {:induction false} CellPlacementNext(master: seq<nat>, local: seq<nat>, row: Row, idx: nat,
                                             col: nat, r: nat, i: nat)
    requires col >= 1 && idx + i + 1 < |row.cells|
    ensures var ps := CellPlacements(master, local, row, idx, col, r);
      ps[i + 1].col == ps[i].col + ps[i].span
    decreases i
  {
    CellPlacementsStep(master, local, row, idx, col, r);
    var k := EffectiveColspan(master, col - 1, TargetWidth(local, idx, row.cells[idx].colspan));
    if i > 0 {
      CellPlacementNext(master, local, row, idx + 1, col + k, r, i - 1);
    } else {
      CellPlacementsStep(master, local, row, idx + 1, col + k, r);
    }
  }

  /** The whole row: the cells in order, each with the greedy colspan at its column. */
  lemma CellPlacementsCells(master: seq<nat>, local: seq<nat>, row: Row, idx: nat, col: nat, r: nat)
    requires col >= 1 && idx <= |row.cells|
    ensures var ps := CellPlacements(master, local, row, idx, col, r);
      forall i :: 0 <= i < |ps| ==>
        (ps[i].cell == row.cells[idx + i] && ps[i].rowStyle == row.style &&
         ps[i].span == EffectiveColspan(master, ps[i].col - 1, TargetWidth(local, idx + i, row.cells[idx + i].colspan)))
  {
    var ps := CellPlacements(master, local, row, idx, col, r);
    forall i | 0 <= i < |ps|
      ensures ps[i].cell == row.cells[idx + i] && ps[i].rowStyle == row.style &&
        ps[i].span == EffectiveColspan(master, ps[i].col - 1, TargetWidth(local, idx + i, row.cells[idx + i].colspan))
    {
      CellPlacementAt(master, local, row, idx, col, r, i);
    }
  }

  /** ... the first cell at the cursor, each next one right after the columns the one
      before it spans. */
  lemma CellPlacementsColumns(master: seq<nat>, local: seq<nat>, row: Row, idx: nat, col: nat, r: nat)
    requires col >= 1 && idx <= |row.cells|
    ensures var ps := CellPlacements(master, local, row, idx, col, r);
      (ps != [] ==> ps[0].col == col) &&
      (forall i :: 0 < i < |ps| ==> ps[i].col == ps[i - 1].col + ps[i - 1].span)
  {
    var ps := CellPlacements(master, local, row, idx, col, r);
    if idx < |row.cells| {
      CellPlacementsStep(master, local, row, idx, col, r);
    }
    forall i | 0 < i < |ps|
      ensures ps[i].col == ps[i - 1].col + ps[i - 1].span
    {
      CellPlacementNext(master, local, row, idx, col, r, i - 1);
    }
  }

  /** The row cursor (`current_row_excel`): everything placed on row `q` by the rows from
      index `i` on comes from row `i + q - r`, placed with the column cursor back at 1. */
  lemma {:induction false} RowPlacementsRows(master: seq<nat>, local: seq<nat>, rows: seq<Row>, i: nat, r: nat)
    requires i <= |rows|
    ensures forall p :: p in RowPlacements(master, local, rows, i, r) ==>
      r <= p.row < r + |rows| - i &&
      p in CellPlacements(master, local, rows[i + p.row - r], 0, 1, p.row)
    decreases |rows| - i
  {
    if i < |rows| {
      var here := CellPlacements(master, local, rows[i], 0, 1, r);
      var later := RowPlacements(master, local, rows, i + 1, r + 1);
      RowPlacementsRows(master, local, rows, i + 1, r + 1);
      RowPlacementsStep(master, local, rows, i, r);
      forall p: Placement | p in here + later
        ensures p in CellPlacements(master, local, rows[i + p.row - r], 0, 1, p.row)
      {
        if p in here {
          var j :| 0 <= j < |here| && here[j] == p;
          assert p.row == r;
        } else {
          assert p in later;
          assert i + p.row - r == i + 1 + p.row - (r + 1);
        }
      }
    }
  }

  /** After each table one row stays empty: nothing is placed on the row below its last row. */
  lemma BlankRowAfterTable(master: seq<nat>, tables: seq<Table>, t: nat, r: nat)
    requires t < |tables|
    ensures forall p :: p in TablePlacements(master, tables, t, r) ==> p.row != r + |tables[t].rows|
  {
    TablePlacementsStep(master, tables, t, r);
  }

  /** `p` is written before `q` and to its left or above it: `q` spans no column of `p`'s row
      at or left of `p`'s last column. */
  predicate Before(p: Placement, q: Placement) {
    p.row < q.row || (p.row == q.row && p.col + p.span <= q.col)
  }

  /** Every placement comes before all later ones. */
  predicate Ordered(ps: seq<Placement>) {
    forall i, j :: 0 <= i < j < |ps| ==> Before(ps[i], ps[j])
  }

  lemma OrderedAppend(a: seq<Placement>, b: seq<Placement>)
    requires Ordered(a) && Ordered(b)
    requires forall i, j :: 0 <= i < |a| && 0 <= j < |b| ==> Before(a[i], b[j])
    ensures Ordered(a + b)
  {
    var ab := a + b;
    forall i, j | 0 <= i < j < |ab|
      ensures Before(ab[i], ab[j])
    {
      if j < |a| {
        assert ab[i] == a[i] && ab[j] == a[j];
      } else if i >= |a| {
        assert ab[i] == b[i - |a|] && ab[j] == b[j - |a|];
      } else {
        assert ab[i] == a[i] && ab[j] == b[j - |a|];
      }
    }
  }

  /** The cells of a row are placed left to right without overlap, ... */
  lemma {:induction false} CellPlacementsOrdered(master: seq<nat>, local: seq<nat>, row: Row, idx: nat,
                                                 col: nat, r: nat)
    requires col >= 1 && idx <= |row.cells|
    ensures Ordered(CellPlacements(master, local, row, idx, col, r))
    decreases |row.cells| - idx
  {
    if idx < |row.cells| {
      var k := EffectiveColspan(master, col - 1, TargetWidth(local, idx, row.cells[idx].colspan));
      var rest := CellPlacements(master, local, row, idx + 1, col + k, r);
      CellPlacementsOrdered(master, local, row, idx + 1, col + k, r);
      CellPlacementsStep(master, local, row, idx, col, r);
      OrderedAppend([Placement(r, col, k, row.cells[idx], row.style)], rest);
    }
  }

  /** ... the rows of a table top to bottom, ... */
  lemma {:induction false} RowPlacementsOrdered(master: seq<nat>, local: seq<nat>, rows: seq<Row>, i: nat, r: nat)
    requires i <= |rows|
    ensures Ordered(RowPlacements(master, local, rows, i, r))
    decreases |rows| - i
  {
    if i < |rows| {
      RowPlacementsOrdered(master, local, rows, i + 1, r + 1);
      CellPlacementsOrdered(master, local, rows[i], 0, 1, r);
      RowPlacementsStep(master, local, rows, i, r);
      OrderedAppend(CellPlacements(master, local, rows[i], 0, 1, r), RowPlacements(master, local, rows, i + 1, r + 1));
    }
  }

  /** ... and the tables one below the other. */
  lemma {:induction false} TablePlacementsOrdered(master: seq<nat>, tables: seq<Table>, t: nat, r: nat)
    requires t <= |tables|
    ensures Ordered(TablePlacements(master, tables, t, r))
    decreases |tables| - t
  {
    if t < |tables| {
      var local := Widths(tables[t].cols);
      TablePlacementsOrdered(master, tables, t + 1, r + |tables[t].rows| + 1);
      RowPlacementsOrdered(master, local, tables[t].rows, 0, r);
      TablePlacementsStep(master, tables, t, r);
      OrderedAppend(RowPlacements(master, local, tables[t].rows, 0, r),
                    TablePlacements(master, tables, t + 1, r + |tables[t].rows| + 1));
    }
  }

  /** The merged range `m` lies wholly before the placement `q`: in an earlier row, or to
      its left in the same row. */
  predicate RangeBefore(m: MergeRange, q: Placement) {
    m.row < q.row || (m.row == q.row && m.maxCol < q.col)
  }

  /** Stamping ordered placements keeps the merged ranges disjoint, as long as the ranges
      already there are disjoint and lie before every placement. */
  lemma {:induction false} ApplyMergesDisjoint(g: Grid, ps: seq<Placement>, render: Placement -> Option<OutCell>)
    requires Apply(g, ps, render).Some?
    requires Ordered(ps) && DisjointMerges(g.merges)
    requires forall k, j :: 0 <= k < |g.merges| && 0 <= j < |ps| ==> RangeBefore(g.merges[k], ps[j])
    ensures DisjointMerges(Apply(g, ps, render).value.merges)
    decreases |ps|
  {
    if ps != [] {
      var p := ps[0];
      var next := Stamp(g, p.row, p.col, p.span, render(p).value);
      var rest := ps[1..];
      assert Ordered(rest) by {
        forall i, j | 0 <= i < j < |rest|
          ensures Before(rest[i], rest[j])
        {
          assert rest[i] == ps[i + 1] && rest[j] == ps[j + 1];
        }
      }
      if p.span > 1 {
        var m := MergeRange(p.row, p.col, p.col + p.span - 1);
        var ms := next.merges;
        assert ms == g.merges + [m];
        forall a, b | 0 <= a < b < |ms| && ms[a].row == ms[b].row
          ensures ms[a].maxCol < ms[b].minCol || ms[b].maxCol < ms[a].minCol
        {
          if b < |g.merges| {
            assert ms[a] == g.merges[a] && ms[b] == g.merges[b];
          } else {
            assert ms[a] == g.merges[a] && ms[b] == m;
            assert RangeBefore(g.merges[a], ps[0]);
          }
        }
        forall k, j | 0 <= k < |ms| && 0 <= j < |rest|
          ensures RangeBefore(ms[k], rest[j])
        {
          assert rest[j] == ps[j + 1];
          if k < |g.merges| {
            assert ms[k] == g.merges[k];
          } else {
            assert ms[k] == m && Before(ps[0], ps[j + 1]);
          }
        }
      } else {
        assert next.merges == g.merges;
        forall k, j | 0 <= k < |next.merges| && 0 <= j < |rest|
          ensures RangeBefore(next.merges[k], rest[j])
        {
          assert rest[j] == ps[j + 1];
        }
      }
      ApplyMergesDisjoint(next, rest, render);
    }
  }

  /** No two cells merged by the converter overlap, so each position lies in at most one
      merged range and "the first range that holds it" is the only one. */
  lemma ConvertMergesDisjoint(doc: Document, names: string -> Option<string>, dflt: real)
    requires Convert(doc, names, dflt).Saved?
    ensures DisjointMerges(Convert(doc, names, dflt).sheet.merges)
  {
    var master := MasterLayout(doc.tables);
    var g := EmptyGrid.(widths := UnitWidths(master, |master|));
    var ps := TablePlacements(master, doc.tables, 0, 1);
    var render := Rendering(names);
    TablePlacementsOrdered(master, doc.tables, 0, 1);
    ApplyMergesDisjoint(g, ps, render);
    HeightsAreLineMultiples(Apply(g, ps, render).value, dflt);
  }

  /** The placement `p` leaves the cell at `pos` alone. */
  predicate Misses(p: Placement, pos: Pos) {
    pos.0 != p.row || pos.1 < p.col || pos.1 >= p.col + p.span
  }

  /** Writing placements that all miss a cell leaves that cell as it was. */
  lemma {:induction false} ApplyKeeps(g: Grid, ps: seq<Placement>, render: Placement -> Option<OutCell>, pos: Pos)
    requires Apply(g, ps, render).Some? && pos in g.cells
    requires forall j :: 0 <= j < |ps| ==> ps[j].span >= 1 && Misses(ps[j], pos)
    ensures pos in Apply(g, ps, render).value.cells && Apply(g, ps, render).value.cells[pos] == g.cells[pos]
    decreases |ps|
  {
    if ps != [] {
      var p := ps[0];
      var out := render(p).value;
      var h := Stamp(g, p.row, p.col, p.span, out);
      StampCells(g, p.row, p.col, p.span, out);
      assert forall j :: 0 <= j < |ps[1..]| ==> ps[1..][j] == ps[j + 1];
      ApplyKeeps(h, ps[1..], render, pos);
    }
  }

  /** When ordered placements are all written, each anchor holds its own rendered cell:
      no later cell, merge or border pass overwrites it. */
  lemma {:induction false} ApplyWritesAnchors(g: Grid, ps: seq<Placement>, render: Placement -> Option<OutCell>)
    requires Apply(g, ps, render).Some? && Ordered(ps)
    requires forall j :: 0 <= j < |ps| ==> ps[j].span >= 1
    ensures forall i :: 0 <= i < |ps| ==>
      (render(ps[i]).Some? &&
       (ps[i].row, ps[i].col) in Apply(g, ps, render).value.cells &&
       Apply(g, ps, render).value.cells[(ps[i].row, ps[i].col)] == render(ps[i]).value)
    decreases |ps|
  {
    if ps != [] {
      var p := ps[0];
      var out := render(p).value;
      var h := Stamp(g, p.row, p.col, p.span, out);
      var rest := ps[1..];
      assert forall j :: 0 <= j < |rest| ==> rest[j] == ps[j + 1];
      StampCells(g, p.row, p.col, p.span, out);
      assert forall j :: 0 <= j < |rest| ==> Before(p, rest[j]);
      ApplyKeeps(h, rest, render, (p.row, p.col));
      ApplyWritesAnchors(h, rest, render);
    }
  }

  /** A document with tables none of whose cols declares a width takes the fallback
      branch: no worksheet is built. */
  lemma NoWidthsFallsBack(doc: Document, names: string -> Option<string>, dflt: real)
    requires doc.tables != []
    requires forall j, k :: 0 <= j < |doc.tables| && 0 <= k < |doc.tables[j].cols| ==>
      ColWidth(doc.tables[j].cols[k]).None?
    ensures Convert(doc, names, dflt) == ReadHtmlFallback
  {
    NoWidthsNoMaster(doc.tables);
  }

  /** With a master layout, the conversion raises exactly when one of the cells it places
      fails to render. */
  lemma ConvertRaises(doc: Document, names: string -> Option<string>, dflt: real)
    requires doc.tables != [] && MasterLayout(doc.tables) != []
    ensures var ps := TablePlacements(MasterLayout(doc.tables), doc.tables, 0, 1);
      Convert(doc, names, dflt) == Raised <==>
        exists i :: 0 <= i < |ps| && RenderCell(ps[i].cell, ps[i].rowStyle, names).None?
  {
    var master := MasterLayout(doc.tables);
    var g := EmptyGrid.(widths := UnitWidths(master, |master|));
    var ps := TablePlacements(master, doc.tables, 0, 1);
    var render := Rendering(names);
    assert Convert(doc, names, dflt) == Raised <==> Apply(g, ps, render).None?;
    ApplyRaises(g, ps, render);
    assert forall i :: 0 <= i < |ps| ==> render(ps[i]) == RenderCell(ps[i].cell, ps[i].rowStyle, names);
  }

  /** A saved workbook holds, at the anchor of every placed cell, that cell's value and
      style; every row up to the last written one has a height that is a positive
      multiple of 15 points; and the column widths are the master layout converted to
      Excel units. */
  lemma ConvertSaved(doc: Document, names: string -> Option<string>, dflt: real)
    requires Convert(doc, names, dflt).Saved?
    ensures var master := MasterLayout(doc.tables);
      var ps := TablePlacements(master, doc.tables, 0, 1);
      var h := Convert(doc, names, dflt).sheet;
      (forall i :: 0 <= i < |ps| ==>
         var out := RenderCell(ps[i].cell, ps[i].rowStyle, names);
         out.Some? && (ps[i].row, ps[i].col) in h.cells && h.cells[(ps[i].row, ps[i].col)] == out.value) &&
      (forall r :: 1 <= r <= h.maxRow ==> r in h.heights && h.heights[r] >= 15 && h.heights[r] % 15 == 0) &&
      (forall c :: 1 <= c <= |master| ==> c in h.widths && h.widths[c] == PixelsToUnits(master[c - 1]))
  {
    var master := MasterLayout(doc.tables);
    var g := EmptyGrid.(widths := UnitWidths(master, |master|));
    var ps := TablePlacements(master, doc.tables, 0, 1);
    var render := Rendering(names);
    TablePlacementsOrdered(master, doc.tables, 0, 1);
    ApplyWritesAnchors(g, ps, render);
    var w := Apply(g, ps, render).value;
    HeightsAreLineMultiples(w, dflt);
    ApplyKeepsWidths(g, ps, render);
    UnitWidthsAre(master, |master|);
  }

  /** Writing cells does not change column widths. */
  lemma {:induction false} ApplyKeepsWidths(g: Grid, ps: seq<Placement>, render: Placement -> Option<OutCell>)
    requires Apply(g, ps, render).Some?
    ensures Apply(g, ps, render).value.widths == g.widths
    decreases |ps|
  {
    if ps != [] {
      ApplyKeepsWidths(Stamp(g, ps[0].row, ps[0].col, ps[0].span, render(ps[0]).value), ps[1..], render);
    }
  }

  /** Columns 1 to `n` get the master widths in units. */
  lemma {:induction false} UnitWidthsAre(master: seq<nat>, n: nat)
    requires n <= |master|
    ensures forall c :: 1 <= c <= n <==> c in UnitWidths(master, n)
    ensures forall c :: 1 <= c <= n ==> UnitWidths(master, n)[c] == PixelsToUnits(master[c - 1])
  {
    if n > 0 {
      UnitWidthsAre(master, n - 1);
    }
  }
}
