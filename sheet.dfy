/** The openpyxl worksheet `convert_to_excel` fills in, reduced to what the conversion
    sets: the value and style of cells, borders, merged ranges, column widths and row
    heights; and the row-height pass run over it at the end. Rows and columns are numbered
    from 1. Column widths are in Excel units, heights in points. */
module Sheet {
  import opened Text
  import opened Wrappers
  import opened Styles
  import opened Layout

  /** A cell position: (row, column). */
  type Pos = (nat, nat)

  /** A merged range. The converter merges within one row, from `minCol` to `maxCol`. */
  datatype MergeRange = MergeRange(row: nat, minCol: nat, maxCol: nat)

  /** `cell.coordinate in merged_range` */
  predicate InRange(m: MergeRange, r: nat, c: nat) {
    m.row == r && m.minCol <= c <= m.maxCol
  }

  /** The state of a worksheet: the cells that hold a value and style, the cells given
      the thin black border, the merged ranges in the order they were made, the widths
      and heights set so far, and openpyxl's `max_row` and `max_column` (both 1 on an
      empty sheet). */
  datatype Grid = Grid(
    cells: map<Pos, OutCell>,
    borders: set<Pos>,
    merges: seq<MergeRange>,
    widths: map<nat, real>,
    heights: map<nat, nat>,
    maxRow: nat,
    maxCol: nat)

  const EmptyGrid: Grid := Grid(map[], {}, [], map[], map[], 1, 1)

  /** The positions `(row, col)`, ..., `(row, col + span - 1)`. */
  function Span(row: nat, col: nat, span: nat): (ps: set<Pos>)
    ensures forall c: nat :: col <= c < col + span ==> (row, c) in ps
    ensures forall p :: p in ps ==> p.0 == row && col <= p.1 < col + span
  {
    set c: nat | col <= c < col + span :: (row, c)
  }

  /** The cells of `cells` outside the merge of `(row, col)` ... `(row, last)`, the anchor
      kept: `merge_cells` turns the others into empty merged cells. */
  function ClearMerged(cells: map<Pos, OutCell>, row: nat, col: nat, last: nat): map<Pos, OutCell> {
    map p | p in cells && !(p.0 == row && col < p.1 <= last) :: cells[p]
  }

  /** The writes for one cell: value and style on the anchor `(row, col)`; a merge and
      borders over `span` columns when `span > 1`, a border on the anchor alone otherwise. */
  function Stamp(g: Grid, row: nat, col: nat, span: nat, out: OutCell): Grid {
    var last := col + span - 1;
    var cells := g.cells[(row, col) := out];
    if span > 1 then
      g.(cells := ClearMerged(cells, row, col, last),
         borders := g.borders + Span(row, col, span),
         merges := g.merges + [MergeRange(row, col, last)],
         maxRow := Max(g.maxRow, row),
         maxCol := Max(g.maxCol, last))
    else
      g.(cells := cells,
         borders := g.borders + Span(row, col, span),
         maxRow := Max(g.maxRow, row),
         maxCol := Max(g.maxCol, col))
  }

  lemma StampMerged(g: Grid, row: nat, col: nat, span: nat, out: OutCell)
    requires span > 1
    ensures Stamp(g, row, col, span, out)
         == Grid(ClearMerged(g.cells[(row, col) := out], row, col, col + span - 1),
                 g.borders + Span(row, col, span), g.merges + [MergeRange(row, col, col + span - 1)],
                 g.widths, g.heights, Max(g.maxRow, row), Max(g.maxCol, col + span - 1))
  {
  }

  lemma StampSingle(g: Grid, row: nat, col: nat, span: nat, out: OutCell)
    requires span == 1
    ensures Stamp(g, row, col, span, out)
         == Grid(g.cells[(row, col) := out], g.borders + {(row, col)}, g.merges,
                 g.widths, g.heights, Max(g.maxRow, row), Max(g.maxCol, col))
  {
    assert Span(row, col, 1) == {(row, col)};
  }

  /** What writing one cell changes: the anchor holds the new value and style; the
      spanned columns get borders; a merge is added only for a span above 1; the other
      cells of the row before and after the span, and all other rows, keep theirs. */
  lemma StampEffects(g: Grid, row: nat, col: nat, span: nat, out: OutCell)
    requires span >= 1
    ensures var h := Stamp(g, row, col, span, out);
      (row, col) in h.cells && h.cells[(row, col)] == out &&
      h.borders == g.borders + Span(row, col, span) &&
      (span > 1 ==> h.merges == g.merges + [MergeRange(row, col, col + span - 1)]) &&
      (span == 1 ==> h.merges == g.merges) &&
      (forall p :: p in g.cells && p.0 != row ==> p in h.cells && h.cells[p] == g.cells[p]) &&
      (forall p :: p in g.cells && p.0 == row && (p.1 < col || p.1 >= col + span) ==>
         p in h.cells && h.cells[p] == g.cells[p]) &&
      (forall p :: p in h.cells ==> p == (row, col) || p in g.cells) &&
      h.widths == g.widths && h.heights == g.heights &&
      h.maxRow == Max(g.maxRow, row) && h.maxCol == Max(g.maxCol, col + span - 1)
  {
    StampCells(g, row, col, span, out);
  }

  /** The cells after writing one: the anchor, and the old cells outside the span. */
  lemma StampCells(g: Grid, row: nat, col: nat, span: nat, out: OutCell)
    requires span >= 1
    ensures var h := Stamp(g, row, col, span, out);
      (row, col) in h.cells && h.cells[(row, col)] == out &&
      (forall p :: p in g.cells && (p.0 != row || p.1 < col || p.1 >= col + span) ==>
         p in h.cells && h.cells[p] == g.cells[p]) &&
      (forall p :: p in h.cells ==> p == (row, col) || p in g.cells)
  {
    var cells := g.cells[(row, col) := out];
    var cleared := ClearMerged(cells, row, col, col + span - 1);
    assert forall p :: p in cleared <==> p in cells && !(p.0 == row && col < p.1 <= col + span - 1);
  }

  /** The width of column `c`: the one set, or `dflt`, openpyxl's width for a column
      never given one. */
  function ColumnWidth(widths: map<nat, real>, c: nat, dflt: real): real {
    if c in widths then widths[c] else dflt
  }

  /** The widths of columns `lo`, ..., `lo + n - 1` added up. */
  function SpanWidth(widths: map<nat, real>, lo: nat, n: nat, dflt: real): real {
    if n == 0 then 0.0 else SpanWidth(widths, lo, n - 1, dflt) + ColumnWidth(widths, lo + n - 1, dflt)
  }

  /** The first merged range, in the order they were made, that holds `(r, c)`. */
  function FirstMergeAt(ms: seq<MergeRange>, r: nat, c: nat): (m: Option<MergeRange>)
    ensures m.Some? ==> m.value in ms && InRange(m.value, r, c)
    ensures m.None? ==> forall i :: 0 <= i < |ms| ==> !InRange(ms[i], r, c)
  {
    if ms == [] then None
    else if InRange(ms[0], r, c) then Some(ms[0])
    else FirstMergeAt(ms[1..], r, c)
  }

  /** `effective_width_units`: a merged cell is as wide as all columns of the first range
      that holds it; any other cell as wide as its column. */
  function CellWidth(g: Grid, r: nat, c: nat, dflt: real): real {
    match FirstMergeAt(g.merges, r, c)
    case Some(m) => SpanWidth(g.widths, m.minCol, m.maxCol + 1 - m.minCol, dflt)
    case None => ColumnWidth(g.widths, c, dflt)
  }

  /** `math.ceil` */
  function Ceil(x: real): int {
    if x == x.Floor as real then x.Floor else x.Floor + 1
  }

  lemma CeilBounds(x: real)
    ensures x <= Ceil(x) as real < x + 1.0
  {
  }

  /** `lines_from_wrapping`: `ceil(len / (w / 1.1))` when the width is positive, else 1.
      Computed over exact reals. */
  function WrapLines(len: nat, w: real): int {
    if w > 0.0 then Ceil(len as real / (w / 1.1)) else 1
  }

  /** `cell_lines`: the larger of the line count by newlines and by wrapping. */
  function CellLines(text: string, w: real): (n: nat)
    ensures n >= CountChar(text, '\n') + 1 && n >= WrapLines(|text|, w)
    ensures n == CountChar(text, '\n') + 1 || n == WrapLines(|text|, w)
  {
    Max(CountChar(text, '\n') + 1, WrapLines(|text|, w))
  }

  /** With a positive width `w`, each line holds `w / 1.1` characters, and the wrap count is
      the fewest lines that hold all `len` characters: enough lines, and one fewer is
      not enough. Without a positive width the count is 1. */
  lemma WrapLinesBounds(len: nat, w: real)
    ensures w > 0.0 ==> (WrapLines(len, w) as real) * (w / 1.1) >= len as real
    ensures w > 0.0 ==> (WrapLines(len, w) as real - 1.0) * (w / 1.1) < len as real
    ensures w <= 0.0 ==> WrapLines(len, w) == 1
  {
    if w > 0.0 {
      CeilScaled(len as real, w / 1.1);
    }
  }

  /** `n = ceil(a / q)` lines of `q` characters hold `a` characters, and `n - 1` do not. */
  lemma CeilScaled(a: real, q: real)
    requires q > 0.0
    ensures (Ceil(a / q) as real) * q >= a
    ensures (Ceil(a / q) as real - 1.0) * q < a
  {
    var x := a / q;
    CeilBounds(x);
    assert x * q == a;
    var k := Ceil(x) as real;
    ScaleMonotone(x, k, q);
    ScaleMonotone(k - 1.0, x, q);
  }

  /** Multiplying by a positive `q` keeps the order of `u` and `v`. */
  lemma ScaleMonotone(u: real, v: real, q: real)
    requires q > 0.0
    ensures u <= v ==> u * q <= v * q
    ensures u < v ==> u * q < v * q
  {
    assert v * q - u * q == (v - u) * q;
  }

  /** The lines the cell at `(r, c)` needs, 0 for a cell without a truthy value. */
  function LinesAt(g: Grid, r: nat, c: nat, dflt: real): nat {
    if (r, c) in g.cells && g.cells[(r, c)].value != "" then
      CellLines(g.cells[(r, c)].value, CellWidth(g, r, c, dflt))
    else 0
  }

  /** `max_lines_in_row` after columns 1, ..., `n` of row `r`. */
  function RowLinesUpTo(g: Grid, r: nat, n: nat, dflt: real): nat {
    if n == 0 then 1 else Max(RowLinesUpTo(g, r, n - 1, dflt), LinesAt(g, r, n, dflt))
  }

  /** `max_lines_in_row` for row `r`, over columns 1 to `max_column`. */
  function RowLines(g: Grid, r: nat, dflt: real): nat {
    RowLinesUpTo(g, r, g.maxCol, dflt)
  }

  /** The line count of a row is the largest of its cells' line counts, and at least 1. */
  lemma {:induction false} RowLinesIsMax(g: Grid, r: nat, n: nat, dflt: real)
    ensures RowLinesUpTo(g, r, n, dflt) >= 1
    ensures forall c :: 1 <= c <= n ==> RowLinesUpTo(g, r, n, dflt) >= LinesAt(g, r, c, dflt)
    ensures RowLinesUpTo(g, r, n, dflt) == 1 ||
      exists c :: 1 <= c <= n && RowLinesUpTo(g, r, n, dflt) == LinesAt(g, r, c, dflt)
  {
    if n > 0 {
      RowLinesIsMax(g, r, n - 1, dflt);
    }
  }

  /** The row-height pass does not look at row heights. */
  lemma {:induction false} RowLinesIgnoresHeights(g: Grid, h: map<nat, nat>, r: nat, n: nat, dflt: real)
    ensures RowLinesUpTo(g.(heights := h), r, n, dflt) == RowLinesUpTo(g, r, n, dflt)
  {
    if n > 0 {
      RowLinesIgnoresHeights(g, h, r, n - 1, dflt);
      assert LinesAt(g.(heights := h), r, n, dflt) == LinesAt(g, r, n, dflt);
    }
  }

  /** The heights the pass sets on rows 1, ..., `n`: 15 points per line. */
  function RowHeights(g: Grid, n: nat, dflt: real): (hs: map<nat, nat>)
    ensures forall r :: r in hs <==> 1 <= r <= n
  {
    map r: nat | 1 <= r <= n :: 15 * RowLines(g, r, dflt)
  }

  lemma RowHeightsStep(g: Grid, h: map<nat, nat>, r: nat, dflt: real)
    requires r >= 1
    ensures h + RowHeights(g, r, dflt) == (h + RowHeights(g, r - 1, dflt))[r := 15 * RowLines(g, r, dflt)]
  {
    assert RowHeights(g, r, dflt) == RowHeights(g, r - 1, dflt)[r := 15 * RowLines(g, r, dflt)];
  }

  /** The worksheet after the row-height pass over rows 1 to `max_row`. */
  function WithRowHeights(g: Grid, dflt: real): Grid {
    g.(heights := g.heights + RowHeights(g, g.maxRow, dflt))
  }

  /** Every row up to `max_row` gets a height that is a positive multiple of 15 points,
      and nothing else changes. */
  lemma HeightsAreLineMultiples(g: Grid, dflt: real)
    ensures var h := WithRowHeights(g, dflt);
      (forall r :: 1 <= r <= g.maxRow ==> r in h.heights && h.heights[r] >= 15 && h.heights[r] % 15 == 0) &&
      h.(heights := g.heights) == g
  {
    forall r | 1 <= r <= g.maxRow
      ensures RowLines(g, r, dflt) >= 1
    {
      RowLinesIsMax(g, r, g.maxCol, dflt);
    }
  }

  /** No two merged ranges share a cell. */
  predicate DisjointMerges(ms: seq<MergeRange>) {
    forall a, b :: 0 <= a < b < |ms| && ms[a].row == ms[b].row ==>
      ms[a].maxCol < ms[b].minCol || ms[b].maxCol < ms[a].minCol
  }

  /** When the merged ranges do not overlap, "the first range that holds the cell" is
      simply the range that holds it. */
  lemma {:induction false} FirstMergeOfDisjoint(ms: seq<MergeRange>, i: nat, r: nat, c: nat)
    requires i < |ms| && InRange(ms[i], r, c)
    requires DisjointMerges(ms)
    ensures FirstMergeAt(ms, r, c) == Some(ms[i])
  {
    if i > 0 {
      assert !InRange(ms[0], r, c) by {
        if ms[0].row == ms[i].row {
          assert ms[0].maxCol < ms[i].minCol || ms[i].maxCol < ms[0].minCol;
        }
      }
      var t := ms[1..];
      assert DisjointMerges(t) by {
        forall a, b | 0 <= a < b < |t| && t[a].row == t[b].row
          ensures t[a].maxCol < t[b].minCol || t[b].maxCol < t[a].minCol
        {
          assert t[a] == ms[a + 1] && t[b] == ms[b + 1];
        }
      }
      FirstMergeOfDisjoint(t, i - 1, r, c);
    }
  }

  class Worksheet {
    var cells: map<Pos, OutCell>
    var borders: set<Pos>
    var merges: seq<MergeRange>
    var widths: map<nat, real>
    var heights: map<nat, nat>
    var maxRow: nat
    var maxCol: nat

    function State(): Grid
      reads this
    {
      Grid(cells, borders, merges, widths, heights, maxRow, maxCol)
    }

    /** `Workbook().active`: an empty sheet. */
    constructor ()
      ensures State() == EmptyGrid
    {
      cells := map[];
      borders := {};
      merges := [];
      widths := map[];
      heights := map[];
      maxRow := 1;
      maxCol := 1;
    }

    /** `worksheet.column_dimensions[get_column_letter(c)].width = w` */
    method SetColumnWidth(c: nat, w: real)
      modifies this
      ensures State() == old(State()).(widths := old(widths)[c := w])
    {
      widths := widths[c := w];
    }

    /** Writes one cell: value, alignment, fill and font on the anchor, then either the
        merge and the border loop over the spanned columns or the anchor's border. */
    method WriteCell(row: nat, col: nat, span: nat, out: OutCell)
      requires span >= 1
      modifies this
      ensures State() == Stamp(old(State()), row, col, span, out)
    {
      ghost var g := State();
      cells := cells[(row, col) := out];
      if span > 1 {
        StampMerged(g, row, col, span, out);
        var last := col + span - 1;
        cells := ClearMerged(cells, row, col, last);
        merges := merges + [MergeRange(row, col, last)];
        BorderSpan(row, col, span);
        maxCol := Max(maxCol, last);
      } else {
        StampSingle(g, row, col, span, out);
        borders := borders + {(row, col)};
        maxCol := Max(maxCol, col);
      }
      maxRow := Max(maxRow, row);
    }

    /** The border loop over the columns of a merge. */
    method BorderSpan(row: nat, col: nat, span: nat)
      modifies this
      ensures State() == old(State()).(borders := old(borders) + Span(row, col, span))
    {
      var bordered := borders;
      for j := 0 to span
        invariant bordered == old(borders) + Span(row, col, j)
      {
        assert Span(row, col, j + 1) == Span(row, col, j) + {(row, col + j)};
        bordered := bordered + {(row, col + j)};
      }
      borders := bordered;
    }

    /** The scan of the merged ranges for the cell at `(r, c)`, with its `break`, and the
        column width it falls back to. */
    method EffectiveWidth(r: nat, c: nat, dflt: real) returns (w: real)
      ensures w == CellWidth(State(), r, c, dflt)
    {
      w := 0.0;
      var merged := false;
      for i := 0 to |merges|
        invariant FirstMergeAt(merges, r, c) == FirstMergeAt(merges[i..], r, c)
        invariant !merged && w == 0.0
      {
        var m := merges[i];
        assert merges[i..][1..] == merges[i + 1..];
        if m.row == r && m.minCol <= c <= m.maxCol {
          for col := m.minCol to m.maxCol + 1
            invariant w == SpanWidth(widths, m.minCol, col - m.minCol, dflt)
          {
            w := w + ColumnWidth(widths, col, dflt);
          }
          merged := true;
          break;
        }
      }
      if !merged {
        assert merges[|merges|..] == [];
        w := ColumnWidth(widths, c, dflt);
      }
    }

    /** The loop over the cells of row `r` that computes `max_lines_in_row`. */
    method RowLinesOf(r: nat, dflt: real) returns (n: nat)
      ensures n == RowLines(State(), r, dflt)
    {
      n := 1;
      for c := 1 to maxCol + 1
        invariant n == RowLinesUpTo(State(), r, c - 1, dflt)
      {
        if (r, c) in cells && cells[(r, c)].value != "" {
          var w := EffectiveWidth(r, c, dflt);
          var text := cells[(r, c)].value;
          var lines := CellLines(text, w);
          if lines > n {
            n := lines;
          }
        }
      }
    }

    /** The row-height pass: every row from 1 to `max_row` gets 15 points per line. */
    method SetRowHeights(dflt: real)
      modifies this
      ensures State() == WithRowHeights(old(State()), dflt)
    {
      ghost var g := State();
      for r := 1 to maxRow + 1
        invariant State() == g.(heights := g.heights + RowHeights(g, r - 1, dflt))
      {
        RowLinesIgnoresHeights(g, heights, r, g.maxCol, dflt);
        var n := RowLinesOf(r, dflt);
        RowHeightsStep(g, g.heights, r, dflt);
        heights := heights[r := 15 * n];
      }
    }
  }
}
