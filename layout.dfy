/** The column geometry of `convert_to_excel`: the pixel widths of a table's `<col>`
    elements, the master layout chosen among the tables, a cell's target width, and the
    greedy number of master columns a cell spans. Widths are whole pixels. */
module Layout {
  import opened Wrappers
  import opened Patterns
  import opened Html

  /** `width:\s*(\d+)` */
  const Width: Pattern := Digits("width:")

  function Min(a: int, b: int): int {
    if a <= b then a else b
  }

  function Max(a: int, b: int): int {
    if a >= b then a else b
  }

  function DigitValue(c: char): nat
    requires IsDigit(c)
  {
    c as int - '0' as int
  }

  predicate AllDigits(d: string) {
    forall i :: 0 <= i < |d| ==> IsDigit(d[i])
  }

  /** `int(d)` for a run of decimal digits. */
  function DigitsValue(d: string): nat
    requires AllDigits(d)
  {
    if d == [] then 0 else 10 * DigitsValue(d[..|d| - 1]) + DigitValue(d[|d| - 1])
  }

  /** Leading zeros do not change the value: `int("007") == 7`. */
  lemma {:induction false} DigitsValueLeadingZero(d: string)
    requires AllDigits(d)
    ensures AllDigits("0" + d) && DigitsValue("0" + d) == DigitsValue(d)
  {
    var z := "0" + d;
    assert AllDigits(z) by {
      forall i | 0 <= i < |z|
        ensures IsDigit(z[i])
      {
        if i > 0 {
          assert z[i] == d[i - 1];
        }
      }
    }
    if d != [] {
      var p := d[..|d| - 1];
      assert z[..|z| - 1] == "0" + p;
      assert z[|z| - 1] == d[|d| - 1];
      DigitsValueLeadingZero(p);
    }
  }

  /** The width a `<col>` declares, `int(re.search(r'width:\s*(\d+)', style).group(1))`,
      or `None` when its style has no such declaration. */
  function ColWidth(c: Col): Option<nat> {
    DigitsCapture(Width.property, c.style);
    match Search(Width, c.style)
    case Some(d) => Some(DigitsValue(d))
    case None => None
  }

  /** The declared values of a list of optional widths, in order: `None` is skipped. */
  function Declared(ws: seq<Option<nat>>): (px: seq<nat>)
    ensures |px| <= |ws|
  {
    if ws == [] then []
    else
      var px := Declared(ws[..|ws| - 1]);
      match ws[|ws| - 1]
      case Some(w) => px + [w]
      case None => px
  }

  /** What each col declares. */
  function ColWidths(cols: seq<Col>): (ws: seq<Option<nat>>)
    ensures |ws| == |cols| && forall i :: 0 <= i < |cols| ==> ws[i] == ColWidth(cols[i])
  {
    seq(|cols|, i requires 0 <= i < |cols| => ColWidth(cols[i]))
  }

  /** The widths of the cols that declare one, in order (the `append` loop over `cols`). */
  function Widths(cols: seq<Col>): (px: seq<nat>)
    ensures |px| <= |cols|
  {
    Declared(ColWidths(cols))
  }

  /** Declared widths of two lists are the declared widths of the first followed by
      those of the second. */
  lemma {:induction false} DeclaredAppend(a: seq<Option<nat>>, b: seq<Option<nat>>)
    ensures Declared(a + b) == Declared(a) + Declared(b)
  {
    if b == [] {
      assert a + b == a;
    } else {
      var b' := b[..|b| - 1];
      assert (a + b)[..|a + b| - 1] == a + b';
      assert (a + b)[|a + b| - 1] == b[|b| - 1];
      DeclaredAppend(a, b');
    }
  }

  /** So the layout of two runs of cols is the layout of the first followed by that of the
      second. */
  lemma WidthsAppend(a: seq<Col>, b: seq<Col>)
    ensures Widths(a + b) == Widths(a) + Widths(b)
  {
    var ab := a + b;
    var ws := ColWidths(a) + ColWidths(b);
    forall i | 0 <= i < |ab|
      ensures ColWidths(ab)[i] == ws[i]
    {
      if i < |a| {
        assert ab[i] == a[i];
      } else {
        assert ab[i] == b[i - |a|];
      }
    }
    assert ColWidths(ab) == ws;
    DeclaredAppend(ColWidths(a), ColWidths(b));
  }

  /** When every entry is present, nothing is skipped and the values keep their places. */
  lemma {:induction false} DeclaredAll(ws: seq<Option<nat>>)
    requires forall i :: 0 <= i < |ws| ==> ws[i].Some?
    ensures |Declared(ws)| == |ws|
    ensures forall i :: 0 <= i < |ws| ==> Declared(ws)[i] == ws[i].value
  {
    if ws != [] {
      var p := ws[..|ws| - 1];
      assert forall i :: 0 <= i < |p| ==> p[i] == ws[i];
      DeclaredAll(p);
      assert Declared(ws) == Declared(p) + [ws[|ws| - 1].value];
    }
  }

  /** When no entry is present the result is empty. */
  lemma {:induction false} DeclaredNone(ws: seq<Option<nat>>)
    requires forall i :: 0 <= i < |ws| ==> ws[i].None?
    ensures Declared(ws) == []
  {
    if ws != [] {
      var p := ws[..|ws| - 1];
      assert forall i :: 0 <= i < |p| ==> p[i] == ws[i];
      DeclaredNone(p);
    }
  }

  /** A col that declares no width contributes nothing, so the layout can be shorter than
      the number of cols, and empty; when every col declares one, the layout lists them all. */
  lemma WidthsOfCols(cols: seq<Col>)
    ensures (forall i :: 0 <= i < |cols| ==> ColWidth(cols[i]).Some?) ==>
      |Widths(cols)| == |cols| && forall i :: 0 <= i < |cols| ==> Widths(cols)[i] == ColWidth(cols[i]).value
    ensures (forall i :: 0 <= i < |cols| ==> ColWidth(cols[i]).None?) ==> Widths(cols) == []
  {
    var ws := ColWidths(cols);
    if forall i :: 0 <= i < |cols| ==> ColWidth(cols[i]).Some? {
      DeclaredAll(ws);
    }
    if forall i :: 0 <= i < |cols| ==> ColWidth(cols[i]).None? {
      DeclaredNone(ws);
    }
  }

  /** The loop over a table's cols that collects their widths. */
  method ParseLayout(cols: seq<Col>) returns (px: seq<nat>)
    ensures px == Widths(cols)
  {
    px := [];
    for i := 0 to |cols|
      invariant px == Declared(ColWidths(cols)[..i])
    {
      assert ColWidths(cols)[..i + 1][..i] == ColWidths(cols)[..i];
      var w := ColWidth(cols[i]);
      if w.Some? {
        px := px + [w.value];
      }
    }
    assert ColWidths(cols)[..|cols|] == ColWidths(cols);
  }

  /** The largest number of cols of any table (`max_cols` at the end of the scan). */
  function MaxCols(tables: seq<Table>): nat {
    if tables == [] then 0 else Max(MaxCols(tables[..|tables| - 1]), |tables[|tables| - 1].cols|)
  }

  /** `(master_layout_pixels, max_cols)` after the scan over `tables`: a table replaces
      the layout only when it has strictly more cols than every table before it. */
  function MasterScan(tables: seq<Table>): (r: (seq<nat>, nat))
    ensures r.1 == MaxCols(tables)
  {
    if tables == [] then ([], 0)
    else
      var prev := MasterScan(tables[..|tables| - 1]);
      var t := tables[|tables| - 1];
      if |t.cols| > prev.1 then (Widths(t.cols), |t.cols|) else prev
  }

  function MasterLayout(tables: seq<Table>): seq<nat> {
    MasterScan(tables).0
  }

  /** The scan over the tables that resolves the master layout. */
  method ResolveMasterLayout(tables: seq<Table>) returns (master: seq<nat>)
    ensures master == MasterLayout(tables)
  {
    master := [];
    var maxCols := 0;
    for i := 0 to |tables|
      invariant (master, maxCols) == MasterScan(tables[..i])
    {
      assert tables[..i + 1][..i] == tables[..i];
      var cols := tables[i].cols;
      if |cols| > maxCols {
        maxCols := |cols|;
        master := ParseLayout(cols);
      }
    }
    assert tables[..|tables|] == tables;
  }

  /** A table with no more cols than the widest before it never replaces the layout. */
  lemma TieKeepsEarlier(tables: seq<Table>, t: Table)
    requires |t.cols| <= MaxCols(tables)
    ensures MasterLayout(tables + [t]) == MasterLayout(tables)
  {
    assert (tables + [t])[..|tables|] == tables;
  }

  lemma {:induction false} MaxColsBelow(tables: seq<Table>, c: nat)
    requires c > 0
    requires forall j :: 0 <= j < |tables| ==> |tables[j].cols| < c
    ensures MaxCols(tables) < c
  {
    if tables != [] {
      var p := tables[..|tables| - 1];
      assert forall j :: 0 <= j < |p| ==> p[j] == tables[j];
      MaxColsBelow(p, c);
    }
  }

  /** The first widest table replaces whatever the scan held before it, ... */
  lemma ScanAtWidest(tables: seq<Table>, k: nat)
    requires k < |tables|
    requires |tables[k].cols| > 0
    requires forall j :: 0 <= j < k ==> |tables[j].cols| < |tables[k].cols|
    ensures MasterScan(tables[..k + 1]) == (Widths(tables[k].cols), |tables[k].cols|)
  {
    var p := tables[..k];
    assert tables[..k + 1][..k] == p;
    assert tables[..k + 1][k] == tables[k];
    assert forall j :: 0 <= j < |p| ==> p[j] == tables[j];
    MaxColsBelow(p, |tables[k].cols|);
  }

  /** ... and no later table replaces it. */
  lemma {:induction false} ScanAfterWidest(tables: seq<Table>, k: nat, m: nat)
    requires k < m <= |tables|
    requires |tables[k].cols| > 0
    requires forall j :: 0 <= j < k ==> |tables[j].cols| < |tables[k].cols|
    requires forall j :: 0 <= j < |tables| ==> |tables[j].cols| <= |tables[k].cols|
    ensures MasterScan(tables[..m]) == (Widths(tables[k].cols), |tables[k].cols|)
  {
    if m == k + 1 {
      ScanAtWidest(tables, k);
    } else {
      ScanAfterWidest(tables, k, m - 1);
      ScanKeeps(tables, m);
    }
  }

  lemma ScanKeeps(tables: seq<Table>, m: nat)
    requires 0 < m <= |tables|
    requires |tables[m - 1].cols| <= MasterScan(tables[..m - 1]).1
    ensures MasterScan(tables[..m]) == MasterScan(tables[..m - 1])
  {
    assert tables[..m][..m - 1] == tables[..m - 1];
    assert tables[..m][m - 1] == tables[m - 1];
  }

  /** The master layout is the layout of the first table whose number of cols is the
      largest, ... */
  lemma FirstWidestIsMaster(tables: seq<Table>, k: nat)
    requires k < |tables|
    requires |tables[k].cols| > 0
    requires forall j :: 0 <= j < k ==> |tables[j].cols| < |tables[k].cols|
    requires forall j :: 0 <= j < |tables| ==> |tables[j].cols| <= |tables[k].cols|
    ensures MasterLayout(tables) == Widths(tables[k].cols)
  {
    ScanAfterWidest(tables, k, |tables|);
    assert tables[..|tables|] == tables;
  }

  /** ... and there is none when no col of any table declares a width, even when the
      tables have cols. */
  lemma {:induction false} NoWidthsNoMaster(tables: seq<Table>)
    requires forall j, k :: 0 <= j < |tables| && 0 <= k < |tables[j].cols| ==> ColWidth(tables[j].cols[k]).None?
    ensures MasterLayout(tables) == []
  {
    if tables != [] {
      var p := tables[..|tables| - 1];
      assert forall j :: 0 <= j < |p| ==> p[j] == tables[j];
      NoWidthsNoMaster(p);
      WidthsOfCols(tables[|tables| - 1].cols);
    }
  }

  /** ... nor when no table has a col. */
  lemma {:induction false} NoColsNoMaster(tables: seq<Table>)
    requires forall j :: 0 <= j < |tables| ==> tables[j].cols == []
    ensures MasterLayout(tables) == [] && MaxCols(tables) == 0
  {
    if tables != [] {
      var p := tables[..|tables| - 1];
      assert forall j :: 0 <= j < |p| ==> p[j] == tables[j];
      NoColsNoMaster(p);
    }
  }

  /** The local widths of the `n` columns from index `cellIdx`, each counted only when the
      local layout has that column. */
  function SpannedWidth(local: seq<nat>, cellIdx: nat, n: nat): nat
    decreases n
  {
    if n == 0 then 0
    else SpannedWidth(local, cellIdx, n - 1) + (if cellIdx + n - 1 < |local| then local[cellIdx + n - 1] else 0)
  }

  /** `target_pixel_width`: the local widths from index `cellIdx` (the cell's position in
      its row) over `colspan` entries, cut at the end of the local layout; 0 when the
      local layout is empty or ends at or before `cellIdx`. */
  function TargetWidth(local: seq<nat>, cellIdx: nat, colspan: int): nat {
    if local != [] && cellIdx < |local| then SpannedWidth(local, cellIdx, Max(colspan, 0)) else 0
  }

  lemma {:induction false} SpannedWidthCut(local: seq<nat>, cellIdx: nat, n: nat)
    requires cellIdx <= |local| <= cellIdx + n
    ensures SpannedWidth(local, cellIdx, n) == SpannedWidth(local, cellIdx, |local| - cellIdx)
    decreases n
  {
    if cellIdx + n > |local| {
      SpannedWidthCut(local, cellIdx, n - 1);
    }
  }

  /** A colspan reaching past the end of the local layout counts only the columns up to
      its end. */
  lemma TargetWidthCut(local: seq<nat>, cellIdx: nat, colspan: int)
    requires cellIdx < |local| && colspan >= |local| - cellIdx
    ensures TargetWidth(local, cellIdx, colspan) == TargetWidth(local, cellIdx, |local| - cellIdx)
  {
    SpannedWidthCut(local, cellIdx, colspan);
  }

  /** A cell spanning one column has that column's local width. */
  lemma TargetWidthSingle(local: seq<nat>, cellIdx: nat)
    requires cellIdx < |local|
    ensures TargetWidth(local, cellIdx, 1) == local[cellIdx]
  {
    assert SpannedWidth(local, cellIdx, 0) == 0;
  }

  /** A colspan of zero or less sums nothing. */
  lemma TargetWidthNoSpan(local: seq<nat>, cellIdx: nat, colspan: int)
    requires colspan <= 0
    ensures TargetWidth(local, cellIdx, colspan) == 0
  {
  }

  /** The summation loop over `range(html_colspan)`. */
  method ComputeTargetWidth(local: seq<nat>, cellIdx: nat, colspan: int) returns (t: nat)
    ensures t == TargetWidth(local, cellIdx, colspan)
  {
    t := 0;
    if local != [] && cellIdx < |local| {
      var n := Max(colspan, 0);
      for i := 0 to n
        invariant t == SpannedWidth(local, cellIdx, i)
      {
        if cellIdx + i < |local| {
          t := t + local[cellIdx + i];
        }
      }
    }
  }

  /** The master widths from column index `start` over `k` columns. */
  function Covered(master: seq<nat>, start: nat, k: nat): nat
    requires start + k <= |master|
    decreases k
  {
    if k == 0 then 0 else Covered(master, start, k - 1) + master[start + k - 1]
  }

  /** The count the `while` loop reaches from `k`: it adds master columns while they
      cover less than 90% of `target` and the grid has more. */
  function GreedyFrom(master: seq<nat>, start: nat, target: nat, k: nat): (n: nat)
    ensures n >= k
    ensures n > k ==> start + n <= |master|
    decreases |master| - start - k
  {
    if start + k < |master| && 10 * Covered(master, start, k) < 9 * target
    then GreedyFrom(master, start, target, k + 1)
    else k
  }

  /** `excel_colspan`: the loop's count from column index `start`, at least 1. */
  function EffectiveColspan(master: seq<nat>, start: nat, target: nat): (k: nat)
    ensures k >= 1
    ensures target == 0 || start >= |master| ==> k == 1
    ensures k <= Max(1, |master| - start)
  {
    Max(1, if target > 0 then GreedyFrom(master, start, target, 0) else 0)
  }

  lemma {:induction false} GreedyFromStops(master: seq<nat>, start: nat, target: nat, k: nat)
    requires start + k <= |master|
    requires forall j :: 0 <= j < k ==> 10 * Covered(master, start, j) < 9 * target
    ensures var n := GreedyFrom(master, start, target, k);
      start + n <= |master| &&
      (10 * Covered(master, start, n) >= 9 * target || start + n == |master|) &&
      forall j :: 0 <= j < n ==> 10 * Covered(master, start, j) < 9 * target
    decreases |master| - start - k
  {
    if start + k < |master| && 10 * Covered(master, start, k) < 9 * target {
      GreedyFromStops(master, start, target, k + 1);
    }
  }

  /** With a positive target and columns left, the colspan is the least number of master
      columns whose widths reach 90% of the target, or all columns up to the end of the
      grid when they never do. */
  lemma ColspanIsLeastCover(master: seq<nat>, start: nat, target: nat)
    requires target > 0 && start < |master|
    ensures var k := EffectiveColspan(master, start, target);
      start + k <= |master| &&
      (10 * Covered(master, start, k) >= 9 * target || start + k == |master|) &&
      forall j :: 0 <= j < k ==> 10 * Covered(master, start, j) < 9 * target
  {
    GreedyFromStops(master, start, target, 0);
    assert GreedyFrom(master, start, target, 0) >= 1 by {
      assert Covered(master, start, 0) == 0;
    }
  }

  /** The `while` loop that accumulates `covered_width` and `excel_colspan`, and the
      `max(1, ...)` after it. */
  method GreedyColspan(master: seq<nat>, start: nat, target: nat) returns (k: nat)
    ensures k == EffectiveColspan(master, start, target)
  {
    var span := 0;
    var covered := 0;
    if target > 0 {
      while 10 * covered < 9 * target && start + span < |master|
        invariant span == 0 || start + span <= |master|
        invariant covered == if span == 0 then 0 else Covered(master, start, span)
        invariant GreedyFrom(master, start, target, span) == GreedyFrom(master, start, target, 0)
        decreases |master| - start - span
      {
        covered := covered + master[start + span];
        span := span + 1;
      }
    }
    k := Max(1, span);
  }
}
