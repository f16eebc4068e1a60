/**
 * Frame composition (src/main.rs, "Display Functions"): the scroll window
 * of a pane, the path line, and the rows of the panes.
 *
 * Terminal output is not modelled: a frame is the path string and, per
 * screen row, the styled cells printed between the "| " and " |"
 * separators together with the `line_len` the source counts for that row.
 */
module Display {
  import opened Types

  /**
   * `get_entry_display_start_idx`: the first listing index shown in a pane
   * of `nRows` rows. The source subtracts `nRows` from the listing length
   * only when that cannot underflow, given a cursor at most one past the end.
   */
  function DisplayStartIdx(dir: Snapshot, config: Config): (start: nat)
    requires dir.selectedIdx <= |dir.contents|
    ensures start <= dir.selectedIdx
    ensures dir.selectedIdx < config.nRows ==> start == 0
    ensures dir.selectedIdx >= config.nRows ==> start + config.nRows <= |dir.contents|
    ensures 0 < config.nRows && dir.selectedIdx < |dir.contents| ==>
      start <= dir.selectedIdx < start + config.nRows
    ensures config.nRows <= dir.selectedIdx == |dir.contents| ==> start + config.nRows == |dir.contents|
  {
    if dir.selectedIdx < config.nRows then 0
    else if dir.selectedIdx + config.nRows > |dir.contents| then |dir.contents| - config.nRows
    else dir.selectedIdx
  }

  /**
   * The window start for every cursor: the first page while the cursor is
   * in it, the last page once the cursor is within `nRows` of the end, and
   * the cursor itself in between.
   */
  lemma DisplayStartIdxCases(dir: Snapshot, config: Config)
    requires dir.selectedIdx <= |dir.contents|
    ensures dir.selectedIdx < config.nRows ==> DisplayStartIdx(dir, config) == 0
    ensures config.nRows <= dir.selectedIdx && dir.selectedIdx + config.nRows > |dir.contents| ==>
      DisplayStartIdx(dir, config) == |dir.contents| - config.nRows
    ensures config.nRows <= dir.selectedIdx && dir.selectedIdx + config.nRows <= |dir.contents| ==>
      DisplayStartIdx(dir, config) == dir.selectedIdx
  {
  }

  /** A listing of 50 entries shown in 10 rows with the cursor on entry 45 starts at entry 40. */
  lemma DisplayStartIdxLastPage()
    ensures DisplayStartIdx(Snapshot("d", seq(50, _ => Entry("e", false, false)), 45, 1), Config(0, 5, 10, 20)) == 40
  {
  }

  /** The fold `acc + "/" + name` over the records, from the left. */
  function FoldPath(acc: string, dirs: seq<Snapshot>): string
    decreases |dirs|
  {
    if dirs == [] then acc else FoldPath(acc + "/" + dirs[0].name, dirs[1..])
  }

  /** Every name preceded by "/", concatenated in stack order. */
  function JoinedPath(dirs: seq<Snapshot>): string
  {
    if dirs == [] then "" else "/" + dirs[0].name + JoinedPath(dirs[1..])
  }

  lemma {:induction false} FoldPathIsJoin(acc: string, dirs: seq<Snapshot>)
    ensures FoldPath(acc, dirs) == acc + JoinedPath(dirs)
    decreases |dirs|
  {
    if dirs != [] {
      FoldPathIsJoin(acc + "/" + dirs[0].name, dirs[1..]);
    }
  }

  /**
   * `display_path_at_row`: the first record (the root) is skipped and every
   * other record contributes "/" and its name; a stack of at most one record
   * gives the empty string.
   */
  function DisplayPath(dirs: seq<Snapshot>): (path: string)
    ensures |dirs| <= 1 ==> path == ""
    ensures |dirs| >= 1 ==> path == JoinedPath(dirs[1..])
  {
    if |dirs| == 0 then ""
    else
      FoldPathIsJoin("", dirs[1..]);
      FoldPath("", dirs[1..])
  }

  lemma {:induction false} JoinedPathAppend(dirs: seq<Snapshot>, d: Snapshot)
    ensures JoinedPath(dirs + [d]) == JoinedPath(dirs) + "/" + d.name
    decreases |dirs|
  {
    if dirs == [] {
      assert dirs + [d] == [d];
    } else {
      assert (dirs + [d])[1..] == dirs[1..] + [d];
      JoinedPathAppend(dirs[1..], d);
    }
  }

  /**
   * The path of a stack is the path of the stack without its last record,
   * followed by "/" and that record's name: popping the last record (the
   * Left key) removes exactly the last path component.
   */
  lemma PathOfLast(dirs: seq<Snapshot>)
    requires |dirs| >= 2
    ensures DisplayPath(dirs) == DisplayPath(dirs[..|dirs| - 1]) + "/" + dirs[|dirs| - 1].name
  {
    var n := |dirs|;
    assert dirs[1..] == dirs[1..n - 1] + [dirs[n - 1]];
    assert dirs[..n - 1][1..] == dirs[1..n - 1];
    JoinedPathAppend(dirs[1..n - 1], dirs[n - 1]);
  }

  /** One screen row: the cells printed after "| ", each followed by " |", and the counted `line_len`. */
  datatype Line = Line(cells: seq<StyledRow>, lineLen: nat)

  /** A frame: the path line and the screen rows. */
  datatype Frame = Frame(path: string, lines: seq<Line>)

  /** The characters a screen row prints: "| ", then each cell followed by " |". */
  function LineText(cells: seq<StyledRow>): string
  {
    if cells == [] then "| "
    else LineText(cells[..|cells| - 1]) + cells[|cells| - 1].text + " |"
  }

  /** How many panes are shown: `min(n_dirs, max_directory_depth)`. */
  function NShow(nDirs: nat, config: Config): nat
  {
    if nDirs < config.maxDirectoryDepth then nDirs else config.maxDirectoryDepth
  }

  /** The number of panes shown is the smaller of the number of records and the depth. */
  lemma NShowIsMin(nDirs: nat, config: Config)
    ensures NShow(nDirs, config) <= nDirs && NShow(nDirs, config) <= config.maxDirectoryDepth
    ensures NShow(nDirs, config) == nDirs || NShow(nDirs, config) == config.maxDirectoryDepth
  {
  }

  /**
   * What `display_dirs` needs so that it neither underflows nor panics:
   * every cursor at most one past its listing, and at least one pane to
   * cycle through whenever a row is printed.
   */
  predicate Renderable(dirs: seq<Snapshot>, config: Config)
  {
    (forall k :: 0 <= k < |dirs| ==> dirs[k].selectedIdx <= |dirs[k].contents|) &&
    (config.nRows > 0 && |dirs| > 0 ==> config.maxDirectoryDepth > 0)
  }

  /** Items the inner loop has taken from the cycle before row `r`: `r` rows of `n` cells. */
  function TakenBefore(r: nat, n: nat): nat
  {
    if r == 0 then 0 else TakenBefore(r - 1, n) + n
  }

  /**
   * The pane an endless cycle over `n` panes yields as its `k`-th item
   * (counting from 0): it steps one pane at a time and restarts after the last.
   */
  function CyclePos(k: nat, n: nat): (p: nat)
    requires n > 0
    ensures p < n
  {
    if k == 0 then 0
    else
      var prev := CyclePos(k - 1, n);
      if prev + 1 == n then 0 else prev + 1
  }

  /** The record whose pane is printed at row `r`, column `j`. */
  function PaneOf(dirs: seq<Snapshot>, config: Config, r: nat, j: nat): nat
    requires Renderable(dirs, config) && r < config.nRows && j < |dirs|
  {
    var nShow := NShow(|dirs|, config);
    |dirs| - nShow + CyclePos(TakenBefore(r, |dirs|) + j, nShow)
  }

  /**
   * The cell printed at row `r`, column `j`: the inner loop runs `|dirs|`
   * times per row and takes the next item of an endless cycle over the
   * shown panes (the last `NShow` records). Only the last column is
   * printed as the tail pane.
   */
  function Cell(dirs: seq<Snapshot>, config: Config, r: nat, j: nat): (c: StyledRow)
    requires Renderable(dirs, config) && r < config.nRows && j < |dirs|
  {
    var d := dirs[PaneOf(dirs, config, r, j)];
    d.PaddedEntryRepr(DisplayStartIdx(d, config) + r, j == |dirs| - 1, config)
  }

  /** The first `n` cells of screen row `r`. */
  function RowCells(dirs: seq<Snapshot>, config: Config, r: nat, n: nat): (cells: seq<StyledRow>)
    requires Renderable(dirs, config) && r < config.nRows && n <= |dirs|
    ensures |cells| == n
  {
    if n == 0 then [] else RowCells(dirs, config, r, n - 1) + [Cell(dirs, config, r, n - 1)]
  }

  /** The cycle's bookkeeping for one cell: which record it prints, and where the cycle goes next. */
  lemma CycleStep(dirs: seq<Snapshot>, config: Config, r: nat, j: nat, k: nat, next: nat)
    requires Renderable(dirs, config) && r < config.nRows && j < |dirs|
    requires k == TakenBefore(r, |dirs|) + j
    requires next == CyclePos(k, NShow(|dirs|, config))
    ensures next < NShow(|dirs|, config)
    ensures PaneOf(dirs, config, r, j) == |dirs| - NShow(|dirs|, config) + next
    ensures (if next + 1 == NShow(|dirs|, config) then 0 else next + 1) == CyclePos(k + 1, NShow(|dirs|, config))
    ensures j + 1 == |dirs| ==> k + 1 == TakenBefore(r + 1, |dirs|)
  {
  }

  /** Appending the cell of column `j`, computed from the record the cycle yields, extends the row. */
  lemma CellOfPane(dirs: seq<Snapshot>, config: Config, r: nat, j: nat, d: Snapshot, c: StyledRow)
    requires Renderable(dirs, config) && r < config.nRows && j < |dirs|
    requires d == dirs[PaneOf(dirs, config, r, j)]
    requires c == d.PaddedEntryRepr(DisplayStartIdx(d, config) + r, j == |dirs| - 1, config)
    ensures RowCells(dirs, config, r, j + 1) == RowCells(dirs, config, r, j) + [c]
    ensures LineLen(dirs, config, r, j + 1) == LineLen(dirs, config, r, j) + |c.text| + 2
  {
    assert c == Cell(dirs, config, r, j);
  }

  /** The `line_len` counted after the first `n` cells of row `r`: 2, then each cell's width plus 2. */
  function LineLen(dirs: seq<Snapshot>, config: Config, r: nat, n: nat): nat
    requires Renderable(dirs, config) && r < config.nRows && n <= |dirs|
  {
    if n == 0 then 2 else LineLen(dirs, config, r, n - 1) + |Cell(dirs, config, r, n - 1).text| + 2
  }

  /** `line_len` counts exactly the characters printed on the row. */
  lemma {:induction false} LineLenIsPrintedWidth(dirs: seq<Snapshot>, config: Config, r: nat, n: nat)
    requires Renderable(dirs, config) && r < config.nRows && n <= |dirs|
    ensures LineLen(dirs, config, r, n) == |LineText(RowCells(dirs, config, r, n))|
  {
    if n > 0 {
      LineLenIsPrintedWidth(dirs, config, r, n - 1);
      var cells := RowCells(dirs, config, r, n);
      assert cells[..n - 1] == RowCells(dirs, config, r, n - 1);
    }
  }

  /** Screen row `r` with the `line_len` the source counts for it. */
  function RowLine(dirs: seq<Snapshot>, config: Config, r: nat): Line
    requires Renderable(dirs, config) && r < config.nRows
  {
    Line(RowCells(dirs, config, r, |dirs|), LineLen(dirs, config, r, |dirs|))
  }

  /** The first `n` screen rows `display_dirs` prints for `dirs`, with the `line_len` it counts for each. */
  function Rows(dirs: seq<Snapshot>, config: Config, n: nat): (lines: seq<Line>)
    requires Renderable(dirs, config) && n <= config.nRows
    ensures |lines| == n
  {
    if n == 0 then [] else Rows(dirs, config, n - 1) + [RowLine(dirs, config, n - 1)]
  }

  /**
   * The state of the inner loop of `display_dirs` after the first `j`
   * cells of row `r`: `k` items taken from the cycle, `next` the pane it
   * yields next, `cells` printed and `lineLen` counted so far.
   */
  predicate RowPrefix(dirs: seq<Snapshot>, config: Config, r: nat, j: nat, k: nat, next: nat,
                      cells: seq<StyledRow>, lineLen: nat)
  {
    Renderable(dirs, config) && r < config.nRows && j <= |dirs| &&
    k == TakenBefore(r, |dirs|) + j &&
    (0 < NShow(|dirs|, config) ==> next == CyclePos(k, NShow(|dirs|, config))) &&
    cells == RowCells(dirs, config, r, j) && lineLen == LineLen(dirs, config, r, j)
  }

  /**
   * The body of the inner loop of `display_dirs` for column `j` of row `r`:
   * the cycle over the shown panes yields the record at position `next`,
   * its cell is printed after `cells`, its width plus 2 is added to
   * `lineLen`, and the cycle moves on.
   */
  method DisplayCell(dirs: seq<Snapshot>, config: Config, nShow: nat, r: nat, j: nat, ghost k: nat, next: nat,
                     cells: seq<StyledRow>, lineLen: nat)
    returns (next': nat, cells': seq<StyledRow>, lineLen': nat)
    requires nShow == NShow(|dirs|, config)
    requires RowPrefix(dirs, config, r, j, k, next, cells, lineLen) && j < |dirs|
    ensures RowPrefix(dirs, config, r, j + 1, k + 1, next', cells', lineLen')
  {
    CycleStep(dirs, config, r, j, k, next);
    ghost var p := PaneOf(dirs, config, r, j);
    var d := dirs[|dirs| - nShow..][next];
    assert d == dirs[p] && d.selectedIdx <= |d.contents|;
    var start := DisplayStartIdx(d, config);
    var repr := d.PaddedEntryRepr(start + r, j == |dirs| - 1, config);
    CellOfPane(dirs, config, r, j, d, repr);
    lineLen' := lineLen + |repr.text|;
    cells' := cells + [repr];
    lineLen' := lineLen' + 2;
    next' := if next + 1 == nShow then 0 else next + 1;
  }

  /**
   * One pass of the outer loop of `display_dirs`: screen row `eOffset`,
   * one cell per record, taken from the cycled iterator whose next pane is
   * `pos`; `next` is the pane it yields after the row.
   */
  method DisplayLine(dirs: seq<Snapshot>, config: Config, nShow: nat, eOffset: nat, pos: nat) returns (line: Line, next: nat)
    requires nShow == NShow(|dirs|, config)
    requires Renderable(dirs, config) && eOffset < config.nRows
    requires 0 < NShow(|dirs|, config) ==> pos == CyclePos(TakenBefore(eOffset, |dirs|), NShow(|dirs|, config))
    ensures line == RowLine(dirs, config, eOffset)
    ensures 0 < NShow(|dirs|, config) ==> next == CyclePos(TakenBefore(eOffset + 1, |dirs|), NShow(|dirs|, config))
  {
    next := pos;
    ghost var k := TakenBefore(eOffset, |dirs|); // items taken from the cycle so far
    var lineLen: nat := 2;
    var cells: seq<StyledRow> := [];
    for dirIdx := 0 to |dirs|
      invariant RowPrefix(dirs, config, eOffset, dirIdx, k, next, cells, lineLen)
    {
      next, cells, lineLen := DisplayCell(dirs, config, nShow, eOffset, dirIdx, k, next, cells, lineLen);
      k := k + 1;
    }
    line := Line(cells, lineLen);
  }

  /** `display_dirs`: prints `nRows` screen rows, each with one cell per record of the stack. */
  method DisplayDirs(dirs: seq<Snapshot>, config: Config) returns (lines: seq<Line>)
    requires Renderable(dirs, config)
    ensures lines == Rows(dirs, config, config.nRows)
  {
    var nShow := NShow(|dirs|, config);
    var pos := 0; // the pane the cycled iterator yields next
    lines := [];
    for eOffset := 0 to config.nRows
      invariant nShow == NShow(|dirs|, config)
      invariant 0 < NShow(|dirs|, config) ==> pos == CyclePos(TakenBefore(eOffset, |dirs|), NShow(|dirs|, config))
      invariant lines == Rows(dirs, config, eOffset)
    {
      var line;
      line, pos := DisplayLine(dirs, config, nShow, eOffset, pos);
      lines := lines + [line];
    }
  }

  lemma {:induction false} RowCellsAt(dirs: seq<Snapshot>, config: Config, r: nat, n: nat)
    requires Renderable(dirs, config) && r < config.nRows && n <= |dirs|
    ensures forall j :: 0 <= j < n ==> RowCells(dirs, config, r, n)[j] == Cell(dirs, config, r, j)
  {
    if n > 0 {
      RowCellsAt(dirs, config, r, n - 1);
      var prev := RowCells(dirs, config, r, n - 1);
      var last := Cell(dirs, config, r, n - 1);
      assert RowCells(dirs, config, r, n) == prev + [last];
      forall j | 0 <= j < n
        ensures RowCells(dirs, config, r, n)[j] == Cell(dirs, config, r, j)
      {
        if j < n - 1 {
          assert (prev + [last])[j] == prev[j];
        }
      }
    }
  }

  lemma {:induction false} RowsAt(dirs: seq<Snapshot>, config: Config, n: nat)
    requires Renderable(dirs, config) && n <= config.nRows
    ensures forall r :: 0 <= r < n ==> Rows(dirs, config, n)[r] == RowLine(dirs, config, r)
  {
    if n > 0 {
      RowsAt(dirs, config, n - 1);
      var prev := Rows(dirs, config, n - 1);
      var last := RowLine(dirs, config, n - 1);
      assert Rows(dirs, config, n) == prev + [last];
      forall r | 0 <= r < n
        ensures Rows(dirs, config, n)[r] == RowLine(dirs, config, r)
      {
        if r < n - 1 {
          assert (prev + [last])[r] == prev[r];
        }
      }
    }
  }

  /**
   * The frame: one line per screen row, each with one cell per record of
   * the stack, the cell at column `j` being `Cell(dirs, config, r, j)`,
   * and `line_len` counting exactly the characters printed on the row.
   */
  lemma DisplayLayout(dirs: seq<Snapshot>, config: Config)
    requires Renderable(dirs, config)
    ensures |Rows(dirs, config, config.nRows)| == config.nRows
    ensures forall r :: 0 <= r < config.nRows ==>
      Rows(dirs, config, config.nRows)[r] == RowLine(dirs, config, r) &&
      |RowLine(dirs, config, r).cells| == |dirs| &&
      RowLine(dirs, config, r).lineLen == |LineText(RowLine(dirs, config, r).cells)|
    ensures forall r, j :: 0 <= r < config.nRows && 0 <= j < |dirs| ==>
      RowLine(dirs, config, r).cells[j] == Cell(dirs, config, r, j)
  {
    RowsAt(dirs, config, config.nRows);
    forall r | 0 <= r < config.nRows
      ensures forall j :: 0 <= j < |dirs| ==> RowLine(dirs, config, r).cells[j] == Cell(dirs, config, r, j)
      ensures RowLine(dirs, config, r).lineLen == |LineText(RowLine(dirs, config, r).cells)|
    {
      RowCellsAt(dirs, config, r, |dirs|);
      LineLenIsPrintedWidth(dirs, config, r, |dirs|);
    }
  }

  lemma {:induction false} CyclePosFromStart(x: nat, j: nat, n: nat)
    requires n > 0 && CyclePos(x, n) == 0 && j < n
    ensures CyclePos(x + j, n) == j
  {
    if j > 0 {
      CyclePosFromStart(x, j - 1, n);
    }
  }

  /** Every row starts at the beginning of the cycle when there are `n` columns and `n` panes. */
  lemma {:induction false} RowStartsCycle(r: nat, n: nat)
    requires n > 0
    ensures CyclePos(TakenBefore(r, n), n) == 0
  {
    if r > 0 {
      RowStartsCycle(r - 1, n);
      CyclePosFromStart(TakenBefore(r - 1, n), n - 1, n);
    }
  }

  /**
   * Every cell is a row of one of the shown panes, the last
   * `min(n_dirs, max_directory_depth)` records, at that pane's window.
   */
  lemma CellFromShownPane(dirs: seq<Snapshot>, config: Config, r: nat, j: nat)
    requires Renderable(dirs, config) && r < config.nRows && j < |dirs|
    ensures exists p :: (|dirs| - NShow(|dirs|, config) <= p < |dirs| &&
      Cell(dirs, config, r, j) == dirs[p].PaddedEntryRepr(DisplayStartIdx(dirs[p], config) + r, j == |dirs| - 1, config))
  {
    var nShow := NShow(|dirs|, config);
    var p := PaneOf(dirs, config, r, j);
    assert Cell(dirs, config, r, j) == dirs[p].PaddedEntryRepr(DisplayStartIdx(dirs[p], config) + r, j == |dirs| - 1, config);
  }

  /**
   * With no more records than `max_directory_depth`, column `j` of every row
   * is record `j` at its window, and only the last column is the tail pane.
   */
  lemma AlignedCells(dirs: seq<Snapshot>, config: Config, r: nat, j: nat)
    requires Renderable(dirs, config) && |dirs| <= config.maxDirectoryDepth
    requires r < config.nRows && j < |dirs|
    ensures Cell(dirs, config, r, j) ==
      dirs[j].PaddedEntryRepr(DisplayStartIdx(dirs[j], config) + r, j == |dirs| - 1, config)
  {
    RowStartsCycle(r, |dirs|);
    CyclePosFromStart(TakenBefore(r, |dirs|), j, |dirs|);
    assert PaneOf(dirs, config, r, j) == j;
  }

  /**
   * With more records than `max_directory_depth` the cycle runs out of step
   * with the columns: for three records and a depth of 2, row 0 prints a
   * third column that repeats record 1 as the tail pane, and row 1 starts
   * with the last record instead of record 1.
   */
  lemma CycleMisaligned(dirs: seq<Snapshot>, config: Config)
    requires Renderable(dirs, config) && |dirs| == 3 && config.maxDirectoryDepth == 2 && config.nRows >= 2
    ensures Cell(dirs, config, 0, 2) == dirs[1].PaddedEntryRepr(DisplayStartIdx(dirs[1], config), true, config)
    ensures Cell(dirs, config, 1, 0) == dirs[2].PaddedEntryRepr(DisplayStartIdx(dirs[2], config) + 1, false, config)
  {
  }

  /** The sum over the records of each pane's row width plus its separator. */
  function PanesWidth(dirs: seq<Snapshot>, config: Config): nat
  {
    if dirs == [] then 0
    else PanesWidth(dirs[..|dirs| - 1], config) + dirs[|dirs| - 1].PadSize(config) + 9
  }

  lemma {:induction false} AlignedLineLen(dirs: seq<Snapshot>, config: Config, r: nat, n: nat)
    requires forall k :: 0 <= k < |dirs| ==> dirs[k].WellFormed()
    requires Renderable(dirs, config) && |dirs| <= config.maxDirectoryDepth
    requires r < config.nRows && n <= |dirs|
    ensures LineLen(dirs, config, r, n) == 2 + PanesWidth(dirs[..n], config)
  {
    if n > 0 {
      AlignedLineLen(dirs, config, r, n - 1);
      AlignedCells(dirs, config, r, n - 1);
      assert dirs[..n][..n - 1] == dirs[..n - 1];
    }
  }

  /**
   * With well-formed records and no more of them than the depth, column
   * `j` of every screen row is record `j` at its window, only the last
   * column is printed as the tail pane, and every row has the same width
   * `2 + Σ (pane width + 2)`.
   */
  lemma AlignedRows(dirs: seq<Snapshot>, config: Config)
    requires forall k :: 0 <= k < |dirs| ==> dirs[k].WellFormed()
    requires Renderable(dirs, config) && |dirs| <= config.maxDirectoryDepth
    ensures forall r, j :: 0 <= r < config.nRows && 0 <= j < |dirs| ==>
      RowLine(dirs, config, r).cells[j] ==
        dirs[j].PaddedEntryRepr(DisplayStartIdx(dirs[j], config) + r, j == |dirs| - 1, config)
    ensures forall r :: 0 <= r < config.nRows ==>
      RowLine(dirs, config, r).lineLen == 2 + PanesWidth(dirs, config)
  {
    DisplayLayout(dirs, config);
    forall r, j | 0 <= r < config.nRows && 0 <= j < |dirs|
      ensures RowLine(dirs, config, r).cells[j] ==
        dirs[j].PaddedEntryRepr(DisplayStartIdx(dirs[j], config) + r, j == |dirs| - 1, config)
    {
      AlignedCells(dirs, config, r, j);
    }
    forall r | 0 <= r < config.nRows
      ensures RowLine(dirs, config, r).lineLen == 2 + PanesWidth(dirs, config)
    {
      AlignedLineLen(dirs, config, r, |dirs|);
      assert dirs[..|dirs|] == dirs;
    }
  }
}
