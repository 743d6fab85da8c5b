/** ANSI capture of a pane and its replay (src/server/capture.rs). */
module Capture {
  import opened Ints
  import opened Wrappers
  import opened Cells
  import opened Sgr
  import opened Screens
  import opened Render

  // ---- Collecting rows ----

  /** A cell that trimming may drop: it looks like a blank. */
  predicate LooksBlank(c: Cell) {
    Shown(c) == Shown(BLANK)
  }

  /** Length of `row[..n]` without its trailing blank-looking cells. */
  function TrimLength(row: Row, n: nat): (k: nat)
    requires n <= |row|
    ensures k <= n
    ensures forall i :: k <= i < n ==> LooksBlank(row[i])
    ensures k > 0 ==> !LooksBlank(row[k - 1])
  {
    if n == 0 || !LooksBlank(row[n - 1]) then n else TrimLength(row, n - 1)
  }

  function ShownCells(row: Row, n: nat): (r: Row)
    requires n <= |row|
    ensures |r| == n && forall i :: 0 <= i < n ==> r[i] == Shown(row[i])
  {
    seq(n, i requires 0 <= i < n => Shown(row[i]))
  }

  function Trimmed(row: Row, cols: nat): Row {
    ShownCells(row, TrimLength(row, Min(|row|, cols)))
  }

  /** The loops of `trim_row`. */
  method TrimRow(row: Row, cols: nat) returns (cells: Row)
    ensures cells == Trimmed(row, cols)
  {
    cells := row[..Min(|row|, cols)];
    while cells != [] && LooksBlank(cells[|cells| - 1])
      invariant |cells| <= Min(|row|, cols) && cells == row[..|cells|]
      invariant TrimLength(row, |cells|) == TrimLength(row, Min(|row|, cols))
    {
      cells := cells[..|cells| - 1];
    }
    ghost var kept := cells;
    for i := 0 to |cells|
      invariant |cells| == |kept|
      invariant forall k :: 0 <= k < |cells| ==> cells[k] == if k < i then Shown(kept[k]) else kept[k]
    {
      if cells[i].ch == NUL { cells := cells[i := Cell(' ', cells[i].style)]; }
    }
  }

  /** Scrollback rows (if wanted), then `paneRows` visible rows, a missing one being empty. */
  function SourceRow(scroll: seq<Row>, visible: seq<Row>, i: nat): Row {
    if i < |scroll| then scroll[i]
    else if i - |scroll| < |visible| then visible[i - |scroll|]
    else []
  }

  function AllRows(scroll: seq<Row>, visible: seq<Row>, paneRows: nat, cols: nat): (r: seq<Row>)
    ensures |r| == |scroll| + paneRows
    ensures forall i :: 0 <= i < |r| ==> r[i] == Trimmed(SourceRow(scroll, visible, i), cols)
  {
    seq(|scroll| + paneRows, i requires 0 <= i => Trimmed(SourceRow(scroll, visible, i), cols))
  }

  /** Length without the trailing empty rows. */
  function FilledLength(rows: seq<Row>, n: nat): (k: nat)
    requires n <= |rows|
    ensures k <= n && forall i :: k <= i < n ==> rows[i] == []
    ensures k > 0 ==> rows[k - 1] != []
  {
    if n == 0 || rows[n - 1] != [] then n else FilledLength(rows, n - 1)
  }

  function Collected(scroll: seq<Row>, visible: seq<Row>, paneRows: nat, cols: nat): seq<Row> {
    var all := AllRows(scroll, visible, paneRows, cols);
    all[..FilledLength(all, |all|)]
  }

  method GatherRows(scroll: seq<Row>, visible: seq<Row>, paneRows: nat, cols: nat) returns (out: seq<Row>)
    ensures out == AllRows(scroll, visible, paneRows, cols)
  {
    out := [];
    for i := 0 to |scroll|
      invariant |out| == i && forall k :: 0 <= k < i ==> out[k] == Trimmed(SourceRow(scroll, visible, k), cols)
    {
      var trimmed := TrimRow(scroll[i], cols);
      out := out + [trimmed];
    }
    for i := 0 to paneRows
      invariant |out| == |scroll| + i
      invariant forall k :: 0 <= k < |out| ==> out[k] == Trimmed(SourceRow(scroll, visible, k), cols)
    {
      var trimmed := TrimRow(if i < |visible| then visible[i] else [], cols);
      out := out + [trimmed];
    }
  }

  /** Pop empty rows off the end. */
  method DropEmptyRows(rows: seq<Row>) returns (out: seq<Row>)
    ensures out == rows[..FilledLength(rows, |rows|)]
  {
    out := rows;
    ghost var n: nat := |rows|;
    while out != [] && out[|out| - 1] == []
      invariant n <= |rows| && out == rows[..n]
      invariant FilledLength(rows, n) == FilledLength(rows, |rows|)
      decreases n
    {
      assert rows[n - 1] == [];
      n := n - 1;
      out := out[..|out| - 1];
    }
  }

  /** The loops of `collect_rows`; `scroll` is empty when scrollback is not wanted. */
  method CollectRows(scroll: seq<Row>, visible: seq<Row>, paneRows: nat, cols: nat) returns (out: seq<Row>)
    ensures out == Collected(scroll, visible, paneRows, cols)
  {
    var all := GatherRows(scroll, visible, paneRows, cols);
    out := DropEmptyRows(all);
  }

  // ---- Rendering and replaying ----

  /** Style changes and characters of cells `j` and on. */
  function LineOut(out: Out, row: Row, j: nat): Out
    requires j <= |row|
    decreases |row| - j
  {
    if j == |row| then out else LineOut(CellOut(out, 0, j, row[j], false), row, j + 1)
  }

  /** One line of the ANSI capture. */
  function Line(row: Row): seq<Cmd> {
    LineOut(Out([], None), row, 0).buf + if row == [] then [] else [ResetStyle]
  }

  function Ansi(rows: seq<Row>): (r: seq<seq<Cmd>>)
    ensures |r| == |rows| && forall i :: 0 <= i < |rows| ==> r[i] == Line(rows[i])
  {
    seq(|rows|, i requires 0 <= i < |rows| => Line(rows[i]))
  }

  /** The loops of `render_ansi`.  A nonempty line ends in the reset, so the source's
      `trim_end` never removes anything. */
  method RenderAnsi(rows: seq<Row>) returns (lines: seq<seq<Cmd>>)
    requires forall i, j :: 0 <= i < |rows| && 0 <= j < |rows[i]| ==> rows[i][j].ch != NUL
    ensures lines == Ansi(rows)
  {
    lines := [];
    for i := 0 to |rows|
      invariant lines == Ansi(rows)[..i]
    {
      var row := rows[i];
      var line, last, styled := [], None, false;
      for j := 0 to |row|
        invariant LineOut(Out(line, last), row, j) == LineOut(Out([], None), row, 0)
        invariant styled == (j > 0) && last.Some? == (j > 0)
      {
        ghost var next := CellOut(Out(line, last), 0, j, row[j], false);
        if last != Some(row[j].style) {
          line := line + [SetStyle(row[j].style)];
          last := Some(row[j].style);
          styled := true;
        }
        line := line + [Put(row[j].ch)];
        assert Out(line, last) == next;
      }
      if styled { line := line + [ResetStyle]; }
      lines := lines + [line];
    }
  }

  /** Terminal `u` is `t` with cells `[j, |row|)` of line `i` written. */
  ghost predicate Written(t: Screen, u: Screen, row: Row, i: nat, j: nat) {
    && |u.rows| == |t.rows| && u.cols == t.cols
    && i < |t.rows| && |t.rows[i]| == |u.rows[i]| == t.cols
    && (forall r :: 0 <= r < |t.rows| && r != i ==> u.rows[r] == t.rows[r])
    && (forall c :: 0 <= c < t.cols ==>
          u.rows[i][c] == if j <= c < |row| then Shown(row[c]) else t.rows[i][c])
  }

  /** One more cell, which the rest of the line continues. */
  lemma LineNext(t0: Screen, run: seq<Cmd> -> Screen, printed: seq<Cmd> -> seq<Pos>, out: Out, row: Row,
      i: nat, j: nat) returns (next: Out)
    requires Region(t0) && RunsLike(t0, run, printed) && j < |row|
    requires Ready(run(out.buf), out.sgr, i, j, |row|, true)
    ensures LineOut(out, row, j) == LineOut(next, row, j + 1)
    ensures Ready(run(next.buf), next.sgr, i, j + 1, |row|, true)
    ensures var t, t' := run(out.buf), run(next.buf);
      t'.rows == t.rows[i := t.rows[i][j := Shown(row[j])]] && t'.cols == t.cols
  {
    next := CellOut(out, 0, j, row[j], false);
    assert run(out.buf) == Run(t0, out.buf) && run(next.buf) == Run(t0, next.buf);
    assert CellCmds(out.sgr, 0, j, row[j], false) == CellCmds(out.sgr, i, j, row[j], false);
    CellOutExact(t0, out, i, j, |row|, row[j], true);
  }

  lemma {:induction false} LineScan(t0: Screen, run: seq<Cmd> -> Screen, printed: seq<Cmd> -> seq<Pos>, out: Out,
      row: Row, i: nat, j: nat)
    requires Region(t0) && RunsLike(t0, run, printed) && j <= |row|
    requires Ready(run(out.buf), out.sgr, i, j, |row|, true)
    ensures var u := run(LineOut(out, row, j).buf); Ok(u) && Written(run(out.buf), u, row, i, j)
    decreases |row| - j
  {
    if j < |row| {
      var next := LineNext(t0, run, printed, out, row, i, j);
      LineScan(t0, run, printed, next, row, i, j + 1);
      WrittenStep(run(out.buf), run(next.buf), run(LineOut(out, row, j).buf), row, i, j);
    }
  }

  lemma LineOutExact(t0: Screen, out: Out, row: Row, i: nat)
    requires Region(t0) && Ready(Run(t0, out.buf), out.sgr, i, 0, |row|, true)
    ensures var u := Run(t0, LineOut(out, row, 0).buf); Ok(u) && Written(Run(t0, out.buf), u, row, i, 0)
  {
    LineScan(t0, cmds => Run(t0, cmds), cmds => Printed(t0, cmds), out, row, i, 0);
  }

  lemma WrittenStep(t: Screen, t1: Screen, u: Screen, row: Row, i: nat, j: nat)
    requires j < |row| <= t.cols && i < |t.rows| && |t.rows[i]| == t.cols
    requires t1.rows == t.rows[i := t.rows[i][j := Shown(row[j])]] && t1.cols == t.cols
    requires Written(t1, u, row, i, j + 1)
    ensures Written(t, u, row, i, j)
  {
  }

  /** Replay lines `[0, n)`, each from the left edge of its own screen row. */
  function Replay(t: Screen, lines: seq<seq<Cmd>>, n: nat): (t': Screen)
    requires Region(t) && n <= |lines|
    ensures Region(t') && |t'.rows| == |t.rows| && t'.cols == t.cols
  {
    if n == 0 then t else Run(MoveCursor(Replay(t, lines, n - 1), n - 1, 0), lines[n - 1])
  }

  lemma LineExact(t: Screen, row: Row, i: nat)
    requires Ok(t) && i < |t.rows| && |row| <= t.cols
    ensures Ok(Run(MoveCursor(t, i, 0), Line(row)))
    ensures Written(t, Run(MoveCursor(t, i, 0), Line(row)), row, i, 0)
  {
    var t0 := MoveCursor(t, i, 0);
    var body := LineOut(Out([], None), row, 0).buf;
    LineOutExact(t0, Out([], None), row, i);
    var tail := if row == [] then [] else [ResetStyle];
    RunAppend(t0, body, tail);
    TailKeepsScreen(Run(t0, body), tail);
  }

  /** Every line replayed so far shows its row, the rest of the screen is blank. */
  ghost predicate Replayed(t: Screen, rows: seq<Row>, n: nat) {
    && Ok(t) && n <= |rows| <= |t.rows|
    && forall i, j :: 0 <= i < |t.rows| && 0 <= j < t.cols ==>
         t.rows[i][j] == if i < n && j < |rows[i]| then Shown(rows[i][j]) else BLANK
  }

  lemma ReplayedStep(t: Screen, u: Screen, rows: seq<Row>, n: nat)
    requires 0 < n <= |rows| && Replayed(t, rows, n - 1) && Ok(u) && Written(t, u, rows[n - 1], n - 1, 0)
    ensures Replayed(u, rows, n)
  {
  }

  lemma {:induction false} ReplayExact(t: Screen, rows: seq<Row>, n: nat)
    requires Ok(t) && n <= |rows| <= |t.rows|
    requires forall i :: 0 <= i < |rows| ==> |rows[i]| <= t.cols
    requires forall i, j :: 0 <= i < |t.rows| && 0 <= j < t.cols ==> t.rows[i][j] == BLANK
    ensures Replayed(Replay(t, Ansi(rows), n), rows, n)
  {
    if n > 0 {
      ReplayExact(t, rows, n - 1);
      var before := Replay(t, Ansi(rows), n - 1);
      LineExact(before, rows[n - 1], n - 1);
      ReplayedStep(before, Run(MoveCursor(before, n - 1, 0), Line(rows[n - 1])), rows, n);
    }
  }

  /** The cell in row `i`, column `j` of the history followed by the visible rows, as shown; blank
      where there is none. */
  function PaneCell(scroll: seq<Row>, visible: seq<Row>, i: nat, j: nat): Cell {
    var rows := scroll + visible;
    Shown(if i < |rows| && j < |rows[i]| then rows[i][j] else BLANK)
  }

  /** Collecting rows loses only cells that look blank. */
  lemma CollectedCell(scroll: seq<Row>, visible: seq<Row>, paneRows: nat, cols: nat, i: nat, j: nat)
    requires i < |scroll| + paneRows && j < cols
    ensures var rows := Collected(scroll, visible, paneRows, cols);
      Shown(if i < |rows| && j < |rows[i]| then Shown(rows[i][j]) else BLANK) == PaneCell(scroll, visible, i, j)
  {
    var all := AllRows(scroll, visible, paneRows, cols);
    var n := FilledLength(all, |all|);
    assert n <= i ==> all[i] == [];
    TrimmedCell(SourceRow(scroll, visible, i), cols, j);
  }

  /** Trimming cuts only cells that show as blanks. */
  lemma TrimmedCell(src: Row, cols: nat, j: nat)
    requires j < cols
    ensures var row := Trimmed(src, cols);
      Shown(if j < |row| then Shown(row[j]) else BLANK) == Shown(if j < |src| then src[j] else BLANK)
  {
  }

  /** A trimmed row does not end in a cell that looks blank, and has no NUL. */
  predicate IsTight(row: Row) {
    && (row != [] ==> row[|row| - 1] != Cell(' ', PLAIN))
    && forall j :: 0 <= j < |row| ==> row[j].ch != NUL
  }

  lemma TrimmedTight(src: Row, cols: nat)
    ensures IsTight(Trimmed(src, cols))
  {
  }

  lemma FrontFilled(all: seq<Row>, rows: seq<Row>)
    requires rows == all[..FilledLength(all, |all|)]
    requires forall i :: 0 <= i < |all| ==> IsTight(all[i])
    ensures rows != [] ==> rows[|rows| - 1] != []
    ensures forall i :: 0 <= i < |rows| ==> IsTight(rows[i])
  {
  }

  /** No captured row ends in a cell that looks blank, no cell is a NUL, and the last row has a
      cell. */
  lemma CollectedTight(scroll: seq<Row>, visible: seq<Row>, paneRows: nat, cols: nat)
    ensures var rows := Collected(scroll, visible, paneRows, cols);
      && (rows != [] ==> rows[|rows| - 1] != [])
      && forall i :: 0 <= i < |rows| ==> IsTight(rows[i])
  {
    var all := AllRows(scroll, visible, paneRows, cols);
    forall i | 0 <= i < |all| ensures IsTight(all[i]) {
      TrimmedTight(SourceRow(scroll, visible, i), cols);
    }
    FrontFilled(all, Collected(scroll, visible, paneRows, cols));
  }

  /** A captured line leaves the plain style behind; an empty one is nothing at all. */
  lemma LineLeavesPlain(t: Screen, row: Row)
    requires Region(t)
    ensures Line(row) == [] || Run(t, Line(row)).pen == PLAIN
    ensures Line([]) == []
  {
    var body := LineOut(Out([], None), row, 0).buf;
    if row != [] {
      RunSnoc(t, body, ResetStyle);
      ResetIsPlain(Run(t, body));
    }
  }

  lemma CollectedSize(scroll: seq<Row>, visible: seq<Row>, paneRows: nat, cols: nat)
    ensures var rows := Collected(scroll, visible, paneRows, cols);
      |rows| <= |scroll| + paneRows && forall i :: 0 <= i < |rows| ==> |rows[i]| <= cols
  {
  }

  lemma ReplayedCell(u: Screen, rows: seq<Row>, i: nat, j: nat)
    requires Replayed(u, rows, |rows|) && i < |u.rows| && j < u.cols
    ensures j < |u.rows[i]|
    ensures Shown(u.rows[i][j]) == Shown(if i < |rows| && j < |rows[i]| then Shown(rows[i][j]) else BLANK)
  {
  }

  /**
   * A capture replays exactly: replaying the ANSI form of the collected rows, line by line,
   * on a blank terminal of at least the captured size shows every captured cell.
   */
  lemma CaptureReplays(t: Screen, scroll: seq<Row>, visible: seq<Row>, paneRows: nat, cols: nat, i: nat, j: nat)
    requires Ok(t) && |scroll| + paneRows <= |t.rows| && cols <= t.cols
    requires forall r, c :: 0 <= r < |t.rows| && 0 <= c < t.cols ==> t.rows[r][c] == BLANK
    requires i < |scroll| + paneRows && j < cols
    ensures var rows := Collected(scroll, visible, paneRows, cols);
      var u := Replay(t, Ansi(rows), |rows|);
      i < |u.rows| && j < |u.rows[i]| && Shown(u.rows[i][j]) == PaneCell(scroll, visible, i, j)
  {
    var rows := Collected(scroll, visible, paneRows, cols);
    CollectedSize(scroll, visible, paneRows, cols);
    ReplayExact(t, rows, |rows|);
    ReplayedCell(Replay(t, Ansi(rows), |rows|), rows, i, j);
    CollectedCell(scroll, visible, paneRows, cols, i, j);
  }
}
