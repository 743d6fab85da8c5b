/** The diff renderer (src/client/render.rs), run on the terminal semantics of `Screens`. */
module Render {
  import opened Ints
  import opened Wrappers
  import opened Cells
  import opened Sgr
  import opened Slices
  import opened Screens
  import opened Grids

  /** What the renderer sends to the outer terminal. */
  datatype Cmd =
    | MoveTo(row: u16, col: u16)  // 1-based
    | SetStyle(style: Style)        // what `emit_sgr` writes
    | ResetStyle                    // `ESC [ 0 m`
    | Put(ch: char)
    | HideCursor
    | ShowCursor

  // ---- The terminal at the other end ----

  predicate Region(t: Screen) {
    t.top <= t.bottom <= |t.rows|
  }

  function Exec(t: Screen, cmd: Cmd): (t': Screen)
    requires Region(t)
    ensures Region(t') && |t'.rows| == |t.rows| && t'.cols == t.cols
  {
    match cmd
    case MoveTo(row, col) => MoveCursor(t, SatSub(row, 1), SatSub(col, 1))
    case SetStyle(style) => SetSgr(t, Emit(style))
    case ResetStyle => SetSgr(t, [[0]])
    case Put(ch) => Print(t, ch)
    case HideCursor => t
    case ShowCursor => t
  }

  function Run(t: Screen, cmds: seq<Cmd>): (t': Screen)
    requires Region(t)
    ensures Region(t') && |t'.rows| == |t.rows| && t'.cols == t.cols
  {
    if cmds == [] then t else Exec(Run(t, cmds[..|cmds| - 1]), cmds[|cmds| - 1])
  }

  lemma RunSnoc(t: Screen, cmds: seq<Cmd>, cmd: Cmd)
    requires Region(t)
    ensures Run(t, cmds + [cmd]) == Exec(Run(t, cmds), cmd)
  {
    assert (cmds + [cmd])[..|cmds|] == cmds;
  }

  lemma RunThreeMore(t: Screen, cmds: seq<Cmd>, a: Cmd, b: Cmd, c: Cmd)
    requires Region(t)
    ensures Run(t, cmds + [a, b, c]) == Exec(Exec(Exec(Run(t, cmds), a), b), c)
  {
    RunSnoc(t, cmds, a);
    RunSnoc(t, cmds + [a], b);
    RunSnoc(t, cmds + [a] + [b], c);
    assert cmds + [a, b, c] == cmds + [a] + [b] + [c];
  }

  lemma {:induction false} RunAppend(t: Screen, a: seq<Cmd>, b: seq<Cmd>)
    requires Region(t)
    ensures Run(t, a + b) == Run(Run(t, a), b)
    decreases |b|
  {
    if b == [] {
      assert a + b == a;
    } else {
      RunAppend(t, a, b[..|b| - 1]);
      assert (a + b)[..|a + b| - 1] == a + b[..|b| - 1];
    }
  }

  // ---- One row ----

  /** Progress of a render: commands so far and the style the terminal is known to hold. */
  datatype Out = Out(buf: seq<Cmd>, sgr: Option<Style>)

  /** The move and style in front of a changed cell; `starts` when it starts a batch. */
  function LeadIn(sgr: Option<Style>, row: nat, col: nat, style: Style, starts: bool): (r: seq<Cmd>)
    ensures NoPuts(r)
  {
    (if starts then [MoveTo((row + 1) % 0x1_0000, (col + 1) % 0x1_0000)] else [])
    + (if sgr == Some(style) then [] else [SetStyle(style)])
  }

  predicate NoPuts(cmds: seq<Cmd>) {
    forall i :: 0 <= i < |cmds| ==> !cmds[i].Put?
  }

  /** Commands for one changed cell. */
  function CellCmds(sgr: Option<Style>, row: nat, col: nat, cell: Cell, starts: bool): seq<Cmd> {
    LeadIn(sgr, row, col, cell.style, starts) + [Put(Glyph(cell))]
  }

  function CellOut(out: Out, row: nat, col: nat, cell: Cell, starts: bool): Out {
    Out(out.buf + CellCmds(out.sgr, row, col, cell, starts), Some(cell.style))
  }

  /** Scan columns `[col, width)`, batching consecutive changed cells. */
  function RowOut(out: Out, prev: Row, cur: Row, row: nat, col: nat, width: nat, inBatch: bool): Out
    requires col <= width <= |prev| && width <= |cur|
    decreases width - col
  {
    if col == width then out
    else if cur[col] == prev[col] then RowOut(out, prev, cur, row, col + 1, width, false)
    else RowOut(CellOut(out, row, col, cur[col], !inBatch), prev, cur, row, col + 1, width, true)
  }

  /** The terminal is ready to continue: it is big enough, holds the style we think it
      holds, and inside a batch its cursor stands on the next cell. */
  ghost predicate Ready(t: Screen, sgr: Option<Style>, row: nat, col: nat, width: nat, inBatch: bool) {
    && Ok(t)
    && row < |t.rows| && width <= t.cols
    && (sgr.Some? ==> t.pen == sgr.value)
    && (inBatch && col < width ==> t.curRow == row && t.curCol == col && !t.wrap)
  }

  lemma MoveStep(t: Screen, row: nat, col: nat)
    requires Ok(t) && row < |t.rows| && col < t.cols && row + 1 < 0x1_0000 && col + 1 < 0x1_0000
    ensures Exec(t, MoveTo((row + 1) % 0x1_0000, (col + 1) % 0x1_0000))
         == t.(curRow := row, curCol := col, wrap := false)
  {
  }

  lemma PenStep(t: Screen, s: Style)
    requires Ok(t)
    ensures Exec(t, SetStyle(s)) == t.(pen := s)
  {
    EmitReadsBack(s, t.pen);
  }

  lemma PutStep(t: Screen, row: nat, col: nat, ch: char)
    requires Ok(t) && row < |t.rows| && col < t.cols && t.curRow == row && t.curCol == col && !t.wrap
    ensures var t' := Exec(t, Put(ch));
      && t'.rows == t.rows[row := t.rows[row][col := Cell(ch, t.pen)]]
      && Ok(t') && t'.cols == t.cols && t'.history == t.history && t'.pen == t.pen
      && (col + 1 < t.cols ==> t'.curRow == row && t'.curCol == col + 1 && !t'.wrap)
  {
  }

  lemma RunOne(t: Screen, a: Cmd)
    requires Region(t)
    ensures Run(t, []) == t && Run(t, [a]) == Exec(t, a)
  {
    assert [a][..0] == [];
  }

  lemma RunTwo(t: Screen, a: Cmd, b: Cmd)
    requires Region(t)
    ensures Run(t, [a, b]) == Exec(Exec(t, a), b)
  {
    RunOne(t, a);
    RunSnoc(t, [a], b);
    assert [a] + [b] == [a, b];
  }

  /** The terminal in front of a print: cursor on the cell, the cell's style set. */
  function Placed(t: Screen, row: nat, col: nat, style: Style): Screen {
    t.(curRow := row, curCol := col, wrap := false, pen := style)
  }

  /** A move can only name 16-bit positions. */
  predicate Reachable(row: nat, width: nat) {
    row + 1 < 0x1_0000 && width < 0x1_0000
  }

  lemma LeadInPlaces(t: Screen, sgr: Option<Style>, row: nat, col: nat, width: nat, style: Style, inBatch: bool)
    requires col < width && Ready(t, sgr, row, col, width, inBatch) && (inBatch || Reachable(row, width))
    ensures Run(t, LeadIn(sgr, row, col, style, !inBatch)) == Placed(t, row, col, style)
  {
    var lead := LeadIn(sgr, row, col, style, !inBatch);
    var move, pen := MoveTo((row + 1) % 0x1_0000, (col + 1) % 0x1_0000), SetStyle(style);
    var t1 := t.(curRow := row, curCol := col, wrap := false);
    PenStep(t1, style);
    if inBatch {
      assert t1 == t;
      assert lead == if sgr == Some(style) then [] else [pen];
      RunOne(t, pen);
    } else {
      MoveStep(t, row, col);
      assert lead == if sgr == Some(style) then [move] else [move, pen];
      RunOne(t, move);
      RunTwo(t, move, pen);
    }
  }

  lemma CellCmdsExact(t: Screen, sgr: Option<Style>, row: nat, col: nat, width: nat, cell: Cell, inBatch: bool)
    requires col < width && Ready(t, sgr, row, col, width, inBatch) && (inBatch || Reachable(row, width))
    ensures var t' := Run(t, CellCmds(sgr, row, col, cell, !inBatch));
      && Ready(t', Some(cell.style), row, col + 1, width, true)
      && t'.rows == t.rows[row := t.rows[row][col := Shown(cell)]]
      && t'.cols == t.cols && t'.history == t.history
  {
    LeadInPlaces(t, sgr, row, col, width, cell.style, inBatch);
    RunSnoc(t, LeadIn(sgr, row, col, cell.style, !inBatch), Put(Glyph(cell)));
    PutStep(Placed(t, row, col, cell.style), row, col, Glyph(cell));
  }

  lemma CellOutExact(t0: Screen, out: Out, row: nat, col: nat, width: nat, cell: Cell, inBatch: bool)
    requires Region(t0) && col < width && Ready(Run(t0, out.buf), out.sgr, row, col, width, inBatch)
    requires inBatch || Reachable(row, width)
    ensures var t := Run(t0, out.buf);
      var next := CellOut(out, row, col, cell, !inBatch);
      var t' := Run(t0, next.buf);
      && Ready(t', next.sgr, row, col + 1, width, true)
      && t'.rows == t.rows[row := t.rows[row][col := Shown(cell)]]
      && t'.cols == t.cols && t'.history == t.history
  {
    CellCmdsExact(Run(t0, out.buf), out.sgr, row, col, width, cell, inBatch);
    RunAppend(t0, out.buf, CellCmds(out.sgr, row, col, cell, !inBatch));
  }

  // ---- Where characters are printed ----

  datatype Pos = Pos(row: nat, col: nat)

  /** Where the next print goes. */
  function PutAt(t: Screen): Pos
    requires Region(t)
  {
    if t.wrap then Pos(NextRow(t).curRow, 0) else Pos(t.curRow, t.curCol)
  }

  /** The positions printed on while the commands run, in order. */
  function Printed(t: Screen, cmds: seq<Cmd>): seq<Pos>
    requires Region(t)
  {
    if cmds == [] then []
    else
      var init := cmds[..|cmds| - 1];
      Printed(t, init) + if cmds[|cmds| - 1].Put? then [PutAt(Run(t, init))] else []
  }

  lemma PrintedSnoc(t: Screen, cmds: seq<Cmd>, cmd: Cmd)
    requires Region(t)
    ensures Printed(t, cmds + [cmd]) == Printed(t, cmds) + if cmd.Put? then [PutAt(Run(t, cmds))] else []
  {
    assert (cmds + [cmd])[..|cmds|] == cmds;
  }

  lemma {:induction false} PrintedAppend(t: Screen, a: seq<Cmd>, b: seq<Cmd>)
    requires Region(t)
    ensures Printed(t, a + b) == Printed(t, a) + Printed(Run(t, a), b)
    decreases |b|
  {
    if b == [] {
      assert a + b == a;
    } else {
      var init, last := b[..|b| - 1], b[|b| - 1];
      PrintedAppend(t, a, init);
      RunAppend(t, a, init);
      assert a + b == a + init + [last];
      PrintedSnoc(t, a + init, last);
    }
  }

  lemma {:induction false} NoPutsPrintNothing(t: Screen, cmds: seq<Cmd>)
    requires Region(t) && NoPuts(cmds)
    ensures Printed(t, cmds) == []
    decreases |cmds|
  {
    if cmds != [] { NoPutsPrintNothing(t, cmds[..|cmds| - 1]); }
  }

  /** A changed cell is printed on once, in its place. */
  lemma CellPrints(t0: Screen, out: Out, row: nat, col: nat, width: nat, cell: Cell, inBatch: bool)
    requires Region(t0) && col < width && Ready(Run(t0, out.buf), out.sgr, row, col, width, inBatch)
    requires inBatch || Reachable(row, width)
    ensures Printed(t0, CellOut(out, row, col, cell, !inBatch).buf) == Printed(t0, out.buf) + [Pos(row, col)]
  {
    var t, lead := Run(t0, out.buf), LeadIn(out.sgr, row, col, cell.style, !inBatch);
    LeadInPlaces(t, out.sgr, row, col, width, cell.style, inBatch);
    PrintedSnoc(t, lead, Put(Glyph(cell)));
    NoPutsPrintNothing(t, lead);
    assert [] + [Pos(row, col)] == [Pos(row, col)];
    PrintedAppend(t0, out.buf, lead + [Put(Glyph(cell))]);
  }

  /** Terminal `u` is `t` with the changed cells of `[col, width)` of one row redrawn. */
  ghost predicate Redrawn(t: Screen, u: Screen, prev: Row, cur: Row, row: nat, col: nat, width: nat)
    requires width <= |prev| && width <= |cur|
  {
    && |u.rows| == |t.rows| && u.cols == t.cols && u.history == t.history
    && row < |t.rows| && |t.rows[row]| == |u.rows[row]| == t.cols
    && (forall r :: 0 <= r < |t.rows| && r != row ==> u.rows[r] == t.rows[r])
    && (forall c :: 0 <= c < t.cols ==>
          u.rows[row][c] == if col <= c < width && cur[c] != prev[c] then Shown(cur[c]) else t.rows[row][c])
  }

  /** A row has been drawn from `col` on, the pen is known, and the screen is sound. */
  ghost predicate RowDone(t: Screen, u: Screen, sgr: Option<Style>, prev: Row, cur: Row, row: nat, col: nat, width: nat)
    requires width <= |prev| && width <= |cur|
  {
    Redrawn(t, u, prev, cur, row, col, width) && (sgr.Some? ==> u.pen == sgr.value) && Ok(u)
  }

  lemma RedrawnStep(t: Screen, t1: Screen, u: Screen, sgr: Option<Style>, prev: Row, cur: Row, row: nat, col: nat,
      width: nat)
    requires col < width <= |prev| && width <= |cur| && width <= t.cols && cur[col] != prev[col]
    requires row < |t.rows| && |t.rows[row]| == t.cols
    requires t1.rows == t.rows[row := t.rows[row][col := Shown(cur[col])]]
    requires t1.cols == t.cols && t1.history == t.history
    requires RowDone(t1, u, sgr, prev, cur, row, col + 1, width)
    ensures RowDone(t, u, sgr, prev, cur, row, col, width)
  {
  }

  lemma RedrawnSkip(t: Screen, u: Screen, sgr: Option<Style>, prev: Row, cur: Row, row: nat, col: nat, width: nat)
    requires col < width <= |prev| && width <= |cur| && cur[col] == prev[col]
    requires RowDone(t, u, sgr, prev, cur, row, col + 1, width)
    ensures RowDone(t, u, sgr, prev, cur, row, col, width)
  {
  }

  lemma RedrawnNone(t: Screen, sgr: Option<Style>, prev: Row, cur: Row, row: nat, width: nat)
    requires width <= |prev| && width <= |cur| && Ok(t) && row < |t.rows| && (sgr.Some? ==> t.pen == sgr.value)
    ensures RowDone(t, t, sgr, prev, cur, row, width, width)
  {
  }

  /** The changed cells of `[col, width)` of one row. */
  function Changed(prev: Row, cur: Row, row: nat, col: nat, width: nat): seq<Pos>
    requires col <= width <= |prev| && width <= |cur|
    decreases width - col
  {
    if col == width then []
    else (if cur[col] != prev[col] then [Pos(row, col)] else []) + Changed(prev, cur, row, col + 1, width)
  }

  lemma ChangedStep(prev: Row, cur: Row, row: nat, col: nat, width: nat)
    requires col < width <= |prev| && width <= |cur|
    ensures var rest := Changed(prev, cur, row, col + 1, width);
      Changed(prev, cur, row, col, width) == if cur[col] != prev[col] then [Pos(row, col)] + rest else rest
  {
    var rest := Changed(prev, cur, row, col + 1, width);
    assert [] + rest == rest;
  }

  /** What commands do to `t0`; the proof about a row need not look inside. */
  ghost predicate RunsLike(t0: Screen, run: seq<Cmd> -> Screen, printed: seq<Cmd> -> seq<Pos>)
    requires Region(t0)
  {
    forall cmds {:trigger Run(t0, cmds)} {:trigger Printed(t0, cmds)} ::
      run(cmds) == Run(t0, cmds) && printed(cmds) == Printed(t0, cmds)
  }

  /** A changed cell: the output after it, which the rest of the row continues. */
  lemma CellNext(t0: Screen, run: seq<Cmd> -> Screen, printed: seq<Cmd> -> seq<Pos>, out: Out, prev: Row, cur: Row,
      row: nat, col: nat, width: nat, inBatch: bool) returns (next: Out)
    requires col < width <= |prev| && width <= |cur| && cur[col] != prev[col]
    requires Region(t0) && RunsLike(t0, run, printed)
    requires Ready(run(out.buf), out.sgr, row, col, width, inBatch) && Reachable(row, width)
    ensures RowOut(out, prev, cur, row, col, width, inBatch) == RowOut(next, prev, cur, row, col + 1, width, true)
    ensures Ready(run(next.buf), next.sgr, row, col + 1, width, true)
    ensures var t, t' := run(out.buf), run(next.buf);
      && t'.rows == t.rows[row := t.rows[row][col := Shown(cur[col])]]
      && t'.cols == t.cols && t'.history == t.history
    ensures printed(next.buf) == printed(out.buf) + [Pos(row, col)]
  {
    next := CellOut(out, row, col, cur[col], !inBatch);
    assert run(out.buf) == Run(t0, out.buf) && run(next.buf) == Run(t0, next.buf);
    CellOutExact(t0, out, row, col, width, cur[col], inBatch);
    CellPrints(t0, out, row, col, width, cur[col], inBatch);
  }

  lemma {:induction false} RowScan(t0: Screen, run: seq<Cmd> -> Screen, printed: seq<Cmd> -> seq<Pos>, out: Out,
      prev: Row, cur: Row, row: nat, col: nat, width: nat, inBatch: bool)
    requires col <= width <= |prev| && width <= |cur|
    requires Region(t0) && RunsLike(t0, run, printed)
    requires Ready(run(out.buf), out.sgr, row, col, width, inBatch) && Reachable(row, width)
    ensures var next := RowOut(out, prev, cur, row, col, width, inBatch);
      && RowDone(run(out.buf), run(next.buf), next.sgr, prev, cur, row, col, width)
      && printed(next.buf) == printed(out.buf) + Changed(prev, cur, row, col, width)
    decreases width - col
  {
    var t, all := run(out.buf), RowOut(out, prev, cur, row, col, width, inBatch);
    if col == width {
      RedrawnNone(t, out.sgr, prev, cur, row, width);
      assert printed(out.buf) + [] == printed(out.buf);
    } else if cur[col] == prev[col] {
      RowScan(t0, run, printed, out, prev, cur, row, col + 1, width, false);
      RedrawnSkip(t, run(all.buf), all.sgr, prev, cur, row, col, width);
      ChangedStep(prev, cur, row, col, width);
    } else {
      var next := CellNext(t0, run, printed, out, prev, cur, row, col, width, inBatch);
      RowScan(t0, run, printed, next, prev, cur, row, col + 1, width, true);
      RedrawnStep(t, run(next.buf), run(all.buf), all.sgr, prev, cur, row, col, width);
      ChangedStep(prev, cur, row, col, width);
      Assoc(printed(out.buf), [Pos(row, col)], Changed(prev, cur, row, col + 1, width));
    }
  }

  /** A scanned row: changed cells of `[col, width)` now show the new content, every other cell
      of the terminal is as it was, and exactly the changed cells are printed on, left to
      right. */
  lemma RowOutExact(t0: Screen, out: Out, prev: Row, cur: Row, row: nat, col: nat, width: nat, inBatch: bool)
    requires col <= width <= |prev| && width <= |cur|
    requires Region(t0) && Ready(Run(t0, out.buf), out.sgr, row, col, width, inBatch) && Reachable(row, width)
    ensures var next := RowOut(out, prev, cur, row, col, width, inBatch);
      && RowDone(Run(t0, out.buf), Run(t0, next.buf), next.sgr, prev, cur, row, col, width)
      && Printed(t0, next.buf) == Printed(t0, out.buf) + Changed(prev, cur, row, col, width)
  {
    RowScan(t0, cmds => Run(t0, cmds), cmds => Printed(t0, cmds), out, prev, cur, row, col, width, inBatch);
  }

  // ---- One frame ----

  /** The grid as the renderer sees it. */
  datatype Picture = Picture(rows: seq<Row>, cols: nat)

  function Width(prev: seq<Row>, pic: Picture, viewCols: nat, row: nat): (w: nat)
    requires row < |prev| && row < |pic.rows|
    ensures w <= viewCols && w <= |prev[row]| && w <= |pic.rows[row]| && w <= pic.cols
  {
    Min(Min(viewCols, pic.cols), Min(|prev[row]|, |pic.rows[row]|))
  }

  predicate Drawn(prev: seq<Row>, pic: Picture, viewRows: nat, row: nat) {
    row < viewRows && row < |pic.rows| && row < |prev|
  }

  /** The row of `prev` after drawing: new content up to the width drawn. */
  function Overlay(prev: Row, cur: Row, width: nat): (r: Row)
    requires width <= |prev| && width <= |cur|
    ensures |r| == |prev|
    ensures forall c :: 0 <= c < |r| ==> r[c] == if c < width then cur[c] else prev[c]
  {
    seq(|prev|, c requires 0 <= c < |prev| => if c < width then cur[c] else prev[c])
  }

  datatype Frame = Frame(out: Out, prev: seq<Row>)

  function RowFrame(f: Frame, pic: Picture, viewRows: nat, viewCols: nat, row: nat): (f': Frame)
    ensures |f'.prev| == |f.prev|
  {
    if !Drawn(f.prev, pic, viewRows, row) then f
    else
      var width := Width(f.prev, pic, viewCols, row);
      Frame(RowOut(f.out, f.prev[row], pic.rows[row], row, 0, width, false),
            f.prev[row := Overlay(f.prev[row], pic.rows[row], width)])
  }

  /** Draw the first `n` of the dirty rows. */
  function Rows(f: Frame, pic: Picture, viewRows: nat, viewCols: nat, dirtyRows: seq<nat>, n: nat): (f': Frame)
    requires n <= |dirtyRows|
    ensures |f'.prev| == |f.prev|
  {
    if n == 0 then f
    else RowFrame(Rows(f, pic, viewRows, viewCols, dirtyRows, n - 1), pic, viewRows, viewCols, dirtyRows[n - 1])
  }

  /** The renderer's bookkeeping of the cursor. */
  datatype Cursor = Cursor(at: (nat, nat), visible: bool)

  /** The move to a cursor, in `u16` counted from one. */
  function CursorTo(now: Cursor): Cmd {
    MoveTo((now.at.0 + 1) % 0x1_0000, (now.at.1 + 1) % 0x1_0000)
  }

  /** Commands after the cells: hide, home and show the cursor, then reset the style. */
  function Tail(wrote: bool, was: Cursor, now: Cursor, inView: bool): seq<Cmd> {
    var cursor :=
      if now.visible && inView then
        (if now.at != was.at || !was.visible then
           (if wrote then [] else [HideCursor]) + [CursorTo(now)]
         else [])
        + [ShowCursor]
      else if was.visible then [HideCursor]
      else [];
    if wrote || cursor != [] then cursor + [ResetStyle] else []
  }

  function FrameOut(cells: seq<Cmd>, was: Cursor, now: Cursor, inView: bool): seq<Cmd> {
    (if cells != [] then [HideCursor] + cells else cells) + Tail(cells != [], was, now, inView)
  }

  lemma TailKeepsScreen(t: Screen, cmds: seq<Cmd>)
    requires Region(t) && NoPuts(cmds)
    ensures Run(t, cmds).rows == t.rows && Run(t, cmds).history == t.history
    ensures Ok(t) ==> Ok(Run(t, cmds))
  {
  }

  /** Everything around the cells leaves the screen content alone. */
  lemma FrameOutShows(t: Screen, cells: seq<Cmd>, was: Cursor, now: Cursor, inView: bool)
    requires Region(t)
    ensures var t' := Run(t, FrameOut(cells, was, now, inView));
      && t'.rows == Run(t, cells).rows && t'.history == Run(t, cells).history
      && (Ok(Run(t, cells)) ==> Ok(t'))
  {
    var body := if cells != [] then [HideCursor] + cells else cells;
    var tail := Tail(cells != [], was, now, inView);
    RunAppend(t, body, tail);
    TailHasNoPuts(cells != [], was, now, inView);
    TailKeepsScreen(Run(t, body), tail);
    HiddenCells(t, cells);
  }

  lemma TailHasNoPuts(wrote: bool, was: Cursor, now: Cursor, inView: bool)
    ensures NoPuts(Tail(wrote, was, now, inView))
  {
  }

  lemma HiddenCells(t: Screen, cells: seq<Cmd>)
    requires Region(t)
    ensures Run(t, if cells != [] then [HideCursor] + cells else cells) == Run(t, cells)
  {
    if cells != [] {
      RunAppend(t, [HideCursor], cells);
      RunOne(t, HideCursor);
    }
  }

  // ---- The screen agrees with what was drawn last ----

  ghost predicate Rectangular(rows: seq<Row>, cols: nat) {
    forall r :: 0 <= r < |rows| ==> |rows[r]| == cols
  }

  /** The viewport `rows x cols` is inside the terminal, the grid and `prev`. */
  ghost predicate Fits(t: Screen, prev: seq<Row>, pic: Picture, rows: nat, cols: nat) {
    && Ok(t)
    && rows <= |t.rows| && cols <= t.cols && rows < 0x1_0000 && cols < 0x1_0000
    && rows <= |prev| && rows <= |pic.rows| && cols <= pic.cols
    && Rectangular(pic.rows, pic.cols)
    && (forall r :: 0 <= r < rows ==> |prev[r]| >= cols)
  }

  /** On the viewport the screen shows `prev`. */
  ghost predicate Agrees(t: Screen, prev: seq<Row>, rows: nat, cols: nat)
    requires Ok(t) && rows <= |t.rows| && cols <= t.cols && rows <= |prev|
    requires forall r :: 0 <= r < rows ==> |prev[r]| >= cols
  {
    forall r, c :: 0 <= r < rows && 0 <= c < cols ==> Shown(t.rows[r][c]) == Shown(prev[r][c])
  }

  /** Clean viewport rows of the grid equal `prev`. */
  ghost predicate CleanRowsDrawn(prev: seq<Row>, pic: Picture, dirty: seq<bool>, rows: nat, cols: nat)
    requires rows <= |prev| && rows <= |pic.rows| && cols <= pic.cols && Rectangular(pic.rows, pic.cols)
    requires forall r :: 0 <= r < rows ==> |prev[r]| >= cols
  {
    && |dirty| == |pic.rows|
    && forall r, c :: 0 <= r < rows && 0 <= c < cols && !dirty[r] ==> prev[r][c] == pic.rows[r][c]
  }

  ghost predicate Synced(t: Screen, prev: seq<Row>, pic: Picture, dirty: seq<bool>, rows: nat, cols: nat) {
    && Fits(t, prev, pic, rows, cols)
    && Agrees(t, prev, rows, cols)
    && CleanRowsDrawn(prev, pic, dirty, rows, cols)
  }

  /** The viewport shows the grid. */
  ghost predicate Shows(t: Screen, pic: Picture, rows: nat, cols: nat) {
    forall r, c :: 0 <= r < rows && 0 <= c < cols ==>
      r < |t.rows| && c < |t.rows[r]| && r < |pic.rows| && c < |pic.rows[r]|
      && Shown(t.rows[r][c]) == Shown(pic.rows[r][c])
  }

  /** What a frame under construction keeps. */
  ghost predicate Sound(t0: Screen, f: Frame, pic: Picture, rows: nat, cols: nat) {
    Ok(t0) && SoundOn(Run(t0, f.out.buf), f, pic, rows, cols)
  }

  ghost predicate SoundOn(t: Screen, f: Frame, pic: Picture, rows: nat, cols: nat) {
    Fits(t, f.prev, pic, rows, cols) && (f.out.sgr.Some? ==> t.pen == f.out.sgr.value)
  }

  /** From screen `t` and `prev` to `u` and `prev'` the rows `drawn` were drawn: `prev'` has
      their content, the screen their changed cells, and all else is as it was. */
  ghost predicate DrawnOnto(t: Screen, prev: seq<Row>, u: Screen, prev': seq<Row>, pic: Picture, rows: nat, cols: nat,
      drawn: seq<nat>)
    requires Fits(t, prev, pic, rows, cols) && Fits(u, prev', pic, rows, cols)
  {
    && (forall r, c :: 0 <= r < rows && 0 <= c < cols ==>
          prev'[r][c] == if r in drawn then pic.rows[r][c] else prev[r][c])
    && (forall r, c :: 0 <= r < rows && 0 <= c < cols ==>
          u.rows[r][c] == if r in drawn && pic.rows[r][c] != prev[r][c] then Shown(pic.rows[r][c]) else t.rows[r][c])
  }

  lemma RedrawnOnto(t: Screen, u: Screen, prev: seq<Row>, pic: Picture, rows: nat, cols: nat, row: nat, width: nat)
    requires Fits(t, prev, pic, rows, cols) && Ok(u)
    requires row < rows && cols == width <= |prev[row]|
    requires Redrawn(t, u, prev[row], pic.rows[row], row, 0, width)
    ensures var prev' := prev[row := Overlay(prev[row], pic.rows[row], width)];
      Fits(u, prev', pic, rows, cols) && DrawnOnto(t, prev, u, prev', pic, rows, cols, [row])
  {
  }

  /** Drawing one row. */
  lemma RowFrameExact(t0: Screen, f: Frame, pic: Picture, rows: nat, cols: nat, row: nat)
    requires Sound(t0, f, pic, rows, cols)
    ensures var f' := RowFrame(f, pic, rows, cols, row);
      && Sound(t0, f', pic, rows, cols)
      && DrawnOnto(Run(t0, f.out.buf), f.prev, Run(t0, f'.out.buf), f'.prev, pic, rows, cols, [row])
  {
    if Drawn(f.prev, pic, rows, row) {
      var width := Width(f.prev, pic, cols, row);
      assert width == cols;
      RowOutExact(t0, f.out, f.prev[row], pic.rows[row], row, 0, width, false);
      var next := RowOut(f.out, f.prev[row], pic.rows[row], row, 0, width, false);
      RedrawnOnto(Run(t0, f.out.buf), Run(t0, next.buf), f.prev, pic, rows, cols, row, width);
    }
  }

  /** The screen a frame under construction leaves; the induction over rows need not look inside. */
  ghost predicate ScreenLike(t0: Screen, screen: Frame -> Screen)
    requires Region(t0)
  {
    forall f {:trigger Run(t0, f.out.buf)} :: screen(f) == Run(t0, f.out.buf)
  }

  lemma RowsNext(t0: Screen, screen: Frame -> Screen, f: Frame, pic: Picture, rows: nat, cols: nat, row: nat)
    returns (after: Frame)
    requires Ok(t0) && ScreenLike(t0, screen) && SoundOn(screen(f), f, pic, rows, cols)
    ensures after == RowFrame(f, pic, rows, cols, row) && SoundOn(screen(after), after, pic, rows, cols)
    ensures DrawnOnto(screen(f), f.prev, screen(after), after.prev, pic, rows, cols, [row])
  {
    after := RowFrame(f, pic, rows, cols, row);
    assert screen(f) == Run(t0, f.out.buf) && screen(after) == Run(t0, after.out.buf);
    RowFrameExact(t0, f, pic, rows, cols, row);
  }

  lemma {:induction false} RowsDrawn(t0: Screen, screen: Frame -> Screen, f: Frame, pic: Picture, dirtyRows: seq<nat>,
      n: nat, rows: nat, cols: nat)
    requires n <= |dirtyRows| && Ok(t0) && ScreenLike(t0, screen) && SoundOn(screen(f), f, pic, rows, cols)
    ensures var f' := Rows(f, pic, rows, cols, dirtyRows, n);
      && SoundOn(screen(f'), f', pic, rows, cols)
      && DrawnOnto(screen(f), f.prev, screen(f'), f'.prev, pic, rows, cols, dirtyRows[..n])
  {
    if n > 0 {
      RowsDrawn(t0, screen, f, pic, dirtyRows, n - 1, rows, cols);
      var before := Rows(f, pic, rows, cols, dirtyRows, n - 1);
      var after := RowsNext(t0, screen, before, pic, rows, cols, dirtyRows[n - 1]);
      assert dirtyRows[..n] == dirtyRows[..n - 1] + [dirtyRows[n - 1]];
      DrawnStep(screen(f), f.prev, screen(before), before.prev, screen(after), after.prev,
        pic, rows, cols, dirtyRows[..n - 1], dirtyRows[n - 1]);
    }
  }

  lemma RowsExact(t0: Screen, f: Frame, pic: Picture, dirtyRows: seq<nat>, n: nat, rows: nat, cols: nat)
    requires n <= |dirtyRows| && Sound(t0, f, pic, rows, cols)
    ensures var f' := Rows(f, pic, rows, cols, dirtyRows, n);
      && Sound(t0, f', pic, rows, cols)
      && DrawnOnto(Run(t0, f.out.buf), f.prev, Run(t0, f'.out.buf), f'.prev, pic, rows, cols, dirtyRows[..n])
  {
    RowsDrawn(t0, (g: Frame) => Run(t0, g.out.buf), f, pic, dirtyRows, n, rows, cols);
  }

  lemma DrawnStep(t: Screen, prev: seq<Row>, t1: Screen, prev1: seq<Row>, u: Screen, prev2: seq<Row>, pic: Picture,
      rows: nat, cols: nat, drawn: seq<nat>, row: nat)
    requires Fits(t, prev, pic, rows, cols) && Fits(t1, prev1, pic, rows, cols) && Fits(u, prev2, pic, rows, cols)
    requires DrawnOnto(t, prev, t1, prev1, pic, rows, cols, drawn)
    requires DrawnOnto(t1, prev1, u, prev2, pic, rows, cols, [row])
    ensures DrawnOnto(t, prev, u, prev2, pic, rows, cols, drawn + [row])
  {
  }

  /** The cells of a frame, on any screen: exactly the dirty rows are drawn. */
  lemma CellsExact(t: Screen, prev: seq<Row>, pic: Picture, dirty: seq<bool>, rows: nat, cols: nat)
    requires Fits(t, prev, pic, rows, cols)
    ensures var f := DrawAll(prev, pic, dirty, rows, cols); var u := Run(t, f.out.buf);
      Fits(u, f.prev, pic, rows, cols) && DrawnOnto(t, prev, u, f.prev, pic, rows, cols, DirtyRows(dirty, |dirty|))
  {
    var dirtyRows := DirtyRows(dirty, |dirty|);
    RowsExact(t, Frame(Out([], None), prev), pic, dirtyRows, |dirtyRows|, rows, cols);
    assert dirtyRows[..|dirtyRows|] == dirtyRows;
  }

  /** The screen may differ from `prev` where `prev` is blank: that is what a scroll of the
      terminal leaves, after which `prev` is blanked. */
  ghost predicate Nearly(t: Screen, prev: seq<Row>, pic: Picture, dirty: seq<bool>, rows: nat, cols: nat) {
    && Fits(t, prev, pic, rows, cols)
    && (forall r, c :: 0 <= r < rows && 0 <= c < cols ==>
          Shown(t.rows[r][c]) == Shown(prev[r][c]) || prev[r][c] == BLANK)
    && CleanRowsDrawn(prev, pic, dirty, rows, cols)
  }

  /** Every viewport cell that is blank in the grid and in `prev` looks blank on the screen. */
  ghost predicate BlankLooksBlank(t: Screen, prev: seq<Row>, pic: Picture, rows: nat, cols: nat)
    requires Fits(t, prev, pic, rows, cols)
  {
    forall r, c :: 0 <= r < rows && 0 <= c < cols && pic.rows[r][c] == BLANK && prev[r][c] == BLANK ==>
      Shown(t.rows[r][c]) == Shown(BLANK)
  }

  lemma SyncedIsNearly(t: Screen, prev: seq<Row>, pic: Picture, dirty: seq<bool>, rows: nat, cols: nat)
    requires Synced(t, prev, pic, dirty, rows, cols)
    ensures Nearly(t, prev, pic, dirty, rows, cols) && BlankLooksBlank(t, prev, pic, rows, cols)
  {
  }

  /** Cell by cell, what the dirty rows drawn leave on the screen. */
  lemma DrawnCell(t: Screen, prev: seq<Row>, u: Screen, prev': seq<Row>, pic: Picture, dirty: seq<bool>, rows: nat,
      cols: nat, r: nat, c: nat)
    requires Nearly(t, prev, pic, dirty, rows, cols) && Fits(u, prev', pic, rows, cols) && r < rows && c < cols
    requires DrawnOnto(t, prev, u, prev', pic, rows, cols, DirtyRows(dirty, |dirty|))
    ensures prev'[r][c] == pic.rows[r][c]
    ensures Shown(u.rows[r][c]) == Shown(pic.rows[r][c]) <==>
      (pic.rows[r][c] == BLANK && prev[r][c] == BLANK ==> Shown(t.rows[r][c]) == Shown(BLANK))
    ensures Shown(u.rows[r][c]) == Shown(pic.rows[r][c]) || pic.rows[r][c] == BLANK
  {
    assert r in DirtyRows(dirty, |dirty|) <==> dirty[r];
  }

  lemma DrawnCells(t: Screen, prev: seq<Row>, u: Screen, prev': seq<Row>, pic: Picture, dirty: seq<bool>, rows: nat,
      cols: nat)
    requires Nearly(t, prev, pic, dirty, rows, cols) && Fits(u, prev', pic, rows, cols)
    requires DrawnOnto(t, prev, u, prev', pic, rows, cols, DirtyRows(dirty, |dirty|))
    ensures Nearly(u, prev', pic, AllClean(|dirty|), rows, cols)
    ensures Shows(u, pic, rows, cols) <==> BlankLooksBlank(t, prev, pic, rows, cols)
    ensures Shows(u, pic, rows, cols) <==> Synced(u, prev', pic, AllClean(|dirty|), rows, cols)
  {
    forall r, c | 0 <= r < rows && 0 <= c < cols
      ensures prev'[r][c] == pic.rows[r][c]
      ensures Shown(u.rows[r][c]) == Shown(pic.rows[r][c]) <==>
        (pic.rows[r][c] == BLANK && prev[r][c] == BLANK ==> Shown(t.rows[r][c]) == Shown(BLANK))
      ensures Shown(u.rows[r][c]) == Shown(pic.rows[r][c]) || pic.rows[r][c] == BLANK
    {
      DrawnCell(t, prev, u, prev', pic, dirty, rows, cols, r, c);
    }
  }

  /** The same for a screen with the same content. */
  lemma SameContent(u: Screen, t: Screen, prev: seq<Row>, pic: Picture, n: nat, rows: nat, cols: nat)
    requires Nearly(u, prev, pic, AllClean(n), rows, cols) && Ok(t) && t.rows == u.rows && t.cols == u.cols
    ensures Nearly(t, prev, pic, AllClean(n), rows, cols)
    ensures Shows(t, pic, rows, cols) == Shows(u, pic, rows, cols)
    ensures Synced(t, prev, pic, AllClean(n), rows, cols) == Synced(u, prev, pic, AllClean(n), rows, cols)
  {
  }

  /**
   * A frame on a screen that may differ from `prev` where `prev` is blank shows the grid
   * exactly when the cells blank in both look blank on the screen, and then screen and `prev`
   * agree again with nothing dirty.
   */
  lemma RenderNearlyExact(t: Screen, prev: seq<Row>, pic: Picture, dirty: seq<bool>, rows: nat, cols: nat,
      was: Cursor, now: Cursor, inView: bool)
    requires Nearly(t, prev, pic, dirty, rows, cols)
    ensures var f := DrawAll(prev, pic, dirty, rows, cols);
      var t' := Run(t, FrameOut(f.out.buf, was, now, inView));
      && Nearly(t', f.prev, pic, AllClean(|dirty|), rows, cols)
      && (Shows(t', pic, rows, cols) <==> BlankLooksBlank(t, prev, pic, rows, cols))
      && (Shows(t', pic, rows, cols) <==> Synced(t', f.prev, pic, AllClean(|dirty|), rows, cols))
  {
    var f := DrawAll(prev, pic, dirty, rows, cols);
    var u := Run(t, f.out.buf);
    CellsExact(t, prev, pic, dirty, rows, cols);
    DrawnCells(t, prev, u, f.prev, pic, dirty, rows, cols);
    FrameOutShows(t, f.out.buf, was, now, inView);
    SameContent(u, Run(t, FrameOut(f.out.buf, was, now, inView)), f.prev, pic, |dirty|, rows, cols);
  }

  /**
   * The diff renderer is exact: if the screen agrees with `prev` and clean rows are drawn,
   * then after the emitted commands the viewport shows the grid, and the hypothesis holds
   * again with nothing dirty.
   */
  lemma RenderExact(t: Screen, prev: seq<Row>, pic: Picture, dirty: seq<bool>, rows: nat, cols: nat,
      was: Cursor, now: Cursor, inView: bool)
    requires Synced(t, prev, pic, dirty, rows, cols)
    ensures var f := DrawAll(prev, pic, dirty, rows, cols);
      var t' := Run(t, FrameOut(f.out.buf, was, now, inView));
      && Shows(t', pic, rows, cols)
      && Synced(t', f.prev, pic, AllClean(|dirty|), rows, cols)
  {
    SyncedIsNearly(t, prev, pic, dirty, rows, cols);
    RenderNearlyExact(t, prev, pic, dirty, rows, cols, was, now, inView);
  }

  // ---- Where a frame prints ----

  /** The changed cells of the first `n` dirty rows. */
  function DrawnChanges(prev: seq<Row>, pic: Picture, viewRows: nat, viewCols: nat, dirtyRows: seq<nat>, n: nat)
      : seq<Pos>
    requires n <= |dirtyRows|
  {
    if n == 0 then []
    else
      var before := DrawnChanges(prev, pic, viewRows, viewCols, dirtyRows, n - 1);
      before + RowChanges(prev, pic, viewRows, viewCols, dirtyRows[n - 1])
  }

  function RowChanges(prev: seq<Row>, pic: Picture, viewRows: nat, viewCols: nat, row: nat): seq<Pos> {
    if !Drawn(prev, pic, viewRows, row) then []
    else Changed(prev[row], pic.rows[row], row, 0, Width(prev, pic, viewCols, row))
  }

  ghost predicate Ascending(rows: seq<nat>) {
    forall i, k :: 0 <= i < k < |rows| ==> rows[i] < rows[k]
  }

  lemma {:induction false} RowsKeepOthers(f: Frame, pic: Picture, viewRows: nat, viewCols: nat, dirtyRows: seq<nat>,
      n: nat, row: nat)
    requires n <= |dirtyRows| && row !in dirtyRows[..n] && row < |f.prev|
    ensures Rows(f, pic, viewRows, viewCols, dirtyRows, n).prev[row] == f.prev[row]
  {
    if n > 0 {
      assert dirtyRows[..n] == dirtyRows[..n - 1] + [dirtyRows[n - 1]];
      RowsKeepOthers(f, pic, viewRows, viewCols, dirtyRows, n - 1, row);
    }
  }

  lemma RowFramePrints(t0: Screen, f: Frame, prev: seq<Row>, pic: Picture, rows: nat, cols: nat, row: nat)
    requires Sound(t0, f, pic, rows, cols) && |prev| == |f.prev| && (row < |prev| ==> f.prev[row] == prev[row])
    ensures Printed(t0, RowFrame(f, pic, rows, cols, row).out.buf)
         == Printed(t0, f.out.buf) + RowChanges(prev, pic, rows, cols, row)
  {
    if Drawn(f.prev, pic, rows, row) {
      var width := Width(f.prev, pic, cols, row);
      RowOutExact(t0, f.out, f.prev[row], pic.rows[row], row, 0, width, false);
    } else {
      assert Printed(t0, f.out.buf) + [] == Printed(t0, f.out.buf);
    }
  }

  /** Before row `n` of the dirty rows is drawn, its `prev` is still the old one. */
  lemma RowsReady(t0: Screen, f: Frame, pic: Picture, dirtyRows: seq<nat>, n: nat, rows: nat, cols: nat)
    requires n < |dirtyRows| && Ascending(dirtyRows) && Sound(t0, f, pic, rows, cols)
    ensures var before := Rows(f, pic, rows, cols, dirtyRows, n); var row := dirtyRows[n];
      Sound(t0, before, pic, rows, cols) && (row < |f.prev| ==> before.prev[row] == f.prev[row])
  {
    var row := dirtyRows[n];
    RowsExact(t0, f, pic, dirtyRows, n, rows, cols);
    if row < |f.prev| { RowsKeepOthers(f, pic, rows, cols, dirtyRows, n, row); }
  }

  /** Where a frame under construction prints; the proof about rows need not look inside. */
  ghost predicate PrintsLike(t0: Screen, printed: Frame -> seq<Pos>)
    requires Region(t0)
  {
    forall f {:trigger Printed(t0, f.out.buf)} :: printed(f) == Printed(t0, f.out.buf)
  }

  /** One more dirty row prints its changes. */
  lemma RowsPrintNext(t0: Screen, printed: Frame -> seq<Pos>, f: Frame, pic: Picture, dirtyRows: seq<nat>, n: nat,
      rows: nat, cols: nat)
    requires n < |dirtyRows| && Ascending(dirtyRows)
    requires Sound(t0, f, pic, rows, cols) && PrintsLike(t0, printed)
    ensures printed(Rows(f, pic, rows, cols, dirtyRows, n + 1))
         == printed(Rows(f, pic, rows, cols, dirtyRows, n)) + RowChanges(f.prev, pic, rows, cols, dirtyRows[n])
  {
    var before := Rows(f, pic, rows, cols, dirtyRows, n);
    var after := RowFrame(before, pic, rows, cols, dirtyRows[n]);
    RowsReady(t0, f, pic, dirtyRows, n, rows, cols);
    RowFramePrints(t0, before, f.prev, pic, rows, cols, dirtyRows[n]);
    assert printed(before) == Printed(t0, before.out.buf) && printed(after) == Printed(t0, after.out.buf);
  }

  lemma {:induction false} AddUp(printed: nat -> seq<Pos>, prev: seq<Row>, pic: Picture, dirtyRows: seq<nat>, n: nat,
      rows: nat, cols: nat)
    requires n <= |dirtyRows| && printed(0) == []
    requires forall k {:trigger dirtyRows[k]} :: 0 <= k < n ==>
      printed(k + 1) == printed(k) + RowChanges(prev, pic, rows, cols, dirtyRows[k])
    ensures printed(n) == DrawnChanges(prev, pic, rows, cols, dirtyRows, n)
  {
    if n > 0 {
      AddUp(printed, prev, pic, dirtyRows, n - 1, rows, cols);
      assert printed(n) == printed(n - 1) + RowChanges(prev, pic, rows, cols, dirtyRows[n - 1]);
    }
  }

  /** Where the first `k` dirty rows print. */
  ghost predicate PrintsRows(printed: Frame -> seq<Pos>, byRow: nat -> seq<Pos>, f: Frame, pic: Picture,
      dirtyRows: seq<nat>, rows: nat, cols: nat)
  {
    forall k {:trigger byRow(k)} :: 0 <= k <= |dirtyRows| ==>
      byRow(k) == printed(Rows(f, pic, rows, cols, dirtyRows, k))
  }

  lemma RowsPrint(t0: Screen, printed: Frame -> seq<Pos>, byRow: nat -> seq<Pos>, f: Frame, pic: Picture,
      dirtyRows: seq<nat>, rows: nat, cols: nat)
    requires Ascending(dirtyRows) && Sound(t0, f, pic, rows, cols)
    requires PrintsLike(t0, printed) && printed(f) == [] && PrintsRows(printed, byRow, f, pic, dirtyRows, rows, cols)
    ensures byRow(|dirtyRows|) == DrawnChanges(f.prev, pic, rows, cols, dirtyRows, |dirtyRows|)
  {
    assert byRow(0) == printed(f);
    forall k {:trigger dirtyRows[k]} | 0 <= k < |dirtyRows|
      ensures byRow(k + 1) == byRow(k) + RowChanges(f.prev, pic, rows, cols, dirtyRows[k])
    {
      RowsPrintNext(t0, printed, f, pic, dirtyRows, k, rows, cols);
      assert byRow(k + 1) == printed(Rows(f, pic, rows, cols, dirtyRows, k + 1));
    }
    AddUp(byRow, f.prev, pic, dirtyRows, |dirtyRows|, rows, cols);
  }

  /** What surrounds the cells prints nothing. */
  lemma FrameOutPrints(t: Screen, cells: seq<Cmd>, was: Cursor, now: Cursor, inView: bool)
    requires Region(t)
    ensures Printed(t, FrameOut(cells, was, now, inView)) == Printed(t, cells)
  {
    var body, tail := if cells != [] then [HideCursor] + cells else cells, Tail(cells != [], was, now, inView);
    PrintedAppend(t, body, tail);
    TailHasNoPuts(cells != [], was, now, inView);
    NoPutsPrintNothing(Run(t, body), tail);
    assert Printed(t, body) + [] == Printed(t, body);
    HiddenPrints(t, cells);
  }

  lemma HiddenPrints(t: Screen, cells: seq<Cmd>)
    requires Region(t)
    ensures Printed(t, if cells != [] then [HideCursor] + cells else cells) == Printed(t, cells)
  {
    if cells != [] {
      PrintedAppend(t, [HideCursor], cells);
      NoPutsPrintNothing(t, [HideCursor]);
      RunOne(t, HideCursor);
      assert [] + Printed(t, cells) == Printed(t, cells);
    }
  }

  predicate InReadingOrder(p: Pos, q: Pos) {
    p.row < q.row || (p.row == q.row && p.col < q.col)
  }

  /** The viewport cell at `p` lies in a dirty row and differs from what is drawn. */
  predicate NeedsDrawing(prev: seq<Row>, pic: Picture, dirty: seq<bool>, rows: nat, cols: nat, p: Pos) {
    && p.row < rows && p.col < cols && p.row < |dirty| && dirty[p.row]
    && p.row < |prev| && p.col < |prev[p.row]| && p.row < |pic.rows| && p.col < |pic.rows[p.row]|
    && prev[p.row][p.col] != pic.rows[p.row][p.col]
  }

  /** `at` lists every cell that needs drawing once, in reading order, and no other. */
  ghost predicate ListsChanges(at: seq<Pos>, prev: seq<Row>, pic: Picture, dirty: seq<bool>, rows: nat, cols: nat) {
    && (forall i, k :: 0 <= i < k < |at| ==> InReadingOrder(at[i], at[k]))
    && (forall p :: p in at <==> NeedsDrawing(prev, pic, dirty, rows, cols, p))
  }

  /** `at` lists the changed cells of `[col, width)` of the row, in reading order. */
  ghost predicate ListsRow(at: seq<Pos>, prev: Row, cur: Row, row: nat, col: nat, width: nat)
    requires width <= |prev| && width <= |cur|
  {
    && (forall i, k :: 0 <= i < k < |at| ==> InReadingOrder(at[i], at[k]))
    && (forall p :: p in at <==> p.row == row && col <= p.col < width && cur[p.col] != prev[p.col])
  }

  lemma ListsRowNext(rest: seq<Pos>, prev: Row, cur: Row, row: nat, col: nat, width: nat)
    requires col < width <= |prev| && width <= |cur| && ListsRow(rest, prev, cur, row, col + 1, width)
    ensures ListsRow(if cur[col] != prev[col] then [Pos(row, col)] + rest else rest, prev, cur, row, col, width)
  {
    if cur[col] != prev[col] { FirstInOrder(Pos(row, col), rest); }
  }

  /** The changes from each column on; the induction over the columns need not look inside. */
  ghost predicate ChangesLike(changed: nat -> seq<Pos>, prev: Row, cur: Row, row: nat, width: nat)
    requires width <= |prev| && width <= |cur|
  {
    forall c {:trigger Changed(prev, cur, row, c, width)} ::
      0 <= c <= width ==> changed(c) == Changed(prev, cur, row, c, width)
  }

  lemma ChangesNext(changed: nat -> seq<Pos>, prev: Row, cur: Row, row: nat, col: nat, width: nat)
    requires width <= |prev| && width <= |cur| && ChangesLike(changed, prev, cur, row, width)
    ensures col == width ==> changed(col) == []
    ensures col < width ==>
      changed(col) == if cur[col] != prev[col] then [Pos(row, col)] + changed(col + 1) else changed(col + 1)
  {
    if col < width {
      ChangedStep(prev, cur, row, col, width);
      assert changed(col + 1) == Changed(prev, cur, row, col + 1, width);
    }
    if col <= width { assert changed(col) == Changed(prev, cur, row, col, width); }
  }

  lemma {:induction false} ChangedMeans(changed: nat -> seq<Pos>, prev: Row, cur: Row, row: nat, col: nat, width: nat)
    requires col <= width <= |prev| && width <= |cur| && ChangesLike(changed, prev, cur, row, width)
    ensures ListsRow(changed(col), prev, cur, row, col, width)
    decreases width - col
  {
    ChangesNext(changed, prev, cur, row, col, width);
    if col < width {
      ChangedMeans(changed, prev, cur, row, col + 1, width);
      ListsRowNext(changed(col + 1), prev, cur, row, col, width);
    }
  }

  /** A list in reading order, with a position before all of it put in front. */
  lemma FirstInOrder(p: Pos, rest: seq<Pos>)
    requires forall i, k :: 0 <= i < k < |rest| ==> InReadingOrder(rest[i], rest[k])
    requires forall q :: q in rest ==> InReadingOrder(p, q)
    ensures var at := [p] + rest;
      && (forall i, k :: 0 <= i < k < |at| ==> InReadingOrder(at[i], at[k]))
      && (forall q :: q in at <==> q == p || q in rest)
  {
    var at := [p] + rest;
    forall i, k | 0 <= i < k < |at| ensures InReadingOrder(at[i], at[k]) {
      assert at[k] == rest[k - 1] && rest[k - 1] in rest;
      if i > 0 { assert at[i] == rest[i - 1]; }
    }
  }

  lemma {:induction false} DrawnChangesMean(prev: seq<Row>, pic: Picture, rows: nat, cols: nat, dirtyRows: seq<nat>,
      n: nat)
    requires n <= |dirtyRows| && Ascending(dirtyRows)
    ensures var at := DrawnChanges(prev, pic, rows, cols, dirtyRows, n);
      && (forall i, k :: 0 <= i < k < |at| ==> InReadingOrder(at[i], at[k]))
      && (forall p :: p in at <==> p.row in dirtyRows[..n] && p in RowChanges(prev, pic, rows, cols, p.row))
  {
    if n > 0 {
      var row := dirtyRows[n - 1];
      DrawnChangesMean(prev, pic, rows, cols, dirtyRows, n - 1);
      assert dirtyRows[..n] == dirtyRows[..n - 1] + [row];
      RowChangesMean(prev, pic, rows, cols, row);
      var before, last := DrawnChanges(prev, pic, rows, cols, dirtyRows, n - 1), RowChanges(prev, pic, rows, cols, row);
      var at := before + last;
      assert forall p :: p in at <==> p in before || p in last;
      forall i, k | 0 <= i < k < |at| ensures InReadingOrder(at[i], at[k]) {
        if i < |before| <= k {
          assert at[i] == before[i] && before[i] in before && at[k] == last[k - |before|] && last[k - |before|] in last;
          assert at[i].row in dirtyRows[..n - 1];
        } else if i >= |before| {
          assert at[i] == last[i - |before|] && at[k] == last[k - |before|];
        }
      }
    }
  }

  lemma RowChangesMean(prev: seq<Row>, pic: Picture, rows: nat, cols: nat, row: nat)
    ensures var at := RowChanges(prev, pic, rows, cols, row);
      && (forall i, k :: 0 <= i < k < |at| ==> InReadingOrder(at[i], at[k]))
      && (forall p :: p in at ==> p.row == row)
      && (Drawn(prev, pic, rows, row) ==> forall p :: p in at <==>
            p.row == row && p.col < Width(prev, pic, cols, row) && pic.rows[row][p.col] != prev[row][p.col])
  {
    if Drawn(prev, pic, rows, row) {
      var was, now, width := prev[row], pic.rows[row], Width(prev, pic, cols, row);
      ChangedMeans((c: nat) => if c <= width then Changed(was, now, row, c, width) else [], was, now, row, 0, width);
    }
  }

  lemma ChangesListed(t: Screen, prev: seq<Row>, pic: Picture, dirty: seq<bool>, rows: nat, cols: nat)
    requires Fits(t, prev, pic, rows, cols) && |dirty| == |pic.rows|
    ensures var dirtyRows := DirtyRows(dirty, |dirty|);
      ListsChanges(DrawnChanges(prev, pic, rows, cols, dirtyRows, |dirtyRows|), prev, pic, dirty, rows, cols)
  {
    var dirtyRows := DirtyRows(dirty, |dirty|);
    DrawnChangesMean(prev, pic, rows, cols, dirtyRows, |dirtyRows|);
    assert dirtyRows[..|dirtyRows|] == dirtyRows;
    var at := DrawnChanges(prev, pic, rows, cols, dirtyRows, |dirtyRows|);
    forall p ensures p in at <==> NeedsDrawing(prev, pic, dirty, rows, cols, p) {
      RowChangesMean(prev, pic, rows, cols, p.row);
      assert p.row in dirtyRows <==> p.row < |dirty| && dirty[p.row];
    }
  }

  /** A frame never prints an unchanged cell: it prints on exactly the viewport cells of dirty
      rows that differ from what is drawn, each once, in reading order. */
  lemma FramePrintsChanges(t: Screen, prev: seq<Row>, pic: Picture, dirty: seq<bool>, rows: nat, cols: nat,
      was: Cursor, now: Cursor, inView: bool)
    requires Fits(t, prev, pic, rows, cols) && |dirty| == |pic.rows|
    ensures var f := DrawAll(prev, pic, dirty, rows, cols);
      ListsChanges(Printed(t, FrameOut(f.out.buf, was, now, inView)), prev, pic, dirty, rows, cols)
  {
    var dirtyRows := DirtyRows(dirty, |dirty|);
    var printed, f0 := (f: Frame) => Printed(t, f.out.buf), Frame(Out([], None), prev);
    var byRow := (k: nat) =>
      if k <= |dirtyRows| then printed(Rows(f0, pic, rows, cols, dirtyRows, k)) else [];
    RowsPrint(t, printed, byRow, f0, pic, dirtyRows, rows, cols);
    FrameOutPrints(t, DrawAll(prev, pic, dirty, rows, cols).out.buf, was, now, inView);
    ChangesListed(t, prev, pic, dirty, rows, cols);
  }

  /** The cell part of a frame. */
  function DrawAll(prev: seq<Row>, pic: Picture, dirty: seq<bool>, viewRows: nat, viewCols: nat): Frame {
    var dirtyRows := DirtyRows(dirty, |dirty|);
    Rows(Frame(Out([], None), prev), pic, viewRows, viewCols, dirtyRows, |dirtyRows|)
  }

  function AllClean(n: nat): (r: seq<bool>)
    ensures |r| == n && forall i :: 0 <= i < n ==> !r[i]
  {
    seq(n, _ => false)
  }

  // ---- The cursor ----

  /** Whether the terminal shows its cursor after the commands, `before` telling it of the start. */
  function ShownAfter(before: bool, cmds: seq<Cmd>): bool {
    if cmds == [] then before
    else
      match cmds[|cmds| - 1]
      case ShowCursor => true
      case HideCursor => false
      case _ => ShownAfter(before, cmds[..|cmds| - 1])
  }

  /** Moves, styles and prints. */
  predicate CellsOnly(cmds: seq<Cmd>) {
    forall i :: 0 <= i < |cmds| ==> cmds[i].MoveTo? || cmds[i].SetStyle? || cmds[i].Put?
  }

  lemma {:induction false} ShownAppend(before: bool, a: seq<Cmd>, b: seq<Cmd>)
    ensures ShownAfter(before, a + b) == ShownAfter(ShownAfter(before, a), b)
    decreases |b|
  {
    if b == [] {
      assert a + b == a;
    } else {
      ShownAppend(before, a, b[..|b| - 1]);
      assert (a + b)[..|a + b| - 1] == a + b[..|b| - 1];
    }
  }

  lemma {:induction false} CellsKeepShown(before: bool, cmds: seq<Cmd>)
    requires CellsOnly(cmds)
    ensures ShownAfter(before, cmds) == before
    decreases |cmds|
  {
    if cmds != [] { CellsKeepShown(before, cmds[..|cmds| - 1]); }
  }

  lemma {:induction false} RowOutCellsOnly(out: Out, prev: Row, cur: Row, row: nat, col: nat, width: nat, inBatch: bool)
    requires col <= width <= |prev| && width <= |cur| && CellsOnly(out.buf)
    ensures CellsOnly(RowOut(out, prev, cur, row, col, width, inBatch).buf)
    decreases width - col
  {
    if col < width {
      if cur[col] == prev[col] {
        RowOutCellsOnly(out, prev, cur, row, col + 1, width, false);
      } else {
        RowOutCellsOnly(CellOut(out, row, col, cur[col], !inBatch), prev, cur, row, col + 1, width, true);
      }
    }
  }

  lemma {:induction false} RowsCellsOnly(f: Frame, pic: Picture, viewRows: nat, viewCols: nat, dirtyRows: seq<nat>,
      n: nat)
    requires n <= |dirtyRows| && CellsOnly(f.out.buf)
    ensures CellsOnly(Rows(f, pic, viewRows, viewCols, dirtyRows, n).out.buf)
  {
    if n > 0 {
      RowsCellsOnly(f, pic, viewRows, viewCols, dirtyRows, n - 1);
      RowFrameCellsOnly(Rows(f, pic, viewRows, viewCols, dirtyRows, n - 1), pic, viewRows, viewCols, dirtyRows[n - 1]);
    }
  }

  lemma RowFrameCellsOnly(f: Frame, pic: Picture, viewRows: nat, viewCols: nat, row: nat)
    requires CellsOnly(f.out.buf)
    ensures CellsOnly(RowFrame(f, pic, viewRows, viewCols, row).out.buf)
  {
    if Drawn(f.prev, pic, viewRows, row) {
      RowOutCellsOnly(f.out, f.prev[row], pic.rows[row], row, 0, Width(f.prev, pic, viewCols, row), false);
    }
  }

  lemma DrawAllCellsOnly(prev: seq<Row>, pic: Picture, dirty: seq<bool>, viewRows: nat, viewCols: nat)
    ensures CellsOnly(DrawAll(prev, pic, dirty, viewRows, viewCols).out.buf)
  {
    var dirtyRows := DirtyRows(dirty, |dirty|);
    RowsCellsOnly(Frame(Out([], None), prev), pic, viewRows, viewCols, dirtyRows, |dirtyRows|);
  }

  lemma FrameStarts(cells: seq<Cmd>, was: Cursor)
    requires CellsOnly(cells)
    ensures ShownAfter(was.visible, if cells != [] then [HideCursor] + cells else cells) == (cells == [] && was.visible)
  {
    if cells != [] {
      ShownAppend(was.visible, [HideCursor], cells);
      CellsKeepShown(false, cells);
    }
  }

  lemma TailShows(wrote: bool, was: Cursor, now: Cursor, inView: bool)
    ensures ShownAfter(!wrote && was.visible, Tail(wrote, was, now, inView)) == (now.visible && inView)
  {
    var tail := Tail(wrote, was, now, inView);
    if tail != [] {
      var cursor := tail[..|tail| - 1];
      assert tail[|tail| - 1] == ResetStyle;
    }
  }

  /** After a frame the cursor is shown exactly when it is visible and in the viewport. */
  lemma FrameShowsCursor(cells: seq<Cmd>, was: Cursor, now: Cursor, inView: bool)
    requires CellsOnly(cells)
    ensures ShownAfter(was.visible, FrameOut(cells, was, now, inView)) == (now.visible && inView)
  {
    var head := if cells != [] then [HideCursor] + cells else cells;
    ShownAppend(was.visible, head, Tail(cells != [], was, now, inView));
    FrameStarts(cells, was);
    TailShows(cells != [], was, now, inView);
  }

  /** The cursor is hidden whenever a frame prints or moves it. */
  lemma FrameMovesUnseen(cells: seq<Cmd>, was: Cursor, now: Cursor, inView: bool, k: nat)
    requires CellsOnly(cells) && k < |FrameOut(cells, was, now, inView)|
    requires var cmd := FrameOut(cells, was, now, inView)[k]; cmd.Put? || cmd.MoveTo?
    ensures !ShownAfter(was.visible, FrameOut(cells, was, now, inView)[..k])
  {
    var out, tail := FrameOut(cells, was, now, inView), Tail(cells != [], was, now, inView);
    var head := if cells != [] then [HideCursor] + cells else cells;
    if k < |head| {
      assert out[..k] == [HideCursor] + cells[..k - 1];
      ShownAppend(was.visible, [HideCursor], cells[..k - 1]);
      CellsKeepShown(false, cells[..k - 1]);
    } else {
      var j := k - |head|;
      assert out[..k] == head + tail[..j];
      ShownAppend(was.visible, head, tail[..j]);
      FrameStarts(cells, was);
      TailMovesUnseen(cells != [], was, now, inView, j);
    }
  }

  lemma TailMovesUnseen(wrote: bool, was: Cursor, now: Cursor, inView: bool, j: nat)
    requires j < |Tail(wrote, was, now, inView)|
    requires var cmd := Tail(wrote, was, now, inView)[j]; cmd.Put? || cmd.MoveTo?
    ensures !ShownAfter(!wrote && was.visible, Tail(wrote, was, now, inView)[..j])
  {
    var front := Tail(wrote, was, now, inView)[..j];
    if !wrote { assert front == [HideCursor] && front[..0] == []; } else { assert front == []; }
  }

  lemma ResetIsPlain(t: Screen)
    requires Region(t)
    ensures Exec(t, ResetStyle) == t.(pen := PLAIN)
  {
    assert [[0]][1..] == [];
  }

  /** A frame that sends anything leaves the plain style. */
  lemma FrameLeavesPlain(t: Screen, cells: seq<Cmd>, was: Cursor, now: Cursor, inView: bool)
    requires Region(t) && FrameOut(cells, was, now, inView) != []
    ensures Run(t, FrameOut(cells, was, now, inView)).pen == PLAIN
  {
    var out := FrameOut(cells, was, now, inView);
    var init := out[..|out| - 1];
    assert out[|out| - 1] == ResetStyle;
    ResetIsPlain(Run(t, init));
  }

  /** One move, one show and the plain style end a frame whose cursor moves. */
  lemma FrameEndsInMove(cells: seq<Cmd>, was: Cursor, now: Cursor) returns (front: seq<Cmd>)
    requires now.visible && (now.at != was.at || !was.visible)
    ensures FrameOut(cells, was, now, true) == front + [CursorTo(now), ShowCursor, ResetStyle]
  {
    front := if cells != [] then [HideCursor] + cells else [HideCursor];
  }

  lemma MoveThenShow(t: Screen, now: Cursor)
    requires Region(t)
    requires now.at.0 < |t.rows| && now.at.1 < t.cols && now.at.0 + 1 < 0x1_0000 && now.at.1 + 1 < 0x1_0000
    ensures var t' := Exec(Exec(Exec(t, CursorTo(now)), ShowCursor), ResetStyle);
      t'.curRow == now.at.0 && t'.curCol == now.at.1 && !t'.wrap
  {
    ResetIsPlain(Exec(Exec(t, CursorTo(now)), ShowCursor));
  }

  /** A visible cursor that has moved, or was hidden, is put in its place. */
  lemma FramePlacesCursor(t: Screen, cells: seq<Cmd>, was: Cursor, now: Cursor)
    requires Region(t) && now.visible && (now.at != was.at || !was.visible)
    requires now.at.0 < |t.rows| && now.at.1 < t.cols && now.at.0 + 1 < 0x1_0000 && now.at.1 + 1 < 0x1_0000
    ensures var t' := Run(t, FrameOut(cells, was, now, true));
      t'.curRow == now.at.0 && t'.curCol == now.at.1 && !t'.wrap
  {
    var front := FrameEndsInMove(cells, was, now);
    RunThreeMore(t, front, CursorTo(now), ShowCursor, ResetStyle);
    MoveThenShow(Run(t, front), now);
  }

  // ---- Runs of updates, resets, resizes and frames ----

  /** The client's side of the screen pipeline. */
  datatype Client = Client(
    term: Screen, shown: bool, prev: seq<Row>, pic: Picture, dirty: seq<bool>, viewRows: nat, viewCols: nat,
    was: Cursor)

  datatype Event =
    | Update(rows: seq<Row>, dirty: seq<bool>)        // any tracked change of the grid's content
    | Draw(now: Cursor, inView: bool)                 // one render
    | Reset(pic: Picture, viewRows: nat, viewCols: nat)  // clear, invalidate, mark all dirty
    | Resized(pic: Picture)                           // `Renderer::resize` after a grid resize
    | HostScroll(n: nat)                              // scroll the terminal, invalidate, mark all dirty

  function AllDirty(n: nat): (r: seq<bool>)
    ensures |r| == n && forall i :: 0 <= i < n ==> r[i]
  {
    seq(n, _ => true)
  }

  /** `prev` cut or padded with blanks to the new grid size. */
  function ResizePrev(prev: seq<Row>, rows: nat, cols: nat): (r: seq<Row>)
    ensures |r| == rows
    ensures forall i :: 0 <= i < rows ==> r[i] == if i < |prev| then FitRow(prev[i], cols) else BlankRow(cols)
  {
    seq(rows, i requires 0 <= i < rows => if i < |prev| then FitRow(prev[i], cols) else BlankRow(cols))
  }

  ghost predicate Possible(c: Client, e: Event) {
    match e
    case Update(rows, dirty) =>
      |rows| == |c.pic.rows| && Rectangular(rows, c.pic.cols) && Tracked(c.pic.rows, c.dirty, rows, dirty)
    case Draw(_, _) => true
    case Reset(pic, viewRows, viewCols) =>
      && Rectangular(pic.rows, pic.cols) && viewRows <= |pic.rows| && viewCols <= pic.cols
      && viewRows <= |c.term.rows| && viewCols <= c.term.cols && viewRows < 0x1_0000 && viewCols < 0x1_0000
    case Resized(pic) => Rectangular(pic.rows, pic.cols)
    case HostScroll(_) => true
  }

  function Next(c: Client, e: Event): Client
    requires Region(c.term)
  {
    match e
    case Update(rows, dirty) => c.(pic := Picture(rows, c.pic.cols), dirty := dirty)
    case Draw(now, inView) =>
      var f := DrawAll(c.prev, c.pic, c.dirty, c.viewRows, c.viewCols);
      var out := FrameOut(f.out.buf, c.was, now, inView);
      c.(term := Run(c.term, out), shown := ShownAfter(c.shown, out), prev := f.prev,
         dirty := AllClean(|c.dirty|), was := Cursor(now.at, now.visible && inView))
    case Reset(pic, viewRows, viewCols) =>
      c.(term := EraseScreen(c.term), prev := BlankRows(|pic.rows|, pic.cols), pic := pic,
         dirty := AllDirty(|pic.rows|), viewRows := viewRows, viewCols := viewCols, was := Nowhere(c.was))
    case Resized(pic) =>
      c.(prev := ResizePrev(c.prev, |pic.rows|, pic.cols), pic := pic, dirty := AllDirty(|pic.rows|),
         viewRows := Min(c.viewRows, |pic.rows|), viewCols := Min(c.viewCols, pic.cols), was := Nowhere(c.was))
    case HostScroll(n) =>
      c.(term := ScrollUp(c.term, n), prev := Blanked(c.prev), dirty := AllDirty(|c.pic.rows|), was := Nowhere(c.was))
  }

  const USIZE_MAX: nat := 0xffff_ffff_ffff_ffff

  /** The renderer forgets where the cursor was, not whether it was shown. */
  function Nowhere(was: Cursor): Cursor {
    Cursor((USIZE_MAX, USIZE_MAX), was.visible)
  }

  /** `prev` after `invalidate`. */
  function Blanked(prev: seq<Row>): (r: seq<Row>)
    ensures |r| == |prev| && forall i :: 0 <= i < |r| ==> r[i] == BlankRow(|prev[i]|)
  {
    seq(|prev|, i requires 0 <= i < |prev| => BlankRow(|prev[i]|))
  }

  ghost predicate InStep(c: Client) {
    Synced(c.term, c.prev, c.pic, c.dirty, c.viewRows, c.viewCols)
  }

  lemma ResetInStep(c: Client, e: Event)
    requires e.Reset? && Ok(c.term) && Possible(c, e)
    ensures InStep(Next(c, e))
  {
  }

  /** In step, but for what scrolls of the terminal left where the renderer saw blanks. */
  ghost predicate NearlyInStep(c: Client) {
    Nearly(c.term, c.prev, c.pic, c.dirty, c.viewRows, c.viewCols)
  }

  /** Cells blank in the grid and to the renderer look blank on the terminal. */
  ghost predicate Unscathed(c: Client)
    requires NearlyInStep(c)
  {
    BlankLooksBlank(c.term, c.prev, c.pic, c.viewRows, c.viewCols)
  }

  /** No viewport cell of the grid is the blank cell. */
  ghost predicate NoBlanks(c: Client) {
    forall r, k :: 0 <= r < c.viewRows && 0 <= k < c.viewCols && r < |c.pic.rows| && k < |c.pic.rows[r]| ==>
      c.pic.rows[r][k] != BLANK
  }

  lemma NextInStep(c: Client, e: Event)
    requires InStep(c) && Possible(c, e) && !e.HostScroll?
    ensures InStep(Next(c, e))
    ensures e.Draw? ==> Shows(Next(c, e).term, c.pic, c.viewRows, c.viewCols)
  {
    match e
    case Update(rows, dirty) =>
    case Draw(now, inView) =>
      RenderExact(c.term, c.prev, c.pic, c.dirty, c.viewRows, c.viewCols, c.was, now, inView);
    case Reset(pic, viewRows, viewCols) => ResetInStep(c, e);
    case Resized(pic) => ResizedInStep(c, pic);
  }

  lemma NextNearlyInStep(c: Client, e: Event)
    requires NearlyInStep(c) && Possible(c, e)
    ensures NearlyInStep(Next(c, e))
    ensures e.Draw? ==> (Shows(Next(c, e).term, c.pic, c.viewRows, c.viewCols) <==> Unscathed(c))
    ensures e.Draw? ==> (Shows(Next(c, e).term, c.pic, c.viewRows, c.viewCols) <==> InStep(Next(c, e)))
  {
    match e
    case Update(rows, dirty) =>
    case Draw(now, inView) =>
      RenderNearlyExact(c.term, c.prev, c.pic, c.dirty, c.viewRows, c.viewCols, c.was, now, inView);
    case Reset(pic, viewRows, viewCols) => ResetNearlyInStep(c, e);
    case Resized(pic) => ResizedNearlyInStep(c, pic);
    case HostScroll(n) => ScrolledNearlyInStep(c, n);
  }

  lemma ResetNearlyInStep(c: Client, e: Event)
    requires e.Reset? && Ok(c.term) && Possible(c, e)
    ensures NearlyInStep(Next(c, e))
  {
    ResetInStep(c, e);
    var d := Next(c, e);
    SyncedIsNearly(d.term, d.prev, d.pic, d.dirty, d.viewRows, d.viewCols);
  }

  lemma ResizedNearlyInStep(c: Client, pic: Picture)
    requires NearlyInStep(c) && Possible(c, Resized(pic))
    ensures NearlyInStep(Next(c, Resized(pic)))
  {
    var c' := Next(c, Resized(pic));
    forall r | 0 <= r < c'.viewRows ensures |c'.prev[r]| >= c'.viewCols {
    }
  }

  lemma ScrolledNearlyInStep(c: Client, n: nat)
    requires NearlyInStep(c)
    ensures NearlyInStep(Next(c, HostScroll(n)))
  {
  }

  lemma ResizedInStep(c: Client, pic: Picture)
    requires InStep(c) && Possible(c, Resized(pic))
    ensures InStep(Next(c, Resized(pic)))
  {
    var c' := Next(c, Resized(pic));
    forall r | 0 <= r < c'.viewRows ensures |c'.prev[r]| >= c'.viewCols {
    }
  }

  lemma DrawPlacesCursor(c: Client, now: Cursor)
    requires Region(c.term) && now.visible && (now.at != c.was.at || !c.was.visible)
    requires now.at.0 < |c.term.rows| < 0x1_0000 && now.at.1 < c.term.cols < 0x1_0000
    ensures var t := Next(c, Draw(now, true)).term; t.curRow == now.at.0 && t.curCol == now.at.1 && !t.wrap
  {
    var f := DrawAll(c.prev, c.pic, c.dirty, c.viewRows, c.viewCols);
    FramePlacesCursor(c.term, f.out.buf, c.was, now);
  }

  /** After a reset, a resize or a scroll of the terminal the next frame puts a visible cursor in
      its place, wherever it was. */
  lemma ForgottenCursorPlaced(c: Client, e: Event, now: Cursor)
    requires Region(c.term) && (e.Reset? || e.Resized? || e.HostScroll?) && now.visible
    requires now.at.0 < |c.term.rows| < 0x1_0000 && now.at.1 < c.term.cols < 0x1_0000
    ensures var t := Next(Next(c, e), Draw(now, true)).term;
      t.curRow == now.at.0 && t.curCol == now.at.1 && !t.wrap
  {
    DrawPlacesCursor(Next(c, e), now);
  }

  /** The renderer knows whether the terminal's cursor is shown. */
  predicate CursorKnown(c: Client) {
    c.shown == c.was.visible
  }

  /** It stays so whatever happens, and after a frame the cursor is shown exactly when it is
      visible and in the viewport. */
  lemma NextKnowsCursor(c: Client, e: Event)
    requires Region(c.term) && CursorKnown(c)
    ensures CursorKnown(Next(c, e))
    ensures e.Draw? ==> Next(c, e).shown == (e.now.visible && e.inView)
  {
    if e.Draw? {
      var cells := DrawAll(c.prev, c.pic, c.dirty, c.viewRows, c.viewCols).out.buf;
      DrawAllCellsOnly(c.prev, c.pic, c.dirty, c.viewRows, c.viewCols);
      FrameShowsCursor(cells, c.was, e.now, e.inView);
    }
  }

  lemma {:induction false} RunsKnowCursor(c: Client, events: seq<Event>, d: Client)
    requires CursorKnown(c) && Reaches(c, events, d)
    ensures CursorKnown(d)
    decreases |events|
  {
    if events != [] {
      NextKnowsCursor(c, events[0]);
      RunsKnowCursor(Next(c, events[0]), events[1..], d);
    }
  }

  /** A run from client `c` through `events` ending in `d`, every event possible. */
  ghost predicate Reaches(c: Client, events: seq<Event>, d: Client)
    decreases |events|
  {
    if events == [] then c == d
    else Region(c.term) && Possible(c, events[0]) && Reaches(Next(c, events[0]), events[1..], d)
  }

  /** Every run of updates, resets, resizes and frames keeps screen and renderer in step. */
  lemma {:induction false} RunsStayInStep(c: Client, events: seq<Event>, d: Client)
    requires InStep(c) && Reaches(c, events, d) && forall k :: 0 <= k < |events| ==> !events[k].HostScroll?
    ensures InStep(d)
    decreases |events|
  {
    if events != [] {
      NextInStep(c, events[0]);
      RunsStayInStep(Next(c, events[0]), events[1..], d);
    }
  }

  /** With scrolls of the terminal in between, nearly so. */
  lemma {:induction false} RunsStayNearlyInStep(c: Client, events: seq<Event>, d: Client)
    requires NearlyInStep(c) && Reaches(c, events, d)
    ensures NearlyInStep(d)
    decreases |events|
  {
    if events != [] {
      NextNearlyInStep(c, events[0]);
      RunsStayNearlyInStep(Next(c, events[0]), events[1..], d);
    }
  }

  /**
   * Whatever happened since the last reset, a frame leaves the grid on the screen exactly when
   * the cells blank in the grid and to the renderer look blank: always if the terminal was not
   * scrolled, or if no viewport cell of the grid is blank.
   */
  lemma FrameShowsGrid(c: Client, reset: Event, events: seq<Event>, d: Client, now: Cursor, inView: bool)
    requires Ok(c.term) && reset.Reset? && Possible(c, reset) && Reaches(Next(c, reset), events, d)
    ensures Region(d.term) && NearlyInStep(d)
    ensures Shows(Next(d, Draw(now, inView)).term, d.pic, d.viewRows, d.viewCols) <==> Unscathed(d)
    ensures (forall k :: 0 <= k < |events| ==> !events[k].HostScroll?) || NoBlanks(d) ==>
      Shows(Next(d, Draw(now, inView)).term, d.pic, d.viewRows, d.viewCols)
  {
    ResetNearlyInStep(c, reset);
    RunsStayNearlyInStep(Next(c, reset), events, d);
    DrawShows(d, now, inView);
    if forall k :: 0 <= k < |events| ==> !events[k].HostScroll? {
      ResetInStep(c, reset);
      RunsStayInStep(Next(c, reset), events, d);
      InStepUnscathed(d);
    }
  }

  lemma DrawShows(c: Client, now: Cursor, inView: bool)
    requires NearlyInStep(c)
    ensures Shows(Next(c, Draw(now, inView)).term, c.pic, c.viewRows, c.viewCols) <==> Unscathed(c)
    ensures NoBlanks(c) ==> Unscathed(c)
  {
    NextNearlyInStep(c, Draw(now, inView));
  }

  lemma InStepUnscathed(c: Client)
    requires InStep(c)
    ensures NearlyInStep(c) && Unscathed(c)
  {
    SyncedIsNearly(c.term, c.prev, c.pic, c.dirty, c.viewRows, c.viewCols);
  }

  /** It can fail: a blank grid after a scroll that moves an `x` up stays unpainted there. */
  lemma ScrollMayShow(c: Client)
    requires c.term == Fresh(2, 1).(rows := [[BLANK], [Cell('x', PLAIN)]])
    requires c.prev == [[BLANK], [BLANK]] && c.pic == Picture([[BLANK], [BLANK]], 1)
    requires c.dirty == [true, true] && c.viewRows == 2 && c.viewCols == 1
    ensures NearlyInStep(Next(c, HostScroll(1))) && !Unscathed(Next(c, HostScroll(1)))
  {
    var d := Next(c, HostScroll(1));
    assert d.term.rows[0][0] == Cell('x', PLAIN);
    assert d.prev[0][0] == BLANK && d.pic.rows[0][0] == BLANK;
  }

  // ---- The renderer itself ----

  /** Emitting the move first and then the batch is the same as starting the batch with it. */
  lemma StartBatch(out: Out, prev: Row, cur: Row, row: nat, col: nat, width: nat)
    requires col < width <= |prev| && width <= |cur| && cur[col] != prev[col]
    ensures RowOut(out, prev, cur, row, col, width, false)
         == RowOut(Out(out.buf + [MoveTo((row + 1) % 0x1_0000, (col + 1) % 0x1_0000)], out.sgr),
                   prev, cur, row, col, width, true)
  {
    var move := MoveTo((row + 1) % 0x1_0000, (col + 1) % 0x1_0000);
    assert out.buf + CellCmds(out.sgr, row, col, cur[col], true)
        == (out.buf + [move]) + CellCmds(out.sgr, row, col, cur[col], false);
  }

  /** The column loops of `render` for one row. */
  method RenderRow(buf: seq<Cmd>, sgr: Option<Style>, prev: Row, cur: Row, row: nat, width: nat)
    returns (buf': seq<Cmd>, sgr': Option<Style>)
    requires width <= |prev| && width <= |cur|
    ensures Out(buf', sgr') == RowOut(Out(buf, sgr), prev, cur, row, 0, width, false)
  {
    buf', sgr' := buf, sgr;
    var col := 0;
    while col < width
      invariant col <= width
      invariant RowOut(Out(buf', sgr'), prev, cur, row, col, width, false)
             == RowOut(Out(buf, sgr), prev, cur, row, 0, width, false)
    {
      if cur[col] == prev[col] {
        col := col + 1;
        continue;
      }
      StartBatch(Out(buf', sgr'), prev, cur, row, col, width);
      buf' := buf' + [MoveTo((row + 1) % 0x1_0000, (col + 1) % 0x1_0000)];
      while col < width && cur[col] != prev[col]
        invariant col <= width
        invariant RowOut(Out(buf', sgr'), prev, cur, row, col, width, true)
               == RowOut(Out(buf, sgr), prev, cur, row, 0, width, false)
      {
        var cell := cur[col];
        ghost var next := CellOut(Out(buf', sgr'), row, col, cell, false);
        if sgr' != Some(cell.style) {
          buf' := buf' + [SetStyle(cell.style)];
          sgr' := Some(cell.style);
        }
        buf' := buf' + [Put(Glyph(cell))];
        assert Out(buf', sgr') == next;
        col := col + 1;
      }
    }
  }

  /** The cursor and style part of `render`, after the cells. */
  method FinishFrame(body: seq<Cmd>, was: Cursor, now: Cursor, inView: bool) returns (out: seq<Cmd>)
    ensures out == FrameOut(body, was, now, inView)
  {
    var wrote := body != [];
    out := if wrote then [HideCursor] + body else body;
    ghost var head := out;
    if now.visible && inView {
      if now.at != was.at || !was.visible {
        if !wrote { out := out + [HideCursor]; }
        out := out + [MoveTo((now.at.0 + 1) % 0x1_0000, (now.at.1 + 1) % 0x1_0000)];
      }
      out := out + [ShowCursor];
    } else if was.visible {
      out := out + [HideCursor];
    }
    if out != [] { out := out + [ResetStyle]; }
    assert out == head + Tail(wrote, was, now, inView);
  }

  class Renderer {
    var prev: seq<Row>
    var prevCursor: (nat, nat)
    var prevCursorVisible: bool
    var rows: nat
    var cols: nat
    var viewRows: nat
    var viewCols: nat

    predicate Valid()
      reads this
    {
      && |prev| == rows && (forall r :: 0 <= r < rows ==> |prev[r]| == cols)
      && viewRows <= rows && viewCols <= cols
    }

    constructor (rows: nat, cols: nat)
      ensures Valid()
      ensures prev == BlankRows(rows, cols) && this.rows == viewRows == rows && this.cols == viewCols == cols
      ensures prevCursor == (0, 0) && prevCursorVisible
    {
      prev := BlankRows(rows, cols);
      prevCursor, prevCursorVisible := (0, 0), true;
      this.rows, this.cols, viewRows, viewCols := rows, cols, rows, cols;
    }

    method Resize(rows: nat, cols: nat)
      requires Valid()
      modifies this
      ensures Valid() && prev == ResizePrev(old(prev), rows, cols)
      ensures this.rows == rows && this.cols == cols && prevCursor == (USIZE_MAX, USIZE_MAX)
      ensures viewRows == Min(old(viewRows), rows) && viewCols == Min(old(viewCols), cols)
      ensures prevCursorVisible == old(prevCursorVisible)
    {
      prev := if rows <= |prev| then prev[..rows] else prev + BlankRows(rows - |prev|, cols);
      ghost var sized := prev;
      for r := 0 to |prev|
        invariant |prev| == |sized| == rows
        invariant forall k :: 0 <= k < rows ==> prev[k] == if k < r then FitRow(sized[k], cols) else sized[k]
        invariant unchanged(this`viewRows) && unchanged(this`viewCols) && unchanged(this`prevCursorVisible)
      {
        prev := prev[r := FitRow(prev[r], cols)];
      }
      assert FitRow(BlankRow(cols), cols) == BlankRow(cols);
      this.rows, this.cols := rows, cols;
      prevCursor := (USIZE_MAX, USIZE_MAX);
      viewRows, viewCols := Min(viewRows, rows), Min(viewCols, cols);
    }

    method SetViewport(viewRows: nat, viewCols: nat)
      requires Valid()
      modifies this
      ensures Valid() && prev == BlankRows(rows, cols) && rows == old(rows) && cols == old(cols)
      ensures this.viewRows == Min(viewRows, rows) && this.viewCols == Min(viewCols, cols)
      ensures prevCursor == (USIZE_MAX, USIZE_MAX) && prevCursorVisible == old(prevCursorVisible)
    {
      this.viewRows, this.viewCols := Min(viewRows, rows), Min(viewCols, cols);
      Invalidate();
    }

    method Invalidate()
      requires Valid()
      modifies this`prev, this`prevCursor
      ensures Valid() && prev == BlankRows(rows, cols) && prevCursor == (USIZE_MAX, USIZE_MAX)
    {
      for r := 0 to |prev|
        invariant |prev| == rows
        invariant forall k :: 0 <= k < rows ==> prev[k] == if k < r then BlankRow(cols) else old(prev)[k]
      {
        prev := prev[r := BlankRow(|prev[r]|)];
      }
      assert prev == BlankRows(rows, cols);
      prevCursor := (USIZE_MAX, USIZE_MAX);
    }

    /** One frame: the commands of `FrameOut`, `prev` brought up to date, dirty flags taken. */
    method Render(grid: Grid) returns (out: seq<Cmd>)
      requires Valid() && grid.Valid()
      modifies this, grid`dirty
      ensures Valid() && grid.Valid() && grid.View() == old(grid.View())
      ensures grid.dirty == AllClean(|old(grid.dirty)|)
      ensures var f := DrawAll(old(prev), Picture(grid.rows, grid.cols), old(grid.dirty), viewRows, viewCols);
        var at := (grid.cursorRow, grid.cursorCol);
        var inView := grid.cursorRow < viewRows && grid.cursorCol < viewCols;
        && prev == f.prev
        && out == FrameOut(f.out.buf, Cursor(old(prevCursor), old(prevCursorVisible)),
                           Cursor(at, grid.cursorVisible), inView)
        && prevCursor == at && prevCursorVisible == (grid.cursorVisible && inView)
        && ShownAfter(old(prevCursorVisible), out) == (grid.cursorVisible && inView)
      ensures rows == old(rows) && cols == old(cols) && viewRows == old(viewRows) && viewCols == old(viewCols)
    {
      DrawAllCellsOnly(prev, Picture(grid.rows, grid.cols), grid.dirty, viewRows, viewCols);
      var buf := DrawCells(grid);
      ghost var seen := grid.cursorRow < viewRows && grid.cursorCol < viewCols;
      FrameShowsCursor(buf, Cursor(prevCursor, prevCursorVisible),
                       Cursor((grid.cursorRow, grid.cursorCol), grid.cursorVisible), seen);
      var cursor := (grid.cursorRow, grid.cursorCol);
      var inView := grid.cursorRow < viewRows && grid.cursorCol < viewCols;
      out := FinishFrame(buf, Cursor(prevCursor, prevCursorVisible), Cursor(cursor, grid.cursorVisible), inView);
      prevCursor := cursor;
      prevCursorVisible := grid.cursorVisible && inView;
    }

    /** Take the dirty flags and draw their rows. */
    method DrawCells(grid: Grid) returns (buf: seq<Cmd>)
      requires Valid() && grid.Valid()
      modifies this`prev, grid`dirty
      ensures Valid() && grid.Valid()
      ensures grid.dirty == AllClean(|old(grid.dirty)|)
      ensures var f := DrawAll(old(prev), Picture(grid.rows, grid.cols), old(grid.dirty), viewRows, viewCols);
        prev == f.prev && buf == f.out.buf
    {
      var dirtyRows := grid.TakeDirty();
      var sgr;
      buf, sgr := RenderDirty(grid, dirtyRows);
    }

    /** One frame, seen from a terminal nearly in step with `prev`: it shows the grid exactly
        when the cells blank in both look blank, and is then in step with nothing left to draw. */
    method RenderOnto(grid: Grid, ghost term: Screen) returns (out: seq<Cmd>)
      requires Valid() && grid.Valid()
      requires Nearly(term, prev, Picture(grid.rows, grid.cols), grid.dirty, viewRows, viewCols)
      modifies this, grid`dirty
      ensures Valid() && grid.Valid() && grid.View() == old(grid.View())
      ensures viewRows == old(viewRows) && viewCols == old(viewCols)
      ensures Nearly(Run(term, out), prev, Picture(grid.rows, grid.cols), grid.dirty, viewRows, viewCols)
      ensures Shows(Run(term, out), Picture(grid.rows, grid.cols), viewRows, viewCols) <==>
        BlankLooksBlank(term, old(prev), Picture(grid.rows, grid.cols), viewRows, viewCols)
      ensures Shows(Run(term, out), Picture(grid.rows, grid.cols), viewRows, viewCols) <==>
        Synced(Run(term, out), prev, Picture(grid.rows, grid.cols), grid.dirty, viewRows, viewCols)
      ensures ListsChanges(Printed(term, out), old(prev), Picture(grid.rows, grid.cols), old(grid.dirty),
                           viewRows, viewCols)
      ensures out != [] ==> Run(term, out).pen == PLAIN
    {
      ghost var was := Cursor(prevCursor, prevCursorVisible);
      ghost var now := Cursor((grid.cursorRow, grid.cursorCol), grid.cursorVisible);
      ghost var inView := grid.cursorRow < viewRows && grid.cursorCol < viewCols;
      ghost var pic := Picture(grid.rows, grid.cols);
      RenderNearlyExact(term, prev, pic, grid.dirty, viewRows, viewCols, was, now, inView);
      FramePrintsChanges(term, prev, pic, grid.dirty, viewRows, viewCols, was, now, inView);
      out := Render(grid);
      if out != [] {
        FrameLeavesPlain(term, DrawAll(old(prev), pic, old(grid.dirty), viewRows, viewCols).out.buf, was, now, inView);
      }
    }

    /** The row loop of `render`. */
    method RenderDirty(grid: Grid, dirtyRows: seq<nat>) returns (buf: seq<Cmd>, sgr: Option<Style>)
      requires Valid()
      modifies this`prev
      ensures Valid()
      ensures Frame(Out(buf, sgr), prev)
           == Rows(Frame(Out([], None), old(prev)), Picture(grid.rows, grid.cols), viewRows, viewCols,
                   dirtyRows, |dirtyRows|)
    {
      buf, sgr := [], None;
      for i := 0 to |dirtyRows|
        invariant Valid()
        invariant Frame(Out(buf, sgr), prev)
               == Rows(Frame(Out([], None), old(prev)), Picture(grid.rows, grid.cols), viewRows, viewCols,
                       dirtyRows, i)
      {
        var row := dirtyRows[i];
        if row < viewRows && row < |grid.rows| && row < |prev| {
          var width := Min(Min(viewCols, grid.cols), Min(|prev[row]|, |grid.rows[row]|));
          buf, sgr := RenderRow(buf, sgr, prev[row], grid.rows[row], row, width);
          prev := prev[row := Overlay(prev[row], grid.rows[row], width)];
        }
      }
    }
  }
}
