/** Parsed terminal commands and what runs of them do to a screen (src/grid/mod.rs, driven by
    src/vt/mod.rs). */
module Terminals {
  import opened Ints
  import opened Wrappers
  import opened Cells
  import opened Slices
  import opened Screens
  import Sgr

  /** One already-parsed terminal command. */
  datatype Op =
    | OpPrint(c: char) | OpMove(row: nat, col: nat) | OpMoveRel(drow: int, dcol: int)
    | OpCarriageReturn | OpLineFeed | OpBackspace | OpTab
    | OpScrollUp(n: nat) | OpScrollDown(n: nat) | OpInsertLines(n: nat) | OpDeleteLines(n: nat)
    | OpInsertChars(n: nat) | OpDeleteChars(n: nat) | OpEraseChars(n: nat)
    | OpEraseToEndOfLine | OpEraseToCursor | OpEraseLine
    | OpEraseToEndOfScreen | OpEraseToStartOfScreen | OpEraseScreen
    | OpSetRegion(top: nat, bottom: nat) | OpResetRegion
    | OpSgr(params: Sgr.Groups) | OpAutoWrap(on: bool) | OpSave | OpRestore
    | OpResize(rows: nat, cols: nat) | OpDrain

  /** The screen after an operation. */
  function After(s: Screen, saved: Option<(nat, nat)>, op: Op): Screen
    requires s.top <= s.bottom <= |s.rows|
  {
    match op
    case OpPrint(c) => Print(s, c)
    case OpMove(row, col) => MoveCursor(s, row, col)
    case OpMoveRel(drow, dcol) => MoveCursorRel(s, drow, dcol)
    case OpCarriageReturn => CarriageReturn(s)
    case OpLineFeed => NextRow(s)
    case OpBackspace => Backspace(s)
    case OpTab => Tab(s)
    case OpScrollUp(n) => ScrollUp(s, n)
    case OpScrollDown(n) => ScrollDown(s, n)
    case OpInsertLines(n) => InsertLines(s, n)
    case OpDeleteLines(n) => DeleteLines(s, n)
    case OpInsertChars(n) => InsertChars(s, n)
    case OpDeleteChars(n) => DeleteChars(s, n)
    case OpEraseChars(n) => EraseChars(s, n)
    case OpEraseToEndOfLine => EraseToEndOfLine(s)
    case OpEraseToCursor => EraseToCursor(s)
    case OpEraseLine => EraseLine(s)
    case OpEraseToEndOfScreen => EraseToEndOfScreen(s)
    case OpEraseToStartOfScreen => EraseToStartOfScreen(s)
    case OpEraseScreen => EraseScreen(s)
    case OpSetRegion(top, bottom) => SetScrollRegion(s, top, bottom)
    case OpResetRegion => ResetScrollRegion(s)
    case OpSgr(params) => SetSgr(s, params)
    case OpAutoWrap(on) => s.(autoWrap := on)
    case OpSave => s
    case OpRestore => if saved.Some? then MoveCursor(s, saved.value.0, saved.value.1) else s
    case OpResize(r, c) => Resize(s, r, c)
    case OpDrain => s
  }

  function SavedAfter(s: Screen, saved: Option<(nat, nat)>, op: Op): Option<(nat, nat)> {
    if op.OpSave? then Some((s.curRow, s.curCol)) else saved
  }

  // ---- Operations that break the grid ----

  /** The two operations the source performs without a check: a region that starts past the last
      row, and a line feed on a grid without rows. */
  predicate AllowedOn(rowCount: nat, op: Op) {
    match op
    case OpLineFeed => 0 < rowCount
    case OpSetRegion(top, _) => top < rowCount
    case _ => true
  }

  /** `scroll_bottom - 1` in `line_feed` does not underflow. */
  predicate LineFeedFits(s: Screen) {
    s.curRow + 1 >= s.bottom ==> s.bottom > 0
  }

  /** The slice of rows that a scroll by `n` rotates exists. */
  predicate ScrollFits(s: Screen, n: nat) {
    Min(n, s.bottom - s.top) > 0 ==> s.bottom <= |s.rows|
  }

  /** Setting a region keeps the grid's invariant exactly when it starts on a row. */
  lemma RegionExact(s: Screen, top: nat, bottom: nat)
    requires Ok(s)
    ensures Ok(SetScrollRegion(s, top, bottom)) <==> AllowedOn(|s.rows|, OpSetRegion(top, bottom))
  {
  }

  /** Otherwise the next scroll slices past the end of the rows. */
  lemma RegionThenScroll(s: Screen, top: nat, bottom: nat, n: nat)
    requires Ok(s) && n > 0
    ensures ScrollFits(SetScrollRegion(s, top, bottom), n) <==> AllowedOn(|s.rows|, OpSetRegion(top, bottom))
  {
  }

  lemma LineFeedExact(s: Screen)
    requires Ok(s)
    ensures LineFeedFits(s) <==> AllowedOn(|s.rows|, OpLineFeed)
  {
  }

  /** On 24 rows, the region from row 100 to row 5. */
  lemma RegionPastTheEnd()
    ensures var s := SetScrollRegion(Fresh(24, 80), 99, 5);
      s.top == 24 && s.bottom == 100 && !Ok(s) && !ScrollFits(s, 1)
  {
  }

  /** A grid cut to no rows cannot take a line feed. */
  lemma LineFeedWithoutRows()
    ensures var s := Resize(Fresh(24, 80), 0, 80); Ok(s) && !LineFeedFits(s)
  {
    ResizeOk(Fresh(24, 80), 0, 80);
  }

  // ---- What operations keep ----

  /** Operations on the cursor, the region, the pen and the modes. */
  predicate IsCursorOp(op: Op) {
    op.OpMove? || op.OpMoveRel? || op.OpCarriageReturn? || op.OpBackspace? || op.OpTab? || op.OpSgr?
    || op.OpSave? || op.OpRestore? || op.OpAutoWrap? || op.OpSetRegion? || op.OpResetRegion?
  }

  /** They leave content and history alone, keep the cursor on the screen, and each but the
      region operations keeps the region. */
  lemma CursorOpsKeepContent(s: Screen, saved: Option<(nat, nat)>, op: Op)
    requires Ok(s) && IsCursorOp(op) && AllowedOn(|s.rows|, op)
    ensures var t := After(s, saved, op);
      && t.rows == s.rows && t.history == s.history && t.cols == s.cols && Ok(t)
      && (op.OpSetRegion? || op.OpResetRegion? || (t.top == s.top && t.bottom == s.bottom))
      && (op.OpSgr? || t.pen == s.pen) && (op.OpAutoWrap? || t.autoWrap == s.autoWrap)
      && (op.OpSgr? || op.OpAutoWrap? || op.OpSave? || op.OpRestore? || op.OpSetRegion? || op.OpResetRegion?
          || !t.wrap)
  {
  }

  /** The place among the first `n` that is nearest to `x`, 0 when there is none. */
  predicate IsNearest(p: nat, x: int, n: nat) {
    if n == 0 then p == 0 else p < n && (p == x || (x < 0 && p == 0) || (x >= n && p == n - 1))
  }

  /** The next multiple of eight, or the last column when that is off the screen. */
  predicate IsTabStop(p: nat, col: nat, cols: nat) {
    if cols > 0 && (cols - 1) / 8 * 8 > col then p % 8 == 0 && col < p <= col + 8 && p < cols
    else p == SatSub(cols, 1)
  }

  /** Where the cursor goes. */
  predicate CursorGoes(s: Screen, saved: Option<(nat, nat)>, t: Screen, op: Op)
    requires IsCursorOp(op)
  {
    match op
    case OpMove(row, col) => IsNearest(t.curRow, row, |s.rows|) && IsNearest(t.curCol, col, s.cols)
    case OpMoveRel(drow, dcol) =>
      IsNearest(t.curRow, s.curRow + drow, |s.rows|) && IsNearest(t.curCol, s.curCol + dcol, s.cols)
    case OpCarriageReturn => t.curRow == s.curRow && t.curCol == 0
    case OpBackspace => t.curRow == s.curRow && IsNearest(t.curCol, s.curCol - 1, s.cols)
    case OpTab => t.curRow == s.curRow && IsTabStop(t.curCol, s.curCol, s.cols)
    case OpRestore =>
      if saved.None? then t.curRow == s.curRow && t.curCol == s.curCol
      else IsNearest(t.curRow, saved.value.0, |s.rows|) && IsNearest(t.curCol, saved.value.1, s.cols)
    case _ => t.curRow == s.curRow && t.curCol == s.curCol && t.wrap == s.wrap
  }

  /** The region that is set: the rows asked for, cut at the last one, and at least one row. */
  predicate RegionIs(s: Screen, t: Screen, op: Op) {
    match op
    case OpSetRegion(top, bottom) =>
      t.top == top && if bottom <= top then t.bottom == top + 1 else IsNearest(t.bottom, bottom, |s.rows| + 1)
    case OpResetRegion => t.top == 0 && t.bottom == |s.rows|
    case _ => t.top == s.top && t.bottom == s.bottom
  }

  lemma CursorMoves(s: Screen, saved: Option<(nat, nat)>, op: Op)
    requires Ok(s) && IsCursorOp(op) && AllowedOn(|s.rows|, op)
    ensures CursorGoes(s, saved, After(s, saved, op), op) && RegionIs(s, After(s, saved, op), op)
    ensures op.OpAutoWrap? ==> After(s, saved, op).autoWrap == op.on
  {
  }

  predicate IsErase(op: Op) {
    op.OpEraseChars? || op.OpEraseToEndOfLine? || op.OpEraseToCursor? || op.OpEraseLine?
    || op.OpEraseToEndOfScreen? || op.OpEraseToStartOfScreen? || op.OpEraseScreen?
  }

  /** The cells an erase names, in terms of the cursor. */
  predicate Erases(s: Screen, op: Op, r: nat, c: nat)
    requires IsErase(op)
  {
    match op
    case OpEraseChars(n) => r == s.curRow && s.curCol <= c < s.curCol + n
    case OpEraseToEndOfLine => r == s.curRow && s.curCol <= c
    case OpEraseToCursor => r == s.curRow && c <= s.curCol
    case OpEraseLine => r == s.curRow
    case OpEraseToEndOfScreen => r > s.curRow || (r == s.curRow && s.curCol <= c)
    case OpEraseToStartOfScreen => r < s.curRow || (r == s.curRow && c <= s.curCol)
    case OpEraseScreen => true
  }

  ghost predicate ErasedExactly(s: Screen, t: Screen, op: Op)
    requires IsErase(op)
  {
    && |t.rows| == |s.rows| && (forall r :: 0 <= r < |s.rows| ==> |t.rows[r]| == |s.rows[r]|)
    && forall r, c :: 0 <= r < |s.rows| && 0 <= c < |s.rows[r]| ==>
         t.rows[r][c] == if Erases(s, op, r, c) then BLANK else s.rows[r][c]
  }

  /** The editing operations that drop a pending wrap, where there is a cell to edit. */
  predicate Unwraps(s: Screen, op: Op) {
    s.rows != [] && s.cols > 0 && (op.OpEraseChars? || (MovesCells(op) && op.n > 0))
  }

  predicate InRow(op: Op) {
    op.OpEraseChars? || op.OpEraseToEndOfLine? || op.OpEraseToCursor? || op.OpEraseLine?
  }

  lemma EraseInRow(s: Screen, saved: Option<(nat, nat)>, op: Op)
    requires Ok(s) && InRow(op)
    ensures ErasedExactly(s, After(s, saved, op), op)
    ensures var t := After(s, saved, op); t == s.(rows := t.rows, wrap := s.wrap && !Unwraps(s, op))
  {
  }

  lemma EraseDown(s: Screen, saved: Option<(nat, nat)>)
    requires Ok(s)
    ensures ErasedExactly(s, After(s, saved, OpEraseToEndOfScreen), OpEraseToEndOfScreen)
    ensures var t := After(s, saved, OpEraseToEndOfScreen); t == s.(rows := t.rows)
  {
    EraseInRow(s, saved, OpEraseToEndOfLine);
  }

  lemma EraseUp(s: Screen, saved: Option<(nat, nat)>)
    requires Ok(s)
    ensures ErasedExactly(s, After(s, saved, OpEraseToStartOfScreen), OpEraseToStartOfScreen)
    ensures var t := After(s, saved, OpEraseToStartOfScreen); t == s.(rows := t.rows)
  {
    EraseInRow(s, saved, OpEraseToCursor);
  }

  /** An erase blanks exactly the cells it names and changes nothing else; only one of single
      characters drops a pending wrap. */
  lemma EraseExact(s: Screen, saved: Option<(nat, nat)>, op: Op)
    requires Ok(s) && IsErase(op)
    ensures ErasedExactly(s, After(s, saved, op), op)
    ensures var t := After(s, saved, op); t == s.(rows := t.rows, wrap := s.wrap && !Unwraps(s, op))
  {
    if InRow(op) {
      EraseInRow(s, saved, op);
    } else if op.OpEraseToEndOfScreen? {
      EraseDown(s, saved);
    } else if op.OpEraseToStartOfScreen? {
      EraseUp(s, saved);
    }
  }

  // ---- What scrolls, insertions and deletions move ----

  predicate MovesRows(op: Op) {
    op.OpScrollUp? || op.OpScrollDown? || op.OpInsertLines? || op.OpDeleteLines?
  }

  predicate MovesCells(op: Op) {
    op.OpInsertChars? || op.OpDeleteChars?
  }

  /** Place `i` of `[lo, hi)` now holds what stood at `i + off`, or `blank` when that place is
      outside; the rest is as it was. */
  ghost predicate Slid<T>(was: seq<T>, now: seq<T>, lo: nat, hi: nat, off: int, blank: T) {
    && |now| == |was| && hi <= |was|
    && (forall i :: 0 <= i < |was| && !(lo <= i < hi) ==> now[i] == was[i])
    && (forall i :: lo <= i < hi ==> now[i] == if lo <= i + off < hi then was[i + off] else blank)
  }

  lemma ShiftLeftSlides<T>(xs: seq<T>, lo: nat, hi: nat, n: nat, blank: T)
    requires lo <= hi <= |xs|
    ensures Slid(xs, ShiftLeft(xs, lo, hi, Min(n, hi - lo), blank), lo, hi, n, blank)
  {
  }

  lemma ShiftRightSlides<T>(xs: seq<T>, lo: nat, hi: nat, n: nat, blank: T)
    requires lo <= hi <= |xs|
    ensures Slid(xs, ShiftRight(xs, lo, hi, Min(n, hi - lo), blank), lo, hi, -(n as int), blank)
  {
  }

  lemma NothingSlides<T>(xs: seq<T>, lo: nat, hi: nat, blank: T)
    requires lo <= hi <= |xs|
    ensures Slid(xs, xs, lo, hi, 0, blank)
  {
  }

  /** Scrolls up and deletions bring in what is below or to the right; scrolls down and
      insertions what is above or to the left. */
  function Slide(op: Op): int
    requires MovesRows(op) || MovesCells(op)
  {
    if op.OpScrollUp? || op.OpDeleteLines? || op.OpDeleteChars? then op.n else -(op.n as int)
  }

  /** Scrolls move the region, insertions and deletions its part from the cursor down, and
      nothing when the cursor is outside it. */
  ghost predicate RowsMoved(s: Screen, t: Screen, op: Op)
    requires MovesRows(op)
  {
    if op.OpScrollUp? || op.OpScrollDown? then Slid(s.rows, t.rows, s.top, s.bottom, Slide(op), BlankRow(s.cols))
    else if s.top <= s.curRow < s.bottom then
      Slid(s.rows, t.rows, s.curRow, s.bottom, Slide(op), BlankRow(s.cols))
    else t.rows == s.rows
  }

  /** Only the cells of the cursor's row from the cursor on move. */
  ghost predicate CellsMoved(s: Screen, t: Screen, op: Op)
    requires MovesCells(op)
  {
    && |t.rows| == |s.rows|
    && (forall r :: 0 <= r < |s.rows| && r != s.curRow ==> t.rows[r] == s.rows[r])
    && (s.curRow < |s.rows| ==> Slid(s.rows[s.curRow], t.rows[s.curRow], s.curCol, s.cols, Slide(op), BLANK))
  }

  /** The history grows by the region's first `n` rows, or all of them, top row first. */
  ghost predicate PushesTop(s: Screen, t: Screen, n: nat)
    requires s.top <= s.bottom <= |s.rows|
  {
    t.history == s.history + s.rows[s.top..Min(s.top + n, s.bottom)]
  }

  lemma RegionReplaced(s: Screen, op: Op, rows: seq<Row>, history: seq<Row>, off: int)
    requires (op.OpScrollUp? || op.OpScrollDown?) && s.top <= s.bottom <= |s.rows| && off == Slide(op)
    requires Slid(s.rows, rows, s.top, s.bottom, off, BlankRow(s.cols))
    ensures RowsMoved(s, s.(rows := rows, history := history), op)
  {
  }

  lemma ScrollUpMoves(s: Screen, op: Op)
    requires s.top <= s.bottom <= |s.rows| && op.OpScrollUp?
    ensures var t := ScrollUp(s, op.n);
      RowsMoved(s, t, op) && t == s.(rows := t.rows, history := t.history) && PushesTop(s, t, op.n)
  {
    var n: nat, t := op.n, ScrollUp(s, op.n);
    ShiftLeftSlides(s.rows, s.top, s.bottom, n, BlankRow(s.cols));
    RegionReplaced(s, op, t.rows, t.history, n);
  }

  lemma ScrollDownMoves(s: Screen, op: Op)
    requires s.top <= s.bottom <= |s.rows| && op.OpScrollDown?
    ensures var t := ScrollDown(s, op.n); RowsMoved(s, t, op) && t == s.(rows := t.rows)
  {
    var n: nat, t := op.n, ScrollDown(s, op.n);
    ShiftRightSlides(s.rows, s.top, s.bottom, n, BlankRow(s.cols));
    RegionReplaced(s, op, t.rows, s.history, -(n as int));
  }

  lemma RowsReplaced(s: Screen, op: Op, rows: seq<Row>, off: int)
    requires (op.OpInsertLines? || op.OpDeleteLines?) && s.top <= s.curRow < s.bottom <= |s.rows| && off == Slide(op)
    requires Slid(s.rows, rows, s.curRow, s.bottom, off, BlankRow(s.cols))
    ensures RowsMoved(s, s.(rows := rows), op)
  {
  }

  lemma InsertMovesRows(s: Screen, op: Op)
    requires s.top <= s.bottom <= |s.rows| && op.OpInsertLines?
    ensures var t := InsertLines(s, op.n); RowsMoved(s, t, op) && t == s.(rows := t.rows)
  {
    if s.top <= s.curRow < s.bottom {
      var n: nat := op.n;
      var blank := BlankRow(s.cols);
      ShiftRightSlides(s.rows, s.curRow, s.bottom, n, blank);
      RowsReplaced(s, op, ShiftRight(s.rows, s.curRow, s.bottom, Min(n, s.bottom - s.curRow), blank), -(n as int));
    }
  }

  lemma DeleteMovesRows(s: Screen, op: Op)
    requires s.top <= s.bottom <= |s.rows| && op.OpDeleteLines?
    ensures var t := DeleteLines(s, op.n); RowsMoved(s, t, op) && t == s.(rows := t.rows)
  {
    if s.top <= s.curRow < s.bottom {
      var n: nat := op.n;
      var blank := BlankRow(s.cols);
      ShiftLeftSlides(s.rows, s.curRow, s.bottom, n, blank);
      RowsReplaced(s, op, ShiftLeft(s.rows, s.curRow, s.bottom, Min(n, s.bottom - s.curRow), blank), n);
    }
  }

  /** Scrolls, line insertions and line deletions move whole rows, open blank ones and change
      nothing else; only a scroll up keeps the rows it pushes off. */
  lemma RowsMoveExactly(s: Screen, saved: Option<(nat, nat)>, op: Op)
    requires s.top <= s.bottom <= |s.rows| && MovesRows(op)
    ensures var t := After(s, saved, op); RowsMoved(s, t, op) && t == s.(rows := t.rows, history := t.history)
    ensures if op.OpScrollUp? then PushesTop(s, After(s, saved, op), op.n)
            else After(s, saved, op).history == s.history
  {
    if op.OpInsertLines? {
      InsertMovesRows(s, op);
    } else if op.OpDeleteLines? {
      DeleteMovesRows(s, op);
    } else if op.OpScrollUp? {
      ScrollUpMoves(s, op);
    } else {
      ScrollDownMoves(s, op);
    }
  }

  /** A row of the screen is replaced. */
  lemma OneRowMoved(s: Screen, op: Op, row: Row, off: int)
    requires Ok(s) && MovesCells(op) && s.curRow < |s.rows| && off == Slide(op)
    requires Slid(s.rows[s.curRow], row, s.curCol, s.cols, off, BLANK)
    ensures CellsMoved(s, SetRow(s, s.curRow, row).(wrap := false), op)
  {
  }

  lemma NoCellMoved(s: Screen, op: Op)
    requires Ok(s) && MovesCells(op) && (!OnCell(s) || op.n == 0)
    ensures CellsMoved(s, s, op)
  {
    if OnCell(s) { NothingSlides(s.rows[s.curRow], s.curCol, s.cols, BLANK); }
  }

  lemma InsertMovesCells(s: Screen, op: Op)
    requires Ok(s) && op.OpInsertChars?
    ensures var t := InsertChars(s, op.n);
      CellsMoved(s, t, op) && t == s.(rows := t.rows, wrap := s.wrap && !Unwraps(s, op))
  {
    var n: nat := op.n;
    if OnCell(s) && n > 0 {
      var row := s.rows[s.curRow];
      ShiftRightSlides(row, s.curCol, s.cols, n, BLANK);
      OneRowMoved(s, op, ShiftRight(row, s.curCol, s.cols, Min(n, s.cols - s.curCol), BLANK), -(n as int));
    } else {
      NoCellMoved(s, op);
    }
  }

  lemma DeleteMovesCells(s: Screen, op: Op)
    requires Ok(s) && op.OpDeleteChars?
    ensures var t := DeleteChars(s, op.n);
      CellsMoved(s, t, op) && t == s.(rows := t.rows, wrap := s.wrap && !Unwraps(s, op))
  {
    var n: nat := op.n;
    if OnCell(s) && n > 0 {
      var row := s.rows[s.curRow];
      ShiftLeftSlides(row, s.curCol, s.cols, n, BLANK);
      OneRowMoved(s, op, ShiftLeft(row, s.curCol, s.cols, Min(n, s.cols - s.curCol), BLANK), n);
    } else {
      NoCellMoved(s, op);
    }
  }

  /** Character insertions and deletions move cells of the cursor's row and drop a pending
      wrap. */
  lemma CellsMoveExactly(s: Screen, saved: Option<(nat, nat)>, op: Op)
    requires Ok(s) && MovesCells(op)
    ensures var t := After(s, saved, op);
      CellsMoved(s, t, op) && t == s.(rows := t.rows, wrap := s.wrap && !Unwraps(s, op))
  {
    if op.OpInsertChars? { InsertMovesCells(s, op); } else { DeleteMovesCells(s, op); }
  }

  // ---- Line feed, print and resize ----

  /** A line feed goes down a row, or at the region's last row and below it, scrolls the region
      up by one and stays on its last row. */
  lemma LineFeedMoves(s: Screen, saved: Option<(nat, nat)>)
    requires Ok(s) && s.rows != []
    ensures var t := After(s, saved, OpLineFeed);
      if s.curRow + 1 < s.bottom then t == s.(curRow := s.curRow + 1, wrap := false)
      else t == After(s, saved, OpScrollUp(1)).(curRow := s.bottom - 1, wrap := false)
  {
  }

  /** Where a print writes: at the cursor, after the wrap that may be pending. */
  function PrintsOn(s: Screen, saved: Option<(nat, nat)>): Screen
    requires s.top <= s.bottom <= |s.rows|
  {
    if s.wrap then After(After(s, saved, OpLineFeed), saved, OpCarriageReturn) else s
  }

  /** The character and the pen stand at the cursor, and nothing else changes but the cursor. It
      goes one column on; in the last column it stays and, with autowrap, waits for a wrap. */
  ghost predicate Printed(s: Screen, t: Screen, c: char) {
    && t == s.(rows := t.rows, curCol := t.curCol, wrap := t.wrap) && |t.rows| == |s.rows|
    && (forall r :: 0 <= r < |s.rows| ==> |t.rows[r]| == |s.rows[r]|)
    && (forall r, col :: 0 <= r < |s.rows| && 0 <= col < |s.rows[r]| ==>
          t.rows[r][col] == if r == s.curRow && col == s.curCol then Cell(c, s.pen) else s.rows[r][col])
    && (if s.curCol < s.cols - 1 then t.curCol == s.curCol + 1 && !t.wrap
        else t.curCol == s.curCol && t.wrap == s.autoWrap)
  }

  lemma PutsHere(s: Screen, c: char)
    requires Ok(s) && !s.wrap && s.rows != [] && s.cols > 0
    ensures Printed(s, PutHere(s, c), c)
  {
  }

  lemma PrintsExactly(s: Screen, saved: Option<(nat, nat)>, c: char)
    requires Ok(s) && s.rows != [] && s.cols > 0
    ensures Ok(PrintsOn(s, saved)) && Printed(PrintsOn(s, saved), After(s, saved, OpPrint(c)), c)
  {
    if s.wrap { NextRowOk(s); }
    PutsHere(PrintsOn(s, saved), c);
  }

  /** Cells are kept or opened blank. */
  ghost predicate CellsFitted(was: seq<Row>, now: seq<Row>, rows: nat, cols: nat) {
    && |now| == rows && (forall r :: 0 <= r < rows ==> |now[r]| == cols)
    && forall r, c :: 0 <= r < rows && 0 <= c < cols ==>
         now[r][c] == if r < |was| && c < |was[r]| then was[r][c] else BLANK
  }

  /** Rows cut off the bottom go to the history, last row first. */
  ghost predicate PushesCut(s: Screen, t: Screen, rows: nat) {
    && |t.history| == |s.history| + Max(|s.rows| - rows, 0)
    && forall k :: 0 <= k < |t.history| ==>
         t.history[k] == if k < |s.history| then s.history[k] else s.rows[|s.rows| - 1 - (k - |s.history|)]
  }

  lemma ResizePushesCut(s: Screen, rows: nat, cols: nat)
    ensures PushesCut(s, Resize(s, rows, cols), rows)
  {
  }

  lemma ResizeFitsCells(s: Screen, rows: nat, cols: nat)
    ensures CellsFitted(s.rows, Resize(s, rows, cols).rows, rows, cols)
  {
  }

  lemma ResizeKeepsCursor(s: Screen, rows: nat, cols: nat)
    requires s.curRow < Max(1, |s.rows|) && s.curCol < Max(1, s.cols)
    ensures var t := Resize(s, rows, cols);
      && IsNearest(t.curRow, s.curRow, rows) && IsNearest(t.curCol, s.curCol, cols)
      && t.cols == cols && t.top == 0 && t.bottom == rows && !t.wrap
      && t.autoWrap == s.autoWrap && t.pen == s.pen
  {
  }

  /** The cursor stays as near as it can and the region is the whole screen. */
  lemma ResizesExactly(s: Screen, saved: Option<(nat, nat)>, rows: nat, cols: nat)
    requires Ok(s)
    ensures var t := After(s, saved, OpResize(rows, cols));
      && CellsFitted(s.rows, t.rows, rows, cols) && PushesCut(s, t, rows)
      && IsNearest(t.curRow, s.curRow, rows) && IsNearest(t.curCol, s.curCol, cols)
      && t.cols == cols && t.top == 0 && t.bottom == rows && !t.wrap
      && t.autoWrap == s.autoWrap && t.pen == s.pen
  {
    ResizeKeepsCursor(s, rows, cols);
    ResizePushesCut(s, rows, cols);
    ResizeFitsCells(s, rows, cols);
  }

  // ---- History ----

  /** The operations that may push rows onto the history. */
  predicate Pushes(op: Op) {
    op.OpPrint? || op.OpLineFeed? || op.OpScrollUp? || op.OpResize?
  }

  lemma ScrollKeepsHistory(s: Screen, n: nat)
    requires s.top <= s.bottom <= |s.rows|
    ensures s.history <= ScrollUp(s, n).history
  {
  }

  lemma PushingKeepsHistory(s: Screen, saved: Option<(nat, nat)>, op: Op)
    requires s.top <= s.bottom <= |s.rows| && Pushes(op)
    ensures s.history <= After(s, saved, op).history
  {
    ScrollKeepsHistory(s, if op.OpScrollUp? then op.n else 1);
  }

  lemma EditingKeepsHistory(s: Screen, saved: Option<(nat, nat)>, op: Op)
    requires s.top <= s.bottom <= |s.rows| && !Pushes(op)
    ensures s.history == After(s, saved, op).history
  {
  }

  /** No operation rewrites the history. */
  lemma AfterKeepsHistory(s: Screen, saved: Option<(nat, nat)>, op: Op)
    requires s.top <= s.bottom <= |s.rows|
    ensures s.history <= After(s, saved, op).history
  {
    if Pushes(op) { PushingKeepsHistory(s, saved, op); } else { EditingKeepsHistory(s, saved, op); }
  }

  // ---- Runs ----

  /** A screen and its saved cursor. */
  datatype Terminal = Terminal(screen: Screen, saved: Option<(nat, nat)>)

  /** The operation can be carried out. */
  predicate Takes(t: Terminal, op: Op) {
    t.screen.top <= t.screen.bottom <= |t.screen.rows| && AllowedOn(|t.screen.rows|, op)
  }

  function NextTerminal(t: Terminal, op: Op): Terminal
    requires Takes(t, op)
  {
    Terminal(After(t.screen, t.saved, op), SavedAfter(t.screen, t.saved, op))
  }

  /** Running `ops` from `t` carries out all of them and ends in `u`. */
  ghost predicate RunsTo(t: Terminal, ops: seq<Op>, u: Terminal)
    decreases |ops|
  {
    if ops == [] then t == u
    else Takes(t, ops[0]) && RunsTo(NextTerminal(t, ops[0]), ops[1..], u)
  }

  lemma {:induction false} RunsToOneMore(t: Terminal, ops: seq<Op>, u: Terminal, op: Op)
    requires RunsTo(t, ops, u) && Takes(u, op)
    ensures RunsTo(t, ops + [op], NextTerminal(u, op))
    decreases |ops|
  {
    if ops == [] {
      assert ([] + [op])[0] == op && ([] + [op])[1..] == [];
    } else {
      RunsToOneMore(NextTerminal(t, ops[0]), ops[1..], u, op);
      assert (ops + [op])[1..] == ops[1..] + [op];
    }
  }

  lemma ScrollsKeepSize(s: Screen, saved: Option<(nat, nat)>, op: Op)
    requires s.top <= s.bottom <= |s.rows|
    requires op.OpPrint? || op.OpLineFeed? || op.OpScrollUp? || op.OpScrollDown?
      || op.OpInsertLines? || op.OpDeleteLines?
    ensures |After(s, saved, op).rows| == |s.rows| && After(s, saved, op).cols == s.cols
  {
  }

  lemma ErasesKeepSize(s: Screen, saved: Option<(nat, nat)>, op: Op)
    requires s.top <= s.bottom <= |s.rows| && (IsErase(op) || op.OpInsertChars? || op.OpDeleteChars?)
    ensures |After(s, saved, op).rows| == |s.rows| && After(s, saved, op).cols == s.cols
  {
  }

  lemma AfterKeepsSize(s: Screen, saved: Option<(nat, nat)>, op: Op)
    requires s.top <= s.bottom <= |s.rows| && !op.OpResize?
    ensures |After(s, saved, op).rows| == |s.rows| && After(s, saved, op).cols == s.cols
  {
    if IsErase(op) || op.OpInsertChars? || op.OpDeleteChars? {
      ErasesKeepSize(s, saved, op);
    } else if !IsCursorOp(op) && !op.OpDrain? {
      ScrollsKeepSize(s, saved, op);
    }
  }

  /** Only a resize changes the size. */
  lemma {:induction false} RunsKeepSize(t: Terminal, ops: seq<Op>, u: Terminal)
    requires RunsTo(t, ops, u) && forall k :: 0 <= k < |ops| ==> !ops[k].OpResize?
    ensures |u.screen.rows| == |t.screen.rows| && u.screen.cols == t.screen.cols
    decreases |ops|
  {
    if ops != [] {
      AfterKeepsSize(t.screen, t.saved, ops[0]);
      RunsKeepSize(NextTerminal(t, ops[0]), ops[1..], u);
    }
  }

  /** A saved cursor comes back, clamped to the screen there is then, whatever runs in between
      does not save again. */
  lemma {:induction false} SavedCursorComesBack(t: Terminal, ops: seq<Op>, u: Terminal)
    requires RunsTo(t, ops, u) && forall k :: 0 <= k < |ops| ==> !ops[k].OpSave?
    requires t.saved.Some? && u.screen.top <= u.screen.bottom <= |u.screen.rows|
    ensures u.saved == t.saved
    ensures After(u.screen, u.saved, OpRestore) == MoveCursor(u.screen, t.saved.value.0, t.saved.value.1)
    decreases |ops|
  {
    if ops != [] { SavedCursorComesBack(NextTerminal(t, ops[0]), ops[1..], u); }
  }
}
