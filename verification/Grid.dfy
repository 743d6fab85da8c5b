/** The terminal grid with its scroll history and dirty tracking (src/grid/mod.rs). */
module Grids {
  import opened Ints
  import opened Wrappers
  import opened Cells
  import opened Screens
  import opened Terminals
  import opened Slices
  import opened Scrollbacks
  import Sgr

  /** Dirty tracking is sound: a row whose flag is off now was off before and has not
      changed. */
  ghost predicate Tracked(rows0: seq<Row>, dirty0: seq<bool>, rows1: seq<Row>, dirty1: seq<bool>) {
    && |dirty1| == |rows1|
    && forall r :: 0 <= r < |rows1| && !dirty1[r] ==>
         r < |rows0| && r < |dirty0| && !dirty0[r] && rows1[r] == rows0[r]
  }

  lemma TrackedTransitive(rows0: seq<Row>, dirty0: seq<bool>, rows1: seq<Row>, dirty1: seq<bool>,
      rows2: seq<Row>, dirty2: seq<bool>)
    requires Tracked(rows0, dirty0, rows1, dirty1) && Tracked(rows1, dirty1, rows2, dirty2)
    ensures Tracked(rows0, dirty0, rows2, dirty2)
  {
  }

  /** The part handed out so far, extended by one more batch. */
  lemma HandedGrows(before: seq<Row>, after: seq<Row>, lo: nat, mid: nat)
    requires before <= after && lo <= mid <= |before|
    ensures after[lo..mid] == before[lo..mid]
    ensures after[lo..mid] + after[mid..] == after[lo..]
  {
  }

  lemma HandedOn(before: seq<Row>, after: seq<Row>, start: nat, from: nat, to: nat)
    requires before <= after && start <= from <= |before| && from <= to <= |after|
    ensures before[start..from] + after[from..to] == after[start..to]
  {
  }

  /** The indices below `n` whose flag is on, ascending. */
  function DirtyRows(dirty: seq<bool>, n: nat): (r: seq<nat>)
    requires n <= |dirty|
    ensures forall k :: 0 <= k < |r| ==> r[k] < n && dirty[r[k]]
    ensures forall i, k :: 0 <= i < k < |r| ==> r[i] < r[k]
    ensures forall i :: 0 <= i < n && dirty[i] ==> i in r
  {
    if n == 0 then []
    else if dirty[n - 1] then DirtyRows(dirty, n - 1) + [n - 1]
    else DirtyRows(dirty, n - 1)
  }

  class Grid {
    var rows: seq<Row>
    var cols: nat
    var rowCount: nat
    var cursorRow: nat
    var cursorCol: nat
    var cursorVisible: bool
    var pen: Style
    const scrollback: Scrollback
    var pendingScrollback: seq<Row>
    var scrollTop: nat
    var scrollBottom: nat
    var wrapPending: bool
    var autoWrap: bool
    var savedCursor: Option<(nat, nat)>
    var dirty: seq<bool>

    /** How many rows of the history `TakePendingScrollback` has handed out. */
    ghost var drained: nat

    /** The screen this grid holds, as a value. */
    ghost function View(): Screen
      reads this, scrollback
    {
      Screen(rows, cols, cursorRow, cursorCol, scrollTop, scrollBottom, wrapPending, autoWrap, pen,
             scrollback.history)
    }

    ghost predicate Valid()
      reads this, scrollback
    {
      && |rows| == rowCount == |dirty|
      && Ok(View())
      && Queued()
    }

    /** The ring is sound, and exactly the history not yet handed out is pending. */
    ghost predicate Queued()
      reads this, scrollback
    {
      && scrollback.Valid()
      && drained <= |scrollback.history|
      && pendingScrollback == scrollback.history[drained..]
    }

    /** What an operation on the visible screen keeps. */
    twostate predicate Steps()
      reads this, scrollback
    {
      && Tracked(old(rows), old(dirty), rows, dirty)
      && savedCursor == old(savedCursor)
      && cursorVisible == old(cursorVisible)
      && drained == old(drained)
    }

    constructor (rows: nat, cols: nat, scrollbackCapacity: nat)
      requires 0 < scrollbackCapacity
      ensures Valid() && fresh(scrollback) && scrollback.capacity == scrollbackCapacity
      ensures View() == Fresh(rows, cols)
      ensures forall r :: 0 <= r < |dirty| ==> dirty[r]
      ensures drained == 0 && savedCursor == None && cursorVisible
    {
      var rs, cs := Max(rows, 1), Max(cols, 1);
      this.rows := BlankRows(rs, cs);
      this.cols, rowCount := cs, rs;
      cursorRow, cursorCol, cursorVisible := 0, 0, true;
      pen := PLAIN;
      scrollback := new Scrollback(scrollbackCapacity);
      pendingScrollback, drained := [], 0;
      scrollTop, scrollBottom := 0, rs;
      wrapPending, autoWrap, savedCursor := false, true, None;
      dirty := seq(rs, _ => true);
    }

    // ---- Dirty tracking ----

    method MarkDirty(row: nat)
      modifies this`dirty
      ensures dirty == if row < |old(dirty)| then old(dirty)[row := true] else old(dirty)
    {
      if row < |dirty| { dirty := dirty[row := true]; }
    }

    /** Mark rows `[from, to)`. */
    method MarkRange(from: nat, to: nat)
      requires from <= to <= |dirty|
      modifies this`dirty
      ensures |dirty| == |old(dirty)|
      ensures forall i :: 0 <= i < |dirty| ==> dirty[i] == (old(dirty)[i] || from <= i < to)
    {
      for i := from to to
        invariant |dirty| == |old(dirty)|
        invariant forall k :: 0 <= k < |dirty| ==> dirty[k] == (old(dirty)[k] || from <= k < i)
      {
        MarkDirty(i);
      }
    }

    method MarkAllDirty()
      modifies this`dirty
      ensures |dirty| == |old(dirty)| && forall i :: 0 <= i < |dirty| ==> dirty[i]
    {
      dirty := seq(|dirty|, _ => true);
    }

    /** The dirty rows in ascending order; every flag is cleared. */
    method TakeDirty() returns (dirtyRows: seq<nat>)
      modifies this`dirty
      ensures |dirty| == |old(dirty)| && forall i :: 0 <= i < |dirty| ==> !dirty[i]
      ensures dirtyRows == DirtyRows(old(dirty), |old(dirty)|)
    {
      dirtyRows := [];
      for i := 0 to |dirty|
        invariant |dirty| == |old(dirty)|
        invariant dirtyRows == DirtyRows(old(dirty), i)
        invariant forall k :: 0 <= k < |dirty| ==> dirty[k] == (old(dirty)[k] && k >= i)
      {
        if dirty[i] {
          dirtyRows := dirtyRows + [i];
          dirty := dirty[i := false];
        }
      }
    }

    /** Rows that scrolled off since the last call. */
    method TakePendingScrollback() returns (batch: seq<Row>)
      requires Valid()
      modifies this`pendingScrollback, this`drained
      ensures Valid() && View() == old(View())
      ensures batch == old(pendingScrollback) && pendingScrollback == []
      ensures batch == scrollback.history[old(drained)..drained] && drained == |scrollback.history|
    {
      batch := pendingScrollback;
      pendingScrollback := [];
      drained := |scrollback.history|;
    }

    // ---- Printing and cursor ----

    /** The row advance shared by a wrapping print and a line feed. */
    method AdvanceRow()
      requires Valid()
      modifies this, scrollback
      ensures Valid() && View() == NextRow(old(View())) && Steps()
    {
      NextRowOk(View());
      if cursorRow + 1 >= scrollBottom {
        ScrollUp(1);
        cursorRow, wrapPending := SatSub(scrollBottom, 1), false;
      } else {
        cursorRow, wrapPending := cursorRow + 1, false;
      }
    }

    method Print(c: char)
      requires Valid()
      modifies this, scrollback
      ensures Valid() && View() == Screens.Print(old(View()), c) && Steps()
    {
      if wrapPending {
        AdvanceRow();
        cursorCol := 0;
      }
      PutChar(c);
    }

    /** The rest of `print`: write the cell, mark its row, advance. */
    method PutChar(c: char)
      requires Valid()
      modifies this
      ensures Valid() && View() == PutHere(old(View()), c) && Steps()
    {
      PutHereOk(View(), c);
      var col := if cursorCol >= cols then SatSub(cols, 1) else cursorCol;
      StoreCell(col, Cell(c, pen));
      MovePast(col);
    }

    method StoreCell(col: nat, cell: Cell)
      requires Valid()
      modifies this`rows, this`dirty
      ensures |rows| == |dirty| && View() == WithCell(old(View()), col, cell)
      ensures Tracked(old(rows), old(dirty), rows, dirty)
    {
      if cursorRow < |rows| && col < |rows[cursorRow]| {
        rows := rows[cursorRow := rows[cursorRow][col := cell]];
      }
      MarkDirty(cursorRow);
    }

    method MovePast(col: nat)
      modifies this`cursorCol, this`wrapPending
      ensures View() == PastCol(old(View()), col)
    {
      if col + 1 >= cols {
        cursorCol, wrapPending := SatSub(cols, 1), autoWrap;
      } else {
        cursorCol := col + 1;
      }
    }

    method MoveCursor(row: nat, col: nat)
      requires Valid()
      modifies this
      ensures Valid() && View() == Screens.MoveCursor(old(View()), row, col) && Steps()
      ensures pendingScrollback == old(pendingScrollback)
    {
      cursorRow := Min(row, SatSub(rowCount, 1));
      cursorCol := Min(col, SatSub(cols, 1));
      wrapPending := false;
    }

    method MoveCursorRel(drow: int, dcol: int)
      requires Valid()
      modifies this
      ensures Valid() && View() == Screens.MoveCursorRel(old(View()), drow, dcol) && Steps()
    {
      MoveCursor(Max(cursorRow + drow, 0), Max(cursorCol + dcol, 0));
    }

    method CarriageReturn()
      requires Valid()
      modifies this
      ensures Valid() && View() == Screens.CarriageReturn(old(View())) && Steps()
    {
      cursorCol := 0;
      wrapPending := false;
    }

    /** False where the source's `scroll_bottom - 1` would underflow. */
    method LineFeed() returns (ok: bool)
      requires Valid()
      modifies this, scrollback
      ensures ok <==> LineFeedFits(old(View()))
      ensures Valid() && View() == (if ok then NextRow(old(View())) else old(View())) && Steps()
    {
      LineFeedExact(View());
      if rowCount == 0 { return false; }
      AdvanceRow();
      return true;
    }

    method Backspace()
      requires Valid()
      modifies this
      ensures Valid() && View() == Screens.Backspace(old(View())) && Steps()
    {
      if cursorCol > 0 { cursorCol := cursorCol - 1; }
      wrapPending := false;
    }

    method Tab()
      requires Valid()
      modifies this
      ensures Valid() && View() == Screens.Tab(old(View())) && Steps()
    {
      var next := (cursorCol / 8 + 1) * 8;
      cursorCol := Min(next, SatSub(cols, 1));
      wrapPending := false;
    }

    method SaveCursor()
      requires Valid()
      modifies this`savedCursor
      ensures Valid() && View() == old(View()) && savedCursor == Some((cursorRow, cursorCol))
    {
      savedCursor := Some((cursorRow, cursorCol));
    }

    method RestoreCursor()
      requires Valid()
      modifies this
      ensures Valid() && Steps()
      ensures View() == if old(savedCursor).Some?
        then Screens.MoveCursor(old(View()), old(savedCursor).value.0, old(savedCursor).value.1)
        else old(View())
    {
      if savedCursor.Some? { MoveCursor(savedCursor.value.0, savedCursor.value.1); }
    }

    // ---- Scrolling and line editing ----

    /** Hand one row to the history and to the clients' queue. */
    method PushHistory(row: Row)
      requires Queued()
      modifies this`pendingScrollback, scrollback
      ensures Queued()
      ensures scrollback.history == old(scrollback.history) + [row]
    {
      scrollback.Push(row);
      pendingScrollback := pendingScrollback + [row];
    }

    /** Replace the top `m` rows of the region by blanks, pushing them into the history. */
    method PushTopRows(m: nat)
      requires scrollTop + m <= |rows|
      requires Queued()
      modifies this`rows, this`pendingScrollback, scrollback
      ensures rows == Fill(old(rows), scrollTop, scrollTop + m, BlankRow(cols))
      ensures Queued()
      ensures scrollback.history == Append(old(scrollback.history), old(rows), scrollTop, scrollTop + m)
    {
      for i := 0 to m
        invariant rows == Fill(old(rows), scrollTop, scrollTop + i, BlankRow(cols))
        invariant Queued()
        invariant scrollback.history == Append(old(scrollback.history), old(rows), scrollTop, scrollTop + i)
      {
        AppendOne(old(scrollback.history), old(rows), scrollTop, scrollTop + i);
        FillOne(old(rows), scrollTop, scrollTop + i, BlankRow(cols));
        PushRowAt(scrollTop + i);
      }
    }

    /** Take one row's content into the history, leaving it blank. */
    method PushRowAt(at: nat)
      requires at < |rows| && Queued()
      modifies this`rows, this`pendingScrollback, scrollback
      ensures rows == old(rows)[at := BlankRow(cols)]
      ensures Queued() && scrollback.history == old(scrollback.history) + [old(rows)[at]]
    {
      var row := rows[at];
      rows := rows[at := BlankRow(cols)];
      PushHistory(row);
    }

    /** Move the rows of a scroll by `m`, without marking them. */
    method ShiftUp(m: nat)
      requires Queued() && scrollTop + m <= scrollBottom <= |rows|
      modifies this`rows, this`pendingScrollback, scrollback
      ensures rows == ShiftLeft(old(rows), scrollTop, scrollBottom, m, BlankRow(cols))
      ensures scrollback.history == Append(old(scrollback.history), old(rows), scrollTop, scrollTop + m)
      ensures Queued()
    {
      RotateAndFill(rows, scrollTop, scrollBottom, m, BlankRow(cols));
      PushTopRows(m);
      rows := RotateLeft(rows, scrollTop, scrollBottom, m);
    }

    method ScrollUp(n: nat)
      requires Valid()
      modifies this`rows, this`pendingScrollback, this`dirty, scrollback
      ensures Valid() && View() == Screens.ScrollUp(old(View()), n) && Steps()
    {
      var m := Min(n, scrollBottom - scrollTop);
      ShiftUp(m);
      if m > 0 {
        MarkRange(scrollTop, scrollBottom);
      }
    }

    /** Blank rows `[at, at + n)`. */
    method BlankFrom(at: nat, n: nat)
      requires at + n <= |rows|
      modifies this`rows
      ensures rows == Fill(old(rows), at, at + n, BlankRow(cols))
    {
      for i := 0 to n
        invariant |rows| == |old(rows)|
        invariant forall k :: 0 <= k < |rows| ==>
          rows[k] == if at <= k < at + i then BlankRow(cols) else old(rows)[k]
      {
        rows := rows[at + i := BlankRow(cols)];
      }
    }

    /** Rotate `[at, scrollBottom)` down by `m` and blank the rows this opens at its top. */
    method OpenAt(at: nat, m: nat)
      requires Valid() && scrollTop <= at && at + m <= scrollBottom
      modifies this`rows, this`dirty
      ensures Valid() && Steps()
      ensures View() == old(View()).(rows := ShiftRight(old(rows), at, scrollBottom, m, BlankRow(cols)))
    {
      RotateAndFill(rows, at, scrollBottom, m, BlankRow(cols));
      rows := RotateRight(rows, at, scrollBottom, m);
      BlankFrom(at, m);
      MarkRange(at, scrollBottom);
    }

    method ScrollDown(n: nat)
      requires Valid()
      modifies this
      ensures Valid() && View() == Screens.ScrollDown(old(View()), n) && Steps()
    {
      var m := Min(n, scrollBottom - scrollTop);
      if m == 0 {
        ShiftByZero(rows, scrollTop, scrollBottom, BlankRow(cols));
        return;
      }
      OpenAt(scrollTop, m);
    }

    method InsertLines(n: nat)
      requires Valid()
      modifies this
      ensures Valid() && View() == Screens.InsertLines(old(View()), n) && Steps()
    {
      if cursorRow < scrollTop || cursorRow >= scrollBottom { return; }
      var m := Min(n, scrollBottom - cursorRow);
      if m == 0 {
        ShiftByZero(rows, cursorRow, scrollBottom, BlankRow(cols));
        return;
      }
      OpenAt(cursorRow, m);
    }

    /** Rotate `[at, scrollBottom)` up by `m` and blank the rows this frees at its bottom. */
    method CloseAt(at: nat, m: nat)
      requires Valid() && scrollTop <= at && at + m <= scrollBottom
      modifies this`rows, this`dirty
      ensures Valid() && Steps()
      ensures View() == old(View()).(rows := ShiftLeft(old(rows), at, scrollBottom, m, BlankRow(cols)))
    {
      RotateAndFill(rows, at, scrollBottom, m, BlankRow(cols));
      rows := RotateLeft(rows, at, scrollBottom, m);
      BlankFrom(scrollBottom - m, m);
      MarkRange(at, scrollBottom);
    }

    method DeleteLines(n: nat)
      requires Valid()
      modifies this
      ensures Valid() && View() == Screens.DeleteLines(old(View()), n) && Steps()
    {
      if cursorRow < scrollTop || cursorRow >= scrollBottom { return; }
      var m := Min(n, scrollBottom - cursorRow);
      if m == 0 {
        ShiftByZero(rows, cursorRow, scrollBottom, BlankRow(cols));
        return;
      }
      CloseAt(cursorRow, m);
    }

    // ---- Character editing ----

    /** Store `row` at the cursor's row and mark it. */
    method StoreRow(row: Row)
      requires Valid() && cursorRow < |rows| && |row| == cols
      modifies this`rows, this`dirty
      ensures Valid() && Steps()
      ensures View() == SetRow(old(View()), cursorRow, row)
    {
      rows := rows[cursorRow := row];
      MarkDirty(cursorRow);
    }

    method InsertChars(n: nat)
      requires Valid()
      modifies this
      ensures Valid() && View() == Screens.InsertChars(old(View()), n) && Steps()
    {
      if cursorRow >= |rows| { return; }
      var row := rows[cursorRow];
      if cursorCol >= |row| { return; }
      var m := Min(n, |row| - cursorCol);
      if m == 0 { return; }
      RotateAndFill(row, cursorCol, |row|, m, BLANK);
      row := RotateRight(row, cursorCol, |row|, m);
      StoreRow(Fill(row, cursorCol, cursorCol + m, BLANK));
      wrapPending := false;
    }

    method DeleteChars(n: nat)
      requires Valid()
      modifies this
      ensures Valid() && View() == Screens.DeleteChars(old(View()), n) && Steps()
    {
      if cursorRow >= |rows| { return; }
      var row := rows[cursorRow];
      if cursorCol >= |row| { return; }
      var m := Min(n, |row| - cursorCol);
      if m == 0 { return; }
      RotateAndFill(row, cursorCol, |row|, m, BLANK);
      row := RotateLeft(row, cursorCol, |row|, m);
      StoreRow(Fill(row, |row| - m, |row|, BLANK));
      wrapPending := false;
    }

    method EraseChars(n: nat)
      requires Valid()
      modifies this
      ensures Valid() && View() == Screens.EraseChars(old(View()), n) && Steps()
    {
      if cursorRow >= |rows| { return; }
      var row := rows[cursorRow];
      if cursorCol >= |row| { return; }
      StoreRow(Fill(row, cursorCol, Min(cursorCol + n, |row|), BLANK));
      wrapPending := false;
    }

    method EraseToEndOfLine()
      requires Valid()
      modifies this`rows, this`dirty
      ensures Valid() && View() == Screens.EraseToEndOfLine(old(View())) && Steps()
    {
      if cursorRow < |rows| {
        var row := rows[cursorRow];
        StoreRow(Fill(row, Min(cursorCol, |row|), |row|, BLANK));
      }
    }

    method EraseToCursor()
      requires Valid()
      modifies this`rows, this`dirty
      ensures Valid() && View() == Screens.EraseToCursor(old(View())) && Steps()
    {
      if cursorRow < |rows| {
        var row := rows[cursorRow];
        if row == [] { return; }
        StoreRow(Fill(row, 0, Min(cursorCol, |row| - 1) + 1, BLANK));
      }
    }

    method EraseLine()
      requires Valid()
      modifies this`rows, this`dirty
      ensures Valid() && View() == Screens.EraseLine(old(View())) && Steps()
    {
      if cursorRow < |rows| {
        var row := rows[cursorRow];
        StoreRow(Fill(row, 0, |row|, BLANK));
      }
    }

    /** Blank rows `[from, to)` one by one. */
    method EraseRowRange(from: nat, to: nat)
      requires Valid() && from <= to <= |rows|
      modifies this`rows, this`dirty
      ensures Valid() && Steps()
      ensures View() == old(View()).(rows := EraseRows(old(rows), from, to))
    {
      for i := from to to
        invariant |rows| == |old(rows)| == |dirty| == |old(dirty)|
        invariant forall k :: 0 <= k < |rows| ==>
          rows[k] == if from <= k < i then BlankRow(|old(rows)[k]|) else old(rows)[k]
        invariant forall k :: 0 <= k < |dirty| ==> dirty[k] == (old(dirty)[k] || from <= k < i)
      {
        rows := rows[i := BlankRow(|rows[i]|)];
        MarkDirty(i);
      }
      assert rows == EraseRows(old(rows), from, to);
    }

    method EraseToEndOfScreen()
      requires Valid()
      modifies this`rows, this`dirty
      ensures Valid() && View() == Screens.EraseToEndOfScreen(old(View())) && Steps()
    {
      EraseToEndOfLine();
      EraseRowRange(Min(cursorRow + 1, rowCount), rowCount);
    }

    method EraseToStartOfScreen()
      requires Valid()
      modifies this`rows, this`dirty
      ensures Valid() && View() == Screens.EraseToStartOfScreen(old(View())) && Steps()
    {
      EraseToCursor();
      EraseRowRange(0, Min(cursorRow, rowCount));
    }

    method EraseScreen()
      requires Valid()
      modifies this`rows, this`dirty
      ensures Valid() && View() == Screens.EraseScreen(old(View())) && Steps()
    {
      EraseRowRange(0, rowCount);
    }

    // ---- Region, pen, size ----

    method SetScrollRegion(top: nat, bottom: nat)
      requires Valid()
      modifies this`scrollTop, this`scrollBottom
      ensures View() == Screens.SetScrollRegion(old(View()), top, bottom) && Steps()
      ensures Valid() <==> top < rowCount
    {
      RegionExact(View(), top, bottom);
      scrollTop := Min(top, rowCount);
      scrollBottom := Max(Min(bottom, rowCount), top + 1);
    }

    method SetAutoWrap(on: bool)
      requires Valid()
      modifies this`autoWrap
      ensures Valid() && View() == old(View()).(autoWrap := on)
    {
      autoWrap := on;
    }

    method ResetScrollRegion()
      requires Valid()
      modifies this
      ensures Valid() && View() == Screens.ResetScrollRegion(old(View())) && Steps()
    {
      scrollTop := 0;
      scrollBottom := rowCount;
    }

    method SetSgr(params: Sgr.Groups)
      requires Valid()
      modifies this
      ensures Valid() && View() == Screens.SetSgr(old(View()), params) && Steps()
    {
      if params == [] {
        pen := PLAIN;
      } else {
        pen := Sgr.ReadGroups(params, pen);
      }
    }

    /** Append blank rows up to `count`. */
    method GrowRows(count: nat, cols: nat)
      requires |rows| <= count
      modifies this`rows
      ensures rows == old(rows) + BlankRows(count - |old(rows)|, cols)
    {
      for k := |rows| to count
        invariant rows == old(rows) + BlankRows(k - |old(rows)|, cols)
      {
        rows := rows + [BlankRow(cols)];
      }
    }

    /** Pop the bottom rows down to `count` into the history, bottom row first. */
    method PopRows(count: nat)
      requires count <= |rows|
      requires Queued()
      modifies this`rows, this`pendingScrollback, scrollback
      ensures rows == old(rows)[..count]
      ensures Queued()
      ensures scrollback.history == Append(old(scrollback.history), Reversed(old(rows)), 0, |old(rows)| - count)
    {
      ghost var all, before := rows, scrollback.history;
      for k := |rows| downto count
        invariant rows == all[..k]
        invariant Queued()
        invariant scrollback.history == Append(before, Reversed(all), 0, |all| - k)
      {
        PoppedOne(before, all, k);
        PopRow();
      }
    }

    method PopRow()
      requires rows != [] && Queued()
      modifies this`rows, this`pendingScrollback, scrollback
      ensures rows == old(rows)[..|old(rows)| - 1]
      ensures Queued() && scrollback.history == old(scrollback.history) + [old(rows)[|old(rows)| - 1]]
    {
      var row := rows[|rows| - 1];
      rows := rows[..|rows| - 1];
      PushHistory(row);
    }

    /** Bring every row to `cols` cells. */
    method FitAllRows(cols: nat)
      modifies this`rows
      ensures rows == FitRows(old(rows), cols)
      ensures forall r :: 0 <= r < |rows| ==> |rows[r]| == cols
    {
      for r := 0 to |rows|
        invariant |rows| == |old(rows)|
        invariant forall k :: 0 <= k < |rows| ==>
          rows[k] == if k < r then FitRow(old(rows)[k], cols) else old(rows)[k]
      {
        rows := rows[r := FitRow(rows[r], cols)];
      }
    }

    /** Bring the row count to `count`. */
    method AdjustRows(count: nat, cols: nat)
      requires Queued()
      modifies this`rows, this`pendingScrollback, scrollback
      ensures rows == if count > |old(rows)| then old(rows) + BlankRows(count - |old(rows)|, cols)
                      else old(rows)[..count]
      ensures Queued()
      ensures scrollback.history
        == Append(old(scrollback.history), Reversed(old(rows)), 0, SatSub(|old(rows)|, count))
    {
      if count > |rows| {
        GrowRows(count, cols);
      } else if count < |rows| {
        PopRows(count);
      }
    }

    /** `resize` but for the dirty flags. */
    method ResizeView(rows: nat, cols: nat)
      requires Valid()
      modifies this, scrollback
      ensures View() == Screens.Resize(old(View()), rows, cols) && rowCount == rows
      ensures Queued()
      ensures unchanged(this`dirty) && unchanged(this`savedCursor) && unchanged(this`cursorVisible)
      ensures unchanged(this`drained)
    {
      ghost var before := View();
      AdjustRows(rows, cols);
      FitAllRows(cols);
      ResizeFrame(rows, cols);
      ghost var after := Screens.Resize(before, rows, cols);
      assert this.rows == after.rows;
      assert scrollback.history == after.history;
      assert View() == after;
    }

    method Resize(rows: nat, cols: nat)
      requires Valid()
      modifies this, scrollback
      ensures Valid() && View() == Screens.Resize(old(View()), rows, cols) && Steps()
      ensures forall r :: 0 <= r < |dirty| ==> dirty[r]
    {
      ResizeOk(View(), rows, cols);
      ResizeView(rows, cols);
      dirty := if rows <= |dirty| then dirty[..rows] else dirty + seq(rows - |dirty|, _ => true);
      MarkAllDirty();
    }

    /** The scalar half of `resize`: sizes, region and cursor. */
    method ResizeFrame(rows: nat, cols: nat)
      modifies this`rowCount, this`cols, this`scrollTop, this`scrollBottom, this`cursorRow, this`cursorCol,
        this`wrapPending
      ensures rowCount == rows && this.cols == cols && scrollTop == 0 && scrollBottom == rows && !wrapPending
      ensures cursorRow == Min(old(cursorRow), SatSub(rows, 1)) && cursorCol == Min(old(cursorCol), SatSub(cols, 1))
    {
      rowCount, this.cols := rows, cols;
      scrollTop, scrollBottom := 0, rows;
      cursorRow := Min(cursorRow, SatSub(rows, 1));
      cursorCol := Min(cursorCol, SatSub(cols, 1));
      wrapPending := false;
    }

    // ---- Runs ----

    /** Any operation but the two that break the grid keeps the invariant, does what its value
        counterpart says, and marks every row it changes. */
    method Apply(op: Op)
      requires Valid() && AllowedOn(rowCount, op)
      modifies this, scrollback
      ensures Valid() && Tracked(old(rows), old(dirty), rows, dirty)
      ensures View() == After(old(View()), old(savedCursor), op)
      ensures savedCursor == SavedAfter(old(View()), old(savedCursor), op)
      ensures drained == if op.OpDrain? then |scrollback.history| else old(drained)
    {
      if IsCursorOp(op) {
        ApplyCursorOp(op);
      } else if IsRowOp(op) {
        ApplyRowOp(op);
      } else {
        ApplyScreenOp(op);
      }
    }

    static predicate IsRowOp(op: Op) {
      op.OpInsertChars? || op.OpDeleteChars? || op.OpEraseChars? || op.OpEraseToEndOfLine? || op.OpEraseToCursor?
      || op.OpEraseLine?
    }

    method ApplyCursorOp(op: Op)
      requires Valid() && AllowedOn(rowCount, op) && IsCursorOp(op)
      modifies this, scrollback
      ensures Valid() && Tracked(old(rows), old(dirty), rows, dirty)
      ensures View() == After(old(View()), old(savedCursor), op)
      ensures savedCursor == SavedAfter(old(View()), old(savedCursor), op)
      ensures drained == if op.OpDrain? then |scrollback.history| else old(drained)
    {
      match op
      case OpMove(row, col) => MoveCursor(row, col);
      case OpMoveRel(drow, dcol) => MoveCursorRel(drow, dcol);
      case OpCarriageReturn => CarriageReturn();
      case OpBackspace => Backspace();
      case OpTab => Tab();
      case OpSgr(params) => SetSgr(params);
      case OpSave => SaveCursor();
      case OpRestore => RestoreCursor();
      case OpSetRegion(top, bottom) => SetScrollRegion(top, bottom);
      case OpResetRegion => ResetScrollRegion();
      case OpAutoWrap(on) => SetAutoWrap(on);
    }

    method ApplyRowOp(op: Op)
      requires Valid() && AllowedOn(rowCount, op) && IsRowOp(op)
      modifies this, scrollback
      ensures Valid() && Tracked(old(rows), old(dirty), rows, dirty)
      ensures View() == After(old(View()), old(savedCursor), op)
      ensures savedCursor == SavedAfter(old(View()), old(savedCursor), op)
      ensures drained == if op.OpDrain? then |scrollback.history| else old(drained)
    {
      match op
      case OpInsertChars(n) => InsertChars(n);
      case OpDeleteChars(n) => DeleteChars(n);
      case OpEraseChars(n) => EraseChars(n);
      case OpEraseToEndOfLine => EraseToEndOfLine();
      case OpEraseToCursor => EraseToCursor();
      case OpEraseLine => EraseLine();
    }

    method ApplyScreenOp(op: Op)
      requires Valid() && AllowedOn(rowCount, op) && !IsCursorOp(op) && !IsRowOp(op)
      modifies this, scrollback
      ensures Valid() && Tracked(old(rows), old(dirty), rows, dirty)
      ensures View() == After(old(View()), old(savedCursor), op)
      ensures savedCursor == SavedAfter(old(View()), old(savedCursor), op)
      ensures drained == if op.OpDrain? then |scrollback.history| else old(drained)
    {
      match op
      case OpPrint(c) => Print(c);
      case OpLineFeed => LineFeedExact(View()); var _ := LineFeed();
      case OpScrollUp(n) => ScrollUp(n);
      case OpScrollDown(n) => ScrollDown(n);
      case OpInsertLines(n) => InsertLines(n);
      case OpDeleteLines(n) => DeleteLines(n);
      case OpResize(r, c) => Resize(r, c);
      case OpEraseToEndOfScreen => EraseToEndOfScreen();
      case OpEraseToStartOfScreen => EraseToStartOfScreen();
      case OpEraseScreen => EraseScreen();
      case OpDrain => var batch := TakePendingScrollback();
    }

    /** Carry out operations up to the first that would break the grid, collecting what the
        drains hand out: nothing pushed is lost, handed out twice or reordered, and the ring
        shows exactly the last rows pushed. */
    method Run(ops: seq<Op>) returns (handed: seq<Row>, done: nat)
      requires Valid()
      modifies this, scrollback
      ensures Valid() && Tracked(old(rows), old(dirty), rows, dirty)
      ensures done <= |ops| && (done < |ops| ==> !AllowedOn(rowCount, ops[done]))
      ensures RunsTo(Terminal(old(View()), old(savedCursor)), ops[..done], Terminal(View(), savedCursor))
      ensures old(scrollback.history) <= scrollback.history
      ensures handed + pendingScrollback == scrollback.history[old(drained)..]
      ensures scrollback.Iter() == LastN(scrollback.history, scrollback.capacity)
    {
      handed, done := [], 0;
      ghost var start := drained;
      while done < |ops| && AllowedOn(rowCount, ops[done])
        invariant done <= |ops|
        invariant Valid() && Tracked(old(rows), old(dirty), rows, dirty)
        invariant RunsTo(Terminal(old(View()), old(savedCursor)), ops[..done], Terminal(View(), savedCursor))
        invariant old(scrollback.history) <= scrollback.history
        invariant start <= drained && handed == scrollback.history[start..drained]
      {
        assert ops[..done + 1] == ops[..done] + [ops[done]];
        RunsToOneMore(Terminal(old(View()), old(savedCursor)), ops[..done], Terminal(View(), savedCursor), ops[done]);
        ghost var before, from := scrollback.history, drained;
        var batch := RunStep(ops[done], old(rows), old(dirty));
        HandedOn(before, scrollback.history, start, from, drained);
        handed, done := handed + batch, done + 1;
      }
      HandedGrows(scrollback.history, scrollback.history, start, drained);
    }

    method RunStep(op: Op, ghost rows0: seq<Row>, ghost dirty0: seq<bool>) returns (batch: seq<Row>)
      requires Valid() && AllowedOn(rowCount, op) && Tracked(rows0, dirty0, rows, dirty)
      modifies this, scrollback
      ensures Valid() && Tracked(rows0, dirty0, rows, dirty)
      ensures View() == After(old(View()), old(savedCursor), op)
      ensures savedCursor == SavedAfter(old(View()), old(savedCursor), op)
      ensures old(scrollback.history) <= scrollback.history
      ensures old(drained) <= drained && batch == scrollback.history[old(drained)..drained]
    {
      AfterKeepsHistory(View(), savedCursor, op);
      batch := if op.OpDrain? then pendingScrollback else [];
      ghost var rows1, dirty1 := rows, dirty;
      Apply(op);
      TrackedTransitive(rows0, dirty0, rows1, dirty1, rows, dirty);
    }
  }
}
