/**
 * The terminal screen as a value: what each operation of `Grid` (src/grid/mod.rs) does
 * to the visible rows, the cursor, the scroll region, the pen and the scroll history.
 * Class `Grid` is proved against these functions, and the client's output is run on them.
 */
module Screens {
  import opened Ints
  import opened Cells
  import opened Slices
  import Sgr

  datatype Screen = Screen(
    rows: seq<Row>,
    cols: nat,
    curRow: nat,
    curCol: nat,
    top: nat,       // scroll region, inclusive
    bottom: nat,    // scroll region, exclusive
    wrap: bool,     // the next print wraps first
    autoWrap: bool,
    pen: Style,
    history: seq<Row>  // every row ever pushed off the screen, oldest first
  )

  /** The invariant of the source's `Grid`. */
  ghost predicate Ok(s: Screen) {
    && (forall r :: 0 <= r < |s.rows| ==> |s.rows[r]| == s.cols)
    && s.curRow < Max(1, |s.rows|)
    && s.curCol < Max(1, s.cols)
    && s.top <= s.bottom <= |s.rows|
    && (|s.rows| > 0 ==> s.top < s.bottom)
  }

  function Fresh(rows: nat, cols: nat): (s: Screen)
    ensures Ok(s)
  {
    var r := Max(rows, 1);
    var c := Max(cols, 1);
    Screen(BlankRows(r, c), c, 0, 0, 0, r, false, true, PLAIN, [])
  }

  // ---- Operations ----

  /** Replace row `r` if there is one. */
  function SetRow(s: Screen, r: nat, row: Row): Screen {
    if r < |s.rows| then s.(rows := s.rows[r := row]) else s
  }

  function ScrollUp(s: Screen, n: nat): Screen
    requires s.top <= s.bottom <= |s.rows|
  {
    var m := Min(n, s.bottom - s.top);
    s.(rows := ShiftLeft(s.rows, s.top, s.bottom, m, BlankRow(s.cols)),
       history := Append(s.history, s.rows, s.top, s.top + m))
  }

  /** Rows pushed past the region's bottom are lost. */
  function ScrollDown(s: Screen, n: nat): Screen
    requires s.top <= s.bottom <= |s.rows|
  {
    s.(rows := ShiftRight(s.rows, s.top, s.bottom, Min(n, s.bottom - s.top), BlankRow(s.cols)))
  }

  function InsertLines(s: Screen, n: nat): Screen
    requires s.bottom <= |s.rows|
  {
    if s.top <= s.curRow < s.bottom then
      s.(rows := ShiftRight(s.rows, s.curRow, s.bottom, Min(n, s.bottom - s.curRow), BlankRow(s.cols)))
    else s
  }

  function DeleteLines(s: Screen, n: nat): Screen
    requires s.bottom <= |s.rows|
  {
    if s.top <= s.curRow < s.bottom then
      s.(rows := ShiftLeft(s.rows, s.curRow, s.bottom, Min(n, s.bottom - s.curRow), BlankRow(s.cols)))
    else s
  }

  /** Go to the next row, scrolling when that leaves the region. */
  function NextRow(s: Screen): Screen
    requires s.top <= s.bottom <= |s.rows|
  {
    if s.curRow + 1 >= s.bottom then
      ScrollUp(s, 1).(curRow := SatSub(s.bottom, 1), wrap := false)
    else
      s.(curRow := s.curRow + 1, wrap := false)
  }

  /** Write a cell in the cursor's row. */
  function WithCell(s: Screen, col: nat, cell: Cell): Screen {
    if s.curRow < |s.rows| && col < |s.rows[s.curRow]| then
      s.(rows := s.rows[s.curRow := s.rows[s.curRow][col := cell]])
    else s
  }

  /** Move on from column `col`, or wait there for a wrap. */
  function PastCol(s: Screen, col: nat): Screen {
    if col + 1 >= s.cols then s.(curCol := SatSub(s.cols, 1), wrap := s.autoWrap) else s.(curCol := col + 1)
  }

  /** Write at the cursor and advance, without the wrap that may come first. */
  function PutHere(s: Screen, c: char): Screen {
    var col := if s.curCol >= s.cols then SatSub(s.cols, 1) else s.curCol;
    PastCol(WithCell(s, col, Cell(c, s.pen)), col)
  }

  function Print(s: Screen, c: char): Screen
    requires s.top <= s.bottom <= |s.rows|
  {
    PutHere(if s.wrap then NextRow(s).(curCol := 0) else s, c)
  }

  function MoveCursor(s: Screen, row: nat, col: nat): Screen {
    s.(curRow := Min(row, SatSub(|s.rows|, 1)), curCol := Min(col, SatSub(s.cols, 1)), wrap := false)
  }

  function MoveCursorRel(s: Screen, drow: int, dcol: int): Screen {
    MoveCursor(s, Max(s.curRow + drow, 0), Max(s.curCol + dcol, 0))
  }

  function CarriageReturn(s: Screen): Screen {
    s.(curCol := 0, wrap := false)
  }

  function Backspace(s: Screen): Screen {
    s.(curCol := SatSub(s.curCol, 1), wrap := false)
  }

  function Tab(s: Screen): Screen {
    s.(curCol := Min((s.curCol / 8 + 1) * 8, SatSub(s.cols, 1)), wrap := false)
  }

  /** The cursor's row, when there is a cell under the cursor. */
  predicate OnCell(s: Screen) {
    s.curRow < |s.rows| && s.curCol < |s.rows[s.curRow]|
  }

  function InsertChars(s: Screen, n: nat): Screen {
    if !OnCell(s) then s
    else
      var row := s.rows[s.curRow];
      var m := Min(n, |row| - s.curCol);
      if m == 0 then s
      else SetRow(s, s.curRow, ShiftRight(row, s.curCol, |row|, m, BLANK)).(wrap := false)
  }

  function DeleteChars(s: Screen, n: nat): Screen {
    if !OnCell(s) then s
    else
      var row := s.rows[s.curRow];
      var m := Min(n, |row| - s.curCol);
      if m == 0 then s
      else SetRow(s, s.curRow, ShiftLeft(row, s.curCol, |row|, m, BLANK)).(wrap := false)
  }

  function EraseChars(s: Screen, n: nat): Screen {
    if !OnCell(s) then s
    else
      var row := s.rows[s.curRow];
      SetRow(s, s.curRow, Fill(row, s.curCol, Min(s.curCol + n, |row|), BLANK)).(wrap := false)
  }

  /** Blank cells `[from, to)` of the cursor's row, leaving the wrap flag alone. */
  function EraseSpan(s: Screen, from: nat, to: nat): Screen
    requires s.curRow < |s.rows| ==> from <= to <= |s.rows[s.curRow]|
  {
    if s.curRow < |s.rows| then SetRow(s, s.curRow, Fill(s.rows[s.curRow], from, to, BLANK)) else s
  }

  function EraseToEndOfLine(s: Screen): Screen {
    if s.curRow < |s.rows| then
      EraseSpan(s, Min(s.curCol, |s.rows[s.curRow]|), |s.rows[s.curRow]|)
    else s
  }

  function EraseToCursor(s: Screen): Screen {
    if s.curRow < |s.rows| && s.rows[s.curRow] != [] then
      EraseSpan(s, 0, Min(s.curCol, |s.rows[s.curRow]| - 1) + 1)
    else s
  }

  function EraseLine(s: Screen): Screen {
    if s.curRow < |s.rows| then EraseSpan(s, 0, |s.rows[s.curRow]|) else s
  }

  /** Blank every row `[from, to)`, keeping row widths. */
  function EraseRows(rows: seq<Row>, from: nat, to: nat): (r: seq<Row>)
    requires from <= to <= |rows|
    ensures |r| == |rows|
    ensures forall i :: 0 <= i < |rows| ==>
      r[i] == if from <= i < to then BlankRow(|rows[i]|) else rows[i]
  {
    seq(|rows|, i requires 0 <= i < |rows| => if from <= i < to then BlankRow(|rows[i]|) else rows[i])
  }

  function EraseToEndOfScreen(s: Screen): Screen {
    var s1 := EraseToEndOfLine(s);
    s1.(rows := EraseRows(s1.rows, Min(s.curRow + 1, |s1.rows|), |s1.rows|))
  }

  function EraseToStartOfScreen(s: Screen): Screen {
    var s1 := EraseToCursor(s);
    s1.(rows := EraseRows(s1.rows, 0, Min(s.curRow, |s1.rows|)))
  }

  function EraseScreen(s: Screen): Screen {
    s.(rows := EraseRows(s.rows, 0, |s.rows|))
  }

  function SetScrollRegion(s: Screen, top: nat, bottom: nat): Screen {
    s.(top := Min(top, |s.rows|), bottom := Max(Min(bottom, |s.rows|), top + 1))
  }

  function ResetScrollRegion(s: Screen): Screen {
    s.(top := 0, bottom := |s.rows|)
  }

  /** A row cut or padded with blanks to `cols` cells. */
  function FitRow(row: Row, cols: nat): (r: Row)
    ensures |r| == cols
    ensures forall c :: 0 <= c < cols ==> r[c] == if c < |row| then row[c] else BLANK
  {
    if |row| < cols then row + BlankRow(cols - |row|) else row[..cols]
  }

  function FitRows(rows: seq<Row>, cols: nat): (r: seq<Row>)
    ensures |r| == |rows|
    ensures forall i :: 0 <= i < |rows| ==> r[i] == FitRow(rows[i], cols)
  {
    seq(|rows|, i requires 0 <= i < |rows| => FitRow(rows[i], cols))
  }

  /** Rows added or cut at the bottom, every row fitted to `cols`. */
  function Fitted(was: seq<Row>, rows: nat, cols: nat): (r: seq<Row>)
    ensures |r| == rows && forall i :: 0 <= i < rows ==> |r[i]| == cols
    ensures forall i, c :: 0 <= i < rows && 0 <= c < cols ==>
      r[i][c] == if i < |was| && c < |was[i]| then was[i][c] else BLANK
  {
    FitRows(if rows > |was| then was + BlankRows(rows - |was|, cols) else was[..rows], cols)
  }

  /** Rows dropped by a shrink go to the history bottom row first. */
  function Resize(s: Screen, rows: nat, cols: nat): Screen {
    Screen(
      Fitted(s.rows, rows, cols), cols, Min(s.curRow, SatSub(rows, 1)), Min(s.curCol, SatSub(cols, 1)),
      0, rows, false, s.autoWrap, s.pen,
      Append(s.history, Reversed(s.rows), 0, SatSub(|s.rows|, rows)))
  }

  function SetSgr(s: Screen, params: Sgr.Groups): Screen {
    s.(pen := Sgr.Apply(params, s.pen))
  }

  // ---- Text flow: printing loses and reorders nothing ----

  /** The lines of the document: rows scrolled off, then the visible rows. */
  function Lines(s: Screen): seq<Row> {
    s.history + s.rows
  }

  function PrintAll(s: Screen, text: seq<char>): (r: Screen)
    requires Ok(s)
    ensures Ok(r)
  {
    if text == [] then s
    else
      var s1 := PrintAll(s, text[..|text| - 1]);
      PrintOk(s1, text[|text| - 1]);
      Print(s1, text[|text| - 1])
  }

  lemma ResizeOk(s: Screen, rows: nat, cols: nat)
    ensures Ok(Resize(s, rows, cols))
  {
  }

  lemma NextRowOk(s: Screen)
    requires Ok(s)
    ensures Ok(NextRow(s)) && |NextRow(s).rows| == |s.rows|
  {
  }

  lemma PutHereOk(s: Screen, c: char)
    requires Ok(s)
    ensures Ok(PutHere(s, c))
  {
  }

  lemma PrintOk(s: Screen, c: char)
    requires Ok(s)
    ensures Ok(Print(s, c))
  {
    if s.wrap { NextRowOk(s); }
    PutHereOk(if s.wrap then NextRow(s).(curCol := 0) else s, c);
  }

  /** Character `k` of the text in pen `pen`, or a blank past its end. */
  function FlowCell(text: seq<char>, pen: Style, k: nat): Cell {
    if k < |text| then Cell(text[k], pen) else BLANK
  }

  /** Position of cell (i, j) in the text flow. */
  function At(i: nat, j: nat, cols: nat): nat {
    i * cols + j
  }

  /** Every cell of the document shows its character of the text. */
  ghost predicate FlowLines(lines: seq<Row>, cols: nat, pen: Style, text: seq<char>) {
    forall i, j :: 0 <= i < |lines| && 0 <= j < cols ==>
      |lines[i]| == cols && lines[i][j] == FlowCell(text, pen, At(i, j, cols))
  }

  /** Where `n` printed characters leave the cursor. */
  ghost predicate FlowCursor(s: Screen, n: nat, cols: nat)
    requires cols > 0
  {
    && (s.history != [] ==> s.curRow == |s.rows| - 1)
    && s.wrap == (n > 0 && n % cols == 0)
    && (if s.wrap then s.curCol == cols - 1 && |s.history| + s.curRow == n / cols - 1
        else s.curCol == n % cols && |s.history| + s.curRow == n / cols)
  }

  ghost predicate FullRegion(s: Screen, rows: nat, cols: nat, pen: Style) {
    && Ok(s) && |s.rows| == rows && s.cols == cols
    && s.top == 0 && s.bottom == rows && s.autoWrap && s.pen == pen
    && (forall i :: 0 <= i < |s.history| ==> |s.history[i]| == cols)
  }

  ghost predicate Flows(s: Screen, rows: nat, cols: nat, pen: Style, text: seq<char>)
    requires cols > 0
  {
    FullRegion(s, rows, cols, pen) && FlowLines(Lines(s), cols, pen, text) && FlowCursor(s, |text|, cols)
  }

  lemma AtInverse(n: nat, cols: nat, i: nat, j: nat)
    requires cols > 0 && j < cols
    ensures At(i, j, cols) == n <==> i == n / cols && j == n % cols
    ensures i >= n / cols && n % cols == 0 ==> At(i, j, cols) >= n
  {
    if At(i, j, cols) == n {
      assert n / cols == i && n % cols == j by { DivModUnique(n, cols, i, j); }
    }
    if i >= n / cols && n % cols == 0 {
      assert i * cols >= (n / cols) * cols;
    }
  }

  /** When a wrap is due, moving to the next row appends at most one blank line to the
      document and puts the cursor where the next character belongs. */
  lemma FlowsNewLine(s: Screen, rows: nat, cols: nat, pen: Style, text: seq<char>)
    requires rows > 0 && cols > 0 && Flows(s, rows, cols, pen, text) && s.wrap
    ensures var s' := NextRow(s).(curCol := 0);
      && FullRegion(s', rows, cols, pen) && FlowLines(Lines(s'), cols, pen, text) && !s'.wrap
      && (s'.history != [] ==> s'.curRow == rows - 1)
      && s'.curCol == |text| % cols && |s'.history| + s'.curRow == |text| / cols
  {
    var s' := NextRow(s).(curCol := 0);
    NextRowOk(s);
    if s.curRow + 1 >= s.bottom {
      assert Lines(s') == Lines(s) + [BlankRow(cols)];
      forall j | 0 <= j < cols
        ensures FlowCell(text, pen, At(|Lines(s)|, j, cols)) == BLANK
      {
        AtInverse(|text|, cols, |Lines(s)|, j);
      }
    } else {
      assert Lines(s') == Lines(s);
    }
  }

  lemma FlowsPut(s: Screen, rows: nat, cols: nat, pen: Style, text: seq<char>, c: char)
    requires rows > 0 && cols > 0
    requires FullRegion(s, rows, cols, pen) && FlowLines(Lines(s), cols, pen, text)
    requires |s.history| + s.curRow == |text| / cols && s.curCol == |text| % cols
    ensures FullRegion(PutHere(s, c), rows, cols, pen)
    ensures FlowLines(Lines(PutHere(s, c)), cols, pen, text + [c])
  {
    PutHereOk(s, c);
    var before := Lines(s);
    var after := Lines(PutHere(s, c));
    var line := |text| / cols;
    assert after == before[line := before[line][s.curCol := Cell(c, pen)]];
    forall i, j | 0 <= i < |after| && 0 <= j < cols
      ensures |after[i]| == cols && after[i][j] == FlowCell(text + [c], pen, At(i, j, cols))
    {
      AtInverse(|text|, cols, i, j);
      assert before[i][j] == FlowCell(text, pen, At(i, j, cols));
    }
  }

  lemma FlowsStep(s: Screen, rows: nat, cols: nat, pen: Style, text: seq<char>, c: char)
    requires rows > 0 && cols > 0 && Flows(s, rows, cols, pen, text)
    ensures Flows(Print(s, c), rows, cols, pen, text + [c])
  {
    if s.wrap { FlowsNewLine(s, rows, cols, pen, text); }
    FlowsPut(if s.wrap then NextRow(s).(curCol := 0) else s, rows, cols, pen, text, c);
    NextPosition(|text|, cols);
  }

  lemma NextPosition(n: nat, cols: nat)
    requires cols > 0
    ensures n % cols + 1 >= cols ==> (n + 1) % cols == 0 && (n + 1) / cols == n / cols + 1
    ensures n % cols + 1 < cols ==> (n + 1) % cols == n % cols + 1 && (n + 1) / cols == n / cols
  {
    if n % cols + 1 >= cols {
      DivModUnique(n + 1, cols, n / cols + 1, 0);
    } else {
      DivModUnique(n + 1, cols, n / cols, n % cols + 1);
    }
  }

  lemma {:induction false} PrintAllFlows(rows: nat, cols: nat, text: seq<char>)
    requires rows > 0 && cols > 0
    ensures Flows(PrintAll(Fresh(rows, cols), text), rows, cols, PLAIN, text)
  {
    if text == [] {
      var s := Fresh(rows, cols);
      assert Lines(s) == s.rows;
    } else {
      var before := text[..|text| - 1];
      PrintAllFlows(rows, cols, before);
      FlowsStep(PrintAll(Fresh(rows, cols), before), rows, cols, PLAIN, before, text[|text| - 1]);
      assert before + [text[|text| - 1]] == text;
    }
  }

  predicate Holds(lines: seq<Row>, i: nat, j: nat, cell: Cell) {
    i < |lines| && j < |lines[i]| && lines[i][j] == cell
  }

  lemma CharacterInPlace(lines: seq<Row>, cols: nat, text: seq<char>, k: nat)
    requires cols > 0 && FlowLines(lines, cols, PLAIN, text) && k < |text| && k / cols < |lines|
    ensures Holds(lines, k / cols, k % cols, Cell(text[k], PLAIN))
  {
    AtInverse(k, cols, k / cols, k % cols);
    var i, j := k / cols, k % cols;
    assert lines[i][j] == FlowCell(text, PLAIN, At(i, j, cols));
  }

  /**
   * Character k of the text stands at line k / cols, column k % cols of the document, every
   * other cell is blank, and the history holds exactly the lines that do not fit.
   */
  ghost predicate ShowsText(s: Screen, rows: nat, cols: nat, text: seq<char>)
    requires cols > 0
  {
    && |s.rows| == rows
    && |s.history| == SatSub((|text| + cols - 1) / cols, rows)
    && (forall k :: 0 <= k < |text| ==> Holds(Lines(s), k / cols, k % cols, Cell(text[k], PLAIN)))
    && (forall i, j :: 0 <= i < |Lines(s)| && 0 <= j < cols && At(i, j, cols) >= |text| ==>
          Holds(Lines(s), i, j, BLANK))
  }

  /** Text flow: wrapping, scrolling and the history lose and reorder nothing. */
  lemma TextFlow(rows: nat, cols: nat, text: seq<char>)
    requires rows > 0 && cols > 0
    ensures ShowsText(PrintAll(Fresh(rows, cols), text), rows, cols, text)
  {
    PrintAllFlows(rows, cols, text);
    FlowsMeans(PrintAll(Fresh(rows, cols), text), rows, cols, text);
  }

  lemma FlowsMeans(s: Screen, rows: nat, cols: nat, text: seq<char>)
    requires rows > 0 && cols > 0 && Flows(s, rows, cols, PLAIN, text)
    ensures ShowsText(s, rows, cols, text)
  {
    FlowsCount(s, rows, cols, text);
    FlowsCells(s, rows, cols, text);
  }

  lemma FlowsCount(s: Screen, rows: nat, cols: nat, text: seq<char>)
    requires rows > 0 && cols > 0 && Flows(s, rows, cols, PLAIN, text)
    ensures |s.history| == SatSub((|text| + cols - 1) / cols, rows)
  {
    LinesUsed(|text|, cols);
  }

  lemma FlowsCells(s: Screen, rows: nat, cols: nat, text: seq<char>)
    requires rows > 0 && cols > 0 && Flows(s, rows, cols, PLAIN, text)
    ensures forall k :: 0 <= k < |text| ==> Holds(Lines(s), k / cols, k % cols, Cell(text[k], PLAIN))
    ensures forall i, j :: 0 <= i < |Lines(s)| && 0 <= j < cols && At(i, j, cols) >= |text| ==>
      Holds(Lines(s), i, j, BLANK)
  {
    forall k | 0 <= k < |text|
      ensures Holds(Lines(s), k / cols, k % cols, Cell(text[k], PLAIN))
    {
      FlowsReaches(s, rows, cols, text, k);
      CharacterInPlace(Lines(s), cols, text, k);
    }
  }

  lemma FlowsReaches(s: Screen, rows: nat, cols: nat, text: seq<char>, k: nat)
    requires rows > 0 && cols > 0 && Flows(s, rows, cols, PLAIN, text) && k < |text|
    ensures k / cols < |Lines(s)|
  {
    LineOrder(k, |text|, cols);
  }

  lemma LineOrder(k: nat, n: nat, cols: nat)
    requires cols > 0 && k < n
    ensures k / cols <= n / cols
    ensures n % cols == 0 ==> k / cols < n / cols
  {
    var a, b := k / cols, n / cols;
    assert k == a * cols + k % cols && n == b * cols + n % cols;
    if a > b {
      MulMonotone(b + 1, a, cols);
    } else if a == b {
      assert n % cols > 0;
    }
  }

  /** The number of lines `n` characters occupy. */
  lemma LinesUsed(n: nat, cols: nat)
    requires cols > 0
    ensures (n + cols - 1) / cols == if n % cols == 0 then n / cols else n / cols + 1
  {
    if n % cols == 0 {
      DivModUnique(n + cols - 1, cols, n / cols, cols - 1);
    } else {
      DivModUnique(n + cols - 1, cols, n / cols + 1, n % cols - 1);
    }
  }

  // ---- Inverses among the editing operations ----

  /** Deleting the characters just inserted gives the row back, but for the cells the
      insertion pushed off the right edge. */
  lemma InsertThenDeleteChars(s: Screen, n: nat)
    requires Ok(s) && OnCell(s)
    ensures var m := Min(n, s.cols - s.curCol);
      DeleteChars(InsertChars(s, n), n).rows
        == s.rows[s.curRow := Fill(s.rows[s.curRow], s.cols - m, s.cols, BLANK)]
  {
    var row := s.rows[s.curRow];
    var m := Min(n, s.cols - s.curCol);
    assert ShiftLeft(ShiftRight(row, s.curCol, s.cols, m, BLANK), s.curCol, s.cols, m, BLANK)
        == Fill(row, s.cols - m, s.cols, BLANK);
    if m == 0 { assert Fill(row, s.cols, s.cols, BLANK) == row; }
  }

  /** Deleting the lines just inserted gives the rows back, but for those pushed off. */
  lemma InsertThenDeleteLines(s: Screen, n: nat)
    requires Ok(s) && s.top <= s.curRow < s.bottom
    ensures var m := Min(n, s.bottom - s.curRow);
      DeleteLines(InsertLines(s, n), n)
        == s.(rows := Fill(s.rows, s.bottom - m, s.bottom, BlankRow(s.cols)))
  {
    var m := Min(n, s.bottom - s.curRow);
    var blank := BlankRow(s.cols);
    assert ShiftLeft(ShiftRight(s.rows, s.curRow, s.bottom, m, blank), s.curRow, s.bottom, m, blank)
        == Fill(s.rows, s.bottom - m, s.bottom, blank);
  }
}
