/** Terminal cells: colours, attributes and characters (src/grid/cell.rs). */
module Cells {
  import opened Ints

  datatype Color = Default | Indexed(n: u8) | Rgb(r: u8, g: u8, b: u8)

  datatype Attr = Attr(bold: bool, italic: bool, underline: bool, reverse: bool)

  /** The triple the source compares when it decides whether to emit SGR. */
  datatype Style = Style(fg: Color, bg: Color, attrs: Attr)

  datatype Cell = Cell(ch: char, style: Style)

  type Row = seq<Cell>

  const NUL: char := 0 as char

  const PLAIN := Style(Default, Default, Attr(false, false, false, false))

  /** `Cell::blank()`: the derived default, whose character is NUL. */
  const BLANK := Cell(NUL, PLAIN)

  /** The character a cell shows: a NUL is drawn as a space. */
  function Glyph(c: Cell): char {
    if c.ch == NUL then ' ' else c.ch
  }

  /** What a cell looks like on screen. */
  function Shown(c: Cell): Cell {
    Cell(Glyph(c), c.style)
  }

  function BlankRow(cols: nat): (r: Row)
    ensures |r| == cols
    ensures forall i :: 0 <= i < cols ==> r[i] == BLANK
  {
    seq(cols, _ => BLANK)
  }

  function BlankRows(n: nat, cols: nat): (r: seq<Row>)
    ensures |r| == n
    ensures forall i :: 0 <= i < n ==> r[i] == BlankRow(cols)
  {
    seq(n, _ => BlankRow(cols))
  }
}
