/** The client's window view: panes and borders composed into one grid
    (src/client/composite.rs). */
module Composite {
  import opened Ints
  import opened Wrappers
  import opened Cells
  import opened Screens
  import opened Grids
  import opened LayoutTree

  /** One pane's content and its place in the window. */
  datatype PaneView = PaneView(rect: Rect, rows: seq<Row>, cols: nat, curRow: nat, curCol: nat, visible: bool)

  type PaneMap = map<nat, PaneView>

  // ---- What one cell of the composite is ----

  /** Soft tint for inactive panes: only default backgrounds change. */
  function Tint(c: Cell, inactive: bool): Cell {
    if inactive && c.style.bg == Default then c.(style := c.style.(bg := Indexed(236))) else c
  }

  /** The pane's content covers window cell (y, x). */
  predicate OnPane(p: PaneView, y: nat, x: nat) {
    && p.rect.y <= y < p.rect.y + |p.rows| && p.rect.x <= x < p.rect.x + p.cols
    && x - p.rect.x < |p.rows[y - p.rect.y]|
  }

  function PaneCell(p: PaneView, inactive: bool, y: nat, x: nat): Cell
    requires OnPane(p, y, x)
  {
    Tint(p.rows[y - p.rect.y][x - p.rect.x], inactive)
  }

  ghost predicate Occupied(panes: PaneMap, y: int, x: int) {
    exists id :: id in panes && Contains(panes[id].rect, x, y)
  }

  predicate Adjacent(x: nat, y: nat, r: Rect) {
    var x1, y1 := r.x + r.cols, r.y + r.rows;
    || (r.x <= x < x1 && (y + 1 == r.y || y == y1))
    || (r.y <= y < y1 && (x + 1 == r.x || x == x1))
  }

  /** The glyph pointing at the active pane from a cell on one of its edges. */
  function Towards(x: nat, y: nat, r: Rect): Option<char> {
    var x1, y1 := r.x + r.cols, r.y + r.rows;
    if r.x <= x < x1 && y + 1 == r.y then Some('v')
    else if r.x <= x < x1 && y == y1 then Some('^')
    else if r.y <= y < y1 && x + 1 == r.x then Some('>')
    else if r.y <= y < y1 && x == x1 then Some('<')
    else None
  }

  /** What lies on one side of a border cell. */
  datatype Side = Outside | Pane | Gap

  /** `border_glyph`, from what lies left, right, above and below. */
  function Glyph4(l: Side, r: Side, u: Side, d: Side, arrow: Option<char>): char {
    var cross := (l == Pane || r == Pane) && (u == Pane || d == Pane);
    if !cross && arrow.Some? then arrow.value
    else
      match (l != Outside, r != Outside, u != Outside, d != Outside)
      case (true, true, true, true) => '┼'
      case (true, true, true, false) => '┴'
      case (true, true, false, true) => '┬'
      case (true, false, true, true) => '┤'
      case (false, true, true, true) => '├'
      case (true, true, _, _) => '─'
      case (_, _, true, true) => '│'
      case (true, false, true, false) => '┘'
      case (true, false, false, true) => '┐'
      case (false, true, true, false) => '└'
      case (false, true, false, true) => '┌'
      case _ => if l == Pane || r == Pane then '│' else '─'
  }

  ghost function SideAt(panes: PaneMap, rows: nat, cols: nat, y: int, x: int): Side {
    if !(0 <= y < rows && 0 <= x < cols) then Outside
    else if Occupied(panes, y, x) then Pane else Gap
  }

  function BorderCell(glyph: char, near: bool): Cell {
    Cell(glyph, PLAIN.(fg := Indexed(if near then 6 else 8), attrs := PLAIN.attrs.(bold := near)))
  }

  /** The border cell at (y, x). */
  ghost function Border(panes: PaneMap, active: nat, rows: nat, cols: nat, y: nat, x: nat): Cell {
    var arrow := if active in panes then Towards(x, y, panes[active].rect) else None;
    var glyph := Glyph4(SideAt(panes, rows, cols, y, x - 1), SideAt(panes, rows, cols, y, x + 1),
                        SideAt(panes, rows, cols, y - 1, x), SideAt(panes, rows, cols, y + 1, x), arrow);
    BorderCell(glyph, active in panes && Adjacent(x, y, panes[active].rect))
  }

  // ---- The composite as a whole ----

  /** The inputs of a recompose. */
  datatype Scene = Scene(rows: nat, cols: nat, panes: PaneMap, active: nat, zoomed: bool)

  predicate Inactive(s: Scene, id: nat) {
    !s.zoomed && id != s.active && |s.panes| > 1
  }

  /** The panes that are drawn. */
  predicate Drawn(s: Scene, id: nat) {
    id in s.panes && (s.zoomed ==> id == s.active)
  }

  /** The cell shown where no pane is drawn. */
  ghost function Background(s: Scene, y: nat, x: nat): Cell {
    if s.zoomed || |s.panes| <= 1 then BLANK else Border(s.panes, s.active, s.rows, s.cols, y, x)
  }

  ghost predicate Shape(cells: seq<Row>, rows: nat, cols: nat) {
    |cells| == rows && forall y :: 0 <= y < rows ==> |cells[y]| == cols
  }

  /** `cells` is the composite of the scene. */
  ghost predicate IsComposite(cells: seq<Row>, s: Scene) {
    && Shape(cells, s.rows, s.cols)
    && (forall id, y, x :: Drawn(s, id) && 0 <= y < s.rows && 0 <= x < s.cols && OnPane(s.panes[id], y, x) ==>
          cells[y][x] == PaneCell(s.panes[id], Inactive(s, id), y, x))
    && (forall y, x :: 0 <= y < s.rows && 0 <= x < s.cols && Bare(s, y, x) ==>
          cells[y][x] == Background(s, y, x))
  }

  /** No drawn pane covers (y, x). */
  ghost predicate Bare(s: Scene, y: nat, x: nat) {
    forall id :: Drawn(s, id) ==> !OnPane(s.panes[id], y, x)
  }

  ghost predicate Rectangular(panes: PaneMap) {
    forall id, r :: id in panes && 0 <= r < |panes[id].rows| ==> |panes[id].rows[r]| == panes[id].cols
  }

  /** Pane content is rectangular; unzoomed, it fills its nonempty rectangle, and rectangles
      are disjoint, as reflow makes them. */
  ghost predicate Tidy(s: Scene) {
    && Rectangular(s.panes)
    && (!s.zoomed ==>
          && (forall id :: id in s.panes ==>
                Nonempty(s.panes[id].rect) && |s.panes[id].rows| == s.panes[id].rect.rows
                && s.panes[id].cols == s.panes[id].rect.cols)
          && (forall a, b, y, x :: a in s.panes && b in s.panes && OnPane(s.panes[a], y, x) && OnPane(s.panes[b], y, x)
                ==> a == b))
  }

  /** There is one composite, so the order in which panes are drawn cannot matter. */
  lemma CompositeUnique(c1: seq<Row>, c2: seq<Row>, s: Scene)
    requires IsComposite(c1, s) && IsComposite(c2, s)
    ensures c1 == c2
  {
    forall y | 0 <= y < s.rows ensures c1[y] == c2[y] {
      forall x | 0 <= x < s.cols ensures c1[y][x] == c2[y][x] {
        if !Bare(s, y, x) {
          var id :| Drawn(s, id) && OnPane(s.panes[id], y, x);
          assert c1[y][x] == PaneCell(s.panes[id], Inactive(s, id), y, x);
        }
      }
    }
  }

  /** Panes placed by reflow, each with content of its rectangle's size, make a tidy scene. */
  lemma ReflowIsTidy(node: Node, cols: u16, rows: u16, s: Scene)
    requires Distinct(Ids(node)) && Roomy(node, Window(cols, rows)) && !s.zoomed
    requires forall id :: id in s.panes ==> Placed(id, s.panes[id].rect) in Reflow(node, cols, rows)
    requires forall id :: id in s.panes ==>
      && |s.panes[id].rows| == s.panes[id].rect.rows && s.panes[id].cols == s.panes[id].rect.cols
      && forall r :: 0 <= r < |s.panes[id].rows| ==> |s.panes[id].rows[r]| == s.panes[id].cols
    ensures Tidy(s)
  {
    var panes := Reflow(node, cols, rows);
    NonemptyIffRoomy(node, Window(cols, rows));
    forall a, b, y: nat, x: nat | a in s.panes && b in s.panes && OnPane(s.panes[a], y, x) && OnPane(s.panes[b], y, x)
      ensures a == b
    {
      var i :| 0 <= i < |panes| && panes[i] == Placed(a, s.panes[a].rect);
      var j :| 0 <= j < |panes| && panes[j] == Placed(b, s.panes[b].rect);
      PanesDisjoint(node, Window(cols, rows), i, j, x, y);
    }
  }

  /** A pane's cell as the window shows it: its own character, foreground and attributes, and its
      own background unless it is dimmed and that is the default. */
  predicate ShowsCell(cell: Cell, own: Cell, dimmed: bool) {
    && cell.ch == own.ch && cell.style.fg == own.style.fg && cell.style.attrs == own.style.attrs
    && cell.style.bg == if dimmed && own.style.bg == Default then Indexed(236) else own.style.bg
  }

  /** Pane `id` is dimmed: the window shows several panes and another one is active. */
  predicate Dimmed(s: Scene, id: nat) {
    !s.zoomed && |s.panes| >= 2 && s.active != id
  }

  /** In a composite the cell (r, c) of a pane in sight stands at its place in the window. */
  lemma CompositeShowsPane(cells: seq<Row>, s: Scene, id: nat, r: nat, c: nat)
    requires IsComposite(cells, s) && id in s.panes && (s.zoomed ==> id == s.active)
    requires var p := s.panes[id];
      r < |p.rows| && c < p.cols && c < |p.rows[r]| && p.rect.y + r < s.rows && p.rect.x + c < s.cols
    ensures var p := s.panes[id]; ShowsCell(cells[p.rect.y + r][p.rect.x + c], p.rows[r][c], Dimmed(s, id))
  {
    var p := s.panes[id];
    assert Drawn(s, id) && OnPane(p, p.rect.y + r, p.rect.x + c);
  }

  // ---- What a border cell shows ----

  /** The active pane stands at (y, x). */
  predicate OnActive(s: Scene, y: int, x: int) {
    s.active in s.panes && Contains(s.panes[s.active].rect, x, y)
  }

  /** The box-drawing characters that have an arm on a side. */
  predicate HasArm(ch: char, side: FocusDir) {
    match side
    case Left => ch in {'─', '┼', '┴', '┬', '┤', '┘', '┐'}
    case Right => ch in {'─', '┼', '┴', '┬', '├', '└', '┌'}
    case Up => ch in {'│', '┼', '┴', '┤', '├', '┘', '└'}
    case Down => ch in {'│', '┼', '┬', '┤', '├', '┐', '┌'}
  }

  /** The window goes on, on that side of (y, x). */
  predicate GoesOn(s: Scene, y: nat, x: nat, side: FocusDir) {
    match side
    case Left => x > 0
    case Right => x + 1 < s.cols
    case Up => y > 0
    case Down => y + 1 < s.rows
  }

  ghost predicate BesidePane(s: Scene, y: nat, x: nat) {
    (x > 0 && Occupied(s.panes, y, x - 1)) || (x + 1 < s.cols && Occupied(s.panes, y, x + 1))
  }

  /** A pane stands beside (y, x) on both axes. */
  ghost predicate AtCorner(s: Scene, y: nat, x: nat) {
    && BesidePane(s, y, x)
    && ((y > 0 && Occupied(s.panes, y - 1, x)) || (y + 1 < s.rows && Occupied(s.panes, y + 1, x)))
  }

  /** The active pane is beside (y, x). */
  predicate ByActive(s: Scene, y: nat, x: nat) {
    OnActive(s, y, x - 1) || OnActive(s, y, x + 1) || OnActive(s, y - 1, x) || OnActive(s, y + 1, x)
  }

  /** The arrow points into the active pane. */
  predicate PointsIn(s: Scene, y: nat, x: nat, ch: char) {
    || (ch == '<' && OnActive(s, y, x - 1)) || (ch == '>' && OnActive(s, y, x + 1))
    || (ch == '^' && OnActive(s, y - 1, x)) || (ch == 'v' && OnActive(s, y + 1, x))
  }

  /** Beside the active pane a border is bold cyan and, except at a corner, an arrow; elsewhere
      it is grey, with an arm towards every side on which the window goes on. An end cell of a
      single row is a stroke, upright beside a pane, and one of a single column a level one. */
  ghost predicate ShowsBorder(cell: Cell, s: Scene, y: nat, x: nat) {
    && cell.style == (if ByActive(s, y, x) then Style(Indexed(6), Default, Attr(true, false, false, false))
                      else Style(Indexed(8), Default, Attr(false, false, false, false)))
    && (if ByActive(s, y, x) && !AtCorner(s, y, x) then PointsIn(s, y, x, cell.ch)
        else if AtEnd(s, y, x) then cell.ch == if BesidePane(s, y, x) then '│' else '─'
        else forall side :: HasArm(cell.ch, side) == GoesOn(s, y, x, side))
  }

  /** The window goes on, on one side of (y, x) at most. */
  predicate AtEnd(s: Scene, y: nat, x: nat) {
    (s.rows == 1 && (x == 0 || x + 1 == s.cols)) || (s.cols == 1 && (y == 0 || y + 1 == s.rows))
  }

  lemma ArrowPointsIn(s: Scene, y: nat, x: nat)
    requires s.active in s.panes && Nonempty(s.panes[s.active].rect) && !OnActive(s, y, x)
    ensures var arrow := Towards(x, y, s.panes[s.active].rect);
      && arrow.Some? == ByActive(s, y, x) == Adjacent(x, y, s.panes[s.active].rect)
      && (arrow.Some? ==> PointsIn(s, y, x, arrow.value))
  {
  }

  /** The arms, when no arrow is drawn. */
  lemma ArmsReach(l: Side, r: Side, u: Side, d: Side, arrow: Option<char>)
    requires ((l != Outside || r != Outside) && (u != Outside || d != Outside)) || (l != Outside && r != Outside)
      || (u != Outside && d != Outside)
    requires arrow.None? || ((l == Pane || r == Pane) && (u == Pane || d == Pane))
    ensures var ch := Glyph4(l, r, u, d, arrow);
      && HasArm(ch, FocusDir.Left) == (l != Outside) && HasArm(ch, Right) == (r != Outside)
      && HasArm(ch, Up) == (u != Outside) && HasArm(ch, Down) == (d != Outside)
  {
  }

  lemma BorderShows(s: Scene, y: nat, x: nat)
    requires y < s.rows && x < s.cols && !OnActive(s, y, x)
    requires s.active in s.panes ==> Nonempty(s.panes[s.active].rect)
    ensures ShowsBorder(Border(s.panes, s.active, s.rows, s.cols, y, x), s, y, x)
  {
    if s.active in s.panes { ArrowPointsIn(s, y, x); }
    var arrow := if s.active in s.panes then Towards(x, y, s.panes[s.active].rect) else None;
    var l, r := SideAt(s.panes, s.rows, s.cols, y, x - 1), SideAt(s.panes, s.rows, s.cols, y, x + 1);
    var u, d := SideAt(s.panes, s.rows, s.cols, y - 1, x), SideAt(s.panes, s.rows, s.cols, y + 1, x);
    if !AtEnd(s, y, x) && (AtCorner(s, y, x) || arrow.None?) { ArmsReach(l, r, u, d, arrow); }
  }

  /** In a composite of several panes, a cell outside all of them shows the border. */
  lemma CompositeShowsBorder(cells: seq<Row>, s: Scene, y: nat, x: nat)
    requires IsComposite(cells, s) && Tidy(s) && !s.zoomed && |s.panes| >= 2
    requires y < s.rows && x < s.cols && !Occupied(s.panes, y, x)
    ensures ShowsBorder(cells[y][x], s, y, x)
  {
    UnoccupiedIsBare(s, y, x);
    BorderShows(s, y, x);
  }

  /** A zoomed or single pane has no border: outside it the window is blank. */
  lemma CompositeShowsNothing(cells: seq<Row>, s: Scene, y: nat, x: nat)
    requires IsComposite(cells, s) && (s.zoomed || |s.panes| <= 1) && y < s.rows && x < s.cols
    requires forall id :: id in s.panes && (s.zoomed ==> id == s.active) ==> !OnPane(s.panes[id], y, x)
    ensures cells[y][x] == BLANK
  {
    assert Bare(s, y, x);
  }

  // ---- Drawing loops ----

  /** Draw one pane row into one composite row. */
  method BlitRow(dst: Row, src: Row, x0: nat, width: nat, inactive: bool) returns (row: Row)
    ensures |row| == |dst|
    ensures forall x :: 0 <= x < |dst| ==>
      row[x] == if x0 <= x < x0 + width && x - x0 < |src| then Tint(src[x - x0], inactive) else dst[x]
  {
    row := dst;
    for c := 0 to width
      invariant |row| == |dst|
      invariant forall x :: 0 <= x < |dst| ==>
        row[x] == if x0 <= x < x0 + c && x - x0 < |src| then Tint(src[x - x0], inactive) else dst[x]
    {
      if x0 + c < |row| && c < |src| { row := row[x0 + c := Tint(src[c], inactive)]; }
    }
  }

  /** `blit_pane`: draw a pane's whole content. */
  method Blit(cells: seq<Row>, p: PaneView, inactive: bool) returns (after: seq<Row>)
    ensures |after| == |cells|
    ensures forall y :: 0 <= y < |cells| ==> |after[y]| == |cells[y]|
    ensures forall y, x :: 0 <= y < |cells| && 0 <= x < |cells[y]| ==>
      after[y][x] == if OnPane(p, y, x) then PaneCell(p, inactive, y, x) else cells[y][x]
  {
    after := cells;
    for r := 0 to |p.rows|
      invariant |after| == |cells|
      invariant forall y :: 0 <= y < |cells| ==> |after[y]| == |cells[y]|
      invariant forall y, x :: 0 <= y < |cells| && 0 <= x < |cells[y]| ==>
        after[y][x] == if OnPane(p, y, x) && y < p.rect.y + r then PaneCell(p, inactive, y, x) else cells[y][x]
    {
      var cy := p.rect.y + r;
      if cy >= |after| { break; }
      var row := BlitRow(after[cy], p.rows[r], p.rect.x, p.cols, inactive);
      after := after[cy := row];
    }
  }

  /** The occupancy table of the scene. */
  ghost predicate Table(occupied: array2<bool>, s: Scene)
    reads occupied
  {
    && occupied.Length0 == s.rows && occupied.Length1 == s.cols
    && forall y, x :: 0 <= y < s.rows && 0 <= x < s.cols ==> occupied[y, x] == Occupied(s.panes, y, x)
  }

  /** The occupancy table of `paint_borders`. */
  method Occupancy(s: Scene) returns (occupied: array2<bool>)
    ensures fresh(occupied) && Table(occupied, s)
  {
    var panes, rows, cols := s.panes, s.rows, s.cols;
    occupied := new bool[rows, cols]((_, _) => false);
    var todo := panes.Keys;
    while todo != {}
      invariant todo <= panes.Keys
      invariant forall y, x :: 0 <= y < rows && 0 <= x < cols ==>
        occupied[y, x] == exists id :: id in panes && id !in todo && Contains(panes[id].rect, x, y)
      decreases |todo|
    {
      var id :| id in todo;
      label before: MarkRect(occupied, panes[id].rect);
      forall y, x | 0 <= y < rows && 0 <= x < cols
        ensures occupied[y, x] == exists k :: k in panes && k !in todo - {id} && Contains(panes[k].rect, x, y)
      {
        if occupied[y, x] && !old@before(occupied[y, x]) { assert id !in todo - {id}; }
      }
      todo := todo - {id};
    }
  }

  method MarkRect(occupied: array2<bool>, r: Rect)
    modifies occupied
    ensures forall y, x :: 0 <= y < occupied.Length0 && 0 <= x < occupied.Length1 ==>
      occupied[y, x] == (old(occupied[y, x]) || Contains(r, x, y))
  {
    for i := 0 to r.rows
      invariant forall y, x :: 0 <= y < occupied.Length0 && 0 <= x < occupied.Length1 ==>
        occupied[y, x] == (old(occupied[y, x]) || (Contains(r, x, y) && y < r.y + i))
    {
      for j := 0 to r.cols
        invariant forall y, x :: 0 <= y < occupied.Length0 && 0 <= x < occupied.Length1 ==>
          occupied[y, x] == (old(occupied[y, x])
            || (Contains(r, x, y) && (y < r.y + i || (y == r.y + i && x < r.x + j))))
      {
        if r.y + i < occupied.Length0 && r.x + j < occupied.Length1 { occupied[r.y + i, r.x + j] := true; }
      }
    }
  }

  function SideIn(occupied: array2<bool>, y: int, x: int): Side
    reads occupied
  {
    if !(0 <= y < occupied.Length0 && 0 <= x < occupied.Length1) then Outside
    else if occupied[y, x] then Pane else Gap
  }

  /** `paint_borders`: draw every cell that belongs to no pane. */
  method PaintBorders(cells: seq<Row>, s: Scene) returns (after: seq<Row>)
    requires Shape(cells, s.rows, s.cols)
    ensures Shape(after, s.rows, s.cols)
    ensures forall y, x :: 0 <= y < s.rows && 0 <= x < s.cols ==>
      after[y][x] == if !s.zoomed && |s.panes| > 1 && !Occupied(s.panes, y, x)
                     then Border(s.panes, s.active, s.rows, s.cols, y, x) else cells[y][x]
  {
    after := cells;
    if s.zoomed || |s.panes| <= 1 { return; }
    var occupied := Occupancy(s);
    for y := 0 to s.rows
      invariant Shape(after, s.rows, s.cols) && Table(occupied, s)
      invariant forall y', x :: 0 <= y' < s.rows && 0 <= x < s.cols ==>
        after[y'][x] == if y' < y && !Occupied(s.panes, y', x)
                        then Border(s.panes, s.active, s.rows, s.cols, y', x) else cells[y'][x]
    {
      var row := PaintRow(after[y], occupied, s, y);
      after := after[y := row];
    }
  }

  /** The borders of one row. */
  method PaintRow(cells: Row, occupied: array2<bool>, s: Scene, y: nat) returns (row: Row)
    requires |cells| == s.cols && y < s.rows && Table(occupied, s)
    ensures |row| == s.cols
    ensures forall x :: 0 <= x < s.cols ==>
      row[x] == if !Occupied(s.panes, y, x) then Border(s.panes, s.active, s.rows, s.cols, y, x) else cells[x]
  {
    row := cells;
    for x := 0 to s.cols
      invariant |row| == s.cols
      invariant forall x' :: 0 <= x' < s.cols ==>
        row[x'] == if x' < x && !Occupied(s.panes, y, x')
                   then Border(s.panes, s.active, s.rows, s.cols, y, x') else cells[x']
    {
      if !occupied[y, x] {
        var cell := PaintCell(occupied, s, y, x);
        row := row[x := cell];
      }
    }
  }

  method PaintCell(occupied: array2<bool>, s: Scene, y: nat, x: nat) returns (cell: Cell)
    requires y < s.rows && x < s.cols && Table(occupied, s)
    ensures cell == Border(s.panes, s.active, s.rows, s.cols, y, x)
  {
    var arrow := if s.active in s.panes then Towards(x, y, s.panes[s.active].rect) else None;
    var near := s.active in s.panes && Adjacent(x, y, s.panes[s.active].rect);
    var glyph := Glyph4(SideIn(occupied, y, x - 1), SideIn(occupied, y, x + 1),
                        SideIn(occupied, y - 1, x), SideIn(occupied, y + 1, x), arrow);
    cell := BorderCell(glyph, near);
  }

  /** Draw every pane, in any order. */
  method BlitAll(cells: seq<Row>, s: Scene) returns (after: seq<Row>)
    requires Shape(cells, s.rows, s.cols) && !s.zoomed
    ensures Shape(after, s.rows, s.cols)
    ensures Tidy(s) ==> forall id, y, x ::
      id in s.panes && 0 <= y < s.rows && 0 <= x < s.cols && OnPane(s.panes[id], y, x) ==>
      after[y][x] == PaneCell(s.panes[id], Inactive(s, id), y, x)
    ensures forall y, x :: 0 <= y < s.rows && 0 <= x < s.cols && Bare(s, y, x) ==> after[y][x] == cells[y][x]
  {
    after := cells;
    var todo := s.panes.Keys;
    while todo != {}
      invariant todo <= s.panes.Keys && Shape(after, s.rows, s.cols)
      invariant Tidy(s) ==> forall id, y, x ::
        id in s.panes && id !in todo && 0 <= y < s.rows && 0 <= x < s.cols && OnPane(s.panes[id], y, x) ==>
          after[y][x] == PaneCell(s.panes[id], Inactive(s, id), y, x)
      invariant forall y, x :: 0 <= y < s.rows && 0 <= x < s.cols && Bare(s, y, x) ==> after[y][x] == cells[y][x]
      decreases |todo|
    {
      var id :| id in todo;
      after := Blit(after, s.panes[id], Inactive(s, id));
      todo := todo - {id};
    }
  }

  /** A full recompose on a cleared grid. */
  method Recompose(s: Scene) returns (cells: seq<Row>)
    ensures Shape(cells, s.rows, s.cols)
    ensures Tidy(s) ==> IsComposite(cells, s)
  {
    cells := BlankRows(s.rows, s.cols);
    if s.zoomed {
      if s.active in s.panes { cells := Blit(cells, s.panes[s.active], false); }
    } else {
      cells := BlitAll(cells, s);
      cells := PaintBorders(cells, s);
    }
  }

  // ---- Incremental updates ----

  /** New content for one row of a pane. */
  datatype Update = Update(row: nat, cells: Row)

  predicate Touches(updates: seq<Update>, row: int) {
    exists k :: 0 <= k < |updates| && updates[k].row == row
  }

  function PatchRow(row: Row, cells: Row): (r: Row)
    ensures |r| == |row|
    ensures forall c :: 0 <= c < |row| ==> r[c] == if c < |cells| then cells[c] else row[c]
  {
    seq(|row|, c requires 0 <= c < |row| => if c < |cells| then cells[c] else row[c])
  }

  /** The rows after the updates, in order; updates past the last row are ignored. */
  function Patch(rows: seq<Row>, updates: seq<Update>): (r: seq<Row>)
    ensures |r| == |rows|
    ensures forall i :: 0 <= i < |rows| ==> |r[i]| == |rows[i]|
    ensures forall i :: 0 <= i < |rows| && !Touches(updates, i) ==> r[i] == rows[i]
    decreases |updates|
  {
    if updates == [] then rows
    else
      var init, last := updates[..|updates| - 1], updates[|updates| - 1];
      var before := Patch(rows, init);
      if last.row < |rows| then before[last.row := PatchRow(before[last.row], last.cells)] else before
  }

  function Refresh(p: PaneView, updates: seq<Update>, row: nat, col: nat, visible: bool): PaneView {
    p.(rows := Patch(p.rows, updates), curRow := row, curCol := col, visible := visible)
  }

  method ApplyRow(row: Row, cells: Row) returns (after: Row)
    ensures after == PatchRow(row, cells)
  {
    after := row;
    for c := 0 to |cells|
      invariant |after| == |row|
      invariant forall k :: 0 <= k < |row| ==> after[k] == if k < c then cells[k] else row[k]
    {
      if c < |after| { after := after[c := cells[c]]; }
    }
  }

  method ApplyRows(rows: seq<Row>, updates: seq<Update>) returns (after: seq<Row>)
    ensures after == Patch(rows, updates)
  {
    after := rows;
    for k := 0 to |updates|
      invariant after == Patch(rows, updates[..k])
    {
      assert updates[..k + 1][..k] == updates[..k];
      if updates[k].row < |after| {
        var row := ApplyRow(after[updates[k].row], updates[k].cells);
        after := after[updates[k].row := row];
      }
    }
    assert updates[..|updates|] == updates;
  }

  /** Draw the updated rows of pane `p`, marking the composite rows they land on. */
  method DrawRows(cells: seq<Row>, dirty: seq<bool>, p: PaneView, updates: seq<Update>, inactive: bool)
      returns (after: seq<Row>, flags: seq<bool>)
    requires |dirty| == |cells|
    requires forall r :: 0 <= r < |p.rows| ==> |p.rows[r]| == p.cols
    ensures |after| == |cells| && forall y :: 0 <= y < |cells| ==> |after[y]| == |cells[y]|
    ensures forall y, x :: 0 <= y < |cells| && 0 <= x < |cells[y]| ==>
      after[y][x] == if OnPane(p, y, x) && Touches(updates, y - p.rect.y) then PaneCell(p, inactive, y, x)
                     else cells[y][x]
    ensures Tracked(cells, dirty, after, flags)
  {
    after, flags := cells, dirty;
    for k := 0 to |updates|
      invariant |after| == |cells| && forall y :: 0 <= y < |cells| ==> |after[y]| == |cells[y]|
      invariant forall y, x :: 0 <= y < |cells| && 0 <= x < |cells[y]| ==>
        after[y][x] == if OnPane(p, y, x) && Touches(updates[..k], y - p.rect.y) then PaneCell(p, inactive, y, x)
                       else cells[y][x]
      invariant Tracked(cells, dirty, after, flags)
    {
      var pr := updates[k].row;
      assert updates[..k + 1] == updates[..k] + [updates[k]];
      forall r ensures Touches(updates[..k + 1], r) == (Touches(updates[..k], r) || r == pr) {
        TouchesAppend(updates[..k], updates[k], r);
      }
      if pr < |p.rows| && p.rect.y + pr < |after| {
        var cy := p.rect.y + pr;
        var row := BlitRow(after[cy], p.rows[pr], p.rect.x, |p.rows[pr]|, inactive);
        after, flags := after[cy := row], flags[cy := true];
      }
    }
    assert updates[..|updates|] == updates;
  }

  lemma TouchesAppend(updates: seq<Update>, u: Update, row: int)
    ensures Touches(updates + [u], row) == (Touches(updates, row) || row == u.row)
  {
    var all := updates + [u];
    if Touches(updates, row) {
      var k :| 0 <= k < |updates| && updates[k].row == row;
      assert all[k].row == row;
    }
    if row == u.row { assert all[|updates|].row == row; }
  }

  /** Scenes that differ in pane content only. */
  ghost predicate SameBoxes(s: Scene, t: Scene) {
    && s.rows == t.rows && s.cols == t.cols && s.active == t.active && s.zoomed == t.zoomed
    && s.panes.Keys == t.panes.Keys
    && forall id :: id in s.panes ==> SameBox(s.panes[id], t.panes[id])
  }

  predicate SameBox(p: PaneView, q: PaneView) {
    && p.rect == q.rect && p.cols == q.cols && |p.rows| == |q.rows|
    && forall r :: 0 <= r < |p.rows| ==> |p.rows[r]| == |q.rows[r]|
  }

  lemma SameKeysSameSize(a: PaneMap, b: PaneMap)
    requires a.Keys == b.Keys
    ensures |a| == |b|
  {
    assert |a.Keys| == |a| && |b.Keys| == |b|;
  }

  lemma SameBoxesBare(s: Scene, t: Scene, y: nat, x: nat)
    requires SameBoxes(s, t)
    ensures Bare(s, y, x) <==> Bare(t, y, x)
  {
    assert forall id :: id in s.panes ==> OnPane(s.panes[id], y, x) == OnPane(t.panes[id], y, x);
    assert forall id :: Drawn(s, id) <==> Drawn(t, id);
  }

  lemma SameBoxesTidy(s: Scene, t: Scene)
    requires SameBoxes(s, t) && Tidy(s)
    ensures Tidy(t)
  {
    forall id, r | id in t.panes && 0 <= r < |t.panes[id].rows| ensures |t.panes[id].rows[r]| == t.panes[id].cols {
      assert |s.panes[id].rows[r]| == s.panes[id].cols;
    }
    if !s.zoomed {
      forall a, b, y: nat, x: nat | a in t.panes && b in t.panes && OnPane(t.panes[a], y, x) && OnPane(t.panes[b], y, x)
        ensures a == b
      {
        assert OnPane(s.panes[a], y, x) && OnPane(s.panes[b], y, x);
      }
    }
  }

  /** Occupancy, and so every border, depends on the rectangles alone. */
  lemma BorderFromRects(s: Scene, t: Scene, y: nat, x: nat)
    requires SameBoxes(s, t)
    ensures Border(s.panes, s.active, s.rows, s.cols, y, x) == Border(t.panes, t.active, t.rows, t.cols, y, x)
  {
    forall y', x' ensures Occupied(s.panes, y', x') == Occupied(t.panes, y', x') {
      if Occupied(s.panes, y', x') {
        var id :| id in s.panes && Contains(s.panes[id].rect, x', y');
        assert Contains(t.panes[id].rect, x', y');
      }
      if Occupied(t.panes, y', x') {
        var id :| id in t.panes && Contains(t.panes[id].rect, x', y');
        assert Contains(s.panes[id].rect, x', y');
      }
    }
  }

  lemma SameBoxesBackground(s: Scene, t: Scene, y: nat, x: nat)
    requires SameBoxes(s, t)
    ensures Background(s, y, x) == Background(t, y, x)
    ensures Bare(s, y, x) <==> Bare(t, y, x)
  {
    SameKeysSameSize(s.panes, t.panes);
    BorderFromRects(s, t, y, x);
    SameBoxesBare(s, t, y, x);
  }

  lemma SameSizeWithPane(panes: PaneMap, id: nat, p: PaneView)
    requires id in panes
    ensures |panes[id := p]| == |panes|
  {
    assert panes[id := p].Keys == panes.Keys;
    SameKeysSameSize(panes, panes[id := p]);
  }

  lemma WithPaneSameBoxes(s: Scene, id: nat, p: PaneView)
    requires id in s.panes && SameBox(s.panes[id], p)
    ensures SameBoxes(s, s.(panes := s.panes[id := p])) && SameBoxes(s.(panes := s.panes[id := p]), s)
  {
    assert s.panes[id := p].Keys == s.panes.Keys;
  }

  /** Redrawing just the touched rows of a visible pane keeps the composite exact. */
  lemma UpdateKeepsComposite(before: seq<Row>, after: seq<Row>, s: Scene, id: nat, p: PaneView, touched: iset<int>)
    requires IsComposite(before, s) && Tidy(s) && id in s.panes && SameBox(s.panes[id], p)
    requires forall r :: 0 <= r < |p.rows| && r !in touched ==> p.rows[r] == s.panes[id].rows[r]
    requires Shape(after, s.rows, s.cols)
    requires forall y, x :: 0 <= y < s.rows && 0 <= x < s.cols ==>
      after[y][x] == if Drawn(s, id) && OnPane(p, y, x) && y - p.rect.y in touched
                     then PaneCell(p, Inactive(s, id), y, x) else before[y][x]
    ensures IsComposite(after, s.(panes := s.panes[id := p]))
  {
    var t := s.(panes := s.panes[id := p]);
    SameSizeWithPane(s.panes, id, p);
    forall k, y, x | Drawn(t, k) && 0 <= y < s.rows && 0 <= x < s.cols && OnPane(t.panes[k], y, x)
      ensures after[y][x] == PaneCell(t.panes[k], Inactive(t, k), y, x)
    {
      assert Drawn(s, k) && OnPane(s.panes[k], y, x);
      assert before[y][x] == PaneCell(s.panes[k], Inactive(s, k), y, x);
      assert OnPane(p, y, x) == OnPane(s.panes[id], y, x);
    }
    WithPaneSameBoxes(s, id, p);
    forall y, x | 0 <= y < s.rows && 0 <= x < s.cols && Bare(t, y, x)
      ensures after[y][x] == Background(t, y, x)
    {
      SameBoxesBackground(s, t, y, x);
      assert Drawn(s, id) ==> !OnPane(s.panes[id], y, x);
    }
  }

  /** What the composite promises: it has the window's shape and, for a tidy scene, shows it. */
  ghost predicate Composed(cells: seq<Row>, s: Scene) {
    Framed(cells, s) && (Tidy(s) ==> IsComposite(cells, s))
  }

  ghost predicate Framed(cells: seq<Row>, s: Scene) {
    Rectangular(s.panes) && Shape(cells, s.rows, s.cols)
  }

  lemma ComposedUnique(c1: seq<Row>, c2: seq<Row>, s: Scene)
    requires Composed(c1, s) && Composed(c2, s) && Tidy(s)
    ensures c1 == c2
  {
    CompositeUnique(c1, c2, s);
  }

  /** A recompose of a composite that is up to date changes nothing. */
  method Rebuild(ghost before: seq<Row>, s: Scene) returns (cells: seq<Row>)
    requires Rectangular(s.panes)
    ensures Composed(cells, s)
    ensures Composed(before, s) && Tidy(s) ==> cells == before
  {
    cells := Recompose(s);
    if Composed(before, s) && Tidy(s) { ComposedUnique(before, cells, s); }
  }

  /** The pane drawn by an update, its redrawn rows and the scene they belong to. */
  ghost predicate Redrawn(before: seq<Row>, after: seq<Row>, s: Scene, id: nat, p: PaneView, updates: seq<Update>) {
    && |after| == |before| && (forall y :: 0 <= y < |before| ==> |after[y]| == |before[y]|)
    && forall y, x :: 0 <= y < |before| && 0 <= x < |before[y]| ==>
         after[y][x] == if Drawn(s, id) && OnPane(p, y, x) && Touches(updates, y - p.rect.y)
                        then PaneCell(p, Inactive(s, id), y, x) else before[y][x]
  }

  /** Redraw an updated pane, unless it is hidden behind a zoomed one. */
  method Redraw(cells: seq<Row>, dirty: seq<bool>, s: Scene, id: nat, p: PaneView, updates: seq<Update>)
      returns (after: seq<Row>, flags: seq<bool>)
    requires id in s.panes && |dirty| == |cells|
    requires forall r :: 0 <= r < |p.rows| ==> |p.rows[r]| == p.cols
    ensures Redrawn(cells, after, s, id, p, updates)
    ensures Tracked(cells, dirty, after, flags)
  {
    after, flags := cells, dirty;
    if !s.zoomed || id == s.active {
      after, flags := DrawRows(cells, dirty, p, updates, Inactive(s, id));
    }
  }

  lemma UpdateComposed(before: seq<Row>, after: seq<Row>, s: Scene, id: nat, p: PaneView, updates: seq<Update>,
      row: nat, col: nat, visible: bool)
    requires Framed(before, s) && id in s.panes && p == Refresh(s.panes[id], updates, row, col, visible)
    requires Redrawn(before, after, s, id, p, updates)
    ensures Framed(after, s.(panes := s.panes[id := p]))
    ensures Composed(before, s) ==> Composed(after, s.(panes := s.panes[id := p]))
    ensures Tidy(s.(panes := s.panes[id := p])) == Tidy(s)
  {
    var t := s.(panes := s.panes[id := p]);
    WithPaneSameBoxes(s, id, p);
    if Tidy(s) { SameBoxesTidy(s, t); }
    if Tidy(t) { SameBoxesTidy(t, s); }
    if Tidy(s) && Composed(before, s) {
      var touched := iset r: int | Touches(updates, r);
      UpdateKeepsComposite(before, after, s, id, p, touched);
    }
  }

  // ---- Snapshots ----

  /** `fill_grid_from_cells`: the cells row by row, as far as they go. */
  function Filled(rows: seq<Row>, width: nat, cells: Row): (r: seq<Row>)
    requires width > 0
    ensures |r| == |rows| && forall i :: 0 <= i < |rows| ==> |r[i]| == |rows[i]|
    ensures forall i, c :: 0 <= i < |rows| && 0 <= c < |rows[i]| ==>
      r[i][c] == if c < width && CellIndex(i, width, c) < |cells| then cells[CellIndex(i, width, c)] else rows[i][c]
  {
    seq(|rows|, i requires 0 <= i < |rows| => FilledRow(rows[i], CellIndex(i, width, 0), width, cells))
  }

  /** A row filled from the cells that start at `at`. */
  function FilledRow(row: Row, at: nat, width: nat, cells: Row): (r: Row)
    ensures |r| == |row|
    ensures forall c :: 0 <= c < |row| ==> r[c] == if c < width && at + c < |cells| then cells[at + c] else row[c]
  {
    seq(|row|, c requires 0 <= c < |row| => if c < width && at + c < |cells| then cells[at + c] else row[c])
  }

  /** One cell of the loop. */
  function Place(rows: seq<Row>, width: nat, i: nat, cell: Cell): (r: seq<Row>)
    requires width > 0
    ensures |r| == |rows|
  {
    var row, col := i / width, i % width;
    if row < |rows| && col < |rows[row]| then rows[row := rows[row][col := cell]] else rows
  }

  lemma PlaceNext(rows: seq<Row>, width: nat, cells: Row, i: nat)
    requires width > 0 && i < |cells|
    ensures Place(Filled(rows, width, cells[..i]), width, i, cells[i]) == Filled(rows, width, cells[..i + 1])
  {
    var before, after := Filled(rows, width, cells[..i]), Filled(rows, width, cells[..i + 1]);
    var now := Place(before, width, i, cells[i]);
    forall r | 0 <= r < |rows| ensures now[r] == after[r] {
      forall c | 0 <= c < |rows[r]| ensures now[r][c] == after[r][c] {
        if c < width && CellIndex(r, width, c) == i { DivModUnique(i, width, r, c); }
      }
    }
  }

  lemma FilledNone(rows: seq<Row>, width: nat)
    requires width > 0
    ensures Filled(rows, width, []) == rows
  {
    forall i | 0 <= i < |rows| ensures Filled(rows, width, [])[i] == rows[i] {
    }
  }

  method FillCells(rows: seq<Row>, cols: nat, cells: Row) returns (after: seq<Row>)
    ensures after == Filled(rows, Max(cols, 1), cells)
  {
    after := rows;
    var width: nat := Max(cols, 1);
    FilledNone(rows, width);
    for i := 0 to |cells|
      invariant after == Filled(rows, width, cells[..i])
    {
      PlaceNext(rows, width, cells, i);
      after := Place(after, width, i, cells[i]);
    }
    assert cells[..|cells|] == cells;
  }

  /** A pane after a snapshot: a grid of another size is replaced, an unknown pane is new. */
  function Snapped(known: Option<PaneView>, rows: nat, cols: nat, cells: Row, row: nat, col: nat, visible: bool)
      : PaneView
  {
    var was := if known.Some? then known.value else Refit(None, Rect(0, 0, cols, rows));
    var fits := |was.rows| == rows && was.cols == cols;
    var grid := if fits then was.rows else BlankRows(Max(rows, 1), Max(cols, 1));
    PaneView(was.rect.(rows := rows, cols := cols), Filled(grid, Max(cols, 1), cells),
             if fits then cols else Max(cols, 1), row, col, visible)
  }

  /** The snapshot has the size of the pane it is for. */
  predicate InPlace(s: Scene, id: nat, rows: nat, cols: nat) {
    && id in s.panes && |s.panes[id].rows| == rows && s.panes[id].cols == cols
    && s.panes[id].rect.rows == rows && s.panes[id].rect.cols == cols
  }

  /** The whole window lies on the pane. */
  predicate FillsWindow(p: PaneView, rows: nat, cols: nat) {
    p.rect.x == 0 && p.rect.y == 0 && |p.rows| >= rows && p.cols >= cols
  }

  predicate HasRow(p: PaneView, r: int) { 0 <= r < |p.rows| }

  /** Drawing the whole of a visible pane of unchanged size keeps the composite exact. */
  lemma SnapshotInPlace(before: seq<Row>, after: seq<Row>, s: Scene, id: nat, p: PaneView)
    requires Composed(before, s) && id in s.panes && SameBox(s.panes[id], p) && Drawn(s, id)
    requires Shape(after, s.rows, s.cols)
    requires forall y, x :: 0 <= y < s.rows && 0 <= x < s.cols ==>
      after[y][x] == if OnPane(p, y, x) then PaneCell(p, Inactive(s, id), y, x) else before[y][x]
    ensures Composed(after, s.(panes := s.panes[id := p]))
  {
    var t := s.(panes := s.panes[id := p]);
    WithPaneSameBoxes(s, id, p);
    if Tidy(t) {
      SameBoxesTidy(t, s);
      UpdateKeepsComposite(before, after, s, id, p, iset r: int | HasRow(p, r));
    }
  }

  /** A zoomed pane that covers the window leaves nothing of what was drawn before. */
  lemma SnapshotCovers(after: seq<Row>, t: Scene)
    requires t.zoomed && t.active in t.panes && Framed(after, t) && FillsWindow(t.panes[t.active], t.rows, t.cols)
    requires forall y, x :: 0 <= y < t.rows && 0 <= x < t.cols && OnPane(t.panes[t.active], y, x) ==>
      after[y][x] == PaneCell(t.panes[t.active], false, y, x)
    ensures Composed(after, t)
  {
  }

  /** On an exact composite there is no border left to paint. */
  lemma BordersStand(cells: seq<Row>, t: Scene, after: seq<Row>)
    requires Composed(cells, t) && Shape(after, t.rows, t.cols)
    requires forall y, x :: 0 <= y < t.rows && 0 <= x < t.cols ==>
      after[y][x] == if !t.zoomed && |t.panes| > 1 && !Occupied(t.panes, y, x)
                     then Border(t.panes, t.active, t.rows, t.cols, y, x) else cells[y][x]
    ensures Composed(after, t)
  {
    if Tidy(t) {
      forall y, x | 0 <= y < t.rows && 0 <= x < t.cols ensures after[y][x] == cells[y][x] {
        if !t.zoomed && |t.panes| > 1 && !Occupied(t.panes, y, x) { UnoccupiedIsBare(t, y, x); }
      }
    }
  }

  lemma UnoccupiedIsBare(t: Scene, y: nat, x: nat)
    requires Tidy(t) && !t.zoomed && !Occupied(t.panes, y, x)
    ensures Bare(t, y, x)
  {
    forall id | Drawn(t, id) ensures !OnPane(t.panes[id], y, x) {
      assert !Contains(t.panes[id].rect, x, y);
    }
  }

  // ---- The window view ----

  /** A pane's grid refitted to a rectangle: kept if it is known, blank if it is new. */
  function Refit(known: Option<PaneView>, rect: Rect): PaneView {
    var rows, cols := Max(rect.rows, 1), Max(rect.cols, 1);
    if known.None? then PaneView(rect, BlankRows(rows, cols), cols, 0, 0, true)
    else
      var p := known.value;
      if |p.rows| == rows && p.cols == cols then p.(rect := rect)
      else
        PaneView(rect, Fitted(p.rows, rows, cols), cols, Min(p.curRow, rows - 1), Min(p.curCol, cols - 1), p.visible)
  }

  function Lookup(panes: PaneMap, id: nat): Option<PaneView> {
    if id in panes then Some(panes[id]) else None
  }

  /** The panes after a layout message: one per rectangle, and while zoomed the hidden ones. */
  ghost predicate LaidOut(before: PaneMap, rects: Panes, zoomed: bool, after: PaneMap) {
    && (forall i :: 0 <= i < |rects| ==>
          rects[i].id in after && after[rects[i].id] == Refit(Lookup(before, rects[i].id), rects[i].rect))
    && (forall id :: id in after ==> HasId(rects, id) || (zoomed && id in before && after[id] == before[id]))
    && (zoomed ==> forall id :: id in before ==> id in after)
  }

  /** The panes not yet taken over by the first `n` rectangles. */
  function Left(panes: PaneMap, rects: Panes, n: nat): PaneMap
    requires n <= |rects|
  {
    if n == 0 then panes else Left(panes, rects, n - 1) - {rects[n - 1].id}
  }

  function Laid(panes: PaneMap, rects: Panes, n: nat): PaneMap
    requires n <= |rects|
  {
    if n == 0 then map[]
    else
      var r := rects[n - 1];
      Laid(panes, rects, n - 1)[r.id := Refit(Lookup(Left(panes, rects, n - 1), r.id), r.rect)]
  }

  function Relaid(panes: PaneMap, rects: Panes, zoomed: bool): PaneMap {
    if zoomed then Left(panes, rects, |rects|) + Laid(panes, rects, |rects|) else Laid(panes, rects, |rects|)
  }

  /** The scene after a message. */
  function Next(s: Scene, e: Event): Scene {
    match e
    case Layout(rows, cols, active, rects, zoom) =>
      Scene(Max(rows, 1), Max(cols, 1), Relaid(s.panes, rects, zoom), active, zoom)
    case PaneUpdate(pane, updates, row, col, visible) =>
      s.(panes := Updated(s.panes, Named(s, pane), updates, row, col, visible))
    case Snapshot(pane, height, width, cells, row, col, visible) =>
      if IsLegacy(s, e) then
        Scene(Max(height, 1), Max(width, 1), map[0 := Snapped(None, height, width, cells, row, col, visible)], 0, false)
      else
        var id := Named(s, pane);
        s.(panes := s.panes[id := Snapped(Lookup(s.panes, id), height, width, cells, row, col, visible)])
  }

  /** The pane a message names, by default the active one. */
  function Named(s: Scene, pane: Option<nat>): nat {
    if pane.Some? then pane.value else s.active
  }

  /** A snapshot for no pane in particular, to a view of one pane, resets the view. */
  predicate IsLegacy(s: Scene, e: Event) {
    e.Snapshot? && e.pane.None? && |s.panes| <= 1
  }

  /** The composite is exact after the message, given that it was `exact` before: a layout
      redraws all, and so does the snapshot of a zoomed pane that covers the window; other
      snapshots must be of a visible pane and of its size. */
  predicate StaysExact(s: Scene, e: Event, exact: bool) {
    match e
    case Layout(_, _, _, _, _) => true
    case PaneUpdate(_, _, _, _, _) => exact
    case Snapshot(pane, height, width, _, _, _, _) =>
      var id := Named(s, pane);
      || IsLegacy(s, e)
      || (exact && Drawn(s, id) && InPlace(s, id, height, width))
      || (s.zoomed && id == s.active && FillsWindow(Next(s, e).panes[id], s.rows, s.cols))
  }

  predicate ExactAfter(s: Scene, events: seq<Event>, exact: bool) {
    if events == [] then exact
    else
      var init := events[..|events| - 1];
      StaysExact(AfterAll(s, init), events[|events| - 1], ExactAfter(s, init, exact))
  }

  function AfterAll(s: Scene, events: seq<Event>): Scene {
    if events == [] then s else Next(AfterAll(s, events[..|events| - 1]), events[|events| - 1])
  }

  ghost predicate HasId(rects: Panes, id: nat) {
    exists i :: 0 <= i < |rects| && rects[i].id == id
  }

  /** The panes after an update; a pane the view does not know is ignored. */
  function Updated(panes: PaneMap, id: nat, updates: seq<Update>, row: nat, col: nat, visible: bool): PaneMap {
    if id in panes then panes[id := Refresh(panes[id], updates, row, col, visible)] else panes
  }

  datatype Event =
    | Layout(rows: nat, cols: nat, active: nat, rects: Panes, zoomed: bool)
    | PaneUpdate(pane: Option<nat>, updates: seq<Update>, row: nat, col: nat, visible: bool)
    | Snapshot(pane: Option<nat>, height: nat, width: nat, cells: Row, row: nat, col: nat, visible: bool)

  /** Refit the panes of a layout message, taking each known pane out of the old map. */
  method LayOut(panes: PaneMap, rects: Panes, zoomed: bool) returns (next: PaneMap)
    ensures next == Relaid(panes, rects, zoomed)
  {
    var left := panes;
    next := map[];
    for i := 0 to |rects|
      invariant left == Left(panes, rects, i) && next == Laid(panes, rects, i)
    {
      var id := rects[i].id;
      var p := Refit(Lookup(left, id), rects[i].rect);
      left := left - {id};
      next := next[id := p];
    }
    if zoomed { next := left + next; }
  }

  lemma {:induction false} LeftKeeps(panes: PaneMap, rects: Panes, n: nat)
    requires n <= |rects|
    ensures forall id :: id in Left(panes, rects, n) <==> id in panes && !HasId(rects[..n], id)
    ensures forall id :: id in Left(panes, rects, n) ==> Left(panes, rects, n)[id] == panes[id]
  {
    if n > 0 {
      LeftKeeps(panes, rects, n - 1);
      HasIdNext(rects, n - 1);
    }
  }

  lemma {:induction false} LaidKeepsShape(panes: PaneMap, rects: Panes, n: nat)
    requires n <= |rects| && Rectangular(panes)
    ensures Rectangular(Laid(panes, rects, n)) && Rectangular(Left(panes, rects, n))
  {
    if n > 0 { LaidKeepsShape(panes, rects, n - 1); }
  }

  lemma RelaidKeepsShape(panes: PaneMap, rects: Panes, zoomed: bool)
    requires Rectangular(panes)
    ensures Rectangular(Relaid(panes, rects, zoomed))
  {
    LaidKeepsShape(panes, rects, |rects|);
  }

  lemma {:induction false} LaidIds(panes: PaneMap, rects: Panes, n: nat, id: nat)
    requires n <= |rects| && id in Laid(panes, rects, n)
    ensures HasId(rects, id)
  {
    if rects[n - 1].id != id { LaidIds(panes, rects, n - 1, id); }
  }

  lemma {:induction false} LaidAt(panes: PaneMap, rects: Panes, n: nat, k: nat)
    requires k < n <= |rects| && Distinct(IdsOf(rects))
    ensures rects[k].id in Laid(panes, rects, n)
    ensures Laid(panes, rects, n)[rects[k].id] == Refit(Lookup(panes, rects[k].id), rects[k].rect)
  {
    if k < n - 1 {
      LaidAt(panes, rects, n - 1, k);
      assert IdsOf(rects)[k] != IdsOf(rects)[n - 1];
    } else {
      LeftKeeps(panes, rects, k);
      assert forall j :: 0 <= j < k ==> IdsOf(rects)[j] != IdsOf(rects)[k];
    }
  }

  /** Whatever the order of the rectangles, each id ends up refitted into its own rectangle. */
  lemma RelaidIsLaidOut(panes: PaneMap, rects: Panes, zoomed: bool)
    requires Distinct(IdsOf(rects))
    ensures LaidOut(panes, rects, zoomed, Relaid(panes, rects, zoomed))
  {
    var n, after := |rects|, Relaid(panes, rects, zoomed);
    LeftKeeps(panes, rects, n);
    assert rects[..n] == rects;
    forall i | 0 <= i < n
      ensures rects[i].id in after && after[rects[i].id] == Refit(Lookup(panes, rects[i].id), rects[i].rect)
    {
      LaidAt(panes, rects, n, i);
    }
    forall id | id in after ensures HasId(rects, id) || (zoomed && id in panes && after[id] == panes[id]) {
      if id in Laid(panes, rects, n) { LaidIds(panes, rects, n, id); }
    }
    forall id | zoomed && id in panes ensures id in after {
      if HasId(rects, id) {
        var i :| 0 <= i < n && rects[i].id == id;
        LaidAt(panes, rects, n, i);
      }
    }
  }

  // ---- What a message does ----

  /** A row of `width` cells, kept from `was` where it has them and blank elsewhere. */
  predicate KeptOrBlank(now: Row, was: Row, width: nat) {
    |now| == width && forall c :: 0 <= c < width ==> now[c] == if c < |was| then was[c] else BLANK
  }

  /** A pane in a new rectangle: of its size, but never empty. A known pane keeps the cells and
      the cursor that fit, a new one is blank. */
  ghost predicate Refitted(known: Option<PaneView>, rect: Rect, p: PaneView) {
    && p.rect == rect && |p.rows| == Max(rect.rows, 1) && p.cols == Max(rect.cols, 1)
    && (forall r :: 0 <= r < |p.rows| ==>
          KeptOrBlank(p.rows[r], if known.Some? && r < |known.value.rows| then known.value.rows[r] else [], p.cols))
    && (known.None? ==> p.curRow == p.curCol == 0 && p.visible)
    && (known.Some? ==> p.visible == known.value.visible && KeepsCursor(known.value, p))
  }

  predicate KeepsCursor(was: PaneView, now: PaneView) {
    if |was.rows| == |now.rows| && was.cols == now.cols then now.curRow == was.curRow && now.curCol == was.curCol
    else
      && now.curRow == Min(was.curRow, |now.rows| - 1)
      && now.curCol == Min(was.curCol, now.cols - 1)
  }

  lemma RefitExact(known: Option<PaneView>, rect: Rect)
    requires known.Some? ==> forall r :: 0 <= r < |known.value.rows| ==> |known.value.rows[r]| == known.value.cols
    ensures Refitted(known, rect, Refit(known, rect))
  {
  }

  /** Update `k` says what stands in column `c` of row `row`. */
  predicate Says(updates: seq<Update>, k: nat, row: nat, c: nat) {
    k < |updates| && updates[k].row == row && c < |updates[k].cells|
  }

  ghost predicate SaysLast(updates: seq<Update>, k: nat, row: nat, c: nat) {
    Says(updates, k, row, c) && forall j: nat :: k < j < |updates| ==> !Says(updates, j, row, c)
  }

  /** The last update that says what stands there is followed, and without one the cell stays. */
  ghost predicate FollowsLast(was: Cell, now: Cell, updates: seq<Update>, row: nat, c: nat) {
    && (forall k: nat :: SaysLast(updates, k, row, c) ==> now == updates[k].cells[c])
    && ((forall k: nat :: !Says(updates, k, row, c)) ==> now == was)
  }

  lemma FollowsOneMore(was: Cell, mid: Cell, now: Cell, init: seq<Update>, last: Update, row: nat, c: nat)
    requires FollowsLast(was, mid, init, row, c)
    requires now == if last.row == row && c < |last.cells| then last.cells[c] else mid
    ensures FollowsLast(was, now, init + [last], row, c)
  {
    var updates, n: nat := init + [last], |init|;
    assert updates[n] == last;
    assert forall k: nat :: k < n ==> Says(init, k, row, c) == Says(updates, k, row, c);
    forall k: nat | SaysLast(updates, k, row, c) ensures now == updates[k].cells[c] {
      if k < n { assert SaysLast(init, k, row, c) && !Says(updates, n, row, c); }
    }
    if forall k: nat :: !Says(updates, k, row, c) {
      assert !Says(updates, n, row, c);
      assert forall k: nat :: !Says(init, k, row, c);
    }
  }

  lemma PatchOneMore(rows: seq<Row>, init: seq<Update>, last: Update, row: nat, c: nat)
    requires row < |rows| && c < |rows[row]|
    ensures Patch(rows, init + [last])[row][c]
         == if last.row == row && c < |last.cells| then last.cells[c] else Patch(rows, init)[row][c]
  {
    assert (init + [last])[..|init|] == init;
  }

  lemma {:induction false} PatchExact(rows: seq<Row>, updates: seq<Update>, row: nat, c: nat)
    requires row < |rows| && c < |rows[row]|
    ensures FollowsLast(rows[row][c], Patch(rows, updates)[row][c], updates, row, c)
    decreases |updates|
  {
    if updates != [] {
      var init, last := updates[..|updates| - 1], updates[|updates| - 1];
      PatchExact(rows, init, row, c);
      PatchOneMore(rows, init, last, row, c);
      FollowsOneMore(rows[row][c], Patch(rows, init)[row][c], Patch(rows, init + [last])[row][c], init, last, row, c);
      assert init + [last] == updates;
    }
  }

  /** A pane after an update: its place and size are kept, its cells follow the update. */
  ghost predicate Refreshed(was: PaneView, now: PaneView, updates: seq<Update>, row: nat, col: nat, visible: bool) {
    && now == was.(rows := now.rows, curRow := row, curCol := col, visible := visible)
    && |now.rows| == |was.rows|
    && forall r, c :: 0 <= r < |was.rows| && 0 <= c < |was.rows[r]| ==>
         |now.rows[r]| == |was.rows[r]| && FollowsLast(was.rows[r][c], now.rows[r][c], updates, r, c)
  }

  /** A pane after a snapshot: it keeps its place in the window and has the size sent. Its cells
      are those sent, row by row; beyond them a grid of that size keeps its own, and a new one,
      which is never empty, is blank. */
  ghost predicate Shot(known: Option<PaneView>, e: Event, p: PaneView)
    requires e.Snapshot?
  {
    var fits := known.Some? && |known.value.rows| == e.height && known.value.cols == e.width;
    && p.rect == (if known.Some? then known.value.rect.(rows := e.height, cols := e.width)
                  else Rect(0, 0, e.width, e.height))
    && |p.rows| == (if fits then e.height else Max(e.height, 1))
    && p.cols == (if fits then e.width else Max(e.width, 1))
    && p.curRow == e.row && p.curCol == e.col && p.visible == e.visible
    && forall r :: 0 <= r < |p.rows| ==>
         SentRow(p.rows[r], if fits then known.value.rows[r] else [], r, p.cols, e.cells)
  }

  predicate SentRow(now: Row, was: Row, r: nat, width: nat, cells: Row) {
    && |now| == width
    && forall c :: 0 <= c < width ==>
         now[c] == if CellIndex(r, width, c) < |cells| then cells[CellIndex(r, width, c)]
                   else if c < |was| then was[c] else BLANK
  }

  lemma SnappedExact(known: Option<PaneView>, e: Event)
    requires e.Snapshot?
    requires known.Some? ==> forall r :: 0 <= r < |known.value.rows| ==> |known.value.rows[r]| == known.value.cols
    ensures Shot(known, e, Snapped(known, e.height, e.width, e.cells, e.row, e.col, e.visible))
  {
    var p := Snapped(known, e.height, e.width, e.cells, e.row, e.col, e.visible);
    var fits := known.Some? && |known.value.rows| == e.height && known.value.cols == e.width;
    forall r | 0 <= r < |p.rows|
      ensures SentRow(p.rows[r], if fits then known.value.rows[r] else [], r, p.cols, e.cells)
    {
      if fits { assert p.rows == Filled(known.value.rows, Max(e.width, 1), e.cells); }
    }
  }

  /** The panes other than `id` stay. */
  predicate OthersStay(before: PaneMap, after: PaneMap, id: nat) {
    before - {id} == after - {id}
  }

  /** A layout gives each pane named its rectangle and drops the others, or hides them behind the
      zoomed one. An update changes a known pane, and a snapshot any, by default the active one;
      but a snapshot that names none, for a view of at most one pane, starts the view afresh. */
  ghost predicate Follows(s: Scene, e: Event, t: Scene) {
    match e
    case Layout(rows, cols, active, rects, zoom) =>
      && t.rows == Max(rows, 1) && t.cols == Max(cols, 1) && t.active == active && t.zoomed == zoom
      && (forall id :: id in t.panes <==> HasId(rects, id) || (zoom && id in s.panes))
      && (forall i :: 0 <= i < |rects| ==> Refitted(Lookup(s.panes, rects[i].id), rects[i].rect, t.panes[rects[i].id]))
      && (forall id :: id in t.panes && !HasId(rects, id) ==> t.panes[id] == s.panes[id])
    case PaneUpdate(pane, updates, row, col, visible) =>
      var id := if pane.Some? then pane.value else s.active;
      && t == s.(panes := t.panes) && t.panes.Keys == s.panes.Keys && OthersStay(s.panes, t.panes, id)
      && (id in s.panes ==> Refreshed(s.panes[id], t.panes[id], updates, row, col, visible))
    case Snapshot(pane, height, width, _, _, _, _) =>
      if pane.None? && |s.panes| <= 1 then
        && t.rows == Max(height, 1) && t.cols == Max(width, 1) && t.active == 0 && !t.zoomed
        && t.panes.Keys == {0} && Shot(None, e, t.panes[0])
      else
        var id := if pane.Some? then pane.value else s.active;
        && t == s.(panes := t.panes) && t.panes.Keys == s.panes.Keys + {id} && OthersStay(s.panes, t.panes, id)
        && Shot(Lookup(s.panes, id), e, t.panes[id])
  }

  lemma LayoutFollows(s: Scene, e: Event)
    requires Rectangular(s.panes) && e.Layout? && Distinct(IdsOf(e.rects))
    ensures Follows(s, e, Next(s, e))
  {
    var t := Next(s, e);
    RelaidIsLaidOut(s.panes, e.rects, e.zoomed);
    forall i | 0 <= i < |e.rects|
      ensures e.rects[i].id in t.panes
      ensures Refitted(Lookup(s.panes, e.rects[i].id), e.rects[i].rect, t.panes[e.rects[i].id])
    {
      RefitExact(Lookup(s.panes, e.rects[i].id), e.rects[i].rect);
    }
  }

  lemma UpdateFollows(s: Scene, e: Event)
    requires e.PaneUpdate?
    ensures Follows(s, e, Next(s, e))
  {
    var id := Named(s, e.pane);
    if id in s.panes {
      var p := s.panes[id];
      forall r, c | 0 <= r < |p.rows| && 0 <= c < |p.rows[r]|
        ensures FollowsLast(p.rows[r][c], Patch(p.rows, e.updates)[r][c], e.updates, r, c)
      {
        PatchExact(p.rows, e.updates, r, c);
      }
    }
  }

  lemma PanePut(panes: PaneMap, id: nat, p: PaneView)
    ensures panes[id := p].Keys == panes.Keys + {id} && OthersStay(panes, panes[id := p], id)
  {
  }

  lemma SnapshotFollows(s: Scene, e: Event)
    requires Rectangular(s.panes) && e.Snapshot?
    ensures Follows(s, e, Next(s, e))
  {
    var known := if IsLegacy(s, e) then None else Lookup(s.panes, Named(s, e.pane));
    SnappedExact(known, e);
    PanePut(s.panes, Named(s, e.pane), Snapped(known, e.height, e.width, e.cells, e.row, e.col, e.visible));
  }

  /** The new scene is exactly the one the message asks for. */
  lemma NextFollows(s: Scene, e: Event)
    requires Rectangular(s.panes) && (e.Layout? ==> Distinct(IdsOf(e.rects)))
    ensures Follows(s, e, Next(s, e))
  {
    match e
    case Layout(_, _, _, _, _) => LayoutFollows(s, e);
    case PaneUpdate(_, _, _, _, _) => UpdateFollows(s, e);
    case Snapshot(_, _, _, _, _, _, _) => SnapshotFollows(s, e);
  }

  /** The server sends the reflow of a tree in which every split has room, or zooms; and
      snapshots of panes by name, in the size laid out. */
  ghost predicate FromServer(s: Scene, e: Event) {
    && (e.Layout? && !e.zoomed ==> exists node :: Sends(node, e))
    && (e.Snapshot? ==> e.pane.Some? && (s.zoomed || InPlace(s, e.pane.value, e.height, e.width)))
  }

  ghost predicate AllFromServer(s: Scene, events: seq<Event>) {
    forall k :: 0 <= k < |events| ==> FromServer(AfterAll(s, events[..k]), events[k])
  }

  ghost predicate Sends(node: Node, e: Event)
    requires e.Layout?
  {
    && Distinct(Ids(node)) && Roomy(node, Window(e.cols, e.rows))
    && e.cols < 0x1_0000 && e.rows < 0x1_0000 && e.rects == Reflow(node, e.cols, e.rows)
  }

  lemma LayoutTidy(s: Scene, e: Event, node: Node)
    requires e.Layout? && !e.zoomed && Sends(node, e) && Rectangular(s.panes)
    ensures Tidy(Next(s, e))
  {
    var t, rects := Next(s, e), e.rects;
    ReflowIds(node, Window(e.cols, e.rows));
    NonemptyIffRoomy(node, Window(e.cols, e.rows));
    RelaidIsLaidOut(s.panes, rects, false);
    RelaidKeepsShape(s.panes, rects, false);
    LaidOutFits(s.panes, rects, t.panes);
    ReflowIsTidy(node, e.cols, e.rows, t);
  }

  lemma LaidOutFits(before: PaneMap, rects: Panes, after: PaneMap)
    requires LaidOut(before, rects, false, after) && AllNonempty(rects)
    ensures forall id :: id in after ==> Placed(id, after[id].rect) in rects
    ensures forall id :: id in after ==>
      |after[id].rows| == after[id].rect.rows && after[id].cols == after[id].rect.cols
  {
    forall id | id in after
      ensures Placed(id, after[id].rect) in rects
      ensures |after[id].rows| == after[id].rect.rows && after[id].cols == after[id].rect.cols
    {
      var i :| 0 <= i < |rects| && rects[i].id == id;
      RefitFits(Lookup(before, id), rects[i].rect);
      assert rects[i] == Placed(id, after[id].rect);
    }
  }

  lemma RefitFits(known: Option<PaneView>, rect: Rect)
    requires Nonempty(rect)
    ensures var p := Refit(known, rect); p.rect == rect && |p.rows| == rect.rows && p.cols == rect.cols
  {
  }

  lemma NextTidy(s: Scene, e: Event)
    requires Tidy(s) && FromServer(s, e)
    ensures Tidy(Next(s, e))
  {
    match e
    case Layout(rows, cols, active, rects, zoom) =>
      if zoom {
        RelaidKeepsShape(s.panes, rects, zoom);
      } else {
        var node :| Sends(node, e);
        LayoutTidy(s, e, node);
      }
    case PaneUpdate(pane, updates, row, col, visible) =>
      var id := if pane.Some? then pane.value else s.active;
      if id in s.panes {
        var p := Refresh(s.panes[id], updates, row, col, visible);
        WithPaneSameBoxes(s, id, p);
        SameBoxesTidy(s, s.(panes := s.panes[id := p]));
      }
    case Snapshot(pane, height, width, cells, row, col, visible) => SnappedTidy(s, e);
  }

  lemma SnappedTidy(s: Scene, e: Event)
    requires Tidy(s) && FromServer(s, e) && e.Snapshot?
    ensures Tidy(Next(s, e))
  {
    var id := e.pane.value;
    if !s.zoomed {
      var p := Snapped(Lookup(s.panes, id), e.height, e.width, e.cells, e.row, e.col, e.visible);
      WithPaneSameBoxes(s, id, p);
      SameBoxesTidy(s, s.(panes := s.panes[id := p]));
    }
  }

  lemma {:induction false} AfterAllTidy(s: Scene, events: seq<Event>)
    requires Tidy(s) && AllFromServer(s, events)
    ensures Tidy(AfterAll(s, events))
  {
    if events != [] {
      var init := events[..|events| - 1];
      forall k | 0 <= k < |init| ensures FromServer(AfterAll(s, init[..k]), init[k]) {
        assert init[..k] == events[..k];
      }
      AfterAllTidy(s, init);
      NextTidy(AfterAll(s, events[..|events| - 1]), events[|events| - 1]);
    }
  }

  // ---- The order of messages ----

  function Target(s: Scene, e: Event): nat
    requires !e.Layout?
  {
    Named(s, e.pane)
  }

  /** Every snapshot names its pane. */
  predicate Addressed(events: seq<Event>) {
    forall k :: 0 <= k < |events| && events[k].Snapshot? ==> events[k].pane.Some?
  }

  /** The messages that concern pane `id`: its own updates and snapshots, and every layout. */
  function Thread(s: Scene, events: seq<Event>, id: nat): seq<Event> {
    if events == [] then []
    else
      var init, last := events[..|events| - 1], events[|events| - 1];
      var own := last.Layout? || Target(AfterAll(s, init), last) == id;
      Thread(s, init, id) + if own then [last] else []
  }

  /** Everything but the panes, and pane `id`. */
  ghost predicate AgreeOn(s: Scene, t: Scene, id: nat) {
    && s.rows == t.rows && s.cols == t.cols && s.active == t.active && s.zoomed == t.zoomed
    && Lookup(s.panes, id) == Lookup(t.panes, id)
  }

  lemma {:induction false} LaidAgree(p: PaneMap, q: PaneMap, rects: Panes, n: nat, id: nat)
    requires n <= |rects| && Lookup(p, id) == Lookup(q, id)
    ensures Lookup(Left(p, rects, n), id) == Lookup(Left(q, rects, n), id)
    ensures Lookup(Laid(p, rects, n), id) == Lookup(Laid(q, rects, n), id)
  {
    if n > 0 { LaidAgree(p, q, rects, n - 1, id); }
  }

  lemma NextAgree(s: Scene, t: Scene, e: Event, id: nat)
    requires AgreeOn(s, t, id) && (e.Snapshot? ==> e.pane.Some?)
    ensures AgreeOn(Next(s, e), Next(t, e), id)
  {
    if e.Layout? { LaidAgree(s.panes, t.panes, e.rects, |e.rects|, id); }
  }

  /** A pane's content depends on its own thread alone. */
  lemma {:induction false} ThreadSuffices(s: Scene, events: seq<Event>, id: nat)
    requires Addressed(events)
    ensures AgreeOn(AfterAll(s, events), AfterAll(s, Thread(s, events, id)), id)
  {
    if events != [] {
      var init, last := events[..|events| - 1], events[|events| - 1];
      ThreadSuffices(s, init, id);
      if last.Layout? || Target(AfterAll(s, init), last) == id {
        NextAgree(AfterAll(s, init), AfterAll(s, Thread(s, init, id)), last, id);
        assert (Thread(s, init, id) + [last])[..|Thread(s, init, id)|] == Thread(s, init, id);
      } else {
        assert Thread(s, init, id) + [] == Thread(s, init, id);
      }
    }
  }

  lemma SameThreadsSameScene(s: Scene, a: seq<Event>, b: seq<Event>)
    requires Addressed(a) && Addressed(b)
    requires forall id :: Thread(s, a, id) == Thread(s, b, id)
    ensures AfterAll(s, a) == AfterAll(s, b)
  {
    var t, u := AfterAll(s, a), AfterAll(s, b);
    forall id: nat ensures AgreeOn(t, u, id) {
      ThreadSuffices(s, a, id);
      ThreadSuffices(s, b, id);
    }
    assert AgreeOn(t, u, 0);
    forall id: nat ensures id in t.panes <==> id in u.panes {
      assert AgreeOn(t, u, id);
    }
    forall id | id in t.panes ensures t.panes[id] == u.panes[id] {
      assert AgreeOn(t, u, id);
    }
    assert t.panes == u.panes;
  }

  /** Messages to different panes commute: two runs in which every pane gets the same updates
      and snapshots between the same layouts, interleaved in any way, end with the same
      composite. */
  lemma RunsConfluent(s: Scene, a: seq<Event>, b: seq<Event>, c1: seq<Row>, c2: seq<Row>)
    requires Tidy(s) && AllFromServer(s, a) && Addressed(a) && Addressed(b)
    requires forall id :: Thread(s, a, id) == Thread(s, b, id)
    requires Composed(c1, AfterAll(s, a)) && Composed(c2, AfterAll(s, b))
    ensures AfterAll(s, a) == AfterAll(s, b)
    ensures IsComposite(c1, AfterAll(s, a)) && c1 == c2
  {
    SameThreadsSameScene(s, a, b);
    AfterAllTidy(s, a);
    ComposedUnique(c1, c2, AfterAll(s, a));
  }

  lemma HasIdNext(rects: Panes, i: nat)
    requires i < |rects|
    ensures forall id :: HasId(rects[..i + 1], id) <==> HasId(rects[..i], id) || id == rects[i].id
  {
    var all := rects[..i + 1];
    assert all == rects[..i] + [rects[i]];
    forall id ensures HasId(all, id) <==> HasId(rects[..i], id) || id == rects[i].id {
      if HasId(rects[..i], id) {
        var k :| 0 <= k < i && rects[..i][k].id == id;
        assert all[k].id == id;
      }
      if id == rects[i].id { assert all[i].id == id; }
    }
  }

  class WindowView {
    var winRows: nat
    var winCols: nat
    var activePane: nat
    var panes: PaneMap
    var zoomed: bool
    var cells: seq<Row>
    var dirty: seq<bool>
    var cursorRow: nat
    var cursorCol: nat
    var cursorVisible: bool

    function View(): Scene
      reads this
    {
      Scene(winRows, winCols, panes, activePane, zoomed)
    }

    ghost predicate Valid()
      reads this
    {
      && Framed(cells, View())
      && |dirty| == |cells|
      && CursorOnActive()
    }

    /** The composite shows the current panes. */
    ghost predicate Exact()
      reads this
    {
      Composed(cells, View())
    }

    predicate CursorOnActive()
      reads this
    {
      activePane in panes ==>
        var p := panes[activePane];
        cursorRow == p.rect.y + p.curRow && cursorCol == p.rect.x + p.curCol && cursorVisible == p.visible
    }

    /** `single`: one pane, number 0, filling the window. */
    constructor Single(rows: nat, cols: nat)
      ensures Valid() && Exact()
      ensures View() == Scene(Max(rows, 1), Max(cols, 1), map[0 := Refit(None, Rect(0, 0, cols, rows))], 0, false)
      ensures rows >= 1 && cols >= 1 ==> Tidy(View())
    {
      winRows, winCols, activePane, zoomed := Max(rows, 1), Max(cols, 1), 0, false;
      panes := map[0 := Refit(None, Rect(0, 0, cols, rows))];
      cells := BlankRows(Max(rows, 1), Max(cols, 1));
      dirty := seq(Max(rows, 1), _ => true);
      cursorRow, cursorCol, cursorVisible := 0, 0, true;
    }

    /** The renderer takes the dirty flags. */
    method TakeFlags()
      requires Valid()
      modifies this`dirty
      ensures Valid() && |dirty| == |cells| && forall r :: 0 <= r < |dirty| ==> !dirty[r]
      ensures old(Exact()) ==> Exact()
    {
      dirty := seq(|cells|, _ => false);
    }

    method MarkAllDirty()
      requires Valid()
      modifies this`dirty
      ensures Valid() && |dirty| == |cells| && forall r :: 0 <= r < |dirty| ==> dirty[r]
      ensures old(Exact()) ==> Exact()
    {
      dirty := seq(|cells|, _ => true);
    }

    method SyncActiveCursor()
      modifies this`cursorRow, this`cursorCol, this`cursorVisible
      ensures CursorOnActive()
      ensures old(CursorOnActive()) ==>
        cursorRow == old(cursorRow) && cursorCol == old(cursorCol) && cursorVisible == old(cursorVisible)
    {
      if activePane in panes {
        var p := panes[activePane];
        cursorRow, cursorCol, cursorVisible := p.rect.y + p.curRow, p.rect.x + p.curCol, p.visible;
      }
    }

    method RecomposeCells()
      requires Rectangular(panes)
      modifies this`cells, this`dirty
      ensures Composed(cells, View())
      ensures |dirty| == |cells| && forall r :: 0 <= r < |dirty| ==> dirty[r]
      ensures old(Composed(cells, View())) && Tidy(View()) ==> cells == old(cells)
    {
      cells := Rebuild(cells, View());
      dirty := seq(|cells|, _ => true);
    }

    /** Full recompose. On a composite kept up to date it changes no cell and no cursor. */
    method RebuildComposite()
      requires Rectangular(panes)
      modifies this`cells, this`dirty, this`cursorRow, this`cursorCol, this`cursorVisible
      ensures Valid() && Exact()
      ensures forall r :: 0 <= r < |dirty| ==> dirty[r]
      ensures old(Composed(cells, View())) && Tidy(View()) ==> cells == old(cells)
      ensures old(CursorOnActive() && Shape(cells, winRows, winCols)) ==>
        cursorRow == old(cursorRow) && cursorCol == old(cursorCol) && cursorVisible == old(cursorVisible)
    {
      if |cells| != winRows || (winRows > 0 && |cells[0]| != winCols) {
        cursorRow, cursorCol, cursorVisible := 0, 0, true;
      }
      RecomposeCells();
      SyncActiveCursor();
    }

    /** Store a known pane's new content and show it. */
    method StorePane(id: nat, updates: seq<Update>, row: nat, col: nat, visible: bool)
      requires id in panes && Framed(cells, View()) && |dirty| == |cells|
      modifies this`panes, this`cells, this`dirty
      ensures panes == old(panes)[id := Refresh(old(panes)[id], updates, row, col, visible)]
      ensures Framed(cells, View()) && (old(Exact()) ==> Exact())
      ensures |dirty| == |cells| && Tracked(old(cells), old(dirty), cells, dirty)
    {
      var s := View();
      var rows := ApplyRows(panes[id].rows, updates);
      var p := panes[id].(rows := rows, curRow := row, curCol := col, visible := visible);
      var after, flags := Redraw(cells, dirty, s, id, p, updates);
      UpdateComposed(cells, after, s, id, p, updates, row, col, visible);
      panes, cells, dirty := panes[id := p], after, flags;
    }

    method ApplyPaneUpdate(pane: Option<nat>, updates: seq<Update>, row: nat, col: nat, visible: bool)
      requires Valid()
      modifies this`panes, this`cells, this`dirty, this`cursorRow, this`cursorCol, this`cursorVisible
      ensures Valid() && (old(Exact()) ==> Exact())
      ensures Tracked(old(cells), old(dirty), cells, dirty)
      ensures panes == Updated(old(panes), if pane.Some? then pane.value else activePane, updates, row, col, visible)
    {
      var id := if pane.Some? then pane.value else activePane;
      if id !in panes { return; }
      StorePane(id, updates, row, col, visible);
      if id == activePane { SyncActiveCursor(); }
    }

    /** A layout message: the panes keep their content when their id stays, and while zoomed the
        panes out of sight are kept too. */
    method ApplyLayout(rows: nat, cols: nat, active: nat, rects: Panes, zoom: bool)
      requires Rectangular(panes)
      modifies this
      ensures Valid() && Exact()
      ensures View() == Next(old(View()), Layout(rows, cols, active, rects, zoom))
      ensures forall r :: 0 <= r < |dirty| ==> dirty[r]
    {
      winRows, winCols, activePane, zoomed := Max(rows, 1), Max(cols, 1), active, zoom;
      RelaidKeepsShape(panes, rects, zoom);
      panes := LayOut(panes, rects, zoom);
      RebuildComposite();
    }

    /** A snapshot of one pane, drawn over what is there. */
    method ApplyPaneSnapshot(pane: Option<nat>, height: nat, width: nat, content: Row, row: nat, col: nat,
        visible: bool)
      requires Valid()
      modifies this
      ensures Valid()
      ensures var e := Snapshot(pane, height, width, content, row, col, visible);
        View() == Next(old(View()), e) && (StaysExact(old(View()), e, old(Exact())) ==> Exact())
      ensures forall r :: 0 <= r < |dirty| ==> dirty[r]
    {
      ghost var s, e := View(), Snapshot(pane, height, width, content, row, col, visible);
      if pane.None? && |panes| <= 1 {
        var p := SnapPane(None, height, width, content, row, col, visible);
        ResetView(height, width, p);
      } else {
        var id := if pane.Some? then pane.value else activePane;
        var p := SnapPane(Lookup(panes, id), height, width, content, row, col, visible);
        if StaysExact(s, e, Exact()) { SnapshotKeeps(s, e, id, p, Exact()); }
        ShowSnapshot(id, p);
      }
    }

    /** A view of this one pane, number 0. */
    method ResetView(height: nat, width: nat, p: PaneView)
      requires forall r :: 0 <= r < |p.rows| ==> |p.rows[r]| == p.cols
      modifies this
      ensures Valid() && Exact() && View() == Scene(Max(height, 1), Max(width, 1), map[0 := p], 0, false)
      ensures forall r :: 0 <= r < |dirty| ==> dirty[r]
    {
      winRows, winCols, activePane, zoomed, panes := Max(height, 1), Max(width, 1), 0, false, map[0 := p];
      RebuildComposite();
    }

    /** Store a pane and draw it over the composite, and the borders over that. */
    method ShowSnapshot(id: nat, p: PaneView)
      requires Valid() && forall r :: 0 <= r < |p.rows| ==> |p.rows[r]| == p.cols
      modifies this`panes, this`cells, this`dirty, this`cursorRow, this`cursorCol, this`cursorVisible
      ensures Valid() && panes == old(panes)[id := p]
      ensures old(Exact()) && old(id in panes && SameBox(panes[id], p) && Drawn(View(), id)) ==> Exact()
      ensures zoomed && id == activePane && FillsWindow(p, winRows, winCols) ==> Exact()
      ensures forall r :: 0 <= r < |dirty| ==> dirty[r]
    {
      var s := View();
      var t := s.(panes := s.panes[id := p]);
      cells := DrawSnapshot(cells, s, t, id, p);
      panes := panes[id := p];
      SyncActiveCursor();
      dirty := seq(|cells|, _ => true);
    }

    /** Every run of messages ends with the composite of the panes, as a full recompose would
        build it, but for snapshots of panes out of sight or out of size since the last layout. */
    method Run(events: seq<Event>)
      requires Valid()
      modifies this
      ensures Valid() && View() == AfterAll(old(View()), events)
      ensures ExactAfter(old(View()), events, old(Exact())) ==> Exact()
      ensures Tracked(old(cells), old(dirty), cells, dirty)
      ensures old(Tidy(View())) && AllFromServer(old(View()), events) ==>
        Tidy(View()) && (ExactAfter(old(View()), events, old(Exact())) ==> IsComposite(cells, View()))
    {
      if Tidy(View()) && AllFromServer(View(), events) { AfterAllTidy(View(), events); }
      ghost var exact := Exact();
      for k := 0 to |events|
        invariant Valid() && View() == AfterAll(old(View()), events[..k])
        invariant ExactAfter(old(View()), events[..k], exact) ==> Exact()
        invariant Tracked(old(cells), old(dirty), cells, dirty)
      {
        ghost var rows0, dirty0 := cells, dirty;
        assert events[..k + 1][..k] == events[..k];
        Apply(events[k]);
        TrackedTransitive(old(cells), old(dirty), rows0, dirty0, cells, dirty);
      }
      assert events[..|events|] == events;
    }

    /** One message. */
    method Apply(e: Event)
      requires Valid()
      modifies this
      ensures Valid() && View() == Next(old(View()), e) && (StaysExact(old(View()), e, old(Exact())) ==> Exact())
      ensures Tracked(old(cells), old(dirty), cells, dirty)
    {
      match e
      case Layout(rows, cols, active, rects, zoom) => ApplyLayout(rows, cols, active, rects, zoom);
      case PaneUpdate(pane, updates, row, col, visible) => ApplyPaneUpdate(pane, updates, row, col, visible);
      case Snapshot(pane, height, width, content, row, col, visible) =>
        ApplyPaneSnapshot(pane, height, width, content, row, col, visible);
    }
  }

  /** Why a snapshot stays exact: the pane is visible and keeps its size, or fills the window. */
  lemma SnapshotKeeps(s: Scene, e: Event, id: nat, p: PaneView, exact: bool)
    requires e.Snapshot? && !IsLegacy(s, e) && id == Named(s, e.pane) && StaysExact(s, e, exact)
    requires p == Snapped(Lookup(s.panes, id), e.height, e.width, e.cells, e.row, e.col, e.visible)
    ensures (exact && id in s.panes && SameBox(s.panes[id], p) && Drawn(s, id))
         || (s.zoomed && id == s.active && FillsWindow(p, s.rows, s.cols))
  {
  }

  /** After a layout, snapshots of unzoomed panes keep the composite exact. */
  lemma {:induction false} LayoutBatchExact(s: Scene, layout: Event, snaps: seq<Event>, exact: bool)
    requires layout.Layout? && !layout.zoomed && AllFromServer(s, [layout] + snaps)
    requires forall k :: 0 <= k < |snaps| ==> snaps[k].Snapshot?
    ensures ExactAfter(s, [layout] + snaps, exact) && !AfterAll(s, [layout] + snaps).zoomed
    decreases |snaps|
  {
    var all := [layout] + snaps;
    var init := all[..|all| - 1];
    assert AfterAll(s, []) == s && [layout][..0] == [];
    if snaps == [] {
      assert all == [layout];
    } else {
      assert init == [layout] + snaps[..|snaps| - 1];
      forall k | 0 <= k < |init| ensures FromServer(AfterAll(s, init[..k]), init[k]) {
        assert init[..k] == all[..k];
      }
      LayoutBatchExact(s, layout, snaps[..|snaps| - 1], exact);
    }
  }

  /** While zoomed, the server sends the active pane last, in the size of the window: that
      repairs what snapshots of hidden panes have drawn over. */
  lemma ZoomedBatchExact(s: Scene, events: seq<Event>, last: Event, exact: bool)
    requires var t := AfterAll(s, events);
      && last.Snapshot? && last.pane == Some(t.active) && t.zoomed
      && t.active in t.panes && t.panes[t.active].rect.x == 0 && t.panes[t.active].rect.y == 0
      && last.height == t.rows && last.width == t.cols
    ensures ExactAfter(s, events + [last], exact)
  {
    assert (events + [last])[..|events|] == events;
  }

  /** The pane after a snapshot. */
  method SnapPane(known: Option<PaneView>, height: nat, width: nat, content: Row, row: nat, col: nat, visible: bool)
      returns (p: PaneView)
    ensures p == Snapped(known, height, width, content, row, col, visible)
  {
    var was := if known.Some? then known.value else Refit(None, Rect(0, 0, width, height));
    var grid, cols := was.rows, was.cols;
    if |grid| != height || cols != width {
      grid, cols := BlankRows(Max(height, 1), Max(width, 1)), Max(width, 1);
    }
    var rows := FillCells(grid, width, content);
    p := PaneView(was.rect.(rows := height, cols := width), rows, cols, row, col, visible);
  }

  /** `blit_pane` and `paint_borders`, for pane `p` of the new scene `t`. */
  method DrawSnapshot(cells: seq<Row>, ghost s: Scene, t: Scene, id: nat, p: PaneView) returns (after: seq<Row>)
    requires Framed(cells, s) && t == s.(panes := s.panes[id := p])
    requires forall r :: 0 <= r < |p.rows| ==> |p.rows[r]| == p.cols
    ensures Framed(after, t)
    ensures Composed(cells, s) && id in s.panes && SameBox(s.panes[id], p) && Drawn(s, id) ==> Composed(after, t)
    ensures t.zoomed && id == t.active && FillsWindow(p, t.rows, t.cols) ==> Composed(after, t)
  {
    var blitted := Blit(cells, p, Inactive(t, id));
    after := PaintBorders(blitted, t);
    if id in s.panes { SameSizeWithPane(s.panes, id, p); }
    if Composed(cells, s) && id in s.panes && SameBox(s.panes[id], p) && Drawn(s, id) {
      SnapshotInPlace(cells, blitted, s, id, p);
      BordersStand(blitted, t, after);
    }
    if t.zoomed && id == t.active && FillsWindow(p, t.rows, t.cols) { SnapshotCovers(after, t); }
  }
}
