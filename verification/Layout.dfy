/** The mutable layout of a window (src/layout/mod.rs, `Layout`). */
module Layouts {
  import opened Ints
  import opened LayoutTree
  import opened LayoutEdit

  /** `split` keeps both children visible: the nearest ratio that leaves each a twentieth. */
  function ClampRatio(ratio: real): (r: real)
    ensures 0.05 <= r <= 0.95
    ensures forall other: real {:trigger Apart(other, ratio)} ::
      0.05 <= other <= 0.95 ==> Apart(r, ratio) <= Apart(other, ratio)
  {
    if ratio < 0.05 then 0.05 else if ratio > 0.95 then 0.95 else ratio
  }

  function Apart(a: real, b: real): real {
    if a < b then b - a else a - b
  }

  /** Axis and signed change of `resize-pane -L/-R/-U/-D`. */
  function BorderChange(dir: FocusDir, amount: int): (SplitDir, int) {
    match dir
    case Right => (Horizontal, amount)
    case Left => (Horizontal, -amount)
    case Down => (Vertical, amount)
    case Up => (Vertical, -amount)
  }

  // ---- Border resize in coordinates ----

  /** The child's box of a split that holds the pane. */
  function SideOf(split: Node, pane: nat, box: Rect): Rect
    requires split.Split?
  {
    var (a, b) := SplitRect(box, split.dir, split.ratio);
    if pane in Ids(split.first) then a else b
  }

  /** Right and Down grow the pane's side by `amount`, Left and Up shrink it, within what leaves
      the other side a cell. */
  function WantedSide(side: Rect, dir: FocusDir, amount: int, box: Rect): int {
    match dir
    case Right => Clamp(side.cols + amount, 1, box.cols - 2)
    case Left => Clamp(side.cols - amount, 1, box.cols - 2)
    case Down => Clamp(side.rows + amount, 1, box.rows - 2)
    case Up => Clamp(side.rows - amount, 1, box.rows - 2)
  }

  /** A split that divides left from right can move for Left and Right, if it has three columns and
      its side is not yet as wanted; likewise for Up and Down. */
  predicate CanMoveHere(node: Node, pane: nat, dir: FocusDir, amount: int, box: Rect) {
    && node.Split? && pane in Ids(node)
    && match dir
       case Left | Right =>
         && node.dir == Horizontal && box.cols >= 3
         && WantedSide(SideOf(node, pane, box), dir, amount, box) != SideOf(node, pane, box).cols
       case Up | Down =>
         && node.dir == Vertical && box.rows >= 3
         && WantedSide(SideOf(node, pane, box), dir, amount, box) != SideOf(node, pane, box).rows
  }

  /** Some split above the pane can move. */
  predicate CanMove(node: Node, pane: nat, dir: FocusDir, amount: int, area: Rect) {
    match node
    case Leaf(_) => false
    case Split(d, r, first, second) =>
      var (a, b) := SplitRect(area, d, r);
      || CanMoveHere(node, pane, dir, amount, area)
      || CanMove(first, pane, dir, amount, a) || CanMove(second, pane, dir, amount, b)
  }

  /** The split can move and no split nearer to the pane can. */
  predicate NearestMovable(split: Node, pane: nat, dir: FocusDir, amount: int, box: Rect) {
    && CanMoveHere(split, pane, dir, amount, box)
    && var (a, b) := SplitRect(box, split.dir, split.ratio);
      !CanMove(split.first, pane, dir, amount, a) && !CanMove(split.second, pane, dir, amount, b)
  }

  /** One border moved, the nearest that can: the pane's side of that split has the wanted size,
      and all panes outside the split stand where they stood. */
  ghost predicate BorderMoved(before: Node, after: Node, pane: nat, dir: FocusDir, amount: int, area: Rect) {
    exists split: Node, split': Node, box: Rect, k: nat ::
      && IsChange(before, after, area, split, split', box, k)
      && NearestMovable(split, pane, dir, amount, box) && split'.Split? && split' == split.(ratio := split'.ratio)
      && (match dir
          case Left | Right => SideOf(split', pane, box).cols == WantedSide(SideOf(split, pane, box), dir, amount, box)
          case Up | Down => SideOf(split', pane, box).rows == WantedSide(SideOf(split, pane, box), dir, amount, box))
  }

  lemma HereMeans(node: Node, pane: nat, dir: FocusDir, amount: int, box: Rect)
    ensures var (axis, change) := BorderChange(dir, amount);
      CanMoveHere(node, pane, dir, amount, box) <==> MovableHere(node, pane, axis, change, box)
  {
  }

  lemma {:induction false} CanMoveMeans(node: Node, pane: nat, dir: FocusDir, amount: int, area: Rect)
    ensures var (axis, change) := BorderChange(dir, amount);
      CanMove(node, pane, dir, amount, area) <==> Movable(node, pane, axis, change, area)
  {
    match node
    case Leaf(_) =>
    case Split(d, r, first, second) =>
      var (a, b) := SplitRect(area, d, r);
      HereMeans(node, pane, dir, amount, area);
      CanMoveMeans(first, pane, dir, amount, a);
      CanMoveMeans(second, pane, dir, amount, b);
  }

  lemma MovedSide(split: Node, split': Node, pane: nat, dir: FocusDir, amount: int, box: Rect)
    requires var (axis, change) := BorderChange(dir, amount); MovedHere(split, split', pane, axis, change, box)
    ensures NearestMovable(split, pane, dir, amount, box) && split'.Split? && split' == split.(ratio := split'.ratio)
    ensures match dir
      case Left | Right => SideOf(split', pane, box).cols == WantedSide(SideOf(split, pane, box), dir, amount, box)
      case Up | Down => SideOf(split', pane, box).rows == WantedSide(SideOf(split, pane, box), dir, amount, box)
  {
    HereMeans(split, pane, dir, amount, box);
    var (a, b) := SplitRect(box, split.dir, split.ratio);
    CanMoveMeans(split.first, pane, dir, amount, a);
    CanMoveMeans(split.second, pane, dir, amount, b);
  }

  lemma MovedMeans(before: Node, after: Node, pane: nat, dir: FocusDir, amount: int, area: Rect)
    requires var (axis, change) := BorderChange(dir, amount); Moved(before, after, pane, axis, change, area)
    ensures BorderMoved(before, after, pane, dir, amount, area) && Ids(before) == Ids(after)
  {
    var (axis, change) := BorderChange(dir, amount);
    var split, split', box, k := OthersStayPut(before, after, pane, axis, change, area);
    MovedSide(split, split', pane, dir, amount, box);
  }

  class Layout {
    var root: Node

    constructor (id: nat)
      ensures root == Leaf(id)
    {
      root := Leaf(id);
    }

    /** Put the leaf `added` beside `target`; the inverse of `Remove(added)`. */
    method Split(target: nat, dir: SplitDir, added: nat, ratio: real) returns (ok: bool)
      modifies this
      ensures (root, ok) == SplitNode(old(root), target, dir, added, ClampRatio(ratio))
      ensures ok <==> target in Ids(old(root))
      ensures ok ==> Inserted(Ids(old(root)), Ids(root), target, added)
      ensures ok ==> SplitsPane(old(root), root, target, dir, added, ClampRatio(ratio))
      ensures ok && added !in Ids(old(root)) ==> RemoveNode(root, added) == (old(root), true)
      ensures !ok ==> root == old(root)
    {
      SplitNodeIds(root, target, dir, added, ClampRatio(ratio));
      if target in Ids(root) { SplitSplitsPane(root, target, dir, added, ClampRatio(ratio)); }
      if target in Ids(root) && added !in Ids(root) {
        SplitThenRemove(root, target, dir, added, ClampRatio(ratio));
      }
      var (root', ok') := SplitNode(root, target, dir, added, ClampRatio(ratio));
      root, ok := root', ok';
    }

    /** Remove a leaf, but never the last one. */
    method Remove(id: nat) returns (ok: bool)
      modifies this
      ensures ok <==> old(root).Split? && id in Ids(old(root))
      ensures ok ==> root == RemoveNode(old(root), id).0 && Dropped(Ids(old(root)), Ids(root), id)
      ensures ok ==> LeavesBox(old(root), root, id)
      ensures !ok ==> root == old(root)
    {
      if root == Leaf(id) { return false; }
      RemoveNodeIds(root, id);
      if root.Split? && id in Ids(root) { RemoveLeavesBox(root, id); }
      var (root', ok') := RemoveNode(root, id);
      root, ok := root', ok';
    }

    /** Move the nearest border of the pane that can move. */
    method ResizeBorder(pane: nat, dir: FocusDir, amount: int, cols: u16, rows: u16) returns (ok: bool)
      modifies this
      ensures ok <==> amount != 0 && CanMove(old(root), pane, dir, amount, Window(cols, rows))
      ensures ok ==> BorderMoved(old(root), root, pane, dir, amount, Window(cols, rows))
      ensures ok ==>
        var (axis, change) := BorderChange(dir, amount); Moved(old(root), root, pane, axis, change, Window(cols, rows))
      ensures Ids(root) == Ids(old(root))
      ensures !ok ==> root == old(root)
    {
      var (axis, change) := BorderChange(dir, amount);
      var window := Window(cols, rows);
      ChangeSizeExact(root, pane, axis, change, window);
      CanMoveMeans(root, pane, dir, amount, window);
      if pane !in Ids(root) { NotThereNotMovable(root, pane, axis, change, window); }
      if amount == 0 || !ContainsId(root, pane) { return false; }
      var (root', ok') := ChangeSize(root, pane, axis, change, window);
      if ok' { MovedMeans(root, root', pane, dir, amount, window); }
      root, ok := root', ok';
    }

    /** Overwrite the layout by a preset. */
    method Replace(node: Node)
      modifies this
      ensures root == node
    {
      root := node;
    }
  }
}
