/** The pane layout tree and its reflow into rectangles (src/layout/mod.rs). */
module LayoutTree {
  import opened Ints

  /** Horizontal: left | right.  Vertical: top / bottom. */
  datatype SplitDir = Horizontal | Vertical

  datatype FocusDir = Up | Down | Left | Right

  datatype Rect = Rect(x: nat, y: nat, cols: nat, rows: nat)

  datatype Node =
    | Leaf(id: nat)
    | Split(dir: SplitDir, ratio: real, first: Node, second: Node)

  /** A pane and where it stands. */
  datatype Placed = Placed(id: nat, rect: Rect)

  type Panes = seq<Placed>

  // ---- A rectangle along an axis ----

  function Lo(r: Rect, axis: SplitDir): nat {
    if axis == Horizontal then r.x else r.y
  }

  function Len(r: Rect, axis: SplitDir): nat {
    if axis == Horizontal then r.cols else r.rows
  }

  function Other(axis: SplitDir): SplitDir {
    if axis == Horizontal then Vertical else Horizontal
  }

  /** `r` with its extent along `axis` replaced. */
  function Along(r: Rect, axis: SplitDir, lo: nat, len: nat): Rect {
    if axis == Horizontal then r.(x := lo, cols := len) else r.(y := lo, rows := len)
  }

  predicate Contains(r: Rect, x: int, y: int) {
    r.x <= x < r.x + r.cols && r.y <= y < r.y + r.rows
  }

  predicate Nonempty(r: Rect) {
    r.cols > 0 && r.rows > 0
  }

  // ---- Splitting and reflow ----

  /** `f64::round` followed by the saturating cast `as u16`. */
  function RoundU16(x: real): u16 {
    if x < 0.0 then 0 else Min((x + 0.5).Floor, 0xffff)
  }

  /** Cells of the first child and of the divider along an axis of `total` cells. */
  function FirstLen(total: nat, ratio: real): (n: nat)
    ensures total >= 2 ==> 1 <= n && n + GapLen(total) + 1 <= total
    ensures n + GapLen(total) <= total
  {
    if total <= 2 then Max(SatSub(total, 1), if total > 0 then 1 else 0)
    else Clamp(RoundU16((total - 1) as real * ratio), 1, total - 2)
  }

  /** The first child gets the ratio's share of the cells that are not divider, to the nearest
      cell, and never less than one cell nor all; of one or two cells it gets one. */
  lemma FirstLenIsShare(total: nat, ratio: real)
    requires total <= 0xffff && 0.0 <= ratio
    ensures total <= 2 ==> FirstLen(total, ratio) == Min(total, 1)
    ensures var n, share := FirstLen(total, ratio), (total - 1) as real * ratio;
      total >= 3 ==>
        && 1 <= n <= total - 2
        && (n as real > share + 0.5 ==> n == 1)
        && (n as real <= share - 0.5 ==> n == total - 2)
  {
    if total >= 1 { assert (total - 1) as real * ratio >= 0.0; }
  }

  /** At one half, half of the cells, rounded down. */
  lemma FirstLenOfHalf(total: nat)
    requires total <= 0xffff
    ensures FirstLen(total, 0.5) == if total == 1 then 1 else total / 2
  {
  }

  function GapLen(total: nat): nat {
    if total <= 2 then 0 else 1
  }

  function SplitRect(area: Rect, dir: SplitDir, ratio: real): (Rect, Rect) {
    var total := Len(area, dir);
    var n := FirstLen(total, ratio);
    var used := n + GapLen(total);
    (Along(area, dir, Lo(area, dir), n), Along(area, dir, Lo(area, dir) + used, total - used))
  }

  /** The divider between the two children; empty when there is no room for one. */
  function Divider(area: Rect, dir: SplitDir, ratio: real): Rect {
    var total := Len(area, dir);
    Along(area, dir, Lo(area, dir) + FirstLen(total, ratio), GapLen(total))
  }

  function ReflowNode(node: Node, area: Rect): Panes {
    match node
    case Leaf(id) => [Placed(id, area)]
    case Split(dir, ratio, first, second) =>
      var (a, b) := SplitRect(area, dir, ratio);
      ReflowNode(first, a) + ReflowNode(second, b)
  }

  function Window(cols: nat, rows: nat): Rect {
    Rect(0, 0, Max(cols, 1), Max(rows, 1))
  }

  function Reflow(node: Node, cols: nat, rows: nat): Panes {
    ReflowNode(node, Window(cols, rows))
  }

  function Dividers(node: Node, area: Rect): seq<Rect> {
    match node
    case Leaf(_) => []
    case Split(dir, ratio, first, second) =>
      var (a, b) := SplitRect(area, dir, ratio);
      Dividers(first, a) + [Divider(area, dir, ratio)] + Dividers(second, b)
  }

  /** Pane ids in tree order. */
  function Ids(node: Node): (r: seq<nat>)
    ensures r != []
  {
    match node
    case Leaf(id) => [id]
    case Split(_, _, first, second) => Ids(first) + Ids(second)
  }

  ghost predicate Distinct(ids: seq<nat>) {
    forall i, j :: 0 <= i < j < |ids| ==> ids[i] != ids[j]
  }

  function IdsOf(panes: Panes): (r: seq<nat>)
    ensures |r| == |panes| && forall i :: 0 <= i < |r| ==> r[i] == panes[i].id
  {
    seq(|panes|, i requires 0 <= i < |panes| => panes[i].id)
  }

  lemma {:induction false} ReflowIds(node: Node, area: Rect)
    ensures IdsOf(ReflowNode(node, area)) == Ids(node)
  {
    match node
    case Leaf(_) =>
    case Split(dir, ratio, first, second) =>
      var (a, b) := SplitRect(area, dir, ratio);
      ReflowIds(first, a);
      ReflowIds(second, b);
      assert IdsOf(ReflowNode(first, a) + ReflowNode(second, b))
          == IdsOf(ReflowNode(first, a)) + IdsOf(ReflowNode(second, b));
  }

  // ---- Reflow tiles the window ----

  /** How many of the rectangles contain cell (x, y). */
  function Covers(rs: seq<Rect>, x: int, y: int): nat {
    if rs == [] then 0
    else Covers(rs[..|rs| - 1], x, y) + if Contains(rs[|rs| - 1], x, y) then 1 else 0
  }

  lemma {:induction false} CoversAppend(a: seq<Rect>, b: seq<Rect>, x: int, y: int)
    ensures Covers(a + b, x, y) == Covers(a, x, y) + Covers(b, x, y)
    decreases |b|
  {
    if b == [] {
      assert a + b == a;
    } else {
      CoversAppend(a, b[..|b| - 1], x, y);
      assert (a + b)[..|a + b| - 1] == a + b[..|b| - 1];
    }
  }

  /** Two rectangles of a list that share a cell cover it twice. */
  lemma {:induction false} CoversTwice(rs: seq<Rect>, i: nat, j: nat, x: int, y: int)
    requires i < j < |rs| && Contains(rs[i], x, y) && Contains(rs[j], x, y)
    ensures Covers(rs, x, y) >= 2
    decreases |rs|
  {
    var init := rs[..|rs| - 1];
    if j < |rs| - 1 {
      CoversTwice(init, i, j, x, y);
    } else {
      CoversOnce(init, i, x, y);
    }
  }

  lemma {:induction false} CoversOnce(rs: seq<Rect>, i: nat, x: int, y: int)
    requires i < |rs| && Contains(rs[i], x, y)
    ensures Covers(rs, x, y) >= 1
    decreases |rs|
  {
    if i < |rs| - 1 { CoversOnce(rs[..|rs| - 1], i, x, y); }
  }

  function RectsOf(panes: Panes): (r: seq<Rect>)
    ensures |r| == |panes| && forall i :: 0 <= i < |r| ==> r[i] == panes[i].rect
  {
    seq(|panes|, i requires 0 <= i < |panes| => panes[i].rect)
  }

  /** The two children and the divider share out the cells of the area. */
  lemma SplitCells(area: Rect, dir: SplitDir, ratio: real, x: int, y: int)
    ensures var (a, b) := SplitRect(area, dir, ratio);
      Bit(Contains(a, x, y)) + Bit(Contains(Divider(area, dir, ratio), x, y)) + Bit(Contains(b, x, y))
        == Bit(Contains(area, x, y))
  {
  }

  lemma CoversSingle(r: Rect, x: int, y: int)
    ensures Covers([r], x, y) == Bit(Contains(r, x, y))
  {
    assert [r][..0] == [];
  }

  /** Every cell of the area belongs to exactly one pane or divider, every other cell to
      none, whatever the tree, the ratios and the size. */
  lemma {:induction false} ReflowTiles(node: Node, area: Rect, x: int, y: int)
    ensures Covers(RectsOf(ReflowNode(node, area)), x, y) + Covers(Dividers(node, area), x, y)
         == Bit(Contains(area, x, y))
  {
    match node
    case Leaf(_) =>
      assert RectsOf(ReflowNode(node, area)) == [area];
      CoversSingle(area, x, y);
    case Split(dir, ratio, first, second) =>
      var (a, b) := SplitRect(area, dir, ratio);
      ReflowTiles(first, a, x, y);
      ReflowTiles(second, b, x, y);
      var pa, pb := ReflowNode(first, a), ReflowNode(second, b);
      assert RectsOf(pa + pb) == RectsOf(pa) + RectsOf(pb);
      CoversAppend(RectsOf(pa), RectsOf(pb), x, y);
      var gap, da, db := Divider(area, dir, ratio), Dividers(first, a), Dividers(second, b);
      CoversAppend(da, [gap], x, y);
      CoversAppend(da + [gap], db, x, y);
      CoversSingle(gap, x, y);
      SplitCells(area, dir, ratio, x, y);
  }

  /** Panes are pairwise disjoint and inside the area. */
  lemma PanesDisjoint(node: Node, area: Rect, i: nat, j: nat, x: int, y: int)
    requires i < |ReflowNode(node, area)| && j < |ReflowNode(node, area)|
    requires Contains(ReflowNode(node, area)[i].rect, x, y)
    ensures Contains(area, x, y)
    ensures Contains(ReflowNode(node, area)[j].rect, x, y) ==> i == j
  {
    var rs := RectsOf(ReflowNode(node, area));
    ReflowTiles(node, area, x, y);
    CoversOnce(rs, i, x, y);
    if Contains(rs[j], x, y) && i != j {
      CoversTwice(rs, if i < j then i else j, if i < j then j else i, x, y);
    }
  }

  ghost predicate Within(r: Rect, area: Rect) {
    && area.x <= r.x && r.x + r.cols <= area.x + area.cols
    && area.y <= r.y && r.y + r.rows <= area.y + area.rows
  }

  /** Two panes share the box of one, side by side: the left one has `n` columns, and one column of
      divider follows when there are three or more. */
  predicate BesideEachOther(box: Rect, a: Rect, b: Rect, n: nat) {
    && a == Rect(box.x, box.y, n, box.rows)
    && b.x == box.x + n + (if box.cols >= 3 then 1 else 0) && b.x + b.cols == box.x + box.cols
    && b.y == box.y && b.rows == box.rows
  }

  /** The same one above the other. */
  predicate AboveEachOther(box: Rect, a: Rect, b: Rect, n: nat) {
    && a == Rect(box.x, box.y, box.cols, n)
    && b.y == box.y + n + (if box.rows >= 3 then 1 else 0) && b.y + b.rows == box.y + box.rows
    && b.x == box.x && b.cols == box.cols
  }

  /** A horizontal split puts its children side by side, a vertical one above each other. */
  lemma SplitShares(box: Rect, dir: SplitDir, ratio: real)
    ensures var (a, b) := SplitRect(box, dir, ratio);
      && (dir == Horizontal ==> BesideEachOther(box, a, b, FirstLen(box.cols, ratio)))
      && (dir == Vertical ==> AboveEachOther(box, a, b, FirstLen(box.rows, ratio)))
  {
  }

  /** All coordinates stay inside the area, even for empty panes, so the source's 16-bit
      additions never overflow. */
  lemma {:induction false} PanesWithin(node: Node, area: Rect)
    ensures forall i :: 0 <= i < |ReflowNode(node, area)| ==> Within(ReflowNode(node, area)[i].rect, area)
  {
    match node
    case Leaf(_) =>
    case Split(dir, ratio, first, second) =>
      var (a, b) := SplitRect(area, dir, ratio);
      PanesWithin(first, a);
      PanesWithin(second, b);
  }

  function TotalArea(rs: seq<Rect>): nat {
    if rs == [] then 0 else TotalArea(rs[..|rs| - 1]) + rs[|rs| - 1].cols * rs[|rs| - 1].rows
  }

  lemma {:induction false} TotalAreaAppend(a: seq<Rect>, b: seq<Rect>)
    ensures TotalArea(a + b) == TotalArea(a) + TotalArea(b)
    decreases |b|
  {
    if b == [] {
      assert a + b == a;
    } else {
      TotalAreaAppend(a, b[..|b| - 1]);
      assert (a + b)[..|a + b| - 1] == a + b[..|b| - 1];
    }
  }

  lemma TotalAreaOne(r: Rect)
    ensures TotalArea([r]) == r.cols * r.rows
  {
    assert [r][..0] == [];
  }

  lemma SplitArea(area: Rect, dir: SplitDir, ratio: real)
    ensures var (a, b) := SplitRect(area, dir, ratio); var gap := Divider(area, dir, ratio);
      a.cols * a.rows + gap.cols * gap.rows + b.cols * b.rows == area.cols * area.rows
  {
    var (a, b) := SplitRect(area, dir, ratio);
    var gap := Divider(area, dir, ratio);
    if dir == Horizontal {
      Distribute(a.cols, gap.cols, b.cols, area.rows);
    } else {
      Distribute(a.rows, gap.rows, b.rows, area.cols);
    }
  }

  lemma Distribute(a: nat, g: nat, b: nat, d: nat)
    ensures (a + g + b) * d == a * d + g * d + b * d
  {
  }

  /** Pane area plus divider area is the window area. */
  lemma {:induction false} AreaConserved(node: Node, area: Rect)
    ensures TotalArea(RectsOf(ReflowNode(node, area))) + TotalArea(Dividers(node, area)) == area.cols * area.rows
  {
    match node
    case Leaf(_) =>
      assert RectsOf(ReflowNode(node, area)) == [area];
      TotalAreaOne(area);
    case Split(dir, ratio, first, second) =>
      var (a, b) := SplitRect(area, dir, ratio);
      var gap := Divider(area, dir, ratio);
      AreaConserved(first, a);
      AreaConserved(second, b);
      var pa, pb := ReflowNode(first, a), ReflowNode(second, b);
      assert RectsOf(pa + pb) == RectsOf(pa) + RectsOf(pb);
      TotalAreaAppend(RectsOf(pa), RectsOf(pb));
      TotalAreaAppend(Dividers(first, a), [gap]);
      TotalAreaAppend(Dividers(first, a) + [gap], Dividers(second, b));
      TotalAreaOne(gap);
      SplitArea(area, dir, ratio);
  }

  /** Every split has at least two cells to share out. */
  predicate Roomy(node: Node, area: Rect) {
    match node
    case Leaf(_) => true
    case Split(dir, ratio, first, second) =>
      var (a, b) := SplitRect(area, dir, ratio);
      Len(area, dir) >= 2 && Roomy(first, a) && Roomy(second, b)
  }

  predicate AllNonempty(panes: Panes) {
    forall i :: 0 <= i < |panes| ==> Nonempty(panes[i].rect)
  }

  lemma {:induction false} EmptyAreaEmptyPanes(node: Node, area: Rect)
    requires !Nonempty(area)
    ensures ReflowNode(node, area) != [] && !AllNonempty(ReflowNode(node, area))
  {
    match node
    case Leaf(_) =>
      assert ReflowNode(node, area)[0].rect == area;
    case Split(dir, ratio, first, second) =>
      var (a, b) := SplitRect(area, dir, ratio);
      var pa, pb := ReflowNode(first, a), ReflowNode(second, b);
      EmptyAreaEmptyPanes(first, a);
      var k :| 0 <= k < |pa| && !Nonempty(pa[k].rect);
      assert (pa + pb)[k] == pa[k];
  }

  /** All panes are at least 1x1 exactly when no split is left with fewer than two cells. */
  lemma {:induction false} NonemptyIffRoomy(node: Node, area: Rect)
    requires Nonempty(area)
    ensures AllNonempty(ReflowNode(node, area)) <==> Roomy(node, area)
  {
    match node
    case Leaf(_) =>
    case Split(dir, ratio, first, second) =>
      var (a, b) := SplitRect(area, dir, ratio);
      var pa, pb := ReflowNode(first, a), ReflowNode(second, b);
      var all := ReflowNode(node, area);
      assert forall k :: 0 <= k < |pa| ==> all[k] == pa[k];
      assert forall k :: 0 <= k < |pb| ==> all[|pa| + k] == pb[k];
      assert AllNonempty(all) <==> AllNonempty(pa) && AllNonempty(pb) by {
        if AllNonempty(pa) && AllNonempty(pb) {
          forall k | 0 <= k < |all| ensures Nonempty(all[k].rect) {
            if k >= |pa| { assert all[k] == pb[k - |pa|]; }
          }
        }
      }
      if Len(area, dir) >= 2 {
        NonemptyIffRoomy(first, a);
        NonemptyIffRoomy(second, b);
      } else {
        EmptyAreaEmptyPanes(second, b);
      }
  }
}
