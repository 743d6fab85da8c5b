/** Directional focus: the pane next to a pane (src/layout/mod.rs, `neighbor`). */
module LayoutFocus {
  import opened Ints
  import opened Wrappers
  import opened LayoutTree
  import opened LayoutFormat

  // ---- What makes a neighbour ----

  function Axis(dir: FocusDir): SplitDir {
    if dir == Left || dir == Right then Horizontal else Vertical
  }

  /** Whether the direction points to larger coordinates. */
  predicate Forward(dir: FocusDir) {
    dir == Right || dir == Down
  }

  function Edge(r: Rect, axis: SplitDir, forward: bool): nat {
    if forward then Lo(r, axis) + Len(r, axis) else Lo(r, axis)
  }

  /** Cells between `src` and `r` along the travel axis. */
  function Primary(src: Rect, r: Rect, dir: FocusDir): int {
    if Forward(dir) then Edge(r, Axis(dir), false) - Edge(src, Axis(dir), true)
    else Edge(src, Axis(dir), false) - Edge(r, Axis(dir), true)
  }

  function Center(r: Rect, axis: SplitDir): int {
    Lo(r, axis) + Len(r, axis) / 2
  }

  /** Distance of the centres across the travel axis. */
  function Secondary(src: Rect, r: Rect, dir: FocusDir): nat {
    var cross := Other(Axis(dir));
    Abs(Center(src, cross) - Center(r, cross))
  }

  /** `ranges_overlap`, along one axis. */
  predicate Overlap(a: Rect, b: Rect, axis: SplitDir) {
    && Lo(a, axis) < SatAdd16(Lo(b, axis), Len(b, axis))
    && Lo(b, axis) < SatAdd16(Lo(a, axis), Len(a, axis))
  }

  predicate Candidate(panes: Panes, from: nat, src: Rect, dir: FocusDir, j: nat)
    requires j < |panes|
  {
    && panes[j].id != from
    && Primary(src, panes[j].rect, dir) >= 1
    && Overlap(src, panes[j].rect, Other(Axis(dir)))
  }

  /** Pane `j` ranks before pane `k`: nearer, then closer to the centre line. */
  predicate Before(panes: Panes, src: Rect, dir: FocusDir, j: nat, k: nat)
    requires j < |panes| && k < |panes|
  {
    var pj, pk := Primary(src, panes[j].rect, dir), Primary(src, panes[k].rect, dir);
    pj < pk || (pj == pk && Secondary(src, panes[j].rect, dir) < Secondary(src, panes[k].rect, dir))
  }

  /** Pane `k` is a candidate among the first `n`, none of which ranks before it, and it comes
      first among equals. */
  ghost predicate Best(panes: Panes, from: nat, src: Rect, dir: FocusDir, n: nat, k: nat) {
    && k < n <= |panes| && Candidate(panes, from, src, dir, k)
    && (forall j :: 0 <= j < n && Candidate(panes, from, src, dir, j) ==> !Before(panes, src, dir, j, k))
    && (forall j :: 0 <= j < k && Candidate(panes, from, src, dir, j) ==> Before(panes, src, dir, k, j))
  }

  ghost predicate NoCandidate(panes: Panes, from: nat, src: Rect, dir: FocusDir) {
    forall j :: 0 <= j < |panes| ==> !Candidate(panes, from, src, dir, j)
  }

  /** The scanning loop of `neighbor`. */
  method Nearest(panes: Panes, from: nat, src: Rect, dir: FocusDir) returns (best: Option<nat>)
    ensures best.None? <==> NoCandidate(panes, from, src, dir)
    ensures best.Some? ==> Best(panes, from, src, dir, |panes|, best.value)
  {
    best := None;
    for j := 0 to |panes|
      invariant best.None? <==> forall i :: 0 <= i < j ==> !Candidate(panes, from, src, dir, i)
      invariant best.Some? ==> Best(panes, from, src, dir, j, best.value)
    {
      if Candidate(panes, from, src, dir, j) {
        if best.None? || Before(panes, src, dir, j, best.value) {
          best := Some(j);
        }
      }
    }
  }

  // ---- Soundness and completeness ----

  /** Every split has room for a divider and two children. */
  predicate NoDegenerate(node: Node, area: Rect) {
    match node
    case Leaf(_) => true
    case Split(dir, ratio, first, second) =>
      var (a, b) := SplitRect(area, dir, ratio);
      Len(area, dir) >= 3 && NoDegenerate(first, a) && NoDegenerate(second, b)
  }

  /** `r` lies along that edge of `area` and covers position `p` of it. */
  predicate Covering(r: Rect, area: Rect, axis: SplitDir, forward: bool, p: nat) {
    && Edge(r, axis, forward) == Edge(area, axis, forward)
    && Lo(r, Other(axis)) <= p < Lo(r, Other(axis)) + Len(r, Other(axis))
  }

  /** The children of a roomy split: side by side with one cell between them. */
  lemma Children(area: Rect, dir: SplitDir, ratio: real)
    requires Len(area, dir) >= 3 && Nonempty(area)
    ensures var (a, b) := SplitRect(area, dir, ratio);
      && Nonempty(a) && Nonempty(b)
      && Lo(a, dir) == Lo(area, dir) && Edge(a, dir, true) + 1 == Lo(b, dir)
      && Edge(b, dir, true) == Edge(area, dir, true)
      && Lo(a, Other(dir)) == Lo(b, Other(dir)) == Lo(area, Other(dir))
      && Len(a, Other(dir)) == Len(b, Other(dir)) == Len(area, Other(dir))
  {
  }

  /** A corner cell of an area always belongs to a pane. */
  lemma {:induction false} CornerCovered(node: Node, area: Rect, axis: SplitDir, forward: bool, p: nat) returns (j: nat)
    requires NoDegenerate(node, area) && Nonempty(area)
    requires p == Lo(area, Other(axis)) || p + 1 == Edge(area, Other(axis), true)
    ensures j < |ReflowNode(node, area)| && Covering(ReflowNode(node, area)[j].rect, area, axis, forward, p)
  {
    match node
    case Leaf(_) => j := 0;
    case Split(dir, ratio, first, second) =>
      var (a, b) := SplitRect(area, dir, ratio);
      Children(area, dir, ratio);
      if (if dir == axis then !forward else p == Lo(area, dir)) {
        j := CornerCovered(first, a, axis, forward, p);
      } else {
        j := CornerCovered(second, b, axis, forward, p);
        j := |ReflowNode(first, a)| + j;
      }
  }

  /** Of two adjacent cells along an edge of an area, one belongs to a pane: dividers that
      reach the edge are one cell wide and never adjacent. */
  lemma {:induction false} PairCovered(node: Node, area: Rect, axis: SplitDir, forward: bool, p: nat)
    returns (j: nat, q: nat)
    requires NoDegenerate(node, area) && Nonempty(area)
    requires Lo(area, Other(axis)) <= p && p + 1 < Edge(area, Other(axis), true)
    ensures (q == p || q == p + 1)
    ensures j < |ReflowNode(node, area)| && Covering(ReflowNode(node, area)[j].rect, area, axis, forward, q)
    decreases node, 1
  {
    match node
    case Leaf(_) => j, q := 0, p;
    case Split(dir, ratio, first, second) =>
      var (a, b) := SplitRect(area, dir, ratio);
      Children(area, dir, ratio);
      if dir != axis {
        j, q := PairInStack(node, area, axis, forward, p);
      } else if forward {
        j, q := PairCovered(second, b, axis, forward, p);
        j := |ReflowNode(first, a)| + j;
      } else {
        j, q := PairCovered(first, a, axis, forward, p);
      }
  }

  /** The same for a split across the travel axis: the pair is in one child, or straddles the
      end of the divider, next to a corner of a child. */
  lemma {:induction false} PairInStack(node: Node, area: Rect, axis: SplitDir, forward: bool, p: nat)
    returns (j: nat, q: nat)
    requires NoDegenerate(node, area) && Nonempty(area) && node.Split? && node.dir != axis
    requires Lo(area, Other(axis)) <= p && p + 1 < Edge(area, Other(axis), true)
    ensures (q == p || q == p + 1)
    ensures j < |ReflowNode(node, area)| && Covering(ReflowNode(node, area)[j].rect, area, axis, forward, q)
    decreases node, 0
  {
    var (a, b) := SplitRect(area, node.dir, node.ratio);
    Children(area, node.dir, node.ratio);
    var inFirst := p + 1 <= Edge(a, node.dir, true);
    if p + 1 < Edge(a, node.dir, true) {
      j, q := PairCovered(node.first, a, axis, forward, p);
    } else if p < Edge(a, node.dir, true) {
      q := p;
      j := CornerCovered(node.first, a, axis, forward, p);
    } else if p < Lo(b, node.dir) {
      q := p + 1;
      j := CornerCovered(node.second, b, axis, forward, q);
    } else {
      j, q := PairCovered(node.second, b, axis, forward, p);
    }
    if !inFirst { j := |ReflowNode(node.first, a)| + j; }
  }

  /** `r` faces `s` across exactly one divider cell. */
  predicate AcrossDivider(s: Rect, r: Rect, axis: SplitDir, forward: bool) {
    && (if forward then Edge(r, axis, false) == Edge(s, axis, true) + 1
        else Edge(r, axis, true) + 1 == Edge(s, axis, false))
    && Lo(s, Other(axis)) < Edge(r, Other(axis), true)
    && Lo(r, Other(axis)) < Edge(s, Other(axis), true)
  }

  lemma WithinAt(node: Node, area: Rect, i: nat)
    requires i < |ReflowNode(node, area)|
    ensures Within(ReflowNode(node, area)[i].rect, area)
  {
    PanesWithin(node, area);
  }

  /** A pane at the near edge of one child, at least two cells across, faces a pane of the
      other child. */
  lemma FacesOtherChild(s: Rect, mine: Rect, other: Node, theirs: Rect, axis: SplitDir, forward: bool) returns (j: nat)
    requires NoDegenerate(other, theirs) && Nonempty(theirs) && Within(s, mine) && Len(s, Other(axis)) >= 2
    requires Lo(mine, Other(axis)) == Lo(theirs, Other(axis)) && Len(mine, Other(axis)) == Len(theirs, Other(axis))
    requires Edge(s, axis, forward) == Edge(mine, axis, forward)
    requires if forward then Edge(theirs, axis, false) == Edge(mine, axis, true) + 1
             else Edge(theirs, axis, true) + 1 == Edge(mine, axis, false)
    ensures j < |ReflowNode(other, theirs)|
    ensures AcrossDivider(s, ReflowNode(other, theirs)[j].rect, axis, forward)
  {
    var q;
    j, q := PairCovered(other, theirs, axis, !forward, Lo(s, Other(axis)));
  }

  /** A pane of at least two cells across that does not touch the edge of the area faces
      another pane across one divider. */
  lemma {:induction false} FacesPane(node: Node, area: Rect, i: nat, axis: SplitDir, forward: bool) returns (j: nat)
    requires NoDegenerate(node, area) && Nonempty(area) && i < |ReflowNode(node, area)|
    requires Len(ReflowNode(node, area)[i].rect, Other(axis)) >= 2
    requires Edge(ReflowNode(node, area)[i].rect, axis, forward) != Edge(area, axis, forward)
    ensures j < |ReflowNode(node, area)|
    ensures AcrossDivider(ReflowNode(node, area)[i].rect, ReflowNode(node, area)[j].rect, axis, forward)
    decreases node, 1
  {
    match node
    case Leaf(_) => assert false;
    case Split(dir, ratio, first, second) =>
      var (a, b) := SplitRect(area, dir, ratio);
      if i < |ReflowNode(first, a)| {
        j := FacesFromFirst(node, area, i, axis, forward);
      } else {
        j := FacesFromSecond(node, area, i - |ReflowNode(first, a)|, axis, forward);
      }
  }

  lemma {:induction false} FacesFromFirst(node: Node, area: Rect, i: nat, axis: SplitDir, forward: bool)
    returns (j: nat)
    requires node.Split? && NoDegenerate(node, area) && Nonempty(area)
    requires var (a, b) := SplitRect(area, node.dir, node.ratio);
      && i < |ReflowNode(node.first, a)|
      && Len(ReflowNode(node.first, a)[i].rect, Other(axis)) >= 2
      && Edge(ReflowNode(node.first, a)[i].rect, axis, forward) != Edge(area, axis, forward)
    ensures var (a, b) := SplitRect(area, node.dir, node.ratio);
      && j < |ReflowNode(node, area)|
      && AcrossDivider(ReflowNode(node.first, a)[i].rect, ReflowNode(node, area)[j].rect, axis, forward)
    decreases node, 0
  {
    var (a, b) := SplitRect(area, node.dir, node.ratio);
    Children(area, node.dir, node.ratio);
    var s := ReflowNode(node.first, a)[i].rect;
    if node.dir == axis && Edge(s, axis, forward) == Edge(a, axis, forward) {
      WithinAt(node.first, a, i);
      j := FacesOtherChild(s, a, node.second, b, axis, forward);
      j := |ReflowNode(node.first, a)| + j;
    } else {
      j := FacesPane(node.first, a, i, axis, forward);
    }
  }

  lemma {:induction false} FacesFromSecond(node: Node, area: Rect, i: nat, axis: SplitDir, forward: bool)
    returns (j: nat)
    requires node.Split? && NoDegenerate(node, area) && Nonempty(area)
    requires var (a, b) := SplitRect(area, node.dir, node.ratio);
      && i < |ReflowNode(node.second, b)|
      && Len(ReflowNode(node.second, b)[i].rect, Other(axis)) >= 2
      && Edge(ReflowNode(node.second, b)[i].rect, axis, forward) != Edge(area, axis, forward)
    ensures var (a, b) := SplitRect(area, node.dir, node.ratio);
      && j < |ReflowNode(node, area)|
      && AcrossDivider(ReflowNode(node.second, b)[i].rect, ReflowNode(node, area)[j].rect, axis, forward)
    decreases node, 0
  {
    var (a, b) := SplitRect(area, node.dir, node.ratio);
    Children(area, node.dir, node.ratio);
    var s := ReflowNode(node.second, b)[i].rect;
    if node.dir == axis && Edge(s, axis, forward) == Edge(b, axis, forward) {
      WithinAt(node.second, b, i);
      j := FacesOtherChild(s, b, node.first, a, axis, forward);
    } else {
      j := FacesPane(node.second, b, i, axis, forward);
      j := |ReflowNode(node.first, a)| + j;
    }
  }

  predicate Touches(r: Rect, window: Rect, dir: FocusDir) {
    Edge(r, Axis(dir), Forward(dir)) == Edge(window, Axis(dir), Forward(dir))
  }

  /** A pane that touches the edge has nothing beyond it. */
  lemma NothingBeyond(root: Node, cols: u16, rows: u16, from: nat, src: Rect, dir: FocusDir)
    requires Touches(src, Window(cols, rows), dir)
    ensures NoCandidate(Reflow(root, cols, rows), from, src, dir)
  {
    forall j | 0 <= j < |Reflow(root, cols, rows)|
      ensures !Candidate(Reflow(root, cols, rows), from, src, dir, j)
    {
      WithinAt(root, Window(cols, rows), j);
    }
  }

  /** Facing across a divider makes a candidate at distance one, and then every best candidate
      is one too. */
  lemma FacingIsBest(panes: Panes, from: nat, src: Rect, dir: FocusDir, j: nat, k: nat)
    requires j < |panes| && panes[j].id != from && AcrossDivider(src, panes[j].rect, Axis(dir), Forward(dir))
    requires forall i :: 0 <= i < |panes| ==> Within(panes[i].rect, Rect(0, 0, 0xffff, 0xffff))
    requires Within(src, Rect(0, 0, 0xffff, 0xffff))
    ensures !NoCandidate(panes, from, src, dir)
    ensures Best(panes, from, src, dir, |panes|, k) ==> AcrossDivider(src, panes[k].rect, Axis(dir), Forward(dir))
  {
    assert Candidate(panes, from, src, dir, j);
  }

  lemma ReflowFits16(root: Node, cols: u16, rows: u16)
    ensures forall i :: 0 <= i < |Reflow(root, cols, rows)| ==>
      Within(Reflow(root, cols, rows)[i].rect, Rect(0, 0, 0xffff, 0xffff))
  {
    forall i | 0 <= i < |Reflow(root, cols, rows)|
      ensures Within(Reflow(root, cols, rows)[i].rect, Rect(0, 0, 0xffff, 0xffff))
    {
      WithinAt(root, Window(cols, rows), i);
    }
  }

  lemma IdsDiffer(root: Node, area: Rect, i: nat, j: nat)
    requires Distinct(Ids(root)) && i < |ReflowNode(root, area)| && j < |ReflowNode(root, area)| && i != j
    ensures ReflowNode(root, area)[i].id != ReflowNode(root, area)[j].id
  {
    ReflowIds(root, area);
    var ids := Ids(root);
    assert ids[i] != ids[j];
  }

  /**
   * Directional focus is sound and complete: without degenerate splits, a pane at least two
   * cells long across the travel axis has a neighbour in a direction exactly when it does not
   * touch that edge of the window; the best candidate then stands exactly one divider cell
   * away and overlaps it.
   */
  lemma FocusExact(root: Node, cols: u16, rows: u16, i: nat, dir: FocusDir)
    requires Distinct(Ids(root)) && NoDegenerate(root, Window(cols, rows))
    requires i < |Reflow(root, cols, rows)|
    requires Len(Reflow(root, cols, rows)[i].rect, Other(Axis(dir))) >= 2
    ensures var panes := Reflow(root, cols, rows);
      var from, src := panes[i].id, panes[i].rect;
      && (NoCandidate(panes, from, src, dir) <==> Touches(src, Window(cols, rows), dir))
      && (forall k: nat :: Best(panes, from, src, dir, |panes|, k) ==>
            AcrossDivider(src, panes[k].rect, Axis(dir), Forward(dir)))
  {
    var panes, window := Reflow(root, cols, rows), Window(cols, rows);
    var from, src := panes[i].id, panes[i].rect;
    if Touches(src, window, dir) {
      NothingBeyond(root, cols, rows, from, src, dir);
    } else {
      var j := FacesPane(root, window, i, Axis(dir), Forward(dir));
      assert i != j;
      IdsDiffer(root, window, i, j);
      ReflowFits16(root, cols, rows);
      forall k: nat | Best(panes, from, src, dir, |panes|, k)
        ensures AcrossDivider(src, panes[k].rect, Axis(dir), Forward(dir))
      {
        FacingIsBest(panes, from, src, dir, j, k);
      }
      FacingIsBest(panes, from, src, dir, j, 0);
    }
  }

  // ---- Line of sight ----

  function Coord(x: int, y: int, axis: SplitDir): int {
    if axis == Horizontal then x else y
  }

  /** Cell (x, y) of the window lies beyond `src` in that direction, in its own rows or columns. */
  predicate Beyond(src: Rect, window: Rect, dir: FocusDir, x: int, y: int) {
    var axis := Axis(dir);
    && Contains(window, x, y)
    && Lo(src, Other(axis)) <= Coord(x, y, Other(axis)) < Edge(src, Other(axis), true)
    && if Forward(dir) then Edge(src, axis, true) <= Coord(x, y, axis) else Coord(x, y, axis) < Lo(src, axis)
  }

  /** `r` has a cell beyond `src`. */
  ghost predicate InSight(r: Rect, src: Rect, window: Rect, dir: FocusDir) {
    exists x, y :: Beyond(src, window, dir, x, y) && Contains(r, x, y)
  }

  /** Two rectangles share a row (or a column) across `axis`. */
  predicate ShareLine(r: Rect, s: Rect, axis: SplitDir) {
    && Lo(r, Other(axis)) < Edge(s, Other(axis), true)
    && Lo(s, Other(axis)) < Edge(r, Other(axis), true)
  }

  predicate Apart(r: Rect, s: Rect, axis: SplitDir) {
    Edge(r, axis, true) < Lo(s, axis) || Edge(s, axis, true) < Lo(r, axis)
  }

  /** Two panes that share a line are kept apart along it: the cell just past the edge of a
      pane belongs to no pane. */
  lemma {:induction false} PanesApart(node: Node, area: Rect, i: nat, j: nat, axis: SplitDir)
    requires NoDegenerate(node, area) && Nonempty(area)
    requires i < j < |ReflowNode(node, area)|
    requires ShareLine(ReflowNode(node, area)[i].rect, ReflowNode(node, area)[j].rect, axis)
    ensures Apart(ReflowNode(node, area)[i].rect, ReflowNode(node, area)[j].rect, axis)
  {
    match node
    case Leaf(_) => assert false;
    case Split(dir, ratio, first, second) =>
      var (a, b) := SplitRect(area, dir, ratio);
      Children(area, dir, ratio);
      var n := |ReflowNode(first, a)|;
      if j < n {
        PanesApart(first, a, i, j, axis);
      } else if i >= n {
        PanesApart(second, b, i - n, j - n, axis);
      } else {
        WithinAt(first, a, i);
        WithinAt(second, b, j - n);
      }
  }

  lemma {:induction false} RoomForAll(node: Node, area: Rect)
    requires NoDegenerate(node, area) && Nonempty(area)
    ensures AllNonempty(ReflowNode(node, area))
  {
    NoDegenerateIsRoomy(node, area);
    NonemptyIffRoomy(node, area);
  }

  lemma {:induction false} NoDegenerateIsRoomy(node: Node, area: Rect)
    requires NoDegenerate(node, area)
    ensures Roomy(node, area)
  {
    match node
    case Leaf(_) =>
    case Split(dir, ratio, first, second) =>
      var (a, b) := SplitRect(area, dir, ratio);
      NoDegenerateIsRoomy(first, a);
      NoDegenerateIsRoomy(second, b);
  }

  /** Apart rectangles: a cell of one beyond the other means a distance of at least one, and
      the other way round. */
  lemma SightIsDistance(r: Rect, src: Rect, window: Rect, dir: FocusDir)
    requires Nonempty(r) && Nonempty(src) && Within(r, window) && Within(src, window)
    requires ShareLine(src, r, Axis(dir)) ==> Apart(src, r, Axis(dir))
    ensures InSight(r, src, window, dir) <==> Primary(src, r, dir) >= 1 && ShareLine(src, r, Axis(dir))
  {
    if Primary(src, r, dir) >= 1 && ShareLine(src, r, Axis(dir)) {
      var x, y := Max(src.x, r.x), Max(src.y, r.y);
      if Axis(dir) == Horizontal { x := r.x; } else { y := r.y; }
      assert Beyond(src, window, dir, x, y) && Contains(r, x, y);
    }
  }

  /** Within 16 bits the sums of `ranges_overlap` do not saturate. */
  lemma OverlapIsShareLine(r: Rect, s: Rect, axis: SplitDir)
    requires Within(r, Rect(0, 0, 0xffff, 0xffff)) && Within(s, Rect(0, 0, 0xffff, 0xffff))
    ensures Overlap(r, s, Other(axis)) == ShareLine(r, s, axis)
  {
  }

  /** The candidates are exactly the panes in sight, for panes of any size. */
  lemma CandidatesInSight(root: Node, cols: u16, rows: u16, i: nat, j: nat, dir: FocusDir)
    requires Distinct(Ids(root)) && NoDegenerate(root, Window(cols, rows))
    requires i < |Reflow(root, cols, rows)| && j < |Reflow(root, cols, rows)|
    ensures var panes := Reflow(root, cols, rows); var src := panes[i].rect;
      Candidate(panes, panes[i].id, src, dir, j) == InSight(panes[j].rect, src, Window(cols, rows), dir)
  {
    var panes, window := Reflow(root, cols, rows), Window(cols, rows);
    if i != j {
      IdsDiffer(root, window, i, j);
      WithinAt(root, window, i);
      WithinAt(root, window, j);
      OverlapIsShareLine(panes[i].rect, panes[j].rect, Axis(dir));
      SightAcross(root, window, i, j, dir);
    }
  }

  lemma SightAcross(node: Node, area: Rect, i: nat, j: nat, dir: FocusDir)
    requires NoDegenerate(node, area) && Nonempty(area)
    requires i < |ReflowNode(node, area)| && j < |ReflowNode(node, area)| && i != j
    ensures var src, r := ReflowNode(node, area)[i].rect, ReflowNode(node, area)[j].rect;
      InSight(r, src, area, dir) == (Primary(src, r, dir) >= 1 && ShareLine(src, r, Axis(dir)))
  {
    var src, r := ReflowNode(node, area)[i].rect, ReflowNode(node, area)[j].rect;
    RoomForAll(node, area);
    if ShareLine(src, r, Axis(dir)) {
      PanesApart(node, area, Min(i, j), Max(i, j), Axis(dir));
    }
    WithinAt(node, area, i);
    WithinAt(node, area, j);
    SightIsDistance(r, src, area, dir);
  }

  /** No pane has a cell beyond `src`: between it and the edge there is only divider. */
  ghost predicate NothingInSight(panes: Panes, src: Rect, window: Rect, dir: FocusDir) {
    forall j :: 0 <= j < |panes| ==> !InSight(panes[j].rect, src, window, dir)
  }

  /** A pane one cell long can face nothing but the end of another divider: here the middle
      of three panes on the left has no right neighbour though it does not touch that edge. */
  lemma OneCellPaneMayFaceDivider()
    ensures var root := Split(Horizontal, 0.5,
        Split(Vertical, 0.25, Leaf(1), Split(Vertical, 0.5, Leaf(2), Leaf(3))),
        Split(Vertical, 0.5, Leaf(4), Leaf(5)));
      var panes := Reflow(root, 5, 5);
      && NoDegenerate(root, Window(5, 5)) && panes[1] == Placed(2, Rect(0, 2, 2, 1))
      && NoCandidate(panes, 2, panes[1].rect, Right)
  {
    var left := Split(Vertical, 0.25, Leaf(1), Split(Vertical, 0.5, Leaf(2), Leaf(3)));
    var right := Split(Vertical, 0.5, Leaf(4), Leaf(5));
    var window := Window(5, 5);
    assert SplitRect(window, Horizontal, 0.5) == (Rect(0, 0, 2, 5), Rect(3, 0, 2, 5));
    assert SplitRect(Rect(0, 0, 2, 5), Vertical, 0.25) == (Rect(0, 0, 2, 1), Rect(0, 2, 2, 3));
    assert SplitRect(Rect(0, 2, 2, 3), Vertical, 0.5) == (Rect(0, 2, 2, 1), Rect(0, 4, 2, 1));
    assert SplitRect(Rect(3, 0, 2, 5), Vertical, 0.5) == (Rect(3, 0, 2, 2), Rect(3, 3, 2, 2));
    assert ReflowNode(left, Rect(0, 0, 2, 5))
        == [Placed(1, Rect(0, 0, 2, 1)), Placed(2, Rect(0, 2, 2, 1)), Placed(3, Rect(0, 4, 2, 1))];
    assert ReflowNode(right, Rect(3, 0, 2, 5)) == [Placed(4, Rect(3, 0, 2, 2)), Placed(5, Rect(3, 3, 2, 2))];
  }

  // ---- What `neighbor` returns ----

  /** `id` names a best candidate, if there is any. */
  ghost predicate IsNeighbor(panes: Panes, from: nat, src: Rect, dir: FocusDir, id: Option<nat>) {
    && (id.None? <==> NoCandidate(panes, from, src, dir))
    && (id.Some? ==> exists k: nat :: Best(panes, from, src, dir, |panes|, k) && id.value == panes[k].id)
  }

  predicate SharesRows(a: Rect, b: Rect) {
    a.y < b.y + b.rows && b.y < a.y + a.rows
  }

  predicate SharesColumns(a: Rect, b: Rect) {
    a.x < b.x + b.cols && b.x < a.x + a.cols
  }

  /** `r` lies to that side of `src`, at least one cell away, and shares a row or column with it. */
  predicate LiesTo(src: Rect, r: Rect, dir: FocusDir) {
    match dir
    case Left => r.x + r.cols < src.x && SharesRows(src, r)
    case Right => src.x + src.cols < r.x && SharesRows(src, r)
    case Up => r.y + r.rows < src.y && SharesColumns(src, r)
    case Down => src.y + src.rows < r.y && SharesColumns(src, r)
  }

  /** Cells between the two. */
  function Gap(src: Rect, r: Rect, dir: FocusDir): int {
    match dir
    case Left => src.x - (r.x + r.cols)
    case Right => r.x - (src.x + src.cols)
    case Up => src.y - (r.y + r.rows)
    case Down => r.y - (src.y + src.rows)
  }

  /** How far their middles are apart, across the direction. */
  function Offset(src: Rect, r: Rect, dir: FocusDir): nat {
    match dir
    case Left | Right => Abs((src.y + src.rows / 2) - (r.y + r.rows / 2))
    case Up | Down => Abs((src.x + src.cols / 2) - (r.x + r.cols / 2))
  }

  /** Another pane than `from` lies to that side of `src`. */
  predicate Lying(panes: Panes, from: nat, src: Rect, dir: FocusDir, j: nat)
    requires j < |panes|
  {
    panes[j].id != from && LiesTo(src, panes[j].rect, dir)
  }

  /** Of the panes to that side, pane `k` is the nearest; of these the one with the nearest
      middle, and of these the first. */
  ghost predicate NearestOf(panes: Panes, from: nat, src: Rect, dir: FocusDir, k: nat) {
    && k < |panes| && Lying(panes, from, src, dir, k)
    && forall j :: 0 <= j < |panes| && Lying(panes, from, src, dir, j) ==>
         var (gap, gap') := (Gap(src, panes[k].rect, dir), Gap(src, panes[j].rect, dir));
         var (off, off') := (Offset(src, panes[k].rect, dir), Offset(src, panes[j].rect, dir));
         gap < gap' || (gap == gap' && (off < off' || (off == off' && k <= j)))
  }

  /** In coordinates: `id` names the nearest pane to that side, and none if there is none. */
  ghost predicate PointsTo(panes: Panes, from: nat, src: Rect, dir: FocusDir, id: Option<nat>) {
    && (id.None? <==> forall j :: 0 <= j < |panes| ==> !Lying(panes, from, src, dir, j))
    && (id.Some? ==> exists k: nat :: NearestOf(panes, from, src, dir, k) && id.value == panes[k].id)
  }

  /** On 16-bit rectangles the search finds just that. */
  lemma NeighborPoints(panes: Panes, from: nat, src: Rect, dir: FocusDir, id: Option<nat>)
    requires Within(src, Rect(0, 0, 0xffff, 0xffff))
    requires forall i :: 0 <= i < |panes| ==> Within(panes[i].rect, Rect(0, 0, 0xffff, 0xffff))
    requires IsNeighbor(panes, from, src, dir, id)
    ensures PointsTo(panes, from, src, dir, id)
  {
    forall j | 0 <= j < |panes|
      ensures Candidate(panes, from, src, dir, j) == Lying(panes, from, src, dir, j)
      ensures Primary(src, panes[j].rect, dir) == Gap(src, panes[j].rect, dir)
      ensures Secondary(src, panes[j].rect, dir) == Offset(src, panes[j].rect, dir)
    {
      LiesToMeans(src, panes[j].rect, dir);
    }
    if id.Some? {
      var k: nat :| Best(panes, from, src, dir, |panes|, k) && id.value == panes[k].id;
      BestIsNearestOf(panes, from, src, dir, k);
    }
  }

  lemma OverlapMeans(a: Rect, b: Rect)
    requires Within(a, Rect(0, 0, 0xffff, 0xffff)) && Within(b, Rect(0, 0, 0xffff, 0xffff))
    ensures Overlap(a, b, Vertical) == SharesRows(a, b) && Overlap(a, b, Horizontal) == SharesColumns(a, b)
  {
  }

  lemma GapMeans(src: Rect, r: Rect, dir: FocusDir)
    ensures Primary(src, r, dir) == Gap(src, r, dir)
    ensures Gap(src, r, dir) >= 1 <==>
      match dir
      case Left => r.x + r.cols < src.x
      case Right => src.x + src.cols < r.x
      case Up => r.y + r.rows < src.y
      case Down => src.y + src.rows < r.y
  {
  }

  lemma SecondaryMeans(src: Rect, r: Rect, dir: FocusDir)
    ensures Secondary(src, r, dir) == Offset(src, r, dir)
  {
  }

  lemma LiesToMeans(src: Rect, r: Rect, dir: FocusDir)
    requires Within(src, Rect(0, 0, 0xffff, 0xffff)) && Within(r, Rect(0, 0, 0xffff, 0xffff))
    ensures LiesTo(src, r, dir) <==> Primary(src, r, dir) >= 1 && Overlap(src, r, Other(Axis(dir)))
    ensures Primary(src, r, dir) == Gap(src, r, dir) && Secondary(src, r, dir) == Offset(src, r, dir)
  {
    OverlapMeans(src, r);
    GapMeans(src, r, dir);
    SecondaryMeans(src, r, dir);
    assert LiesTo(src, r, dir) <==>
      Gap(src, r, dir) >= 1 && if dir == Left || dir == Right then SharesRows(src, r) else SharesColumns(src, r);
  }

  lemma BestIsNearestOf(panes: Panes, from: nat, src: Rect, dir: FocusDir, k: nat)
    requires Best(panes, from, src, dir, |panes|, k)
    requires forall j :: 0 <= j < |panes| ==>
      && Candidate(panes, from, src, dir, j) == Lying(panes, from, src, dir, j)
      && Primary(src, panes[j].rect, dir) == Gap(src, panes[j].rect, dir)
      && Secondary(src, panes[j].rect, dir) == Offset(src, panes[j].rect, dir)
    ensures NearestOf(panes, from, src, dir, k)
  {
    forall j | 0 <= j < |panes| && Lying(panes, from, src, dir, j)
      ensures !Before(panes, src, dir, j, k) && (j < k ==> Before(panes, src, dir, k, j))
    {
      assert Candidate(panes, from, src, dir, j);
    }
  }

  lemma {:induction false} LeafRectFits(panes: Panes, id: nat)
    requires forall i :: 0 <= i < |panes| ==> Within(panes[i].rect, Rect(0, 0, 0xffff, 0xffff))
    ensures Within(LeafRect(panes, id), Rect(0, 0, 0xffff, 0xffff))
    decreases |panes|
  {
    if panes != [] && panes[0].id != id { LeafRectFits(panes[1..], id); }
  }

  /** The pane `id` faces `src` across one divider cell. */
  ghost predicate FacedBy(panes: Panes, src: Rect, dir: FocusDir, id: nat) {
    exists k: nat :: k < |panes| && panes[k].id == id && AcrossDivider(src, panes[k].rect, Axis(dir), Forward(dir))
  }

  /** The pane `id` is in sight of `src`, and no pane in sight is nearer. */
  ghost predicate NearestInSight(panes: Panes, src: Rect, window: Rect, dir: FocusDir, id: nat) {
    exists k: nat :: k < |panes| && panes[k].id == id && InSight(panes[k].rect, src, window, dir)
      && forall j :: 0 <= j < |panes| && InSight(panes[j].rect, src, window, dir) ==>
           Primary(src, panes[k].rect, dir) <= Primary(src, panes[j].rect, dir)
  }

  /** The rectangle `neighbor` starts from is the pane's own. */
  lemma SourceRect(root: Node, cols: nat, rows: nat, i: nat)
    requires Distinct(Ids(root)) && i < |Reflow(root, cols, rows)|
    ensures IdsOf(Reflow(root, cols, rows)) == Ids(root)
    ensures var panes := Reflow(root, cols, rows); LeafRect(panes, panes[i].id) == panes[i].rect
  {
    ReflowIds(root, Window(cols, rows));
    LookupDistinct(Reflow(root, cols, rows));
  }

  lemma BestIsNearest(panes: Panes, from: nat, src: Rect, window: Rect, dir: FocusDir, id: Option<nat>)
    requires forall j :: 0 <= j < |panes| ==>
      Candidate(panes, from, src, dir, j) == InSight(panes[j].rect, src, window, dir)
    requires IsNeighbor(panes, from, src, dir, id)
    ensures id.None? <==> NothingInSight(panes, src, window, dir)
    ensures id.Some? ==> NearestInSight(panes, src, window, dir, id.value)
  {
    if id.Some? {
      var k: nat :| Best(panes, from, src, dir, |panes|, k) && id.value == panes[k].id;
      forall j | 0 <= j < |panes| && InSight(panes[j].rect, src, window, dir)
        ensures Primary(src, panes[k].rect, dir) <= Primary(src, panes[j].rect, dir)
      {
        assert Candidate(panes, from, src, dir, j) && !Before(panes, src, dir, j, k);
      }
      assert InSight(panes[k].rect, src, window, dir);
    }
  }

  /**
   * What directional focus promises a pane at `src`: no neighbour exactly when there is only
   * divider between the pane and the edge of the window, else the nearest pane in sight. For
   * a pane at least two cells across that means none exactly at the edge, else a pane one
   * divider cell away.
   */
  ghost predicate RightAnswer(panes: Panes, window: Rect, src: Rect, dir: FocusDir, id: Option<nat>) {
    && (id.None? <==> NothingInSight(panes, src, window, dir))
    && (id.Some? ==> NearestInSight(panes, src, window, dir, id.value))
    && (Len(src, Other(Axis(dir))) >= 2 ==>
          (id.None? <==> Touches(src, window, dir)) && (id.Some? ==> FacedBy(panes, src, dir, id.value)))
  }

  lemma NeighborExact(root: Node, cols: u16, rows: u16, i: nat, dir: FocusDir, id: Option<nat>)
    requires Distinct(Ids(root)) && NoDegenerate(root, Window(cols, rows))
    requires i < |Reflow(root, cols, rows)|
    requires var panes := Reflow(root, cols, rows);
      IsNeighbor(panes, panes[i].id, panes[i].rect, dir, id)
    ensures var panes := Reflow(root, cols, rows);
      RightAnswer(panes, Window(cols, rows), panes[i].rect, dir, id)
  {
    var panes, window := Reflow(root, cols, rows), Window(cols, rows);
    var from, src := panes[i].id, panes[i].rect;
    forall j | 0 <= j < |panes|
      ensures Candidate(panes, from, src, dir, j) == InSight(panes[j].rect, src, window, dir)
    {
      CandidatesInSight(root, cols, rows, i, j, dir);
    }
    BestIsNearest(panes, from, src, window, dir, id);
    if Len(src, Other(Axis(dir))) >= 2 { FocusExact(root, cols, rows, i, dir); }
  }

  /** The same for the rectangle looked up by id. */
  lemma AnswerIsRight(root: Node, cols: u16, rows: u16, from: nat, dir: FocusDir, id: Option<nat>)
    requires Distinct(Ids(root)) && NoDegenerate(root, Window(cols, rows)) && from in Ids(root)
    requires var panes := Reflow(root, cols, rows);
      IsNeighbor(panes, from, LeafRect(panes, from), dir, id)
    ensures var panes := Reflow(root, cols, rows);
      RightAnswer(panes, Window(cols, rows), LeafRect(panes, from), dir, id)
  {
    ReflowIds(root, Window(cols, rows));
    var i: nat :| i < |Ids(root)| && Ids(root)[i] == from;
    assert IdsOf(Reflow(root, cols, rows))[i] == from;
    SourceRect(root, cols, rows, i);
    NeighborExact(root, cols, rows, i, dir, id);
  }

  method Neighbor(root: Node, from: nat, dir: FocusDir, cols: u16, rows: u16) returns (id: Option<nat>)
    ensures from !in Ids(root) ==> id.None?
    ensures var panes := Reflow(root, cols, rows);
      from in Ids(root) ==> PointsTo(panes, from, LeafRect(panes, from), dir, id)
    ensures var panes := Reflow(root, cols, rows);
      Distinct(Ids(root)) && NoDegenerate(root, Window(cols, rows)) && from in Ids(root) ==>
        RightAnswer(panes, Window(cols, rows), LeafRect(panes, from), dir, id)
  {
    var panes := Reflow(root, cols, rows);
    ReflowIds(root, Window(cols, rows));
    var src := LeafRect(panes, from);
    if from !in IdsOf(panes) { return None; }
    var best := Nearest(panes, from, src, dir);
    id := if best.Some? then Some(panes[best.value].id) else None;
    ReflowFits16(root, cols, rows);
    LeafRectFits(panes, from);
    NeighborPoints(panes, from, src, dir, id);
    if Distinct(Ids(root)) && NoDegenerate(root, Window(cols, rows)) {
      AnswerIsRight(root, cols, rows, from, dir, id);
    }
  }
}
