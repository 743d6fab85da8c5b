/** Preset layouts: even, tiled and main (src/layout/mod.rs). */
module LayoutPresets {
  import opened Ints
  import opened Wrappers
  import opened LayoutTree

  /** Balanced binary tree along `dir` with ratios matching leaf counts. */
  function EvenNode(ids: seq<nat>, dir: SplitDir): Node
    requires ids != []
    decreases |ids|
  {
    if |ids| == 1 then Leaf(ids[0])
    else
      var mid := Max(|ids| / 2, 1);
      Split(dir, mid as real / |ids| as real, EvenNode(ids[..mid], dir), EvenNode(ids[mid..], dir))
  }

  function EvenRebuild(ids: seq<nat>, dir: SplitDir): Node {
    if ids == [] then Leaf(0) else EvenNode(ids, dir)
  }

  function StackNodes(nodes: seq<Node>, dir: SplitDir): Node
    requires nodes != []
    decreases |nodes|
  {
    if |nodes| == 1 then nodes[0]
    else
      var mid := Max(|nodes| / 2, 1);
      Split(dir, mid as real / |nodes| as real, StackNodes(nodes[..mid], dir), StackNodes(nodes[mid..], dir))
  }

  /** The least `c >= k` with `c * c >= n`: `ceil(sqrt(n))` for `k = 0`. */
  function CeilSqrtFrom(n: nat, k: nat): (c: nat)
    ensures c * c >= n && c >= k
    ensures c > k ==> (c - 1) * (c - 1) < n
    decreases n - k * k
  {
    if k * k >= n then k else CeilSqrtFrom(n, k + 1)
  }

  /** The rows of `ids.chunks(cols)`, each an even horizontal strip. */
  function ChunkNodes(ids: seq<nat>, cols: nat): (r: seq<Node>)
    requires cols > 0
    ensures ids != [] ==> r != []
    decreases |ids|
  {
    if ids == [] then []
    else
      var n := Min(cols, |ids|);
      [EvenNode(ids[..n], Horizontal)] + ChunkNodes(ids[n..], cols)
  }

  function TiledRebuild(ids: seq<nat>): Node {
    if ids == [] then Leaf(0)
    else if |ids| == 1 then Leaf(ids[0])
    else StackNodes(ChunkNodes(ids, Max(CeilSqrtFrom(|ids|, 0), 1)), Vertical)
  }

  function MainRebuild(ids: seq<nat>, mainAxis: SplitDir): Node {
    if |ids| <= 1 then Leaf(if ids == [] then 0 else ids[0])
    else Split(mainAxis, 0.5, Leaf(ids[0]), EvenNode(ids[1..], Other(mainAxis)))
  }

  /** even-horizontal, even-vertical, tiled, and round again. */
  function CyclePreset(ids: seq<nat>, kind: u8): (Node, u8)
    requires kind < 255
  {
    var next := (kind + 1) % 3;
    (if next == 0 then EvenRebuild(ids, Horizontal)
     else if next == 1 then EvenRebuild(ids, Vertical)
     else TiledRebuild(ids), next)
  }

  datatype Preset = EvenHorizontal | EvenVertical | Tiled | MainHorizontal | MainVertical

  /** The names and short names of the presets. */
  function PresetNamed(name: string): Option<Preset> {
    if name == "even-horizontal" || name == "eh" then Some(EvenHorizontal)
    else if name == "even-vertical" || name == "ev" then Some(EvenVertical)
    else if name == "tiled" || name == "tiled-layout" then Some(Tiled)
    else if name == "main-horizontal" || name == "mh" then Some(MainHorizontal)
    else if name == "main-vertical" || name == "mv" then Some(MainVertical)
    else None
  }

  function NamedPreset(ids: seq<nat>, preset: Preset): Node
    requires ids != []
  {
    match preset
    case EvenHorizontal => EvenRebuild(ids, Horizontal)
    case EvenVertical => EvenRebuild(ids, Vertical)
    case Tiled => TiledRebuild(ids)
    case MainHorizontal => MainRebuild(ids, Vertical)
    case MainVertical => MainRebuild(ids, Horizontal)
  }

  // ---- Every preset keeps the pane order ----

  lemma {:induction false} EvenKeepsIds(ids: seq<nat>, dir: SplitDir)
    requires ids != []
    ensures Ids(EvenNode(ids, dir)) == ids
    decreases |ids|
  {
    if |ids| > 1 {
      var mid := Max(|ids| / 2, 1);
      EvenKeepsIds(ids[..mid], dir);
      EvenKeepsIds(ids[mid..], dir);
      assert ids[..mid] + ids[mid..] == ids;
    }
  }

  function AllIds(nodes: seq<Node>): seq<nat> {
    if nodes == [] then [] else Ids(nodes[0]) + AllIds(nodes[1..])
  }

  lemma {:induction false} AllIdsAppend(a: seq<Node>, b: seq<Node>)
    ensures AllIds(a + b) == AllIds(a) + AllIds(b)
    decreases |a|
  {
    if a == [] {
      assert a + b == b;
    } else {
      AllIdsAppend(a[1..], b);
      assert (a + b)[1..] == a[1..] + b;
    }
  }

  lemma OneNodeIds(nodes: seq<Node>)
    requires |nodes| == 1
    ensures AllIds(nodes) == Ids(nodes[0])
  {
    assert AllIds(nodes[1..]) == [];
  }

  lemma StackHalves(nodes: seq<Node>, dir: SplitDir)
    requires |nodes| > 1
    ensures var mid := Max(|nodes| / 2, 1);
      Ids(StackNodes(nodes, dir)) == Ids(StackNodes(nodes[..mid], dir)) + Ids(StackNodes(nodes[mid..], dir))
  {
  }

  lemma {:induction false} StackKeepsIds(nodes: seq<Node>, dir: SplitDir)
    requires nodes != []
    ensures Ids(StackNodes(nodes, dir)) == AllIds(nodes)
    decreases |nodes|
  {
    if |nodes| == 1 {
      OneNodeIds(nodes);
    } else {
      var mid := Max(|nodes| / 2, 1);
      var front, back := nodes[..mid], nodes[mid..];
      StackKeepsIds(front, dir);
      StackKeepsIds(back, dir);
      assert front + back == nodes;
      AllIdsAppend(front, back);
      StackHalves(nodes, dir);
    }
  }

  lemma {:induction false} ChunksKeepIds(ids: seq<nat>, cols: nat)
    requires cols > 0
    ensures AllIds(ChunkNodes(ids, cols)) == ids
    decreases |ids|
  {
    if ids != [] {
      var n := Min(cols, |ids|);
      EvenKeepsIds(ids[..n], Horizontal);
      ChunksKeepIds(ids[n..], cols);
      var head, tail := EvenNode(ids[..n], Horizontal), ChunkNodes(ids[n..], cols);
      assert ([head] + tail)[1..] == tail;
      assert ids[..n] + ids[n..] == ids;
    }
  }

  lemma TiledKeepsIds(ids: seq<nat>)
    requires ids != []
    ensures Ids(TiledRebuild(ids)) == ids
  {
    var cols := Max(CeilSqrtFrom(|ids|, 0), 1);
    ChunksKeepIds(ids, cols);
    StackKeepsIds(ChunkNodes(ids, cols), Vertical);
  }

  lemma MainKeepsIds(ids: seq<nat>, axis: SplitDir)
    requires ids != []
    ensures Ids(MainRebuild(ids, axis)) == ids
  {
    if |ids| > 1 {
      EvenKeepsIds(ids[1..], Other(axis));
      assert [ids[0]] + ids[1..] == ids;
    }
  }

  /** Every preset, by name or by cycling, keeps the panes and their order. */
  lemma PresetsKeepIds(ids: seq<nat>, preset: Preset, kind: u8)
    requires ids != [] && kind < 255
    ensures Ids(NamedPreset(ids, preset)) == ids
    ensures Ids(CyclePreset(ids, kind).0) == ids
  {
    EvenKeepsIds(ids, Horizontal);
    EvenKeepsIds(ids, Vertical);
    TiledKeepsIds(ids);
    MainKeepsIds(ids, Horizontal);
    MainKeepsIds(ids, Vertical);
  }

  // ---- Even presets divide exactly ----

  /** Where pane `i` starts when every pane has `w` cells and a one-cell divider follows it. */
  function Offset(i: nat, w: nat): nat {
    if i == 0 then 0 else Offset(i - 1, w) + w + 1
  }

  /** Cells of `n` panes of `w` cells with one-cell dividers between them. */
  function Span(n: nat, w: nat): int {
    Offset(n, w) - 1
  }

  lemma {:induction false} OffsetIsProduct(i: nat, w: nat)
    ensures Offset(i, w) == i * (w + 1)
  {
    if i > 0 {
      OffsetIsProduct(i - 1, w);
      assert i * (w + 1) == (i - 1) * (w + 1) + (w + 1);
    }
  }

  lemma {:induction false} OffsetAdds(i: nat, j: nat, w: nat)
    ensures Offset(i + j, w) == Offset(i, w) + Offset(j, w)
  {
    if j > 0 { OffsetAdds(i, j - 1, w); }
  }

  lemma RealMulLess(a: real, b: real, c: real)
    requires a < b && c > 0.0
    ensures a * c < b * c
  {
  }

  /** If `t * d` lies between `q * d` and `(q + 1) * d`, the floor of `t` is `q`. */
  lemma FloorBetween(t: real, q: int, d: real)
    requires d > 0.0
    requires q as real * d <= t * d < (q + 1) as real * d
    ensures t.Floor == q
  {
    if t < q as real { RealMulLess(t, q as real, d); }
    if (q + 1) as real <= t {
      if (q + 1) as real < t { RealMulLess((q + 1) as real, t, d); }
    }
  }

  lemma IntMulReal(a: int, b: int)
    ensures (a * b) as real == a as real * b as real
  {
  }

  /** Floor of a fraction `m / d`. */
  lemma FloorFraction(t: real, m: int, d: nat, q: int)
    requires d > 0 && t * d as real == m as real && q * d <= m < (q + 1) * d
    ensures t.Floor == q
  {
    IntMulReal(q, d);
    IntMulReal(q + 1, d);
    FloorBetween(t, q, d as real);
  }

  /** Rounding the share `mid / n` of `u` cells. */
  lemma FloorShare(u: int, mid: nat, n: nat, q: int)
    requires n >= 1 && q * (2 * n) <= 2 * u * mid + n < (q + 1) * (2 * n)
    ensures (u as real * (mid as real / n as real) + 0.5).Floor == q
  {
    ShareTimes(u, mid, n);
    FloorFraction(u as real * (mid as real / n as real) + 0.5, 2 * u * mid + n, 2 * n, q);
  }

  /** With `k` cells to a pane and its divider. */
  lemma RoundedShare(n: nat, mid: nat, k: nat)
    requires n >= 2 && mid == n / 2 && k >= 2
    ensures ((n * k - 2) as real * (mid as real / n as real) + 0.5).Floor == mid * k - 1
  {
    ShareInts(n, mid, k);
    var u, q := n * k - 2, mid * k - 1;
    assert (q + 1) * (2 * n) == q * (2 * n) + 2 * n;
    FloorShare(u, mid, n, q);
  }

  lemma ShareTimes(u: int, mid: nat, n: nat)
    requires n >= 1
    ensures (u as real * (mid as real / n as real) + 0.5) * (2 * n) as real == (2 * u * mid + n) as real
  {
    var r := mid as real / n as real;
    assert r * n as real == mid as real;
    var x, y := u as real, n as real;
    assert (x * r + 0.5) * (2.0 * y) == 2.0 * (x * (r * y)) + y;
    assert x * (r * y) == (u * mid) as real;
  }

  lemma ShareInts(n: nat, mid: nat, k: nat)
    ensures 2 * (n * k - 2) * mid + n == (mid * k - 1) * (2 * n) + (3 * n - 4 * mid)
  {
    assert (n * k - 2) * mid == (n * k) * mid - 2 * mid;
    assert (mid * k - 1) * n == (mid * k) * n - n;
    assert (mid * k) * n == (n * k) * mid;
  }

  /** When the rounded share is in range, neither the cast nor the clamp changes it. */
  lemma FirstLenIsFloor(total: nat, ratio: real, q: int)
    requires 3 <= total <= 0xffff && 1 <= q <= total - 2 && ratio >= 0.0
    requires ((total - 1) as real * ratio + 0.5).Floor == q
    ensures FirstLen(total, ratio) == q
  {
    assert (total - 1) as real * ratio >= 0.0;
  }

  lemma EvenShares(n: nat, mid: nat, w: nat)
    requires n >= 2 && mid == n / 2 && w >= 1
    ensures Span(n, w) >= 3 && 1 <= Span(mid, w) <= Span(n, w) - 2
    ensures Span(n, w) - Span(mid, w) - 1 == Span(n - mid, w)
  {
    OffsetAdds(mid, n - mid, w);
    OffsetAdds(1, mid - 1, w);
    OffsetAdds(1, n - mid - 1, w);
    assert Offset(1, w) == Offset(0, w) + w + 1;
  }

  lemma EvenFirstCells(n: nat, mid: nat, k: nat, total: nat)
    requires n >= 2 && mid == n / 2 && k >= 2 && total == n * k - 1
    requires 3 <= total <= 0xffff && 1 <= mid * k - 1 <= total - 2
    ensures FirstLen(total, mid as real / n as real) == mid * k - 1
  {
    RoundedShare(n, mid, k);
    assert total - 1 == n * k - 2;
    FirstLenIsFloor(total, mid as real / n as real, mid * k - 1);
  }

  /** The ratio-and-round split of `n` panes gives the first `n / 2` exactly their share. */
  lemma EvenFirst(n: nat, mid: nat, w: nat)
    requires n >= 2 && mid == n / 2 && w >= 1 && Span(n, w) <= 0xffff
    ensures FirstLen(Span(n, w), mid as real / n as real) == Span(mid, w)
  {
    EvenShares(n, mid, w);
    OffsetIsProduct(n, w);
    OffsetIsProduct(mid, w);
    EvenFirstCells(n, mid, w + 1, Span(n, w));
  }

  /** Splitting `n` equal panes by this ratio gives the first `n / 2` exactly their share. */
  ghost predicate Shares(ratio: real, n: nat) {
    forall w: nat {:trigger FirstLen(Span(n, w), ratio)} ::
      w >= 1 && 0 <= Span(n, w) <= 0xffff ==> FirstLen(Span(n, w), ratio) == Span(n / 2, w)
  }

  lemma HalfShares(n: nat)
    requires n >= 2
    ensures Shares((n / 2) as real / n as real, n)
  {
    forall w: nat | w >= 1 && 0 <= Span(n, w) <= 0xffff
      ensures FirstLen(Span(n, w), (n / 2) as real / n as real) == Span(n / 2, w)
    {
      EvenFirst(n, n / 2, w);
    }
  }

  /** A tree of splits along `dir` that share equally. */
  ghost predicate SharesEvenly(node: Node, ids: seq<nat>, dir: SplitDir) {
    match node
    case Leaf(id) => ids == [id]
    case Split(d, ratio, first, second) =>
      && |ids| >= 2 && d == dir && Shares(ratio, |ids|)
      && SharesEvenly(first, ids[..|ids| / 2], dir) && SharesEvenly(second, ids[|ids| / 2..], dir)
  }

  lemma {:induction false} EvenSharesEvenly(ids: seq<nat>, dir: SplitDir)
    requires ids != []
    ensures SharesEvenly(EvenNode(ids, dir), ids, dir)
    decreases |ids|
  {
    if |ids| >= 2 {
      EvenSharesEvenly(ids[..|ids| / 2], dir);
      EvenSharesEvenly(ids[|ids| / 2..], dir);
      HalfShares(|ids|);
    }
  }

  /** The panes of `ids` stand side by side from `lo`, each exactly `w` cells. */
  ghost predicate SideBySide(panes: Panes, ids: seq<nat>, dir: SplitDir, area: Rect, lo: nat, w: nat) {
    && |panes| == |ids|
    && forall i {:trigger panes[i]} :: 0 <= i < |ids| ==>
         panes[i] == Placed(ids[i], Along(area, dir, lo + Offset(i, w), w))
  }

  lemma SideBySideAppend(p: Panes, q: Panes, ids: seq<nat>, mid: nat, dir: SplitDir, area: Rect, lo: nat, w: nat)
    requires mid <= |ids| && SideBySide(p, ids[..mid], dir, area, lo, w)
    requires SideBySide(q, ids[mid..], dir, area, lo + Offset(mid, w), w)
    ensures SideBySide(p + q, ids, dir, area, lo, w)
  {
    forall i | 0 <= i < |ids|
      ensures (p + q)[i] == Placed(ids[i], Along(area, dir, lo + Offset(i, w), w))
    {
      if i < mid {
        assert ids[..mid][i] == ids[i];
      } else {
        OffsetAdds(mid, i - mid, w);
        assert ids[mid..][i - mid] == ids[i];
      }
    }
  }

  /** A part of the area along the axis keeps the other axis. */
  lemma SideBySideAlong(p: Panes, ids: seq<nat>, dir: SplitDir, area: Rect, x: nat, len: nat, lo: nat, w: nat)
    requires SideBySide(p, ids, dir, Along(area, dir, x, len), lo, w)
    ensures SideBySide(p, ids, dir, area, lo, w)
  {
  }

  /** Reflow; the induction over an even tree need not look inside. */
  ghost predicate ReflowsLike(reflow: (Node, Rect) -> Panes) {
    forall node, area {:trigger ReflowNode(node, area)} :: reflow(node, area) == ReflowNode(node, area)
  }

  lemma ReflowLeaf(reflow: (Node, Rect) -> Panes, id: nat, dir: SplitDir, area: Rect, w: nat)
    requires ReflowsLike(reflow) && Len(area, dir) == Span(1, w)
    ensures SideBySide(reflow(Leaf(id), area), [id], dir, area, Lo(area, dir), w)
  {
    assert reflow(Leaf(id), area) == ReflowNode(Leaf(id), area);
    assert Offset(1, w) == Offset(0, w) + w + 1;
  }

  /** A split that shares equally, on `n` equal panes. */
  lemma ReflowShare(reflow: (Node, Rect) -> Panes, node: Node, area: Rect, n: nat, w: nat)
    requires ReflowsLike(reflow) && node.Split? && Shares(node.ratio, n)
    requires n >= 2 && w >= 1 && Len(area, node.dir) == Span(n, w) <= 0xffff
    ensures var mid, lo := n / 2, Lo(area, node.dir);
      && 0 <= Span(mid, w) && 0 <= Span(n - mid, w) <= Span(n, w)
      && reflow(node, area) == reflow(node.first, Along(area, node.dir, lo, Span(mid, w)))
                             + reflow(node.second, Along(area, node.dir, lo + Offset(mid, w), Span(n - mid, w)))
  {
    var mid, lo := n / 2, Lo(area, node.dir);
    EvenShares(n, mid, w);
    assert FirstLen(Span(n, w), node.ratio) == Span(mid, w);
    var (a, b) := SplitRect(area, node.dir, node.ratio);
    assert a == Along(area, node.dir, lo, Span(mid, w));
    assert b == Along(area, node.dir, lo + Offset(mid, w), Span(n - mid, w));
    assert reflow(node, area) == ReflowNode(node, area);
    assert reflow(node.first, a) == ReflowNode(node.first, a) && reflow(node.second, b) == ReflowNode(node.second, b);
  }

  lemma {:induction false} EvenDivides(reflow: (Node, Rect) -> Panes, node: Node, ids: seq<nat>, dir: SplitDir,
      area: Rect, w: nat)
    requires ReflowsLike(reflow)
    requires SharesEvenly(node, ids, dir) && w >= 1 && Len(area, dir) == Span(|ids|, w) <= 0xffff
    ensures SideBySide(reflow(node, area), ids, dir, area, Lo(area, dir), w)
    decreases node, 0
  {
    match node
    case Leaf(id) => ReflowLeaf(reflow, id, dir, area, w);
    case Split(_, _, first, second) =>
      var mid, lo := |ids| / 2, Lo(area, dir);
      ReflowShare(reflow, node, area, |ids|, w);
      var p := EvenPart(reflow, first, ids[..mid], dir, area, lo, w);
      var q := EvenPart(reflow, second, ids[mid..], dir, area, lo + Offset(mid, w), w);
      SideBySideAppend(p, q, ids, mid, dir, area, lo, w);
  }

  lemma {:induction false} EvenPart(reflow: (Node, Rect) -> Panes, node: Node, ids: seq<nat>, dir: SplitDir,
      area: Rect, lo: nat, w: nat) returns (panes: Panes)
    requires ReflowsLike(reflow)
    requires SharesEvenly(node, ids, dir) && w >= 1 && 0 <= Span(|ids|, w) <= 0xffff
    ensures panes == reflow(node, Along(area, dir, lo, Span(|ids|, w)))
    ensures SideBySide(panes, ids, dir, area, lo, w)
    decreases node, 1
  {
    var box := Along(area, dir, lo, Span(|ids|, w));
    EvenDivides(reflow, node, ids, dir, box, w);
    panes := reflow(node, box);
    SideBySideAlong(panes, ids, dir, area, lo, Span(|ids|, w), lo, w);
  }

  /** With `n` panes and `n * (w + 1) - 1` cells along the axis, the recursive ratio-and-round
      construction gives every pane exactly `w` cells, pane `i` starting at `i * (w + 1)`. */
  lemma EvenDividesExactly(ids: seq<nat>, dir: SplitDir, area: Rect, w: nat, i: nat)
    requires w >= 1 && i < |ids|
    requires Len(area, dir) == |ids| * (w + 1) - 1 && Len(area, dir) <= 0xffff
    ensures |ReflowNode(EvenRebuild(ids, dir), area)| == |ids|
    ensures ReflowNode(EvenRebuild(ids, dir), area)[i]
         == Placed(ids[i], Along(area, dir, Lo(area, dir) + i * (w + 1), w))
  {
    OffsetIsProduct(|ids|, w);
    OffsetIsProduct(i, w);
    EvenSharesEvenly(ids, dir);
    EvenDivides((node, box) => ReflowNode(node, box), EvenNode(ids, dir), ids, dir, area, w);
  }

  // ---- Strips of nodes divide exactly ----

  /** The panes of `nodes`, each reflowed into `w` cells along `dir` from `lo` on. */
  function Strips(reflow: (Node, Rect) -> Panes, nodes: seq<Node>, dir: SplitDir, area: Rect, lo: nat, w: nat): Panes {
    if nodes == [] then []
    else reflow(nodes[0], Along(area, dir, lo, w)) + Strips(reflow, nodes[1..], dir, area, lo + w + 1, w)
  }

  lemma {:induction false} StripsSplit(reflow: (Node, Rect) -> Panes, nodes: seq<Node>, mid: nat, dir: SplitDir,
      area: Rect, lo: nat, w: nat)
    requires mid <= |nodes|
    ensures Strips(reflow, nodes, dir, area, lo, w)
         == Strips(reflow, nodes[..mid], dir, area, lo, w)
            + Strips(reflow, nodes[mid..], dir, area, lo + Offset(mid, w), w)
    decreases mid
  {
    if mid == 0 {
      assert nodes[..0] == [] && nodes[0..] == nodes;
    } else {
      StripsSplit(reflow, nodes[1..], mid - 1, dir, area, lo + w + 1, w);
      OffsetAdds(1, mid - 1, w);
      assert Offset(1, w) == Offset(0, w) + w + 1;
      assert nodes[..mid][1..] == nodes[1..][..mid - 1] && nodes[1..][mid - 1..] == nodes[mid..];
    }
  }

  /** A part of the area along the axis keeps the other axis. */
  lemma {:induction false} StripsAlong(reflow: (Node, Rect) -> Panes, nodes: seq<Node>, dir: SplitDir,
      area: Rect, x: nat, len: nat, lo: nat, w: nat)
    ensures Strips(reflow, nodes, dir, Along(area, dir, x, len), lo, w) == Strips(reflow, nodes, dir, area, lo, w)
    decreases |nodes|
  {
    if nodes != [] { StripsAlong(reflow, nodes[1..], dir, area, x, len, lo + w + 1, w); }
  }

  /** A balanced stack gives each of its nodes exactly `w` cells. */
  lemma {:induction false} StackDivides(reflow: (Node, Rect) -> Panes, nodes: seq<Node>, dir: SplitDir,
      area: Rect, w: nat)
    requires ReflowsLike(reflow)
    requires nodes != [] && w >= 1 && Len(area, dir) == Span(|nodes|, w) <= 0xffff
    ensures reflow(StackNodes(nodes, dir), area) == Strips(reflow, nodes, dir, area, Lo(area, dir), w)
    decreases |nodes|, 0
  {
    var n, lo := |nodes|, Lo(area, dir);
    if n == 1 {
      OneStrip(reflow, nodes, dir, area, w);
    } else {
      var mid := n / 2;
      StackShares(nodes, dir);
      ReflowShare(reflow, StackNodes(nodes, dir), area, n, w);
      var a := StackPart(reflow, nodes[..mid], dir, area, lo, w);
      var b := StackPart(reflow, nodes[mid..], dir, area, lo + Offset(mid, w), w);
      StripsSplit(reflow, nodes, mid, dir, area, lo, w);
    }
  }

  lemma StackShares(nodes: seq<Node>, dir: SplitDir)
    requires |nodes| >= 2
    ensures var node, mid := StackNodes(nodes, dir), |nodes| / 2;
      && node.Split? && node.dir == dir && Shares(node.ratio, |nodes|)
      && node.first == StackNodes(nodes[..mid], dir) && node.second == StackNodes(nodes[mid..], dir)
  {
    HalfShares(|nodes|);
  }

  lemma OneStrip(reflow: (Node, Rect) -> Panes, nodes: seq<Node>, dir: SplitDir, area: Rect, w: nat)
    requires |nodes| == 1 && w >= 1 && Len(area, dir) == Span(1, w)
    ensures reflow(StackNodes(nodes, dir), area) == Strips(reflow, nodes, dir, area, Lo(area, dir), w)
  {
    assert Offset(1, w) == Offset(0, w) + w + 1;
    assert Strips(reflow, nodes[1..], dir, area, Lo(area, dir) + w + 1, w) == [];
    assert Along(area, dir, Lo(area, dir), w) == area;
  }

  lemma {:induction false} StackPart(reflow: (Node, Rect) -> Panes, nodes: seq<Node>, dir: SplitDir,
      area: Rect, lo: nat, w: nat) returns (panes: Panes)
    requires ReflowsLike(reflow)
    requires nodes != [] && w >= 1 && 0 <= Span(|nodes|, w) <= 0xffff
    ensures panes == reflow(StackNodes(nodes, dir), Along(area, dir, lo, Span(|nodes|, w)))
    ensures panes == Strips(reflow, nodes, dir, area, lo, w)
    decreases |nodes|, 1
  {
    var box := Along(area, dir, lo, Span(|nodes|, w));
    StackDivides(reflow, nodes, dir, box, w);
    StripsAlong(reflow, nodes, dir, area, lo, Span(|nodes|, w), lo, w);
    panes := reflow(StackNodes(nodes, dir), box);
  }

  // ---- Where the panes of each preset stand ----

  /** The panes stand side by side, left to right, `w` columns each. */
  ghost predicate EvenAcross(panes: Panes, ids: seq<nat>, area: Rect, w: nat) {
    && |panes| == |ids|
    && forall i :: 0 <= i < |ids| ==>
         panes[i] == Placed(ids[i], Rect(StripAt(area.x, i, w), area.y, w, area.rows))
  }

  /** The panes stand above each other, top to bottom, `h` rows each. */
  ghost predicate EvenDown(panes: Panes, ids: seq<nat>, area: Rect, h: nat) {
    && |panes| == |ids|
    && forall i :: 0 <= i < |ids| ==>
         panes[i] == Placed(ids[i], Rect(area.x, StripAt(area.y, i, h), area.cols, h))
  }

  /** The first pane fills the left half; the others, `h` rows each, are stacked on the right. */
  ghost predicate MainOnTheLeft(panes: Panes, ids: seq<nat>, area: Rect, h: nat) {
    var half := area.cols / 2;
    && |panes| == |ids| > 0 && half + 1 <= area.cols
    && panes[0] == Placed(ids[0], Rect(area.x, area.y, half, area.rows))
    && forall i :: 1 <= i < |ids| ==>
         panes[i] == Placed(ids[i], Rect(area.x + half + 1, StripAt(area.y, i - 1, h), area.cols - half - 1, h))
  }

  /** The first pane fills the top half; the others, `w` columns each, stand side by side below. */
  ghost predicate MainOnTop(panes: Panes, ids: seq<nat>, area: Rect, w: nat) {
    var half := area.rows / 2;
    && |panes| == |ids| > 0 && half + 1 <= area.rows
    && panes[0] == Placed(ids[0], Rect(area.x, area.y, area.cols, half))
    && forall i :: 1 <= i < |ids| ==>
         panes[i] == Placed(ids[i], Rect(StripAt(area.x, i - 1, w), area.y + half + 1, w, area.rows - half - 1))
  }

  /** Where strip `i` starts, in strips of `w` cells and a divider. */
  function StripAt(lo: nat, i: nat, w: nat): nat {
    lo + i * (w + 1)
  }

  lemma HalfSplit(area: Rect)
    ensures 3 <= area.cols <= 0xffff ==> var half := area.cols / 2;
      SplitRect(area, Horizontal, 0.5) == (Rect(area.x, area.y, half, area.rows),
        Rect(area.x + half + 1, area.y, area.cols - half - 1, area.rows))
    ensures 3 <= area.rows <= 0xffff ==> var half := area.rows / 2;
      SplitRect(area, Vertical, 0.5) == (Rect(area.x, area.y, area.cols, half),
        Rect(area.x, area.y + half + 1, area.cols, area.rows - half - 1))
  {
    if area.cols <= 0xffff { FirstLenOfHalf(area.cols); }
    if area.rows <= 0xffff { FirstLenOfHalf(area.rows); }
  }

  lemma MainReflow(reflow: (Node, Rect) -> Panes, ids: seq<nat>, axis: SplitDir, area: Rect)
    requires ReflowsLike(reflow) && |ids| >= 2
    ensures var (a, b) := SplitRect(area, axis, 0.5);
      reflow(MainRebuild(ids, axis), area) == [Placed(ids[0], a)] + reflow(EvenRebuild(ids[1..], Other(axis)), b)
  {
    var (a, b) := SplitRect(area, axis, 0.5);
    var others := EvenNode(ids[1..], Other(axis));
    assert reflow(MainRebuild(ids, axis), area) == ReflowNode(MainRebuild(ids, axis), area);
    assert reflow(others, b) == ReflowNode(others, b);
  }

  /** An even layout, with reflow kept abstract. */
  lemma EvenStands(reflow: (Node, Rect) -> Panes, ids: seq<nat>, dir: SplitDir, area: Rect, w: nat)
    requires ReflowsLike(reflow) && w >= 1 && ids != []
    requires Len(area, dir) == |ids| * (w + 1) - 1 <= 0xffff
    ensures var panes := reflow(EvenRebuild(ids, dir), area);
      && |panes| == |ids|
      && forall i :: 0 <= i < |ids| ==> panes[i] == Placed(ids[i], Along(area, dir, StripAt(Lo(area, dir), i, w), w))
  {
    OffsetIsProduct(|ids|, w);
    EvenSharesEvenly(ids, dir);
    EvenDivides(reflow, EvenNode(ids, dir), ids, dir, area, w);
    forall i: nat ensures Offset(i, w) == i * (w + 1) { OffsetIsProduct(i, w); }
  }

  lemma MainLeftStands(reflow: (Node, Rect) -> Panes, ids: seq<nat>, area: Rect, h: nat)
    requires ReflowsLike(reflow) && |ids| >= 2 && h >= 1 && 3 <= area.cols <= 0xffff
    requires area.rows == (|ids| - 1) * (h + 1) - 1 <= 0xffff
    ensures MainOnTheLeft(reflow(MainRebuild(ids, Horizontal), area), ids, area, h)
  {
    HalfSplit(area);
    MainReflow(reflow, ids, Horizontal, area);
    EvenStands(reflow, ids[1..], Vertical, SplitRect(area, Horizontal, 0.5).1, h);
  }

  lemma MainTopStands(reflow: (Node, Rect) -> Panes, ids: seq<nat>, area: Rect, w: nat)
    requires ReflowsLike(reflow) && |ids| >= 2 && w >= 1 && 3 <= area.rows <= 0xffff
    requires area.cols == (|ids| - 1) * (w + 1) - 1 <= 0xffff
    ensures MainOnTop(reflow(MainRebuild(ids, Vertical), area), ids, area, w)
  {
    HalfSplit(area);
    MainReflow(reflow, ids, Vertical, area);
    EvenStands(reflow, ids[1..], Horizontal, SplitRect(area, Vertical, 0.5).1, w);
  }

  lemma LeastSquareUnique(n: nat, c: nat, d: nat)
    requires c * c >= n && (c == 0 || (c - 1) * (c - 1) < n) && d * d >= n && (d == 0 || (d - 1) * (d - 1) < n)
    ensures c == d
  {
    if c < d { SquareMonotone(c, d - 1); }
    if d < c { SquareMonotone(d, c - 1); }
  }

  lemma SquareMonotone(a: nat, b: nat)
    requires a <= b
    ensures a * a <= b * b
  {
    MulMonotone(a, b, a);
    MulMonotone(a, b, b);
  }

  /** How many of `n` panes stand in row `r`, in rows of `cols`. */
  function InRow(n: nat, cols: nat, r: nat): int {
    Min(cols, n - CellIndex(r, cols, 0))
  }

  lemma RowFollows(n: nat, cols: nat, r: nat, j: nat, lo: nat, h: nat)
    requires r > 0 && cols > 0 && j < InRow(n, cols, r)
    ensures n > cols && InRow(n - cols, cols, r - 1) == InRow(n, cols, r)
    ensures CellIndex(r, cols, j) == cols + CellIndex(r - 1, cols, j)
    ensures StripAt(lo + h + 1, r - 1, h) == StripAt(lo, r, h)
  {
    assert r * cols == (r - 1) * cols + cols;
    assert r * (h + 1) == (r - 1) * (h + 1) + (h + 1);
  }

  /** The panes of rows of `cols` from `lo` on; the induction over the rows need not look inside. */
  ghost predicate StripsLike(rows: (seq<nat>, nat) -> Panes, reflow: (Node, Rect) -> Panes, cols: nat, area: Rect,
      h: nat)
    requires cols > 0
  {
    forall ids, lo {:trigger Strips(reflow, ChunkNodes(ids, cols), Vertical, area, lo, h)} ::
      rows(ids, lo) == Strips(reflow, ChunkNodes(ids, cols), Vertical, area, lo, h)
  }

  /** The first row of the chunks, and the rest of them below it. */
  lemma ChunkStrips(rows: (seq<nat>, nat) -> Panes, reflow: (Node, Rect) -> Panes, ids: seq<nat>, cols: nat, area: Rect,
      lo: nat, h: nat)
    requires cols > 0 && ids != [] && StripsLike(rows, reflow, cols, area, h)
    ensures var n := Min(cols, |ids|);
      rows(ids, lo) == reflow(EvenRebuild(ids[..n], Horizontal), area.(y := lo, rows := h))
                       + rows(ids[n..], lo + h + 1)
  {
    var n := Min(cols, |ids|);
    var rest := ChunkNodes(ids[n..], cols);
    assert ([EvenNode(ids[..n], Horizontal)] + rest)[1..] == rest;
    assert rows(ids, lo) == Strips(reflow, ChunkNodes(ids, cols), Vertical, area, lo, h);
    assert rows(ids[n..], lo + h + 1) == Strips(reflow, rest, Vertical, area, lo + h + 1, h);
  }

  lemma EvenCount(reflow: (Node, Rect) -> Panes, ids: seq<nat>, dir: SplitDir, area: Rect)
    requires ReflowsLike(reflow) && ids != []
    ensures |reflow(EvenRebuild(ids, dir), area)| == |ids|
  {
    EvenKeepsIds(ids, dir);
    ReflowIds(EvenNode(ids, dir), area);
    assert reflow(EvenRebuild(ids, dir), area) == ReflowNode(EvenNode(ids, dir), area);
  }

  lemma FirstRowStands(reflow: (Node, Rect) -> Panes, ids: seq<nat>, n: nat, row: Rect, w: nat, j: nat)
    requires ReflowsLike(reflow) && w >= 1 && j < n <= |ids| && row.cols == n * (w + 1) - 1 <= 0xffff
    ensures var panes := reflow(EvenRebuild(ids[..n], Horizontal), row);
      |panes| == n && panes[j] == Placed(ids[j], Rect(StripAt(row.x, j, w), row.y, w, row.rows))
  {
    EvenStands(reflow, ids[..n], Horizontal, row, w);
  }

  /** Pane `i`, the `j`th of row `r` in rows of `cols` panes; the row starts at `y` and has `m`. */
  lemma {:induction false} ChunkStands(rows: (seq<nat>, nat) -> Panes, reflow: (Node, Rect) -> Panes, ids: seq<nat>,
      cols: nat, area: Rect, lo: nat, h: nat, w: nat, r: nat, j: nat, i: nat, y: nat, m: nat)
    requires ReflowsLike(reflow) && cols > 0 && StripsLike(rows, reflow, cols, area, h)
    requires w >= 1 && j < m == InRow(|ids|, cols, r) && area.cols == m * (w + 1) - 1 <= 0xffff
    requires i == CellIndex(r, cols, j) && y == StripAt(lo, r, h)
    ensures i < |ids| && i < |rows(ids, lo)|
    ensures rows(ids, lo)[i] == Placed(ids[i], Rect(StripAt(area.x, j, w), y, w, h))
    decreases r
  {
    var n := Min(cols, |ids|);
    var row := area.(y := lo, rows := h);
    ChunkStrips(rows, reflow, ids, cols, area, lo, h);
    if r == 0 {
      FirstRowStands(reflow, ids, n, row, w, j);
    } else {
      RowFollows(|ids|, cols, r, j, lo, h);
      EvenCount(reflow, ids[..n], Horizontal, row);
      ChunkStands(rows, reflow, ids[n..], cols, area, lo + h + 1, h, w, r - 1, j, i - cols, y, m);
    }
  }

  /** Row `r` of rows of `cols` panes and `h` rows: its panes stand side by side, `w` columns each. */
  ghost predicate TiledRow(panes: Panes, ids: seq<nat>, cols: nat, area: Rect, h: nat, r: nat, w: nat) {
    forall j :: 0 <= j < InRow(|ids|, cols, r) ==>
      var i := CellIndex(r, cols, j);
      i < |ids| && i < |panes| && panes[i] == Placed(ids[i], Rect(StripAt(area.x, j, w), StripAt(area.y, r, h), w, h))
  }

  /** `k` rows of `cols` hold `n` panes, and `k - 1` do not. */
  predicate FillsRows(n: nat, cols: nat, k: nat) {
    k > 0 && CellIndex(k - 1, cols, 0) < n <= CellIndex(k, cols, 0)
  }

  lemma {:induction false} ChunkCount(ids: seq<nat>, cols: nat, k: nat)
    requires cols > 0 && FillsRows(|ids|, cols, k)
    ensures |ChunkNodes(ids, cols)| == k
    decreases k
  {
    assert CellIndex(k, cols, 0) == CellIndex(k - 1, cols, 0) + cols;
    if k == 1 {
      assert ids[|ids|..] == [];
    } else {
      assert CellIndex(k - 1, cols, 0) == CellIndex(k - 2, cols, 0) + cols;
      ChunkCount(ids[cols..], cols, k - 1);
    }
  }

  /** `cols` is the least number whose square reaches `n`. */
  predicate IsCeilSqrt(cols: nat, n: nat) {
    cols > 0 && cols * cols >= n && (cols - 1) * (cols - 1) < n
  }

  lemma RowStands(rows: (seq<nat>, nat) -> Panes, reflow: (Node, Rect) -> Panes, ids: seq<nat>, cols: nat, area: Rect,
      h: nat, r: nat, w: nat)
    requires ReflowsLike(reflow) && cols > 0 && StripsLike(rows, reflow, cols, area, h) && w >= 1
    requires area.cols == InRow(|ids|, cols, r) * (w + 1) - 1 <= 0xffff
    ensures TiledRow(rows(ids, area.y), ids, cols, area, h, r, w)
  {
    forall j | 0 <= j < InRow(|ids|, cols, r)
      ensures var panes, i := rows(ids, area.y), CellIndex(r, cols, j);
        && i < |ids| && i < |panes|
        && panes[i] == Placed(ids[i], Rect(StripAt(area.x, j, w), StripAt(area.y, r, h), w, h))
    {
      ChunkStands(rows, reflow, ids, cols, area, area.y, h, w, r, j,
        CellIndex(r, cols, j), StripAt(area.y, r, h), InRow(|ids|, cols, r));
    }
  }

  lemma TiledIsStrips(reflow: (Node, Rect) -> Panes, ids: seq<nat>, cols: nat, k: nat, area: Rect, h: nat)
    requires ReflowsLike(reflow) && |ids| >= 2 && IsCeilSqrt(cols, |ids|) && FillsRows(|ids|, cols, k)
    requires h >= 1 && area.rows == k * (h + 1) - 1 <= 0xffff
    ensures reflow(TiledRebuild(ids), area) == Strips(reflow, ChunkNodes(ids, cols), Vertical, area, area.y, h)
  {
    LeastSquareUnique(|ids|, CeilSqrtFrom(|ids|, 0), cols);
    ChunkCount(ids, cols, k);
    OffsetIsProduct(k, h);
    StackDivides(reflow, ChunkNodes(ids, cols), Vertical, area, h);
  }

  lemma TiledStands(reflow: (Node, Rect) -> Panes, ids: seq<nat>, cols: nat, k: nat, area: Rect, h: nat, r: nat, w: nat)
    requires ReflowsLike(reflow) && |ids| >= 2 && IsCeilSqrt(cols, |ids|) && FillsRows(|ids|, cols, k)
    requires h >= 1 && w >= 1 && area.rows == k * (h + 1) - 1 <= 0xffff
    requires area.cols == InRow(|ids|, cols, r) * (w + 1) - 1 <= 0xffff
    ensures TiledRow(reflow(TiledRebuild(ids), area), ids, cols, area, h, r, w)
  {
    var rows := (some: seq<nat>, lo: nat) => Strips(reflow, ChunkNodes(some, cols), Vertical, area, lo, h);
    TiledIsStrips(reflow, ids, cols, k, area, h);
    RowStands(rows, reflow, ids, cols, area, h, r, w);
    assert rows(ids, area.y) == Strips(reflow, ChunkNodes(ids, cols), Vertical, area, area.y, h);
  }

  /** The layout a preset's name or short name asks for. */
  function Chosen(name: string, ids: seq<nat>): Node
    requires ids != []
  {
    var preset := PresetNamed(name);
    if preset.Some? then NamedPreset(ids, preset.value) else Leaf(0)
  }

  /** even-horizontal and even-vertical, when the panes and dividers just fill the window. */
  lemma EvenPresets(name: string, ids: seq<nat>, area: Rect, w: nat)
    requires ids != [] && w >= 1 && area.cols <= 0xffff && area.rows <= 0xffff
    ensures (name == "even-horizontal" || name == "eh") && area.cols == |ids| * (w + 1) - 1 ==>
      EvenAcross(ReflowNode(Chosen(name, ids), area), ids, area, w)
    ensures (name == "even-vertical" || name == "ev") && area.rows == |ids| * (w + 1) - 1 ==>
      EvenDown(ReflowNode(Chosen(name, ids), area), ids, area, w)
  {
    var reflow := (node, box) => ReflowNode(node, box);
    if area.cols == |ids| * (w + 1) - 1 { EvenStands(reflow, ids, Horizontal, area, w); }
    if area.rows == |ids| * (w + 1) - 1 { EvenStands(reflow, ids, Vertical, area, w); }
  }

  lemma MainNames(name: string, ids: seq<nat>)
    requires ids != []
    ensures name == "main-vertical" || name == "mv" ==> Chosen(name, ids) == MainRebuild(ids, Horizontal)
    ensures name == "main-horizontal" || name == "mh" ==> Chosen(name, ids) == MainRebuild(ids, Vertical)
  {
  }

  /** main-vertical, when the other panes just fill their half. */
  lemma MainVerticalPreset(name: string, ids: seq<nat>, area: Rect, h: nat)
    requires name == "main-vertical" || name == "mv"
    requires |ids| >= 2 && h >= 1 && 3 <= area.cols <= 0xffff && area.rows == (|ids| - 1) * (h + 1) - 1 <= 0xffff
    ensures MainOnTheLeft(ReflowNode(Chosen(name, ids), area), ids, area, h)
  {
    var reflow := (node, box) => ReflowNode(node, box);
    MainNames(name, ids);
    MainLeftStands(reflow, ids, area, h);
    assert reflow(Chosen(name, ids), area) == ReflowNode(Chosen(name, ids), area);
  }

  /** main-horizontal, when the other panes just fill their half. */
  lemma MainHorizontalPreset(name: string, ids: seq<nat>, area: Rect, w: nat)
    requires name == "main-horizontal" || name == "mh"
    requires |ids| >= 2 && w >= 1 && 3 <= area.rows <= 0xffff && area.cols == (|ids| - 1) * (w + 1) - 1 <= 0xffff
    ensures MainOnTop(ReflowNode(Chosen(name, ids), area), ids, area, w)
  {
    var reflow := (node, box) => ReflowNode(node, box);
    MainNames(name, ids);
    MainTopStands(reflow, ids, area, w);
    assert reflow(Chosen(name, ids), area) == ReflowNode(Chosen(name, ids), area);
  }

  lemma TiledNames(name: string, ids: seq<nat>)
    requires ids != []
    ensures name == "tiled" || name == "tiled-layout" ==> Chosen(name, ids) == TiledRebuild(ids)
  {
  }

  /** tiled: rows of as many panes as the rounded-up square root of their number. */
  lemma TiledPreset(name: string, ids: seq<nat>, cols: nat, k: nat, area: Rect, h: nat, r: nat, w: nat)
    requires name == "tiled" || name == "tiled-layout"
    requires |ids| >= 2 && IsCeilSqrt(cols, |ids|) && FillsRows(|ids|, cols, k)
    requires h >= 1 && w >= 1 && area.rows == k * (h + 1) - 1 <= 0xffff
    requires area.cols == InRow(|ids|, cols, r) * (w + 1) - 1 <= 0xffff
    ensures TiledRow(ReflowNode(Chosen(name, ids), area), ids, cols, area, h, r, w)
  {
    var reflow := (node, box) => ReflowNode(node, box);
    TiledNames(name, ids);
    TiledStands(reflow, ids, cols, k, area, h, r, w);
    assert reflow(Chosen(name, ids), area) == ReflowNode(Chosen(name, ids), area);
  }

  // ---- Presets in a window of any size ----

  /** The panes stand side by side over the full height, left to right. */
  ghost predicate Across(panes: Panes, ids: seq<nat>, area: Rect) {
    && |panes| == |ids|
    && (forall i :: 0 <= i < |panes| ==>
          panes[i].id == ids[i] && panes[i].rect.y == area.y && panes[i].rect.rows == area.rows)
    && (forall i, j :: 0 <= i < j < |panes| ==> panes[i].rect.x + panes[i].rect.cols <= panes[j].rect.x)
  }

  /** The panes stand above each other over the full width, top to bottom. */
  ghost predicate Down(panes: Panes, ids: seq<nat>, area: Rect) {
    && |panes| == |ids|
    && (forall i :: 0 <= i < |panes| ==>
          panes[i].id == ids[i] && panes[i].rect.x == area.x && panes[i].rect.cols == area.cols)
    && (forall i, j :: 0 <= i < j < |panes| ==> panes[i].rect.y + panes[i].rect.rows <= panes[j].rect.y)
  }

  /** All splits of the tree divide along `dir`. */
  predicate AllAlong(node: Node, dir: SplitDir) {
    node.Leaf? || (node.dir == dir && AllAlong(node.first, dir) && AllAlong(node.second, dir))
  }

  lemma {:induction false} EvenAllAlong(ids: seq<nat>, dir: SplitDir)
    requires ids != []
    ensures AllAlong(EvenNode(ids, dir), dir)
    decreases |ids|
  {
    if |ids| > 1 {
      var mid := Max(|ids| / 2, 1);
      EvenAllAlong(ids[..mid], dir);
      EvenAllAlong(ids[mid..], dir);
    }
  }

  lemma AcrossBoth(p: Panes, q: Panes, ids: seq<nat>, ids': seq<nat>, a: Rect, b: Rect, area: Rect, n: nat)
    requires Across(p, ids, a) && Across(q, ids', b) && BesideEachOther(area, a, b, n)
    requires forall i :: 0 <= i < |p| ==> Within(p[i].rect, a)
    requires forall i :: 0 <= i < |q| ==> Within(q[i].rect, b)
    ensures Across(p + q, ids + ids', area)
  {
  }

  lemma DownBoth(p: Panes, q: Panes, ids: seq<nat>, ids': seq<nat>, a: Rect, b: Rect, area: Rect, n: nat)
    requires Down(p, ids, a) && Down(q, ids', b) && AboveEachOther(area, a, b, n)
    requires forall i :: 0 <= i < |p| ==> Within(p[i].rect, a)
    requires forall i :: 0 <= i < |q| ==> Within(q[i].rect, b)
    ensures Down(p + q, ids + ids', area)
  {
  }

  lemma {:induction false} AlongStands(node: Node, dir: SplitDir, area: Rect)
    requires AllAlong(node, dir)
    ensures dir == Horizontal ==> Across(ReflowNode(node, area), Ids(node), area)
    ensures dir == Vertical ==> Down(ReflowNode(node, area), Ids(node), area)
  {
    match node
    case Leaf(_) =>
    case Split(_, ratio, first, second) =>
      var (a, b) := SplitRect(area, dir, ratio);
      SplitShares(area, dir, ratio);
      AlongStands(first, dir, a);
      AlongStands(second, dir, b);
      PanesWithin(first, a);
      PanesWithin(second, b);
      var p, q := ReflowNode(first, a), ReflowNode(second, b);
      if dir == Horizontal {
        AcrossBoth(p, q, Ids(first), Ids(second), a, b, area, FirstLen(area.cols, ratio));
      } else {
        DownBoth(p, q, Ids(first), Ids(second), a, b, area, FirstLen(area.rows, ratio));
      }
  }

  lemma EvenNames(name: string, ids: seq<nat>)
    requires ids != []
    ensures name == "even-horizontal" || name == "eh" ==> Chosen(name, ids) == EvenNode(ids, Horizontal)
    ensures name == "even-vertical" || name == "ev" ==> Chosen(name, ids) == EvenNode(ids, Vertical)
  {
  }

  /** Whatever the size of the window, the even presets put the panes in order along their axis. */
  lemma EvenAnySize(name: string, ids: seq<nat>, area: Rect)
    requires ids != []
    ensures name == "even-horizontal" || name == "eh" ==> Across(ReflowNode(Chosen(name, ids), area), ids, area)
    ensures name == "even-vertical" || name == "ev" ==> Down(ReflowNode(Chosen(name, ids), area), ids, area)
  {
    EvenNames(name, ids);
    EvenStandsAlong(ids, Horizontal, area);
    EvenStandsAlong(ids, Vertical, area);
  }

  lemma EvenStandsAlong(ids: seq<nat>, dir: SplitDir, area: Rect)
    requires ids != []
    ensures dir == Horizontal ==> Across(ReflowNode(EvenNode(ids, dir), area), ids, area)
    ensures dir == Vertical ==> Down(ReflowNode(EvenNode(ids, dir), area), ids, area)
  {
    EvenAllAlong(ids, dir);
    EvenKeepsIds(ids, dir);
    AlongStands(EvenNode(ids, dir), dir, area);
  }

  /** A first pane in `main`, and other panes. */
  predicate MainAnd(panes: Panes, id: nat, main: Rect, others: Panes) {
    panes == [Placed(id, main)] + others
  }

  /** Whatever the size of the window, the main presets put the first pane on the left or top half
      and the others, in order, down or across the rest. */
  lemma MainAnySize(name: string, ids: seq<nat>, area: Rect) returns (others: Panes)
    requires |ids| >= 2 && 3 <= area.cols <= 0xffff && 3 <= area.rows <= 0xffff
    ensures name == "main-vertical" || name == "mv" ==>
      var half := area.cols / 2;
      && MainAnd(ReflowNode(Chosen(name, ids), area), ids[0], Rect(area.x, area.y, half, area.rows), others)
      && Down(others, ids[1..], Rect(area.x + half + 1, area.y, area.cols - half - 1, area.rows))
    ensures name == "main-horizontal" || name == "mh" ==>
      var half := area.rows / 2;
      && MainAnd(ReflowNode(Chosen(name, ids), area), ids[0], Rect(area.x, area.y, area.cols, half), others)
      && Across(others, ids[1..], Rect(area.x, area.y + half + 1, area.cols, area.rows - half - 1))
  {
    var reflow := (node, box) => ReflowNode(node, box);
    var axis := if name == "main-vertical" || name == "mv" then Horizontal else Vertical;
    var rest := SplitRect(area, axis, 0.5).1;
    MainNames(name, ids);
    HalfSplit(area);
    MainReflow(reflow, ids, axis, area);
    EvenStandsAlong(ids[1..], Other(axis), rest);
    others := reflow(EvenRebuild(ids[1..], Other(axis)), rest);
    assert others == ReflowNode(EvenNode(ids[1..], Other(axis)), rest);
    assert reflow(Chosen(name, ids), area) == ReflowNode(Chosen(name, ids), area);
  }

  /** Boxes over the full width, top to bottom. */
  ghost predicate Stacked(boxes: seq<Rect>, area: Rect) {
    && (forall r :: 0 <= r < |boxes| ==>
          boxes[r].x == area.x && boxes[r].cols == area.cols && Within(boxes[r], area))
    && (forall i, j :: 0 <= i < j < |boxes| ==> boxes[i].y + boxes[i].rows <= boxes[j].y)
  }

  function Joined(parts: seq<Panes>): Panes {
    if parts == [] then [] else parts[0] + Joined(parts[1..])
  }

  lemma {:induction false} JoinedAppend(a: seq<Panes>, b: seq<Panes>)
    ensures Joined(a + b) == Joined(a) + Joined(b)
    decreases |a|
  {
    if a == [] {
      assert a + b == b;
    } else {
      JoinedAppend(a[1..], b);
      assert (a + b)[1..] == a[1..] + b;
    }
  }

  /** Each node reflowed into its box. */
  function Parts(reflow: (Node, Rect) -> Panes, nodes: seq<Node>, boxes: seq<Rect>): (r: seq<Panes>)
    requires |nodes| == |boxes|
    ensures |r| == |nodes| && forall i :: 0 <= i < |r| ==> r[i] == reflow(nodes[i], boxes[i])
  {
    seq(|nodes|, i requires 0 <= i < |nodes| => reflow(nodes[i], boxes[i]))
  }

  lemma PartsAppend(reflow: (Node, Rect) -> Panes, a: seq<Node>, b: seq<Node>, x: seq<Rect>, y: seq<Rect>)
    requires |a| == |x| && |b| == |y|
    ensures Parts(reflow, a + b, x + y) == Parts(reflow, a, x) + Parts(reflow, b, y)
  {
  }

  lemma StackedBoth(x: seq<Rect>, y: seq<Rect>, a: Rect, b: Rect, area: Rect, n: nat)
    requires Stacked(x, a) && Stacked(y, b) && AboveEachOther(area, a, b, n)
    ensures Stacked(x + y, area)
  {
  }

  /** A stack, in a window of any size. */
  lemma {:induction false} StackStands(reflow: (Node, Rect) -> Panes, nodes: seq<Node>, area: Rect)
    returns (boxes: seq<Rect>)
    requires ReflowsLike(reflow) && nodes != []
    ensures |boxes| == |nodes| && Stacked(boxes, area)
    ensures reflow(StackNodes(nodes, Vertical), area) == Joined(Parts(reflow, nodes, boxes))
    decreases |nodes|
  {
    if |nodes| == 1 {
      boxes := [area];
      assert Parts(reflow, nodes, boxes)[1..] == [];
    } else {
      var mid := |nodes| / 2;
      var ratio := mid as real / |nodes| as real;
      var (a, b) := SplitRect(area, Vertical, ratio);
      var x := StackStands(reflow, nodes[..mid], a);
      var y := StackStands(reflow, nodes[mid..], b);
      boxes := x + y;
      SplitShares(area, Vertical, ratio);
      StackedBoth(x, y, a, b, area, FirstLen(area.rows, ratio));
      assert nodes[..mid] + nodes[mid..] == nodes;
      PartsAppend(reflow, nodes[..mid], nodes[mid..], x, y);
      JoinedAppend(Parts(reflow, nodes[..mid], x), Parts(reflow, nodes[mid..], y));
      StackSplits(reflow, nodes, area);
    }
  }

  lemma StackSplits(reflow: (Node, Rect) -> Panes, nodes: seq<Node>, area: Rect)
    requires ReflowsLike(reflow) && |nodes| >= 2
    ensures var mid := |nodes| / 2;
      var (a, b) := SplitRect(area, Vertical, mid as real / |nodes| as real);
      reflow(StackNodes(nodes, Vertical), area)
      == reflow(StackNodes(nodes[..mid], Vertical), a) + reflow(StackNodes(nodes[mid..], Vertical), b)
  {
    var mid := |nodes| / 2;
    var (a, b) := SplitRect(area, Vertical, mid as real / |nodes| as real);
    var first, second := StackNodes(nodes[..mid], Vertical), StackNodes(nodes[mid..], Vertical);
    assert reflow(first, a) == ReflowNode(first, a) && reflow(second, b) == ReflowNode(second, b);
    assert reflow(StackNodes(nodes, Vertical), area) == ReflowNode(StackNodes(nodes, Vertical), area);
  }

  /** The ids in row `r`. */
  function RowIds(ids: seq<nat>, cols: nat, r: nat): seq<nat> {
    if 0 <= InRow(|ids|, cols, r) then ids[CellIndex(r, cols, 0)..CellIndex(r, cols, 0) + InRow(|ids|, cols, r)] else []
  }

  lemma {:induction false} ChunkAt(ids: seq<nat>, cols: nat, r: nat)
    requires cols > 0 && r < |ChunkNodes(ids, cols)|
    ensures RowIds(ids, cols, r) != [] && ChunkNodes(ids, cols)[r] == EvenNode(RowIds(ids, cols, r), Horizontal)
    decreases r
  {
    var n := Min(cols, |ids|);
    var rest := ChunkNodes(ids[n..], cols);
    assert ChunkNodes(ids, cols) == [EvenNode(ids[..n], Horizontal)] + rest;
    if r == 0 {
      assert CellIndex(0, cols, 0) == 0 && RowIds(ids, cols, 0) == ids[..n];
    } else {
      ChunkAt(ids[n..], cols, r - 1);
      RowShifts(ids, cols, n, r);
    }
  }

  lemma RowShifts(ids: seq<nat>, cols: nat, n: nat, r: nat)
    requires cols > 0 && r > 0 && n == Min(cols, |ids|) && RowIds(ids[n..], cols, r - 1) != []
    ensures RowIds(ids, cols, r) == RowIds(ids[n..], cols, r - 1)
  {
    assert r * cols == (r - 1) * cols + cols;
    assert n == cols;
    assert InRow(|ids|, cols, r) == InRow(|ids[n..]|, cols, r - 1);
  }

  /** Whatever the size of the window, tiled stacks rows, each with the next `cols` panes in
      order across its box. */
  lemma TiledAnySize(name: string, ids: seq<nat>, cols: nat, area: Rect) returns (boxes: seq<Rect>, parts: seq<Panes>)
    requires (name == "tiled" || name == "tiled-layout") && |ids| >= 2 && IsCeilSqrt(cols, |ids|)
    ensures |boxes| == |parts| && Stacked(boxes, area) && ReflowNode(Chosen(name, ids), area) == Joined(parts)
    ensures forall r :: 0 <= r < |parts| ==>
      RowIds(ids, cols, r) != [] && Across(parts[r], RowIds(ids, cols, r), boxes[r])
  {
    var reflow := (node, box) => ReflowNode(node, box);
    var nodes := ChunkNodes(ids, cols);
    LeastSquareUnique(|ids|, CeilSqrtFrom(|ids|, 0), cols);
    TiledNames(name, ids);
    boxes := StackStands(reflow, nodes, area);
    parts := Parts(reflow, nodes, boxes);
    forall r | 0 <= r < |parts|
      ensures RowIds(ids, cols, r) != [] && Across(parts[r], RowIds(ids, cols, r), boxes[r])
    {
      ChunkAt(ids, cols, r);
      EvenStandsAlong(RowIds(ids, cols, r), Horizontal, boxes[r]);
    }
    assert reflow(Chosen(name, ids), area) == ReflowNode(Chosen(name, ids), area);
  }

  /** Cycling goes from even-horizontal to even-vertical, to tiled and round again. */
  lemma CycleOrder(ids: seq<nat>)
    requires ids != []
    ensures CyclePreset(ids, 0) == (Chosen("even-vertical", ids), 1)
    ensures CyclePreset(ids, 1) == (Chosen("tiled", ids), 2)
    ensures CyclePreset(ids, 2) == (Chosen("even-horizontal", ids), 0)
  {
  }
}
