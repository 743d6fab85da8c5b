/** Editing the layout tree: split, remove and border resize (src/layout/mod.rs). */
module LayoutEdit {
  import opened Ints
  import opened LayoutTree

  function ContainsId(node: Node, id: nat): (b: bool)
    ensures b <==> id in Ids(node)
  {
    match node
    case Leaf(i) => i == id
    case Split(_, _, first, second) => ContainsId(first, id) || ContainsId(second, id)
  }

  // ---- Split and remove ----

  /** Replace the first leaf `target` by a split holding it and `added`; also whether there
      was such a leaf. */
  function SplitNode(node: Node, target: nat, dir: SplitDir, added: nat, ratio: real): (Node, bool) {
    match node
    case Leaf(id) =>
      if id == target then (Split(dir, ratio, Leaf(target), Leaf(added)), true) else (node, false)
    case Split(d, r, first, second) =>
      var (first', ok) := SplitNode(first, target, dir, added, ratio);
      if ok then (Split(d, r, first', second), true)
      else var (second', ok2) := SplitNode(second, target, dir, added, ratio);
           (Split(d, r, first', second'), ok2)
  }

  /** Remove a leaf below the root, promoting its sibling. */
  function RemoveNode(node: Node, id: nat): (Node, bool) {
    match node
    case Leaf(_) => (node, false)
    case Split(d, r, first, second) =>
      if first == Leaf(id) then (second, true)
      else if second == Leaf(id) then (first, true)
      else
        var (first', ok) := RemoveNode(first, id);
        if ok then (Split(d, r, first', second), true)
        else var (second', ok2) := RemoveNode(second, id);
             (Split(d, r, first', second'), ok2)
  }

  /** `added` follows the first occurrence of `target`. */
  ghost predicate Inserted(before: seq<nat>, after: seq<nat>, target: nat, added: nat) {
    exists pre: seq<nat>, post: seq<nat> ::
      before == pre + [target] + post && target !in pre && after == pre + [target, added] + post
  }

  /** One occurrence of `id` is gone. */
  ghost predicate Dropped(before: seq<nat>, after: seq<nat>, id: nat) {
    exists pre: seq<nat>, post: seq<nat> :: before == pre + [id] + post && after == pre + post
  }

  lemma InsertedBetween(l: seq<nat>, before: seq<nat>, after: seq<nat>, r: seq<nat>, target: nat, added: nat)
    requires Inserted(before, after, target, added) && target !in l
    ensures Inserted(l + before + r, l + after + r, target, added)
  {
    var pre, post :| before == pre + [target] + post && target !in pre && after == pre + [target, added] + post;
    assert l + before + r == (l + pre) + [target] + (post + r);
    assert l + after + r == (l + pre) + [target, added] + (post + r);
  }

  lemma DroppedBetween(l: seq<nat>, before: seq<nat>, after: seq<nat>, r: seq<nat>, id: nat)
    requires Dropped(before, after, id)
    ensures Dropped(l + before + r, l + after + r, id)
  {
    var pre, post :| before == pre + [id] + post && after == pre + post;
    assert l + before + r == (l + pre) + [id] + (post + r);
    assert l + after + r == (l + pre) + (post + r);
  }

  /** Splitting succeeds exactly when the target is a leaf; then the new id follows the
      target's first occurrence, and otherwise nothing changes. */
  lemma {:induction false} SplitNodeIds(node: Node, target: nat, dir: SplitDir, added: nat, ratio: real)
    ensures var (node', ok) := SplitNode(node, target, dir, added, ratio);
      && (ok <==> target in Ids(node))
      && (!ok ==> node' == node)
      && (ok ==> node'.Split? && Inserted(Ids(node), Ids(node'), target, added))
  {
    match node
    case Leaf(id) =>
      if id == target {
        var none: seq<nat> := [];
        assert Ids(node) == none + [target] + none;
        assert Ids(SplitNode(node, target, dir, added, ratio).0) == none + [target, added] + none;
      }
    case Split(d, r, first, second) =>
      SplitNodeIds(first, target, dir, added, ratio);
      var (first', ok) := SplitNode(first, target, dir, added, ratio);
      var (second', ok2) := SplitNode(second, target, dir, added, ratio);
      if ok {
        InsertedBetween([], Ids(first), Ids(first'), Ids(second), target, added);
        assert [] + Ids(first) == Ids(first) && [] + Ids(first') == Ids(first');
      } else {
        SplitNodeIds(second, target, dir, added, ratio);
        if ok2 {
          InsertedBetween(Ids(first), Ids(second), Ids(second'), [], target, added);
          assert Ids(first) + Ids(second) + [] == Ids(first) + Ids(second);
          assert Ids(first) + Ids(second') + [] == Ids(first) + Ids(second');
        }
      }
  }

  /** The pane `added` shares the box of `target`, which stands at `k`: side by side for a
      horizontal split, above each other for a vertical one, the target first and with the
      ratio's share. All other panes stand where they stood. */
  ghost predicate SharedBox(was: Panes, now: Panes, k: nat, target: nat, dir: SplitDir, added: nat, ratio: real) {
    && k < |was| && |now| == |was| + 1 && was[k].id == target && (forall i :: 0 <= i < k ==> was[i].id != target)
    && (forall i :: 0 <= i < k ==> now[i] == was[i])
    && (forall i :: k < i < |was| ==> now[i + 1] == was[i])
    && now[k].id == target && now[k + 1].id == added
    && (var box := was[k].rect;
        if dir == Horizontal then BesideEachOther(box, now[k].rect, now[k + 1].rect, FirstLen(box.cols, ratio))
        else AboveEachOther(box, now[k].rect, now[k + 1].rect, FirstLen(box.rows, ratio)))
  }

  /** What a split does to the panes on the screen. */
  lemma {:induction false} SplitReflow(node: Node, target: nat, dir: SplitDir, added: nat, ratio: real, area: Rect)
    returns (k: nat)
    requires target in Ids(node)
    ensures var after := SplitNode(node, target, dir, added, ratio).0;
      SharedBox(ReflowNode(node, area), ReflowNode(after, area), k, target, dir, added, ratio)
  {
    match node
    case Leaf(_) =>
      k := 0;
      SplitShares(area, dir, ratio);
    case Split(d, r, first, second) =>
      var (a, b) := SplitRect(area, d, r);
      SplitNodeIds(first, target, dir, added, ratio);
      var pa, pb := ReflowNode(first, a), ReflowNode(second, b);
      if target in Ids(first) {
        k := SplitReflow(first, target, dir, added, ratio, a);
        var now := ReflowNode(SplitNode(first, target, dir, added, ratio).0, a);
        SharedInFront(pa, now, pb, k, target, dir, added, ratio);
      } else {
        k := SplitReflow(second, target, dir, added, ratio, b);
        ReflowIds(first, a);
        var now := ReflowNode(SplitNode(second, target, dir, added, ratio).0, b);
        SharedBehind(pa, pb, now, k, target, dir, added, ratio);
        k := |pa| + k;
      }
  }

  /** Whatever the size of the window, `added` shares the box of `target`. */
  ghost predicate SplitsPane(before: Node, after: Node, target: nat, dir: SplitDir, added: nat, ratio: real) {
    forall area: Rect :: SplitsIn(before, after, target, dir, added, ratio, area)
  }

  ghost predicate SplitsIn(before: Node, after: Node, target: nat, dir: SplitDir, added: nat, ratio: real, area: Rect) {
    exists k: nat :: SharedBox(ReflowNode(before, area), ReflowNode(after, area), k, target, dir, added, ratio)
  }

  lemma SplitSplitsPane(node: Node, target: nat, dir: SplitDir, added: nat, ratio: real)
    requires target in Ids(node)
    ensures SplitsPane(node, SplitNode(node, target, dir, added, ratio).0, target, dir, added, ratio)
  {
    var after := SplitNode(node, target, dir, added, ratio).0;
    forall area: Rect ensures SplitsIn(node, after, target, dir, added, ratio, area) {
      var k := SplitReflow(node, target, dir, added, ratio, area);
    }
  }

  /** The pane `added` takes the right or lower half of the box of `target`. */
  ghost predicate HalvesPane(was: Panes, now: Panes, target: nat, dir: SplitDir, added: nat) {
    exists k: nat :: SharedBox(was, now, k, target, dir, added, 0.5)
      && (var box := was[k].rect;
          if dir == Horizontal then BesideEachOther(box, now[k].rect, now[k + 1].rect, HalfOf(box.cols))
          else AboveEachOther(box, now[k].rect, now[k + 1].rect, HalfOf(box.rows)))
  }

  function HalfOf(total: nat): nat {
    if total == 1 then 1 else total / 2
  }

  lemma SplitHalves(before: Node, after: Node, cols: u16, rows: u16, target: nat, dir: SplitDir, added: nat)
    requires SplitsPane(before, after, target, dir, added, 0.5)
    ensures HalvesPane(Reflow(before, cols, rows), Reflow(after, cols, rows), target, dir, added)
  {
    var was, now := Reflow(before, cols, rows), Reflow(after, cols, rows);
    assert SplitsIn(before, after, target, dir, added, 0.5, Window(cols, rows));
    var k: nat :| SharedBox(was, now, k, target, dir, added, 0.5);
    PanesWithin(before, Window(cols, rows));
    SharedHalf(was, now, k, target, dir, added);
  }

  lemma SharedHalf(was: Panes, now: Panes, k: nat, target: nat, dir: SplitDir, added: nat)
    requires SharedBox(was, now, k, target, dir, added, 0.5)
    requires was[k].rect.cols <= 0xffff && was[k].rect.rows <= 0xffff
    ensures HalvesPane(was, now, target, dir, added)
  {
    FirstLenOfHalf(was[k].rect.cols);
    FirstLenOfHalf(was[k].rect.rows);
  }

  lemma SharedInFront(was: Panes, now: Panes, rest: Panes, k: nat, target: nat, dir: SplitDir, added: nat, ratio: real)
    requires SharedBox(was, now, k, target, dir, added, ratio)
    ensures SharedBox(was + rest, now + rest, k, target, dir, added, ratio)
  {
  }

  lemma SharedBehind(front: Panes, was: Panes, now: Panes, k: nat, target: nat, dir: SplitDir, added: nat, ratio: real)
    requires SharedBox(was, now, k, target, dir, added, ratio) && target !in IdsOf(front)
    ensures SharedBox(front + was, front + now, |front| + k, target, dir, added, ratio)
  {
    forall i | 0 <= i < |front| ensures front[i].id != target {
      assert IdsOf(front)[i] == front[i].id;
    }
  }

  /** Removing succeeds exactly for a leaf below the root; then exactly one occurrence of
      the id leaves the order, and otherwise nothing changes. */
  lemma {:induction false} RemoveNodeIds(node: Node, id: nat)
    ensures var (node', ok) := RemoveNode(node, id);
      && (ok <==> node.Split? && id in Ids(node))
      && (!ok ==> node' == node)
      && (ok ==> Dropped(Ids(node), Ids(node'), id))
  {
    match node
    case Leaf(_) =>
    case Split(d, r, first, second) =>
      if first == Leaf(id) {
        assert Ids(node) == [] + [id] + Ids(second) && Ids(second) == [] + Ids(second);
      } else if second == Leaf(id) {
        assert Ids(node) == Ids(first) + [id] + [] && Ids(first) == Ids(first) + [];
      } else {
        RemoveNodeIds(first, id);
        RemoveNodeIds(second, id);
        var (first', ok) := RemoveNode(first, id);
        var (second', ok2) := RemoveNode(second, id);
        if ok {
          DroppedBetween([], Ids(first), Ids(first'), Ids(second), id);
          assert [] + Ids(first) == Ids(first) && [] + Ids(first') == Ids(first');
        } else if ok2 {
          DroppedBetween(Ids(first), Ids(second), Ids(second'), [], id);
          assert Ids(first) + Ids(second) + [] == Ids(first) + Ids(second);
          assert Ids(first) + Ids(second') + [] == Ids(first) + Ids(second');
        }
      }
  }

  /** On the screen, the other child of the split that held the pane is laid out in the split's
      whole box; all other panes stand where they stood. */
  ghost predicate GivesUpBox(before: Node, after: Node, id: nat, area: Rect, split: Node, sibling: Node, box: Rect) {
    && split.Split?
    && ((split.first == Leaf(id) && sibling == split.second) || (split.second == Leaf(id) && sibling == split.first))
    && Exchanged(ReflowNode(before, area), ReflowNode(after, area), ReflowNode(split, box), ReflowNode(sibling, box))
  }

  /** `part` in `was` is exchanged for `part'`, with the same before and after it. */
  ghost predicate Exchanged(was: Panes, now: Panes, part: Panes, part': Panes) {
    exists pre: Panes, post: Panes :: was == pre + part + post && now == pre + part' + post
  }

  lemma ExchangedInFirst(was: Panes, now: Panes, part: Panes, part': Panes, second: Panes)
    requires Exchanged(was, now, part, part')
    ensures Exchanged(was + second, now + second, part, part')
  {
    var pre: Panes, post: Panes :| was == pre + part + post && now == pre + part' + post;
    assert was + second == pre + part + (post + second) && now + second == pre + part' + (post + second);
  }

  lemma ExchangedInSecond(was: Panes, now: Panes, part: Panes, part': Panes, first: Panes)
    requires Exchanged(was, now, part, part')
    ensures Exchanged(first + was, first + now, part, part')
  {
    var pre: Panes, post: Panes :| was == pre + part + post && now == pre + part' + post;
    assert first + was == (first + pre) + part + post && first + now == (first + pre) + part' + post;
  }

  lemma ExchangedAll(part: Panes, part': Panes)
    ensures Exchanged(part, part', part, part')
  {
    var none: Panes := [];
    assert part == none + part + none && part' == none + part' + none;
  }

  lemma {:induction false} RemoveReflow(node: Node, id: nat, area: Rect) returns (split: Node, sibling: Node, box: Rect)
    requires node.Split? && id in Ids(node)
    ensures GivesUpBox(node, RemoveNode(node, id).0, id, area, split, sibling, box)
  {
    var (a, b) := SplitRect(area, node.dir, node.ratio);
    if node.first == Leaf(id) || node.second == Leaf(id) {
      split, sibling, box := node, if node.first == Leaf(id) then node.second else node.first, area;
      ExchangedAll(ReflowNode(split, box), ReflowNode(sibling, box));
    } else {
      RemoveNodeIds(node.first, id);
      if RemoveNode(node.first, id).1 {
        split, sibling, box := RemoveReflow(node.first, id, a);
        GivesUpInFirst(node, RemoveNode(node.first, id).0, id, area, split, sibling, box);
      } else {
        split, sibling, box := RemoveReflow(node.second, id, b);
        GivesUpInSecond(node, RemoveNode(node.second, id).0, id, area, split, sibling, box);
      }
    }
  }

  lemma GivesUpInFirst(node: Node, first': Node, id: nat, area: Rect, split: Node, sibling: Node, box: Rect)
    requires node.Split?
    requires GivesUpBox(node.first, first', id, SplitRect(area, node.dir, node.ratio).0, split, sibling, box)
    ensures GivesUpBox(node, node.(first := first'), id, area, split, sibling, box)
  {
    var (a, b) := SplitRect(area, node.dir, node.ratio);
    ExchangedInFirst(ReflowNode(node.first, a), ReflowNode(first', a), ReflowNode(split, box), ReflowNode(sibling, box),
      ReflowNode(node.second, b));
  }

  lemma GivesUpInSecond(node: Node, second': Node, id: nat, area: Rect, split: Node, sibling: Node, box: Rect)
    requires node.Split?
    requires GivesUpBox(node.second, second', id, SplitRect(area, node.dir, node.ratio).1, split, sibling, box)
    ensures GivesUpBox(node, node.(second := second'), id, area, split, sibling, box)
  {
    var (a, b) := SplitRect(area, node.dir, node.ratio);
    ExchangedInSecond(ReflowNode(node.second, b), ReflowNode(second', b), ReflowNode(split, box),
      ReflowNode(sibling, box), ReflowNode(node.first, a));
  }

  /** Whatever the size of the window. */
  ghost predicate LeavesBox(before: Node, after: Node, id: nat) {
    forall area: Rect :: LeavesIn(before, after, id, area)
  }

  ghost predicate LeavesIn(before: Node, after: Node, id: nat, area: Rect) {
    exists split, sibling, box :: GivesUpBox(before, after, id, area, split, sibling, box)
  }

  lemma RemoveLeavesBox(node: Node, id: nat)
    requires node.Split? && id in Ids(node)
    ensures LeavesBox(node, RemoveNode(node, id).0, id)
  {
    var after := RemoveNode(node, id).0;
    forall area: Rect ensures LeavesIn(node, after, id, area) {
      var split, sibling, box := RemoveReflow(node, id, area);
    }
  }

  /** Split and remove are inverse: removing a fresh pane just split off gives back the
      identical tree, ratios included. */
  lemma {:induction false} SplitThenRemove(node: Node, target: nat, dir: SplitDir, added: nat, ratio: real)
    requires target in Ids(node) && added !in Ids(node)
    ensures RemoveNode(SplitNode(node, target, dir, added, ratio).0, added) == (node, true)
  {
    match node
    case Leaf(_) =>
    case Split(d, r, first, second) =>
      SplitNodeIds(first, target, dir, added, ratio);
      if target in Ids(first) {
        SplitThenRemove(first, target, dir, added, ratio);
        assert added !in Ids(second);
      } else {
        SplitThenRemove(second, target, dir, added, ratio);
        SplitNodeIds(second, target, dir, added, ratio);
        RemoveNodeIds(first, added);
        assert added !in Ids(first);
      }
  }

  // ---- Border resize ----

  /** `apply_size_change`: the nearest ancestor split along `axis` that can move. */
  function ChangeSize(node: Node, pane: nat, axis: SplitDir, change: int, area: Rect): (Node, bool) {
    match node
    case Leaf(_) => (node, false)
    case Split(dir, ratio, first, second) =>
      var (a, b) := SplitRect(area, dir, ratio);
      var inFirst, inSecond := ContainsId(first, pane), ContainsId(second, pane);
      if !inFirst && !inSecond then (node, false)
      else
        var (first', ok1) := if inFirst then ChangeSize(first, pane, axis, change, a) else (first, false);
        if ok1 then (Split(dir, ratio, first', second), true)
        else
          var (second', ok2) := if inSecond then ChangeSize(second, pane, axis, change, b) else (second, false);
          if ok2 then (Split(dir, ratio, first', second'), true)
          else if dir != axis || Len(area, axis) <= 2 then (Split(dir, ratio, first', second'), false)
          else
            var usable := Len(area, axis) - 1;
            var firstSize := Len(a, axis);
            var newFirst := Clamp(firstSize + (if inFirst then change else -change), 1, usable - 1);
            if newFirst == firstSize then (Split(dir, ratio, first', second'), false)
            else (Split(dir, newFirst as real / usable as real, first', second'), true)
  }

  /** The size `change` asks of the first child of a split along `axis`. */
  function WantedFirst(split: Node, pane: nat, axis: SplitDir, change: int, area: Rect): int
    requires split.Split?
  {
    Clamp(FirstLen(Len(area, axis), split.ratio) + (if pane in Ids(split.first) then change else -change),
          1, Len(area, axis) - 2)
  }

  /** This split divides along `axis`, holds the pane, and its border can move. */
  predicate MovableHere(node: Node, pane: nat, axis: SplitDir, change: int, area: Rect) {
    && node.Split? && node.dir == axis && pane in Ids(node) && Len(area, axis) > 2
    && WantedFirst(node, pane, axis, change, area) != FirstLen(Len(area, axis), node.ratio)
  }

  /** Some ancestor split of the pane is movable. */
  predicate Movable(node: Node, pane: nat, axis: SplitDir, change: int, area: Rect) {
    match node
    case Leaf(_) => false
    case Split(dir, ratio, first, second) =>
      var (a, b) := SplitRect(area, dir, ratio);
      || MovableHere(node, pane, axis, change, area)
      || Movable(first, pane, axis, change, a)
      || Movable(second, pane, axis, change, b)
  }

  /** Only this split's ratio differs; it is the nearest movable one, and its first child
      comes out at exactly the wanted size. */
  ghost predicate MovedHere(before: Node, after: Node, pane: nat, axis: SplitDir, change: int, area: Rect) {
    && after.Split?
    && MovableHere(before, pane, axis, change, area)
    && after == before.(ratio := after.ratio)
    && (var (a, b) := SplitRect(area, before.dir, before.ratio);
        !Movable(before.first, pane, axis, change, a) && !Movable(before.second, pane, axis, change, b))
    && FirstLen(Len(area, axis), after.ratio) == WantedFirst(before, pane, axis, change, area)
  }

  /** `after` is `before` with exactly one split moved, somewhere. */
  ghost predicate Moved(before: Node, after: Node, pane: nat, axis: SplitDir, change: int, area: Rect) {
    before.Split? && after.Split? &&
    var (a, b) := SplitRect(area, before.dir, before.ratio);
    || MovedHere(before, after, pane, axis, change, area)
    || (after == before.(first := after.first) && Moved(before.first, after.first, pane, axis, change, a))
    || (after == before.(second := after.second) && Moved(before.second, after.second, pane, axis, change, b))
  }

  predicate Is16Bit(area: Rect) {
    area.cols <= 0xffff && area.rows <= 0xffff
  }

  /** Storing a size as a ratio and rounding it back is exact. */
  lemma RatioRoundTrip(n: nat, usable: nat)
    requires 1 <= n < usable < 0xffff
    ensures FirstLen(usable + 1, n as real / usable as real) == n
  {
    var ratio := n as real / usable as real;
    assert usable as real * ratio == n as real;
  }

  lemma {:induction false} NotThereNotMovable(node: Node, pane: nat, axis: SplitDir, change: int, area: Rect)
    requires pane !in Ids(node)
    ensures !Movable(node, pane, axis, change, area)
  {
    match node
    case Leaf(_) =>
    case Split(dir, ratio, first, second) =>
      var (a, b) := SplitRect(area, dir, ratio);
      NotThereNotMovable(first, pane, axis, change, a);
      NotThereNotMovable(second, pane, axis, change, b);
  }

  /** It succeeds exactly when some ancestor border can move, then one nearest such border moves
      to exactly the wanted place, and otherwise nothing changes. */
  ghost predicate ResizesExactly(node: Node, pane: nat, axis: SplitDir, change: int, area: Rect) {
    var (node', ok) := ChangeSize(node, pane, axis, change, area);
    && (ok <==> Movable(node, pane, axis, change, area))
    && (ok ==> Moved(node, node', pane, axis, change, area))
    && (!ok ==> node' == node)
  }

  /** Border resize is exact. */
  lemma {:induction false} ChangeSizeExact(node: Node, pane: nat, axis: SplitDir, change: int, area: Rect)
    requires Is16Bit(area)
    ensures ResizesExactly(node, pane, axis, change, area)
  {
    match node
    case Leaf(_) =>
    case Split(dir, ratio, first, second) =>
      var (a, b) := SplitRect(area, dir, ratio);
      ChangeSizeExact(first, pane, axis, change, a);
      ChangeSizeExact(second, pane, axis, change, b);
      if pane !in Ids(first) { NotThereNotMovable(first, pane, axis, change, a); }
      if pane !in Ids(second) { NotThereNotMovable(second, pane, axis, change, b); }
      if Movable(first, pane, axis, change, a) {
        MovesFirst(node, pane, axis, change, area);
      } else if Movable(second, pane, axis, change, b) {
        MovesSecond(node, pane, axis, change, area);
      } else if MovableHere(node, pane, axis, change, area) {
        MoveHereExact(node, pane, axis, change, area);
      } else {
        MovesNothing(node, pane, axis, change, area);
      }
  }

  lemma MovesFirst(node: Node, pane: nat, axis: SplitDir, change: int, area: Rect)
    requires node.Split? && pane in Ids(node.first)
    requires var (a, b) := SplitRect(area, node.dir, node.ratio);
      Movable(node.first, pane, axis, change, a) && ResizesExactly(node.first, pane, axis, change, a)
    ensures ResizesExactly(node, pane, axis, change, area)
  {
    var (a, b) := SplitRect(area, node.dir, node.ratio);
    assert ChangeSize(node, pane, axis, change, area)
        == (node.(first := ChangeSize(node.first, pane, axis, change, a).0), true);
  }

  lemma MovesSecond(node: Node, pane: nat, axis: SplitDir, change: int, area: Rect)
    requires node.Split? && pane in Ids(node.second)
    requires var (a, b) := SplitRect(area, node.dir, node.ratio);
      && !Movable(node.first, pane, axis, change, a) && ResizesExactly(node.first, pane, axis, change, a)
      && Movable(node.second, pane, axis, change, b) && ResizesExactly(node.second, pane, axis, change, b)
    ensures ResizesExactly(node, pane, axis, change, area)
  {
    var (a, b) := SplitRect(area, node.dir, node.ratio);
    assert ChangeSize(node, pane, axis, change, area)
        == (node.(second := ChangeSize(node.second, pane, axis, change, b).0), true);
  }

  lemma MovesNothing(node: Node, pane: nat, axis: SplitDir, change: int, area: Rect)
    requires node.Split? && !Movable(node, pane, axis, change, area)
    requires var (a, b) := SplitRect(area, node.dir, node.ratio);
      ResizesExactly(node.first, pane, axis, change, a) && ResizesExactly(node.second, pane, axis, change, b)
    ensures ResizesExactly(node, pane, axis, change, area)
  {
    assert ChangeSize(node, pane, axis, change, area) == (node, false);
  }

  lemma MoveHereExact(node: Node, pane: nat, axis: SplitDir, change: int, area: Rect)
    requires Is16Bit(area) && MovableHere(node, pane, axis, change, area)
    requires var (a, b) := SplitRect(area, node.dir, node.ratio);
      && !Movable(node.first, pane, axis, change, a) && !Movable(node.second, pane, axis, change, b)
      && ResizesExactly(node.first, pane, axis, change, a) && ResizesExactly(node.second, pane, axis, change, b)
    ensures ResizesExactly(node, pane, axis, change, area)
  {
    RatioRoundTrip(WantedFirst(node, pane, axis, change, area), Len(area, axis) - 1);
  }

  /** From `k` on, `part` stands in `was` where `part'` stands in `now`; the rest is the same. */
  ghost predicate PartChanged<T>(was: seq<T>, now: seq<T>, part: seq<T>, part': seq<T>, k: nat) {
    && |part| == |part'| && k + |part| <= |was| == |now|
    && was[k..k + |part|] == part && now[k..k + |part|] == part'
    && (forall i :: 0 <= i < |was| && !(k <= i < k + |part|) ==> now[i] == was[i])
  }

  lemma PartOfFirst<T>(was: seq<T>, now: seq<T>, part: seq<T>, part': seq<T>, k: nat, second: seq<T>)
    requires PartChanged(was, now, part, part', k)
    ensures PartChanged(was + second, now + second, part, part', k)
  {
    assert (was + second)[k..k + |part|] == was[k..k + |part|];
    assert (now + second)[k..k + |part|] == now[k..k + |part|];
  }

  lemma PartOfSecond<T>(was: seq<T>, now: seq<T>, part: seq<T>, part': seq<T>, k: nat, first: seq<T>)
    requires PartChanged(was, now, part, part', k)
    ensures PartChanged(first + was, first + now, part, part', |first| + k)
  {
    assert (first + was)[|first| + k..|first| + k + |part|] == was[k..k + |part|];
    assert (first + now)[|first| + k..|first| + k + |part|] == now[k..k + |part|];
  }

  /** The split whose border moved, before and after, its area, and how many panes stand before
      it. All others stand where they stood. */
  ghost predicate IsChange(before: Node, after: Node, area: Rect, split: Node, split': Node, box: Rect, k: nat) {
    PartChanged(ReflowNode(before, area), ReflowNode(after, area), ReflowNode(split, box), ReflowNode(split', box), k)
  }

  lemma IsChangeFirst(before: Node, after: Node, area: Rect, split: Node, split': Node, box: Rect, k: nat)
    requires before.Split? && after.Split? && after == before.(first := after.first)
    requires IsChange(before.first, after.first, SplitRect(area, before.dir, before.ratio).0, split, split', box, k)
    ensures IsChange(before, after, area, split, split', box, k)
  {
    var (a, b) := SplitRect(area, before.dir, before.ratio);
    PartOfFirst(ReflowNode(before.first, a), ReflowNode(after.first, a), ReflowNode(split, box),
      ReflowNode(split', box), k, ReflowNode(before.second, b));
  }

  lemma IsChangeSecond(before: Node, after: Node, area: Rect, split: Node, split': Node, box: Rect, k: nat)
    requires before.Split? && after.Split? && after == before.(second := after.second)
    requires IsChange(before.second, after.second, SplitRect(area, before.dir, before.ratio).1, split, split', box, k)
    ensures IsChange(before, after, area, split, split', box,
              |ReflowNode(before.first, SplitRect(area, before.dir, before.ratio).0)| + k)
  {
    var (a, b) := SplitRect(area, before.dir, before.ratio);
    PartOfSecond(ReflowNode(before.second, b), ReflowNode(after.second, b), ReflowNode(split, box),
      ReflowNode(split', box), k, ReflowNode(before.first, a));
  }

  lemma IsChangeHere(before: Node, after: Node, area: Rect)
    requires Ids(before) == Ids(after)
    ensures IsChange(before, after, area, before, after, area, 0)
  {
    ReflowIds(before, area);
    ReflowIds(after, area);
    assert ReflowNode(before, area)[0..|Ids(before)|] == ReflowNode(before, area);
    assert ReflowNode(after, area)[0..|Ids(after)|] == ReflowNode(after, area);
  }

  /** Panes outside the split whose border moved keep their rectangles. */
  lemma {:induction false} OthersStayPut(before: Node, after: Node, pane: nat, axis: SplitDir, change: int, area: Rect)
    returns (split: Node, split': Node, box: Rect, k: nat)
    requires Moved(before, after, pane, axis, change, area)
    ensures Ids(before) == Ids(after)
    ensures MovedHere(split, split', pane, axis, change, box)
    ensures IsChange(before, after, area, split, split', box, k)
  {
    var (a, b) := SplitRect(area, before.dir, before.ratio);
    if MovedHere(before, after, pane, axis, change, area) {
      split, split', box, k := before, after, area, 0;
      IsChangeHere(before, after, area);
    } else if after == before.(first := after.first) && Moved(before.first, after.first, pane, axis, change, a) {
      split, split', box, k := OthersStayPut(before.first, after.first, pane, axis, change, a);
      IsChangeFirst(before, after, area, split, split', box, k);
    } else {
      split, split', box, k := OthersStayPut(before.second, after.second, pane, axis, change, b);
      IsChangeSecond(before, after, area, split, split', box, k);
      k := k + |ReflowNode(before.first, a)|;
    }
  }
}
