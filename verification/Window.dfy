/** A window: panes, focus, zoom and layout kept in step (src/server/window.rs). */
module Windows {
  import opened Ints
  import opened Wrappers
  import opened LayoutTree
  import opened LayoutEdit
  import opened LayoutPresets
  import opened LayoutFormat
  import opened Layouts
  import Focus = LayoutFocus

  /** A pane as far as the window manages it. */
  datatype Pane = Pane(id: nat, rows: nat, cols: nat)

  datatype Removed = NotFound | PaneRemoved | WindowEmpty

  datatype Command =
    | SplitPane(dir: SplitDir, target: Option<nat>)
    | RemovePane(id: nat)
    | FocusNext
    | FocusPrev
    | FocusTowards(towards: FocusDir)
    | FocusPane(id: nat)
    | ToggleZoom
    | Unzoom
    | NextLayout
    | SelectLayout(name: string)
    | ResizeBorder(id: nat, towards: FocusDir, amount: u16)
    | ResizeWindow(rows: u16, cols: u16)

  /** The pane a command names, by default the active one. */
  function Resolve(target: Option<nat>, active: nat): nat {
    if target.Some? then target.value else active
  }

  predicate MovesFocus(c: Command) {
    c.FocusNext? || c.FocusPrev? || c.FocusTowards? || c.FocusPane?
  }

  function PaneIds(panes: seq<Pane>): (r: seq<nat>)
    ensures |r| == |panes| && forall i :: 0 <= i < |r| ==> r[i] == panes[i].id
  {
    seq(|panes|, i requires 0 <= i < |panes| => panes[i].id)
  }

  /** Both sequences list the same ids, each once. */
  ghost predicate SameIds(a: seq<nat>, b: seq<nat>) {
    && Distinct(a) && Distinct(b) && |a| == |b|
    && forall x :: x in a <==> x in b
  }

  /** `there` comes `step` places after `here`, going round. */
  ghost predicate StepsRound(ids: seq<nat>, here: nat, there: nat, step: nat) {
    exists pos {:trigger ids[pos]} :: 0 <= pos < |ids| && ids[pos] == here && there == ids[(pos + step) % |ids|]
  }

  /** `there` is the neighbour of `here` in that direction, or `here` where it has none. */
  ghost predicate GoesTowards(geom: Panes, here: nat, there: nat, dir: FocusDir) {
    exists moved: Option<nat> :: Focus.PointsTo(geom, here, LeafRect(geom, here), dir, moved)
      && there == if moved.Some? then moved.value else here
  }

  lemma WentTowards(geom: Panes, here: nat, dir: FocusDir, moved: Option<nat>)
    requires Focus.PointsTo(geom, here, LeafRect(geom, here), dir, moved)
    ensures GoesTowards(geom, here, if moved.Some? then moved.value else here, dir)
  {
  }

  /** `tree` is `before` with pane `added` split off `target`: it follows it in the order, the two
      share the target's old rectangle in halves, and removing it undoes the split. */
  ghost predicate SplitOff(before: Node, tree: Node, cols: u16, rows: u16, target: nat, dir: SplitDir, added: nat) {
    && tree == SplitNode(before, target, dir, added, 0.5).0
    && Inserted(Ids(before), Ids(tree), target, added)
    && HalvesPane(Reflow(before, cols, rows), Reflow(tree, cols, rows), target, dir, added)
    && RemoveNode(tree, added) == (before, true)
  }

  predicate HasSize(p: Pane, r: Rect) {
    p.rows == r.rows && p.cols == r.cols
  }

  lemma DroppedDistinct(before: seq<nat>, after: seq<nat>, id: nat)
    requires Distinct(before) && Dropped(before, after, id)
    ensures Distinct(after) && |after| + 1 == |before| && forall x :: x in after <==> x in before && x != id
  {
    var pre, post :| before == pre + [id] + post && after == pre + post;
    assert before[|pre|] == id;
    forall x | x in before && x != id ensures x in after {
      var i :| 0 <= i < |before| && before[i] == x;
      assert after[if i < |pre| then i else i - 1] == x;
    }
    forall i | 0 <= i < |after|
      ensures after[i] == before[if i < |pre| then i else i + 1]
    {
    }
  }

  lemma PaneDropped(panes: seq<Pane>, idx: nat)
    requires idx < |panes| && Distinct(PaneIds(panes))
    ensures var before, after, id := PaneIds(panes), PaneIds(panes[..idx] + panes[idx + 1..]), panes[idx].id;
      && Dropped(before, after, id) && Distinct(after) && |after| + 1 == |before|
      && forall x :: x in after <==> x in before && x != id
  {
    var before, after, id := PaneIds(panes), PaneIds(panes[..idx] + panes[idx + 1..]), panes[idx].id;
    assert before == before[..idx] + [id] + before[idx + 1..];
    assert after == before[..idx] + before[idx + 1..];
    DroppedDistinct(before, after, id);
  }

  lemma SameIdAt(panes: seq<Pane>, ids: seq<nat>, i: nat)
    requires i < |panes| && ids == PaneIds(panes)
    ensures panes[i].id == ids[i]
  {
  }

  lemma InsertedAt(before: seq<nat>, after: seq<nat>, target: nat, added: nat) returns (k: nat)
    requires Inserted(before, after, target, added)
    ensures k < |before| && |after| == |before| + 1
    ensures forall i {:trigger after[i]} :: 0 <= i < |after| ==>
      after[i] == if i <= k then before[i] else if i == k + 1 then added else before[i - 1]
  {
    var pre, post :| before == pre + [target] + post && target !in pre && after == pre + [target, added] + post;
    k := |pre|;
  }

  lemma InsertedDistinct(before: seq<nat>, after: seq<nat>, target: nat, added: nat)
    requires Distinct(before) && Inserted(before, after, target, added) && added !in before
    ensures Distinct(after) && |after| == |before| + 1 && forall x :: x in after <==> x in before || x == added
  {
    var k := InsertedAt(before, after, target, added);
    forall x | x in before ensures x in after {
      var i :| 0 <= i < |before| && before[i] == x;
      var j := if i <= k then i else i + 1;
      assert after[j] == x;
    }
    assert after[k + 1] == added;
    forall i, j | 0 <= i < j < |after| ensures after[i] != after[j] {
      var i', j' := if i <= k then i else i - 1, if j <= k then j else j - 1;
      if i != k + 1 && j != k + 1 { assert before[i'] != before[j']; }
    }
  }

  class Window {
    var panes: seq<Pane>
    var activePane: nat
    const layout: Layout
    var rows: nat
    var cols: nat
    var zoomed: bool
    var layoutKind: u8

    ghost predicate Valid()
      reads this, layout
    {
      && SameIds(PaneIds(panes), Ids(layout.root))
      && activePane < |panes|
      && (zoomed ==> |panes| >= 2)
      && layoutKind < 3
      && rows <= 0xffff && cols <= 0xffff
    }

    /** Unzoomed, every pane has the size reflow gives it; zoomed, the active pane fills the
        window. */
    ghost predicate Sized()
      requires Valid()
      reads this, layout
    {
      if zoomed then HasSize(panes[activePane], LayoutTree.Window(cols, rows))
      else forall i :: 0 <= i < |panes| ==>
        HasSize(panes[i], LeafRect(Reflow(layout.root, cols, rows), panes[i].id))
    }

    function ActiveId(): nat
      requires activePane < |panes|
      reads this
    {
      panes[activePane].id
    }

    /** A window around one pane.  It is already in shape unless a dimension is zero. */
    constructor (id: nat, rows: u16, cols: u16)
      ensures Valid() && fresh(layout)
      ensures panes == [Pane(id, rows, cols)] && ActiveId() == id && !zoomed && layout.root == Leaf(id)
      ensures this.rows == rows && this.cols == cols
      ensures Sized() <==> rows >= 1 && cols >= 1
    {
      panes, activePane := [Pane(id, rows, cols)], 0;
      layout := new Layout(id);
      this.rows, this.cols, zoomed, layoutKind := rows, cols, false, 0;
      new;
      assert Ids(layout.root) == [id];
      assert PaneIds(panes) == [id];
      assert Reflow(layout.root, cols, rows) == [Placed(id, LayoutTree.Window(cols, rows))];
    }

    /** `pane_index_by_id`. */
    method IndexOf(id: nat) returns (i: Option<nat>)
      ensures i.None? <==> id !in PaneIds(panes)
      ensures i.Some? ==> i.value < |panes| && panes[i.value].id == id
    {
      for k := 0 to |panes|
        invariant forall j :: 0 <= j < k ==> panes[j].id != id
      {
        if panes[k].id == id {
          assert PaneIds(panes)[k] == id;
          return Some(k);
        }
      }
      return None;
    }

    /** Give pane `i` a size. */
    method SetSize(i: nat, rows: nat, cols: nat)
      requires i < |panes|
      modifies this`panes
      ensures panes == old(panes)[i := Pane(old(panes)[i].id, rows, cols)]
      ensures PaneIds(panes) == old(PaneIds(panes))
    {
      if panes[i].rows != rows || panes[i].cols != cols {
        panes := panes[i := Pane(panes[i].id, rows, cols)];
      }
    }

    /** Apply layout geometry to every pane, or the zoom size to the active one. */
    method ReflowPanes()
      requires Valid()
      modifies this`panes
      ensures Valid() && Sized() && PaneIds(panes) == old(PaneIds(panes))
      ensures zoomed ==> forall i :: 0 <= i < |panes| && i != activePane ==> panes[i] == old(panes)[i]
    {
      if zoomed {
        ApplyZoomSize();
        return;
      }
      var geom := Reflow(layout.root, cols, rows);
      ReflowIds(layout.root, LayoutTree.Window(cols, rows));
      LookupDistinct(geom);
      for k := 0 to |geom|
        invariant PaneIds(panes) == old(PaneIds(panes))
        invariant forall i :: 0 <= i < |panes| && panes[i].id in IdsOf(geom)[..k] ==>
          HasSize(panes[i], LeafRect(geom, panes[i].id))
      {
        var i := IndexOf(geom[k].id);
        if i.Some? { SetSize(i.value, geom[k].rect.rows, geom[k].rect.cols); }
        assert IdsOf(geom)[..k + 1] == IdsOf(geom)[..k] + [geom[k].id];
      }
      assert IdsOf(geom)[..|geom|] == Ids(layout.root);
    }

    method ApplyZoomSize()
      requires Valid() && zoomed
      modifies this`panes
      ensures Valid() && Sized() && PaneIds(panes) == old(PaneIds(panes))
      ensures forall i :: 0 <= i < |panes| && i != activePane ==> panes[i] == old(panes)[i]
    {
      SetSize(activePane, Max(rows, 1), Max(cols, 1));
    }

    // ---- Focus ----

    method FocusPaneId(id: nat) returns (ok: bool)
      requires Valid()
      modifies this`panes, this`activePane
      ensures Valid() && (old(Sized()) ==> Sized()) && PaneIds(panes) == old(PaneIds(panes))
      ensures ok <==> id in PaneIds(panes)
      ensures ActiveId() == if ok then id else old(ActiveId())
      ensures !zoomed ==> panes == old(panes)
    {
      var i := IndexOf(id);
      ok := i.Some?;
      if ok {
        activePane := i.value;
        if zoomed { ApplyZoomSize(); }
      }
    }

    /** Position of the active pane in the layout order. */
    method ActivePosition() returns (pos: nat)
      requires Valid()
      ensures pos < |Ids(layout.root)| && Ids(layout.root)[pos] == ActiveId()
    {
      var ids, cur := Ids(layout.root), ActiveId();
      assert PaneIds(panes)[activePane] == cur;
      assert cur in PaneIds(panes) && cur in ids;
      pos := 0;
      ghost var there :| 0 <= there < |ids| && ids[there] == cur;
      while ids[pos] != cur
        invariant pos <= there
        decreases there - pos
      {
        pos := pos + 1;
      }
    }

    /** Focus `step` places further round the layout order. */
    method FocusStep(step: nat)
      requires Valid()
      modifies this`panes, this`activePane
      ensures Valid() && (old(Sized()) ==> Sized()) && PaneIds(panes) == old(PaneIds(panes))
      ensures StepsRound(Ids(layout.root), old(ActiveId()), ActiveId(), step)
      ensures !zoomed ==> panes == old(panes)
    {
      var ids := Ids(layout.root);
      var pos := ActivePosition();
      var next := ids[(pos + step) % |ids|];
      assert next in ids;
      var _ := FocusPaneId(next);
    }

    method FocusNeighbor(dir: FocusDir) returns (moved: Option<nat>)
      requires Valid()
      modifies this`panes, this`activePane
      ensures Valid() && (old(Sized()) ==> Sized()) && PaneIds(panes) == old(PaneIds(panes))
      ensures ActiveId() == if moved.Some? then moved.value else old(ActiveId())
      ensures var geom := Reflow(layout.root, cols, rows);
        Focus.PointsTo(geom, old(ActiveId()), LeafRect(geom, old(ActiveId())), dir, moved)
      ensures var geom, window := Reflow(layout.root, cols, rows), LayoutTree.Window(cols, rows);
        Focus.NoDegenerate(layout.root, window) ==>
          Focus.RightAnswer(geom, window, LeafRect(geom, old(ActiveId())), dir, moved)
      ensures !zoomed ==> panes == old(panes)
    {
      assert PaneIds(panes)[activePane] == ActiveId();
      moved := Focus.Neighbor(layout.root, ActiveId(), dir, cols, rows);
      if moved.Some? {
        ReflowIds(layout.root, LayoutTree.Window(cols, rows));
        assert moved.value in Ids(layout.root);
        var _ := FocusPaneId(moved.value);
      }
    }

    // ---- Zoom ----

    method Toggle() returns (ok: bool)
      requires Valid()
      modifies this`panes, this`zoomed
      ensures Valid() && (old(Sized()) ==> Sized()) && PaneIds(panes) == old(PaneIds(panes))
      ensures ok <==> |panes| >= 2
      ensures zoomed == (ok && !old(zoomed))
      ensures ok ==> Sized()
      ensures !ok ==> panes == old(panes)
    {
      if |panes| <= 1 {
        zoomed := false;
        return false;
      }
      zoomed := !zoomed;
      if zoomed { ApplyZoomSize(); } else { ReflowPanes(); }
      return true;
    }

    method ForceUnzoom()
      requires Valid()
      modifies this`panes, this`zoomed
      ensures Valid() && (old(Sized()) ==> Sized()) && PaneIds(panes) == old(PaneIds(panes))
      ensures !zoomed
      ensures !old(zoomed) ==> panes == old(panes)
    {
      if zoomed {
        zoomed := false;
        ReflowPanes();
      }
    }

    // ---- Layout changes ----

    method CycleLayout() returns (ok: bool)
      requires Valid()
      modifies this`panes, this`zoomed, this`layoutKind, layout
      ensures Valid() && (old(Sized()) ==> Sized()) && PaneIds(panes) == old(PaneIds(panes))
      ensures ok <==> |panes| >= 2
      ensures Ids(layout.root) == old(Ids(layout.root))
      ensures ok ==> (layout.root, layoutKind) == CyclePreset(old(Ids(layout.root)), old(layoutKind))
      ensures ok ==> !zoomed && Sized()
      ensures !ok ==> panes == old(panes) && layout.root == old(layout.root) && layoutKind == old(layoutKind)
    {
      if |panes| <= 1 { return false; }
      ForceUnzoom();
      var ids := Ids(layout.root);
      PresetsKeepIds(ids, Tiled, layoutKind);
      var (node, kind) := CyclePreset(ids, layoutKind);
      layout.Replace(node);
      layoutKind := kind;
      ReflowPanes();
      return true;
    }

    /** An unknown name still cancels the zoom. */
    method SelectPreset(name: string) returns (ok: bool)
      requires Valid()
      modifies this`panes, this`zoomed, this`layoutKind, layout
      ensures Valid() && (old(Sized()) ==> Sized()) && PaneIds(panes) == old(PaneIds(panes))
      ensures ok <==> |panes| >= 2 && PresetNamed(name).Some?
      ensures Ids(layout.root) == old(Ids(layout.root))
      ensures zoomed == (old(zoomed) && |panes| < 2)
      ensures ok ==> layout.root == NamedPreset(old(Ids(layout.root)), PresetNamed(name).value) && Sized()
      ensures ok ==>
        layoutKind == match PresetNamed(name).value case EvenHorizontal => 0 case EvenVertical => 1 case _ => 2
      ensures !ok ==> layout.root == old(layout.root) && layoutKind == old(layoutKind)
      ensures !ok && !old(zoomed) ==> panes == old(panes)
    {
      if |panes| <= 1 { return false; }
      ForceUnzoom();
      var ids, preset := Ids(layout.root), PresetNamed(name);
      if preset.None? { return false; }
      PresetsKeepIds(ids, preset.value, 0);
      layoutKind := match preset.value case EvenHorizontal => 0 case EvenVertical => 1 case _ => 2;
      layout.Replace(NamedPreset(ids, preset.value));
      ReflowPanes();
      return true;
    }

    method ResizePaneBorder(id: nat, dir: FocusDir, amount: u16) returns (ok: bool)
      requires Valid()
      modifies this`panes, layout
      ensures Valid() && (old(Sized()) ==> Sized()) && PaneIds(panes) == old(PaneIds(panes))
      ensures Ids(layout.root) == old(Ids(layout.root))
      ensures var window := LayoutTree.Window(cols, rows);
        && (ok <==> !zoomed && amount != 0 && |panes| >= 2 && CanMove(old(layout.root), id, dir, amount, window))
        && (ok ==> BorderMoved(old(layout.root), layout.root, id, dir, amount, window) && Sized())
      ensures !ok ==> panes == old(panes) && layout.root == old(layout.root)
    {
      if zoomed || amount == 0 || |panes| <= 1 { return false; }
      ok := layout.ResizeBorder(id, dir, amount, cols, rows);
      if ok { ReflowPanes(); }
    }

    method Resize(rows: u16, cols: u16)
      requires Valid()
      modifies this`panes, this`rows, this`cols
      ensures Valid() && Sized() && PaneIds(panes) == old(PaneIds(panes))
      ensures this.rows == Max(rows, 1) && this.cols == Max(cols, 1)
    {
      this.rows, this.cols := Max(rows, 1), Max(cols, 1);
      ReflowPanes();
    }

    /** Split a pane (the active one by default); `newId` comes from the global pane counter. */
    method Split(dir: SplitDir, target: Option<nat>, newId: nat) returns (ok: bool)
      requires Valid() && newId !in PaneIds(panes)
      modifies this`panes, this`activePane, this`zoomed, layout
      ensures Valid() && (old(Sized()) ==> Sized()) && !zoomed
      ensures ok <==> Resolve(target, old(ActiveId())) in old(PaneIds(panes))
      ensures ok ==> PaneIds(panes) == old(PaneIds(panes)) + [newId] && ActiveId() == newId && Sized()
      ensures ok ==>
        SplitOff(old(layout.root), layout.root, cols, rows, Resolve(target, old(ActiveId())), dir, newId)
      ensures !ok ==>
        PaneIds(panes) == old(PaneIds(panes)) && layout.root == old(layout.root) && activePane == old(activePane)
    {
      var t := Resolve(target, ActiveId());
      ForceUnzoom();
      ok := SplitKnown(t, dir, newId);
    }

    /** Split pane `t` if there is one. */
    method SplitKnown(t: nat, dir: SplitDir, newId: nat) returns (ok: bool)
      requires Valid() && newId !in PaneIds(panes) && !zoomed
      modifies this`panes, this`activePane, layout
      ensures Valid() && (old(Sized()) || ok ==> Sized())
      ensures ok <==> t in old(PaneIds(panes))
      ensures ok ==> PaneIds(panes) == old(PaneIds(panes)) + [newId] && ActiveId() == newId
      ensures ok ==> SplitOff(old(layout.root), layout.root, cols, rows, t, dir, newId)
      ensures !ok ==> panes == old(panes) && layout.root == old(layout.root) && activePane == old(activePane)
    {
      ok := ContainsId(layout.root, t);
      if ok { SplitAt(t, dir, newId); }
    }

    /** Split pane `t` and focus the new one. */
    method SplitAt(t: nat, dir: SplitDir, newId: nat)
      requires Valid() && t in Ids(layout.root) && newId !in PaneIds(panes) && !zoomed
      modifies this`panes, this`activePane, layout
      ensures Valid() && Sized() && PaneIds(panes) == old(PaneIds(panes)) + [newId] && ActiveId() == newId
      ensures SplitOff(old(layout.root), layout.root, cols, rows, t, dir, newId)
    {
      var i := IndexOf(t);
      var hint := if i.Some? then panes[i.value] else Pane(t, rows, cols);  // size before the reflow
      PutBeside(t, dir, Pane(newId, hint.rows, hint.cols));
      ReflowPanes();
      assert PaneIds(panes)[|panes| - 1] == newId;
      var _ := FocusPaneId(newId);
    }

    /** Put a new pane into list and tree. */
    method PutBeside(t: nat, dir: SplitDir, p: Pane)
      requires Valid() && t in Ids(layout.root) && p.id !in PaneIds(panes) && !zoomed
      modifies this`panes, layout
      ensures Valid() && PaneIds(panes) == old(PaneIds(panes)) + [p.id]
      ensures SplitOff(old(layout.root), layout.root, cols, rows, t, dir, p.id)
    {
      var ok := layout.Split(t, dir, p.id, 0.5);
      SplitHalves(old(layout.root), layout.root, cols, rows, t, dir, p.id);
      InsertedDistinct(old(Ids(layout.root)), Ids(layout.root), t, p.id);
      AddPane(p);
    }

    method AddPane(p: Pane)
      requires Distinct(PaneIds(panes)) && p.id !in PaneIds(panes)
      modifies this`panes
      ensures |panes| == |old(panes)| + 1 && PaneIds(panes) == old(PaneIds(panes)) + [p.id] && Distinct(PaneIds(panes))
    {
      panes := panes + [p];
      assert PaneIds(panes) == old(PaneIds(panes)) + [p.id];
    }

    /** Remove a pane; focus stays on its pane unless that is the one removed. */
    method Remove(id: nat) returns (r: Removed)
      requires Valid()
      modifies this`panes, this`activePane, this`zoomed, layout
      ensures Valid() && (old(Sized()) ==> Sized())
      ensures r.NotFound? <==> id !in old(PaneIds(panes))
      ensures r.WindowEmpty? <==> id in old(PaneIds(panes)) && |old(panes)| == 1
      ensures !r.PaneRemoved? ==>
        panes == old(panes) && activePane == old(activePane) && zoomed == old(zoomed) && layout.root == old(layout.root)
      ensures r.PaneRemoved? ==>
        && Sized() && zoomed == (old(zoomed) && |panes| >= 2)
        && Dropped(old(PaneIds(panes)), PaneIds(panes), id)
        && Dropped(old(Ids(layout.root)), Ids(layout.root), id)
        && layout.root == RemoveNode(old(layout.root), id).0 && LeavesBox(old(layout.root), layout.root, id)
        && (id != old(ActiveId()) ==> ActiveId() == old(ActiveId()))
        && (id == old(ActiveId()) ==> activePane == Min(old(activePane), |panes| - 1))
    {
      var i := IndexOf(id);
      if i.None? { return NotFound; }
      if |panes| == 1 { return WindowEmpty; }
      TakeOut(i.value);
      ReflowPanes();
      SameIdAt(panes, PaneIds(panes), activePane);
      return PaneRemoved;
    }

    /** Take pane `idx` out of list and tree; a single pane is not zoomed. */
    method TakeOut(idx: nat)
      requires Valid() && idx < |panes| && |panes| >= 2
      modifies this`panes, this`activePane, this`zoomed, layout
      ensures Valid() && |panes| + 1 == |old(panes)| && zoomed == (old(zoomed) && |panes| >= 2)
      ensures var id := old(panes)[idx].id;
        && Dropped(old(PaneIds(panes)), PaneIds(panes), id)
        && Dropped(old(Ids(layout.root)), Ids(layout.root), id)
        && layout.root == RemoveNode(old(layout.root), id).0 && LeavesBox(old(layout.root), layout.root, id)
      ensures idx != old(activePane) ==> PaneIds(panes)[activePane] == old(ActiveId())
      ensures idx == old(activePane) ==> activePane == Min(idx, |panes| - 1)
    {
      var id := panes[idx].id;
      assert PaneIds(panes)[idx] == id;
      var ok := layout.Remove(id);
      DroppedDistinct(old(Ids(layout.root)), Ids(layout.root), id);
      DropPane(idx);
      if |panes| <= 1 { zoomed := false; }
    }

    /** Take pane `idx` out of the list, keeping the active index on its pane. */
    method DropPane(idx: nat)
      requires idx < |panes| && |panes| >= 2 && activePane < |panes| && Distinct(PaneIds(panes))
      modifies this`panes, this`activePane
      ensures |panes| + 1 == |old(panes)| && activePane < |panes|
      ensures Dropped(old(PaneIds(panes)), PaneIds(panes), old(panes)[idx].id) && Distinct(PaneIds(panes))
      ensures forall x :: x in PaneIds(panes) <==> x in old(PaneIds(panes)) && x != old(panes)[idx].id
      ensures idx != old(activePane) ==> panes[activePane].id == old(panes[activePane].id)
      ensures idx == old(activePane) ==> activePane == Min(idx, |panes| - 1)
    {
      PaneDropped(panes, idx);
      panes := panes[..idx] + panes[idx + 1..];
      if activePane >= |panes| {
        activePane := |panes| - 1;
      } else if activePane > idx {
        activePane := activePane - 1;
      }
    }

    /** Zooming and unzooming the same pane restores every pane's size. */
    method ZoomAndBack()
      requires Valid() && Sized() && !zoomed
      modifies this`panes, this`zoomed
      ensures Valid() && panes == old(panes) && !zoomed
    {
      var ok := Toggle();
      if ok { ok := Toggle(); }
      assert forall i :: 0 <= i < |panes| ==> panes[i].id == PaneIds(panes)[i] == old(panes)[i].id;
      assert panes == old(panes);
    }

    // ---- Runs ----

    /** What a command does; `next` is the id for a new pane. */
    twostate predicate Did(c: Command, next: nat)
      requires old(Valid()) && Valid()
      reads this, layout
    {
      var ids, oldIds := PaneIds(panes), old(PaneIds(panes));
      var here, there := old(ActiveId()), ActiveId();
      var tree, oldTree := layout.root, old(layout.root);
      var window := LayoutTree.Window(cols, rows);
      && (c.SplitPane? || c.RemovePane? || ids == oldIds)
      && (c.ResizeWindow? || (rows == old(rows) && cols == old(cols)))
      && (c.SplitPane? || c.RemovePane? || c.NextLayout? || c.SelectLayout? || c.ResizeBorder? || tree == oldTree)
      && (c.NextLayout? || c.SelectLayout? || layoutKind == old(layoutKind))
      && (c.SplitPane? || c.RemovePane? || MovesFocus(c) || there == here)
      && (MovesFocus(c) || c.ResizeBorder? || c.ResizeWindow? ==> zoomed == old(zoomed))
      && match c
      case SplitPane(dir, target) =>
        var t := Resolve(target, here);
        !zoomed && if t in oldIds
        then ids == oldIds + [next] && there == next && SplitOff(oldTree, tree, cols, rows, t, dir, next)
        else ids == oldIds && there == here && tree == oldTree
      case RemovePane(id) =>
        && (if id in oldIds && |oldIds| >= 2
            then Dropped(oldIds, ids, id) && tree == RemoveNode(oldTree, id).0 && LeavesBox(oldTree, tree, id)
            else ids == oldIds && tree == oldTree)
        && zoomed == (old(zoomed) && |panes| >= 2)
        && (id != here ==> there == here)
        && (id == here && |oldIds| >= 2 ==> activePane == Min(old(activePane), |panes| - 1))
      case FocusNext => StepsRound(Ids(tree), here, there, 1)
      case FocusPrev => StepsRound(Ids(tree), here, there, |Ids(tree)| - 1)
      case FocusTowards(dir) => GoesTowards(Reflow(tree, cols, rows), here, there, dir)
      case FocusPane(id) => there == if id in ids then id else here
      case ToggleZoom => zoomed == (|panes| >= 2 && !old(zoomed))
      case Unzoom => !zoomed
      case NextLayout =>
        if |panes| >= 2 then !zoomed && (tree, layoutKind) == CyclePreset(Ids(oldTree), old(layoutKind))
        else tree == oldTree
      case SelectLayout(name) =>
        var preset := PresetNamed(name);
        && (|panes| >= 2 ==> !zoomed)
        && layoutKind == (if |panes| < 2 || preset.None? then old(layoutKind)
                          else match preset.value case EvenHorizontal => 0 case EvenVertical => 1 case _ => 2)
        && tree == if |panes| >= 2 && preset.Some? then NamedPreset(Ids(oldTree), preset.value) else oldTree
      case ResizeBorder(id, dir, amount) =>
        if !zoomed && amount != 0 && |panes| >= 2 && CanMove(oldTree, id, dir, amount, window)
        then BorderMoved(oldTree, tree, id, dir, amount, window)
        else tree == oldTree
      case ResizeWindow(r, k) => rows == Max(r, 1) && cols == Max(k, 1)
    }

    /** Carry out one command. */
    method Do(c: Command, next: nat) returns (used: bool)
      requires Valid() && next !in PaneIds(panes)
      modifies this, layout
      ensures Valid() && (old(Sized()) ==> Sized())
      ensures forall x :: x in PaneIds(panes) ==> x in old(PaneIds(panes)) || (used && x == next)
      ensures Did(c, next)
    {
      used := c.SplitPane?;
      match c
      case SplitPane(_, _) => DoSplit(c, next);
      case RemovePane(_) => DoRemove(c, next);
      case FocusNext | FocusPrev => DoStep(c, next);
      case FocusTowards(_) | FocusPane(_) => DoFocus(c, next);
      case _ => DoLayout(c, next);
    }

    method DoSplit(c: Command, next: nat)
      requires Valid() && c.SplitPane? && next !in PaneIds(panes)
      modifies this`panes, this`activePane, this`zoomed, layout
      ensures Valid() && (old(Sized()) ==> Sized())
      ensures forall x :: x in PaneIds(panes) ==> x in old(PaneIds(panes)) || x == next
      ensures Did(c, next)
    {
      var _ := Split(c.dir, c.target, next);
    }

    method DoRemove(c: Command, next: nat)
      requires Valid() && c.RemovePane?
      modifies this`panes, this`activePane, this`zoomed, layout
      ensures Valid() && (old(Sized()) ==> Sized())
      ensures forall x :: x in PaneIds(panes) ==> x in old(PaneIds(panes))
      ensures Did(c, next)
    {
      var r := Remove(c.id);
      if r.PaneRemoved? { DroppedDistinct(old(PaneIds(panes)), PaneIds(panes), c.id); }
    }

    method DoStep(c: Command, next: nat)
      requires Valid() && (c.FocusNext? || c.FocusPrev?)
      modifies this`panes, this`activePane
      ensures Valid() && (old(Sized()) ==> Sized()) && PaneIds(panes) == old(PaneIds(panes))
      ensures Did(c, next)
    {
      if c.FocusNext? { FocusStep(1); } else { FocusStep(|Ids(layout.root)| - 1); }
    }

    method DoFocus(c: Command, next: nat)
      requires Valid() && (c.FocusTowards? || c.FocusPane?)
      modifies this`panes, this`activePane
      ensures Valid() && (old(Sized()) ==> Sized()) && PaneIds(panes) == old(PaneIds(panes))
      ensures Did(c, next)
    {
      match c
      case FocusTowards(dir) =>
        var moved := FocusNeighbor(dir);
        WentTowards(Reflow(layout.root, cols, rows), old(ActiveId()), dir, moved);
      case FocusPane(id) => var _ := FocusPaneId(id);
    }

    method DoLayout(c: Command, next: nat)
      requires Valid() && !c.SplitPane? && !c.RemovePane?
      requires !c.FocusNext? && !c.FocusPrev? && !c.FocusTowards? && !c.FocusPane?
      modifies this`panes, this`zoomed, this`layoutKind, this`rows, this`cols, layout
      ensures Valid() && (old(Sized()) ==> Sized()) && PaneIds(panes) == old(PaneIds(panes))
      ensures Did(c, next)
    {
      match c
      case ToggleZoom => var _ := Toggle();
      case Unzoom => ForceUnzoom();
      case NextLayout => var _ := CycleLayout();
      case SelectLayout(name) => var _ := SelectPreset(name);
      case ResizeBorder(id, dir, amount) => var _ := ResizePaneBorder(id, dir, amount);
      case ResizeWindow(r, k) => Resize(r, k);
    }
  }

  /** The run invariant: from one pane, every sequence of commands, with ids from a rising
      counter, keeps panes, focus, zoom, layout and sizes in step. */
  method RunWindow(first: nat, rows: u16, cols: u16, commands: seq<Command>) returns (w: Window)
    ensures fresh(w) && fresh(w.layout) && w.Valid()
    ensures rows >= 1 && cols >= 1 ==> w.Sized()
  {
    w := new Window(first, rows, cols);
    var next: nat := first + 1;
    for i := 0 to |commands|
      invariant fresh(w) && fresh(w.layout) && w.Valid()
      invariant rows >= 1 && cols >= 1 ==> w.Sized()
      invariant forall x :: x in PaneIds(w.panes) ==> x < next
    {
      var used := w.Do(commands[i], next);
      if used { next := next + 1; }
    }
  }
}
