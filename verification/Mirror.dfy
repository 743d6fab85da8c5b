/** From a pane's grid on the server to its copy in a client (src/server/pane.rs and
    src/server/event_loop.rs on one side, src/client/mod.rs and src/client/composite.rs on the
    other). */
module Mirror {
  import opened Ints
  import opened Wrappers
  import opened Cells
  import opened Screens
  import opened Grids
  import opened Terminals
  import opened LayoutTree
  import opened Streams
  import opened WireServer
  import opened WireFrames
  import View = Composite

  /** A pane's grid, as far as clients see it, and the size the window gave the pane. */
  datatype PaneGrid = PaneGrid(rows: seq<Row>, cols: nat, dirty: seq<bool>, height: u16, width: u16)

  /** A new grid is at least one cell high and wide, even in a pane of no size. */
  ghost predicate Sound(g: PaneGrid) {
    && |g.dirty| == |g.rows| && (forall r :: 0 <= r < |g.rows| ==> |g.rows[r]| == g.cols)
    && (|g.rows| == g.height || (g.height == 0 && |g.rows| == 1))
    && (g.cols == g.width || (g.width == 0 && g.cols == 1))
  }

  // ---- Messages ----

  function ShownRow(row: Row): (r: Row)
    ensures |r| == |row| && forall c :: 0 <= c < |r| ==> r[c] == Shown(row[c])
  {
    seq(|row|, c requires 0 <= c < |row| => Shown(row[c]))
  }

  /** `take_dirty_rows`: the pane's flagged rows, ascending, with a space for every NUL. */
  function Taken(g: PaneGrid): (r: seq<DirtyRow>) {
    var at := DirtyRows(g.dirty, Min(Min(|g.dirty|, |g.rows|), g.height));
    seq(|at|, k requires 0 <= k < |at| => SentRow(g, at[k]))
  }

  function SentRow(g: PaneGrid, r: nat): DirtyRow
    requires r < |g.rows| && r < g.height
  {
    RowSent(r, g.rows[r], g.width)
  }

  function RowSent(r: u16, row: Row, width: nat): DirtyRow {
    DirtyRow(r, ShownRow(row[..Min(|row|, width)]))
  }

  /** `snapshot`: the first `n` rows of the pane, one after the other. */
  function SnapshotCells(g: PaneGrid, n: nat): Row {
    if n == 0 then [] else SnapshotCells(g, n - 1) + SnapshotRow(g, n - 1)
  }

  function SnapshotRow(g: PaneGrid, r: nat): Row {
    if r < |g.rows| then ShownRow(g.rows[r][..Min(|g.rows[r]|, g.width)]) else BlankRow(g.width)
  }

  lemma SnapshotCellAt(g: PaneGrid, n: nat, r: nat, c: nat)
    requires Sound(g) && r < n <= g.height && c < g.width
    ensures CellIndex(r, g.width, c) < |SnapshotCells(g, n)|
    ensures SnapshotCells(g, n)[CellIndex(r, g.width, c)] == Shown(g.rows[r][c])
  {
    SnapshotLength(g, r);
    RowPlaced(g, n, r);
    SnapshotRowCell(g, r, c);
    PrefixCell(SnapshotCells(g, r), SnapshotRow(g, r), SnapshotCells(g, n), c);
  }

  lemma RowPlaced(g: PaneGrid, n: nat, r: nat)
    requires r < n
    ensures SnapshotCells(g, r) + SnapshotRow(g, r) <= SnapshotCells(g, n)
  {
    SnapshotGrows(g, r + 1, n);
  }

  lemma SnapshotRowCell(g: PaneGrid, r: nat, c: nat)
    requires Sound(g) && r < g.height && c < g.width
    ensures c < |SnapshotRow(g, r)| && SnapshotRow(g, r)[c] == Shown(g.rows[r][c])
  {
  }

  lemma {:induction false} SnapshotGrows(g: PaneGrid, m: nat, n: nat)
    requires m <= n
    ensures SnapshotCells(g, m) <= SnapshotCells(g, n)
    decreases n
  {
    if m < n {
      SnapshotGrows(g, m, n - 1);
      LongerPrefix(SnapshotCells(g, m), SnapshotCells(g, n - 1), SnapshotRow(g, n - 1));
    }
  }

  lemma LongerPrefix<T>(a: seq<T>, b: seq<T>, c: seq<T>)
    requires a <= b
    ensures a <= b + c
  {
  }

  lemma PrefixCell<T>(a: seq<T>, b: seq<T>, all: seq<T>, i: nat)
    requires i < |b| && a + b <= all
    ensures |a| + i < |all| && all[|a| + i] == b[i]
  {
    assert (a + b)[|a| + i] == b[i];
  }

  lemma {:induction false} SnapshotLength(g: PaneGrid, n: nat)
    requires Sound(g) && n <= g.height
    ensures |SnapshotCells(g, n)| == n * g.width
  {
    if n > 0 {
      SnapshotLength(g, n - 1);
      SnapshotRowLength(g, n - 1);
      OneRowMore(n, g.width);
    }
  }

  lemma SnapshotRowLength(g: PaneGrid, r: nat)
    requires Sound(g) && r < g.height
    ensures |SnapshotRow(g, r)| == g.width
  {
  }

  lemma OneRowMore(n: nat, width: nat)
    requires n > 0
    ensures (n - 1) * width + width == n * width
  {
  }

  function Updates(dirty: seq<DirtyRow>): (r: seq<View.Update>)
    ensures |r| == |dirty| && forall k :: 0 <= k < |r| ==> r[k] == View.Update(dirty[k].row, dirty[k].cells)
  {
    seq(|dirty|, k requires 0 <= k < |dirty| => View.Update(dirty[k].row, dirty[k].cells))
  }

  function Rects(panes: seq<PaneRect>): (r: Panes)
    ensures |r| == |panes|
    ensures forall k :: 0 <= k < |r| ==>
      r[k] == Placed(panes[k].paneId, Rect(panes[k].x, panes[k].y, panes[k].cols, panes[k].rows))
  {
    seq(|panes|, k requires 0 <= k < |panes| =>
      Placed(panes[k].paneId, Rect(panes[k].x, panes[k].y, panes[k].cols, panes[k].rows)))
  }

  /** What a message does to a client's window view. */
  function Events(m: ServerMsg): seq<View.Event> {
    match m
    case GridUpdate(dirty, cursor, _, pane) =>
      [View.PaneUpdate(if pane.Some? then Some(pane.value) else None, Updates(dirty),
                       cursor.row, cursor.col, cursor.visible)]
    case WindowLayout(rows, cols, active, panes, zoomed) => [View.Layout(rows, cols, active, Rects(panes), zoomed)]
    case GridSnapshot(rows, cols, cells, cursor, _, pane) =>
      [View.Snapshot(if pane.Some? then Some(pane.value) else None, rows, cols, cells,
                     cursor.row, cursor.col, cursor.visible)]
    case _ => []
  }

  /** The client's scene once it has read the messages. */
  function Client(s: View.Scene, ms: seq<ServerMsg>): View.Scene {
    if ms == [] then s else View.AfterAll(Client(s, ms[..|ms| - 1]), Events(ms[|ms| - 1]))
  }

  /** The same as one run of the window view. */
  function AllEvents(ms: seq<ServerMsg>): seq<View.Event> {
    if ms == [] then [] else AllEvents(ms[..|ms| - 1]) + Events(ms[|ms| - 1])
  }

  lemma RunOneMore(s: View.Scene, events: seq<View.Event>, more: seq<View.Event>, exact: bool)
    requires |more| <= 1
    ensures View.AfterAll(s, events + more) == View.AfterAll(View.AfterAll(s, events), more)
    ensures View.ExactAfter(s, events + more, exact)
         == View.ExactAfter(View.AfterAll(s, events), more, View.ExactAfter(s, events, exact))
  {
    if more == [] {
      assert events + more == events;
    } else {
      assert (events + more)[..|events|] == events && more[..0] == [];
    }
  }

  lemma {:induction false} ClientIsRun(s: View.Scene, ms: seq<ServerMsg>)
    ensures Client(s, ms) == View.AfterAll(s, AllEvents(ms))
  {
    if ms != [] {
      ClientIsRun(s, ms[..|ms| - 1]);
      RunOneMore(s, AllEvents(ms[..|ms| - 1]), Events(ms[|ms| - 1]), true);
    }
  }

  // ---- The server ----

  datatype ServerStep =
    | Output(rows: seq<Row>, dirty: seq<bool>)   // the child wrote to the pane
    | Flush(cursor: Cursor, flags: u8)           // the dirty rows are sent
    | Relayout(winRows: u16, winCols: u16, active: u32, panes: seq<PaneRect>, zoomed: bool)
    | SendSnapshot(cursor: Cursor, flags: u8)    // the whole pane is sent
    | Skipped                                    // the dirty rows are taken, but this client is too far behind
    | Unrelated(m: ServerMsg)                    // a message that does not touch the pane

  ghost predicate Possible(id: u32, g: PaneGrid, step: ServerStep) {
    match step
    case Output(rows, dirty) =>
      |rows| == |g.rows| && Sound(g.(rows := rows, dirty := dirty)) && Tracked(g.rows, g.dirty, rows, dirty)
    case Flush(_, _) => true
    case Relayout(_, _, _, panes, zoomed) =>
      Distinct(IdsOf(Rects(panes))) && (zoomed || RectFor(Rects(panes), id).Some?)
    case SendSnapshot(_, _) => true
    case Skipped => true
    case Unrelated(m) =>
      if m.GridUpdate? || m.GridSnapshot? then m.paneId.Some? && m.paneId.value != id else !m.WindowLayout?
  }

  /** The rectangle a layout gives the pane. */
  function RectFor(rects: Panes, id: nat): (r: Option<Rect>)
    ensures r.Some? ==> Placed(id, r.value) in rects
    ensures r.None? ==> !View.HasId(rects, id)
    decreases |rects|
  {
    if rects == [] then None
    else if rects[|rects| - 1].id == id then Some(rects[|rects| - 1].rect)
    else RectFor(rects[..|rects| - 1], id)
  }

  /** `reflow_panes`: a pane is resized, all its rows flagged, when its size changes. */
  function Resized(g: PaneGrid, rect: Rect): PaneGrid
    requires rect.rows < 0x1_0000 && rect.cols < 0x1_0000
  {
    if g.height == rect.rows && g.width == rect.cols then g
    else PaneGrid(Fitted(g.rows, rect.rows, rect.cols), rect.cols, seq(rect.rows, _ => true), rect.rows, rect.cols)
  }

  function Cleared(g: PaneGrid): PaneGrid {
    g.(dirty := seq(|g.dirty|, _ => false))
  }

  function NextGrid(id: u32, g: PaneGrid, step: ServerStep): PaneGrid {
    match step
    case Output(rows, dirty) => g.(rows := rows, dirty := dirty)
    case Flush(_, _) => Cleared(g)
    case Relayout(_, _, _, panes, _) =>
      var rect := RectFor(Rects(panes), id);
      if rect.Some? then Resized(g, rect.value) else g
    case SendSnapshot(_, _) => g
    case Skipped => Cleared(g)
    case Unrelated(_) => g
  }

  function Sends(id: u32, g: PaneGrid, step: ServerStep): seq<ServerMsg> {
    match step
    case Output(_, _) => []
    case Flush(cursor, flags) => [GridUpdate(Taken(g), cursor, flags, Some(id))]
    case Relayout(rows, cols, active, panes, zoomed) => [WindowLayout(rows, cols, active, panes, zoomed)]
    case SendSnapshot(cursor, flags) =>
      [GridSnapshot(g.height, g.width, SnapshotCells(g, g.height), cursor, flags, Some(id))]
    case Skipped => []
    case Unrelated(m) => [m]
  }

  // ---- In sync ----

  /** The copy has the pane's size (at least 1x1), and its clean rows look the same. */
  ghost predicate InSync(g: PaneGrid, p: View.PaneView) {
    && Sound(g) && |p.rows| == Max(g.height, 1) && p.cols == Max(g.width, 1)
    && (forall r :: 0 <= r < |p.rows| ==> |p.rows[r]| == p.cols)
    && forall r, c :: 0 <= r < g.height && 0 <= c < g.width && !g.dirty[r] ==>
         Shown(p.rows[r][c]) == Shown(g.rows[r][c])
  }

  /** Every cell of the pane looks the same on both sides. */
  ghost predicate Mirrors(g: PaneGrid, p: View.PaneView) {
    && Sound(g) && |p.rows| == Max(g.height, 1) && p.cols == Max(g.width, 1)
    && (forall r :: 0 <= r < |p.rows| ==> |p.rows[r]| == p.cols)
    && forall r, c :: 0 <= r < g.height && 0 <= c < g.width ==> Shown(p.rows[r][c]) == Shown(g.rows[r][c])
  }

  /** A client's pane is a grid of at least one cell. */
  ghost predicate IsGrid(p: View.PaneView) {
    |p.rows| >= 1 && p.cols >= 1 && forall r :: 0 <= r < |p.rows| ==> |p.rows[r]| == p.cols
  }

  /** A snapshot makes any pane a client may have, known or not, mirror the grid. */
  lemma SnapshotMirrors(g: PaneGrid, known: Option<View.PaneView>, row: nat, col: nat, visible: bool)
    requires Sound(g) && (known.Some? ==> IsGrid(known.value))
    ensures var p := View.Snapped(known, g.height, g.width, SnapshotCells(g, g.height), row, col, visible);
      IsGrid(p) && Mirrors(g, p)
  {
    var p := View.Snapped(known, g.height, g.width, SnapshotCells(g, g.height), row, col, visible);
    SnappedSize(known, g.height, g.width, SnapshotCells(g, g.height), row, col, visible);
    forall r, c | 0 <= r < g.height && 0 <= c < g.width ensures Shown(p.rows[r][c]) == Shown(g.rows[r][c]) {
      SnappedCell(g, known, row, col, visible, r, c);
    }
  }

  lemma SnappedSize(known: Option<View.PaneView>, height: nat, width: nat, cells: Row, row: nat, col: nat,
      visible: bool)
    requires known.Some? ==> IsGrid(known.value)
    ensures var p := View.Snapped(known, height, width, cells, row, col, visible);
      IsGrid(p) && |p.rows| == Max(height, 1) && p.cols == Max(width, 1)
  {
  }

  lemma SnappedCell(g: PaneGrid, known: Option<View.PaneView>, row: nat, col: nat, visible: bool, r: nat, c: nat)
    requires Sound(g) && (known.Some? ==> IsGrid(known.value)) && r < g.height && c < g.width
    ensures var p := View.Snapped(known, g.height, g.width, SnapshotCells(g, g.height), row, col, visible);
      r < |p.rows| && c < |p.rows[r]| && p.rows[r][c] == Shown(g.rows[r][c])
  {
    SnapshotCellAt(g, g.height, r, c);
  }

  /** Nothing received from the server is a NUL. */
  lemma ReceivedNeverNul(g: PaneGrid)
    requires Sound(g)
    ensures forall k, c :: 0 <= k < |Taken(g)| && 0 <= c < |Taken(g)[k].cells| ==> Taken(g)[k].cells[c].ch != NUL
    ensures forall i :: 0 <= i < |SnapshotCells(g, g.height)| ==> SnapshotCells(g, g.height)[i].ch != NUL
  {
    SnapshotNeverNul(g, g.height);
  }

  lemma {:induction false} SnapshotNeverNul(g: PaneGrid, n: nat)
    requires Sound(g) && n <= g.height
    ensures forall i :: 0 <= i < |SnapshotCells(g, n)| ==> SnapshotCells(g, n)[i].ch != NUL
  {
    if n > 0 { SnapshotNeverNul(g, n - 1); }
  }

  ghost predicate NulFree(rows: seq<Row>) {
    forall r, c :: 0 <= r < |rows| && 0 <= c < |rows[r]| ==> rows[r][c].ch != NUL
  }

  /** After a snapshot no cell of the copy is a NUL, and updates leave it so. */
  lemma SnapshotNulFree(g: PaneGrid, known: Option<View.PaneView>, row: nat, col: nat, visible: bool)
    requires Sound(g) && (known.Some? ==> IsGrid(known.value)) && g.height >= 1 && g.width >= 1
    ensures NulFree(View.Snapped(known, g.height, g.width, SnapshotCells(g, g.height), row, col, visible).rows)
  {
    var p := View.Snapped(known, g.height, g.width, SnapshotCells(g, g.height), row, col, visible);
    SnapshotMirrors(g, known, row, col, visible);
    forall r, c | 0 <= r < g.height && 0 <= c < g.width ensures p.rows[r][c].ch != NUL {
      SnappedCell(g, known, row, col, visible, r, c);
    }
  }

  lemma UpdateNulFree(g: PaneGrid, p: View.PaneView, row: nat, col: nat, visible: bool)
    requires Sound(g) && NulFree(p.rows)
    ensures NulFree(View.Refresh(p, Updates(Taken(g)), row, col, visible).rows)
  {
    ReceivedNeverNul(g);
    PatchNulFree(p.rows, Updates(Taken(g)));
  }

  lemma {:induction false} PatchNulFree(rows: seq<Row>, updates: seq<View.Update>)
    requires NulFree(rows)
    requires forall k, c :: 0 <= k < |updates| && 0 <= c < |updates[k].cells| ==> updates[k].cells[c].ch != NUL
    ensures NulFree(View.Patch(rows, updates))
    decreases |updates|
  {
    if updates != [] { PatchNulFree(rows, updates[..|updates| - 1]); }
  }

  /** A pane whose rows are all flagged, freshly laid out in a client, is in sync. */
  lemma LaidOutInSync(g: PaneGrid, x: nat, y: nat)
    requires Sound(g) && forall r :: 0 <= r < |g.dirty| ==> g.dirty[r]
    ensures InSync(g, View.Refit(None, Rect(x, y, g.width, g.height)))
  {
  }

  /** A row ends up with the content of its last update. */
  lemma {:induction false} PatchLast(rows: seq<Row>, updates: seq<View.Update>, k: nat)
    requires k < |updates| && updates[k].row < |rows|
    requires forall j :: k < j < |updates| ==> updates[j].row != updates[k].row
    ensures var row := updates[k].row;
      forall c :: 0 <= c < |rows[row]| && c < |updates[k].cells| ==>
        View.Patch(rows, updates)[row][c] == updates[k].cells[c]
    decreases |updates|
  {
    if k < |updates| - 1 { PatchLast(rows, updates[..|updates| - 1], k); }
  }

  lemma TakenRow(g: PaneGrid, r: nat) returns (k: nat)
    requires Sound(g) && r < g.height && g.dirty[r]
    ensures k < |Taken(g)| && Taken(g)[k] == SentRow(g, r)
    ensures forall j :: k < j < |Taken(g)| ==> Taken(g)[j].row != r
  {
    var at := DirtyRows(g.dirty, g.height);
    k :| 0 <= k < |at| && at[k] == r;
  }

  /** The dirty rows bring the copy up to date. */
  lemma FlushSyncs(g: PaneGrid, p: View.PaneView, row: nat, col: nat, visible: bool)
    requires InSync(g, p)
    ensures InSync(Cleared(g), View.Refresh(p, Updates(Taken(g)), row, col, visible))
  {
    var updates := Updates(Taken(g));
    forall r, c | 0 <= r < g.height && 0 <= c < g.width
      ensures Shown(View.Patch(p.rows, updates)[r][c]) == Shown(g.rows[r][c])
    {
      FlushedCell(g, p, updates, r, c);
    }
  }

  lemma FlushedCell(g: PaneGrid, p: View.PaneView, updates: seq<View.Update>, r: nat, c: nat)
    requires InSync(g, p) && updates == Updates(Taken(g)) && r < g.height && c < g.width
    ensures Shown(View.Patch(p.rows, updates)[r][c]) == Shown(g.rows[r][c])
  {
    if g.dirty[r] {
      var k := TakenRow(g, r);
      PatchLast(p.rows, updates, k);
      assert updates[k].cells[c] == Shown(g.rows[r][c]);
    } else {
      assert !View.Touches(updates, r);
    }
  }

  /** Both sides take the same new size, and the server sends the rows again if it changed. */
  lemma ResizeSyncs(g: PaneGrid, p: View.PaneView, rect: Rect)
    requires InSync(g, p) && rect.rows < 0x1_0000 && rect.cols < 0x1_0000
    ensures InSync(Resized(g, rect), View.Refit(Some(p), rect))
  {
  }

  lemma RelayoutSyncs(id: u32, g: PaneGrid, s: View.Scene, step: ServerStep)
    requires step.Relayout? && Possible(id, g, step)
    requires id in s.panes && InSync(g, s.panes[id])
    ensures var t := View.Next(s, View.Layout(step.winRows, step.winCols, step.active, Rects(step.panes), step.zoomed));
      id in t.panes && InSync(NextGrid(id, g, step), t.panes[id])
  {
    var rects := Rects(step.panes);
    View.RelaidIsLaidOut(s.panes, rects, step.zoomed);
    var rect := RectFor(rects, id);
    if rect.Some? {
      var i :| 0 <= i < |rects| && rects[i] == Placed(id, rect.value);
      ResizeSyncs(g, s.panes[id], rect.value);
    }
  }

  lemma ReadOne(s: View.Scene, m: ServerMsg)
    ensures Client(s, [m]) == if Events(m) == [] then s else View.Next(s, Events(m)[0])
  {
    assert [m][..0] == [] && Client(s, []) == s;
    assert Client(s, [m]) == View.AfterAll(s, Events(m));
    if Events(m) != [] {
      assert Events(m)[..0] == [] && View.AfterAll(s, []) == s;
    }
  }

  lemma FlushRead(id: u32, g: PaneGrid, s: View.Scene, cursor: Cursor, flags: u8)
    requires id in s.panes && InSync(g, s.panes[id])
    ensures var t := Client(s, [GridUpdate(Taken(g), cursor, flags, Some(id))]);
      id in t.panes && InSync(Cleared(g), t.panes[id])
  {
    ReadOne(s, GridUpdate(Taken(g), cursor, flags, Some(id)));
    FlushSyncs(g, s.panes[id], cursor.row, cursor.col, cursor.visible);
  }

  lemma UnrelatedRead(id: u32, g: PaneGrid, s: View.Scene, m: ServerMsg)
    requires Possible(id, g, Unrelated(m)) && id in s.panes
    ensures id in Client(s, [m]).panes && Client(s, [m]).panes[id] == s.panes[id]
  {
    ReadOne(s, m);
  }

  lemma OutputSyncs(id: u32, g: PaneGrid, p: View.PaneView, rows: seq<Row>, dirty: seq<bool>)
    requires Possible(id, g, Output(rows, dirty)) && InSync(g, p)
    ensures InSync(g.(rows := rows, dirty := dirty), p)
  {
  }

  lemma SnapshotRead(id: u32, g: PaneGrid, s: View.Scene, cursor: Cursor, flags: u8)
    requires Sound(g) && (id in s.panes ==> IsGrid(s.panes[id]))
    ensures var t := Client(s, Sends(id, g, SendSnapshot(cursor, flags))); id in t.panes && Mirrors(g, t.panes[id])
  {
    var cells := SnapshotCells(g, g.height);
    ReadOne(s, GridSnapshot(g.height, g.width, cells, cursor, flags, Some(id)));
    SnapshotMirrors(g, View.Lookup(s.panes, id), cursor.row, cursor.col, cursor.visible);
    SnapshotNext(id, s, g.height, g.width, cells, cursor);
  }

  lemma SnapshotNext(id: u32, s: View.Scene, height: nat, width: nat, cells: Row, cursor: Cursor)
    ensures var (row, col, visible) := (cursor.row, cursor.col, cursor.visible);
      var t := View.Next(s, View.Snapshot(Some(id), height, width, cells, row, col, visible));
      && id in t.panes
      && t.panes[id] == View.Snapped(View.Lookup(s.panes, id), height, width, cells, row, col, visible)
  {
  }

  lemma RelayoutKeepsGrid(id: u32, g: PaneGrid, s: View.Scene, step: ServerStep)
    requires step.Relayout? && Possible(id, g, step) && (id in s.panes ==> IsGrid(s.panes[id]))
    ensures var t := Client(s, Sends(id, g, step)); id in t.panes ==> IsGrid(t.panes[id])
  {
    ReadOne(s, WindowLayout(step.winRows, step.winCols, step.active, step.panes, step.zoomed));
    RelaidIsGrid(id, s.panes, Rects(step.panes), step.zoomed);
  }

  lemma RelaidIsGrid(id: u32, panes: View.PaneMap, rects: Panes, zoomed: bool)
    requires Distinct(IdsOf(rects)) && (id in panes ==> IsGrid(panes[id]))
    ensures var after := View.Relaid(panes, rects, zoomed); id in after ==> IsGrid(after[id])
  {
    View.RelaidIsLaidOut(panes, rects, zoomed);
    if View.HasId(rects, id) {
      var i :| 0 <= i < |rects| && rects[i].id == id;
      RefitIsGrid(View.Lookup(panes, id), rects[i].rect);
    }
  }

  lemma RefitIsGrid(known: Option<View.PaneView>, rect: Rect)
    requires known.Some? ==> IsGrid(known.value)
    ensures IsGrid(View.Refit(known, rect))
  {
  }

  /** Whether the client is in touch with the server or not, its pane stays a grid. */
  lemma StepKeepsGrid(id: u32, g: PaneGrid, s: View.Scene, step: ServerStep)
    requires Sound(g) && Possible(id, g, step) && (id in s.panes ==> IsGrid(s.panes[id]))
    ensures Sound(NextGrid(id, g, step))
    ensures var t := Client(s, Sends(id, g, step)); id in t.panes ==> IsGrid(t.panes[id])
  {
    match step
    case Output(_, _) =>
    case Flush(cursor, flags) => ReadOne(s, GridUpdate(Taken(g), cursor, flags, Some(id)));
    case Relayout(_, _, _, _, _) => RelayoutKeepsGrid(id, g, s, step);
    case SendSnapshot(cursor, flags) => SnapshotRead(id, g, s, cursor, flags);
    case Skipped =>
    case Unrelated(m) => ReadOne(s, m);
  }

  lemma RelayoutRead(id: u32, g: PaneGrid, s: View.Scene, step: ServerStep)
    requires step.Relayout? && Possible(id, g, step)
    requires id in s.panes && InSync(g, s.panes[id])
    ensures var t := Client(s, Sends(id, g, step)); id in t.panes && InSync(NextGrid(id, g, step), t.panes[id])
  {
    ReadOne(s, WindowLayout(step.winRows, step.winCols, step.active, step.panes, step.zoomed));
    RelayoutSyncs(id, g, s, step);
  }

  lemma MirrorsInSync(g: PaneGrid, p: View.PaneView)
    requires Mirrors(g, p)
    ensures InSync(g, p)
  {
  }

  /** One step of the server, and the client that reads what it sends. */
  lemma StepSyncs(id: u32, g: PaneGrid, s: View.Scene, step: ServerStep)
    requires Possible(id, g, step) && !step.Skipped? && id in s.panes && InSync(g, s.panes[id])
    ensures var t := Client(s, Sends(id, g, step));
      id in t.panes && InSync(NextGrid(id, g, step), t.panes[id])
  {
    match step
    case Output(rows, dirty) =>
      OutputSyncs(id, g, s.panes[id], rows, dirty);
    case Flush(cursor, flags) =>
      FlushRead(id, g, s, cursor, flags);
    case Relayout(_, _, _, _, _) =>
      RelayoutRead(id, g, s, step);
    case SendSnapshot(cursor, flags) =>
      SnapshotRead(id, g, s, cursor, flags);
      MirrorsInSync(g, Client(s, Sends(id, g, step)).panes[id]);
    case Unrelated(m) =>
      UnrelatedRead(id, g, s, m);
  }

  // ---- Runs ----

  function GridAfter(id: u32, g: PaneGrid, steps: seq<ServerStep>): PaneGrid {
    if steps == [] then g else NextGrid(id, GridAfter(id, g, steps[..|steps| - 1]), steps[|steps| - 1])
  }

  /** All the server has sent. */
  function Sent(id: u32, g: PaneGrid, steps: seq<ServerStep>): seq<ServerMsg> {
    if steps == [] then []
    else
      var init := steps[..|steps| - 1];
      Sent(id, g, init) + Sends(id, GridAfter(id, g, init), steps[|steps| - 1])
  }

  ghost predicate CanRun(id: u32, g: PaneGrid, steps: seq<ServerStep>) {
    forall k :: 0 <= k < |steps| ==> Possible(id, GridAfter(id, g, steps[..k]), steps[k])
  }

  lemma ClientAppend(s: View.Scene, ms: seq<ServerMsg>, more: seq<ServerMsg>)
    requires |more| <= 1
    ensures Client(s, ms + more) == Client(Client(s, ms), more)
  {
    if more == [] {
      assert ms + more == ms;
    } else {
      assert (ms + more)[..|ms|] == ms && more[..0] == [];
    }
  }

  /** A client that skipped updates is in touch again from the next snapshot on. */
  predicate InTouch(steps: seq<ServerStep>, start: bool) {
    if steps == [] then start
    else
      var last := steps[|steps| - 1];
      last.SendSnapshot? || (!last.Skipped? && InTouch(steps[..|steps| - 1], start))
  }

  /** However output, updates, layouts, snapshots and messages for other panes are interleaved, a
      client in touch that has read all of them differs from the server in flagged rows only. */
  lemma {:induction false} StaysInSync(id: u32, g: PaneGrid, s: View.Scene, steps: seq<ServerStep>, start: bool)
    requires Sound(g) && CanRun(id, g, steps) && (id in s.panes ==> IsGrid(s.panes[id]))
    requires start ==> id in s.panes && InSync(g, s.panes[id])
    ensures var h, t := GridAfter(id, g, steps), Client(s, Sent(id, g, steps));
      && Sound(h) && (id in t.panes ==> IsGrid(t.panes[id]))
      && (InTouch(steps, start) ==> id in t.panes && InSync(h, t.panes[id]))
    decreases |steps|
  {
    if steps != [] {
      var init, last := steps[..|steps| - 1], steps[|steps| - 1];
      RunsInit(id, g, steps);
      StaysInSync(id, g, s, init, start);
      var h, t := GridAfter(id, g, init), Client(s, Sent(id, g, init));
      ClientAppend(s, Sent(id, g, init), Sends(id, h, last));
      StepInTouch(id, h, t, last, InTouch(init, start));
    }
  }

  lemma RunsInit(id: u32, g: PaneGrid, steps: seq<ServerStep>)
    requires CanRun(id, g, steps) && steps != []
    ensures CanRun(id, g, steps[..|steps| - 1])
    ensures Possible(id, GridAfter(id, g, steps[..|steps| - 1]), steps[|steps| - 1])
  {
    var init := steps[..|steps| - 1];
    forall k | 0 <= k < |init| ensures Possible(id, GridAfter(id, g, init[..k]), init[k]) {
      assert init[..k] == steps[..k];
    }
  }

  lemma StepInTouch(id: u32, g: PaneGrid, s: View.Scene, step: ServerStep, touch: bool)
    requires Sound(g) && Possible(id, g, step) && (id in s.panes ==> IsGrid(s.panes[id]))
    requires touch ==> id in s.panes && InSync(g, s.panes[id])
    ensures var h, t := NextGrid(id, g, step), Client(s, Sends(id, g, step));
      && Sound(h) && (id in t.panes ==> IsGrid(t.panes[id]))
      && (step.SendSnapshot? || (!step.Skipped? && touch) ==> id in t.panes && InSync(h, t.panes[id]))
  {
    StepKeepsGrid(id, g, s, step);
    if step.SendSnapshot? {
      SnapshotRead(id, g, s, step.cursor, step.flags);
    } else if touch && !step.Skipped? {
      StepSyncs(id, g, s, step);
    }
  }

  /** The server has just sent all it has to a client in touch: the dirty rows, or a snapshot. */
  predicate CaughtUp(steps: seq<ServerStep>, start: bool) {
    && steps != [] && InTouch(steps, start)
    && (steps[|steps| - 1].Flush? || steps[|steps| - 1].SendSnapshot?)
  }

  lemma CaughtUpSends(id: u32, g: PaneGrid, steps: seq<ServerStep>, start: bool)
    requires CaughtUp(steps, start)
    ensures var ms := Sent(id, g, steps); ms != [] && Events(ms[|ms| - 1]) != []
  {
    var init, last := steps[..|steps| - 1], steps[|steps| - 1];
    var more := Sends(id, GridAfter(id, g, init), last);
    assert |more| == 1 && Events(more[0]) != [];
    assert (Sent(id, g, init) + more)[|Sent(id, g, init)|] == more[0];
  }

  lemma CaughtUpMirrors(id: u32, g: PaneGrid, s: View.Scene, steps: seq<ServerStep>, start: bool)
    requires Sound(g) && CanRun(id, g, steps) && (id in s.panes ==> IsGrid(s.panes[id]))
    requires start ==> id in s.panes && InSync(g, s.panes[id])
    requires CaughtUp(steps, start)
    ensures var t := Client(s, Sent(id, g, steps)); id in t.panes && Mirrors(GridAfter(id, g, steps), t.panes[id])
  {
    StaysInSync(id, g, s, steps, start);
    var init, last := steps[..|steps| - 1], steps[|steps| - 1];
    if last.SendSnapshot? {
      RunsInit(id, g, steps);
      StaysInSync(id, g, s, init, start);
      var h, t := GridAfter(id, g, init), Client(s, Sent(id, g, init));
      ClientAppend(s, Sent(id, g, init), Sends(id, h, last));
      SnapshotRead(id, h, t, last.cursor, last.flags);
    }
  }

  /**
   * From the server's grid to the client's pane, bytes included: when the last thing the
   * server did was to send the dirty rows or a snapshot, a client that is in touch and reads
   * the byte stream, cut into chunks in any way, holds a copy of the pane that looks exactly
   * like the server's grid.
   */
  lemma ClientMirrorsServer(id: u32, g: PaneGrid, s: View.Scene, steps: seq<ServerStep>, start: bool,
      chunks: seq<Bytes>)
    requires Sound(g) && CanRun(id, g, steps) && (id in s.panes ==> IsGrid(s.panes[id]))
    requires start ==> id in s.panes && InSync(g, s.panes[id])
    requires CaughtUp(steps, start)
    requires forall i :: 0 <= i < |Sent(id, g, steps)| ==> Sendable(Sent(id, g, steps)[i])
    requires Concat(chunks) == EncodeAll(Sent(id, g, steps))
    ensures var read := ScanChunks(FrameStep, chunks);
      var t := Client(s, Messages(DecodePayload, read.pieces));
      && AllDecode(DecodePayload, read.pieces) && read.tail == []
      && id in t.panes && Mirrors(GridAfter(id, g, steps), t.panes[id])
  {
    ChunkedStream(Sent(id, g, steps), chunks);
    CaughtUpMirrors(id, g, s, steps, start);
  }

  /** And so the window shows it: where the pane is drawn, every cell of the composite is the
      server's cell, dimmed if another pane is active. */
  lemma WindowShowsServer(g: PaneGrid, id: nat, t: View.Scene, cells: seq<Row>, r: nat, c: nat)
    requires id in t.panes && Mirrors(g, t.panes[id]) && View.Tidy(t) && View.Composed(cells, t) && View.Drawn(t, id)
    requires r < g.height && c < g.width
    requires t.panes[id].rect.y + r < t.rows && t.panes[id].rect.x + c < t.cols
    ensures View.ShowsCell(Shown(cells[t.panes[id].rect.y + r][t.panes[id].rect.x + c]), Shown(g.rows[r][c]),
                           View.Dimmed(t, id))
  {
    View.CompositeShowsPane(cells, t, id, r, c);
  }

  // ---- Where the window stands ----

  /** The window has the size, the active pane and the zoom of a layout, and its panes stand where
      the layout puts them. */
  ghost predicate Stands(t: View.Scene, layout: ServerMsg)
    requires layout.WindowLayout?
  {
    && t.rows == Max(layout.rows, 1) && t.cols == Max(layout.cols, 1)
    && t.active == layout.activePane && t.zoomed == layout.zoomed
    && forall i :: 0 <= i < |layout.panes| ==> StandsAt(t, layout.panes[i])
  }

  predicate StandsAt(t: View.Scene, p: PaneRect) {
    p.paneId in t.panes && t.panes[p.paneId].rect.x == p.x && t.panes[p.paneId].rect.y == p.y
  }

  /** Message `k` is the last layout, and no later snapshot is for no pane in particular. */
  ghost predicate LastLayout(ms: seq<ServerMsg>, k: nat) {
    && k < |ms| && ms[k].WindowLayout? && Distinct(IdsOf(Rects(ms[k].panes)))
    && forall j :: k < j < |ms| ==> !ms[j].WindowLayout? && (ms[j].GridSnapshot? ==> ms[j].paneId.Some?)
  }

  lemma OneEvent(s: View.Scene, e: View.Event)
    ensures View.AfterAll(s, [e]) == View.Next(s, e)
  {
    assert [e][..0] == [];
  }

  lemma LayoutStands(s: View.Scene, m: ServerMsg)
    requires m.WindowLayout? && Distinct(IdsOf(Rects(m.panes)))
    ensures Stands(View.AfterAll(s, Events(m)), m)
  {
    var rects, t := Rects(m.panes), View.Next(s, Events(m)[0]);
    OneEvent(s, Events(m)[0]);
    View.RelaidIsLaidOut(s.panes, rects, m.zoomed);
    forall i | 0 <= i < |m.panes| ensures StandsAt(t, m.panes[i]) {
      assert rects[i].id in t.panes;
      RefitPlaces(View.Lookup(s.panes, rects[i].id), rects[i].rect);
    }
  }

  lemma RefitPlaces(known: Option<View.PaneView>, rect: Rect)
    ensures View.Refit(known, rect).rect == rect
  {
  }

  lemma StillStands(s: View.Scene, layout: ServerMsg, m: ServerMsg)
    requires layout.WindowLayout? && Stands(s, layout)
    requires !m.WindowLayout? && (m.GridSnapshot? ==> m.paneId.Some?)
    ensures Stands(View.AfterAll(s, Events(m)), layout)
  {
    if Events(m) != [] {
      var t := View.Next(s, Events(m)[0]);
      OneEvent(s, Events(m)[0]);
      forall i | 0 <= i < |layout.panes| ensures StandsAt(t, layout.panes[i]) {
        assert StandsAt(s, layout.panes[i]);
      }
    }
  }

  /** After any messages the window stands as the last layout says. */
  lemma {:induction false} LastLayoutStands(s: View.Scene, ms: seq<ServerMsg>, k: nat)
    requires LastLayout(ms, k)
    ensures Stands(Client(s, ms), ms[k])
    decreases |ms|
  {
    var init, last := ms[..|ms| - 1], ms[|ms| - 1];
    if k == |ms| - 1 {
      LayoutStands(Client(s, init), last);
    } else {
      LastLayoutStands(s, init, k);
      StillStands(Client(s, init), ms[k], last);
    }
  }

  /** The client's copy of the pane has the cursor last sent. */
  lemma CaughtUpCursor(id: u32, g: PaneGrid, s: View.Scene, steps: seq<ServerStep>, start: bool)
    requires Sound(g) && CanRun(id, g, steps) && (id in s.panes ==> IsGrid(s.panes[id]))
    requires start ==> id in s.panes && InSync(g, s.panes[id])
    requires CaughtUp(steps, start)
    ensures var t, cursor := Client(s, Sent(id, g, steps)), steps[|steps| - 1].cursor;
      && id in t.panes && t.panes[id].curRow == cursor.row && t.panes[id].curCol == cursor.col
      && t.panes[id].visible == cursor.visible
  {
    CaughtUpMirrors(id, g, s, steps, start);
    var init, last := steps[..|steps| - 1], steps[|steps| - 1];
    var h := GridAfter(id, g, init);
    ClientAppend(s, Sent(id, g, init), Sends(id, h, last));
    CursorRead(id, h, Client(s, Sent(id, g, init)), last);
  }

  lemma CursorRead(id: u32, g: PaneGrid, s: View.Scene, step: ServerStep)
    requires step.Flush? || step.SendSnapshot?
    ensures var t := Client(s, Sends(id, g, step));
      id in t.panes ==>
        && t.panes[id].curRow == step.cursor.row && t.panes[id].curCol == step.cursor.col
        && t.panes[id].visible == step.cursor.visible
  {
    var more := Sends(id, g, step);
    assert more[..0] == [] && Client(s, []) == s;
    OneEvent(s, Events(more[0])[0]);
  }

  /** The window stands as the last layout says, and the pane has the cursor last sent for it. */
  ghost predicate AsSent(t: View.Scene, id: u32, ms: seq<ServerMsg>, cursor: Cursor) {
    && (forall k: nat :: LastLayout(ms, k) ==> Stands(t, ms[k]))
    && id in t.panes && t.panes[id].curRow == cursor.row && t.panes[id].curCol == cursor.col
    && t.panes[id].visible == cursor.visible
  }

  lemma CaughtUpAsSent(id: u32, g: PaneGrid, s: View.Scene, steps: seq<ServerStep>, start: bool)
    requires Sound(g) && CanRun(id, g, steps) && (id in s.panes ==> IsGrid(s.panes[id]))
    requires start ==> id in s.panes && InSync(g, s.panes[id])
    requires CaughtUp(steps, start)
    ensures AsSent(Client(s, Sent(id, g, steps)), id, Sent(id, g, steps), steps[|steps| - 1].cursor)
  {
    CaughtUpCursor(id, g, s, steps, start);
    forall k: nat | LastLayout(Sent(id, g, steps), k)
      ensures Stands(Client(s, Sent(id, g, steps)), Sent(id, g, steps)[k])
    {
      LastLayoutStands(s, Sent(id, g, steps), k);
    }
  }

  // ---- The server's pane ----

  class ServerPane {
    const grid: Grid
    var rows: u16
    var cols: u16

    ghost predicate Valid()
      reads this, grid, grid.scrollback
    {
      grid.Valid() && Sound(State())
    }

    ghost function State(): PaneGrid
      reads this, grid
    {
      PaneGrid(grid.rows, grid.cols, grid.dirty, rows, cols)
    }

    constructor (rows: u16, cols: u16)
      ensures Valid() && fresh(grid) && fresh(grid.scrollback)
      ensures State().height == rows && State().width == cols
      ensures forall r :: 0 <= r < |State().dirty| ==> State().dirty[r]
    {
      grid := new Grid(rows, cols, 10_000);
      this.rows, this.cols := rows, cols;
    }

    /** Whatever the child writes, the outcome is a possible step. */
    method Write(ops: seq<Op>) returns (handed: seq<Row>, done: nat)
      requires Valid() && forall k :: 0 <= k < |ops| ==> !ops[k].OpResize?
      modifies grid, grid.scrollback
      ensures Valid()
      ensures var step := Output(grid.rows, grid.dirty); forall id: u32 ::
        Possible(id, old(State()), step) && State() == NextGrid(id, old(State()), step)
    {
      ghost var before := Terminal(grid.View(), grid.savedCursor);
      handed, done := grid.Run(ops);
      RunsKeepSize(before, ops[..done], Terminal(grid.View(), grid.savedCursor));
    }

    method TakeDirtyRows() returns (taken: seq<DirtyRow>)
      requires Valid()
      modifies grid`dirty
      ensures Valid() && taken == Taken(old(State())) && State() == Cleared(old(State()))
    {
      ghost var g := State();
      var at := grid.TakeDirty();
      taken := CollectOwn(at, grid.rows, rows, cols, g);
      ClearedIs(g, grid.dirty);
    }

    /** The whole pane, row by row. */
    method Snapshot() returns (cells: Row)
      requires Valid()
      ensures cells == SnapshotCells(State(), rows)
    {
      cells := CollectAll(grid.rows, rows, cols, State());
    }

    method Resize(rows: u16, cols: u16)
      requires Valid()
      modifies this, grid, grid.scrollback
      ensures Valid() && State() == Resized(old(State()), Rect(0, 0, cols, rows))
    {
      if this.rows == rows && this.cols == cols { return; }
      grid.Resize(rows, cols);
      this.rows, this.cols := rows, cols;
      assert grid.dirty == seq(rows, _ => true);
    }
  }

  method CollectAll(rows: seq<Row>, height: u16, width: u16, ghost g: PaneGrid) returns (cells: Row)
    requires rows == g.rows && height == g.height && width == g.width
    ensures cells == SnapshotCells(g, height)
  {
    cells := [];
    for r := 0 to height
      invariant cells == SnapshotCells(g, r)
    {
      cells := cells + if r < |rows| then ShownRow(rows[r][..Min(|rows[r]|, width)]) else BlankRow(width);
    }
  }

  /** Keep the rows that the pane has: the first `n`. */
  method Collect(at: seq<nat>, rows: seq<Row>, height: u16, width: u16, ghost n: nat)
      returns (taken: seq<DirtyRow>)
    requires n <= |at| && forall k :: 0 <= k < |at| ==> at[k] < |rows| && (at[k] < height <==> k < n)
    ensures |taken| == n
    ensures forall k :: 0 <= k < n ==> taken[k] == RowSent(at[k], rows[at[k]], width)
  {
    taken := [];
    for k := 0 to |at|
      invariant |taken| == Min(k, n)
      invariant forall i :: 0 <= i < |taken| ==> taken[i] == RowSent(at[i], rows[at[i]], width)
    {
      if at[k] < height { taken := taken + [RowSent(at[k], rows[at[k]], width)]; }
    }
  }

  method CollectOwn(at: seq<nat>, rows: seq<Row>, height: u16, width: u16, ghost g: PaneGrid)
      returns (taken: seq<DirtyRow>)
    requires Sound(g) && rows == g.rows && height == g.height && width == g.width
    requires at == DirtyRows(g.dirty, |g.dirty|)
    ensures taken == Taken(g)
  {
    OwnRowsFirst(g);
    taken := Collect(at, rows, height, width, |Taken(g)|);
    TakenIs(g, taken);
  }

  lemma ClearedIs(g: PaneGrid, dirty: seq<bool>)
    requires |dirty| == |g.dirty| && forall r :: 0 <= r < |dirty| ==> !dirty[r]
    ensures g.(dirty := dirty) == Cleared(g)
  {
  }

  lemma OwnRowsFirst(g: PaneGrid)
    requires Sound(g)
    ensures var at := DirtyRows(g.dirty, |g.dirty|);
      |Taken(g)| <= |at| && forall k :: 0 <= k < |at| ==> at[k] < |g.rows| && (at[k] < g.height <==> k < |Taken(g)|)
  {
    DirtySplit(g.dirty, Min(|g.rows|, g.height), |g.dirty|);
  }

  lemma TakenIs(g: PaneGrid, taken: seq<DirtyRow>)
    requires Sound(g) && |taken| == |Taken(g)|
    requires var at := DirtyRows(g.dirty, |g.dirty|);
      |taken| <= |at| && forall k :: 0 <= k < |taken| ==>
        at[k] < |g.rows| && at[k] < g.height && taken[k] == RowSent(at[k], g.rows[at[k]], g.width)
    ensures taken == Taken(g)
  {
    DirtySplit(g.dirty, Min(|g.rows|, g.height), |g.dirty|);
  }

  /** The flagged rows below `n` come first. */
  lemma {:induction false} DirtySplit(dirty: seq<bool>, n: nat, m: nat)
    requires n <= m <= |dirty|
    ensures var low, all := DirtyRows(dirty, n), DirtyRows(dirty, m);
      low <= all && forall k :: |low| <= k < |all| ==> all[k] >= n
    decreases m
  {
    if n < m { DirtySplit(dirty, n, m - 1); }
  }
}
