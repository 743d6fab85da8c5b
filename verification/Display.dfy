/** The client's loop: messages into the window view, the window view onto the terminal
    (src/client/mod.rs, the server half of the event loop). */
module Display {
  import opened Ints
  import opened Wrappers
  import opened Cells
  import opened Screens
  import opened Grids
  import opened LayoutTree
  import opened Streams
  import opened WireServer
  import opened WireFrames
  import opened Mirror
  import View = Composite
  import Render

  /** A run of rows that scrolled off the only pane: the host terminal is scrolled along. */
  predicate ScrollsHost(s: View.Scene, m: ServerMsg) {
    m.ScrollbackUpdate? && m.history != [] && !m.replay && |s.panes| <= 1
  }

  /** No message of the run scrolls the terminal. */
  ghost predicate Calm(s: View.Scene, msgs: seq<ServerMsg>) {
    forall k :: 0 <= k < |msgs| ==> !ScrollsHost(Mirror.Client(s, msgs[..k]), msgs[k])
  }

  /** The renderer `c` draws the composite on a terminal of that size, all but the last row. */
  ghost predicate Draws(c: Render.Client, cells: seq<Row>, cols: nat, dirty: seq<bool>, termRows: nat, termCols: nat) {
    && c.pic == Render.Picture(cells, cols) && c.dirty == dirty
    && |c.term.rows| == termRows && c.term.cols == termCols
    && c.viewRows == Min(|cells|, SatSub(termRows, 1)) && c.viewCols == Min(cols, termCols)
    && Render.NearlyInStep(c) && Render.CursorKnown(c)
  }

  /** The terminal's cursor is shown exactly when it is visible and in the viewport. */
  predicate Pointing(c: Render.Client, now: Render.Cursor, inView: bool) {
    c.shown == (now.visible && inView)
  }

  /** What the last frame has put on the terminal. */
  ghost predicate Showing(c: Render.Client) {
    Render.Shows(c.term, c.pic, c.viewRows, c.viewCols)
  }

  // ---- One message ----

  /** Clear the terminal and draw everything. */
  ghost function Redrawn(c: Render.Client, cells: seq<Row>, cols: nat, termRows: nat, termCols: nat, now: Render.Cursor,
      inView: bool): Render.Client
    requires Render.Region(c.term)
  {
    var reset := Render.Reset(Render.Picture(cells, cols), Min(|cells|, SatSub(termRows, 1)), Min(cols, termCols));
    Render.Next(Render.Next(c, reset), Render.Draw(now, inView))
  }

  lemma RedrawnShows(c: Render.Client, cells: seq<Row>, cols: nat, termRows: nat, termCols: nat, now: Render.Cursor,
      inView: bool)
    requires Render.NearlyInStep(c) && Render.CursorKnown(c)
    requires |c.term.rows| == termRows < 0x1_0000 && c.term.cols == termCols < 0x1_0000
    requires View.Shape(cells, |cells|, cols)
    ensures var d := Redrawn(c, cells, cols, termRows, termCols, now, inView);
      && Draws(d, cells, cols, Render.AllClean(|cells|), termRows, termCols)
      && Render.InStep(d) && Showing(d) && Pointing(d, now, inView)
  {
    var reset := Render.Reset(Render.Picture(cells, cols), Min(|cells|, SatSub(termRows, 1)), Min(cols, termCols));
    Render.ResetInStep(c, reset);
    Render.NextKnowsCursor(c, reset);
    ResetDraws(c, cells, cols, termRows, termCols, reset);
    FrameDraws(Render.Next(c, reset), cells, cols, Render.AllDirty(|cells|), now, inView, termRows, termCols);
  }

  lemma ResetDraws(c: Render.Client, cells: seq<Row>, cols: nat, termRows: nat, termCols: nat, reset: Render.Event)
    requires reset ==
      Render.Reset(Render.Picture(cells, cols), Min(|cells|, SatSub(termRows, 1)), Min(cols, termCols))
    requires Render.Region(c.term) && |c.term.rows| == termRows && c.term.cols == termCols
    requires Render.InStep(Render.Next(c, reset)) && Render.CursorKnown(Render.Next(c, reset))
    ensures Draws(Render.Next(c, reset), cells, cols, Render.AllDirty(|cells|), termRows, termCols)
  {
    Render.InStepUnscathed(Render.Next(c, reset));
  }

  lemma UpdateDraws(c: Render.Client, before: seq<Row>, flags: seq<bool>, cells: seq<Row>, dirty: seq<bool>, cols: nat,
      termRows: nat, termCols: nat)
    requires Draws(c, before, cols, flags, termRows, termCols) && Tracked(before, flags, cells, dirty)
    requires |cells| == |before| && View.Shape(cells, |cells|, cols)
    ensures var d := Render.Next(c, Render.Update(cells, dirty));
      Draws(d, cells, cols, dirty, termRows, termCols) && (Render.InStep(c) ==> Render.InStep(d))
  {
    var e := Render.Update(cells, dirty);
    Render.NextNearlyInStep(c, e);
    Render.NextKnowsCursor(c, e);
    if Render.InStep(c) { Render.NextInStep(c, e); }
  }

  lemma ScrollDraws(c: Render.Client, cells: seq<Row>, cols: nat, dirty: seq<bool>, n: nat, termRows: nat,
      termCols: nat)
    requires Draws(c, cells, cols, dirty, termRows, termCols)
    ensures Draws(Render.Next(c, Render.HostScroll(n)), cells, cols, Render.AllDirty(|cells|), termRows, termCols)
  {
    Render.NextNearlyInStep(c, Render.HostScroll(n));
    Render.NextKnowsCursor(c, Render.HostScroll(n));
  }

  /** One frame. */
  lemma FrameDraws(c: Render.Client, cells: seq<Row>, cols: nat, dirty: seq<bool>, now: Render.Cursor, inView: bool,
      termRows: nat, termCols: nat)
    requires Draws(c, cells, cols, dirty, termRows, termCols)
    ensures var d := Render.Next(c, Render.Draw(now, inView));
      && Draws(d, cells, cols, Render.AllClean(|dirty|), termRows, termCols)
      && (Render.InStep(c) ==> Render.InStep(d))
      && (Showing(d) <==> Render.Unscathed(c))
      && (Render.InStep(c) || Render.NoBlanks(d) ==> Showing(d))
      && Pointing(d, now, inView)
  {
    Render.NextNearlyInStep(c, Render.Draw(now, inView));
    Render.NextKnowsCursor(c, Render.Draw(now, inView));
    if Render.InStep(c) { Render.NextInStep(c, Render.Draw(now, inView)); }
  }

  // ---- The loop ----

  lemma OneRun(s: View.Scene, es: seq<View.Event>, exact: bool)
    requires |es| == 1
    ensures View.AfterAll(s, es) == View.Next(s, es[0])
    ensures View.ExactAfter(s, es, exact) == View.StaysExact(s, es[0], exact)
  {
    assert es[..0] == [] && View.AfterAll(s, []) == s;
  }

  /** Where the window's cursor is. */
  ghost function CursorOf(view: View.WindowView): Render.Cursor
    reads view
  {
    Render.Cursor((view.cursorRow, view.cursorCol), view.cursorVisible)
  }

  /** Whether that is in the viewport. */
  ghost predicate InView(view: View.WindowView, termRows: nat, termCols: nat)
    reads view
  {
    view.cursorRow < Min(|view.cells|, SatSub(termRows, 1)) && view.cursorCol < Min(view.winCols, termCols)
  }

  /** New content for a pane is drawn later. */
  method HandleUpdate(view: View.WindowView, m: ServerMsg, ghost c: Render.Client, termRows: nat, termCols: nat)
      returns (ghost d: Render.Client)
    requires view.Valid() && Draws(c, view.cells, view.winCols, view.dirty, termRows, termCols) && m.GridUpdate?
    modifies view
    ensures view.Valid() && view.View() == View.AfterAll(old(view.View()), Events(m))
    ensures View.ExactAfter(old(view.View()), Events(m), old(view.Exact())) ==> view.Exact()
    ensures Draws(d, view.cells, view.winCols, view.dirty, termRows, termCols)
    ensures Render.InStep(c) ==> Render.InStep(d)
  {
    ghost var cells0, dirty0 := view.cells, view.dirty;
    OneRun(view.View(), Events(m), view.Exact());
    view.Apply(Events(m)[0]);
    UpdateDraws(c, cells0, dirty0, view.cells, view.dirty, view.winCols, termRows, termCols);
    d := Render.Next(c, Render.Update(view.cells, view.dirty));
  }

  /** A layout or a snapshot is drawn at once, on a cleared terminal. */
  method HandleRedraw(view: View.WindowView, m: ServerMsg, ghost c: Render.Client, termRows: nat, termCols: nat)
      returns (ghost d: Render.Client)
    requires view.Valid() && Draws(c, view.cells, view.winCols, view.dirty, termRows, termCols)
    requires m.WindowLayout? || m.GridSnapshot?
    requires termRows < 0x1_0000 && termCols < 0x1_0000
    modifies view
    ensures view.Valid() && view.View() == View.AfterAll(old(view.View()), Events(m))
    ensures View.ExactAfter(old(view.View()), Events(m), old(view.Exact())) ==> view.Exact()
    ensures Draws(d, view.cells, view.winCols, view.dirty, termRows, termCols)
    ensures Render.InStep(d) && Showing(d) && Pointing(d, CursorOf(view), InView(view, termRows, termCols))
  {
    OneRun(view.View(), Events(m), view.Exact());
    view.Apply(Events(m)[0]);
    view.TakeFlags();
    ghost var now, inView := CursorOf(view), InView(view, termRows, termCols);
    RedrawnShows(c, view.cells, view.winCols, termRows, termCols, now, inView);
    d := Redrawn(c, view.cells, view.winCols, termRows, termCols, now, inView);
    assert view.dirty == Render.AllClean(|view.cells|);
  }

  /** Rows scrolled off the only pane scroll the terminal. */
  method HandleScroll(view: View.WindowView, n: nat, ghost c: Render.Client, termRows: nat, termCols: nat)
      returns (ghost d: Render.Client)
    requires view.Valid() && Draws(c, view.cells, view.winCols, view.dirty, termRows, termCols)
    modifies view`dirty
    ensures view.Valid() && view.View() == old(view.View()) && (old(view.Exact()) ==> view.Exact())
    ensures Draws(d, view.cells, view.winCols, view.dirty, termRows, termCols)
  {
    ScrollDraws(c, view.cells, view.winCols, view.dirty, n, termRows, termCols);
    d := Render.Next(c, Render.HostScroll(n));
    view.MarkAllDirty();
    assert view.dirty == Render.AllDirty(|view.cells|);
  }

  /** One message. */
  method Handle(view: View.WindowView, m: ServerMsg, needs: bool, ghost c: Render.Client, termRows: nat, termCols: nat)
      returns (later: bool, ghost d: Render.Client)
    requires view.Valid() && Draws(c, view.cells, view.winCols, view.dirty, termRows, termCols)
    requires termRows < 0x1_0000 && termCols < 0x1_0000
    modifies view
    ensures view.Valid() && view.View() == View.AfterAll(old(view.View()), Events(m))
    ensures View.ExactAfter(old(view.View()), Events(m), old(view.Exact())) ==> view.Exact()
    ensures Draws(d, view.cells, view.winCols, view.dirty, termRows, termCols)
    ensures Render.InStep(c) && !ScrollsHost(old(view.View()), m) ==> Render.InStep(d)
    ensures Events(m) != [] && !later ==>
      Showing(d) && Pointing(d, CursorOf(view), InView(view, termRows, termCols))
  {
    later, d := needs, c;
    if m.GridUpdate? {
      d := HandleUpdate(view, m, c, termRows, termCols);
      later := true;
    } else if m.WindowLayout? || m.GridSnapshot? {
      d := HandleRedraw(view, m, c, termRows, termCols);
      later := false;
    } else if m.ScrollbackUpdate? && m.history != [] && !m.replay && |view.panes| <= 1 {
      d := HandleScroll(view, |m.history|, c, termRows, termCols);
    }
  }

  /** The frame that is due. */
  method Paint(view: View.WindowView, ghost c: Render.Client, termRows: nat, termCols: nat)
      returns (ghost d: Render.Client)
    requires view.Valid() && Draws(c, view.cells, view.winCols, view.dirty, termRows, termCols)
    modifies view`dirty
    ensures view.Valid() && view.View() == old(view.View()) && (old(view.Exact()) ==> view.Exact())
    ensures Draws(d, view.cells, view.winCols, view.dirty, termRows, termCols)
    ensures Showing(d) <==> Render.Unscathed(c)
    ensures Render.InStep(c) ==> Render.InStep(d)
    ensures Render.InStep(c) || Render.NoBlanks(d) ==> Showing(d)
    ensures Pointing(d, CursorOf(view), InView(view, termRows, termCols))
  {
    ghost var now, inView := CursorOf(view), InView(view, termRows, termCols);
    FrameDraws(c, view.cells, view.winCols, view.dirty, now, inView, termRows, termCols);
    d := Render.Next(c, Render.Draw(now, inView));
    view.TakeFlags();
    assert view.dirty == Render.AllClean(|view.cells|);
  }

  /** The view after some messages: its scene, whether it is surely exact, and whether no
      message scrolled the terminal. */
  datatype Stage = Stage(scene: View.Scene, exact: bool, calm: bool)

  /** What reading one message does; the proof about a batch need not look inside. */
  datatype Reading = Reading(
    after: (View.Scene, ServerMsg) -> View.Scene,
    keeps: (View.Scene, ServerMsg, bool) -> bool)

  ghost predicate IsReading(read: Reading) {
    && (forall s, m {:trigger View.AfterAll(s, Events(m))} :: read.after(s, m) == View.AfterAll(s, Events(m)))
    && (forall s, m, exact {:trigger View.ExactAfter(s, Events(m), exact)} ::
          read.keeps(s, m, exact) == View.ExactAfter(s, Events(m), exact))
  }

  ghost predicate Follows(read: Reading, a: Stage, b: Stage, m: ServerMsg) {
    && b.scene == read.after(a.scene, m) && b.exact == read.keeps(a.scene, m, a.exact)
    && b.calm == (a.calm && !ScrollsHost(a.scene, m))
  }

  /** The stages of a run of messages, step by step. */
  ghost predicate Stages(read: Reading, t: seq<Stage>, msgs: seq<ServerMsg>) {
    |t| == |msgs| + 1 && forall k {:trigger msgs[k]} :: 0 <= k < |msgs| ==> Follows(read, t[k], t[k + 1], msgs[k])
  }

  lemma {:induction false} StagesFrom(read: Reading, first: Stage, msgs: seq<ServerMsg>) returns (t: seq<Stage>)
    ensures Stages(read, t, msgs) && t[0] == first
    decreases |msgs|
  {
    t := [first];
    if msgs != [] {
      var init, last := msgs[..|msgs| - 1], msgs[|msgs| - 1];
      t := StagesFrom(read, first, init);
      var a := t[|init|];
      var calm := a.calm && !ScrollsHost(a.scene, last);
      t := t + [Stage(read.after(a.scene, last), read.keeps(a.scene, last, a.exact), calm)];
      forall k {:trigger msgs[k]} | 0 <= k < |msgs| ensures Follows(read, t[k], t[k + 1], msgs[k]) {
        if k < |init| { assert msgs[k] == init[k]; }
      }
    }
  }

  /** Stages that are told by a function of the messages so far. */
  lemma {:induction false} StageTold(read: Reading, told: seq<ServerMsg> -> Stage, t: seq<Stage>, msgs: seq<ServerMsg>,
      k: nat)
    requires Stages(read, t, msgs) && k <= |msgs| && t[0] == told([])
    requires forall i {:trigger msgs[i]} :: 0 <= i < |msgs| ==>
      Follows(read, told(msgs[..i]), told(msgs[..i + 1]), msgs[i])
    ensures t[k] == told(msgs[..k])
    decreases k
  {
    if k > 0 {
      StageTold(read, told, t, msgs, k - 1);
      assert Follows(read, t[k - 1], t[k - 1 + 1], msgs[k - 1]);
      assert Follows(read, told(msgs[..k - 1]), told(msgs[..k - 1 + 1]), msgs[k - 1]);
    }
  }

  ghost function StageAfter(s: View.Scene, msgs: seq<ServerMsg>, exact: bool): Stage {
    Stage(Mirror.Client(s, msgs), View.ExactAfter(s, AllEvents(msgs), exact), Calm(s, msgs))
  }

  lemma StageOneMore(read: Reading, s: View.Scene, msgs: seq<ServerMsg>, i: nat, exact: bool)
    requires IsReading(read) && i < |msgs|
    ensures Follows(read, StageAfter(s, msgs[..i], exact), StageAfter(s, msgs[..i + 1], exact), msgs[i])
  {
    var init := msgs[..i];
    assert msgs[..i + 1] == init + [msgs[i]] && (init + [msgs[i]])[..i] == init;
    ClientIsRun(s, init);
    RunOneMore(s, AllEvents(init), Events(msgs[i]), exact);
    CalmOneMore(s, init, msgs[i]);
    var scene := Mirror.Client(s, init);
    var sure := View.ExactAfter(s, AllEvents(init), exact);
    assert read.after(scene, msgs[i]) == View.AfterAll(scene, Events(msgs[i]));
    assert read.keeps(scene, msgs[i], sure) == View.ExactAfter(scene, Events(msgs[i]), sure);
  }

  lemma Traced(read: Reading, s: View.Scene, msgs: seq<ServerMsg>, exact: bool) returns (t: seq<Stage>)
    requires IsReading(read)
    ensures Stages(read, t, msgs) && t[0] == Stage(s, exact, true) && t[|msgs|] == StageAfter(s, msgs, exact)
  {
    t := StagesFrom(read, Stage(s, exact, true), msgs);
    var told := ms => StageAfter(s, ms, exact);
    forall i {:trigger msgs[i]} | 0 <= i < |msgs|
      ensures Follows(read, told(msgs[..i]), told(msgs[..i + 1]), msgs[i])
    {
      StageOneMore(read, s, msgs, i, exact);
    }
    StageTold(read, told, t, msgs, |msgs|);
    assert msgs[..|msgs|] == msgs;
  }

  lemma CalmOneMore(s: View.Scene, init: seq<ServerMsg>, last: ServerMsg)
    ensures Calm(s, init + [last]) <==> Calm(s, init) && !ScrollsHost(Mirror.Client(s, init), last)
  {
    var msgs := init + [last];
    forall k | 0 <= k <= |init| ensures msgs[..k] == init[..k] {
    }
    assert init[..|init|] == init && msgs[|init|] == last;
    if Calm(s, msgs) {
      forall k | 0 <= k < |init| ensures !ScrollsHost(Mirror.Client(s, init[..k]), init[k]) {
        assert msgs[k] == init[k];
      }
      assert !ScrollsHost(Mirror.Client(s, msgs[..|init|]), msgs[|init|]);
    }
    if Calm(s, init) && !ScrollsHost(Mirror.Client(s, init), last) {
      forall k | 0 <= k < |msgs| ensures !ScrollsHost(Mirror.Client(s, msgs[..k]), msgs[k]) {
        if k < |init| { assert msgs[k] == init[k]; }
      }
    }
  }

  lemma SurelyMonotone(s: View.Scene, m: ServerMsg)
    ensures View.ExactAfter(s, Events(m), false) ==> View.ExactAfter(s, Events(m), true)
  {
    if Events(m) != [] {
      OneRun(s, Events(m), false);
      OneRun(s, Events(m), true);
    }
  }

  /** From one stage to the next. */
  method HandleAs(ghost read: Reading, ghost a: Stage, ghost b: Stage, view: View.WindowView, m: ServerMsg, needs: bool,
      ghost c: Render.Client, termRows: nat, termCols: nat) returns (later: bool, ghost d: Render.Client)
    requires IsReading(read) && Follows(read, a, b, m) && view.View() == a.scene && (a.exact ==> view.Exact())
    requires view.Valid() && Draws(c, view.cells, view.winCols, view.dirty, termRows, termCols)
    requires termRows < 0x1_0000 && termCols < 0x1_0000
    modifies view
    ensures view.Valid() && view.View() == b.scene && (b.exact ==> view.Exact())
    ensures Draws(d, view.cells, view.winCols, view.dirty, termRows, termCols)
    ensures a.calm && b.calm && Render.InStep(c) ==> Render.InStep(d)
    ensures Events(m) != [] && !later ==>
      Showing(d) && Pointing(d, CursorOf(view), InView(view, termRows, termCols))
  {
    SurelyMonotone(view.View(), m);
    later, d := Handle(view, m, needs, c, termRows, termCols);
  }

  method FollowAs(ghost read: Reading, ghost t: seq<Stage>, view: View.WindowView, msgs: seq<ServerMsg>,
      ghost c: Render.Client, termRows: nat, termCols: nat) returns (ghost d: Render.Client)
    requires IsReading(read) && Stages(read, t, msgs) && t[0] == Stage(view.View(), view.Exact(), true)
    requires view.Valid() && Draws(c, view.cells, view.winCols, view.dirty, termRows, termCols)
    requires termRows < 0x1_0000 && termCols < 0x1_0000
    requires msgs != [] && Events(msgs[|msgs| - 1]) != []
    modifies view
    ensures var last := t[|msgs|];
      && view.Valid() && view.View() == last.scene && (last.exact ==> view.Exact())
      && Draws(d, view.cells, view.winCols, view.dirty, termRows, termCols)
      && ((Render.InStep(c) && last.calm) || Render.NoBlanks(d) ==> Showing(d))
      && Pointing(d, CursorOf(view), InView(view, termRows, termCols))
  {
    d := c;
    var needs := false;
    for k := 0 to |msgs|
      invariant view.Valid() && view.View() == t[k].scene && (t[k].exact ==> view.Exact())
      invariant Draws(d, view.cells, view.winCols, view.dirty, termRows, termCols)
      invariant Render.InStep(c) && t[k].calm ==> Render.InStep(d)
      invariant k > 0 && Events(msgs[k - 1]) != [] && !needs ==>
        Showing(d) && Pointing(d, CursorOf(view), InView(view, termRows, termCols))
    {
      assert Follows(read, t[k], t[k + 1], msgs[k]);
      needs, d := HandleAs(read, t[k], t[k + 1], view, msgs[k], needs, d, termRows, termCols);
    }
    if needs { d := Paint(view, d, termRows, termCols); }
  }

  /**
   * The messages of one batch, and the frame at its end. The window view follows the messages,
   * and the terminal shows it, always if no message scrolled the terminal or no viewport cell
   * of the composite is blank; its cursor is shown exactly when the window's is and in view.
   */
  method Follow(view: View.WindowView, msgs: seq<ServerMsg>, ghost c: Render.Client, termRows: nat, termCols: nat)
      returns (ghost d: Render.Client)
    requires view.Valid() && Draws(c, view.cells, view.winCols, view.dirty, termRows, termCols)
    requires termRows < 0x1_0000 && termCols < 0x1_0000
    requires msgs != [] && Events(msgs[|msgs| - 1]) != []
    modifies view
    ensures view.Valid() && view.View() == Mirror.Client(old(view.View()), msgs)
    ensures View.ExactAfter(old(view.View()), AllEvents(msgs), old(view.Exact())) ==> view.Exact()
    ensures Draws(d, view.cells, view.winCols, view.dirty, termRows, termCols)
    ensures (Render.InStep(c) && Calm(old(view.View()), msgs)) || Render.NoBlanks(d) ==> Showing(d)
    ensures Pointing(d, CursorOf(view), InView(view, termRows, termCols))
  {
    ghost var read := Reading(
      (s, m) => View.AfterAll(s, Events(m)), (s, m, exact) => View.ExactAfter(s, Events(m), exact));
    ghost var t := Traced(read, view.View(), msgs, view.Exact());
    d := FollowAs(read, t, view, msgs, c, termRows, termCols);
  }

  // ---- From the server's grid to the terminal ----

  /** Where it lies in the viewport, the terminal shows the pane's cell (r, k) as the server has
      it, dimmed if another pane is active. */
  ghost predicate CellShows(c: Render.Client, g: PaneGrid, t: View.Scene, id: nat, r: nat, k: nat)
    requires Sound(g) && id in t.panes && r < g.height && k < g.width
  {
    var y, x := t.panes[id].rect.y + r, t.panes[id].rect.x + k;
    y < c.viewRows && x < c.viewCols ==>
      && y < |c.term.rows| && x < |c.term.rows[y]|
      && View.ShowsCell(Shown(c.term.rows[y][x]), Shown(g.rows[r][k]), View.Dimmed(t, id))
  }

  ghost predicate ScreenShows(c: Render.Client, g: PaneGrid, t: View.Scene, id: nat)
    requires Sound(g) && id in t.panes
  {
    forall r, k :: 0 <= r < g.height && 0 <= k < g.width ==> CellShows(c, g, t, id, r, k)
  }

  lemma ScreenShowsServer(c: Render.Client, g: PaneGrid, t: View.Scene, cells: seq<Row>, id: nat)
    requires id in t.panes && Mirrors(g, t.panes[id]) && View.Tidy(t) && View.Composed(cells, t) && View.Drawn(t, id)
    requires c.pic == Render.Picture(cells, t.cols) && c.viewRows <= t.rows && c.viewCols <= t.cols
    requires Render.NearlyInStep(c) && Showing(c)
    ensures ScreenShows(c, g, t, id)
  {
    forall r, k | 0 <= r < g.height && 0 <= k < g.width ensures CellShows(c, g, t, id, r, k) {
      ScreenCell(c, g, t, cells, id, r, k);
    }
  }

  lemma SeenIfShowing(c: Render.Client, g: PaneGrid, t: View.Scene, cells: seq<Row>, dirty: seq<bool>, id: nat,
      termRows: nat, termCols: nat)
    requires id in t.panes && Mirrors(g, t.panes[id])
    requires View.Framed(cells, t) && Draws(c, cells, t.cols, dirty, termRows, termCols)
    ensures View.Composed(cells, t) && View.Tidy(t) && View.Drawn(t, id) && Showing(c) ==> ScreenShows(c, g, t, id)
  {
    if View.Composed(cells, t) && View.Tidy(t) && View.Drawn(t, id) && Showing(c) {
      ScreenShowsServer(c, g, t, cells, id);
    }
  }

  lemma ScreenCell(c: Render.Client, g: PaneGrid, t: View.Scene, cells: seq<Row>, id: nat, r: nat, k: nat)
    requires id in t.panes && Mirrors(g, t.panes[id]) && View.Tidy(t) && View.Composed(cells, t) && View.Drawn(t, id)
    requires c.pic == Render.Picture(cells, t.cols) && c.viewRows <= t.rows && c.viewCols <= t.cols
    requires Render.NearlyInStep(c) && Showing(c)
    requires r < g.height && k < g.width
    ensures CellShows(c, g, t, id, r, k)
  {
    var y, x := t.panes[id].rect.y + r, t.panes[id].rect.x + k;
    if y < c.viewRows && x < c.viewCols {
      WindowShowsServer(g, id, t, cells, r, k);
      TintShown(cells, c, y, x);
    }
  }

  lemma TintShown(cells: seq<Row>, c: Render.Client, y: nat, x: nat)
    requires Render.NearlyInStep(c) && Showing(c) && c.pic.rows == cells && y < c.viewRows && x < c.viewCols
    ensures y < |c.term.rows| && x < |c.term.rows[y]| && y < |cells| && x < |cells[y]|
    ensures Shown(c.term.rows[y][x]) == Shown(cells[y][x])
  {
  }

  /** A window filled by a pane without NULs has no blank cell, so that scrolls of the terminal
      leave no trace. */
  lemma FilledHasNoBlanks(c: Render.Client, t: View.Scene, cells: seq<Row>, id: nat)
    requires id in t.panes && View.Tidy(t) && View.Composed(cells, t) && View.Drawn(t, id)
    requires c.pic == Render.Picture(cells, t.cols) && c.viewRows <= t.rows && c.viewCols <= t.cols
    requires View.FillsWindow(t.panes[id], t.rows, t.cols) && NulFree(t.panes[id].rows)
    ensures Render.NoBlanks(c)
  {
    forall r: nat, k: nat | r < c.viewRows && k < c.viewCols ensures cells[r][k] != BLANK {
      assert View.OnPane(t.panes[id], r, k);
    }
  }

  /**
   * From the server's grid to the terminal. A client that reads the server's bytes, cut in any
   * way, and draws what they say, shows the server's pane: provided the window is laid out by
   * the server's rules with the pane in sight, the composite is exact, and the terminal was not
   * scrolled or no viewport cell is blank. The window stands as the last layout sent says, and
   * the pane has the cursor last sent.
   */
  method Watch(id: u32, ghost g: PaneGrid, ghost steps: seq<ServerStep>, ghost start: bool, receiver: ReceiveBuffer,
      view: View.WindowView, chunks: seq<Bytes>, ghost c: Render.Client, termRows: nat, termCols: nat)
      returns (ghost d: Render.Client)
    requires receiver.buf == [] && view.Valid()
    requires Sound(g) && CanRun(id, g, steps) && (id in view.panes ==> IsGrid(view.panes[id]))
    requires start ==> id in view.panes && InSync(g, view.panes[id])
    requires CaughtUp(steps, start)
    requires forall i :: 0 <= i < |Sent(id, g, steps)| ==> Sendable(Sent(id, g, steps)[i])
    requires Concat(chunks) == EncodeAll(Sent(id, g, steps))
    requires Draws(c, view.cells, view.winCols, view.dirty, termRows, termCols)
    requires termRows < 0x1_0000 && termCols < 0x1_0000
    modifies receiver, view
    ensures view.Valid() && id in view.panes && Mirrors(GridAfter(id, g, steps), view.panes[id])
    ensures AsSent(view.View(), id, Sent(id, g, steps), steps[|steps| - 1].cursor)
    ensures View.ExactAfter(old(view.View()), AllEvents(Sent(id, g, steps)), old(view.Exact())) ==> view.Exact()
    ensures (Render.InStep(c) && Calm(old(view.View()), Sent(id, g, steps))) || Render.NoBlanks(d) ==>
      view.Exact() && View.Tidy(view.View()) && View.Drawn(view.View(), id) ==>
        ScreenShows(d, GridAfter(id, g, steps), view.View(), id)
    ensures Pointing(d, CursorOf(view), InView(view, termRows, termCols))
  {
    ghost var s, sent := view.View(), Sent(id, g, steps);
    CaughtUpSends(id, g, steps, start);
    CaughtUpMirrors(id, g, s, steps, start);
    CaughtUpAsSent(id, g, s, steps, start);
    var msgs, ok := receiver.Receive(chunks, sent);
    d := Follow(view, msgs, c, termRows, termCols);
    SeenIfShowing(d, GridAfter(id, g, steps), view.View(), view.cells, view.dirty, id, termRows, termCols);
  }
}
