# lrmux: verified model of the layout, screen and wire code

lrmux is a terminal multiplexer.  A server keeps windows made of panes; a client draws them on a
terminal and sends input back.  This project models the code that carries that work and proves
what it promises:

- **Pane layout.**  A binary split tree is reflowed into rectangles one divider cell apart, edited
  by split, remove, border resize and presets, and navigated geometrically.  The rectangles tile
  the window; edits change exactly what they name; a window stays consistent over every run of
  commands.
- **Screen pipeline.**  The terminal grid with its history ring, the client's composite of panes
  and borders, the diff renderer and the ANSI capture.  Each fast form is proved against a simple
  one: the ring against the list of all rows pushed, the incremental composite against a full
  recompose, the renderer's output by running it on the terminal.
- **Server to terminal.**  A pane's dirty rows and snapshots, sent as messages, framed, cut
  anyhow, read back, composed into the window and drawn: a client that has read everything shows
  on its terminal what the server has in its grid.
- **Byte streams.**  The framed wire protocol, the mouse-report decoder and the terminal-reply
  filter are scanners that take pieces off a stream and hold what is unfinished.  One module of
  stream lemmas serves all three: no byte is lost, and the cuts between reads do not matter, or
  exactly when they do.
- **Dates.**  The closed form of the civil calendar is the day-by-day calendar.

Where the source changes state step by step, the model is a class or a loop proved against a
specification function, and the theorems are about that function.  Where the source is pure, the
model is a datatype with functions and lemmas.

`dafny verify dfyconfig.toml` checks the whole project.

| file | what it holds |
|---|---|
| `Ints`, `Wrappers`, `Slices`, `Decimal` | integers, options, slice operations, decimal digits |
| `Cells`, `Sgr`, `Screens`, `Terminal`, `Scrollback`, `Grid` | cells, SGR, terminal semantics on values, runs of terminal commands, the history ring, the grid |
| `Render`, `Capture`, `Composite` | the diff renderer, the ANSI capture, the window composite |
| `LayoutTree`, `LayoutFormat`, `LayoutEdit`, `LayoutPresets`, `LayoutFocus`, `Layout`, `Window` | the split tree and the window around it |
| `Streams`, `MouseReports`, `MouseDecoder`, `InputFilter` | stream scanners, mouse reports, the reply filter |
| `Wire`, `WireServer`, `WireClient`, `WireFrames` | the wire protocol |
| `Mirror`, `Display` | a pane's grid on the server and its copy in a client; the client's loop and the terminal |
| `Calendar` | civil dates |

## Facts about the code that shape the statements

- Chunking is invisible to the mouse decoder exactly while the tail held after each read is at
  most 64 bytes: a longer tail gives up its first byte (`MouseDecoder.ChunkingInvisible`).  An SGR
  report with more than 61 digits has such a tail (`MouseDecoder.OverlongReport`).
- A cut in the terminal input shows in the reply filter exactly when the last byte before it is
  ESC and nothing is held (`InputFilters.CutInvisible`).
- X10 mouse reports above the 7-bit range cannot be read back, because a high byte starts a longer
  character (`MouseReports.ReportRoundTrip`); UTF-8 reports turn a surrogate value into zero.
- The `NewSession` decoder does not move past the text of `name` and `cwd`, so the message
  survives when both are absent or empty and, for texts without NUL and below 16 MB, only then
  (`WireClient.NewSessionExact`).  The decoder's comments do not mention this.
- Without degenerate splits, a pane has a neighbour in a direction exactly when some pane has a
  cell in its own rows or columns between it and the edge of the window.  For a pane two cells
  across or more that means exactly when it does not touch the edge; a one-cell pane can face
  nothing but divider (`LayoutFocus.NeighborExact`, `LayoutFocus.OneCellPaneMayFaceDivider`).
- An extended colour with a colour-space id means something else with colons than with semicolons,
  unless its last component is a code that does nothing and all its numbers name the same level
  (`Sgr.SpaceIdAgreesExactly`).
- A scroll region that starts past the last row breaks the grid: the next scroll slices rows that
  do not exist (`Terminals.RegionExact`, `Terminals.RegionThenScroll`).  The parser passes such a
  region on unchecked (src/vt/mod.rs:211-222); on 24 rows, the one from row 100 to row 5 is an
  example (`Terminals.RegionPastTheEnd`).
- A line feed on a grid without rows underflows, and a split too small for its panes leaves such a
  grid (`Terminals.LineFeedExact`, `Terminals.LineFeedWithoutRows`).  These are the only two
  operations that can break a sound grid: `Grid.Run` carries out any list of operations up to the
  first of them that would.
- `Renderer::invalidate` fills `prev` with blanks, although the terminal is not always cleared
  with it: rows that scroll off the only pane scroll the terminal, invalidate and mark all rows
  dirty (src/client/mod.rs:1262-1268).  The next frame then shows the grid exactly when the cells
  blank in the grid and in `prev` look blank on the terminal (`Render.RenderNearlyExact`); it can
  fail (`Render.ScrollMayShow`), but not for a grid without blank cells, and nothing the server
  sends is a NUL (`Mirror.ReceivedNeverNul`, `Display.FilledHasNoBlanks`).
- A snapshot of a pane hidden behind a zoomed one is drawn over it; the composite is exact again
  after the snapshot of the active pane, which the server sends last
  (`Composite.ZoomedBatchExact`).
- The reply filter handles injected bytes ahead of held ones, so bytes are handled in order of
  arrival exactly until a feed finds both (`InputFilters.InputFilter.Feed`).  The client injects
  while bytes can be held (src/client/mod.rs:1493).
- Away from the active pane a straight divider inside the window is drawn with `┼` in every cell: a
  side counts for an arm whether a pane or more divider lies there (src/client/composite.rs:446-451;
  `Composite.CompositeShowsBorder`).
- A frame that draws cells under a cursor that has not moved does not put it back: the status bar
  does (src/client/mod.rs:2280-2293; `Render.FramePlacesCursor`).
- The history ring needs a positive capacity; the source always passes 10000.

## Model

| member | source | states |
|---|---|---|
| `LayoutTree.ReflowTiles` | src/layout/mod.rs:457-523 | every cell of the area lies in exactly one pane or divider, every other cell in none, for all trees, ratios and sizes |
| `LayoutTree.PanesDisjoint` | src/layout/mod.rs:457-523 | two panes that share a cell are the same pane, and the cell is inside the window |
| `LayoutTree.PanesWithin` | src/layout/mod.rs:457-523 | even empty panes stay inside the area, so no 16-bit coordinate overflows |
| `LayoutTree.AreaConserved` | src/layout/mod.rs:457-523 | pane area plus divider area is the window area |
| `LayoutTree.NonemptyIffRoomy` | src/layout/mod.rs:475-523 | all panes are at least 1x1 exactly when every split has at least two cells to share |
| `LayoutTree.ReflowIds` | src/layout/mod.rs:447-473 | reflow lists the panes in tree order |
| `LayoutTree.FirstLenIsShare` | src/layout/mod.rs:475-523 | the first child gets the ratio's share of the cells that are not divider, rounded to the nearest, and at least one cell but never all |
| `LayoutTree.FirstLenOfHalf` | src/layout/mod.rs:475-523 | at ratio one half, half of the cells, rounded down |
| `LayoutTree.SplitShares` | src/layout/mod.rs:475-523 | a horizontal split puts its children side by side, x and columns divided and rows shared, a vertical one above each other; one divider cell lies between them when there is room |
| `LayoutFormat.LookupDistinct` | src/layout/mod.rs:525-531 | with distinct ids each pane is looked up at its own rectangle |
| `LayoutFormat.FormatMatchesReflow` | src/layout/mod.rs:533-600 | the container boxes rebuilt bottom-up from the leaves are the areas reflow handed down, so both give the same layout string |
| `LayoutFormat.LayoutStringCorrect` | src/layout/mod.rs:118-121 | with distinct ids the body of the layout string shows the areas reflow computed |
| `LayoutFormat.AreaReadsBack` | src/layout/mod.rs:533-600 | columns, rows, x, y, pane number and bracket kind of every box in the string read back, whatever follows it |
| `LayoutFormat.LayoutStringReadsBack` | src/layout/mod.rs:118-121 | with distinct ids the string reads back as exactly the panes of the reflow, each in its rectangle |
| `LayoutFormat.ToTmuxStr` | src/layout/mod.rs:118-123 | the layout string is four hex digits that read back as the checksum of the body, a comma, and that body; with distinct ids the body reads back as the boxes of all panes and containers |
| `LayoutFormat.LayoutChecksum` | src/layout/mod.rs:602-610 | the loop computes the wrapping rotate-and-add checksum |
| `LayoutFormat.StepRotates` | src/layout/mod.rs:602-610 | one step turns the sum right by one bit, the lowest carried to the top, and adds the byte modulo 2^16 |
| `LayoutFormat.ChecksumSeesOneByte` | src/layout/mod.rs:602-610 | changing any one byte of a body, however long, changes the checksum |
| `LayoutEdit.ContainsId` | src/layout/mod.rs:438-455 | a pane is contained exactly when its id is a leaf |
| `LayoutEdit.SplitNodeIds` | src/layout/mod.rs:402-420 | a split succeeds exactly when the target is a leaf, and puts the new id right after it; otherwise nothing changes; which boxes the two get is `SplitReflow` |
| `LayoutEdit.SplitReflow` | src/layout/mod.rs:402-420 | on the reflow of any area: every other pane keeps its rectangle; the target's old rectangle is shared along the direction (x and columns for horizontal, y and rows for vertical), the target first with the share the ratio gives |
| `LayoutEdit.SplitHalves` | src/layout/mod.rs:402-420 | at one half the target is left with half of its cells, rounded down, and the new pane with the rest but the divider |
| `LayoutEdit.RemoveNodeIds` | src/layout/mod.rs:421-436 | a removal deletes exactly that id from the leaf order, and fails exactly for a missing id or the last pane |
| `LayoutEdit.RemoveReflow` | src/layout/mod.rs:421-436 | on the reflow: the sibling of the removed pane is laid out in the box of their split, and every other pane keeps its rectangle |
| `LayoutEdit.SplitThenRemove` | src/layout/mod.rs:402-436 | splitting off a fresh pane and removing it restores the identical tree, ratios included |
| `LayoutEdit.RatioRoundTrip` | src/layout/mod.rs:377-399 | a ratio re-derived from a cell count reflows to exactly that count |
| `LayoutEdit.ChangeSizeExact` | src/layout/mod.rs:343-400 | a border moves exactly when some ancestor split of that axis can move, then the nearest such; its first child then has exactly the clamped new size, and false means nothing changed |
| `LayoutEdit.OthersStayPut` | src/layout/mod.rs:343-400 | a border move changes one split only: panes outside it keep their rectangles |
| `LayoutPresets.PresetsKeepIds` | src/layout/mod.rs:127-151 | every preset keeps the panes in the same order |
| `LayoutPresets.EvenKeepsIds` | src/layout/mod.rs:259-283 | an even layout lists the ids it was given |
| `LayoutPresets.TiledKeepsIds` | src/layout/mod.rs:285-316 | a tiled layout lists the ids it was given |
| `LayoutPresets.MainKeepsIds` | src/layout/mod.rs:318-334 | a main layout lists the ids it was given |
| `LayoutPresets.CeilSqrtFrom` | src/layout/mod.rs:285-301 | the tiled layout uses the least number of columns whose square holds all panes |
| `LayoutPresets.RoundedShare` | src/layout/mod.rs:268-283 | the rounded ratio of an even split falls on a pane boundary |
| `LayoutPresets.EvenDividesExactly` | src/layout/mod.rs:259-283 | n panes on n*(w+1)-1 cells get exactly w cells each, pane i at offset i*(w+1) |
| `LayoutPresets.EvenPresets` | src/layout/mod.rs:139-148 | even-horizontal puts the panes side by side from left to right, even-vertical above each other from top to bottom, of equal size when they just fill the window |
| `LayoutPresets.MainVerticalPreset` | src/layout/mod.rs:139-149 | main-vertical: the first pane fills the left half and the others are stacked on the right, equally when they just fill it |
| `LayoutPresets.MainHorizontalPreset` | src/layout/mod.rs:139-149 | main-horizontal: the first pane fills the top half and the others stand side by side below |
| `LayoutPresets.TiledPreset` | src/layout/mod.rs:285-316 | tiled: rows of as many panes as the rounded-up square root of their number, top to bottom; each row side by side, pane i in row i / cols, of equal size when rows and panes just fit |
| `LayoutPresets.EvenAnySize` | src/layout/mod.rs:139-148 | in a window of any size: even-horizontal puts the panes in order from left to right over the full height, even-vertical from top to bottom over the full width |
| `LayoutPresets.MainAnySize` | src/layout/mod.rs:318-334 | in a window of any size with three cells each way: the first pane fills the left or top half, the others stand in order down or across the rest |
| `LayoutPresets.TiledAnySize` | src/layout/mod.rs:285-316 | in a window of any size: rows stacked over the full width, row r with panes r*cols and on, in order across its box |
| `LayoutPresets.StackDivides` | src/layout/mod.rs:303-316 | a balanced stack of n nodes on n*(h+1)-1 cells gives each node exactly h cells |
| `LayoutPresets.CycleOrder` | src/layout/mod.rs:125-135 | cycling goes even-horizontal, even-vertical, tiled and round again |
| `LayoutFocus.Nearest` | src/layout/mod.rs:186-249 | the search loop returns a best candidate in the direction, and none exactly when there is no candidate |
| `LayoutFocus.Neighbor` | src/layout/mod.rs:186-249 | the value returned, in coordinates: none for an unknown pane; to the right it is a pane that starts at least one cell past the source and shares a row with it, likewise the other directions; of these the one with the smallest gap, then the nearest middle, then the first; none exactly when there is no such pane.  Without degenerate splits, none exactly when only divider lies between the pane and the edge |
| `LayoutFocus.NeighborPoints` | src/layout/mod.rs:186-257 | on 16-bit rectangles a best candidate is the nearest pane to that side, stated by x, y, columns and rows for each direction; none exactly when no pane lies there |
| `LayoutFocus.NeighborExact` | src/layout/mod.rs:186-257 | for a pane of any size: none exactly when no pane has a cell beyond it in its own rows or columns, else the nearest such pane; for two cells across or more, none exactly at the window edge, else a pane one divider away |
| `LayoutFocus.CandidatesInSight` | src/layout/mod.rs:206-249 | the candidates of the search are exactly the panes with a cell beyond the source in its rows or columns |
| `LayoutFocus.PanesApart` | src/layout/mod.rs:457-523 | two panes that share a row or column are at least one cell apart along it: the cell just past a pane belongs to none |
| `LayoutFocus.FocusExact` | src/layout/mod.rs:186-257 | without degenerate splits, a pane at least two cells long across the direction has a neighbour exactly when it does not touch that window edge, and every best candidate starts or ends one divider away and overlaps it |
| `LayoutFocus.FacesPane` | src/layout/mod.rs:186-257 | such a pane has another pane right across the divider it ends at |
| `LayoutFocus.OneCellPaneMayFaceDivider` | src/layout/mod.rs:186-257 | a one-cell pane away from the edge that faces only divider and has no neighbour |
| `Layouts.Layout.Split` | src/layout/mod.rs:75-80 | splits the named leaf: by the clamped ratio the target keeps the left or top share of its rectangle and the new pane gets the rest, every other pane stays; removing a fresh pane again undoes it |
| `Layouts.Layout.Remove` | src/layout/mod.rs:82-88 | removes exactly that pane and gives its box to its sibling, or fails and changes nothing |
| `Layouts.Layout.ResizeBorder` | src/layout/mod.rs:157-182 | for Right and Down the pane's side of the nearest border that can move grows by the amount, for Left and Up it shrinks, within the clamp; every pane outside that split stays; false exactly when none can move, and then nothing changes |
| `Layouts.MovedMeans` | src/layout/mod.rs:157-182 | a moved tree, in coordinates: the nearest split that can move gives the pane's side exactly the wanted columns or rows |
| `Layouts.CanMoveMeans` | src/layout/mod.rs:169-174 | a border can move exactly when some split around the pane, left and right for Left and Right, has three cells and its side is not yet as wanted |
| `Windows.RunWindow` | src/server/window.rs:42-81 | from one pane, every run of commands keeps the window valid: distinct ids equal to the leaves, a valid active index, zoom only with two or more panes, and, once the window has a size, pane sizes as reflow or zoom gives them |
| `Windows.Window.Do` | src/server/window.rs:158-378 | what each of the twelve commands does to panes, focus, zoom, layout, preset and size, and what it leaves alone; splits, focus moves and border moves in coordinates; the window stays valid |
| `Windows.Window.Split` | src/server/window.rs:322-353 | cancels zoom, halves the target: it keeps the left or top half of its rectangle and the new pane gets the other, every other pane stays; appends and focuses the new pane; an unknown target changes neither panes nor tree |
| `Windows.Window.Remove` | src/server/window.rs:358-378 | removes the pane from list and tree and gives its box to its sibling; focus stays on its pane unless that one is removed; the last pane and unknown ids change nothing |
| `Windows.Window.FocusStep` | src/server/window.rs:159-182 | moves focus round the leaf order, forward or back |
| `Windows.Window.FocusNeighbor` | src/server/window.rs:185-191 | moves focus to the nearest pane to that side, in coordinates, and stays exactly when there is none; without degenerate splits that is the nearest pane in sight |
| `Windows.Window.FocusPaneId` | src/server/window.rs:194-204 | focuses a pane of the window, and does nothing for another id |
| `Windows.Window.Toggle` | src/server/window.rs:207-219 | toggles zoom exactly when there are two panes or more |
| `Windows.Window.ZoomAndBack` | src/server/window.rs:207-227 | zooming and unzooming the same pane restores every pane size |
| `Windows.Window.ForceUnzoom` | src/server/window.rs:222-227 | unzooms, resizing panes only if the window was zoomed |
| `Windows.Window.CycleLayout` | src/server/window.rs:230-241 | rebuilds the tree as the next preset over the same pane order, unzoomed |
| `Windows.Window.SelectPreset` | src/server/window.rs:244-261 | with two panes or more, cancels the zoom and rebuilds the tree as the named preset over the same pane order; an unknown name only cancels the zoom and returns false |
| `Windows.Window.ResizePaneBorder` | src/server/window.rs:264-280 | moves a border of an unzoomed window in the direction and by the amount asked, within the clamp, and resizes the panes to match; else nothing changes |
| `Windows.Window.ReflowPanes` | src/server/window.rs:294-311 | gives every pane its reflowed size, or while zoomed the active one the whole window |
| `Windows.Window.ApplyZoomSize` | src/server/window.rs:283-291 | gives the active pane the whole window and leaves the others alone |
| `Windows.Window.Resize` | src/server/window.rs:314-319 | takes at least one row and column and reflows |
| `Scrollbacks.Scrollback.Push` | src/grid/scrollback.rs:24-37 | the ring holds the last rows ever pushed, in order, up to its capacity |
| `Scrollbacks.Scrollback.Get` | src/grid/scrollback.rs:50-61 | row i, oldest first, of the rows still held; none beyond them |
| `Scrollbacks.Scrollback.Iter` | src/grid/scrollback.rs:64-66 | iterating oldest first gives the last min(n, capacity) rows of the history |
| `Sgr.EmitReadsBack` | src/client/render.rs:195-244 | the emitted parameters set exactly the wanted colours and attributes from any earlier style |
| `Sgr.ColonAgreesWithSemicolon` | src/grid/mod.rs:585-664 | the colon and the semicolon form of an extended colour have the same effect, whatever follows |
| `Sgr.ColonReads` | src/grid/mod.rs:585-664 | a colon group with enough arguments sets its colour and takes nothing else; with a colour-space id the id is skipped |
| `Sgr.SpaceIdAgreesExactly` | src/grid/mod.rs:585-664 | with a colour-space id the two forms agree, for every style and whatever follows, exactly when the last component is a code that does nothing and all numbers name the same level, or the colour itself is ignored |
| `Sgr.ReadsExtended` | src/grid/mod.rs:64-75 | an extended colour sets that colour and nothing else |
| `Sgr.OneCodeExact` | src/grid/mod.rs:590-664 | each part of the pen is set by its own codes, put back by its own off code and by 0, and left alone by every other code, whatever follows; an empty list counts as 0 |
| `Sgr.ExtendedExact` | src/grid/mod.rs:64-75 | in both spellings 38 sets the foreground, 48 the background and 58 nothing, to the palette entry or levels named, modulo 256 |
| `Sgr.SpaceIdSkipped` | src/grid/mod.rs:64-75 | a colour-space id inside one colon group is skipped |
| `Screens.TextFlow` | src/grid/mod.rs:237-282 | printing any text on a fresh grid puts character k at line k/cols, column k%cols of history and screen, everything else blank |
| `Screens.FlowsStep` | src/grid/mod.rs:237-282 | one more printed character, with its wrap and scroll, continues the flow |
| `Screens.InsertThenDeleteChars` | src/grid/mod.rs:441-486 | inserting and deleting as many characters blanks the end of the row and changes nothing else |
| `Screens.InsertThenDeleteLines` | src/grid/mod.rs:387-438 | inserting and deleting as many lines blanks the end of the region and changes nothing else |
| `Grids.Grid.Print` | src/grid/mod.rs:237-282 | prints as the terminal semantics say, tracking dirty rows |
| `Grids.Grid.MoveCursor` | src/grid/mod.rs:285-290 | moves the cursor, clamped to the grid |
| `Grids.Grid.LineFeed` | src/grid/mod.rs:305-313 | advances a row, scrolling at the bottom of the region; refused exactly where the source underflows, on a grid without rows |
| `Grids.Grid.ScrollUp` | src/grid/mod.rs:331-360 | scrolls the region up; the rows scrolled off its top go to the history in order |
| `Grids.Grid.ScrollDown` | src/grid/mod.rs:362-385 | scrolls the region down, opening blank rows at its top; which row stands where is `Terminals.RowsMoveExactly` |
| `Grids.Grid.InsertLines` | src/grid/mod.rs:387-412 | opens blank lines at the cursor inside the region |
| `Grids.Grid.DeleteLines` | src/grid/mod.rs:414-439 | closes lines at the cursor inside the region |
| `Grids.Grid.InsertChars` | src/grid/mod.rs:441-462 | opens blank cells at the cursor |
| `Grids.Grid.DeleteChars` | src/grid/mod.rs:464-486 | closes cells at the cursor |
| `Grids.Grid.EraseChars` | src/grid/mod.rs:488-501 | blanks cells at the cursor without shifting |
| `Grids.Grid.EraseToEndOfLine` | src/grid/mod.rs:503-511 | blanks from the cursor to the end of its row |
| `Grids.Grid.EraseToCursor` | src/grid/mod.rs:513-524 | blanks from the start of the row through the cursor |
| `Grids.Grid.EraseLine` | src/grid/mod.rs:526-533 | blanks the cursor row |
| `Grids.Grid.EraseToEndOfScreen` | src/grid/mod.rs:535-544 | blanks from the cursor to the end of the screen |
| `Grids.Grid.EraseToStartOfScreen` | src/grid/mod.rs:546-555 | blanks from the start of the screen to the cursor |
| `Grids.Grid.EraseScreen` | src/grid/mod.rs:557-565 | blanks the screen |
| `Grids.Grid.SetScrollRegion` | src/grid/mod.rs:567-571 | clamps the region as the source does; the grid stays valid exactly when the region starts on a row |
| `Grids.Grid.SetSgr` | src/grid/mod.rs:585-664 | the parameter loop computes the interpreted style |
| `Grids.Grid.Resize` | src/grid/mod.rs:183-219 | fits rows and columns, pushes rows cut off the bottom to the history, clamps the cursor, marks all dirty |
| `Grids.Grid.TakeDirty` | src/grid/mod.rs:164-175 | returns the dirty rows in ascending order and clears the flags |
| `Grids.Grid.TakePendingScrollback` | src/grid/mod.rs:178-180 | hands out the history rows pushed since the last call |
| `Grids.Grid.Run` | src/grid/mod.rs:178-219 | over any run of operations, up to the first one that would break the grid (a region past the last row, a line feed without rows), the terminal state is the fold of the semantics, the batches handed out plus the rest are the rows pushed, in order, once each, the ring is the last rows of the history, and unflagged rows are unchanged |
| `Grids.Grid.Apply` | src/grid/mod.rs:183-676 | each command that does not break the grid takes it to the state the terminal semantics give |
| `Terminals.AfterKeepsHistory` | src/grid/mod.rs:331-360 | no operation rewrites or drops rows already pushed |
| `Terminals.RegionExact` | src/grid/mod.rs:567-571 | setting a region keeps a sound grid sound exactly when the region starts on a row |
| `Terminals.RegionThenScroll` | src/grid/mod.rs:331-385 | after setting a region, the slice the next scroll rotates exists exactly when the region starts on a row |
| `Terminals.LineFeedExact` | src/grid/mod.rs:305-313 | on a sound grid, line feed does not underflow exactly when the grid has a row |
| `Terminals.RegionPastTheEnd` | src/vt/mod.rs:211-222 | on 24 rows, the region from row 100 to row 5 ends past the rows |
| `Terminals.LineFeedWithoutRows` | src/server/pane.rs:760-766 | a grid resized to no rows is sound but cannot take a line feed |
| `Terminals.CursorOpsKeepContent` | src/grid/mod.rs:285-329 | moves, returns, tabs, pen, region and mode changes leave content and history alone and the cursor on the screen; only region operations touch the region |
| `Terminals.EraseExact` | src/grid/mod.rs:488-565 | each erase blanks exactly the cells its name says, in terms of the cursor, and changes nothing else |
| `Terminals.RowsMoveExactly` | src/grid/mod.rs:331-439 | after a scroll or a line insertion or deletion by n: within the region, or its part from the cursor down, the row at i is the one that stood n below (scroll up, deletion) or n above (scroll down, insertion), blank where that is outside; everything else is unchanged, and only a scroll up keeps what it pushes off, top row first |
| `Terminals.CellsMoveExactly` | src/grid/mod.rs:441-486 | after a character insertion or deletion by n: the cell at column c of the cursor's row is the one n to the left or right, blank where that is outside the part from the cursor on; everything else but a pending wrap is unchanged |
| `Terminals.PrintsExactly` | src/grid/mod.rs:237-282 | a print writes the character in the pen at the cursor, after the line feed and return a pending wrap asks for, and moves one column on, or in the last column waits for a wrap exactly with autowrap; nothing else changes |
| `Terminals.LineFeedMoves` | src/grid/mod.rs:305-313 | a line feed goes down a row; in the last row of the region and below it, it scrolls up by one and goes to that last row |
| `Terminals.CursorMoves` | src/grid/mod.rs:285-329 | where each cursor operation goes: the nearest place on the screen to the one asked for, the next tab stop or the last column; the region set is the one asked for, cut at the last row |
| `Terminals.ResizesExactly` | src/grid/mod.rs:183-219 | a resize keeps the cells that fit, opens blanks, pushes the rows cut off to the history last row first, keeps the cursor as near as it can and resets the region |
| `Terminals.SavedCursorComesBack` | src/grid/mod.rs:667-676 | restoring after any run without another save goes to the saved position, clamped to the screen there is then |
| `Terminals.RunsKeepSize` | src/grid/mod.rs:237-676 | no run without a resize changes the size of the grid |
| `Render.RenderExact` | src/client/render.rs:78-183 | if the screen agrees with `prev` and clean rows are drawn, running one frame on the terminal leaves the viewport equal to the grid and re-establishes the hypothesis |
| `Render.RowOutExact` | src/client/render.rs:99-149 | the moves, styles and prints of one row turn it into the grid row, cell for cell, and print on exactly its changed cells, left to right |
| `Render.FramePrintsChanges` | src/client/render.rs:78-183 | run on the terminal, a frame prints on exactly the viewport cells of dirty rows that differ from what is drawn, each once, in reading order |
| `Render.RenderNearlyExact` | src/client/render.rs:78-183 | on a screen that may differ from `prev` where `prev` is blank, a frame shows the grid exactly when the cells blank in both look blank, and then screen and `prev` agree again |
| `Render.CellsExact` | src/client/render.rs:78-149 | on any screen, a frame changes exactly the cells of dirty rows that differ from `prev`, to the grid content |
| `Render.NextInStep` | src/client/render.rs:37-191 | every update, reset, resize and frame keeps screen and renderer in step |
| `Render.NextNearlyInStep` | src/client/mod.rs:1254-1270 | so does a scroll of the terminal, but for cells the renderer sees as blank; a frame puts all in step again exactly when it shows the grid |
| `Render.ScrollMayShow` | src/client/mod.rs:1262-1268 | a blank grid after a scroll that moves an x up stays unpainted there |
| `Render.RunsStayInStep` | src/client/render.rs:37-191 | so does every run of them |
| `Render.FrameShowsGrid` | src/client/mod.rs:426-431 | whatever happened since the last reset, scrolls of the terminal included, a frame leaves the grid on the screen exactly when the cells blank in the grid and to the renderer look blank; always without such scrolls, or if no viewport cell is blank |
| `Render.RenderRow` | src/client/render.rs:99-149 | the column loops emit the specified batches |
| `Render.FinishFrame` | src/client/render.rs:90-183 | the frame is hidden while it draws, places and shows a visible cursor in the viewport, and ends plain, as the specified frame does; see `FrameShowsCursor` |
| `Render.FrameShowsCursor` | src/client/render.rs:140-171 | for any cells drawn and any cursors before and after: if the cursor was shown exactly as recorded, then after the frame it is shown exactly when it is visible and in the viewport |
| `Render.FrameMovesUnseen` | src/client/render.rs:140-165 | the cursor is hidden whenever a frame prints or moves it |
| `Render.FrameLeavesPlain` | src/client/render.rs:173-180 | every frame that sends anything leaves the plain style |
| `Render.FramePlacesCursor` | src/client/render.rs:148-165 | a visible cursor that has moved, or was hidden, is put in its place |
| `Render.ForgottenCursorPlaced` | src/client/render.rs:50-71 | after a reset, a resize or a scroll of the terminal the next frame puts a visible cursor in its place, wherever it was |
| `Render.RunsKnowCursor` | src/client/render.rs:37-191 | over every run of updates, resets, resizes, scrolls and frames, the terminal shows its cursor exactly when the renderer has recorded so |
| `Render.Renderer.Render` | src/client/render.rs:78-183 | emits the specified frame, brings `prev` up to date and takes the dirty flags; if the renderer knew whether the cursor was shown, it is shown afterwards exactly when visible and in the viewport |
| `Render.Renderer.RenderOnto` | src/client/render.rs:78-183 | a frame sent to a terminal nearly in step with `prev` shows the grid exactly when the cells blank in both look blank, is then in step, prints on changed cells only, and leaves the plain style |
| `Render.Renderer.Resize` | src/client/render.rs:50-63 | cuts or pads `prev`, shrinks the viewport, forgets the cursor |
| `Render.Renderer.SetViewport` | src/client/render.rs:65-71 | clamps the viewport and invalidates |
| `Render.Renderer.Invalidate` | src/client/render.rs:186-191 | blanks `prev` and forgets the cursor |
| `Capture.CaptureReplays` | src/server/capture.rs:113-190 | replaying a capture line by line on a blank wide and tall enough grid shows every captured cell |
| `Capture.LineExact` | src/server/capture.rs:170-190 | one captured line writes exactly its cells into its row |
| `Capture.CollectedCell` | src/server/capture.rs:113-155 | trimming loses nothing that shows: what is cut is blank |
| `Capture.CollectedTight` | src/server/capture.rs:113-155 | no captured row ends in a cell that looks blank, no cell is a NUL, and the last row has a cell |
| `Capture.LineLeavesPlain` | src/server/capture.rs:170-190 | a captured line leaves the plain style, an empty one is nothing |
| `Capture.TrimRow` | src/server/capture.rs:134-155 | drops exactly the trailing blank cells, and shows NUL as a space |
| `Capture.CollectRows` | src/server/capture.rs:113-132 | history rows, then the visible rows, without trailing empty rows |
| `Capture.RenderAnsi` | src/server/capture.rs:170-190 | the style-tracking loop emits the specified line for each row |
| `Composite.CompositeUnique` | src/client/composite.rs:245-298 | a scene has one composite, so the order in which the map yields its panes cannot matter |
| `Composite.CompositeShowsPane` | src/client/composite.rs:273-298 | a cell of a pane in sight has the pane cell's character, foreground and attributes; its background is the pane's own unless the window shows several panes, another is active and that background is the default: then colour 236 |
| `Composite.CompositeShowsBorder` | src/client/composite.rs:305-486 | a cell outside all panes is bold cyan beside the active pane and grey elsewhere; beside it, unless panes meet there on both axes, an arrow into it; else a line with an arm towards every side on which the window goes on |
| `Composite.CompositeShowsNothing` | src/client/composite.rs:245-312 | outside a zoomed or single pane the window is blank |
| `Composite.UpdateKeepsComposite` | src/client/composite.rs:184-233 | redrawing just the touched rows of a visible pane leaves the composite exactly right |
| `Composite.Recompose` | src/client/composite.rs:245-298 | a full recompose builds the composite of the scene: panes, dimmed backgrounds and borders |
| `Composite.Blit` | src/client/composite.rs:273-298 | draws exactly the cells the pane covers |
| `Composite.PaintBorders` | src/client/composite.rs:305-353 | draws the border in exactly the cells no rectangle covers, unzoomed with two panes or more; what it shows is `CompositeShowsBorder` |
| `Composite.WindowView.ApplyPaneUpdate` | src/client/composite.rs:184-233 | patches a known pane, keeps the composite exact, the changed rows flagged and the cursor on the active pane; an unknown pane changes nothing |
| `Composite.WindowView.ApplyPaneSnapshot` | src/client/composite.rs:128-182 | replaces one pane by the snapshot, drawing it and the borders; the composite stays exact for a visible pane of unchanged size, and becomes exact for a zoomed pane that fills the window |
| `Composite.FillCells` | src/client/composite.rs:365-376 | the loop fills the grid row by row, as far as the cells go |
| `Composite.LayoutBatchExact` | src/server/event_loop.rs:2865-2917 | a layout and snapshots of its panes leave the composite exact |
| `Composite.ZoomedBatchExact` | src/server/event_loop.rs:2881-2917 | while zoomed, the snapshot of the active pane, sent last, makes the composite exact whatever came before |
| `Composite.WindowView.ApplyLayout` | src/client/composite.rs:86-124 | takes over the rectangles, refits known panes, keeps hidden ones while zoomed, and recomposes |
| `Composite.WindowView.RebuildComposite` | src/client/composite.rs:245-271 | a full recompose of a view kept up to date changes no cell and no cursor |
| `Composite.WindowView.Run` | src/client/composite.rs:86-233 | every run of layouts, updates and snapshots ends with the composite and cursor a recompose would build, unless a snapshot of a pane out of sight or out of size came since the last redraw; server layouts keep the view tidy |
| `Composite.WindowView.Single` | src/client/composite.rs:44-68 | a fresh view shows its one blank pane, and is tidy unless it has no size |
| `Composite.RunsConfluent` | src/client/composite.rs:86-298 | runs in which every pane gets the same updates and snapshots between the same layouts, interleaved in any way, end in the same scene and the same composite |
| `Composite.ThreadSuffices` | src/client/composite.rs:86-233 | a pane depends on the layouts and its own updates and snapshots alone |
| `Composite.AfterAllTidy` | src/client/composite.rs:86-233 | layouts that come from reflow keep the panes disjoint and filled, whatever updates follow |
| `Composite.RelaidIsLaidOut` | src/client/composite.rs:86-124 | each id of a layout message ends up refitted into its own rectangle; others stay only while zoomed |
| `Composite.NextFollows` | src/client/composite.rs:86-233 | the scene after a message in terms of the message: size, active pane and zoom, every pane's rectangle, cells and cursor, and what stays; an update's last word on a cell counts, a refitted pane keeps the cells that fit |
| `Composite.PatchExact` | src/client/composite.rs:378-387 | after an update each cell is what the last update that reaches it says, and unchanged if none does |
| `Composite.ReflowIsTidy` | src/layout/mod.rs:457-473 | panes placed by reflow are disjoint and nonempty when every split has room |
| `Streams.ScanAppend` | src/client/mouse.rs:91-149 | the scan of more data carries on from the held tail, when no piece taken depends on what follows |
| `Streams.ScanConserves` | src/client/mouse.rs:91-149 | pieces and tail concatenate back to the data |
| `Streams.ChunksDoNotMatter` | src/client/mouse.rs:91-149 | feeding chunk by chunk equals one scan of the whole |
| `MouseReports.ReadCpIsCanonical` | src/client/mouse.rs:205-224 | a value is read exactly from the UTF-8 encoding of a scalar value, nothing else |
| `MouseReports.ReadCpOfUtf8` | src/client/mouse.rs:205-224 | every encoded scalar value is read back wherever it stands |
| `MouseReports.ReportRoundTrip` | src/client/mouse.rs:187-294 | an encoded report is read back, whatever follows, exactly when its values are legible: always in SGR and UTF-8 format, up to 95 in X10 |
| `MouseReports.SgrRoundTrip` | src/client/mouse.rs:227-265 | SGR reports round-trip for all coordinates, up to the release implied by the low bits |
| `MouseReports.Utf8RoundTrip` | src/client/mouse.rs:187-279 | UTF-8 reports round-trip up to release normalisation and surrogates |
| `MouseReports.SeenExactly` | src/client/mouse.rs:187-294 | when the event read is the very event sent |
| `MouseReports.ReadReportStable` | src/client/mouse.rs:187-256 | a complete report reads the same whatever follows |
| `MouseReports.ParseSgr` | src/client/mouse.rs:227-256 | the scanning loop finds the report the specification reads |
| `MouseDecoder.ChunkingInvisible` | src/client/mouse.rs:91-149 | feeding in chunks equals one scan exactly when the tail held after each chunk is at most 64 bytes |
| `MouseDecoder.OverlongReport` | src/client/mouse.rs:91-149 | tails over 64 bytes exist: an SGR report with more than 61 digits is held whole by the scan and cut by the decoder |
| `MouseDecoder.FedAllConserves` | src/client/mouse.rs:91-149 | in all cases passed bytes, consumed reports and the held tail concatenate back to the input |
| `MouseDecoder.StreamDecodes` | src/client/mouse.rs:91-294 | keys and encoded reports in any mixture decode to the same keys and events |
| `MouseDecoder.ChunkedStreamDecodes` | src/client/mouse.rs:91-294 | so they do in any chunking, and nothing stays held |
| `MouseDecoder.Decoder.Feed` | src/client/mouse.rs:91-149 | returns staged bytes, keys and events of the scan, keeps its tail; inactive, everything passes; what was fed is always output, staged or held, in order |
| `MouseDecoder.Decoder.FeedChunks` | src/client/mouse.rs:91-149 | an active decoder fed chunk by chunk yields the keys and events of the chunked scan |
| `MouseDecoder.Decoder.FlushExpired` | src/client/mouse.rs:154-161 | an expired hold moves the held bytes behind the staged ones, losing none |
| `MouseDecoder.ScanLoop` | src/client/mouse.rs:104-141 | the scanning loop computes the scan |
| `InputFilters.RemovesExactly` | src/client/input_filter.rs:78-114 | a piece is removed exactly when it is ESC and one of ] P _ ^ X up to BEL, ESC \ or an aborting ESC, or ESC [, parameters and one of c n t x y R |
| `InputFilters.DropsExactly` | src/client/input_filter.rs:66-116 | every piece of the input stands where the filter took it, and is removed exactly when it is such a sequence there |
| `InputFilters.EscStartsPiece` | src/client/input_filter.rs:66-116 | no sequence hides inside a piece: every ESC of the input starts a piece, is in the terminator of a dropped string, or is held |
| `InputFilters.HoldsNoSequence` | src/client/input_filter.rs:66-116 | nothing is held that begins with a complete sequence |
| `InputFilters.HeldMayComplete` | src/client/input_filter.rs:66-116 | what is held is the start of such a sequence: some continuation completes it |
| `InputFilters.CutInvisible` | src/client/input_filter.rs:66-116 | cutting the input is invisible, whatever follows, exactly unless the last byte is ESC and nothing is held |
| `InputFilters.ChunksFilterAlike` | src/client/input_filter.rs:66-116 | with all cuts elsewhere, the same bytes pass and the same are held |
| `InputFilters.SettledUnlessEsc` | src/client/input_filter.rs:66-116 | only a lone ESC is passed on although later bytes could change its meaning |
| `InputFilters.FindStringEnd` | src/client/input_filter.rs:148-168 | the loop finds the end of a string sequence |
| `InputFilters.FindCsiEnd` | src/client/input_filter.rs:172-183 | the loop finds the end of a CSI sequence and whether it is a reply |
| `InputFilters.FilterLoop` | src/client/input_filter.rs:77-115 | the loop passes what the filter passes and stops at the held tail |
| `InputFilters.InputFilter.Feed` | src/client/input_filter.rs:66-116 | outputs staged bytes and passed pieces in order; every byte is handled once; all are handled in order of arrival exactly as long as no feed finds bytes both injected and held |
| `InputFilters.Overtakes` | src/client/input_filter.rs:66-76 | bytes injected in front of held ones keep their place in the account, and spoil the order of arrival exactly when there are both |
| `InputFilters.InputFilter.FeedChunks` | src/client/input_filter.rs:66-116 | chunk by chunk, the output is that of one feed unless a cut follows such an ESC |
| `InputFilters.InputFilter.FlushExpired` | src/client/input_filter.rs:120-127 | an expired hold moves the held bytes behind the staged ones, losing none |
| `Wire.PutU16` | src/proto/mod.rs:1828-1838 | a 16-bit integer is read back, with the bytes after it |
| `Wire.PutU32` | src/proto/mod.rs:1840-1850 | a 32-bit integer is read back, with the bytes after it |
| `Wire.PutU64` | src/proto/mod.rs:1852-1862 | a 64-bit integer is read back, with the bytes after it |
| `Wire.LittleEndian` | src/proto/mod.rs:1828-1862 | every integer is written lowest byte first, in front of the rest |
| `Wire.PutText` | src/proto/mod.rs:1782-1814 | length-prefixed text is read back by the strict, the panicking and the optional reader |
| `Wire.PutColor` | src/proto/mod.rs:995-1009 | a colour is read back |
| `Wire.PutAttr` | src/proto/mod.rs:1011-1027 | attribute bits are read back |
| `Wire.PutCell` | src/proto/mod.rs:988-993 | a cell is read back |
| `Wire.ListRoundTrip` | src/proto/mod.rs:1439-1443 | a list of values that are read back is read back |
| `Wire.ReadMany` | src/proto/mod.rs:1439-1443 | the decoders loop reads the list or fails as the first bad value does |
| `WireServer.ServerRoundTrip` | src/proto/mod.rs:738-977 | every server message decodes to itself, a status bar exactly when its flag lists have one flag per window |
| `WireServer.FlagsRoundTrip` | src/proto/mod.rs:1578-1597 | flag lists of the right length are read back |
| `WireClient.ClientRoundTrip` | src/proto/mod.rs:410-735 | every client message but NewSession decodes to itself exactly within the limits on environment and events |
| `WireClient.NewSessionExact` | src/proto/mod.rs:1093-1115 | NewSession survives when name and cwd are absent or empty, and for texts without NUL and below 16 MB only then |
| `WireClient.NulNameSurvives` | src/proto/mod.rs:1093-1115 | why texts with NUL are set apart: this name is misread as the very message sent |
| `WireClient.EnvRoundTrip` | src/proto/mod.rs:1056-1066 | up to 64 environment pairs are read back; more never are |
| `WireFrames.FrameRoundTrip` | src/proto/mod.rs:980-1045 | a frame is read back and reading stops at its end |
| `WireFrames.FrameSpells` | src/proto/mod.rs:980-986 | a frame is the payload's length in four bytes, lowest first, and the payload |
| `WireFrames.ClientStreamRoundTrip` | src/proto/mod.rs:410-1405 | the server reads a client message off a stream and stops exactly at the end of its frame |
| `WireFrames.ChunkedStream` | src/client/mod.rs:2720-2732 | any list of server messages, encoded, concatenated and cut anyhow, decodes to that list with an empty buffer |
| `WireFrames.StreamOfFrames` | src/client/mod.rs:2720-2732 | a stream of encoded messages is cut back into exactly their frames |
| `WireFrames.ReceiveBuffer.TryParse` | src/client/mod.rs:2720-2732 | takes a whole frame off the front and decodes it, or leaves the buffer alone |
| `WireFrames.ReceiveBuffer.Drain` | src/client/mod.rs:1199-1202 | takes every complete message, up to a frame that does not decode |
| `WireFrames.ReceiveBuffer.Receive` | src/client/mod.rs:1199-1202 | whatever the cuts, exactly the messages sent are received and nothing is left over |
| `Mirror.ClientMirrorsServer` | src/server/event_loop.rs:3925-3942 | over any interleaving of output, updates, layouts, snapshots, skipped updates and messages for other panes: when the dirty rows or a snapshot have just been sent to a client in touch, a client that reads the bytes, cut anyhow, holds a pane that looks like the grid, cell for cell |
| `Mirror.StaysInSync` | src/server/event_loop.rs:3925-3942 | after every such run the copy of a client in touch has the pane size and differs in flagged rows only; a client that skipped updates is in touch again from the next snapshot on |
| `Mirror.SnapshotMirrors` | src/client/composite.rs:128-182 | a snapshot makes any pane a client may have, known or not, of any size, look like the grid |
| `Mirror.SnapshotCellAt` | src/server/pane.rs:831-854 | cell r * width + c of a snapshot is the grid cell (r, c), a space for a NUL |
| `Mirror.ReceivedNeverNul` | src/server/pane.rs:769-854 | no cell of an update or a snapshot is a NUL |
| `Mirror.WindowShowsServer` | src/client/composite.rs:184-298 | where that pane is in sight, the composite shows the server cell's character, foreground and attributes, and its background but for dimming |
| `Mirror.LastLayoutStands` | src/client/composite.rs:86-233 | after any messages the window has the size, active pane and zoom of the last layout sent, and its panes stand where that layout puts them |
| `Mirror.CaughtUpCursor` | src/client/composite.rs:184-233 | the copy of a pane has the cursor last sent for it |
| `Mirror.LaidOutInSync` | src/client/composite.rs:86-124 | a pane whose rows are all flagged, newly laid out in a client, is in sync |
| `Mirror.FlushSyncs` | src/server/pane.rs:769-802 | the dirty rows taken, sent and applied bring the whole copy up to date |
| `Mirror.ResizeSyncs` | src/server/window.rs:294-311 | resizing a pane on both sides keeps them in sync |
| `Mirror.ServerPane.TakeDirtyRows` | src/server/pane.rs:769-802 | takes the flagged rows of the pane in ascending order, cut to its width, a space for each NUL, and clears the flags |
| `Mirror.ServerPane.Write` | src/server/pane.rs:769-802 | whatever the child writes, unflagged rows and the size are unchanged |
| `Mirror.ServerPane.Resize` | src/server/pane.rs:760-766 | a new size fits the grid and flags every row; the same size changes nothing |
| `Mirror.ServerPane.Snapshot` | src/server/pane.rs:831-854 | collects the rows of the pane, one after the other, cut to its width |
| `Display.Watch` | src/client/mod.rs:1199-1345 | from the server grid to the terminal: a client that reads the bytes and draws what they say shows in the viewport the server cells, each with its own character, foreground, attributes and, but for dimming, background, if the composite is exact and tidy, the pane is in sight, and no message scrolled the terminal or no viewport cell is blank; the window stands as the last layout says, the pane has the cursor last sent, and the terminal's cursor is shown exactly when the window's is and in view |
| `Display.Follow` | src/client/mod.rs:1199-1345 | a batch of messages and the frame at its end: the window view follows the messages, and the terminal shows it if no message scrolled it or no viewport cell is blank; its cursor is shown exactly when the window's is and in view |
| `Display.Handle` | src/client/mod.rs:1199-1345 | one message: layouts and snapshots are drawn at once on a cleared terminal, updates later, and rows scrolled off the only pane scroll the terminal |
| `Display.ScreenShowsServer` | src/client/mod.rs:1199-1345 | a shown window with a mirrored pane shows that pane |
| `Display.FilledHasNoBlanks` | src/client/mod.rs:1262-1268 | a window filled by a pane without NULs has no blank cell |
| `Calendar.StepsThroughCalendar` | src/log/mod.rs:308-320 | every day number is a valid Gregorian date, and the next day number is its calendar successor |
| `Calendar.Epoch` | src/log/mod.rs:308-320 | day 0 is 1970-01-01 |
| `Calendar.DaysToDateSteps` | src/log/mod.rs:308-320 | n days on is n steps on in the calendar, from any day, before or after 1970 |
| `Calendar.DatesIncrease` | src/log/mod.rs:308-320 | later days have later dates, so no two share one |
| `Calendar.YearFound` | src/log/mod.rs:313-317 | the closed form finds the year and the day of the year within an era |
| `Calendar.AbsoluteIsDate` | src/client/selector.rs:428-444 | the second copy gives the same date for every timestamp |
| `Calendar.AbsoluteIsTime` | src/client/selector.rs:428-444 | and the hour and minute of the day |

## Left out

- Sockets, TLS, discovery, PTYs, poll loops, clocks, logging sinks: input and output.  Hold timeouts are an explicit `FlushExpired` step.
- The terminal parser (`src/vt`): the grid takes already parsed commands, and renderer and capture emit parsed commands instead of escape strings.
- Floating-point rounding of split ratios: ratios are reals, and rounding is floor of x + 1/2; products stay below 2^16.
- Wide and combining characters: a cell holds one character.
- HTML and Markdown capture, colour mapping, status bar text, overlays, copy mode, command parsing: user interface.
- Mouse mode bits of grids and snapshots, carried along unchanged.
- Scrollback mirroring between server and client: the client grid's own resize also pushes history, so no equality is intended.
- Pane grids inside the window view are values (rows, size, cursor), not `Grid` objects, and the grid loops of the composite work on sequences: aliasing and the per-pane history are not captured.
- Panes inside the window are (id, rows, cols) values; fresh pane ids are a parameter.  A failing PTY is not modelled.
- The wire encoders put values in front of the bytes that follow instead of appending to a vector, and the decoders pass the rest of the data on instead of moving a shared cursor: updating the payload in place is not captured.
- Text is its UTF-8 bytes; replacing malformed bytes by U+FFFD on decoding is not modelled.
- An out-of-range slice in a decoder is the fault `Panic`.
- Overflow of 64-bit day arithmetic: day numbers are unbounded.
- The rendering of dates into strings.
- Render.FramePlacesCursor: states the position for a cursor that has moved or was hidden; after a frame that draws cells under an unmoved cursor the source relies on the status bar to put it back, and the status bar is not part of this model.
- WireServer.ServerRoundTrip, WireClient.ClientRoundTrip: type tags and the order of fields are those of the encoders; what is proved is that the decoders read them back.
- LayoutPresets.EvenPresets, LayoutPresets.MainVerticalPreset, LayoutPresets.MainHorizontalPreset, LayoutPresets.TiledPreset: exact sizes are stated for windows the panes and dividers just fill; for other sizes see `EvenAnySize`, `MainAnySize` and `TiledAnySize`.
- `is_wheel`, `is_motion`, `terminal_setup`: one-line bit tests and constant strings.
- WireClient.NewSessionExact: the second half is stated for texts without NUL and below 16 MB, because another text can hold the very bytes that are misread, its own encoding among them.
- Mirror.ClientMirrorsServer: a resize is taken to be announced by a layout before the next update.
- Display.Watch: copy mode, the status bar and the filler around a small window are not modelled; the terminal keeps its size.
- Composite.WindowView.Run: the composite is the recomposed one whenever the unzoomed rectangles are nonempty and disjoint, as reflow makes them; for overlapping rectangles the source's result depends on map order.
- Windows.RunWindow: keeps the invariant; the effect of each command is in the command's own contract.
