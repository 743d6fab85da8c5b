/** Server messages: encoding, decoding and their round trip (src/proto/mod.rs). */
module WireServer {
  import opened Ints
  import opened Wrappers
  import opened Cells
  import opened Streams
  import opened Wire

  datatype DirtyRow = DirtyRow(row: u16, cells: Row)

  datatype PaneRect = PaneRect(paneId: u32, x: u16, y: u16, cols: u16, rows: u16)

  datatype SessionInfo =
    SessionInfo(name: Text, attached: u16, created: u64, lastActivity: u64, hasActivity: bool)

  datatype PeerInfo =
    PeerInfo(serverId: Text, name: Text, addr: Text, tls: bool, fingerprint: Text, state: Text, pskOk: bool,
             sessions: seq<Text>)

  datatype Cursor = Cursor(row: u16, col: u16, visible: bool)

  datatype ServerMsg =
    | IdentifyAck(rows: u16, cols: u16, version: Text, address: Text)
    | GridSnapshot(rows: u16, cols: u16, cells: seq<Cell>, cursor: Cursor, mouseFlags: u8, paneId: Option<u32>)
    | GridUpdate(dirty: seq<DirtyRow>, cursor: Cursor, mouseFlags: u8, paneId: Option<u32>)
    | ScrollbackUpdate(history: seq<Row>, replay: bool, paneId: Option<u32>)
    | WindowLayout(rows: u16, cols: u16, activePane: u32, panes: seq<PaneRect>, zoomed: bool)
    | PaneExit(code: u8)
    | Error(msg: Text)
    | StatusBarUpdate(session: Text, windows: seq<Text>, active: u16, sessionCount: u16, highOutput: bool,
        server: Text, activity: seq<bool>, mouse: seq<bool>)
    | SessionList(sessions: seq<SessionInfo>, address: Text)
    | WindowCapture(content: Text)
    | LogContent(lines: seq<Text>)
    | ControlNotify(line: Text)
    | TermOscQuery(pane: u32, code: u8, bellTerminated: bool)
    | PskUpdated
    | PeerList(peers: seq<PeerInfo>)
    | RegisterAck(ok: bool, reason: Text)
    | RelayAck(ok: bool, reason: Text)
    | SendKeysAck(ok: bool, reason: Text)
    | SendEventAck(ok: bool, reason: Text)

  /** What a missing trailing string decodes to: "unknown". */
  const UNKNOWN: Text := [0x75, 0x6e, 0x6b, 0x6e, 0x6f, 0x77, 0x6e]

  // ---- Parts of messages ----

  function PutCursor(c: Cursor, rest: Bytes): (d: Bytes)
    ensures ReadCursor(d) == Got(c, rest)
  {
    PutU16(c.row, PutU16(c.col, PutFlag(c.visible, rest)))
  }

  function ReadCursor(d: Bytes): Read<Cursor> {
    var row :- ReadU16(d);
    var col :- ReadU16(row.rest);
    var visible :- ReadFlag(col.rest);
    Got(Cursor(row.value, col.value, visible.value), visible.rest)
  }

  /** The trailing pane id; nothing is written for None. */
  function PutPane(p: Option<u32>): (d: Bytes)
    ensures ReadPane(d) == Got(p, [])
  {
    if p.Some? then PutU32(p.value, []) else []
  }

  function ReadPane(d: Bytes): (r: Read<Option<u32>>)
    ensures r.Got?
  {
    if |d| < 4 then Got(None, d)
    else
      var p := ReadU32(d);
      Got(Some(p.value), p.rest)
  }

  /** Mouse flags and pane id, absent on messages of older servers. */
  function ReadTrailer(d: Bytes): (r: Read<(u8, Option<u32>)>)
    ensures r.Got?
  {
    var flags := ByteOr(d, 0);
    var pane := ReadPane(flags.rest);
    Got((flags.value, pane.value), pane.rest)
  }

  function PutTrailer(flags: u8, pane: Option<u32>): (d: Bytes)
    ensures ReadTrailer(d) == Got((flags, pane), [])
  {
    PutU8(flags, PutPane(pane))
  }

  function ReadStrictText(d: Bytes): Read<Text> { ReadText(d, Eof) }

  function ReadRawText(d: Bytes): Read<Text> { ReadText(d, Panic) }

  function ReadRow(d: Bytes): Read<Row> { ReadCounted(ReadCell, d) }

  function PutRow(row: Row, rest: Bytes): Bytes { PutCounted(PutCell, row, rest) }

  function ReadDirty(d: Bytes): Read<DirtyRow> {
    var row :- ReadU16(d);
    var cells :- ReadRow(row.rest);
    Got(DirtyRow(row.value, cells.value), cells.rest)
  }

  function PutDirty(u: DirtyRow, rest: Bytes): Bytes { PutU16(u.row, PutRow(u.cells, rest)) }

  function ReadRect(d: Bytes): Read<PaneRect> {
    var id :- ReadU32(d);
    var x :- ReadU16(id.rest);
    var y :- ReadU16(x.rest);
    var cols :- ReadU16(y.rest);
    var rows :- ReadU16(cols.rest);
    Got(PaneRect(id.value, x.value, y.value, cols.value, rows.value), rows.rest)
  }

  function PutRect(p: PaneRect, rest: Bytes): (d: Bytes)
    ensures ReadRect(d) == Got(p, rest)
  {
    PutU32(p.paneId, PutU16(p.x, PutU16(p.y, PutU16(p.cols, PutU16(p.rows, rest)))))
  }

  function ReadSession(d: Bytes): Read<SessionInfo> {
    var name :- ReadText(d, Eof);
    var attached :- ReadU16(name.rest);
    var created :- ReadU64(attached.rest);
    var last :- ReadU64(created.rest);
    var has :- ReadFlag(last.rest);
    Got(SessionInfo(name.value, attached.value, created.value, last.value, has.value), has.rest)
  }

  function PutSession(s: SessionInfo, rest: Bytes): (d: Bytes)
    ensures Short(s.name) ==> ReadSession(d) == Got(s, rest)
  {
    PutText(s.name, PutU16(s.attached, PutU64(s.created, PutU64(s.lastActivity, PutFlag(s.hasActivity, rest)))))
  }

  function ReadPeer(d: Bytes): Read<PeerInfo> {
    var id :- ReadText(d, Eof);
    var name :- ReadText(id.rest, Eof);
    var addr :- ReadText(name.rest, Eof);
    var tls :- ReadFlag(addr.rest);
    var fingerprint :- ReadText(tls.rest, Eof);
    var state :- ReadText(fingerprint.rest, Eof);
    var psk :- ReadFlag(state.rest);
    var sessions :- ReadCounted(ReadStrictText, psk.rest);
    Got(PeerInfo(id.value, name.value, addr.value, tls.value, fingerprint.value, state.value, psk.value,
                 sessions.value), sessions.rest)
  }

  function PutPeer(p: PeerInfo, rest: Bytes): Bytes {
    PutText(p.serverId, PutText(p.name, PutText(p.addr, PutFlag(p.tls,
      PutText(p.fingerprint, PutText(p.state, PutFlag(p.pskOk, PutCounted(PutText, p.sessions, rest))))))))
  }

  /** At most `n` flags; missing ones are off. */
  function ReadFlags(n: nat, d: Bytes): (r: Read<seq<bool>>)
    ensures r.Got? && |r.value| == n
  {
    if n == 0 then Got([], d)
    else if d == [] then Got(Falses(n), d)
    else
      var bs := ReadFlags(n - 1, d[1..]);
      Got([d[0] != 0] + bs.value, bs.rest)
  }

  function Falses(n: nat): (r: seq<bool>)
    ensures |r| == n
  {
    if n == 0 then [] else [false] + Falses(n - 1)
  }

  function PutFlags(flags: seq<bool>, rest: Bytes): Bytes { PutList(PutFlag, flags, rest) }

  // ---- Inverses of the parts ----

  predicate AllShort(texts: seq<Text>) {
    |texts| < 0x1_0000_0000 && forall i :: 0 <= i < |texts| ==> Short(texts[i])
  }

  predicate ShortRows(rows: seq<Row>) {
    |rows| < 0x1_0000_0000 && forall i :: 0 <= i < |rows| ==> |rows[i]| < 0x1_0000_0000
  }

  lemma CellInverse(c: Cell)
    ensures Inverse(PutCell, ReadCell, c)
  {
  }

  lemma RowInverse(row: Row)
    requires |row| < 0x1_0000_0000
    ensures Inverse(PutRow, ReadRow, row)
  {
    forall c: Cell ensures Inverse(PutCell, ReadCell, c) { CellInverse(c); }
    forall rest: Bytes ensures ReadRow(PutRow(row, rest)) == Got(row, rest) {
      CountedRoundTrip(PutCell, ReadCell, row, rest);
    }
  }

  lemma DirtyInverse(u: DirtyRow)
    requires |u.cells| < 0x1_0000_0000
    ensures Inverse(PutDirty, ReadDirty, u)
  {
    RowInverse(u.cells);
    forall rest: Bytes ensures ReadDirty(PutDirty(u, rest)) == Got(u, rest) {
      assert ReadRow(PutRow(u.cells, rest)) == Got(u.cells, rest);
    }
  }

  lemma TextInverse(s: Text)
    requires Short(s)
    ensures Inverse(PutText, ReadStrictText, s) && Inverse(PutText, ReadRawText, s)
  {
  }

  lemma TextsRoundTrip(texts: seq<Text>, rest: Bytes)
    requires AllShort(texts)
    ensures ReadCounted(ReadStrictText, PutCounted(PutText, texts, rest)) == Got(texts, rest)
    ensures ReadCounted(ReadRawText, PutCounted(PutText, texts, rest)) == Got(texts, rest)
  {
    forall i | 0 <= i < |texts|
      ensures Inverse(PutText, ReadStrictText, texts[i]) && Inverse(PutText, ReadRawText, texts[i])
    {
      TextInverse(texts[i]);
    }
    CountedRoundTrip(PutText, ReadStrictText, texts, rest);
    CountedRoundTrip(PutText, ReadRawText, texts, rest);
  }

  predicate ShortPeer(p: PeerInfo) {
    && Short(p.serverId) && Short(p.name) && Short(p.addr) && Short(p.fingerprint) && Short(p.state)
    && AllShort(p.sessions)
  }

  lemma PeerInverse(p: PeerInfo)
    requires ShortPeer(p)
    ensures Inverse(PutPeer, ReadPeer, p)
  {
    forall rest: Bytes ensures ReadPeer(PutPeer(p, rest)) == Got(p, rest) {
      TextsRoundTrip(p.sessions, rest);
    }
  }

  lemma {:induction false} FlagsRoundTrip(flags: seq<bool>, rest: Bytes)
    ensures ReadFlags(|flags|, PutFlags(flags, rest)) == Got(flags, rest)
  {
    if flags != [] {
      FlagsRoundTrip(flags[1..], rest);
      assert flags == [flags[0]] + flags[1..];
    }
  }

  // ---- Decoding ----

  function ReadIdentifyAck(d: Bytes): Read<ServerMsg> {
    var rows :- ReadU16(d);
    var cols :- ReadU16(rows.rest);
    var version :- if cols.rest == [] then Got(UNKNOWN, []) else ReadText(cols.rest, Panic);
    var address :- if version.rest == [] then Got(UNKNOWN, []) else ReadText(version.rest, Panic);
    Got(IdentifyAck(rows.value, cols.value, version.value, address.value), address.rest)
  }

  function ReadSnapshot(d: Bytes): Read<ServerMsg> {
    var rows :- ReadU16(d);
    var cols :- ReadU16(rows.rest);
    var cells :- ReadCounted(ReadCell, cols.rest);
    var cursor :- ReadCursor(cells.rest);
    var end := ReadTrailer(cursor.rest);
    Got(GridSnapshot(rows.value, cols.value, cells.value, cursor.value, end.value.0, end.value.1), end.rest)
  }

  function ReadUpdate(d: Bytes): Read<ServerMsg> {
    var dirty :- ReadCounted(ReadDirty, d);
    var cursor :- ReadCursor(dirty.rest);
    var end := ReadTrailer(cursor.rest);
    Got(GridUpdate(dirty.value, cursor.value, end.value.0, end.value.1), end.rest)
  }

  function ReadHistory(d: Bytes): Read<ServerMsg> {
    var replay :- ReadFlag(d);
    var rows :- ReadCounted(ReadRow, replay.rest);
    var pane := ReadPane(rows.rest);
    Got(ScrollbackUpdate(rows.value, replay.value, pane.value), pane.rest)
  }

  function ReadLayout(d: Bytes): Read<ServerMsg> {
    var rows :- ReadU16(d);
    var cols :- ReadU16(rows.rest);
    var active :- ReadU32(cols.rest);
    var panes :- ReadCounted(ReadRect, active.rest);
    var zoomed := FlagOr(panes.rest, false);
    Got(WindowLayout(rows.value, cols.value, active.value, panes.value, zoomed.value), zoomed.rest)
  }

  function ReadStatusBar(d: Bytes): (r: Read<ServerMsg>)
    ensures r.Got? ==> r.value.StatusBarUpdate? && FlagsMatch(r.value)
  {
    var session :- ReadText(d, Panic);
    var windows :- ReadCounted(ReadRawText, session.rest);
    var active :- ReadU16(windows.rest);
    var count :- ReadU16(active.rest);
    var high := FlagOr(count.rest, false);
    var server :- ReadOptionalText(high.rest);
    var activity := ReadFlags(|windows.value|, server.rest);
    var mouse := ReadFlags(|windows.value|, activity.rest);
    Got(StatusBarUpdate(session.value, windows.value, active.value, count.value, high.value, server.value,
                        activity.value, mouse.value), mouse.rest)
  }

  function ReadSessions(d: Bytes): Read<ServerMsg> {
    var sessions :- ReadCounted(ReadSession, d);
    var address :- if sessions.rest == [] then Got(UNKNOWN, []) else ReadText(sessions.rest, Eof);
    Got(SessionList(sessions.value, address.value), address.rest)
  }

  function ReadLog(d: Bytes): Read<ServerMsg> {
    var lines :- ReadCounted(ReadRawText, d);
    Got(LogContent(lines.value), lines.rest)
  }

  function ReadPeers(d: Bytes): Read<ServerMsg> {
    var peers :- ReadCounted(ReadPeer, d);
    Got(PeerList(peers.value), peers.rest)
  }

  function ReadOscQuery(d: Bytes): Read<ServerMsg> {
    var pane :- ReadU32(d);
    var code :- ReadU8(pane.rest);
    var bell := FlagOr(code.rest, true);
    Got(TermOscQuery(pane.value, code.value, bell.value), bell.rest)
  }

  function ReadAck(d: Bytes): Read<(bool, Text)> {
    var ok :- ReadFlag(d);
    var reason :- ReadText(ok.rest, Eof);
    Got((ok.value, reason.value), reason.rest)
  }

  function PutAck(ok: bool, reason: Text): (d: Bytes)
    ensures Short(reason) ==> ReadAck(d) == Got((ok, reason), [])
  {
    PutFlag(ok, PutText(reason, []))
  }

  /** `decode_server`, given the type tag and the data after it. */
  function DecodeServerBody(tag: u8, d: Bytes): Read<ServerMsg> {
    match tag
    case 0x10 => ReadIdentifyAck(d)
    case 0x11 => ReadSnapshot(d)
    case 0x12 => ReadUpdate(d)
    case 0x17 => ReadHistory(d)
    case 0x22 => ReadLayout(d)
    case 0x13 => var code :- ReadU8(d); Got(PaneExit(code.value), code.rest)
    case 0x14 => var msg :- ReadText(d, Panic); Got(Error(msg.value), msg.rest)
    case 0x15 => ReadStatusBar(d)
    case 0x16 => ReadSessions(d)
    case 0x18 => var content :- ReadText(d, Panic); Got(WindowCapture(content.value), content.rest)
    case 0x19 => ReadLog(d)
    case 0x1a => var line :- ReadText(d, Panic); Got(ControlNotify(line.value), line.rest)
    case 0x1b => ReadOscQuery(d)
    case 0x1c => Got(PskUpdated, d)
    case 0x1d => ReadPeers(d)
    case 0x1e => var a :- ReadAck(d); Got(RegisterAck(a.value.0, a.value.1), a.rest)
    case 0x1f => var a :- ReadAck(d); Got(RelayAck(a.value.0, a.value.1), a.rest)
    case 0x20 => var a :- ReadAck(d); Got(SendKeysAck(a.value.0, a.value.1), a.rest)
    case 0x21 => var a :- ReadAck(d); Got(SendEventAck(a.value.0, a.value.1), a.rest)
    case _ => Bad(InvalidData)
  }

  // ---- Encoding ----

  function ServerTag(m: ServerMsg): u8 {
    match m
    case IdentifyAck(_, _, _, _) => 0x10
    case GridSnapshot(_, _, _, _, _, _) => 0x11
    case GridUpdate(_, _, _, _) => 0x12
    case ScrollbackUpdate(_, _, _) => 0x17
    case WindowLayout(_, _, _, _, _) => 0x22
    case PaneExit(_) => 0x13
    case Error(_) => 0x14
    case StatusBarUpdate(_, _, _, _, _, _, _, _) => 0x15
    case SessionList(_, _) => 0x16
    case WindowCapture(_) => 0x18
    case LogContent(_) => 0x19
    case ControlNotify(_) => 0x1a
    case TermOscQuery(_, _, _) => 0x1b
    case PskUpdated => 0x1c
    case PeerList(_) => 0x1d
    case RegisterAck(_, _) => 0x1e
    case RelayAck(_, _) => 0x1f
    case SendKeysAck(_, _) => 0x20
    case SendEventAck(_, _) => 0x21
  }

  /** `encode_server`, after the type tag. */
  function ServerBody(m: ServerMsg): Bytes {
    match m
    case IdentifyAck(rows, cols, version, address) =>
      PutU16(rows, PutU16(cols, PutText(version, PutText(address, []))))
    case GridSnapshot(rows, cols, cells, cursor, flags, pane) =>
      PutU16(rows, PutU16(cols, PutCounted(PutCell, cells, PutCursor(cursor, PutTrailer(flags, pane)))))
    case GridUpdate(dirty, cursor, flags, pane) =>
      PutCounted(PutDirty, dirty, PutCursor(cursor, PutTrailer(flags, pane)))
    case ScrollbackUpdate(history, replay, pane) =>
      PutFlag(replay, PutCounted(PutRow, history, PutPane(pane)))
    case WindowLayout(rows, cols, active, panes, zoomed) =>
      PutU16(rows, PutU16(cols, PutU32(active, PutCounted(PutRect, panes, PutFlag(zoomed, [])))))
    case PaneExit(code) => PutU8(code, [])
    case Error(msg) => PutText(msg, [])
    case StatusBarUpdate(session, windows, active, count, high, server, activity, mouse) =>
      PutText(session, PutCounted(PutText, windows, PutU16(active, PutU16(count, PutFlag(high,
        PutText(server, PutFlags(activity, PutFlags(mouse, []))))))))
    case SessionList(sessions, address) => PutCounted(PutSession, sessions, PutText(address, []))
    case WindowCapture(content) => PutText(content, [])
    case LogContent(lines) => PutCounted(PutText, lines, [])
    case ControlNotify(line) => PutText(line, [])
    case TermOscQuery(pane, code, bell) => PutU32(pane, PutU8(code, PutFlag(bell, [])))
    case PskUpdated => []
    case PeerList(peers) => PutCounted(PutPeer, peers, [])
    case RegisterAck(ok, reason) => PutAck(ok, reason)
    case RelayAck(ok, reason) => PutAck(ok, reason)
    case SendKeysAck(ok, reason) => PutAck(ok, reason)
    case SendEventAck(ok, reason) => PutAck(ok, reason)
  }

  /** Every length fits the 32-bit field that carries it. */
  predicate ShortServer(m: ServerMsg) {
    match m
    case IdentifyAck(_, _, version, address) => Short(version) && Short(address)
    case GridSnapshot(_, _, cells, _, _, _) => |cells| < 0x1_0000_0000
    case GridUpdate(dirty, _, _, _) =>
      |dirty| < 0x1_0000_0000 && forall i :: 0 <= i < |dirty| ==> |dirty[i].cells| < 0x1_0000_0000
    case ScrollbackUpdate(history, _, _) => ShortRows(history)
    case WindowLayout(_, _, _, panes, _) => |panes| < 0x1_0000_0000
    case Error(msg) => Short(msg)
    case StatusBarUpdate(session, windows, _, _, _, server, _, _) =>
      Short(session) && AllShort(windows) && Short(server)
    case SessionList(sessions, address) =>
      && |sessions| < 0x1_0000_0000 && Short(address)
      && forall i :: 0 <= i < |sessions| ==> Short(sessions[i].name)
    case WindowCapture(content) => Short(content)
    case LogContent(lines) => AllShort(lines)
    case ControlNotify(line) => Short(line)
    case PeerList(peers) => |peers| < 0x1_0000_0000 && forall i :: 0 <= i < |peers| ==> ShortPeer(peers[i])
    case RegisterAck(_, reason) => Short(reason)
    case RelayAck(_, reason) => Short(reason)
    case SendKeysAck(_, reason) => Short(reason)
    case SendEventAck(_, reason) => Short(reason)
    case _ => true
  }

  /** The flag lists of a status bar have one flag per window. */
  predicate FlagsMatch(m: ServerMsg) {
    m.StatusBarUpdate? ==> |m.activity| == |m.windows| && |m.mouse| == |m.windows|
  }

  // ---- The round trip ----

  ghost predicate Gives(r: Read<ServerMsg>, m: ServerMsg) { r.Got? && r.value == m }

  lemma AckRoundTrip(m: ServerMsg)
    requires m.IdentifyAck? && ShortServer(m)
    ensures Gives(ReadIdentifyAck(ServerBody(m)), m)
  {
  }

  lemma SnapshotRoundTrip(m: ServerMsg)
    requires m.GridSnapshot? && ShortServer(m)
    ensures Gives(ReadSnapshot(ServerBody(m)), m)
  {
    forall c: Cell ensures Inverse(PutCell, ReadCell, c) { CellInverse(c); }
    CountedRoundTrip(PutCell, ReadCell, m.cells, PutCursor(m.cursor, PutTrailer(m.mouseFlags, m.paneId)));
  }

  lemma UpdateRoundTrip(m: ServerMsg)
    requires m.GridUpdate? && ShortServer(m)
    ensures Gives(ReadUpdate(ServerBody(m)), m)
  {
    forall i | 0 <= i < |m.dirty| ensures Inverse(PutDirty, ReadDirty, m.dirty[i]) { DirtyInverse(m.dirty[i]); }
    CountedRoundTrip(PutDirty, ReadDirty, m.dirty, PutCursor(m.cursor, PutTrailer(m.mouseFlags, m.paneId)));
  }

  lemma HistoryRoundTrip(m: ServerMsg)
    requires m.ScrollbackUpdate? && ShortServer(m)
    ensures Gives(ReadHistory(ServerBody(m)), m)
  {
    forall i | 0 <= i < |m.history| ensures Inverse(PutRow, ReadRow, m.history[i]) { RowInverse(m.history[i]); }
    CountedRoundTrip(PutRow, ReadRow, m.history, PutPane(m.paneId));
  }

  lemma LayoutRoundTrip(m: ServerMsg)
    requires m.WindowLayout? && ShortServer(m)
    ensures Gives(ReadLayout(ServerBody(m)), m)
  {
    forall p: PaneRect ensures Inverse(PutRect, ReadRect, p) { RectInverse(p); }
    CountedRoundTrip(PutRect, ReadRect, m.panes, PutFlag(m.zoomed, []));
  }

  lemma RectInverse(p: PaneRect)
    ensures Inverse(PutRect, ReadRect, p)
  {
  }

  lemma StatusBarRoundTrip(m: ServerMsg)
    requires m.StatusBarUpdate? && ShortServer(m) && FlagsMatch(m)
    ensures Gives(ReadStatusBar(ServerBody(m)), m)
  {
    FlagsRoundTrip(m.mouse, []);
    FlagsRoundTrip(m.activity, PutFlags(m.mouse, []));
    var flags := PutFlags(m.activity, PutFlags(m.mouse, []));
    var later := PutU16(m.active, PutU16(m.sessionCount, PutFlag(m.highOutput, PutText(m.server, flags))));
    TextsRoundTrip(m.windows, later);
  }

  lemma SessionInverse(s: SessionInfo)
    requires Short(s.name)
    ensures Inverse(PutSession, ReadSession, s)
  {
  }

  lemma SessionsRoundTrip(m: ServerMsg)
    requires m.SessionList? && ShortServer(m)
    ensures Gives(ReadSessions(ServerBody(m)), m)
  {
    forall i | 0 <= i < |m.sessions| ensures Inverse(PutSession, ReadSession, m.sessions[i]) {
      SessionInverse(m.sessions[i]);
    }
    CountedRoundTrip(PutSession, ReadSession, m.sessions, PutText(m.address, []));
  }

  lemma LogRoundTrip(m: ServerMsg)
    requires m.LogContent? && ShortServer(m)
    ensures Gives(ReadLog(ServerBody(m)), m)
  {
    TextsRoundTrip(m.lines, []);
  }

  lemma PeersRoundTrip(m: ServerMsg)
    requires m.PeerList? && ShortServer(m)
    ensures Gives(ReadPeers(ServerBody(m)), m)
  {
    forall i | 0 <= i < |m.peers| ensures Inverse(PutPeer, ReadPeer, m.peers[i]) { PeerInverse(m.peers[i]); }
    CountedRoundTrip(PutPeer, ReadPeer, m.peers, []);
  }

  // ---- The decoder of each message type, whatever the data ----

  lemma IdentifyAckTag(d: Bytes)
    ensures DecodeServerBody(0x10, d) == ReadIdentifyAck(d)
  {
  }

  lemma SnapshotTag(d: Bytes)
    ensures DecodeServerBody(0x11, d) == ReadSnapshot(d)
  {
  }

  lemma UpdateTag(d: Bytes)
    ensures DecodeServerBody(0x12, d) == ReadUpdate(d)
  {
  }

  lemma HistoryTag(d: Bytes)
    ensures DecodeServerBody(0x17, d) == ReadHistory(d)
  {
  }

  lemma LayoutTag(d: Bytes)
    ensures DecodeServerBody(0x22, d) == ReadLayout(d)
  {
  }

  lemma StatusBarTag(d: Bytes)
    ensures DecodeServerBody(0x15, d) == ReadStatusBar(d)
  {
  }

  lemma SessionsTag(d: Bytes)
    ensures DecodeServerBody(0x16, d) == ReadSessions(d)
  {
  }

  lemma LogTag(d: Bytes)
    ensures DecodeServerBody(0x19, d) == ReadLog(d)
  {
  }

  lemma PeersTag(d: Bytes)
    ensures DecodeServerBody(0x1d, d) == ReadPeers(d)
  {
  }

  ghost predicate Decodes(m: ServerMsg, d: Bytes) { Gives(DecodeServerBody(ServerTag(m), d), m) }

  lemma GridMessages(m: ServerMsg)
    requires ShortServer(m) && (m.GridSnapshot? || m.GridUpdate? || m.ScrollbackUpdate? || m.WindowLayout?)
    ensures Decodes(m, ServerBody(m))
  {
    var d := ServerBody(m);
    if m.GridSnapshot? {
      SnapshotTag(d);
      SnapshotRoundTrip(m);
    } else if m.GridUpdate? {
      UpdateTag(d);
      UpdateRoundTrip(m);
    } else if m.ScrollbackUpdate? {
      HistoryTag(d);
      HistoryRoundTrip(m);
    } else {
      LayoutTag(d);
      LayoutRoundTrip(m);
    }
  }

  lemma ListMessages(m: ServerMsg)
    requires ShortServer(m) && (m.IdentifyAck? || m.SessionList? || m.LogContent? || m.PeerList?)
    ensures Decodes(m, ServerBody(m))
  {
    var d := ServerBody(m);
    if m.IdentifyAck? {
      IdentifyAckTag(d);
      AckRoundTrip(m);
    } else if m.SessionList? {
      SessionsTag(d);
      SessionsRoundTrip(m);
    } else if m.LogContent? {
      LogTag(d);
      LogRoundTrip(m);
    } else {
      PeersTag(d);
      PeersRoundTrip(m);
    }
  }

  lemma RelayMessages(m: ServerMsg)
    requires ShortServer(m) && (m.RegisterAck? || m.RelayAck?)
    ensures Decodes(m, ServerBody(m))
  {
  }

  lemma SendMessages(m: ServerMsg)
    requires ShortServer(m) && (m.SendKeysAck? || m.SendEventAck?)
    ensures Decodes(m, ServerBody(m))
  {
  }

  lemma TextMessages(m: ServerMsg)
    requires ShortServer(m) && (m.Error? || m.WindowCapture? || m.ControlNotify?)
    ensures Decodes(m, ServerBody(m))
  {
  }

  lemma SmallMessages(m: ServerMsg)
    requires m.PaneExit? || m.TermOscQuery? || m.PskUpdated?
    ensures Decodes(m, ServerBody(m))
  {
  }

  lemma StatusBarMessages(m: ServerMsg)
    requires ShortServer(m) && m.StatusBarUpdate?
    ensures Decodes(m, ServerBody(m)) <==> FlagsMatch(m)
  {
    StatusBarTag(ServerBody(m));
    if FlagsMatch(m) { StatusBarRoundTrip(m); }
  }

  /** Every server message decodes to itself, a status bar exactly when its flag lists have one
      flag per window. */
  lemma ServerRoundTrip(m: ServerMsg)
    requires ShortServer(m)
    ensures Decodes(m, ServerBody(m)) <==> FlagsMatch(m)
  {
    if m.StatusBarUpdate? {
      StatusBarMessages(m);
    } else if m.GridSnapshot? || m.GridUpdate? || m.ScrollbackUpdate? || m.WindowLayout? {
      GridMessages(m);
    } else if m.IdentifyAck? || m.SessionList? || m.LogContent? || m.PeerList? {
      ListMessages(m);
    } else if m.RegisterAck? || m.RelayAck? {
      RelayMessages(m);
    } else if m.SendKeysAck? || m.SendEventAck? {
      SendMessages(m);
    } else if m.Error? || m.WindowCapture? || m.ControlNotify? {
      TextMessages(m);
    } else {
      SmallMessages(m);
    }
  }
}
