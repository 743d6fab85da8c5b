/** Client messages: encoding, decoding and their round trip (src/proto/mod.rs). */
module WireClient {
  import opened Ints
  import opened Wrappers
  import opened Streams
  import opened Wire

  datatype EnvVar = EnvVar(key: Text, value: Text)

  datatype InputEvent = InputEvent(kind: u8, cb: u8, x: u16, y: u16, release: bool)

  datatype ClientMsg =
    | Identify(rows: u16, cols: u16, attach: bool, authToken: Text, env: seq<EnvVar>)
    | PaneInput(data: Bytes)
    | Resize(rows: u16, cols: u16)
    | Detach | NewWindow | NextWindow | PrevWindow
    | SelectWindow(index: u8)
    | KillPane
    | NewSession(name: Option<Text>, cwd: Option<Text>, command: Option<Text>)
    | NextSession | PrevSession
    | SelectSession(target: Text)
    | KillSession
    | RenameSession(target: Text)
    | ListSessions | KillServer
    | NewWindowIn(session: Option<Text>, command: Option<Text>)
    | CaptureWindow(session: Option<Text>, window: Option<u8>, format: u8, colors: bool,
        termFg: Option<Colour>, termBg: Option<Colour>)
    | SendKeys(session: Option<Text>, window: Option<u8>, keys: Bytes)
    | SendEvent(session: Option<Text>, window: Option<u8>, events: seq<InputEvent>)
    | GetLog
    | IdentifyControl(rows: u16, cols: u16, authToken: Text)
    | ControlCommand(line: Text)
    | Refresh
    | TermOscReply(paneId: u32, data: Bytes)
    | TermPalette(fg: Option<Colour>, bg: Option<Colour>)
    | SetPsk(psk: Text)
    | ListPeers
    | Register(serverId: Text, target: Text, tcpPort: u16, tls: bool, fingerprint: Text)
    | RelayOpen(addr: Text)
    | SplitPane(dir: u8)
    | FocusNext | FocusPrev
    | FocusDir(dir: u8)
    | ToggleZoom | NextLayout
    | FocusPane(paneId: u32)

  const MAX_ENV := 64
  const MAX_EVENTS := 255

  // ---- Parts of messages ----

  function ReadEnvVar(d: Bytes): Read<EnvVar> {
    var k :- ReadOptionalText(d);
    var v :- ReadOptionalText(k.rest);
    Got(EnvVar(k.value, v.value), v.rest)
  }

  function PutEnvVar(e: EnvVar, rest: Bytes): (d: Bytes)
    ensures Short(e.key) && Short(e.value) ==> ReadEnvVar(d) == Got(e, rest)
  {
    PutText(e.key, PutText(e.value, rest))
  }

  function ReadEvent(d: Bytes): Read<InputEvent> {
    var kind :- ReadU8(d);
    var cb :- ReadU8(kind.rest);
    var x :- ReadU16(cb.rest);
    var y :- ReadU16(x.rest);
    var release :- ReadFlag(y.rest);
    Got(InputEvent(kind.value, cb.value, x.value, y.value, release.value), release.rest)
  }

  function PutEvent(e: InputEvent, rest: Bytes): (d: Bytes)
    ensures ReadEvent(d) == Got(e, rest)
  {
    PutU8(e.kind, PutU8(e.cb, PutU16(e.x, PutU16(e.y, PutFlag(e.release, rest)))))
  }

  /** An optional field at the end of a message: no marker means None. */
  function ReadLastText(d: Bytes): Read<Option<Text>> {
    if d != [] && d[0] == 1 then
      var s :- ReadText(d[1..], Panic);
      Got(Some(s.value), s.rest)
    else Got(None, d)
  }

  function PutLastText(o: Option<Text>): (d: Bytes)
    ensures (o.Some? ==> Short(o.value)) ==> ReadLastText(d).Got? && ReadLastText(d).value == o
  {
    match o
    case Some(s) => PutU8(1, PutText(s, []))
    case None => PutU8(0, [])
  }

  /** The fields of `NewSession`: the decoder does not move past their text. */
  function ReadStay(d: Bytes): Read<Option<Text>> {
    var has :- ReadU8(d);
    if has.value == 0 then Got(None, has.rest)
    else
      var len :- ReadU32(has.rest);
      var s :- ReadBytes(len.rest, len.value, Panic);
      Got(Some(s.value), len.rest)
  }

  // ---- Decoding ----

  function ReadIdentify(d: Bytes): Read<ClientMsg> {
    var rows :- ReadU16(d);
    var cols :- ReadU16(rows.rest);
    var attach := FlagOr(cols.rest, true);
    var token :- ReadOptionalText(attach.rest);
    var env :- ReadEnv(token.rest);
    Got(Identify(rows.value, cols.value, attach.value, token.value, env.value), env.rest)
  }

  /** At most 64 pairs are read. */
  function ReadEnv(d: Bytes): Read<seq<EnvVar>> {
    if |d| < 4 then Got([], d)
    else
      var count := ReadU32(d);
      ReadList(ReadEnvVar, Min(count.value, MAX_ENV), count.rest)
  }

  function ReadNewSession(d: Bytes): Read<ClientMsg> {
    var name :- ReadStay(d);
    var cwd :- ReadStay(name.rest);
    var command :- ReadStay(cwd.rest);
    Got(NewSession(name.value, cwd.value, command.value), command.rest)
  }

  function ReadNewWindowIn(d: Bytes): Read<ClientMsg> {
    var session :- ReadMaybeText(d, Panic);
    var command :- ReadLastText(session.rest);
    Got(NewWindowIn(session.value, command.value), command.rest)
  }

  /** The optional palette: two optional colours, both absent without its marker. */
  function ReadPalette(d: Bytes): Read<(Option<Colour>, Option<Colour>)> {
    if d == [] || d[0] != 1 then Got((None, None), d)
    else
      var fg :- ReadMaybeRgb(d[1..], false);
      var bg :- ReadMaybeRgb(fg.rest, true);
      Got((fg.value, bg.value), bg.rest)
  }

  function PutPalette(fg: Option<Colour>, bg: Option<Colour>): (d: Bytes)
    ensures ReadPalette(d).Got? && ReadPalette(d).value == (fg, bg)
  {
    if fg.None? && bg.None? then PutU8(0, []) else PutU8(1, PutMaybeRgb(fg, PutMaybeRgb(bg, [])))
  }

  function ReadCapture(d: Bytes): Read<ClientMsg> {
    var session :- ReadMaybeText(d, Eof);
    var window :- ReadMaybeByte(session.rest, Eof);
    var r := window.rest;
    var long := |r| >= 2;
    var palette :- ReadPalette(if long then r[2..] else r);
    Got(CaptureWindow(session.value, window.value, if long then r[0] else 0, long && r[1] != 0,
                      palette.value.0, palette.value.1), palette.rest)
  }

  function ReadSendKeys(d: Bytes): Read<ClientMsg> {
    var session :- ReadMaybeText(d, Panic);
    var window :- ReadMaybeByte(session.rest, Panic);
    var keys :- ReadText(window.rest, Panic);
    Got(SendKeys(session.value, window.value, keys.value), keys.rest)
  }

  function ReadSendEvent(d: Bytes): Read<ClientMsg> {
    var session :- ReadMaybeText(d, Panic);
    var window :- ReadMaybeByte(session.rest, Panic);
    var count :- ReadU8(window.rest);
    var events :- ReadList(ReadEvent, count.value, count.rest);
    Got(SendEvent(session.value, window.value, events.value), events.rest)
  }

  function ReadTermPalette(d: Bytes): Read<ClientMsg> {
    var fg :- ReadMaybeRgb(d, false);
    var bg :- ReadMaybeRgb(fg.rest, true);
    Got(TermPalette(fg.value, bg.value), bg.rest)
  }

  function ReadRegister(d: Bytes): Read<ClientMsg> {
    var id :- ReadText(d, Eof);
    var name :- ReadText(id.rest, Eof);
    var port :- ReadU16(name.rest);
    var tls :- ReadFlag(port.rest);
    var fingerprint :- ReadText(tls.rest, Eof);
    Got(Register(id.value, name.value, port.value, tls.value, fingerprint.value), fingerprint.rest)
  }

  function ReadIdentifyControl(d: Bytes): Read<ClientMsg> {
    var rows :- ReadU16(d);
    var cols :- ReadU16(rows.rest);
    var token :- ReadOptionalText(cols.rest);
    Got(IdentifyControl(rows.value, cols.value, token.value), token.rest)
  }

  /** `decode_client`, given the type tag and the data after it. */
  function DecodeClientBody(tag: u8, d: Bytes): Read<ClientMsg> {
    match tag
    case 0x01 => ReadIdentify(d)
    case 0x02 => Got(PaneInput(d), [])
    case 0x03 =>
      var rows :- ReadU16(d); var cols :- ReadU16(rows.rest); Got(Resize(rows.value, cols.value), cols.rest)
    case 0x04 => Got(Detach, d)
    case 0x05 => Got(NewWindow, d)
    case 0x06 => Got(NextWindow, d)
    case 0x07 => Got(PrevWindow, d)
    case 0x08 => var index :- ReadU8(d); Got(SelectWindow(index.value), index.rest)
    case 0x09 => Got(KillPane, d)
    case 0x0a => ReadNewSession(d)
    case 0x0b => Got(NextSession, d)
    case 0x0c => Got(PrevSession, d)
    case 0x0f => var name :- ReadText(d, Panic); Got(SelectSession(name.value), name.rest)
    case 0x0e => Got(KillSession, d)
    case 0x11 => var name :- ReadText(d, Panic); Got(RenameSession(name.value), name.rest)
    case 0x0d => Got(ListSessions, d)
    case 0x10 => Got(KillServer, d)
    case 0x12 => ReadNewWindowIn(d)
    case 0x13 => ReadCapture(d)
    case 0x14 => ReadSendKeys(d)
    case 0x1f => ReadSendEvent(d)
    case 0x15 => Got(GetLog, d)
    case 0x16 => ReadIdentifyControl(d)
    case 0x17 => var line :- ReadText(d, Panic); Got(ControlCommand(line.value), line.rest)
    case 0x18 => Got(Refresh, d)
    case 0x19 =>
      var pane :- ReadU32(d); var data :- ReadText(pane.rest, Eof); Got(TermOscReply(pane.value, data.value), data.rest)
    case 0x1a => ReadTermPalette(d)
    case 0x1b => var psk :- ReadText(d, Panic); Got(SetPsk(psk.value), psk.rest)
    case 0x1c => Got(ListPeers, d)
    case 0x1d => ReadRegister(d)
    case 0x1e => var addr :- ReadText(d, Eof); Got(RelayOpen(addr.value), addr.rest)
    case 0x20 => var dir :- ReadU8(d); Got(SplitPane(dir.value), dir.rest)
    case 0x21 => Got(FocusNext, d)
    case 0x22 => Got(FocusPrev, d)
    case 0x23 => var dir :- ReadU8(d); Got(FocusDir(dir.value), dir.rest)
    case 0x24 => Got(ToggleZoom, d)
    case 0x25 => Got(NextLayout, d)
    case 0x26 => var pane :- ReadU32(d); Got(FocusPane(pane.value), pane.rest)
    case _ => Bad(InvalidData)
  }

  // ---- Encoding ----

  function ClientTag(m: ClientMsg): u8 {
    match m
    case Identify(_, _, _, _, _) => 0x01
    case PaneInput(_) => 0x02
    case Resize(_, _) => 0x03
    case Detach => 0x04
    case NewWindow => 0x05
    case NextWindow => 0x06
    case PrevWindow => 0x07
    case SelectWindow(_) => 0x08
    case KillPane => 0x09
    case NewSession(_, _, _) => 0x0a
    case NextSession => 0x0b
    case PrevSession => 0x0c
    case SelectSession(_) => 0x0f
    case KillSession => 0x0e
    case RenameSession(_) => 0x11
    case ListSessions => 0x0d
    case KillServer => 0x10
    case NewWindowIn(_, _) => 0x12
    case CaptureWindow(_, _, _, _, _, _) => 0x13
    case SendKeys(_, _, _) => 0x14
    case SendEvent(_, _, _) => 0x1f
    case GetLog => 0x15
    case IdentifyControl(_, _, _) => 0x16
    case ControlCommand(_) => 0x17
    case Refresh => 0x18
    case TermOscReply(_, _) => 0x19
    case TermPalette(_, _) => 0x1a
    case SetPsk(_) => 0x1b
    case ListPeers => 0x1c
    case Register(_, _, _, _, _) => 0x1d
    case RelayOpen(_) => 0x1e
    case SplitPane(_) => 0x20
    case FocusNext => 0x21
    case FocusPrev => 0x22
    case FocusDir(_) => 0x23
    case ToggleZoom => 0x24
    case NextLayout => 0x25
    case FocusPane(_) => 0x26
  }

  function Sent(events: seq<InputEvent>): seq<InputEvent> {
    if |events| > MAX_EVENTS then events[..MAX_EVENTS] else events
  }

  /** `encode_client`, after the type tag. */
  function ClientBody(m: ClientMsg): Bytes {
    match m
    case Identify(rows, cols, attach, token, env) =>
      PutU16(rows, PutU16(cols, PutFlag(attach, PutText(token, PutCounted(PutEnvVar, env, [])))))
    case PaneInput(data) => data
    case Resize(rows, cols) => PutU16(rows, PutU16(cols, []))
    case SelectWindow(index) => PutU8(index, [])
    case NewSession(name, cwd, command) => PutMaybeText(name, PutMaybeText(cwd, PutMaybeText(command, [])))
    case SelectSession(name) => PutText(name, [])
    case RenameSession(name) => PutText(name, [])
    case NewWindowIn(session, command) => PutMaybeText(session, PutLastText(command))
    case CaptureWindow(session, window, format, colors, fg, bg) =>
      PutMaybeText(session, PutMaybeByte(window, PutU8(format, PutFlag(colors, PutPalette(fg, bg)))))
    case SendKeys(session, window, keys) => PutMaybeText(session, PutMaybeByte(window, PutText(keys, [])))
    case SendEvent(session, window, events) =>
      PutMaybeText(session, PutMaybeByte(window, PutU8(Min(|events|, MAX_EVENTS), PutList(PutEvent, Sent(events), []))))
    case IdentifyControl(rows, cols, token) => PutU16(rows, PutU16(cols, PutText(token, [])))
    case ControlCommand(line) => PutText(line, [])
    case TermOscReply(pane, data) => PutU32(pane, PutText(data, []))
    case TermPalette(fg, bg) => PutMaybeRgb(fg, PutMaybeRgb(bg, []))
    case SetPsk(psk) => PutText(psk, [])
    case Register(id, name, port, tls, fingerprint) =>
      PutText(id, PutText(name, PutU16(port, PutFlag(tls, PutText(fingerprint, [])))))
    case RelayOpen(addr) => PutText(addr, [])
    case SplitPane(dir) => PutU8(dir, [])
    case FocusDir(dir) => PutU8(dir, [])
    case FocusPane(pane) => PutU32(pane, [])
    case _ => []
  }

  predicate ShortMaybe(o: Option<Text>) { o.Some? ==> Short(o.value) }

  /** Every length fits the 32-bit field that carries it. */
  predicate ShortClient(m: ClientMsg) {
    match m
    case Identify(_, _, _, token, env) =>
      && Short(token) && |env| < 0x1_0000_0000
      && forall i :: 0 <= i < |env| ==> Short(env[i].key) && Short(env[i].value)
    case NewSession(name, cwd, command) => ShortMaybe(name) && ShortMaybe(cwd) && ShortMaybe(command)
    case SelectSession(name) => Short(name)
    case RenameSession(name) => Short(name)
    case NewWindowIn(session, command) => ShortMaybe(session) && ShortMaybe(command)
    case CaptureWindow(session, _, _, _, _, _) => ShortMaybe(session)
    case SendKeys(session, _, keys) => ShortMaybe(session) && Short(keys)
    case SendEvent(session, _, _) => ShortMaybe(session)
    case IdentifyControl(_, _, token) => Short(token)
    case ControlCommand(line) => Short(line)
    case TermOscReply(_, data) => Short(data)
    case SetPsk(psk) => Short(psk)
    case Register(id, name, _, _, fingerprint) => Short(id) && Short(name) && Short(fingerprint)
    case RelayOpen(addr) => Short(addr)
    case _ => true
  }

  /** The limits the decoder and the encoder set. */
  predicate InLimits(m: ClientMsg) {
    && (m.Identify? ==> |m.env| <= MAX_ENV)
    && (m.SendEvent? ==> |m.events| <= MAX_EVENTS)
  }

  // ---- The round trip ----

  ghost predicate Gives(r: Read<ClientMsg>, m: ClientMsg) { r.Got? && r.value == m }

  ghost predicate Decodes(m: ClientMsg, d: Bytes) { Gives(DecodeClientBody(ClientTag(m), d), m) }

  lemma {:induction false} ListLength<T>(read: Bytes -> Read<T>, n: nat, d: Bytes)
    ensures ReadList(read, n, d).Got? ==> |ReadList(read, n, d).value| == n
  {
    if n > 0 && read(d).Got? { ListLength(read, n - 1, read(d).rest); }
  }

  lemma EnvCount(d: Bytes, count: u32, n: nat, rest: Bytes)
    requires d == PutU32(count, rest) && n == Min(count, MAX_ENV)
    ensures ReadEnv(d) == ReadList(ReadEnvVar, n, rest)
  {
    assert ReadU32(d) == Got(count, rest);
  }

  lemma EnvListRoundTrip(env: seq<EnvVar>)
    requires forall i :: 0 <= i < |env| ==> Short(env[i].key) && Short(env[i].value)
    ensures ReadList(ReadEnvVar, |env|, PutList(PutEnvVar, env, [])) == Got(env, [])
  {
    forall i | 0 <= i < |env| ensures Inverse(PutEnvVar, ReadEnvVar, env[i]) { EnvVarInverse(env[i]); }
    ListRoundTrip(PutEnvVar, ReadEnvVar, env, []);
  }

  /** What is read of an environment list: at most 64 pairs. */
  lemma EnvCounted(env: seq<EnvVar>, n: nat)
    requires |env| < 0x1_0000_0000 && n == Min(|env|, MAX_ENV)
    ensures ReadEnv(PutCounted(PutEnvVar, env, [])) == ReadList(ReadEnvVar, n, PutList(PutEnvVar, env, []))
  {
    var d, rest := PutCounted(PutEnvVar, env, []), PutList(PutEnvVar, env, []);
    CountedIs(PutEnvVar, env, []);
    EnvCount(d, |env|, n, rest);
  }

  lemma EnvVarInverse(e: EnvVar)
    requires Short(e.key) && Short(e.value)
    ensures Inverse(PutEnvVar, ReadEnvVar, e)
  {
  }

  lemma EventInverse(e: InputEvent)
    ensures Inverse(PutEvent, ReadEvent, e)
  {
  }

  lemma EnvRoundTrip(env: seq<EnvVar>)
    requires |env| < 0x1_0000_0000
    requires forall i :: 0 <= i < |env| ==> Short(env[i].key) && Short(env[i].value)
    ensures var r := ReadEnv(PutCounted(PutEnvVar, env, []));
      if |env| <= MAX_ENV then r == Got(env, []) else r.Got? ==> r.value != env
  {
    var n := Min(|env|, MAX_ENV);
    EnvCounted(env, n);
    EnvListRoundTrip(env);
    ListLength(ReadEnvVar, n, PutList(PutEnvVar, env, []));
  }

  lemma IdentifyRoundTrip(m: ClientMsg)
    requires m.Identify? && ShortClient(m)
    ensures Gives(ReadIdentify(ClientBody(m)), m) <==> InLimits(m)
  {
    EnvRoundTrip(m.env);
  }

  lemma EventsCount(session: Option<Text>, window: Option<u8>, n: u8, rest: Bytes)
    requires ShortMaybe(session)
    ensures ReadSendEvent(PutMaybeText(session, PutMaybeByte(window, PutU8(n, rest)))) ==
      match ReadList(ReadEvent, n, rest)
      case Bad(fault) => Bad(fault)
      case Got(events, r) => Got(SendEvent(session, window, events), r)
  {
    var counted := PutU8(n, rest);
    var at := PutMaybeByte(window, counted);
    var d := PutMaybeText(session, at);
    assert ReadMaybeText(d, Panic) == Got(session, at);
    assert ReadMaybeByte(at, Panic) == Got(window, counted);
    assert ReadU8(counted) == Got(n, rest);
  }

  lemma SentRoundTrip(events: seq<InputEvent>)
    ensures ReadList(ReadEvent, Min(|events|, MAX_EVENTS), PutList(PutEvent, Sent(events), [])) == Got(Sent(events), [])
  {
    forall e: InputEvent ensures Inverse(PutEvent, ReadEvent, e) { EventInverse(e); }
    ListRoundTrip(PutEvent, ReadEvent, Sent(events), []);
  }

  lemma EventsRoundTrip(m: ClientMsg)
    requires m.SendEvent? && ShortClient(m)
    ensures ReadSendEvent(ClientBody(m)) == Got(m.(events := Sent(m.events)), [])
  {
    EventsCount(m.session, m.window, Min(|m.events|, MAX_EVENTS), PutList(PutEvent, Sent(m.events), []));
    SentRoundTrip(m.events);
  }

  lemma NewWindowRoundTrip(m: ClientMsg)
    requires ShortClient(m) && m.NewWindowIn?
    ensures Gives(ReadNewWindowIn(ClientBody(m)), m)
  {
  }

  lemma SendKeysRoundTrip(m: ClientMsg)
    requires ShortClient(m) && m.SendKeys?
    ensures Gives(ReadSendKeys(ClientBody(m)), m)
  {
    var keys := PutText(m.keys, []);
    var at := PutMaybeByte(m.window, keys);
    assert ReadMaybeText(PutMaybeText(m.session, at), Panic) == Got(m.session, at);
    assert ReadMaybeByte(at, Panic) == Got(m.window, keys);
  }

  lemma IdentifyControlRoundTrip(m: ClientMsg)
    requires ShortClient(m) && m.IdentifyControl?
    ensures Gives(ReadIdentifyControl(ClientBody(m)), m)
  {
  }

  lemma RegisterRoundTrip(m: ClientMsg)
    requires ShortClient(m) && m.Register?
    ensures Gives(ReadRegister(ClientBody(m)), m)
  {
  }

  lemma CaptureRoundTrip(m: ClientMsg)
    requires ShortClient(m) && m.CaptureWindow?
    ensures Gives(ReadCapture(ClientBody(m)), m)
  {
    var palette := PutPalette(m.termFg, m.termBg);
    var tail := PutU8(m.format, PutFlag(m.colors, palette));
    assert tail == [m.format, if m.colors then 1 else 0] + palette;
    assert tail[2..] == palette;
  }

  lemma PaletteRoundTrip(m: ClientMsg)
    requires m.TermPalette?
    ensures Gives(ReadTermPalette(ClientBody(m)), m)
  {
  }

  lemma IdentifyTag(d: Bytes)
    ensures DecodeClientBody(0x01, d) == ReadIdentify(d)
  {
  }

  lemma NewSessionTag(d: Bytes)
    ensures DecodeClientBody(0x0a, d) == ReadNewSession(d)
  {
  }

  lemma NewWindowInTag(d: Bytes)
    ensures DecodeClientBody(0x12, d) == ReadNewWindowIn(d)
  {
  }

  lemma CaptureTag(d: Bytes)
    ensures DecodeClientBody(0x13, d) == ReadCapture(d)
  {
  }

  lemma SendKeysTag(d: Bytes)
    ensures DecodeClientBody(0x14, d) == ReadSendKeys(d)
  {
  }

  lemma SendEventTag(d: Bytes)
    ensures DecodeClientBody(0x1f, d) == ReadSendEvent(d)
  {
  }

  lemma IdentifyControlTag(d: Bytes)
    ensures DecodeClientBody(0x16, d) == ReadIdentifyControl(d)
  {
  }

  lemma TermPaletteTag(d: Bytes)
    ensures DecodeClientBody(0x1a, d) == ReadTermPalette(d)
  {
  }

  lemma RegisterTag(d: Bytes)
    ensures DecodeClientBody(0x1d, d) == ReadRegister(d)
  {
  }

  predicate IsLong(m: ClientMsg) {
    m.Identify? || m.NewWindowIn? || m.CaptureWindow? || m.SendKeys? || m.SendEvent? || m.IdentifyControl?
    || m.TermPalette? || m.Register?
  }

  lemma LongMessages(m: ClientMsg)
    requires ShortClient(m) && IsLong(m)
    ensures Decodes(m, ClientBody(m)) <==> InLimits(m)
  {
    var d := ClientBody(m);
    if m.Identify? {
      IdentifyTag(d);
      IdentifyRoundTrip(m);
    } else if m.SendEvent? {
      SendEventTag(d);
      EventsRoundTrip(m);
    } else if m.CaptureWindow? {
      CaptureTag(d);
      CaptureRoundTrip(m);
    } else if m.TermPalette? {
      TermPaletteTag(d);
      PaletteRoundTrip(m);
    } else {
      WindowMessages(m);
    }
  }

  lemma WindowMessages(m: ClientMsg)
    requires ShortClient(m) && (m.NewWindowIn? || m.SendKeys? || m.IdentifyControl? || m.Register?)
    ensures Decodes(m, ClientBody(m))
  {
    var d := ClientBody(m);
    if m.NewWindowIn? {
      NewWindowInTag(d);
      NewWindowRoundTrip(m);
    } else if m.SendKeys? {
      SendKeysTag(d);
      SendKeysRoundTrip(m);
    } else if m.IdentifyControl? {
      IdentifyControlTag(d);
      IdentifyControlRoundTrip(m);
    } else {
      RegisterTag(d);
      RegisterRoundTrip(m);
    }
  }

  predicate IsText(m: ClientMsg) {
    m.SelectSession? || m.RenameSession? || m.ControlCommand? || m.SetPsk? || m.RelayOpen? || m.TermOscReply?
  }

  lemma SessionMessages(m: ClientMsg)
    requires ShortClient(m) && (m.SelectSession? || m.RenameSession? || m.TermOscReply?)
    ensures Decodes(m, ClientBody(m))
  {
  }

  lemma LineMessages(m: ClientMsg)
    requires ShortClient(m) && (m.ControlCommand? || m.SetPsk? || m.RelayOpen?)
    ensures Decodes(m, ClientBody(m))
  {
  }

  predicate IsNumber(m: ClientMsg) {
    m.Resize? || m.SelectWindow? || m.SplitPane? || m.FocusDir? || m.FocusPane? || m.PaneInput?
  }

  lemma NumberMessages(m: ClientMsg)
    requires IsNumber(m)
    ensures Decodes(m, ClientBody(m))
  {
  }

  lemma BareMessages(m: ClientMsg)
    requires !IsLong(m) && !IsText(m) && !IsNumber(m) && !m.NewSession?
    ensures Decodes(m, ClientBody(m))
  {
  }

  /** Every client message but `NewSession` decodes to itself exactly within the limits. */
  lemma ClientRoundTrip(m: ClientMsg)
    requires ShortClient(m) && !m.NewSession?
    ensures Decodes(m, ClientBody(m)) <==> InLimits(m)
  {
    if IsLong(m) {
      LongMessages(m);
    } else if IsText(m) {
      if m.SelectSession? || m.RenameSession? || m.TermOscReply? { SessionMessages(m); } else { LineMessages(m); }
    } else if IsNumber(m) {
      NumberMessages(m);
    } else {
      BareMessages(m);
    }
  }

  // ---- NewSession ----

  /** What the source puts in an optional text: no NUL, and far below 16 MB. */
  predicate Plain(o: Option<Text>) {
    o.Some? ==> |o.value| < 0x101_0101 && forall i :: 0 <= i < |o.value| ==> o.value[i] != 0
  }

  predicate Blank(o: Option<Text>) { o == None || o == Some([]) }

  /** The field itself is read correctly; the cursor stays in front of its text. */
  lemma StayReads(o: Option<Text>, rest: Bytes)
    requires ShortMaybe(o)
    ensures ReadStay(PutMaybeText(o, rest)) == Got(o, if o.Some? then o.value + rest else rest)
  {
    if o.Some? { assert (o.value + rest)[..|o.value|] == o.value; }
  }

  /** The four length bytes that follow a marker. */
  lemma LengthBytes(t: Text, rest: Bytes)
    requires |t| < 0x101_0101
    ensures var d := PutMaybeText(Some(t), rest);
      |d| >= 5 && d[0] == 1 && d[1] + 0x100 * d[2] as int + 0x1_0000 * d[3] as int + 0x100_0000 * d[4] as int == |t|
  {
    var d := PutMaybeText(Some(t), rest);
    assert d == PutU8(1, PutText(t, rest));
    assert d[1..] == PutText(t, rest);
    assert ReadU32(d[1..]) == Got(|t|, t + rest);
  }

  /** A length read one to five bytes too early is at least 0x01010101. */
  lemma EarlyLength(s: Text, t: Text, rest: Bytes)
    requires s != [] && (forall i :: 0 <= i < |s| ==> s[i] != 0) && |t| < 0x101_0101
    ensures var d := s + PutMaybeText(Some(t), rest);
      |d| >= 5 && d[1] + 0x100 * d[2] as int + 0x1_0000 * d[3] as int + 0x100_0000 * d[4] as int != |t|
  {
    var field := PutMaybeText(Some(t), rest);
    var n := |s|;
    LengthBytes(t, rest);
    EarlyBytes(s, field);
    var d := s + field;
    if d[1] + 0x100 * d[2] as int + 0x1_0000 * d[3] as int + 0x100_0000 * d[4] as int == |t| {
      SameBytes(d[1], d[2], d[3], d[4], field[1], field[2], field[3], field[4]);
      assert false;
    }
  }

  lemma SameBytes(a: u8, b: u8, c: u8, d: u8, p: u8, q: u8, r: u8, s: u8)
    requires a + 0x100 * b as int + 0x1_0000 * c as int + 0x100_0000 * d as int
          == p + 0x100 * q as int + 0x1_0000 * r as int + 0x100_0000 * s as int
    ensures a == p && b == q && c == r && d == s
  {
    LowByte(a, p, b + 0x100 * c as int + 0x1_0000 * d as int, q + 0x100 * r as int + 0x1_0000 * s as int);
    LowByte(b, q, c + 0x100 * d as int, r + 0x100 * s as int);
    LowByte(c, r, d, s);
  }

  lemma LowByte(a: u8, b: u8, high: nat, high': nat)
    requires a + 0x100 * high == b + 0x100 * high'
    ensures a == b && high == high'
  {
  }

  /** The bytes after the first: the rest of the text, then the field. */
  lemma EarlyBytes(s: Text, field: Bytes)
    requires s != [] && |field| >= 5
    ensures var d, n := s + field, |s|;
      forall i :: 1 <= i < 5 ==> d[i] == if i < n then s[i] else field[i - n]
  {
  }

  /** With the cursor in front of a nonempty text, the next field is misread. */
  lemma StayMisreads(s: Text, o: Option<Text>, rest: Bytes)
    requires s != [] && (forall i :: 0 <= i < |s| ==> s[i] != 0) && Plain(o)
    ensures var r := ReadStay(s + PutMaybeText(o, rest)); !(r.Got? && r.value == o)
  {
    var d := s + PutMaybeText(o, rest);
    assert d[0] == s[0];
    if o.Some? {
      EarlyLength(s, o.value, rest);
      assert d[1..][0] == d[1] && d[1..][1] == d[2] && d[1..][2] == d[3] && d[1..][3] == d[4];
    }
  }

  /** A misread second field spoils the message. */
  lemma SecondFieldLost(d: Bytes, m: ClientMsg)
    requires m.NewSession? && ReadStay(d).Got?
    requires var r := ReadStay(ReadStay(d).rest); !(r.Got? && r.value == m.cwd)
    ensures !Gives(ReadNewSession(d), m)
  {
  }

  lemma ThirdFieldLost(d: Bytes, at: Bytes, m: ClientMsg)
    requires m.NewSession? && ReadStay(d).Got? && ReadStay(ReadStay(d).rest).Got?
    requires at == ReadStay(ReadStay(d).rest).rest
    requires !(ReadStay(at).Got? && ReadStay(at).value == m.command)
    ensures !Gives(ReadNewSession(d), m)
  {
  }

  /** Two fields in a row, the first a plain text that is not empty: the second is misread. */
  lemma NextFieldLost(s: Text, o: Option<Text>, rest: Bytes, d: Bytes)
    requires s != [] && Plain(Some(s)) && Plain(o) && d == PutMaybeText(Some(s), PutMaybeText(o, rest))
    ensures ReadStay(d) == Got(Some(s), s + PutMaybeText(o, rest))
    ensures var r := ReadStay(s + PutMaybeText(o, rest)); !(r.Got? && r.value == o)
  {
    StayReads(Some(s), PutMaybeText(o, rest));
    StayMisreads(s, o, rest);
  }

  /** The three fields of a message, encoded. */
  function SessionFields(m: ClientMsg): Bytes
    requires m.NewSession?
  {
    PutMaybeText(m.name, PutMaybeText(m.cwd, PutMaybeText(m.command, [])))
  }

  lemma NameLost(m: ClientMsg, d: Bytes)
    requires m.NewSession? && Plain(m.name) && Plain(m.cwd) && !Blank(m.name) && d == SessionFields(m)
    ensures !Gives(ReadNewSession(d), m)
  {
    NextFieldLost(m.name.value, m.cwd, PutMaybeText(m.command, []), d);
    SecondFieldLost(d, m);
  }

  lemma BlankStays(o: Option<Text>, rest: Bytes)
    requires Blank(o)
    ensures ReadStay(PutMaybeText(o, rest)) == Got(o, rest)
  {
    StayReads(o, rest);
    if o.Some? { assert o.value + rest == rest; }
  }

  lemma CwdLost(m: ClientMsg, d: Bytes)
    requires m.NewSession? && Plain(m.cwd) && Plain(m.command) && Blank(m.name) && !Blank(m.cwd)
    requires d == SessionFields(m)
    ensures !Gives(ReadNewSession(d), m)
  {
    var last := PutMaybeText(m.command, []);
    var second := PutMaybeText(m.cwd, last);
    BlankStays(m.name, second);
    NextFieldLost(m.cwd.value, m.command, [], second);
    ThirdFieldLost(d, m.cwd.value + last, m);
  }

  lemma BothBlank(m: ClientMsg, d: Bytes)
    requires m.NewSession? && Blank(m.name) && Blank(m.cwd) && ShortMaybe(m.command) && d == SessionFields(m)
    ensures Gives(ReadNewSession(d), m)
  {
    var last := PutMaybeText(m.command, []);
    var second := PutMaybeText(m.cwd, last);
    BlankStays(m.name, second);
    BlankStays(m.cwd, last);
    StayReads(m.command, []);
    FieldsRead(d, m, second, last, if m.command.Some? then m.command.value + [] else []);
  }

  lemma FieldsRead(d: Bytes, m: ClientMsg, at1: Bytes, at2: Bytes, at3: Bytes)
    requires m.NewSession? && ReadStay(d) == Got(m.name, at1)
    requires ReadStay(at1) == Got(m.cwd, at2) && ReadStay(at2) == Got(m.command, at3)
    ensures ReadNewSession(d) == Got(m, at3)
  {
  }

  /** The decoder does not move past `name` and `cwd`: the message survives when both are
      absent or empty and, unless a text holds a NUL or is huge, only then. */
  lemma NewSessionExact(m: ClientMsg)
    requires m.NewSession? && ShortClient(m)
    ensures Blank(m.name) && Blank(m.cwd) ==> Decodes(m, ClientBody(m))
    ensures Plain(m.name) && Plain(m.cwd) && Plain(m.command) && Decodes(m, ClientBody(m)) ==>
      Blank(m.name) && Blank(m.cwd)
  {
    var d := ClientBody(m);
    NewSessionTag(d);
    if Blank(m.name) && Blank(m.cwd) {
      BothBlank(m, d);
    } else if Plain(m.name) && Plain(m.cwd) && Plain(m.command) {
      if Blank(m.name) { CwdLost(m, d); } else { NameLost(m, d); }
    }
  }

  lemma NulNameReads(m: ClientMsg, d: Bytes)
    requires m.NewSession? && m.name == Some([0]) && m.cwd == None && m.command == None && d == SessionFields(m)
    ensures Gives(ReadNewSession(d), m)
  {
    var rest := PutMaybeText(m.cwd, PutMaybeText(m.command, []));
    StayReads(m.name, rest);
    AbsentStays(rest);
    AbsentStays([0]);
    assert rest == [0] + [0];
    FieldsRead(d, m, [0] + rest, rest, [0]);
  }

  lemma AbsentStays(rest: Bytes)
    ensures ReadStay([0] + rest) == Got(None, rest)
  {
  }

  /** A NUL can be misread as the absent field that follows: this name survives. */
  lemma NulNameSurvives()
    ensures var m := NewSession(Some([0]), None, None); Decodes(m, ClientBody(m))
  {
    var m := NewSession(Some([0]), None, None);
    var d := ClientBody(m);
    NewSessionTag(d);
    NulNameReads(m, d);
  }
}
