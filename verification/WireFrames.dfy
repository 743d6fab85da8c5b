/** Framing: a 32-bit length, a type tag and data (src/proto/mod.rs), and the client's receive
    buffer (src/client/mod.rs, `try_parse_server_frame`). */
module WireFrames {
  import opened Ints
  import opened Slices
  import opened Wrappers
  import opened Streams
  import opened Wire
  import opened WireServer
  import Client = WireClient

  // ---- Frames ----

  /** `frame`: the length is written as `len as u32`. */
  function Frame(payload: Bytes, rest: Bytes): Bytes {
    PutU32(|payload| % 0x1_0000_0000, payload + rest)
  }

  /** `read_frame` on a blocking stream: the payload, tag first. */
  function ReadFrame(d: Bytes): Read<Bytes> {
    var len :- ReadU32(d);
    if len.value == 0 then Bad(InvalidData) else ReadBytes(len.rest, len.value, Eof)
  }

  lemma FrameRoundTrip(payload: Bytes, rest: Bytes)
    requires 0 < |payload| < 0x1_0000_0000
    ensures ReadFrame(Frame(payload, rest)) == Got(payload, rest)
  {
    assert (payload + rest)[..|payload|] == payload && (payload + rest)[|payload|..] == rest;
  }

  /** On the wire a frame is the payload's length, lowest byte first, and the payload. */
  lemma FrameSpells(payload: Bytes, rest: Bytes)
    requires |payload| < 0x1_0000_0000
    ensures var d := Frame(payload, rest);
      |d| == 4 + |payload| + |rest| && LowestFirst(d[..4]) == |payload| && d[4..] == payload + rest
  {
    FourBytes(|payload|, payload + rest);
  }

  function EncodeClient(m: Client.ClientMsg): Bytes {
    Frame([Client.ClientTag(m)] + Client.ClientBody(m), [])
  }

  /** `decode_client` on a stream. */
  function DecodeClient(d: Bytes): Read<Client.ClientMsg> {
    var p :- ReadFrame(d);
    match Client.DecodeClientBody(p.value[0], p.value[1..])
    case Bad(fault) => Bad(fault)
    case Got(m, _) => Got(m, p.rest)
  }

  /** The server reads back what the client sent, and stops exactly at the end of its frame. */
  lemma ClientStreamRoundTrip(m: Client.ClientMsg, rest: Bytes)
    requires Client.ShortClient(m) && |Client.ClientBody(m)| < 0xffff_ffff
    requires Client.Decodes(m, Client.ClientBody(m))
    ensures DecodeClient(EncodeClient(m) + rest) == Got(m, rest)
  {
    var payload := [Client.ClientTag(m)] + Client.ClientBody(m);
    FrameRoundTrip(payload, rest);
    FrameAppend(payload, rest);
    assert payload[1..] == Client.ClientBody(m);
  }

  lemma FrameAppend(payload: Bytes, rest: Bytes)
    ensures Frame(payload, []) + rest == Frame(payload, rest)
  {
    assert payload + [] == payload;
  }

  // ---- The receive buffer ----

  /** A whole frame at the front of the buffer, if there is one. */
  function FrameStep(data: Bytes): Step<Bytes> {
    if |data| < 4 then Hold
    else
      var len := ReadU32(data).value;
      if |data| < 4 + len then Hold else Take(4 + len, data[4..4 + len])
  }

  lemma FramesStable()
    ensures Stable(FrameStep)
  {
    forall data: Bytes ensures Settled(FrameStep, data) {
      if Proper(FrameStep, data).Take? {
        forall more: Bytes ensures Proper(FrameStep, data + more) == Proper(FrameStep, data) {
          StepStable(data, more);
        }
      }
    }
  }

  lemma StepStable(data: Bytes, more: Bytes)
    requires FrameStep(data).Take?
    ensures FrameStep(data + more) == FrameStep(data)
  {
    var all, n := data + more, 4 + ReadU32(data).value;
    assert all[0] == data[0] && all[1] == data[1] && all[2] == data[2] && all[3] == data[3];
    assert all[4..n] == data[4..n];
  }

  /** `decode_server` on one frame's payload. */
  function DecodePayload(payload: Bytes): Read<ServerMsg> {
    if payload == [] then Bad(InvalidData) else DecodeServerBody(payload[0], payload[1..])
  }

  function Payload(m: ServerMsg): (p: Bytes)
    ensures p != []
  {
    [ServerTag(m)] + ServerBody(m)
  }

  function EncodeServer(m: ServerMsg): Bytes { Frame(Payload(m), []) }

  function EncodeAll(ms: seq<ServerMsg>): Bytes {
    if ms == [] then [] else EncodeServer(ms[0]) + EncodeAll(ms[1..])
  }

  /** What the wire format can carry. */
  predicate Sendable(m: ServerMsg) {
    ShortServer(m) && FlagsMatch(m) && |Payload(m)| < 0x1_0000_0000
  }

  type Decoder = Bytes -> Read<ServerMsg>

  /** The messages of complete frames, up to the first that does not decode. */
  function Messages(decode: Decoder, frames: seq<Piece<Bytes>>): seq<ServerMsg> {
    if frames == [] then []
    else
      match decode(frames[0].what)
      case Bad(_) => []
      case Got(m, _) => [m] + Messages(decode, frames[1..])
  }

  predicate AllDecode(decode: Decoder, frames: seq<Piece<Bytes>>) {
    forall i :: 0 <= i < |frames| ==> decode(frames[i].what).Got?
  }

  /** The server-message decoder; proofs about the receive loop need not look inside it. */
  ghost predicate DecodesLike(decode: Decoder) {
    forall payload: Bytes {:trigger DecodePayload(payload)} :: decode(payload) == DecodePayload(payload)
  }

  function FramesOf(ms: seq<ServerMsg>): seq<Piece<Bytes>> {
    if ms == [] then [] else [Piece(EncodeServer(ms[0]), Payload(ms[0]))] + FramesOf(ms[1..])
  }

  lemma PayloadDecodes(m: ServerMsg)
    requires Sendable(m)
    ensures DecodePayload(Payload(m)).Got? && DecodePayload(Payload(m)).value == m
  {
    ServerRoundTrip(m);
    assert Payload(m)[1..] == ServerBody(m);
  }

  lemma FrameTaken(m: ServerMsg, rest: Bytes)
    requires Sendable(m)
    ensures Proper(FrameStep, EncodeServer(m) + rest) == Take(|EncodeServer(m)|, Payload(m))
  {
    TakeFrame(Payload(m), rest);
  }

  lemma TakeFrame(p: Bytes, rest: Bytes)
    requires |p| < 0x1_0000_0000
    ensures FrameStep(Frame(p, []) + rest) == Take(4 + |p|, p)
    ensures |Frame(p, [])| == 4 + |p|
  {
    FrameAppend(p, rest);
    var d := Frame(p, rest);
    assert ReadU32(d) == Got(|p|, p + rest);
    assert d[4..4 + |p|] == d[4..][..|p|] == (p + rest)[..|p|] == p;
  }

  /** A stream of encoded messages is cut back into exactly their frames. */
  lemma {:induction false} StreamOfFrames(ms: seq<ServerMsg>)
    requires forall i :: 0 <= i < |ms| ==> Sendable(ms[i])
    ensures Scan(FrameStep, EncodeAll(ms)) == Scanned(FramesOf(ms), [])
  {
    if ms != [] {
      var first, rest := EncodeServer(ms[0]), EncodeAll(ms[1..]);
      FrameTaken(ms[0], rest);
      StreamOfFrames(ms[1..]);
      assert (first + rest)[..|first|] == first && (first + rest)[|first|..] == rest;
      ScanTakes(FrameStep, first + rest, Piece(first, Payload(ms[0])));
    }
  }

  lemma {:induction false} FramesDecodeWith(decode: Decoder, ms: seq<ServerMsg>)
    requires forall i :: 0 <= i < |ms| ==> DecodesTo(decode, ms[i])
    ensures AllDecode(decode, FramesOf(ms)) && Messages(decode, FramesOf(ms)) == ms
  {
    if ms != [] {
      var f, rest := Piece(EncodeServer(ms[0]), Payload(ms[0])), FramesOf(ms[1..]);
      FramesDecodeWith(decode, ms[1..]);
      assert DecodesTo(decode, ms[0]);
      MessagesFront(decode, f, rest);
      assert ms == [ms[0]] + ms[1..];
    }
  }

  predicate DecodesTo(decode: Decoder, m: ServerMsg) {
    var r := decode(Payload(m));
    r.Got? && r.value == m
  }

  lemma FramesDecode(ms: seq<ServerMsg>)
    requires forall i :: 0 <= i < |ms| ==> Sendable(ms[i])
    ensures AllDecode(DecodePayload, FramesOf(ms)) && Messages(DecodePayload, FramesOf(ms)) == ms
  {
    forall i | 0 <= i < |ms| ensures DecodesTo(DecodePayload, ms[i]) { PayloadDecodes(ms[i]); }
    FramesDecodeWith(DecodePayload, ms);
  }

  /** Any list of messages, encoded, concatenated and cut anyhow, comes out as that list, and
      the buffer ends up empty. */
  lemma ChunkedStream(ms: seq<ServerMsg>, chunks: seq<Bytes>)
    requires forall i :: 0 <= i < |ms| ==> Sendable(ms[i])
    requires Concat(chunks) == EncodeAll(ms)
    ensures var s := ScanChunks(FrameStep, chunks);
      AllDecode(DecodePayload, s.pieces) && Messages(DecodePayload, s.pieces) == ms && s.tail == []
  {
    FramesStable();
    forall k | 0 <= k < |chunks| ensures SettledAlong(FrameStep, Concat(chunks[..k])) {
      StableAlong(FrameStep, Concat(chunks[..k]));
    }
    ChunksDoNotMatter(FrameStep, chunks);
    StreamOfFrames(ms);
    FramesDecode(ms);
  }

  datatype Parse = NeedMore | Message(msg: ServerMsg) | Failed(fault: Fault)

  function ParseResult(decode: Decoder, s: Step<Bytes>): Parse {
    match s
    case Hold => NeedMore
    case Take(_, payload) =>
      match decode(payload)
      case Got(m, _) => Message(m)
      case Bad(fault) => Failed(fault)
  }

  class ReceiveBuffer {
    var buf: Bytes

    constructor ()
      ensures buf == []
    {
      buf := [];
    }

    /** `try_parse_server_frame`: take a whole frame off the front, or leave the buffer alone. */
    method TryParse() returns (r: Parse)
      modifies this
      ensures var s := Proper(FrameStep, old(buf));
        r == ParseResult(DecodePayload, s) && buf == if s.Hold? then old(buf) else old(buf)[s.used..]
    {
      r := TryParseAs(DecodePayload);
    }

    method TryParseAs(ghost decode: Decoder) returns (r: Parse)
      requires DecodesLike(decode)
      modifies this
      ensures var s := Proper(FrameStep, old(buf));
        r == ParseResult(decode, s) && buf == if s.Hold? then old(buf) else old(buf)[s.used..]
    {
      if |buf| < 4 { return NeedMore; }
      var size: nat := 4 + ReadU32(buf).value;
      if |buf| < size { return NeedMore; }
      var payload := buf[..size][4..];
      buf := buf[size..];
      assert decode(payload) == DecodePayload(payload);
      match DecodePayload(payload) {
        case Got(m, _) => return Message(m);
        case Bad(fault) => return Failed(fault);
      }
    }

    /** Take every complete message; a frame that does not decode ends the connection. */
    method Drain() returns (msgs: seq<ServerMsg>, ok: bool)
      modifies this
      ensures Drained(DecodePayload, Scan(FrameStep, old(buf)), msgs, ok, buf)
    {
      msgs, ok := DrainAs(DecodePayload);
    }

    method DrainAs(ghost decode: Decoder) returns (msgs: seq<ServerMsg>, ok: bool)
      requires DecodesLike(decode)
      modifies this
      ensures Drained(decode, Scan(FrameStep, old(buf)), msgs, ok, buf)
    {
      msgs := [];
      ghost var s := Scan(FrameStep, buf);
      PartlyNone(decode, s);
      while true
        invariant Partly(decode, s, msgs, Scan(FrameStep, buf))
        decreases |buf|
      {
        ghost var before := buf;
        var r := TryParseAs(decode);
        DrainStep(decode, s, msgs, before);
        match r {
          case NeedMore => return msgs, true;
          case Failed(_) => return msgs, false;
          case Message(m) => msgs := msgs + [m];
        }
      }
    }

    /** Read chunk after chunk from the socket, draining the buffer after each. */
    method ReceiveAll(chunks: seq<Bytes>) returns (msgs: seq<ServerMsg>, ok: bool)
      requires buf == []
      modifies this
      ensures Received(DecodePayload, ScanChunks(FrameStep, chunks), msgs, ok, buf)
    {
      msgs, ok := ReceiveAllAs(DecodePayload, chunks);
    }

    method ReceiveAllAs(ghost decode: Decoder, chunks: seq<Bytes>) returns (msgs: seq<ServerMsg>, ok: bool)
      requires buf == [] && DecodesLike(decode)
      modifies this
      ensures Received(decode, ScanChunks(FrameStep, chunks), msgs, ok, buf)
    {
      msgs, ok := [], true;
      for k := 0 to |chunks|
        invariant ok && Received(decode, ScanChunks(FrameStep, chunks[..k]), msgs, ok, buf)
      {
        ghost var s := ScanChunks(FrameStep, chunks[..k]);
        buf := buf + chunks[k];
        ghost var before := buf;
        var more: seq<ServerMsg>;
        more, ok := DrainAs(decode);
        ReceiveStep(decode, chunks, k, msgs, before, more, ok, buf);
        msgs := msgs + more;
        if !ok {
          ReceiveFailed(decode, chunks, k + 1, msgs, buf);
          return;
        }
      }
      assert chunks[..|chunks|] == chunks;
    }

    /** Whatever the cuts, exactly the messages sent are received, and nothing is left over. */
    method Receive(chunks: seq<Bytes>, ghost sent: seq<ServerMsg>) returns (msgs: seq<ServerMsg>, ok: bool)
      requires buf == [] && Concat(chunks) == EncodeAll(sent)
      requires forall i :: 0 <= i < |sent| ==> Sendable(sent[i])
      modifies this
      ensures ok && msgs == sent && buf == []
    {
      ChunkedStream(sent, chunks);
      msgs, ok := ReceiveAll(chunks);
    }
  }

  /** What draining a buffer yields. */
  ghost predicate Drained(decode: Decoder, s: Scanned<Bytes>, msgs: seq<ServerMsg>, ok: bool, buf: Bytes) {
    msgs == Messages(decode, s.pieces) && (ok <==> AllDecode(decode, s.pieces)) && (ok ==> buf == s.tail)
  }

  /** Some messages are taken; `t` is the scan of what is still in the buffer. */
  ghost predicate Partly(decode: Decoder, s: Scanned<Bytes>, msgs: seq<ServerMsg>, t: Scanned<Bytes>) {
    && s.tail == t.tail && Messages(decode, s.pieces) == msgs + Messages(decode, t.pieces)
    && (AllDecode(decode, s.pieces) <==> AllDecode(decode, t.pieces))
  }

  lemma PartlyNone(decode: Decoder, s: Scanned<Bytes>)
    ensures Partly(decode, s, [], s)
  {
    assert [] + Messages(decode, s.pieces) == Messages(decode, s.pieces);
  }

  lemma DrainStep(decode: Decoder, s: Scanned<Bytes>, msgs: seq<ServerMsg>, d: Bytes)
    requires Partly(decode, s, msgs, Scan(FrameStep, d))
    ensures var step := Proper(FrameStep, d);
      match ParseResult(decode, step)
      case NeedMore => Drained(decode, s, msgs, true, d)
      case Failed(_) => step.Take? && Drained(decode, s, msgs, false, d[step.used..])
      case Message(m) => step.Take? && Partly(decode, s, msgs + [m], Scan(FrameStep, d[step.used..]))
  {
    var step := Proper(FrameStep, d);
    assert msgs + [] == msgs;
    if step.Take? {
      var p, u := Piece(d[..step.used], step.what), Scan(FrameStep, d[step.used..]);
      ScanTakes(FrameStep, d, p);
      MessagesFront(decode, p, u.pieces);
      var r := decode(p.what);
      if r.Got? { Assoc(msgs, [r.value], Messages(decode, u.pieces)); }
    }
  }

  /** What receiving a run of chunks yields: everything, as long as every frame decodes. */
  ghost predicate Received(decode: Decoder, s: Scanned<Bytes>, msgs: seq<ServerMsg>, ok: bool, buf: Bytes) {
    && (ok <==> AllDecode(decode, s.pieces))
    && (ok ==> msgs == Messages(decode, s.pieces) && buf == s.tail)
  }

  lemma ReceiveStep(decode: Decoder, chunks: seq<Bytes>, k: nat, msgs: seq<ServerMsg>, before: Bytes,
      more: seq<ServerMsg>, ok: bool, buf: Bytes)
    requires k < |chunks|
    requires var s := ScanChunks(FrameStep, chunks[..k]);
      Received(decode, s, msgs, true, s.tail) && before == s.tail + chunks[k]
    requires Drained(decode, Scan(FrameStep, before), more, ok, buf)
    ensures Received(decode, ScanChunks(FrameStep, chunks[..k + 1]), msgs + more, ok, buf)
  {
    var s := ScanChunks(FrameStep, chunks[..k]);
    assert chunks[..k + 1][..k] == chunks[..k];
    MessagesAppend(decode, s.pieces, Scan(FrameStep, before).pieces);
  }

  /** A frame that does not decode stays one, whatever is received after it. */
  lemma ReceiveFailed(decode: Decoder, chunks: seq<Bytes>, k: nat, msgs: seq<ServerMsg>, buf: Bytes)
    requires k <= |chunks| && Received(decode, ScanChunks(FrameStep, chunks[..k]), msgs, false, buf)
    ensures Received(decode, ScanChunks(FrameStep, chunks), msgs, false, buf)
  {
    PiecesGrow(chunks, k);
    var some, all := ScanChunks(FrameStep, chunks[..k]).pieces, ScanChunks(FrameStep, chunks).pieces;
    var i :| 0 <= i < |some| && decode(some[i].what).Bad?;
    assert all[i] == some[i];
  }

  lemma MessagesFront(decode: Decoder, p: Piece<Bytes>, rest: seq<Piece<Bytes>>)
    ensures var r := decode(p.what);
      && Messages(decode, [p] + rest) == (if r.Got? then [r.value] + Messages(decode, rest) else [])
      && (AllDecode(decode, [p] + rest) <==> r.Got? && AllDecode(decode, rest))
  {
    var all := [p] + rest;
    assert all[1..] == rest;
    assert forall i :: 0 <= i < |rest| ==> all[i + 1] == rest[i];
    if decode(p.what).Got? && AllDecode(decode, rest) {
      forall i | 0 <= i < |all| ensures decode(all[i].what).Got? {
        if i > 0 { assert all[i] == rest[i - 1]; }
      }
    }
  }

  lemma {:induction false} MessagesAppend(decode: Decoder, a: seq<Piece<Bytes>>, b: seq<Piece<Bytes>>)
    requires AllDecode(decode, a)
    ensures Messages(decode, a + b) == Messages(decode, a) + Messages(decode, b)
    ensures AllDecode(decode, a + b) <==> AllDecode(decode, b)
    decreases |a|
  {
    if a == [] {
      assert a + b == b;
      assert [] + Messages(decode, b) == Messages(decode, b);
    } else {
      var p, rest := a[0], a[1..];
      MessagesAppend(decode, rest, b);
      assert a == [p] + rest;
      MessagesFront(decode, p, rest);
      MessagesFront(decode, p, rest + b);
      Assoc([p], rest, b);
      Assoc([decode(p.what).value], Messages(decode, rest), Messages(decode, b));
    }
  }

  lemma {:induction false} PiecesGrow(chunks: seq<Bytes>, k: nat)
    requires k <= |chunks|
    ensures ScanChunks(FrameStep, chunks[..k]).pieces <= ScanChunks(FrameStep, chunks).pieces
    decreases |chunks|
  {
    if k < |chunks| {
      PiecesGrow(chunks[..|chunks| - 1], k);
      assert chunks[..|chunks| - 1][..k] == chunks[..k];
    } else {
      assert chunks[..k] == chunks;
    }
  }
}
