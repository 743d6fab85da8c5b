/** The streaming mouse decoder (src/client/mouse.rs, `Decoder`). */
module MouseDecoder {
  import opened Ints
  import opened Slices
  import opened Wrappers
  import opened Streams
  import opened MouseReports

  const MAX_PENDING := 64

  /** A piece of input: a whole report, or (None) a byte passed on. */
  type Token = Piece<Option<Event>>

  type Tokens = Scanned<Option<Event>>

  predicate IsKey(what: Option<Event>) { what.None? }

  function Keys(tokens: seq<Token>): Bytes { Kept(tokens, IsKey) }

  function Events(tokens: seq<Token>): seq<Event> {
    if tokens == [] then []
    else
      var last := tokens[|tokens| - 1];
      Events(tokens[..|tokens| - 1]) + if last.what.Some? then [last.what.value] else []
  }

  // ---- The scan ----

  /** A lone ESC or ESC [ at the end may still become a report. */
  predicate MayStart(data: Bytes) {
    data == [ESC] || data == [ESC, BRACKET]
  }

  /** What the scan does with the front of nonempty data. */
  function FirstStep(data: Bytes): Step<Option<Event>> {
    if StartsReport(data) then
      match ReadReport(data)
      case Some(p) => Take(p.used, Some(p.value))
      case None => Hold
    else if MayStart(data) then Hold
    else Take(1, None)
  }

  function ScanMouse(data: Bytes): Tokens { Scan(FirstStep, data) }

  /** A step taken is taken whatever follows. */
  lemma FirstStepStable(data: Bytes)
    ensures Settled(FirstStep, data)
  {
    if Proper(FirstStep, data).Take? {
      forall more: Bytes ensures Proper(FirstStep, data + more) == Proper(FirstStep, data) {
        assert forall k :: 0 <= k < |data| ==> (data + more)[k] == data[k];
        if StartsReport(data) { ReadReportStable(data, more); }
      }
    }
  }

  lemma MouseStable()
    ensures Stable(FirstStep)
  {
    forall data: Bytes ensures Settled(FirstStep, data) { FirstStepStable(data); }
  }

  // ---- Feeding ----

  /** One feed of an active decoder: an overlong tail gives up its oldest byte. */
  function Fed(pending: Bytes, input: Bytes): Tokens {
    Capped(ScanMouse(pending + input))
  }

  function Capped(s: Tokens): Tokens {
    if |s.tail| > MAX_PENDING then Scanned(s.pieces + [Piece([s.tail[0]], None)], s.tail[1..]) else s
  }

  /** Feeding one chunk after the other. */
  function FedAll(chunks: seq<Bytes>): Tokens {
    if chunks == [] then Scanned([], [])
    else
      var s := FedAll(chunks[..|chunks| - 1]);
      Then(s, Fed(s.tail, chunks[|chunks| - 1]))
  }

  ghost predicate TailFits(data: Bytes) {
    |ScanMouse(data).tail| <= MAX_PENDING
  }

  /** However the input is cut into chunks, the tokens and the held tail are those of one scan
      of the whole, as long as the tail held after each chunk fits. */
  lemma {:induction false} ChunksDecodeAlike(chunks: seq<Bytes>)
    requires forall k :: 0 <= k <= |chunks| ==> TailFits(Concat(chunks[..k]))
    ensures FedAll(chunks) == ScanMouse(Concat(chunks))
    decreases |chunks|
  {
    if chunks != [] {
      var n := |chunks| - 1;
      var init := chunks[..n];
      forall k | 0 <= k <= n ensures TailFits(Concat(init[..k])) {
        assert init[..k] == chunks[..k];
      }
      ChunksDecodeAlike(init);
      CarryOn(Concat(init), chunks[n]);
      assert chunks[..n + 1] == chunks;
    }
  }

  lemma {:induction false} FedAllGrows(chunks: seq<Bytes>, k: nat)
    requires k <= |chunks|
    ensures FedAll(chunks[..k]).pieces <= FedAll(chunks).pieces
    decreases |chunks|
  {
    if k < |chunks| {
      var init := chunks[..|chunks| - 1];
      FedAllGrows(init, k);
      assert init[..k] == chunks[..k];
    } else {
      assert chunks[..k] == chunks;
    }
  }

  /** An overlong tail begins with an unfinished report, which later bytes can only finish. */
  lemma LongTailIsReport(data: Bytes, more: Bytes)
    requires !TailFits(data)
    ensures var s := ScanMouse(ScanMouse(data).tail + more); s.pieces != [] ==> s.pieces[0].what.Some?
  {
    var tail := ScanMouse(data).tail;
    TailHeld(FirstStep, data);
    assert Proper(FirstStep, tail).Hold?;
    assert StartsReport(tail);
    assert forall k :: 0 <= k < 3 ==> (tail + more)[k] == tail[k];
  }

  function OldestKey(data: Bytes): Token
    requires !TailFits(data)
  {
    Piece([ScanMouse(data).tail[0]], None)
  }

  /** Where the first overlong tail comes up, the capped decoder passes on one byte more. */
  lemma OverflowPassesKey(some: seq<Bytes>)
    requires some != [] && !TailFits(Concat(some))
    requires forall j :: 0 <= j < |some| ==> TailFits(Concat(some[..j]))
    ensures FedAll(some).pieces == ScanMouse(Concat(some)).pieces + [OldestKey(Concat(some))]
  {
    var n := |some| - 1;
    var before, c := some[..n], some[n];
    forall j | 0 <= j <= n ensures TailFits(Concat(before[..j])) { assert before[..j] == some[..j]; }
    ChunksDecodeAlike(before);
    CarryOn(Concat(before), c);
    var now := ScanMouse(ScanMouse(Concat(before)).tail + c);
    Assoc(ScanMouse(Concat(before)).pieces, now.pieces, [OldestKey(Concat(some))]);
  }

  /** The plain scan never passes on that byte. */
  lemma OverflowShows(chunks: seq<Bytes>, k: nat)
    requires 0 < k <= |chunks| && !TailFits(Concat(chunks[..k]))
    requires forall j :: 0 <= j < k ==> TailFits(Concat(chunks[..j]))
    ensures FedAll(chunks).pieces != ScanMouse(Concat(chunks)).pieces
  {
    KeyPassed(chunks, k);
    PlainPassesNoKey(chunks, k);
  }

  lemma KeyPassed(chunks: seq<Bytes>, k: nat)
    requires 0 < k <= |chunks| && !TailFits(Concat(chunks[..k]))
    requires forall j :: 0 <= j < k ==> TailFits(Concat(chunks[..j]))
    ensures var at := |ScanMouse(Concat(chunks[..k])).pieces|;
      at < |FedAll(chunks).pieces| && FedAll(chunks).pieces[at].what.None?
  {
    var some := chunks[..k];
    forall j | 0 <= j < k ensures TailFits(Concat(some[..j])) { assert some[..j] == chunks[..j]; }
    OverflowPassesKey(some);
    FedAllGrows(chunks, k);
    LongerStarts(FedAll(some).pieces, FedAll(chunks).pieces, ScanMouse(Concat(some)).pieces, OldestKey(Concat(some)));
  }

  lemma LongerStarts<T>(a: seq<T>, b: seq<T>, front: seq<T>, x: T)
    requires a <= b && a == front + [x]
    ensures |front| < |b| && b[|front|] == x
  {
  }

  lemma PlainPassesNoKey(chunks: seq<Bytes>, k: nat)
    requires k <= |chunks| && !TailFits(Concat(chunks[..k]))
    ensures var at := |ScanMouse(Concat(chunks[..k])).pieces|;
      at < |ScanMouse(Concat(chunks)).pieces| ==> ScanMouse(Concat(chunks)).pieces[at].what.Some?
  {
    var some := Concat(chunks[..k]);
    ConcatPrefix(chunks, k);
    var more := Concat(chunks)[|some|..];
    assert Concat(chunks) == some + more;
    CarryOn(some, more);
    LongTailIsReport(some, more);
  }

  lemma CarryOn(data: Bytes, more: Bytes)
    ensures ScanMouse(data + more) == Then(ScanMouse(data), ScanMouse(ScanMouse(data).tail + more))
  {
    MouseStable();
    StableAlong(FirstStep, data);
    ScanAppend(FirstStep, data, more);
  }

  lemma {:induction false} FirstOverflow(chunks: seq<Bytes>, n: nat) returns (k: nat)
    requires n <= |chunks| && !TailFits(Concat(chunks[..n]))
    ensures 0 < k <= n && !TailFits(Concat(chunks[..k])) && forall j :: 0 <= j < k ==> TailFits(Concat(chunks[..j]))
  {
    if j :| 0 <= j < n && !TailFits(Concat(chunks[..j])) {
      k := FirstOverflow(chunks, j);
    } else {
      k := n;
    }
  }

  /** Chunking is invisible exactly when the tail held after each chunk fits the hold buffer. */
  lemma ChunkingInvisible(chunks: seq<Bytes>)
    ensures FedAll(chunks) == ScanMouse(Concat(chunks)) <==>
      forall k :: 0 <= k <= |chunks| ==> TailFits(Concat(chunks[..k]))
  {
    if forall k :: 0 <= k <= |chunks| ==> TailFits(Concat(chunks[..k])) {
      ChunksDecodeAlike(chunks);
    } else {
      var n :| 0 <= n <= |chunks| && !TailFits(Concat(chunks[..n]));
      var k := FirstOverflow(chunks, n);
      OverflowShows(chunks, k);
    }
  }

  lemma {:induction false} NoFinalYet(data: Bytes, i: nat)
    requires i <= |data| && AllDigits(data[i..])
    ensures FinalAt(data, i).None?
    decreases |data| - i
  {
    if i < |data| {
      assert data[i..][0] == data[i] && data[i + 1..] == data[i..][1..];
      NoFinalYet(data, i + 1);
    }
  }

  /** Overlong tails exist: a report with too many digits is held whole by the plain scan, and
      cut by the capped decoder. */
  lemma OverlongReport(digits: Bytes)
    requires |digits| > MAX_PENDING - 3 && AllDigits(digits)
    ensures !TailFits([ESC, BRACKET, SGR] + digits)
    ensures FedAll([[ESC, BRACKET, SGR] + digits]) != ScanMouse([ESC, BRACKET, SGR] + digits)
  {
    var data := [ESC, BRACKET, SGR] + digits;
    assert data[3..] == digits;
    NoFinalYet(data, 3);
    assert Proper(FirstStep, data).Hold?;
    assert Concat([data]) == data && [data][..1] == [data] by { assert [data][..0] == []; }
    ChunkingInvisible([data]);
  }

  lemma CappedConserves(s: Tokens)
    ensures Flatten(Capped(s).pieces) + Capped(s).tail == Flatten(s.pieces) + s.tail
  {
    if |s.tail| > MAX_PENDING {
      var p: Token := Piece([s.tail[0]], None);
      FlattenAppend(s.pieces, [p]);
      FlattenOne(p);
      assert s.tail == [s.tail[0]] + s.tail[1..];
      Assoc(Flatten(s.pieces), [s.tail[0]], s.tail[1..]);
    }
  }

  /** Conservation holds in all cases, overlong tails included. */
  lemma FedConserves(pending: Bytes, input: Bytes)
    ensures Flatten(Fed(pending, input).pieces) + Fed(pending, input).tail == pending + input
  {
    ScanConserves(FirstStep, pending + input);
    CappedConserves(ScanMouse(pending + input));
  }

  lemma {:induction false} FedAllConserves(chunks: seq<Bytes>)
    ensures Flatten(FedAll(chunks).pieces) + FedAll(chunks).tail == Concat(chunks)
    decreases |chunks|
  {
    if chunks != [] {
      var init, last := chunks[..|chunks| - 1], chunks[|chunks| - 1];
      var s := FedAll(init);
      var t := Fed(s.tail, last);
      FedAllConserves(init);
      FedConserves(s.tail, last);
      FlattenAppend(s.pieces, t.pieces);
      Assoc(Flatten(s.pieces), Flatten(t.pieces), t.tail);
      Assoc(Flatten(s.pieces), s.tail, last);
    }
  }

  // ---- Streams of reports and keys ----

  /** What a terminal sends: a plain byte or an encoded event. */
  datatype Item = Typed(b: u8) | Sent(fmt: u8, ev: Event)

  predicate Clear(i: Item) {
    match i
    case Typed(b) => b != ESC
    case Sent(fmt, ev) => Legible(fmt, ev)
  }

  function ItemBytes(i: Item): (r: Bytes)
    ensures r != []
  {
    match i
    case Typed(b) => [b]
    case Sent(fmt, ev) => Encode(fmt, ev)
  }

  function ItemToken(i: Item): Token {
    Piece(ItemBytes(i), match i case Typed(_) => None case Sent(fmt, ev) => Some(Seen(fmt, ev)))
  }

  function Wire(items: seq<Item>): Bytes {
    if items == [] then [] else ItemBytes(items[0]) + Wire(items[1..])
  }

  function ItemTokens(items: seq<Item>): seq<Token> {
    if items == [] then [] else [ItemToken(items[0])] + ItemTokens(items[1..])
  }

  lemma ItemStep(i: Item, rest: Bytes)
    requires Clear(i)
    ensures Proper(FirstStep, ItemBytes(i) + rest) == Take(|ItemBytes(i)|, ItemToken(i).what)
  {
    match i
    case Typed(b) =>
      assert (ItemBytes(i) + rest)[0] == b;
    case Sent(fmt, ev) =>
      LegibleRoundTrip(fmt, ev, rest);
  }

  lemma ItemScan(i: Item, rest: Bytes)
    requires Clear(i)
    ensures ScanMouse(ItemBytes(i) + rest) == Then(Scanned([ItemToken(i)], []), ScanMouse(rest))
  {
    var all, n := ItemBytes(i) + rest, |ItemBytes(i)|;
    ItemStep(i, rest);
    assert all[..n] == ItemBytes(i) && all[n..] == rest;
  }

  /** Keys and reports sent in any mixture come out as the same keys and events. */
  lemma {:induction false} StreamDecodes(items: seq<Item>)
    requires forall k :: 0 <= k < |items| ==> Clear(items[k])
    ensures ScanMouse(Wire(items)) == Scanned(ItemTokens(items), [])
  {
    if items != [] {
      ItemScan(items[0], Wire(items[1..]));
      StreamDecodes(items[1..]);
    }
  }

  lemma AsciiLength(n: nat)
    requires n < 0x1_0000
    ensures |Ascii(n)| <= 5
  {
    var a, b, c := n / 10, n / 10 / 10, n / 10 / 10 / 10;
    assert |Ascii(c / 10)| == 1;
    assert |Ascii(c)| <= 2;
    assert |Ascii(b)| <= 3;
    assert |Ascii(a)| <= 4;
  }

  lemma ItemShort(i: Item)
    ensures |ItemBytes(i)| <= 21
  {
    if i.Sent? {
      AsciiLength(i.ev.cb);
      AsciiLength(i.ev.x);
      AsciiLength(i.ev.y);
    }
  }

  /** A report cut short is no report yet: later bytes cannot change one. */
  lemma PartialReport(fmt: u8, ev: Event, n: nat)
    requires Legible(fmt, ev) && 3 <= n < |Encode(fmt, ev)|
    ensures StartsReport(Encode(fmt, ev)[..n]) && ReadReport(Encode(fmt, ev)[..n]).None?
  {
    var whole := Encode(fmt, ev);
    var part := whole[..n];
    LegibleRoundTrip(fmt, ev, []);
    assert whole + [] == whole && part + whole[n..] == whole;
    if ReadReport(part).Some? {
      ReadReportStable(part, whole[n..]);
      assert false;
    }
  }

  lemma PartialItemHeld(i: Item, n: nat)
    requires Clear(i) && 0 < n < |ItemBytes(i)|
    ensures ScanMouse(ItemBytes(i)[..n]).tail == ItemBytes(i)[..n]
  {
    if n >= 3 {
      PartialReport(i.fmt, i.ev, n);
    }
  }

  /** Data whose scan leaves a short tail; the induction over items need not look inside. */
  ghost predicate TellsShort(short: Bytes -> bool) {
    forall data: Bytes {:trigger ScanMouse(data)} :: short(data) <==> |ScanMouse(data).tail| <= 21
  }

  /** Cut anywhere, such a stream leaves a short tail. */
  lemma {:induction false} StreamTailShort(short: Bytes -> bool, items: seq<Item>, n: nat)
    requires TellsShort(short) && forall k :: 0 <= k < |items| ==> Clear(items[k])
    requires n <= |Wire(items)|
    ensures short(Wire(items)[..n])
    decreases |items|
  {
    if items == [] {
      NothingShort(short);
    } else {
      var used := |ItemBytes(items[0])|;
      if n >= used { StreamTailShort(short, items[1..], n - used); }
      ItemTailShort(short, items[0], Wire(items[1..]), n);
    }
  }

  lemma CutTailFits(items: seq<Item>, n: nat)
    requires forall k :: 0 <= k < |items| ==> Clear(items[k])
    requires n <= |Wire(items)|
    ensures TailFits(Wire(items)[..n])
  {
    StreamTailShort(data => |ScanMouse(data).tail| <= 21, items, n);
  }

  lemma NothingShort(short: Bytes -> bool)
    requires TellsShort(short)
    ensures short([])
  {
    assert ScanMouse([]).tail == [];
  }

  /** A cut inside the first item, or after it. */
  lemma ItemTailShort(short: Bytes -> bool, i: Item, later: Bytes, n: nat)
    requires TellsShort(short) && Clear(i) && n <= |ItemBytes(i) + later|
    requires n >= |ItemBytes(i)| ==> short(later[..n - |ItemBytes(i)|])
    ensures short((ItemBytes(i) + later)[..n])
  {
    var head := ItemBytes(i);
    TakeJoined(head, later, n);
    if n >= |head| {
      AfterItem(short, i, later[..n - |head|]);
    } else if n > 0 {
      InsideItem(short, i, n);
    } else {
      NothingShort(short);
    }
  }

  lemma AfterItem(short: Bytes -> bool, i: Item, rest: Bytes)
    requires TellsShort(short) && Clear(i) && short(rest)
    ensures short(ItemBytes(i) + rest)
  {
    assert |ScanMouse(rest).tail| <= 21;
    ItemThenTail(i, rest);
  }

  lemma InsideItem(short: Bytes -> bool, i: Item, n: nat)
    requires TellsShort(short) && Clear(i) && 0 < n < |ItemBytes(i)|
    ensures short(ItemBytes(i)[..n])
  {
    ItemShort(i);
    PartialItemHeld(i, n);
  }

  lemma ItemThenTail(i: Item, rest: Bytes)
    requires Clear(i)
    ensures ScanMouse(ItemBytes(i) + rest).tail == ScanMouse(rest).tail
  {
    ItemScan(i, rest);
  }

  lemma TakeJoined<T>(a: seq<T>, b: seq<T>, n: nat)
    requires n <= |a| + |b|
    ensures (a + b)[..n] == if n < |a| then a[..n] else a + b[..n - |a|]
  {
  }

  /** Reports and keys survive the wire however it is cut: every chunking decodes to the events
      and keys that were sent, and nothing stays behind. */
  lemma ChunkedStreamDecodes(items: seq<Item>, chunks: seq<Bytes>)
    requires forall k :: 0 <= k < |items| ==> Clear(items[k])
    requires Concat(chunks) == Wire(items)
    ensures FedAll(chunks) == Scanned(ItemTokens(items), [])
  {
    forall k | 0 <= k <= |chunks| ensures TailFits(Concat(chunks[..k])) {
      ConcatPrefix(chunks, k);
      var n := |Concat(chunks[..k])|;
      assert Concat(chunks[..k]) == Wire(items)[..n];
      CutTailFits(items, n);
    }
    ChunksDecodeAlike(chunks);
    StreamDecodes(items);
  }

  // ---- The decoder object ----

  /** Bytes passed on as they are. */
  function AsKeys(bytes: Bytes): (tokens: seq<Token>)
    ensures |tokens| == |bytes|
    ensures forall i :: 0 <= i < |bytes| ==> tokens[i] == Piece([bytes[i]], None)
  {
    seq(|bytes|, i requires 0 <= i < |bytes| => Piece([bytes[i]], None))
  }

  lemma {:induction false} FlattenKeys(bytes: Bytes)
    ensures Flatten(AsKeys(bytes)) == bytes && Keys(AsKeys(bytes)) == bytes && Events(AsKeys(bytes)) == []
    decreases |bytes|
  {
    if bytes != [] {
      var init := bytes[..|bytes| - 1];
      FlattenKeys(init);
      assert AsKeys(bytes)[..|bytes| - 1] == AsKeys(init);
    }
  }

  /** Input so far: what was handed out, what is staged and what is held, in that order. */
  ghost predicate Balanced(output: seq<Token>, ready: Bytes, pending: Bytes, input: Bytes) {
    Flatten(output) + ready + pending == input
  }

  function Result(active: bool, pending: Bytes, chunk: Bytes): Tokens {
    if active then Fed(pending, chunk) else Scanned(AsKeys(pending + chunk), [])
  }

  lemma ResultConserves(active: bool, pending: Bytes, chunk: Bytes)
    ensures Flatten(Result(active, pending, chunk).pieces) + Result(active, pending, chunk).tail == pending + chunk
  {
    FlattenKeys(pending + chunk);
    FedConserves(pending, chunk);
  }

  lemma OutputBytes(output: seq<Token>, ready: Bytes, pieces: seq<Token>)
    ensures Flatten(output + AsKeys(ready) + pieces) == Flatten(output) + ready + Flatten(pieces)
  {
    FlattenAppend(output, AsKeys(ready));
    FlattenKeys(ready);
    FlattenAppend(output + AsKeys(ready), pieces);
  }

  lemma FeedBalanced(output: seq<Token>, ready: Bytes, pending: Bytes, input: Bytes, active: bool, chunk: Bytes)
    requires Balanced(output, ready, pending, input)
    ensures var s := Result(active, pending, chunk);
      Balanced(output + AsKeys(ready) + s.pieces, [], s.tail, input + chunk)
  {
    var s := Result(active, pending, chunk);
    ResultConserves(active, pending, chunk);
    OutputBytes(output, ready, s.pieces);
    Rebalance(Flatten(output), ready, pending, chunk, Flatten(s.pieces), s.tail);
  }

  lemma Rebalance(done: Bytes, ready: Bytes, pending: Bytes, chunk: Bytes, out: Bytes, tail: Bytes)
    requires out + tail == pending + chunk
    ensures done + ready + out + [] + tail == done + ready + pending + chunk
  {
    Assoc(done + ready, out, tail);
    Assoc(done + ready, pending, chunk);
  }

  /** Switched off, the decoder passes everything on. */
  lemma AllPass(ready: Bytes, pending: Bytes, chunk: Bytes)
    ensures var s := Result(false, pending, chunk);
      ready + pending + chunk == ready + Keys(s.pieces) && Events(s.pieces) == []
  {
    FlattenKeys(pending + chunk);
    Assoc(ready, pending, chunk);
  }

  /** Switched on, it scans, and passes on the oldest byte of an overlong tail. */
  method Decode(pending: Bytes, chunk: Bytes, ready: Bytes) returns (out: Bytes, events: seq<Event>, tail: Bytes)
    ensures var s := Fed(pending, chunk);
      out == ready + Keys(s.pieces) && events == Events(s.pieces) && tail == s.tail
  {
    var i;
    out, events, i := ScanLoop(pending + chunk, ready);
    tail := (pending + chunk)[i..];
    if |tail| > MAX_PENDING {
      out := PassOldest(out, tail, ScanMouse(pending + chunk).pieces, ready);
      tail := tail[1..];
    }
  }

  class Decoder {
    var pending: Bytes
    var holding: bool      // the hold timer runs
    var ready: Bytes
    var active: bool

    /** Everything fed so far, and everything handed out. */
    ghost var input: Bytes
    ghost var output: seq<Token>

    ghost predicate Valid()
      reads this
    {
      (holding <==> pending != []) && Balanced(output, ready, pending, input)
    }

    constructor ()
      ensures Valid() && pending == [] && ready == [] && !active && input == [] && output == []
    {
      pending, holding, ready, active := [], false, [], false;
      input, output := [], [];
    }

    method SetActive(on: bool)
      requires Valid()
      modifies this`active
      ensures Valid() && active == on
    {
      active := on;
    }

    method Feed(chunk: Bytes) returns (out: Bytes, events: seq<Event>)
      requires Valid()
      modifies this
      ensures Valid() && active == old(active) && input == old(input) + chunk
      ensures var s := Result(active, old(pending), chunk);
        && out == old(ready) + Keys(s.pieces) && events == Events(s.pieces)
        && pending == s.tail && ready == []
        && output == old(output) + AsKeys(old(ready)) + s.pieces
    {
      ghost var s := Result(active, pending, chunk);
      FeedBalanced(output, ready, pending, input, active, chunk);
      input, output := input + chunk, output + AsKeys(ready) + s.pieces;
      if active {
        out, events, pending := Decode(pending, chunk, ready);
      } else {
        AllPass(ready, pending, chunk);
        out, events, pending := ready + pending + chunk, [], [];
      }
      ready, holding := [], pending != [];
    }

    /** Feed an idle, active decoder one chunk after the other. */
    method FeedChunks(chunks: seq<Bytes>) returns (out: Bytes, events: seq<Event>)
      requires Valid() && active && pending == [] && ready == []
      modifies this
      ensures Valid() && active && ready == []
      ensures var s := FedAll(chunks);
        out == Keys(s.pieces) && events == Events(s.pieces) && pending == s.tail
      ensures input == old(input) + Concat(chunks)
    {
      out, events := [], [];
      for k := 0 to |chunks|
        invariant Valid() && active && ready == [] && pending == FedAll(chunks[..k]).tail
        invariant out == Keys(FedAll(chunks[..k]).pieces) && events == Events(FedAll(chunks[..k]).pieces)
        invariant input == old(input) + Concat(chunks[..k])
      {
        FedOneMore(chunks, k);
        var more, evs := Feed(chunks[k]);
        out, events := out + more, events + evs;
        Assoc(old(input), Concat(chunks[..k]), chunks[k]);
      }
      assert chunks[..|chunks|] == chunks;
    }

    /** Release held bytes when the hold time is over. */
    method FlushExpired(expired: bool)
      requires Valid()
      modifies this
      ensures Valid() && active == old(active) && input == old(input) && output == old(output)
      ensures if expired then ready == old(ready) + old(pending) && pending == []
              else ready == old(ready) && pending == old(pending)
    {
      if holding && expired {
        holding := false;
        ready, pending := ready + pending, [];
      }
    }
  }

  lemma FedNext(chunks: seq<Bytes>, k: nat)
    requires k < |chunks|
    ensures FedAll(chunks[..k + 1]) == Then(FedAll(chunks[..k]), Fed(FedAll(chunks[..k]).tail, chunks[k]))
    ensures Concat(chunks[..k + 1]) == Concat(chunks[..k]) + chunks[k]
  {
    assert chunks[..k + 1][..k] == chunks[..k];
  }

  lemma ThenOutput(s: Tokens, t: Tokens)
    ensures Keys(Then(s, t).pieces) == Keys(s.pieces) + ([] + Keys(t.pieces))
    ensures Events(Then(s, t).pieces) == Events(s.pieces) + Events(t.pieces)
  {
    KeptAppend(s.pieces, t.pieces, IsKey);
    EventsAppend(s.pieces, t.pieces);
    assert [] + Keys(t.pieces) == Keys(t.pieces);
  }

  lemma FedOneMore(chunks: seq<Bytes>, k: nat)
    requires k < |chunks|
    ensures var s := FedAll(chunks[..k]); var t := Fed(s.tail, chunks[k]); var u := FedAll(chunks[..k + 1]);
      && u.tail == t.tail && Keys(u.pieces) == Keys(s.pieces) + ([] + Keys(t.pieces))
      && Events(u.pieces) == Events(s.pieces) + Events(t.pieces)
      && Concat(chunks[..k + 1]) == Concat(chunks[..k]) + chunks[k]
  {
    FedNext(chunks, k);
    ThenOutput(FedAll(chunks[..k]), Fed(FedAll(chunks[..k]).tail, chunks[k]));
  }

  lemma {:induction false} EventsAppend(a: seq<Token>, b: seq<Token>)
    ensures Events(a + b) == Events(a) + Events(b)
    decreases |b|
  {
    if b == [] {
      assert a + b == a;
    } else {
      var init, last := b[..|b| - 1], b[|b| - 1];
      EventsAppend(a, init);
      assert (a + b)[..|a + b| - 1] == a + init && (a + b)[|a + b| - 1] == last;
      Assoc(Events(a), Events(init), if last.what.Some? then [last.what.value] else []);
    }
  }

  method PassOldest(out: Bytes, pending: Bytes, ghost pieces: seq<Token>, ghost ready: Bytes) returns (after: Bytes)
    requires pending != [] && out == ready + Keys(pieces)
    ensures after == ready + Keys(pieces + [Piece([pending[0]], None)])
    ensures Events(pieces + [Piece([pending[0]], None)]) == Events(pieces)
  {
    after := out + pending[..1];
    ghost var p: Token := Piece([pending[0]], None);
    KeptAppend(pieces, [p], IsKey);
    KeptOne(p, IsKey);
    Assoc(ready, Keys(pieces), [pending[0]]);
    assert pending[..1] == [pending[0]];
    assert (pieces + [p])[..|pieces|] == pieces;
  }

  /** The scan of `data` has come to position `i`, with these results. */
  ghost predicate Scanning(step: Bytes -> Step<Option<Event>>, data: Bytes, ready: Bytes, i: nat, out: Bytes,
      events: seq<Event>, done: seq<Token>)
  {
    && i <= |data| && ScannedTo(step, data, i, done)
    && out == ready + Keys(done) && events == Events(done)
  }

  lemma ScanningOn(step: Bytes -> Step<Option<Event>>, data: Bytes, ready: Bytes, i: nat, out: Bytes,
      events: seq<Event>, done: seq<Token>) returns (next: seq<Token>)
    requires Scanning(step, data, ready, i, out, events, done)
    ensures var s := Proper(step, data[i..]);
      if s.Hold? then Scan(step, data) == Scanned(done, data[i..])
      else if s.what.None? then
        Scanning(step, data, ready, i + s.used, out + data[i..i + s.used], events, next)
      else Scanning(step, data, ready, i + s.used, out, events + [s.what.value], next)
  {
    next := done;
    var s := Proper(step, data[i..]);
    if s.Hold? {
      ScanHolds(step, data, i, done);
    } else {
      ScanAdvances(step, data, i, done, s.used, s.what);
      var p: Token := Piece(data[i..i + s.used], s.what);
      next := done + [p];
      assert next[..|done|] == done;
      if s.what.None? { Assoc(ready, Keys(done), p.bytes); }
    }
  }

  /** The results of a whole scan; the held tail starts at `i`. */
  ghost predicate ScannedAll(step: Bytes -> Step<Option<Event>>, data: Bytes, ready: Bytes, i: nat, out: Bytes,
      events: seq<Event>)
  {
    && i <= |data| && Scan(step, data).tail == data[i..]
    && out == ready + Keys(Scan(step, data).pieces) && events == Events(Scan(step, data).pieces)
  }

  lemma ScanningEnds(step: Bytes -> Step<Option<Event>>, data: Bytes, ready: Bytes, i: nat, out: Bytes,
      events: seq<Event>, done: seq<Token>)
    requires Scanning(step, data, ready, i, out, events, done) && Proper(step, data[i..]).Hold?
    ensures ScannedAll(step, data, ready, i, out, events)
  {
    ScanHolds(step, data, i, done);
  }

  /** The scanning loop of `feed`: stops at `i`, the start of the held tail. */
  method ScanLoop(data: Bytes, ready: Bytes) returns (out: Bytes, events: seq<Event>, i: nat)
    ensures ScannedAll(FirstStep, data, ready, i, out, events)
  {
    out, events, i := ready, [], 0;
    assert Alike(FirstStep, FirstStep);
    ghost var step: Bytes -> Step<Option<Event>> :| Alike(step, FirstStep);
    ghost var done: seq<Token> := [];
    ScanStarts(step, data);
    while i < |data|
      invariant Scanning(step, data, ready, i, out, events, done)
    {
      var s := NextPiece(step, data[i..]);
      if s.Hold? { break; }
      out, events, done := Emit(step, s, data, ready, out, events, i, done);
      i := i + s.used;
    }
    ScanningEnds(step, data, ready, i, out, events, done);
    AlikeScans(step, FirstStep, data);
  }

  /** Hand out one piece: an event, or the byte passed on. */
  method Emit(ghost step: Bytes -> Step<Option<Event>>, s: Step<Option<Event>>, data: Bytes, ghost ready: Bytes,
      out: Bytes, events: seq<Event>, i: nat, ghost done: seq<Token>)
      returns (out': Bytes, events': seq<Event>, ghost done': seq<Token>)
    requires Scanning(step, data, ready, i, out, events, done) && s == Proper(step, data[i..]) && s.Take?
    ensures Scanning(step, data, ready, i + s.used, out', events', done')
  {
    out', events' := out, events;
    done' := ScanningOn(step, data, ready, i, out, events, done);
    if s.what.Some? {
      events' := events + [s.what.value];
    } else {
      out' := out + data[i..i + s.used];
    }
  }

  /** One turn of the loop: a report, a prefix to hold, or a byte to pass on. */
  method NextPiece(ghost step: Bytes -> Step<Option<Event>>, rest: Bytes) returns (s: Step<Option<Event>>)
    requires rest != [] && Alike(step, FirstStep)
    ensures s == Proper(step, rest)
  {
    assert Proper(step, rest) == Proper(FirstStep, rest);
    if StartsReport(rest) {
      var parsed := ParseReport(rest);
      s := if parsed.Some? then Take(parsed.value.used, Some(parsed.value.value)) else Hold;
    } else {
      s := if MayStart(rest) then Hold else Take(1, None);
    }
  }

  method ParseReport(data: Bytes) returns (r: Option<Parsed<Event>>)
    requires StartsReport(data)
    ensures r == ReadReport(data)
  {
    if data[2] == PRESS {
      match ReadX10(data[3..]) {
        case None => return None;
        case Some(p) => return Some(Parsed(p.value, 3 + p.used));
      }
    }
    r := ParseSgr(data);
  }
}
