/** Mouse reports: parsing and encoding one report (src/client/mouse.rs). */
module MouseReports {
  import opened Ints
  import opened Wrappers
  import opened Streams
  import opened Decimal

  const PRESS: u8 := 0x4d       // M
  const LIFT: u8 := 0x6d        // m
  const SGR: u8 := 0x3c         // <
  const SEMICOLON: u8 := 0x3b   // ;

  datatype Event = Event(cb: u8, x: u16, y: u16, release: bool)

  /** A parsed value and the number of bytes it took. */
  datatype Parsed<T> = Parsed(value: T, used: nat)

  // ---- UTF-8 (section 3 of RFC 3629) ----

  predicate IsScalar(v: nat) {
    v < 0x11_0000 && !(0xd800 <= v < 0xe000)
  }

  /** The byte that continues a character with the low six bits of `v`. */
  function Tail(v: nat): (b: u8)
    ensures Continues(b)
  {
    0x80 + v % 64
  }

  predicate Continues(b: u8) {
    0x80 <= b < 0xc0
  }

  function Utf8(v: nat): (r: Bytes)
    requires IsScalar(v)
    ensures 1 <= |r| <= 4
  {
    if v < 0x80 then [v]
    else if v < 0x800 then [0xc0 + v / 64, Tail(v)]
    else if v < 0x1_0000 then [0xe0 + v / 64 / 64, Tail(v / 64), Tail(v)]
    else [0xf0 + v / 64 / 64 / 64, Tail(v / 64 / 64), Tail(v / 64), Tail(v)]
  }

  /** The value of leading bits `high` followed by a continuation byte. */
  function Join(high: nat, b: u8): nat
    requires Continues(b)
  {
    high * 64 + (b - 0x80)
  }

  /** The code point of a well-formed sequence that is one character long. */
  function FromUtf8(s: Bytes): Option<nat>
    requires 2 <= |s| <= 4
  {
    if !(forall i :: 1 <= i < |s| ==> Continues(s[i])) then None
    else if |s| == 2 then
      if 0xc2 <= s[0] < 0xe0 then Some(Join(s[0] - 0xc0, s[1])) else None
    else if |s| == 3 then
      if 0xe0 <= s[0] < 0xf0 && (s[0] == 0xe0 ==> 0xa0 <= s[1]) && (s[0] == 0xed ==> s[1] < 0xa0)
      then Some(Join(Join(s[0] - 0xe0, s[1]), s[2])) else None
    else
      if 0xf0 <= s[0] < 0xf5 && (s[0] == 0xf0 ==> 0x90 <= s[1]) && (s[0] == 0xf4 ==> s[1] < 0x90)
      then Some(Join(Join(Join(s[0] - 0xf0, s[1]), s[2]), s[3])) else None
  }

  lemma JoinTail(v: nat)
    ensures Join(v / 64, Tail(v)) == v
  {
  }

  lemma FromUtf8OfUtf8(v: nat)
    requires IsScalar(v) && v >= 0x80
    ensures FromUtf8(Utf8(v)) == Some(v)
  {
    var high := v / 64;
    JoinTail(v);
    if v >= 0x800 { JoinTail(high); }
    if v >= 0x1_0000 { JoinTail(high / 64); }
  }

  lemma TailJoin(high: nat, b: u8)
    requires Continues(b)
    ensures Join(high, b) / 64 == high && Tail(Join(high, b)) == b
  {
  }

  lemma Utf8OfTwo(s: Bytes)
    requires |s| == 2 && FromUtf8(s).Some?
    ensures IsScalar(FromUtf8(s).value) && Utf8(FromUtf8(s).value) == s
  {
    TailJoin(s[0] - 0xc0, s[1]);
  }

  lemma Utf8OfThree(s: Bytes)
    requires |s| == 3 && FromUtf8(s).Some?
    ensures IsScalar(FromUtf8(s).value) && Utf8(FromUtf8(s).value) == s
  {
    TailJoin(s[0] - 0xe0, s[1]);
    TailJoin(Join(s[0] - 0xe0, s[1]), s[2]);
  }

  lemma Utf8OfFour(s: Bytes)
    requires |s| == 4 && FromUtf8(s).Some?
    ensures IsScalar(FromUtf8(s).value) && Utf8(FromUtf8(s).value) == s
  {
    TailJoin(s[0] - 0xf0, s[1]);
    TailJoin(Join(s[0] - 0xf0, s[1]), s[2]);
    TailJoin(Join(Join(s[0] - 0xf0, s[1]), s[2]), s[3]);
  }

  lemma Utf8OfFromUtf8(s: Bytes)
    requires 2 <= |s| <= 4 && FromUtf8(s).Some?
    ensures IsScalar(FromUtf8(s).value) && Utf8(FromUtf8(s).value) == s
  {
    if |s| == 2 {
      Utf8OfTwo(s);
    } else if |s| == 3 {
      Utf8OfThree(s);
    } else {
      Utf8OfFour(s);
    }
  }

  /** `read_cp`: one byte, or a UTF-8 character whose length its first byte announces. */
  function ReadCp(data: Bytes, at: nat): Option<Parsed<nat>> {
    if at >= |data| then None
    else if data[at] < 0x80 then Some(Parsed(data[at], 1))
    else
      var len := if data[at] >= 0xf0 then 4 else if data[at] >= 0xe0 then 3 else 2;
      if at + len > |data| then None
      else
        match FromUtf8(data[at..at + len])
        case None => None
        case Some(v) => Some(Parsed(v, len))
  }

  lemma ReadCpOfUtf8(before: Bytes, v: nat, after: Bytes)
    requires IsScalar(v)
    ensures ReadCp(before + Utf8(v) + after, |before|) == Some(Parsed(v, |Utf8(v)|))
  {
    var data, at, code := before + Utf8(v) + after, |before|, Utf8(v);
    assert data[at..at + |code|] == code;
    assert data[at] == code[0];
    if v >= 0x80 { FromUtf8OfUtf8(v); }
  }

  /** What is read is exactly the encoding of a scalar value: nothing else is accepted. */
  lemma ReadCpIsCanonical(data: Bytes, at: nat)
    requires ReadCp(data, at).Some?
    ensures var p := ReadCp(data, at).value;
      IsScalar(p.value) && at + p.used <= |data| && data[at..at + p.used] == Utf8(p.value)
  {
    if data[at] >= 0x80 { Utf8OfFromUtf8(data[at..at + ReadCp(data, at).value.used]); }
  }

  lemma ReadCpStable(data: Bytes, at: nat, more: Bytes)
    requires ReadCp(data, at).Some?
    ensures ReadCp(data + more, at) == ReadCp(data, at)
    ensures at + ReadCp(data, at).value.used <= |data|
  {
    var p := ReadCp(data, at).value;
    assert (data + more)[at..at + p.used] == data[at..at + p.used];
  }

  // ---- X10 and UTF-8 reports ----

  /** `parse_x10`: three values, each 32 too high. */
  function ReadX10(data: Bytes): Option<Parsed<Event>> {
    match ReadCp(data, 0)
    case None => None
    case Some(b) =>
      match ReadCp(data, b.used)
      case None => None
      case Some(x) =>
        match ReadCp(data, b.used + x.used)
        case None => None
        case Some(y) =>
          var cb := SatSub(b.value, 32) % 0x100;
          Some(Parsed(Event(cb, SatSub(x.value, 32) % 0x1_0000, SatSub(y.value, 32) % 0x1_0000, cb % 4 == 3),
                      b.used + x.used + y.used))
  }

  lemma ReadX10Of(data: Bytes, b: Parsed<nat>, x: Parsed<nat>, y: Parsed<nat>)
    requires ReadCp(data, 0) == Some(b) && ReadCp(data, b.used) == Some(x)
    requires ReadCp(data, b.used + x.used) == Some(y)
    ensures var cb := SatSub(b.value, 32) % 0x100;
      ReadX10(data) == Some(Parsed(
        Event(cb, SatSub(x.value, 32) % 0x1_0000, SatSub(y.value, 32) % 0x1_0000, cb % 4 == 3),
        b.used + x.used + y.used))
  {
  }

  lemma ReadX10Stable(data: Bytes, more: Bytes)
    requires ReadX10(data).Some?
    ensures ReadX10(data + more) == ReadX10(data) && ReadX10(data).value.used <= |data|
  {
    var b := ReadCp(data, 0).value;
    var x := ReadCp(data, b.used).value;
    var y := ReadCp(data, b.used + x.used).value;
    ReadCpStable(data, 0, more);
    ReadCpStable(data, b.used, more);
    ReadCpStable(data, b.used + x.used, more);
    ReadX10Of(data, b, x, y);
    ReadX10Of(data + more, b, x, y);
  }

  // ---- SGR reports ----

  predicate IsFinal(b: u8) { b == PRESS || b == LIFT }

  predicate IsParam(b: u8) { 0x30 <= b <= 0x39 || b == SEMICOLON }

  /** Where the report that starts at 0 ends, scanning from `i`. */
  function FinalAt(data: Bytes, i: nat): (k: Option<nat>)
    ensures k.Some? ==> i <= k.value < |data| && IsFinal(data[k.value])
    ensures k.Some? ==> forall j :: i <= j < k.value ==> IsParam(data[j])
    decreases |data| - i
  {
    if i >= |data| then None
    else if IsFinal(data[i]) then Some(i)
    else if IsParam(data[i]) then FinalAt(data, i + 1)
    else None
  }

  /** The end of the `;`-separated field that starts at `i`. */
  function FieldEnd(s: Bytes, i: nat): (k: nat)
    requires i <= |s|
    ensures i <= k <= |s| && (k < |s| ==> s[k] == SEMICOLON)
    ensures forall j :: i <= j < k ==> s[j] != SEMICOLON
    decreases |s| - i
  {
    if i == |s| || s[i] == SEMICOLON then i else FieldEnd(s, i + 1)
  }

  predicate AllDigits(s: Bytes) {
    forall i :: 0 <= i < |s| ==> 0x30 <= s[i] <= 0x39
  }

  function DigitsOf(s: Bytes): (ds: seq<Digit>)
    requires AllDigits(s)
    ensures |ds| == |s|
  {
    seq(|s|, i requires 0 <= i < |s| => s[i] - 0x30)
  }

  /** `str::parse` for an unsigned type whose largest value is `max`. */
  function Number(s: Bytes, max: nat): (n: Option<nat>)
    ensures n.Some? ==> n.value <= max
  {
    if s == [] || !AllDigits(s) || Value(DigitsOf(s)) > max then None else Some(Value(DigitsOf(s)))
  }

  /** The event a parameter string and final byte denote; fields past the third are ignored. */
  function Fields(s: Bytes, lift: bool): Option<Event> {
    var n1 := FieldEnd(s, 0);
    match Number(s[..n1], 0xff)
    case None => None
    case Some(cb) =>
      if n1 == |s| then None
      else
        var n2 := FieldEnd(s, n1 + 1);
        match Number(s[n1 + 1..n2], 0xffff)
        case None => None
        case Some(x) =>
          if n2 == |s| then None
          else
            var n3 := FieldEnd(s, n2 + 1);
            match Number(s[n2 + 1..n3], 0xffff)
            case None => None
            case Some(y) => Some(Event(cb, x, y, lift || cb % 4 == 3))
  }

  function ReadSgr(data: Bytes): (r: Option<Parsed<Event>>)
    requires |data| >= 3
    ensures r.Some? ==> 3 < r.value.used <= |data|
  {
    match FinalAt(data, 3)
    case None => None
    case Some(k) =>
      match Fields(data[3..k], data[k] == LIFT)
      case None => None
      case Some(ev) => Some(Parsed(ev, k + 1))
  }

  /** `parse_sgr`. */
  method ParseSgr(data: Bytes) returns (r: Option<Parsed<Event>>)
    requires |data| >= 3
    ensures r == ReadSgr(data)
  {
    var i := 3;
    while i < |data| && !IsFinal(data[i])
      invariant 3 <= i <= |data| && FinalAt(data, 3) == FinalAt(data, i)
      invariant forall j :: 3 <= j < i ==> IsParam(data[j])
    {
      if !IsParam(data[i]) { return None; }
      i := i + 1;
    }
    if i >= |data| { return None; }
    match Fields(data[3..i], data[i] == LIFT) {
      case None => return None;
      case Some(ev) => return Some(Parsed(ev, i + 1));
    }
  }

  lemma {:induction false} FinalAtIs(data: Bytes, i: nat, k: nat)
    requires i <= k < |data| && IsFinal(data[k]) && forall j :: i <= j < k ==> IsParam(data[j])
    ensures FinalAt(data, i) == Some(k)
    decreases k - i
  {
    if i < k { FinalAtIs(data, i + 1, k); }
  }

  lemma {:induction false} FieldEndIs(s: Bytes, i: nat, k: nat)
    requires i <= k <= |s| && (k < |s| ==> s[k] == SEMICOLON)
    requires forall j :: i <= j < k ==> s[j] != SEMICOLON
    ensures FieldEnd(s, i) == k
    decreases k - i
  {
    if i < k { FieldEndIs(s, i + 1, k); }
  }

  lemma ReadSgrStable(data: Bytes, more: Bytes)
    requires |data| >= 3 && ReadSgr(data).Some?
    ensures ReadSgr(data + more) == ReadSgr(data)
  {
    var k := FinalAt(data, 3).value;
    FinalAtIs(data + more, 3, k);
    assert (data + more)[3..k] == data[3..k];
  }

  // ---- Any report ----

  predicate StartsReport(data: Bytes) {
    |data| >= 3 && data[0] == ESC && data[1] == BRACKET && (data[2] == PRESS || data[2] == SGR)
  }

  function ReadReport(data: Bytes): (r: Option<Parsed<Event>>)
    requires StartsReport(data)
    ensures r.Some? ==> 3 <= r.value.used <= |data|
  {
    if data[2] == PRESS then
      match ReadX10(data[3..])
      case None => None
      case Some(p) => ReadX10Stable(data[3..], []); Some(Parsed(p.value, 3 + p.used))
    else ReadSgr(data)
  }

  /** Once a report is complete, later bytes do not change how it reads. */
  lemma ReadReportStable(data: Bytes, more: Bytes)
    requires StartsReport(data) && ReadReport(data).Some?
    ensures StartsReport(data + more) && ReadReport(data + more) == ReadReport(data)
  {
    if data[2] == PRESS {
      assert (data + more)[3..] == data[3..] + more;
      ReadX10Stable(data[3..], more);
    } else {
      ReadSgrStable(data, more);
    }
  }

  // ---- Encoding ----

  function DigitByte(d: Digit): u8 { 0x30 + d as int }

  function DigitBytes(ds: seq<Digit>): (s: Bytes)
    ensures |s| == |ds| && AllDigits(s) && DigitsOf(s) == ds
  {
    seq(|ds|, i requires 0 <= i < |ds| => DigitByte(ds[i]))
  }

  function Ascii(n: nat): (s: Bytes)
    ensures s != [] && AllDigits(s)
  {
    DigitBytes(Digits(n))
  }

  /** The button byte with the two low bits set on a release. */
  function ButtonByte(ev: Event): u8 {
    if ev.release then ev.cb - ev.cb % 4 + 3 else ev.cb
  }

  function SgrBody(ev: Event): Bytes {
    Ascii(ev.cb) + [SEMICOLON] + Ascii(ev.x) + [SEMICOLON] + Ascii(ev.y)
  }

  /** One UTF-8 value; a surrogate cannot be encoded and becomes a space. */
  function Utf8Value(v: nat): Bytes
    requires v < 0x11_0000
  {
    if IsScalar(v) then Utf8(v) else [32]
  }

  function EncodeSgr(ev: Event): (r: Bytes)
    ensures |r| == |SgrBody(ev)| + 4
  {
    [ESC, BRACKET, SGR] + SgrBody(ev) + [if ev.release then LIFT else PRESS]
  }

  /** The three values of a UTF-8 report. */
  function Utf8Values(ev: Event): Bytes {
    Utf8Value(ButtonByte(ev) + 32) + Utf8Value(ev.x + 32) + Utf8Value(ev.y + 32)
  }

  function X10Values(ev: Event): Bytes {
    [Min(ButtonByte(ev) + 32, 255), Min(ev.x + 32, 255), Min(ev.y + 32, 255)]
  }

  /** `encode_report`. */
  function Encode(fmt: u8, ev: Event): (r: Bytes)
    ensures StartsReport(r)
  {
    if fmt == 6 then EncodeSgr(ev)
    else if fmt == 5 then [ESC, BRACKET, PRESS] + Utf8Values(ev)
    else [ESC, BRACKET, PRESS] + X10Values(ev)
  }

  // ---- Round trips ----

  function Coordinate(v: u16): u16 {
    if IsScalar(v + 32) then v else 0
  }

  /** The event as the reader of the encoded report sees it. */
  function Seen(fmt: u8, ev: Event): Event {
    if fmt == 6 then ev.(release := ev.release || ev.cb % 4 == 3)
    else
      var cb := ButtonByte(ev);
      if fmt == 5 then Event(cb, Coordinate(ev.x), Coordinate(ev.y), cb % 4 == 3)
      else Event(cb, ev.x, ev.y, cb % 4 == 3)
  }

  /** X10 reports can only carry values that fit a 7-bit byte. */
  predicate Legible(fmt: u8, ev: Event) {
    fmt == 5 || fmt == 6 || (ButtonByte(ev) <= 95 && ev.x <= 95 && ev.y <= 95)
  }

  lemma NumberOfAscii(n: nat, max: nat)
    requires n <= max
    ensures Number(Ascii(n), max) == Some(n)
  {
    ValueOfDigits(n);
  }

  /** Three digit strings joined by `;` are split into the same three. */
  lemma BodySplits(b: Bytes, x: Bytes, y: Bytes)
    requires AllDigits(b) && AllDigits(x) && AllDigits(y)
    ensures var s := b + [SEMICOLON] + x + [SEMICOLON] + y; var n2 := |b| + 1 + |x|;
      && FieldEnd(s, 0) == |b| && FieldEnd(s, |b| + 1) == n2 && FieldEnd(s, n2 + 1) == |s|
      && s[..|b|] == b && s[|b| + 1..n2] == x && s[n2 + 1..|s|] == y
      && forall i :: 0 <= i < |s| ==> IsParam(s[i])
  {
    var s := b + [SEMICOLON] + x + [SEMICOLON] + y;
    FieldEndIs(s, 0, |b|);
    FieldEndIs(s, |b| + 1, |b| + 1 + |x|);
    FieldEndIs(s, |b| + 1 + |x| + 1, |s|);
  }

  /** A body whose fields end at `n1`, `n2` and its end. */
  lemma FieldsAt(s: Bytes, n1: nat, n2: nat, ev: Event, lift: bool)
    requires n1 < n2 < |s| && n1 == FieldEnd(s, 0) && n2 == FieldEnd(s, n1 + 1) && FieldEnd(s, n2 + 1) == |s|
    requires Number(s[..n1], 0xff) == Some(ev.cb) && Number(s[n1 + 1..n2], 0xffff) == Some(ev.x)
    requires Number(s[n2 + 1..|s|], 0xffff) == Some(ev.y)
    ensures Fields(s, lift) == Some(ev.(release := lift || ev.cb % 4 == 3))
  {
  }

  lemma FieldsJoined(b: Bytes, x: Bytes, y: Bytes, ev: Event, lift: bool)
    requires AllDigits(b) && AllDigits(x) && AllDigits(y)
    requires Number(b, 0xff) == Some(ev.cb) && Number(x, 0xffff) == Some(ev.x) && Number(y, 0xffff) == Some(ev.y)
    ensures Fields(b + [SEMICOLON] + x + [SEMICOLON] + y, lift) == Some(ev.(release := lift || ev.cb % 4 == 3))
  {
    BodySplits(b, x, y);
    FieldsAt(b + [SEMICOLON] + x + [SEMICOLON] + y, |b|, |b| + 1 + |x|, ev, lift);
  }

  lemma FieldsOfBody(ev: Event, lift: bool)
    ensures forall i :: 0 <= i < |SgrBody(ev)| ==> IsParam(SgrBody(ev)[i])
    ensures Fields(SgrBody(ev), lift) == Some(ev.(release := lift || ev.cb % 4 == 3))
  {
    var b, x, y := Ascii(ev.cb), Ascii(ev.x), Ascii(ev.y);
    NumberOfAscii(ev.cb, 0xff);
    NumberOfAscii(ev.x, 0xffff);
    NumberOfAscii(ev.y, 0xffff);
    FieldsJoined(b, x, y, ev, lift);
    BodySplits(b, x, y);
  }

  /** A parameter string between the introducer and a final byte. */
  lemma ReadSgrBody(data: Bytes, body: Bytes, final: u8, rest: Bytes, ev: Event)
    requires forall i :: 0 <= i < |body| ==> IsParam(body[i])
    requires IsFinal(final) && Fields(body, final == LIFT) == Some(ev)
    requires data == [ESC, BRACKET, SGR] + body + [final] + rest
    ensures StartsReport(data) && ReadSgr(data) == Some(Parsed(ev, |data| - |rest|))
  {
    var k := 3 + |body|;
    assert data[3..k] == body;
    assert forall j :: 3 <= j < k ==> data[j] == body[j - 3];
    FinalAtIs(data, 3, k);
  }

  lemma SgrRoundTrip(ev: Event, rest: Bytes)
    ensures StartsReport(EncodeSgr(ev) + rest)
    ensures ReadSgr(EncodeSgr(ev) + rest) == Some(Parsed(Seen(6, ev), |EncodeSgr(ev)|))
  {
    var data := EncodeSgr(ev) + rest;
    FieldsOfBody(ev, ev.release);
    ReadSgrBody(data, SgrBody(ev), if ev.release then LIFT else PRESS, rest, Seen(6, ev));
    assert |EncodeSgr(ev)| == |data| - |rest|;
  }

  function Readable(v: nat): nat {
    if IsScalar(v) then v else 32
  }

  lemma ReadValue(data: Bytes, before: Bytes, v: nat, after: Bytes)
    requires v < 0x11_0000 && data == before + Utf8Value(v) + after
    ensures ReadCp(data, |before|) == Some(Parsed(Readable(v), |Utf8Value(v)|))
  {
    if IsScalar(v) { ReadCpOfUtf8(before, v, after); }
  }

  /** Three encoded values in a row are read back one after the other. */
  lemma ReadThree(u: nat, v: nat, w: nat, rest: Bytes)
    requires u < 0x11_0000 && v < 0x11_0000 && w < 0x11_0000
    ensures var (b, x, y) := (Utf8Value(u), Utf8Value(v), Utf8Value(w)); var data := b + x + y + rest;
      && ReadCp(data, 0) == Some(Parsed(Readable(u), |b|))
      && ReadCp(data, |b|) == Some(Parsed(Readable(v), |x|))
      && ReadCp(data, |b| + |x|) == Some(Parsed(Readable(w), |y|))
  {
    var b, x, y := Utf8Value(u), Utf8Value(v), Utf8Value(w);
    var data := b + x + y + rest;
    Regroup(b, x, y, rest);
    ReadValue(data, [], u, x + y + rest);
    ReadValue(data, b, v, y + rest);
    ReadValue(data, b + x, w, rest);
  }

  lemma Regroup<T>(a: seq<T>, b: seq<T>, c: seq<T>, d: seq<T>)
    ensures a + b + c + d == [] + a + (b + c + d) == a + b + (c + d)
  {
  }

  lemma ReadX10Values(u: nat, v: nat, w: nat, ev: Event, rest: Bytes)
    requires 32 <= u < 32 + 0x100 && 32 <= v < 32 + 0x1_0000 && 32 <= w < 32 + 0x1_0000
    requires ev == Event(u - 32, Readable(v) - 32, Readable(w) - 32, (u - 32) % 4 == 3)
    ensures ReadX10(Utf8Value(u) + Utf8Value(v) + Utf8Value(w) + rest)
         == Some(Parsed(ev, |Utf8Value(u) + Utf8Value(v) + Utf8Value(w)|))
  {
    ReadThree(u, v, w, rest);
    ReadableFits(v);
    ReadableFits(w);
    X10Joined(Utf8Value(u), Utf8Value(v), Utf8Value(w), rest, u, Readable(v), Readable(w));
    assert Readable(u) == u;
  }

  lemma ReadableFits(v: nat)
    requires 32 <= v < 32 + 0x1_0000
    ensures 32 <= Readable(v) < 32 + 0x1_0000
  {
  }

  lemma X10Joined(b: Bytes, x: Bytes, y: Bytes, rest: Bytes, u: nat, v: nat, w: nat)
    requires var data := b + x + y + rest;
      && ReadCp(data, 0) == Some(Parsed(u, |b|)) && ReadCp(data, |b|) == Some(Parsed(v, |x|))
      && ReadCp(data, |b| + |x|) == Some(Parsed(w, |y|))
    requires 32 <= u < 32 + 0x100 && 32 <= v < 32 + 0x1_0000 && 32 <= w < 32 + 0x1_0000
    ensures ReadX10(b + x + y + rest)
         == Some(Parsed(Event(u - 32, v - 32, w - 32, (u - 32) % 4 == 3), |b + x + y|))
  {
    X10Event(b + x + y + rest, Parsed(u, |b|), Parsed(v, |x|), Parsed(w, |y|));
  }

  /** Three values in range, read one after the other. */
  lemma X10Event(data: Bytes, b: Parsed<nat>, x: Parsed<nat>, y: Parsed<nat>)
    requires ReadCp(data, 0) == Some(b) && ReadCp(data, b.used) == Some(x) && ReadCp(data, b.used + x.used) == Some(y)
    requires 32 <= b.value < 32 + 0x100 && 32 <= x.value < 32 + 0x1_0000 && 32 <= y.value < 32 + 0x1_0000
    ensures ReadX10(data) == Some(Parsed(
      Event(b.value - 32, x.value - 32, y.value - 32, (b.value - 32) % 4 == 3), b.used + x.used + y.used))
  {
    ValuesFit(b.value, 0x100);
    ValuesFit(x.value, 0x1_0000);
    ValuesFit(y.value, 0x1_0000);
    ReadX10Of(data, b, x, y);
  }

  /** Undoing the offset of 32 loses nothing within the width. */
  lemma ValuesFit(v: nat, width: nat)
    requires 32 <= v < 32 + width
    ensures SatSub(v, 32) % width == v - 32
  {
    DivModUnique(v - 32, width, 0, v - 32);
  }

  lemma ReadPress(body: Bytes)
    ensures StartsReport([ESC, BRACKET, PRESS] + body)
    ensures ReadReport([ESC, BRACKET, PRESS] + body) ==
      match ReadX10(body) case None => None case Some(p) => Some(Parsed(p.value, 3 + p.used))
  {
    assert ([ESC, BRACKET, PRESS] + body)[3..] == body;
  }

  lemma Utf8RoundTrip(ev: Event, rest: Bytes)
    ensures ReadX10(Utf8Values(ev) + rest) == Some(Parsed(Seen(5, ev), |Utf8Values(ev)|))
  {
    SeenUtf8(ev);
    ReadX10Values(ButtonByte(ev) + 32, ev.x + 32, ev.y + 32, Seen(5, ev), rest);
  }

  lemma SeenUtf8(ev: Event)
    ensures Seen(5, ev) == Event(ButtonByte(ev), Readable(ev.x + 32) - 32, Readable(ev.y + 32) - 32,
                                 ButtonByte(ev) % 4 == 3)
  {
  }

  lemma X10RoundTrip(fmt: u8, ev: Event, rest: Bytes)
    requires fmt != 5 && fmt != 6 && Legible(fmt, ev)
    ensures ReadX10(X10Values(ev) + rest) == Some(Parsed(Seen(fmt, ev), |X10Values(ev)|))
  {
  }

  /** A report that carries a larger value is not one: a high byte starts a longer character. */
  lemma X10TooBig(fmt: u8, ev: Event)
    requires !Legible(fmt, ev)
    ensures ReadReport(Encode(fmt, ev)) == None
  {
  }

  /** Every encoded report is read back, whatever follows, exactly when its values are legible. */
  lemma ReportRoundTrip(fmt: u8, ev: Event)
    ensures Legible(fmt, ev) <==>
      forall rest :: ReadReport(Encode(fmt, ev) + rest) == Some(Parsed(Seen(fmt, ev), |Encode(fmt, ev)|))
  {
    if Legible(fmt, ev) {
      forall rest ensures ReadReport(Encode(fmt, ev) + rest) == Some(Parsed(Seen(fmt, ev), |Encode(fmt, ev)|)) {
        LegibleRoundTrip(fmt, ev, rest);
      }
    } else {
      X10TooBig(fmt, ev);
      assert Encode(fmt, ev) + [] == Encode(fmt, ev);
    }
  }

  lemma LegibleRoundTrip(fmt: u8, ev: Event, rest: Bytes)
    requires Legible(fmt, ev)
    ensures ReadReport(Encode(fmt, ev) + rest) == Some(Parsed(Seen(fmt, ev), |Encode(fmt, ev)|))
  {
    if fmt == 6 {
      SgrRoundTrip(ev, rest);
    } else {
      var values := if fmt == 5 then Utf8Values(ev) else X10Values(ev);
      if fmt == 5 { Utf8RoundTrip(ev, rest); } else { X10RoundTrip(fmt, ev, rest); }
      ReadPress(values + rest);
      assert [ESC, BRACKET, PRESS] + values + rest == [ESC, BRACKET, PRESS] + (values + rest);
    }
  }

  /** When the reader sees the very event that was sent. */
  lemma SeenExactly(fmt: u8, ev: Event)
    ensures Seen(fmt, ev) == ev <==>
      if fmt == 6 then ev.cb % 4 == 3 ==> ev.release
      else (ev.release <==> ev.cb % 4 == 3) && (fmt == 5 ==> IsScalar(ev.x + 32) && IsScalar(ev.y + 32))
  {
  }
}
