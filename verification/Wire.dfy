/**
 * The building blocks of the wire format (src/proto/mod.rs): little-endian integers, flags,
 * length-prefixed text, optional fields, lists and cells.  Each `Put` writes a value in front
 * of the bytes that follow it, and says that the matching `Read` gives both back.
 */
module Wire {
  import opened Ints
  import opened Slices
  import opened Wrappers
  import opened Cells
  import opened Streams

  /** Why a message could not be decoded; `Panic` stands for an out-of-range slice. */
  datatype Fault = Eof | InvalidData | Panic

  /** A decoded value and the bytes after it. */
  datatype Read<T> = Got(value: T, rest: Bytes) | Bad(fault: Fault) {
    predicate IsFailure() { Bad? }

    function PropagateFailure<U>(): Read<U>
      requires Bad?
    {
      Bad(fault)
    }

    function Extract(): Read<T>
      requires Got?
    {
      this
    }
  }

  /** UTF-8 text, as its bytes. */
  type Text = Bytes

  predicate Short(s: Text) { |s| < 0x1_0000_0000 }

  // ---- Integers ----

  function ReadU8(d: Bytes): Read<u8> {
    if d == [] then Bad(Eof) else Got(d[0], d[1..])
  }

  function PutU8(v: u8, rest: Bytes): (d: Bytes)
    ensures |d| == 1 + |rest| && ReadU8(d) == Got(v, rest)
    ensures forall missing :: ByteOr(d, missing) == Got(v, rest)
  {
    [v] + rest
  }

  function ReadU16(d: Bytes): Read<u16> {
    if |d| < 2 then Bad(Eof) else Got(d[0] as int + 0x100 * d[1] as int, d[2..])
  }

  function PutU16(v: u16, rest: Bytes): (d: Bytes)
    ensures |d| == 2 + |rest| && ReadU16(d) == Got(v, rest)
  {
    [v % 0x100, v / 0x100] + rest
  }

  function ReadU32(d: Bytes): Read<u32> {
    if |d| < 4 then Bad(Eof)
    else Got(d[0] as int + 0x100 * d[1] as int + 0x1_0000 * d[2] as int + 0x100_0000 * d[3] as int, d[4..])
  }

  function PutU32(v: u32, rest: Bytes): (d: Bytes)
    ensures |d| == 4 + |rest| && ReadU32(d) == Got(v, rest)
  {
    var a, b, c := v / 0x100, v / 0x100 / 0x100, v / 0x100 / 0x100 / 0x100;
    [v % 0x100, a % 0x100, b % 0x100, c] + rest
  }

  function ReadU64(d: Bytes): Read<u64> {
    if |d| < 8 then Bad(Eof)
    else
      var lo := ReadU32(d);
      var hi := ReadU32(lo.rest);
      Got(lo.value + 0x1_0000_0000 * hi.value, hi.rest)
  }

  function PutU64(v: u64, rest: Bytes): (d: Bytes)
    ensures |d| == 8 + |rest| && ReadU64(d) == Got(v, rest)
  {
    PutU32(v % 0x1_0000_0000, PutU32(v / 0x1_0000_0000, rest))
  }

  /** The number that bytes spell, lowest first. */
  function LowestFirst(d: Bytes): nat {
    if d == [] then 0 else d[0] + 0x100 * LowestFirst(d[1..])
  }

  lemma SpellsTwo(d: Bytes)
    requires |d| == 2
    ensures LowestFirst(d) == d[0] as int + 0x100 * d[1] as int
  {
    assert LowestFirst(d[1..]) == d[1] + 0x100 * LowestFirst(d[1..][1..]);
  }

  lemma SpellsFour(d: Bytes)
    requires |d| == 4
    ensures LowestFirst(d) == d[0] as int + 0x100 * d[1] as int + 0x1_0000 * d[2] as int + 0x100_0000 * d[3] as int
  {
    SpellsTwo(d[2..]);
    assert d[1..][1..] == d[2..];
    assert LowestFirst(d[1..]) == d[1] + 0x100 * LowestFirst(d[2..]);
  }

  lemma {:induction false} SpellsAppend(a: Bytes, b: Bytes)
    requires |a| == 4
    ensures LowestFirst(a + b) == LowestFirst(a) + 0x1_0000_0000 * LowestFirst(b)
  {
    SpellsFour(a);
    var d := a + b;
    assert d[1..][1..] == d[2..] && d[2..][1..] == d[3..] && d[3..][1..] == b;
    assert LowestFirst(d[3..]) == a[3] + 0x100 * LowestFirst(b);
    assert LowestFirst(d[2..]) == a[2] + 0x100 * LowestFirst(d[3..]);
    assert LowestFirst(d[1..]) == a[1] + 0x100 * LowestFirst(d[2..]);
  }

  lemma FourBytes(b: u32, rest: Bytes)
    ensures LowestFirst(PutU32(b, rest)[..4]) == b && PutU32(b, rest)[4..] == rest
  {
    SpellsFour(PutU32(b, rest)[..4]);
  }

  /** Every integer is written lowest byte first, in front of the rest. */
  lemma LittleEndian(a: u16, b: u32, c: u64, rest: Bytes)
    ensures LowestFirst(PutU16(a, rest)[..2]) == a && PutU16(a, rest)[2..] == rest
    ensures LowestFirst(PutU32(b, rest)[..4]) == b && PutU32(b, rest)[4..] == rest
    ensures LowestFirst(PutU64(c, rest)[..8]) == c && PutU64(c, rest)[8..] == rest
  {
    SpellsTwo(PutU16(a, rest)[..2]);
    FourBytes(b, rest);
    var high := PutU32(c / 0x1_0000_0000, rest);
    var d := PutU32(c % 0x1_0000_0000, high);
    FourBytes(c % 0x1_0000_0000, high);
    FourBytes(c / 0x1_0000_0000, rest);
    assert d[4..] == high && d[..8] == d[..4] + high[..4];
    SpellsAppend(d[..4], high[..4]);
  }

  function ReadFlag(d: Bytes): Read<bool> {
    var b :- ReadU8(d);
    Got(b.value != 0, b.rest)
  }

  function PutFlag(b: bool, rest: Bytes): (d: Bytes)
    ensures |d| == 1 + |rest| && ReadFlag(d) == Got(b, rest)
    ensures forall missing :: FlagOr(d, missing) == Got(b, rest)
    ensures ReadU8(d) == Got(if b then 1 else 0, rest)
  {
    PutU8(if b then 1 else 0, rest)
  }

  /** A trailing flag that older peers leave out. */
  function FlagOr(d: Bytes, missing: bool): (r: Read<bool>)
    ensures r.Got?
  {
    if d == [] then Got(missing, []) else Got(d[0] != 0, d[1..])
  }

  /** A trailing byte that older peers leave out. */
  function ByteOr(d: Bytes, missing: u8): (r: Read<u8>)
    ensures r.Got?
  {
    if d == [] then Got(missing, []) else Got(d[0], d[1..])
  }

  // ---- Text ----

  /** `r[..len]`, moving past it; `fault` when it is not there. */
  function ReadBytes(d: Bytes, len: nat, fault: Fault): Read<Bytes> {
    if |d| < len then Bad(fault) else Got(d[..len], d[len..])
  }

  /** Length-prefixed text. */
  function ReadText(d: Bytes, fault: Fault): Read<Text> {
    var len :- ReadU32(d);
    ReadBytes(len.rest, len.value, fault)
  }

  /** `read_optional_string`: a missing or empty string is empty. */
  function ReadOptionalText(d: Bytes): Read<Text> {
    if |d| < 4 then Got([], d) else ReadText(d, Eof)
  }

  /** The length is written as `len as u32`. */
  function PutText(s: Text, rest: Bytes): (d: Bytes)
    ensures |d| == 4 + |s| + |rest|
    ensures Short(s) ==> ReadText(d, Eof) == Got(s, rest) && ReadText(d, Panic) == Got(s, rest)
    ensures Short(s) ==> ReadOptionalText(d) == Got(s, rest)
    ensures Short(s) ==> ReadU32(d) == Got(|s|, s + rest)
  {
    assert (s + rest)[..|s|] == s && (s + rest)[|s|..] == rest;
    PutU32(|s| % 0x1_0000_0000, s + rest)
  }

  // ---- Optional fields ----

  /** A field marked 1 is present; any other marker is skipped, and a missing one panics. */
  function ReadMaybeText(d: Bytes, fault: Fault): Read<Option<Text>> {
    if d == [] then Bad(Panic)
    else if d[0] == 1 then
      var s :- ReadText(d[1..], fault);
      Got(Some(s.value), s.rest)
    else Got(None, d[1..])
  }

  function PutMaybeText(o: Option<Text>, rest: Bytes): (d: Bytes)
    ensures (o.Some? ==> Short(o.value)) ==>
      ReadMaybeText(d, Eof) == Got(o, rest) && ReadMaybeText(d, Panic) == Got(o, rest)
    ensures |d| == |rest| + if o.Some? then 5 + |o.value| else 1
    ensures d != []
  {
    match o
    case Some(s) => PutU8(1, PutText(s, rest))
    case None => PutU8(0, rest)
  }

  function ReadMaybeByte(d: Bytes, fault: Fault): Read<Option<u8>> {
    if d == [] then Bad(Panic)
    else if d[0] == 1 then
      if |d| < 2 then Bad(fault) else Got(Some(d[1]), d[2..])
    else Got(None, d[1..])
  }

  function PutMaybeByte(o: Option<u8>, rest: Bytes): (d: Bytes)
    ensures ReadMaybeByte(d, Eof) == Got(o, rest) && ReadMaybeByte(d, Panic) == Got(o, rest)
    ensures |d| <= |rest| + 2
  {
    match o
    case Some(b) => [1, b] + rest
    case None => PutU8(0, rest)
  }

  datatype Colour = Colour(r: u8, g: u8, b: u8)

  /** An optional colour.  The decoder of the last one in a message does not look past it. */
  function ReadMaybeRgb(d: Bytes, last: bool): Read<Option<Colour>> {
    if d != [] && d[0] == 1 then
      if |d| < 4 then Bad(Eof) else Got(Some(Colour(d[1], d[2], d[3])), d[4..])
    else if last then Got(None, d)
    else if d == [] then Bad(Panic)
    else Got(None, d[1..])
  }

  function PutMaybeRgb(o: Option<Colour>, rest: Bytes): (d: Bytes)
    ensures ReadMaybeRgb(d, false) == Got(o, rest)
    ensures ReadMaybeRgb(d, true).Got? && ReadMaybeRgb(d, true).value == o
    ensures |d| <= |rest| + 4 && d != []
  {
    match o
    case Some(c) => [1, c.r, c.g, c.b] + rest
    case None => PutU8(0, rest)
  }

  // ---- Lists ----

  /** `n` values in a row. */
  function ReadList<T>(read: Bytes -> Read<T>, n: nat, d: Bytes): Read<seq<T>> {
    if n == 0 then Got([], d)
    else
      var x :- read(d);
      var xs :- ReadList(read, n - 1, x.rest);
      Got([x.value] + xs.value, xs.rest)
  }

  function PutList<T>(put: (T, Bytes) -> Bytes, xs: seq<T>, rest: Bytes): Bytes {
    if xs == [] then rest else put(xs[0], PutList(put, xs[1..], rest))
  }

  /** The reader gives back what the writer put, whatever follows. */
  ghost predicate Inverse<T(!new)>(put: (T, Bytes) -> Bytes, read: Bytes -> Read<T>, x: T) {
    forall rest: Bytes :: read(put(x, rest)) == Got(x, rest)
  }

  lemma {:induction false} ListRoundTrip<T(!new)>(put: (T, Bytes) -> Bytes, read: Bytes -> Read<T>, xs: seq<T>,
      rest: Bytes)
    requires forall i :: 0 <= i < |xs| ==> Inverse(put, read, xs[i])
    ensures ReadList(read, |xs|, PutList(put, xs, rest)) == Got(xs, rest)
  {
    if xs != [] {
      ListRoundTrip(put, read, xs[1..], rest);
      assert xs == [xs[0]] + xs[1..];
      assert Inverse(put, read, xs[0]);
    }
  }

  /** The decoders' loop: a value at a time, moving the cursor. */
  method ReadMany<T>(read: Bytes -> Read<T>, n: nat, d: Bytes) returns (r: Read<seq<T>>)
    ensures r == ReadList(read, n, d)
  {
    var xs: seq<T>, cursor := [], d;
    PrependNone(ReadList(read, n, d));
    for i := 0 to n
      invariant ReadList(read, n, d) == Prepend(xs, ReadList(read, n - i, cursor))
    {
      var x := read(cursor);
      if x.Bad? { return Bad(x.fault); }
      PrependOne(xs, x.value, ReadList(read, n - i - 1, x.rest));
      xs, cursor := xs + [x.value], x.rest;
    }
    assert xs + [] == xs;
    return Got(xs, cursor);
  }

  ghost function Prepend<T>(xs: seq<T>, r: Read<seq<T>>): Read<seq<T>> {
    match r
    case Got(ys, rest) => Got(xs + ys, rest)
    case Bad(fault) => Bad(fault)
  }

  lemma PrependNone<T>(r: Read<seq<T>>)
    ensures Prepend([], r) == r
  {
    if r.Got? { assert [] + r.value == r.value; }
  }

  lemma PrependOne<T>(xs: seq<T>, x: T, r: Read<seq<T>>)
    ensures Prepend(xs, Prepend([x], r)) == Prepend(xs + [x], r)
  {
    if r.Got? { Assoc(xs, [x], r.value); }
  }

  /** A list with its length in front. */
  function ReadCounted<T>(read: Bytes -> Read<T>, d: Bytes): Read<seq<T>> {
    var n :- ReadU32(d);
    ReadList(read, n.value, n.rest)
  }

  function PutCounted<T>(put: (T, Bytes) -> Bytes, xs: seq<T>, rest: Bytes): Bytes {
    PutU32(|xs| % 0x1_0000_0000, PutList(put, xs, rest))
  }

  lemma CountedIs<T>(put: (T, Bytes) -> Bytes, xs: seq<T>, rest: Bytes)
    requires |xs| < 0x1_0000_0000
    ensures PutCounted(put, xs, rest) == PutU32(|xs|, PutList(put, xs, rest))
  {
    LengthFits(|xs|);
  }

  lemma LengthFits(n: nat)
    requires n < 0x1_0000_0000
    ensures n % 0x1_0000_0000 == n
  {
    DivModUnique(n, 0x1_0000_0000, 0, n);
  }

  lemma CountedRoundTrip<T(!new)>(put: (T, Bytes) -> Bytes, read: Bytes -> Read<T>, xs: seq<T>, rest: Bytes)
    requires |xs| < 0x1_0000_0000 && forall i :: 0 <= i < |xs| ==> Inverse(put, read, xs[i])
    ensures ReadCounted(read, PutCounted(put, xs, rest)) == Got(xs, rest)
  {
    ListRoundTrip(put, read, xs, rest);
  }

  // ---- Cells ----

  function ReadColor(d: Bytes): Read<Color> {
    var tag :- ReadU8(d);
    if tag.value == 0 then Got(Default, tag.rest)
    else if tag.value == 1 then
      var n :- ReadU8(tag.rest);
      Got(Indexed(n.value), n.rest)
    else if tag.value == 2 then
      var r :- ReadU8(tag.rest);
      var g :- ReadU8(r.rest);
      var b :- ReadU8(g.rest);
      Got(Rgb(r.value, g.value, b.value), b.rest)
    else Bad(InvalidData)
  }

  function PutColor(c: Color, rest: Bytes): (d: Bytes)
    ensures ReadColor(d) == Got(c, rest)
    ensures |rest| < |d| <= |rest| + 4
  {
    match c
    case Default => PutU8(0, rest)
    case Indexed(n) => PutU8(1, PutU8(n, rest))
    case Rgb(r, g, b) => PutU8(2, PutU8(r, PutU8(g, PutU8(b, rest))))
  }

  function ReadAttr(d: Bytes): Read<Attr> {
    var b :- ReadU8(d);
    Got(Attr(b.value % 2 == 1, b.value / 2 % 2 == 1, b.value / 4 % 2 == 1, b.value / 8 % 2 == 1), b.rest)
  }

  function PutAttr(a: Attr, rest: Bytes): (d: Bytes)
    ensures ReadAttr(d) == Got(a, rest)
    ensures |d| == 1 + |rest|
  {
    PutU8(Bit(a.bold) + 2 * Bit(a.italic) + 4 * Bit(a.underline) + 8 * Bit(a.reverse), rest)
  }

  /** `char::from_u32`, with NUL for what is no scalar value. */
  function ToChar(v: u32): char {
    if v < 0xd800 || 0xe000 <= v < 0x11_0000 then v as char else NUL
  }

  function ReadCell(d: Bytes): Read<Cell> {
    var ch :- ReadU32(d);
    var fg :- ReadColor(ch.rest);
    var bg :- ReadColor(fg.rest);
    var attrs :- ReadAttr(bg.rest);
    Got(Cell(ToChar(ch.value), Style(fg.value, bg.value, attrs.value)), attrs.rest)
  }

  function PutCell(c: Cell, rest: Bytes): (d: Bytes)
    ensures ReadCell(d) == Got(c, rest)
    ensures |rest| + 7 <= |d| <= |rest| + 13
  {
    PutU32(c.ch as int, PutColor(c.style.fg, PutColor(c.style.bg, PutAttr(c.style.attrs, rest))))
  }
}
