/** The tmux layout string of a tree (src/layout/mod.rs, `format_node`). */
module LayoutFormat {
  import opened Ints
  import opened LayoutTree
  import Slices
  import opened Wrappers
  import opened Decimal

  /** The rectangle recorded for a pane: the first with that id. */
  function LeafRect(panes: Panes, id: nat): Rect {
    if panes == [] then Rect(0, 0, 1, 1)
    else if panes[0].id == id then panes[0].rect
    else LeafRect(panes[1..], id)
  }

  /** `node_outer_rect`: a container's box rebuilt bottom-up from its panes. */
  function OuterRect(node: Node, panes: Panes): Rect {
    match node
    case Leaf(id) => LeafRect(panes, id)
    case Split(dir, _, first, second) =>
      var a, b := OuterRect(first, panes), OuterRect(second, panes);
      if dir == Horizontal then
        var x := Min(a.x, b.x);
        Rect(x, Min(a.y, b.y), SatSub(SatAdd16(b.x, b.cols), x), Max(a.rows, b.rows))
      else
        var y := Min(a.y, b.y);
        Rect(Min(a.x, b.x), y, Max(a.cols, b.cols), SatSub(SatAdd16(b.y, b.rows), y))
  }

  function Header(r: Rect): string {
    Show(r.cols) + "x" + Show(r.rows) + "," + Show(r.x) + "," + Show(r.y)
  }

  function Bracketed(dir: SplitDir, inner: string): string {
    if dir == Horizontal then "{" + inner + "}" else "[" + inner + "]"
  }

  /** `format_node`. */
  function FormatNode(node: Node, panes: Panes): string {
    match node
    case Leaf(id) => Header(LeafRect(panes, id)) + "," + Show(id)
    case Split(dir, _, first, second) =>
      Header(OuterRect(node, panes)) + Bracketed(dir, FormatNode(first, panes) + "," + FormatNode(second, panes))
  }

  /** The layout string written top-down from the areas reflow hands out. */
  function FormatArea(node: Node, area: Rect): string {
    match node
    case Leaf(id) => Header(area) + "," + Show(id)
    case Split(dir, ratio, first, second) =>
      var (a, b) := SplitRect(area, dir, ratio);
      Header(area) + Bracketed(dir, FormatArea(first, a) + "," + FormatArea(second, b))
  }

  /** Looking up any pane of `sub` in `panes` gives its rectangle. */
  ghost predicate Recorded(sub: Panes, panes: Panes) {
    forall i :: 0 <= i < |sub| ==> LeafRect(panes, sub[i].id) == sub[i].rect
  }

  lemma {:induction false} LookupDistinct(panes: Panes)
    requires Distinct(IdsOf(panes))
    ensures Recorded(panes, panes)
    decreases |panes|
  {
    if panes != [] {
      var rest := panes[1..];
      assert forall i :: 0 <= i < |rest| ==> IdsOf(rest)[i] == IdsOf(panes)[i + 1];
      LookupDistinct(rest);
      forall i | 0 <= i < |panes| ensures LeafRect(panes, panes[i].id) == panes[i].rect {
        if i > 0 {
          assert IdsOf(panes)[0] != IdsOf(panes)[i];
          assert rest[i - 1] == panes[i];
        }
      }
    }
  }

  /** A container's rebuilt box is the area reflow gave it, and so the whole string is the
      top-down one. */
  lemma {:induction false} FormatMatchesReflow(node: Node, area: Rect, panes: Panes)
    requires Recorded(ReflowNode(node, area), panes)
    requires area.x + area.cols <= 0xffff && area.y + area.rows <= 0xffff
    ensures OuterRect(node, panes) == area
    ensures FormatNode(node, panes) == FormatArea(node, area)
  {
    match node
    case Leaf(id) =>
      assert ReflowNode(node, area)[0] == Placed(id, area);
    case Split(dir, ratio, first, second) =>
      var (a, b) := SplitRect(area, dir, ratio);
      var pa, pb := ReflowNode(first, a), ReflowNode(second, b);
      assert forall i :: 0 <= i < |pa| ==> (pa + pb)[i] == pa[i];
      assert forall i :: 0 <= i < |pb| ==> (pa + pb)[|pa| + i] == pb[i];
      FormatMatchesReflow(first, a, panes);
      FormatMatchesReflow(second, b, panes);
  }

  /** For a window whose panes have distinct ids. */
  lemma LayoutStringCorrect(node: Node, cols: u16, rows: u16)
    requires Distinct(Ids(node))
    ensures FormatNode(node, Reflow(node, cols, rows)) == FormatArea(node, Window(cols, rows))
  {
    ReflowIds(node, Window(cols, rows));
    LookupDistinct(Reflow(node, cols, rows));
    FormatMatchesReflow(node, Window(cols, rows), Reflow(node, cols, rows));
  }

  // ---- The checksum in front of the string ----

  /** One step of `layout_checksum`: rotate right by one bit and add the byte, modulo 2^16. */
  function ChecksumStep(csum: u16, b: u8): u16 {
    (csum / 2 + csum % 2 * 0x8000 + b) % 0x1_0000
  }

  function ChecksumFrom(csum: u16, bytes: seq<u8>): u16 {
    if bytes == [] then csum
    else ChecksumStep(ChecksumFrom(csum, bytes[..|bytes| - 1]), bytes[|bytes| - 1])
  }

  method LayoutChecksum(bytes: seq<u8>) returns (csum: u16)
    ensures csum == ChecksumFrom(0, bytes)
  {
    csum := 0;
    for i := 0 to |bytes|
      invariant csum == ChecksumFrom(0, bytes[..i])
    {
      csum := ChecksumStep(csum, bytes[i]);
      assert bytes[..i + 1][..i] == bytes[..i];
    }
    assert bytes[..|bytes|] == bytes;
  }

  lemma HalvesApart(c: u16)
    ensures c == 2 * (c / 2) + c % 2 && 0 <= c / 2 < 0x8000 && 0 <= c % 2 <= 1
  {
  }

  /** A sum wraps once at most. */
  lemma WrapsOnce(x: nat, b: u8)
    requires x < 0x1_0000
    ensures (x + b) % 0x1_0000 == if x + b < 0x1_0000 then x + b else x + b - 0x1_0000
  {
    DivModUnique(x + b, 0x1_0000, if x + b < 0x1_0000 then 0 else 1,
      if x + b < 0x1_0000 then x + b else x + b - 0x1_0000);
  }

  /** A step turns the sum right by one bit, so that twice the result is the sum with its lowest
      bit carried out at the top, and adds the byte modulo 2^16. */
  lemma StepRotates(csum: u16, b: u8) returns (turned: u16, low: nat)
    ensures low <= 1 && 2 * turned == csum + low * 0xffff
    ensures ChecksumStep(csum, b) == if turned + b < 0x1_0000 then turned + b else turned + b - 0x1_0000
  {
    HalvesApart(csum);
    low := csum % 2;
    turned := csum / 2 + low * 0x8000;
    WrapsOnce(turned, b);
  }

  /** A step loses nothing: it tells apart different sums, and different bytes. */
  lemma StepTellsApart(c: u16, d: u16, a: u8, b: u8)
    ensures c != d ==> ChecksumStep(c, a) != ChecksumStep(d, a)
    ensures a != b ==> ChecksumStep(c, a) != ChecksumStep(c, b)
  {
    HalvesApart(c);
    HalvesApart(d);
    var rc: nat, rd: nat := c / 2 + c % 2 * 0x8000, d / 2 + d % 2 * 0x8000;
    WrapsOnce(rc, a);
    WrapsOnce(rc, b);
    WrapsOnce(rd, a);
  }

  lemma {:induction false} ChecksumTellsApart(c: u16, d: u16, bytes: seq<u8>)
    requires c != d
    ensures ChecksumFrom(c, bytes) != ChecksumFrom(d, bytes)
    decreases |bytes|
  {
    if bytes != [] {
      var init, last := bytes[..|bytes| - 1], bytes[|bytes| - 1];
      ChecksumTellsApart(c, d, init);
      StepTellsApart(ChecksumFrom(c, init), ChecksumFrom(d, init), last, last);
    }
  }

  lemma {:induction false} ChecksumAppend(csum: u16, front: seq<u8>, back: seq<u8>)
    ensures ChecksumFrom(csum, front + back) == ChecksumFrom(ChecksumFrom(csum, front), back)
    decreases |back|
  {
    if back == [] {
      assert front + back == front;
    } else {
      assert (front + back)[..|front + back| - 1] == front + back[..|back| - 1];
      ChecksumAppend(csum, front, back[..|back| - 1]);
    }
  }

  /** Changing any one byte of a body, however long, changes its checksum. */
  lemma ChecksumSeesOneByte(front: seq<u8>, a: u8, b: u8, back: seq<u8>)
    requires a != b
    ensures ChecksumFrom(0, front + [a] + back) != ChecksumFrom(0, front + [b] + back)
  {
    var c := ChecksumFrom(0, front);
    ChecksumAppend(0, front, [a]);
    ChecksumAppend(0, front, [b]);
    ChecksumAppend(0, front + [a], back);
    ChecksumAppend(0, front + [b], back);
    assert [a][..0] == [] && [b][..0] == [];
    StepTellsApart(c, c, a, b);
    ChecksumTellsApart(ChecksumStep(c, a), ChecksumStep(c, b), back);
  }

  // ---- The whole string ----

  function HexDigit(n: nat): char
    requires n < 16
  {
    if n < 10 then ('0' as int + n) as char else ('a' as int + n - 10) as char
  }

  /** `{:04x}` of a 16-bit number. */
  function Hex4(n: u16): string {
    var a := n / 16;
    var b := a / 16;
    [HexDigit(b / 16), HexDigit(b % 16), HexDigit(a % 16), HexDigit(n % 16)]
  }

  function HexDigitValue(c: char): nat {
    if '0' <= c <= '9' then c as int - '0' as int
    else if 'a' <= c <= 'f' then c as int - 'a' as int + 10
    else 0
  }

  /** The number four hex digits denote. */
  function HexValue(s: string): nat
    requires |s| == 4
  {
    0x1000 * HexDigitValue(s[0]) + 0x100 * HexDigitValue(s[1]) + 16 * HexDigitValue(s[2]) + HexDigitValue(s[3])
  }

  lemma DigitReadsBack(n: nat)
    requires n < 16
    ensures HexDigitValue(HexDigit(n)) == n
  {
  }

  lemma HexReadsBack(n: u16)
    ensures HexValue(Hex4(n)) == n
  {
    var a := n / 16;
    var b := a / 16;
    DigitReadsBack(b / 16);
    DigitReadsBack(b % 16);
    DigitReadsBack(a % 16);
    DigitReadsBack(n % 16);
  }

  predicate IsAscii(s: string) {
    forall i :: 0 <= i < |s| ==> s[i] < 128 as char
  }

  /** The bytes of an ASCII string. */
  function Encoded(s: string): (r: seq<u8>)
    requires IsAscii(s)
  {
    seq(|s|, i requires 0 <= i < |s| => s[i] as int)
  }

  lemma HeaderIsAscii(r: Rect)
    ensures IsAscii(Header(r))
  {
    var w, h, x, y := Show(r.cols), Show(r.rows), Show(r.x), Show(r.y);
    assert IsAscii(w + "x") && IsAscii(h + ",") && IsAscii(x + ",") && IsAscii(y);
    assert Header(r) == (w + "x") + (h + ",") + (x + ",") + y;
  }

  lemma {:induction false} BodyIsAscii(node: Node, panes: Panes)
    ensures IsAscii(FormatNode(node, panes))
  {
    HeaderIsAscii(OuterRect(node, panes));
    match node
    case Leaf(id) =>
      assert IsAscii("," + Show(id));
    case Split(dir, _, first, second) =>
      BodyIsAscii(first, panes);
      BodyIsAscii(second, panes);
      BracketedIsAscii(dir, FormatNode(first, panes), FormatNode(second, panes));
  }

  lemma BracketedIsAscii(dir: SplitDir, a: string, b: string)
    requires IsAscii(a) && IsAscii(b)
    ensures IsAscii(Bracketed(dir, a + "," + b))
  {
    assert IsAscii(a + "," + b);
  }

  lemma Prefixed(prefix: string, body: string)
    requires |prefix| == 4
    ensures var s := prefix + "," + body; s[..4] == prefix && s[4] == ',' && s[5..] == body
  {
  }

  // ---- Reading the string back ----

  predicate IsDigit(c: char) { '0' <= c <= '9' }

  /** A number goes on only with a digit. */
  predicate NumberEnds(rest: string) {
    rest == "" || !IsDigit(rest[0])
  }

  /** The digits in front of `s` read on from `n`, and what follows them. */
  function ReadNumber(n: nat, s: string): (r: (nat, string))
    ensures |r.1| <= |s|
    decreases |s|
  {
    if NumberEnds(s) then (n, s) else ReadNumber(n * 10 + (s[0] as int - '0' as int), s[1..])
  }

  /** The number in front of `s` when the character `mark` follows it, and the rest. */
  function ReadUpTo(s: string, mark: char): (r: Option<(nat, string)>)
    ensures r.Some? ==> |r.value.1| < |s|
  {
    var (n, rest) := ReadNumber(0, s);
    if rest != "" && rest[0] == mark then Some((n, rest[1..])) else None
  }

  /** Columns, `x`, rows, and the two coordinates. */
  function ReadRect(s: string): (r: Option<(Rect, string)>)
    ensures r.Some? ==> |r.value.1| < |s|
  {
    match ReadUpTo(s, 'x')
    case None => None
    case Some((cols, s1)) =>
      match ReadUpTo(s1, ',')
      case None => None
      case Some((rows, s2)) =>
        match ReadUpTo(s2, ',')
        case None => None
        case Some((x, s3)) => var (y, s4) := ReadNumber(0, s3); Some((Rect(x, y, cols, rows), s4))
  }

  /** What a layout string says: the boxes of panes and containers. */
  datatype Shape = Box(area: Rect, id: nat) | Group(dir: SplitDir, area: Rect, first: Shape, second: Shape)

  /** Braces hold what stands side by side, square brackets what stands above each other. */
  function ReadShape(s: string): (r: Option<(Shape, string)>)
    ensures r.Some? ==> |r.value.1| < |s|
    decreases |s|, 0
  {
    match ReadRect(s)
    case None => None
    case Some((box, rest)) =>
      if rest == "" then None
      else if rest[0] == ',' then var (id, after) := ReadNumber(0, rest[1..]); Some((Box(box, id), after))
      else if rest[0] == '{' then ReadPair(Horizontal, '}', box, rest[1..])
      else if rest[0] == '[' then ReadPair(Vertical, ']', box, rest[1..])
      else None
  }

  function ReadPair(dir: SplitDir, close: char, box: Rect, s: string): (r: Option<(Shape, string)>)
    ensures r.Some? ==> |r.value.1| < |s|
    decreases |s|, 1
  {
    match ReadShape(s)
    case None => None
    case Some((first, rest)) =>
      if rest == "" || rest[0] != ',' then None
      else match ReadShape(rest[1..])
        case None => None
        case Some((second, after)) =>
          if after == "" || after[0] != close then None else Some((Group(dir, box, first, second), after[1..]))
  }

  /** The boxes reflow hands out. */
  function ShapeOf(node: Node, area: Rect): Shape {
    match node
    case Leaf(id) => Box(area, id)
    case Split(dir, ratio, first, second) =>
      var (a, b) := SplitRect(area, dir, ratio);
      Group(dir, area, ShapeOf(first, a), ShapeOf(second, b))
  }

  /** The panes a layout string names, in its order. */
  function PanesOf(shape: Shape): Panes {
    match shape
    case Box(box, id) => [Placed(id, box)]
    case Group(_, _, first, second) => PanesOf(first) + PanesOf(second)
  }

  lemma {:induction false} ShapeHasPanes(node: Node, area: Rect)
    ensures PanesOf(ShapeOf(node, area)) == ReflowNode(node, area)
  {
    match node
    case Leaf(_) =>
    case Split(dir, ratio, first, second) =>
      var (a, b) := SplitRect(area, dir, ratio);
      ShapeHasPanes(first, a);
      ShapeHasPanes(second, b);
  }

  /** Reading digits from the front. */
  function ValueFrom(n: nat, ds: seq<Digit>): nat
    decreases |ds|
  {
    if ds == [] then n else ValueFrom(n * 10 + ds[0], ds[1..])
  }

  lemma {:induction false} ValueFromFront(n: nat, ds: seq<Digit>)
    requires ds != []
    ensures ValueFrom(n, ds) == ValueFrom(n, ds[..|ds| - 1]) * 10 + ds[|ds| - 1]
    decreases |ds|
  {
    if |ds| > 1 {
      ValueFromFront(n * 10 + ds[0], ds[1..]);
      assert ds[1..][..|ds| - 2] == ds[..|ds| - 1][1..];
    } else {
      assert ds[1..] == [];
    }
  }

  lemma {:induction false} ValueFromDigits(n: nat)
    ensures ValueFrom(0, Digits(n)) == n
  {
    ValueFromFront(0, Digits(n));
    if n >= 10 {
      ValueFromDigits(n / 10);
      assert (Digits(n / 10) + [n % 10])[..|Digits(n / 10)|] == Digits(n / 10);
    }
  }

  lemma {:induction false} ReadsDigits(n: nat, ds: seq<Digit>, rest: string)
    requires NumberEnds(rest)
    ensures ReadNumber(n, Chars(ds) + rest) == (ValueFrom(n, ds), rest)
    decreases |ds|
  {
    if ds == [] {
      assert Chars(ds) + rest == rest;
    } else {
      ReadsDigits(n * 10 + ds[0], ds[1..], rest);
      assert (Chars(ds) + rest)[1..] == Chars(ds[1..]) + rest;
    }
  }

  lemma ReadsNumber(n: nat, rest: string)
    requires NumberEnds(rest)
    ensures ReadNumber(0, Show(n) + rest) == (n, rest)
  {
    ReadsDigits(0, Digits(n), rest);
    ValueFromDigits(n);
  }

  lemma ReadsUpTo(n: nat, mark: char, rest: string)
    requires !IsDigit(mark)
    ensures ReadUpTo(Show(n) + ([mark] + rest), mark) == Some((n, rest))
  {
    ReadsNumber(n, [mark] + rest);
  }

  lemma HeaderJoined(w: string, h: string, x: string, y: string, rest: string)
    ensures (w + "x" + h + "," + x + "," + y) + rest
         == w + (['x'] + (h + ([','] + (x + ([','] + (y + rest))))))
  {
  }

  lemma ReadsHeader(r: Rect, rest: string)
    requires NumberEnds(rest)
    ensures ReadRect(Header(r) + rest) == Some((r, rest))
  {
    var w, h, x, y := Show(r.cols), Show(r.rows), Show(r.x), Show(r.y);
    HeaderJoined(w, h, x, y, rest);
    ReadsUpTo(r.cols, 'x', h + ([','] + (x + ([','] + (y + rest)))));
    ReadsUpTo(r.rows, ',', x + ([','] + (y + rest)));
    ReadsUpTo(r.x, ',', y + rest);
    ReadsNumber(r.y, rest);
  }

  lemma LeafJoined(header: string, id: string, rest: string)
    ensures header + "," + id + rest == header + ("," + id + rest)
    ensures ("," + id + rest)[0] == ',' && ("," + id + rest)[1..] == id + rest
  {
  }

  lemma ReadsLeaf(box: Rect, id: nat, rest: string)
    requires NumberEnds(rest)
    ensures ReadShape(Header(box) + "," + Show(id) + rest) == Some((Box(box, id), rest))
  {
    var after := "," + Show(id) + rest;
    LeafJoined(Header(box), Show(id), rest);
    ReadsHeader(box, after);
    ReadsNumber(id, rest);
  }

  function Opening(dir: SplitDir): char { if dir == Horizontal then '{' else '[' }

  function Closing(dir: SplitDir): char { if dir == Horizontal then '}' else ']' }

  lemma InsideJoined(open: string, a: string, b: string, close: string, rest: string)
    ensures (open + (a + "," + b) + close) + rest == open + ((a + "," + b) + (close + rest))
    ensures (a + "," + b) + (close + rest) == a + ([','] + (b + (close + rest)))
  {
  }

  lemma GroupJoined(dir: SplitDir, header: string, a: string, b: string, rest: string)
    ensures header + Bracketed(dir, a + "," + b) + rest
         == header + ([Opening(dir)] + (a + ([','] + (b + ([Closing(dir)] + rest)))))
  {
    InsideJoined([Opening(dir)], a, b, [Closing(dir)], rest);
    assert Bracketed(dir, a + "," + b) == [Opening(dir)] + (a + "," + b) + [Closing(dir)];
    Slices.Assoc(header, Bracketed(dir, a + "," + b), rest);
  }

  lemma ReadsPair(dir: SplitDir, box: Rect, s: string, first: Shape, second: Shape, more: string, rest: string)
    requires ReadShape(s) == Some((first, [','] + more))
    requires ReadShape(more) == Some((second, [Closing(dir)] + rest))
    ensures ReadPair(dir, Closing(dir), box, s) == Some((Group(dir, box, first, second), rest))
  {
    assert ([','] + more)[1..] == more && ([Closing(dir)] + rest)[1..] == rest;
  }

  lemma ReadsGroup(dir: SplitDir, box: Rect, s: string)
    ensures ReadShape(Header(box) + ([Opening(dir)] + s)) == ReadPair(dir, Closing(dir), box, s)
  {
    ReadsHeader(box, [Opening(dir)] + s);
    assert ([Opening(dir)] + s)[1..] == s;
  }

  /** Every box, pane number and bracket of the top-down string reads back. */
  lemma {:induction false} AreaReadsBack(node: Node, area: Rect, rest: string)
    requires NumberEnds(rest)
    ensures ReadShape(FormatArea(node, area) + rest) == Some((ShapeOf(node, area), rest))
  {
    match node
    case Leaf(id) => ReadsLeaf(area, id, rest);
    case Split(dir, ratio, first, second) =>
      var (a, b) := SplitRect(area, dir, ratio);
      var more := FormatArea(second, b) + ([Closing(dir)] + rest);
      AreaReadsBack(second, b, [Closing(dir)] + rest);
      AreaReadsBack(first, a, [','] + more);
      GroupJoined(dir, Header(area), FormatArea(first, a), FormatArea(second, b), rest);
      ReadsGroup(dir, area, FormatArea(first, a) + ([','] + more));
      ReadsPair(dir, area, FormatArea(first, a) + ([','] + more), ShapeOf(first, a), ShapeOf(second, b), more, rest);
  }

  /** So the layout string of a window whose panes have distinct ids says where they all stand. */
  lemma LayoutStringReadsBack(node: Node, cols: u16, rows: u16)
    requires Distinct(Ids(node))
    ensures ReadShape(FormatNode(node, Reflow(node, cols, rows))) == Some((ShapeOf(node, Window(cols, rows)), ""))
    ensures PanesOf(ShapeOf(node, Window(cols, rows))) == Reflow(node, cols, rows)
  {
    ShapeHasPanes(node, Window(cols, rows));
    LayoutStringCorrect(node, cols, rows);
    AreaReadsBack(node, Window(cols, rows), "");
    assert FormatArea(node, Window(cols, rows)) + "" == FormatArea(node, Window(cols, rows));
  }

  // ---- `to_tmux_str` ----

  /** `to_tmux_str`: four hex digits of the checksum, a comma, and the body, which for
      a window whose panes have distinct ids reads back as its boxes. */
  method ToTmuxStr(node: Node, cols: u16, rows: u16) returns (s: string)
    ensures |s| >= 5 && s[4] == ',' && s[5..] == FormatNode(node, Reflow(node, cols, rows))
    ensures Distinct(Ids(node)) ==> ReadShape(s[5..]) == Some((ShapeOf(node, Window(cols, rows)), ""))
    ensures IsAscii(s[5..]) && HexValue(s[..4]) == ChecksumFrom(0, Encoded(s[5..]))
  {
    var body := FormatNode(node, Reflow(node, cols, rows));
    BodyIsAscii(node, Reflow(node, cols, rows));
    if Distinct(Ids(node)) { LayoutStringReadsBack(node, cols, rows); }
    var csum := LayoutChecksum(Encoded(body));
    HexReadsBack(csum);
    s := Hex4(csum) + "," + body;
    Prefixed(Hex4(csum), body);
  }
}
