/**
 * Scanning a byte stream: a step looks at the front of the data and either takes a piece off
 * or asks to hold the rest until more bytes arrive.  The mouse decoder, the reply filter and
 * the frame reader are such scanners.
 */
module Streams {
  import opened Ints
  import opened Slices

  type Bytes = seq<u8>

  const ESC: u8 := 0x1b
  const BRACKET: u8 := 0x5b     // [

  datatype Step<T> = Hold | Take(used: nat, what: T)

  /** A piece taken off the stream, with what the scanner made of it. */
  datatype Piece<T> = Piece(bytes: Bytes, what: T)

  datatype Scanned<T> = Scanned(pieces: seq<Piece<T>>, tail: Bytes)

  /** The step, with takes that consume nothing or too much turned into holds. */
  function Proper<T>(step: Bytes -> Step<T>, data: Bytes): (s: Step<T>)
    ensures s.Take? ==> 1 <= s.used <= |data|
  {
    if data == [] then Hold
    else
      var s := step(data);
      if s.Take? && 1 <= s.used <= |data| then s else Hold
  }

  /** The same scanner; proofs about a loop that runs it need not look inside it. */
  ghost predicate Alike<T(!new)>(step: Bytes -> Step<T>, other: Bytes -> Step<T>) {
    forall data: Bytes {:trigger Proper(other, data)} :: Proper(step, data) == Proper(other, data)
  }

  function Scan<T>(step: Bytes -> Step<T>, data: Bytes): Scanned<T>
    decreases |data|
  {
    match Proper(step, data)
    case Hold => Scanned([], data)
    case Take(used, what) =>
      var rest := Scan(step, data[used..]);
      Scanned([Piece(data[..used], what)] + rest.pieces, rest.tail)
  }

  lemma {:induction false} AlikeScans<T(!new)>(step: Bytes -> Step<T>, other: Bytes -> Step<T>, data: Bytes)
    requires Alike(step, other)
    ensures Scan(step, data) == Scan(other, data)
    decreases |data|
  {
    var s := Proper(other, data);
    assert Proper(step, data) == s;
    if s.Take? { AlikeScans(step, other, data[s.used..]); }
  }

  /** `done` are the pieces in front of position `i`. */
  ghost predicate ScannedTo<T>(step: Bytes -> Step<T>, data: Bytes, i: nat, done: seq<Piece<T>>)
    requires i <= |data|
  {
    && Scan(step, data).pieces == done + Scan(step, data[i..]).pieces
    && Scan(step, data).tail == Scan(step, data[i..]).tail
  }

  lemma ScanStarts<T>(step: Bytes -> Step<T>, data: Bytes)
    ensures ScannedTo(step, data, 0, [])
  {
    assert data[0..] == data;
    assert [] + Scan(step, data).pieces == Scan(step, data).pieces;
  }

  lemma ScanHolds<T>(step: Bytes -> Step<T>, data: Bytes, i: nat, done: seq<Piece<T>>)
    requires i <= |data| && ScannedTo(step, data, i, done) && Proper(step, data[i..]).Hold?
    ensures Scan(step, data) == Scanned(done, data[i..])
  {
    assert done + [] == done;
  }

  /** A loop that takes the pieces one by one carries on by one step. */
  lemma ScanAdvances<T>(step: Bytes -> Step<T>, data: Bytes, i: nat, done: seq<Piece<T>>, used: nat, what: T)
    requires i <= |data| && ScannedTo(step, data, i, done) && Proper(step, data[i..]) == Take(used, what)
    ensures ScannedTo(step, data, i + used, done + [Piece(data[i..i + used], what)])
  {
    var p, rest := Piece(data[i..i + used], what), Scan(step, data[i + used..]);
    Slice(data, i, used);
    ScanTakes(step, data[i..], p);
    assert Scan(step, data[i..]) == Scanned([p] + rest.pieces, rest.tail);
    Assoc(done, [p], rest.pieces);
  }

  lemma ScanTakes<T>(step: Bytes -> Step<T>, data: Bytes, p: Piece<T>)
    requires var s := Proper(step, data); s.Take? && p == Piece(data[..s.used], s.what)
    ensures var rest := Scan(step, data[Proper(step, data).used..]);
      Scan(step, data) == Scanned([p] + rest.pieces, rest.tail)
  {
  }

  lemma Slice<T>(s: seq<T>, i: nat, n: nat)
    requires i + n <= |s|
    ensures s[i..][..n] == s[i..i + n] && s[i..][n..] == s[i + n..]
  {
  }

  // ---- Conservation ----

  /** The bytes of the pieces, in order. */
  function Flatten<T>(pieces: seq<Piece<T>>): Bytes {
    if pieces == [] then [] else Flatten(pieces[..|pieces| - 1]) + pieces[|pieces| - 1].bytes
  }

  lemma {:induction false} FlattenAppend<T>(a: seq<Piece<T>>, b: seq<Piece<T>>)
    ensures Flatten(a + b) == Flatten(a) + Flatten(b)
    decreases |b|
  {
    if b == [] {
      assert a + b == a;
    } else {
      var init, last := b[..|b| - 1], b[|b| - 1];
      FlattenAppend(a, init);
      assert (a + b)[..|a + b| - 1] == a + init && (a + b)[|a + b| - 1] == last;
      Assoc(Flatten(a), Flatten(init), last.bytes);
    }
  }

  lemma FlattenOne<T>(p: Piece<T>)
    ensures Flatten([p]) == p.bytes
  {
    assert [p][..0] == [];
  }

  /** No byte is lost, invented or reordered by a scan. */
  lemma {:induction false} ScanConserves<T>(step: Bytes -> Step<T>, data: Bytes)
    ensures Flatten(Scan(step, data).pieces) + Scan(step, data).tail == data
    decreases |data|
  {
    var s := Proper(step, data);
    if s.Take? {
      var p, rest := Piece(data[..s.used], s.what), Scan(step, data[s.used..]);
      ScanConserves(step, data[s.used..]);
      ScanTakes(step, data, p);
      FlattenFront(p, rest.pieces);
      Rejoin(data, s.used, Flatten(rest.pieces), rest.tail);
    }
  }

  lemma FlattenFront<T>(p: Piece<T>, rest: seq<Piece<T>>)
    ensures Flatten([p] + rest) == p.bytes + Flatten(rest)
  {
    FlattenAppend([p], rest);
    FlattenOne(p);
  }

  lemma Rejoin<T>(s: seq<T>, n: nat, a: seq<T>, b: seq<T>)
    requires n <= |s| && a + b == s[n..]
    ensures s[..n] + a + b == s
  {
    Assoc(s[..n], a, b);
  }

  /** Where piece `k` of a scan stands. */
  function PieceStart<T>(pieces: seq<Piece<T>>, k: nat): nat
    requires k <= |pieces|
  {
    |Flatten(pieces[..k])|
  }

  /** The step takes `p` at position `at`. */
  ghost predicate TakenAt<T(!new)>(step: Bytes -> Step<T>, data: Bytes, at: nat, p: Piece<T>) {
    && at + |p.bytes| <= |data| && p.bytes == data[at..at + |p.bytes|]
    && Proper(step, data[at..]) == Take(|p.bytes|, p.what)
  }

  lemma TakenLater<T(!new)>(step: Bytes -> Step<T>, data: Bytes, n: nat, at: nat, p: Piece<T>)
    requires n <= |data| && TakenAt(step, data[n..], at, p)
    ensures TakenAt(step, data, n + at, p)
  {
    assert data[n..][at..] == data[n + at..];
    assert data[n..][at..at + |p.bytes|] == data[n + at..n + at + |p.bytes|];
  }

  /** Piece `k` is what the step takes at the place where it stands. */
  lemma {:induction false} PieceTaken<T(!new)>(step: Bytes -> Step<T>, data: Bytes, k: nat)
    requires k < |Scan(step, data).pieces|
    ensures var pieces := Scan(step, data).pieces; TakenAt(step, data, PieceStart(pieces, k), pieces[k])
    decreases |data|
  {
    var s := Proper(step, data);
    var p, later := Piece(data[..s.used], s.what), Scan(step, data[s.used..]).pieces;
    ScanTakes(step, data, p);
    if k > 0 { PieceTaken(step, data[s.used..], k - 1); }
    TakenInFront(step, data, p, later, k);
  }

  /** With one more piece in front. */
  lemma TakenInFront<T(!new)>(step: Bytes -> Step<T>, data: Bytes, p: Piece<T>, later: seq<Piece<T>>, k: nat)
    requires var s := Proper(step, data); s.Take? && p == Piece(data[..s.used], s.what)
    requires k <= |later|
    requires k > 0 ==> TakenAt(step, data[Proper(step, data).used..], PieceStart(later, k - 1), later[k - 1])
    ensures TakenAt(step, data, PieceStart([p] + later, k), ([p] + later)[k])
  {
    if k == 0 {
      FirstTaken(step, data, p);
    } else {
      StartsLater(p, later, k);
      TakenLater(step, data, Proper(step, data).used, PieceStart(later, k - 1), later[k - 1]);
    }
  }

  lemma FirstTaken<T(!new)>(step: Bytes -> Step<T>, data: Bytes, p: Piece<T>)
    requires var s := Proper(step, data); s.Take? && p == Piece(data[..s.used], s.what)
    ensures TakenAt(step, data, 0, p)
  {
    assert data[0..] == data;
  }

  lemma StartsLater<T>(p: Piece<T>, later: seq<Piece<T>>, k: nat)
    requires 0 < k <= |later|
    ensures PieceStart([p] + later, k) == |p.bytes| + PieceStart(later, k - 1)
  {
    assert ([p] + later)[..k] == [p] + later[..k - 1];
    FlattenFront(p, later[..k - 1]);
  }

  /** The bytes of the pieces the scanner kept. */
  function Kept<T>(pieces: seq<Piece<T>>, keep: T -> bool): Bytes {
    if pieces == [] then []
    else
      var last := pieces[|pieces| - 1];
      Kept(pieces[..|pieces| - 1], keep) + if keep(last.what) then last.bytes else []
  }

  lemma {:induction false} KeptAppend<T>(a: seq<Piece<T>>, b: seq<Piece<T>>, keep: T -> bool)
    ensures Kept(a + b, keep) == Kept(a, keep) + Kept(b, keep)
    decreases |b|
  {
    if b == [] {
      assert a + b == a;
    } else {
      var init, last := b[..|b| - 1], b[|b| - 1];
      KeptAppend(a, init, keep);
      assert (a + b)[..|a + b| - 1] == a + init && (a + b)[|a + b| - 1] == last;
      Assoc(Kept(a, keep), Kept(init, keep), if keep(last.what) then last.bytes else []);
    }
  }

  lemma KeptOne<T>(p: Piece<T>, keep: T -> bool)
    ensures Kept([p], keep) == if keep(p.what) then p.bytes else []
  {
    assert [p][..0] == [];
  }

  // ---- Scanning in chunks ----

  /** Taking the next piece of `data` does not depend on what follows it. */
  ghost predicate Settled<T(!new)>(step: Bytes -> Step<T>, data: Bytes) {
    Proper(step, data).Take? ==> forall more: Bytes :: Proper(step, data + more) == Proper(step, data)
  }

  /** Nor does any later piece of its scan. */
  ghost predicate SettledAlong<T(!new)>(step: Bytes -> Step<T>, data: Bytes)
    decreases |data|
  {
    Settled(step, data) && (Proper(step, data).Take? ==> SettledAlong(step, data[Proper(step, data).used..]))
  }

  ghost predicate Stable<T(!new)>(step: Bytes -> Step<T>) {
    forall data :: Settled(step, data)
  }

  lemma {:induction false} StableAlong<T(!new)>(step: Bytes -> Step<T>, data: Bytes)
    requires Stable(step)
    ensures SettledAlong(step, data)
    decreases |data|
  {
    var s := Proper(step, data);
    if s.Take? { StableAlong(step, data[s.used..]); }
  }

  /** The scans of two stretches, one carried on from the tail of the other. */
  function Then<T>(s: Scanned<T>, t: Scanned<T>): Scanned<T> {
    Scanned(s.pieces + t.pieces, t.tail)
  }

  /** The scan of more data carries on from the held tail. */
  lemma {:induction false} ScanAppend<T(!new)>(step: Bytes -> Step<T>, data: Bytes, more: Bytes)
    requires SettledAlong(step, data)
    ensures Scan(step, data + more) == Then(Scan(step, data), Scan(step, Scan(step, data).tail + more))
    decreases |data|
  {
    var s := Proper(step, data);
    if s.Take? {
      var all, rest := data + more, data[s.used..];
      assert Proper(step, all) == s;
      assert all[..s.used] == data[..s.used] && all[s.used..] == rest + more;
      ScanAppend(step, rest, more);
      var p, t := [Piece(data[..s.used], s.what)], Scan(step, Scan(step, rest).tail + more);
      Assoc(p, Scan(step, rest).pieces, t.pieces);
    }
  }

  /** A cut that shows in the rest of a scan shows in the whole. */
  lemma CutShowsInRest<T>(step: Bytes -> Step<T>, data: Bytes, more: Bytes)
    requires Proper(step, data).Take? && Proper(step, data + more) == Proper(step, data)
    requires var rest := data[Proper(step, data).used..];
      Scan(step, rest + more) != Then(Scan(step, rest), Scan(step, Scan(step, rest).tail + more))
    ensures Scan(step, data + more) != Then(Scan(step, data), Scan(step, Scan(step, data).tail + more))
  {
    var s, all := Proper(step, data), data + more;
    var p, rest := Piece(data[..s.used], s.what), data[s.used..];
    assert all[..s.used] == data[..s.used] && all[s.used..] == rest + more;
    ScanTakes(step, data, p);
    ScanTakes(step, all, p);
    var t := Scan(step, Scan(step, rest).tail + more);
    Assoc([p], Scan(step, rest).pieces, t.pieces);
    FrontInjective(p, Scan(step, rest + more).pieces, Scan(step, rest).pieces + t.pieces);
  }

  lemma FrontInjective<T>(p: T, a: seq<T>, b: seq<T>)
    ensures [p] + a == [p] + b <==> a == b
  {
    if [p] + a == [p] + b {
      assert a == ([p] + a)[1..] && b == ([p] + b)[1..];
    }
  }

  /** A held tail is held again when nothing new arrives. */
  lemma {:induction false} TailHeld<T>(step: Bytes -> Step<T>, data: Bytes)
    ensures Scan(step, Scan(step, data).tail) == Scanned([], Scan(step, data).tail)
    decreases |data|
  {
    var s := Proper(step, data);
    if s.Take? { TailHeld(step, data[s.used..]); }
  }

  function Concat(chunks: seq<Bytes>): Bytes {
    if chunks == [] then [] else Concat(chunks[..|chunks| - 1]) + chunks[|chunks| - 1]
  }

  lemma {:induction false} ConcatPrefix(chunks: seq<Bytes>, k: nat)
    requires k <= |chunks|
    ensures Concat(chunks[..k]) <= Concat(chunks)
    decreases |chunks|
  {
    if k < |chunks| {
      ConcatPrefix(chunks[..|chunks| - 1], k);
      assert chunks[..|chunks| - 1][..k] == chunks[..k];
    } else {
      assert chunks[..k] == chunks;
    }
  }

  /** Feeding one chunk after the other, each in front of the tail held so far. */
  function ScanChunks<T>(step: Bytes -> Step<T>, chunks: seq<Bytes>): Scanned<T> {
    if chunks == [] then Scanned([], [])
    else
      var s := ScanChunks(step, chunks[..|chunks| - 1]);
      Then(s, Scan(step, s.tail + chunks[|chunks| - 1]))
  }

  /** However the input is cut, as long as no cut falls where a piece is still unsettled, the
      pieces and the held tail are those of one scan of the whole. */
  lemma {:induction false} ChunksDoNotMatter<T(!new)>(step: Bytes -> Step<T>, chunks: seq<Bytes>)
    requires forall k :: 0 <= k < |chunks| ==> SettledAlong(step, Concat(chunks[..k]))
    ensures ScanChunks(step, chunks) == Scan(step, Concat(chunks))
    decreases |chunks|
  {
    if chunks != [] {
      var n := |chunks| - 1;
      var init := chunks[..n];
      forall k | 0 <= k < n ensures SettledAlong(step, Concat(init[..k])) {
        assert init[..k] == chunks[..k];
      }
      ChunksDoNotMatter(step, init);
      ScanAppend(step, Concat(init), chunks[n]);
    }
  }
}
