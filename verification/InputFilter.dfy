/** The terminal-reply filter on the client's input (src/client/input_filter.rs). */
module InputFilters {
  import opened Ints
  import opened Slices
  import opened Wrappers
  import opened Streams

  const BEL: u8 := 0x07
  const BACKSLASH: u8 := 0x5c

  /** What becomes of a piece of input. */
  datatype Fate = Pass | Drop

  predicate Passes(f: Fate) { f == Pass }

  /** The byte after ESC that opens an OSC, DCS, APC, PM or SOS string. */
  predicate IsOpener(b: u8) {
    b == 0x5d || b == 0x50 || b == 0x5f || b == 0x5e || b == 0x58
  }

  /** Final bytes of device replies: c n t x y R. */
  predicate IsReplyFinal(b: u8) {
    b == 0x63 || b == 0x6e || b == 0x74 || b == 0x78 || b == 0x79 || b == 0x52
  }

  predicate IsCsiParam(b: u8) { 0x20 <= b < 0x40 }

  predicate IsCsiFinal(b: u8) { 0x40 <= b < 0x7f }

  // ---- Complete sequences ----

  /** `str_seq_end`, scanning from `i`. */
  function StringEnd(data: Bytes, i: nat): (e: Option<nat>)
    ensures e.Some? ==> i <= e.value <= |data|
    decreases |data| - i
  {
    if i >= |data| then None
    else if data[i] == BEL then Some(i + 1)
    else if data[i] == ESC then
      if i + 1 >= |data| then None
      else if data[i + 1] == BACKSLASH then Some(i + 2)
      else Some(i)
    else StringEnd(data, i + 1)
  }

  datatype Csi = Csi(end: nat, reply: bool)

  /** `csi_end`, scanning from `i`. */
  function CsiEnd(data: Bytes, i: nat): (e: Option<Csi>)
    ensures e.Some? ==> i <= e.value.end <= |data|
    decreases |data| - i
  {
    if i >= |data| then None
    else if IsCsiParam(data[i]) then CsiEnd(data, i + 1)
    else if IsCsiFinal(data[i]) then Some(Csi(i + 1, IsReplyFinal(data[i])))
    else Some(Csi(i, false))
  }

  method FindStringEnd(data: Bytes) returns (e: Option<nat>)
    ensures e == StringEnd(data, 2)
  {
    var i := 2;
    while i < |data|
      invariant StringEnd(data, 2) == StringEnd(data, i)
      decreases |data| - i
    {
      if data[i] == BEL { return Some(i + 1); }
      if data[i] == ESC {
        if i + 1 >= |data| { return None; }
        return if data[i + 1] == BACKSLASH then Some(i + 2) else Some(i);
      }
      i := i + 1;
    }
    return None;
  }

  method FindCsiEnd(data: Bytes) returns (e: Option<Csi>)
    ensures e == CsiEnd(data, 2)
  {
    var i := 2;
    while i < |data|
      invariant CsiEnd(data, 2) == CsiEnd(data, i)
      decreases |data| - i
    {
      var b := data[i];
      if IsCsiParam(b) {
        i := i + 1;
      } else if IsCsiFinal(b) {
        return Some(Csi(i + 1, IsReplyFinal(b)));
      } else {
        return Some(Csi(i, false));
      }
    }
    return None;
  }

  // ---- One step of the filter ----

  function FilterStep(data: Bytes): Step<Fate> {
    if |data| < 2 || data[0] != ESC then Take(1, Pass)
    else if IsOpener(data[1]) then
      match StringEnd(data, 2)
      case None => Hold
      case Some(end) => Take(end, Drop)
    else if data[1] == BRACKET then
      match CsiEnd(data, 2)
      case None => Hold
      case Some(csi) => Take(csi.end, if csi.reply then Drop else Pass)
    else Take(1, Pass)
  }

  function Filter(data: Bytes): Scanned<Fate> { Scan(FilterStep, data) }

  function Passed(s: Scanned<Fate>): Bytes { Kept(s.pieces, Passes) }

  // ---- What is removed ----

  predicate Quiet(data: Bytes, i: nat, j: nat)
    requires j <= |data|
  {
    forall k :: i <= k < j ==> data[k] != BEL && data[k] != ESC
  }

  /** The first `n` bytes are a string sequence that ends with BEL or ESC \, or that the ESC
      right after them aborts. */
  predicate IsString(data: Bytes, n: nat) {
    && 2 <= n <= |data| && data[0] == ESC && data[1] as char in "]P_^X"
    && (|| (n >= 3 && data[n - 1] == BEL && Quiet(data, 2, n - 1))
        || (n >= 4 && data[n - 2] == ESC && data[n - 1] == BACKSLASH && Quiet(data, 2, n - 2))
        || (n + 1 < |data| && data[n] == ESC && data[n + 1] != BACKSLASH && Quiet(data, 2, n)))
  }

  /** The first `n` bytes are a complete CSI sequence (section 5.4 of ECMA-48) whose final byte
      marks a device reply. */
  predicate IsReply(data: Bytes, n: nat) {
    && 3 <= n <= |data| && data[0] == ESC && data[1] == BRACKET
    && data[n - 1] as char in "cntxyR" && forall k :: 2 <= k < n - 1 ==> ' ' <= data[k] as char <= '?'
  }

  lemma OpenersListed(b: u8)
    ensures IsOpener(b) <==> b as char in "]P_^X"
  {
    assert "]P_^X" == [']', 'P', '_', '^', 'X'];
  }

  lemma FinalsListed(b: u8)
    ensures IsReplyFinal(b) <==> b as char in "cntxyR"
    ensures IsReplyFinal(b) ==> IsCsiFinal(b)
  {
    assert "cntxyR" == ['c', 'n', 't', 'x', 'y', 'R'];
  }

  lemma {:induction false} StringEndIs(data: Bytes, i: nat, n: nat)
    requires 2 <= i && |data| >= 2 && data[0] == ESC && IsOpener(data[1]) && i <= |data| && Quiet(data, 2, i)
    ensures StringEnd(data, i) == Some(n) <==> i <= n && IsString(data, n)
    decreases |data| - i
  {
    OpenersListed(data[1]);
    if i < |data| && data[i] != BEL && data[i] != ESC {
      StringEndIs(data, i + 1, n);
    }
  }

  lemma {:induction false} CsiEndIs(data: Bytes, i: nat, n: nat)
    requires 2 <= i <= |data| && data[0] == ESC && data[1] == BRACKET
    requires forall k :: 2 <= k < i ==> IsCsiParam(data[k])
    ensures CsiEnd(data, i) == Some(Csi(n, true)) <==> i < n && IsReply(data, n)
    decreases |data| - i
  {
    if i < |data| { FinalsListed(data[i]); }
    if i < |data| && IsCsiParam(data[i]) {
      CsiEndIs(data, i + 1, n);
    }
  }

  /** The filter removes string sequences and replies, all of them, and nothing else. */
  lemma RemovesExactly(data: Bytes, n: nat)
    requires data != []
    ensures Proper(FilterStep, data) == Take(n, Drop) <==> IsString(data, n) || IsReply(data, n)
  {
    if |data| >= 2 && data[0] == ESC {
      OpenersListed(data[1]);
      if IsOpener(data[1]) {
        StringEndIs(data, 2, n);
      } else if data[1] == BRACKET {
        CsiEndIs(data, 2, n);
      }
    }
  }

  /** So a piece of the input is dropped exactly when it is such a sequence where it stands. */
  lemma DropsExactly(data: Bytes, k: nat)
    requires k < |Filter(data).pieces|
    ensures var p, at := Filter(data).pieces[k], PieceStart(Filter(data).pieces, k);
      && at + |p.bytes| <= |data| && p.bytes == data[at..at + |p.bytes|]
      && (p.what == Drop <==> IsString(data[at..], |p.bytes|) || IsReply(data[at..], |p.bytes|))
  {
    PieceTaken(FilterStep, data, k);
    var p, at := Filter(data).pieces[k], PieceStart(Filter(data).pieces, k);
    RemovesExactly(data[at..], |p.bytes|);
  }

  lemma {:induction false} CsiSpan(data: Bytes, i: nat)
    requires i <= |data| && CsiEnd(data, i).Some?
    ensures forall j :: i <= j < CsiEnd(data, i).value.end ==> data[j] != ESC
    decreases |data| - i
  {
    if IsCsiParam(data[i]) { CsiSpan(data, i + 1); }
  }

  /** Past its first byte, a piece has an ESC only in the terminator of a dropped string. */
  lemma EscFirst(data: Bytes, n: nat, fate: Fate, j: nat)
    requires data != [] && Proper(FilterStep, data) == Take(n, fate) && 1 <= j < n <= |data| && data[j] == ESC
    ensures fate == Drop && j + 2 == n && data[j + 1] == BACKSLASH
  {
    OpenersListed(data[1]);
    if IsOpener(data[1]) {
      StringEndIs(data, 2, n);
    } else {
      CsiSpan(data, 2);
    }
  }

  /** So no sequence hides inside a piece: every ESC of the input starts a piece, ends a dropped
      string, or is held. */
  lemma EscStartsPiece(data: Bytes, k: nat, j: nat)
    requires k < |Filter(data).pieces| && 1 <= j < |Filter(data).pieces[k].bytes|
    requires Filter(data).pieces[k].bytes[j] == ESC
    ensures var p := Filter(data).pieces[k]; p.what == Drop && p.bytes[j..] == [ESC, BACKSLASH]
  {
    PieceTaken(FilterStep, data, k);
    var p, at := Filter(data).pieces[k], PieceStart(Filter(data).pieces, k);
    EscFirst(data[at..], |p.bytes|, p.what, j);
  }

  /** Nothing is held that begins with a complete sequence. */
  lemma HoldsNoSequence(data: Bytes, n: nat)
    ensures !IsString(Filter(data).tail, n) && !IsReply(Filter(data).tail, n)
  {
    TailHeld(FilterStep, data);
    if Filter(data).tail != [] { RemovesExactly(Filter(data).tail, n); }
  }

  /** Held is only what some continuation makes a complete string sequence or reply. */
  lemma HeldMayComplete(data: Bytes) returns (more: Bytes)
    requires Filter(data).tail != []
    ensures var whole := Filter(data).tail + more; IsString(whole, |whole|) || IsReply(whole, |whole|)
  {
    var tail := Filter(data).tail;
    TailHeld(FilterStep, data);
    OpenersListed(tail[1]);
    if IsOpener(tail[1]) {
      StringUnended(tail, 2);
      more := if |tail| > 2 && tail[|tail| - 1] == ESC then [BACKSLASH] else [BEL];
    } else {
      CsiUnended(tail, 2);
      more := ['n' as int];
      FinalsListed('n' as int);
    }
  }

  /** Only a last ESC may stand in a string that has not ended. */
  lemma {:induction false} StringUnended(data: Bytes, i: nat)
    requires i <= |data| && StringEnd(data, i).None?
    ensures Quiet(data, i, |data|) || (i < |data| && data[|data| - 1] == ESC && Quiet(data, i, |data| - 1))
    decreases |data| - i
  {
    if i < |data| && data[i] != ESC { StringUnended(data, i + 1); }
  }

  lemma {:induction false} CsiUnended(data: Bytes, i: nat)
    requires i <= |data| && CsiEnd(data, i).None?
    ensures forall k :: i <= k < |data| ==> IsCsiParam(data[k])
    decreases |data| - i
  {
    if i < |data| { CsiUnended(data, i + 1); }
  }

  // ---- Chunks ----

  /** Feeding one chunk after the other. */
  function FilterChunks(chunks: seq<Bytes>): Scanned<Fate> { ScanChunks(FilterStep, chunks) }

  lemma {:induction false} StringEndStable(data: Bytes, i: nat, more: Bytes)
    requires StringEnd(data, i).Some?
    ensures StringEnd(data + more, i) == StringEnd(data, i)
    decreases |data| - i
  {
    if data[i] != BEL && data[i] != ESC { StringEndStable(data, i + 1, more); }
  }

  lemma {:induction false} CsiEndStable(data: Bytes, i: nat, more: Bytes)
    requires CsiEnd(data, i).Some?
    ensures CsiEnd(data + more, i) == CsiEnd(data, i)
    decreases |data| - i
  {
    if IsCsiParam(data[i]) { CsiEndStable(data, i + 1, more); }
  }

  lemma StepStable(data: Bytes, more: Bytes)
    requires data != [] && data != [ESC] && FilterStep(data).Take?
    ensures FilterStep(data + more) == FilterStep(data)
  {
    assert (data + more)[0] == data[0];
    if |data| >= 2 && data[0] == ESC {
      assert (data + more)[1] == data[1];
      if IsOpener(data[1]) {
        StringEndStable(data, 2, more);
      } else if data[1] == BRACKET {
        CsiEndStable(data, 2, more);
      }
    }
  }

  /** Only a lone ESC is passed on although later bytes could change its meaning. */
  lemma SettledUnlessEsc(data: Bytes)
    ensures Settled(FilterStep, data) <==> data != [ESC]
  {
    if data == [ESC] {
      assert Proper(FilterStep, data) == Take(1, Pass);
      assert data + [0x5d] == [ESC, 0x5d];
      assert Proper(FilterStep, data + [0x5d]) == Hold;
    } else if Proper(FilterStep, data).Take? {
      forall more: Bytes ensures Proper(FilterStep, data + more) == Proper(FilterStep, data) {
        StepStable(data, more);
      }
    }
  }

  /** The last byte is ESC and nothing is held. */
  predicate EndsOnEsc(data: Bytes) {
    data != [] && data[|data| - 1] == ESC && Filter(data).tail == []
  }

  /** The scan of `data` ends by passing on an ESC of its own. */
  predicate PassesLastEsc(data: Bytes) {
    var s := Filter(data);
    s.tail == [] && s.pieces != [] && s.pieces[|s.pieces| - 1].bytes == [ESC]
  }

  /** No string sequence and no CSI sequence ends with ESC. */
  lemma {:induction false} StringEndsOther(data: Bytes, i: nat)
    requires StringEnd(data, i) == Some(|data|)
    ensures data != [] && data[|data| - 1] != ESC
    decreases |data| - i
  {
    if data[i] != BEL && data[i] != ESC { StringEndsOther(data, i + 1); }
  }

  lemma {:induction false} CsiEndsOther(data: Bytes, i: nat)
    requires CsiEnd(data, i).Some? && CsiEnd(data, i).value.end == |data|
    ensures data != [] && data[|data| - 1] != ESC
    decreases |data| - i
  {
    if IsCsiParam(data[i]) { CsiEndsOther(data, i + 1); }
  }

  lemma WholePieceEsc(data: Bytes)
    requires Proper(FilterStep, data).Take? && Proper(FilterStep, data).used == |data|
    ensures data[|data| - 1] == ESC <==> data == [ESC]
  {
    if |data| >= 2 {
      if IsOpener(data[1]) { StringEndsOther(data, 2); } else { CsiEndsOther(data, 2); }
    }
  }

  /** Of a scan that holds nothing, the last piece reaches to the end of the data. */
  lemma LastPiece(data: Bytes)
    requires data != [] && Filter(data).tail == []
    ensures var pieces, last := Filter(data).pieces, |Filter(data).pieces| - 1;
      && last >= 0 && TakenAt(FilterStep, data, PieceStart(pieces, last), pieces[last])
      && PieceStart(pieces, last) + |pieces[last].bytes| == |data|
  {
    var pieces := Filter(data).pieces;
    NotDone(data);
    ScanConserves(FilterStep, data);
    PieceTaken(FilterStep, data, |pieces| - 1);
    assert Flatten(pieces) + [] == Flatten(pieces);
  }

  lemma EndsOnEscPasses(data: Bytes)
    ensures EndsOnEsc(data) <==> PassesLastEsc(data)
  {
    if data != [] && Filter(data).tail == [] {
      LastPiece(data);
      var pieces := Filter(data).pieces;
      var rest := data[PieceStart(pieces, |pieces| - 1)..];
      assert rest == pieces[|pieces| - 1].bytes && rest[|rest| - 1] == data[|data| - 1];
      WholePieceEsc(rest);
    }
  }

  lemma SettledAlongUnlessEsc(data: Bytes)
    ensures SettledAlong(FilterStep, data) <==> !EndsOnEsc(data)
  {
    SettledAlongUnlessPassed(data);
    EndsOnEscPasses(data);
  }

  lemma {:induction false} SettledAlongUnlessPassed(data: Bytes)
    ensures SettledAlong(FilterStep, data) <==> !PassesLastEsc(data)
    decreases |data|
  {
    SettledUnlessEsc(data);
    var s := Proper(FilterStep, data);
    if s.Take? {
      var rest := data[s.used..];
      SettledAlongUnlessPassed(rest);
      var p := Piece(data[..s.used], s.what);
      ScanTakes(FilterStep, data, p);
      LastOf(p, Filter(rest).pieces);
      if rest == [] {
        assert data[..s.used] == data;
      } else {
        NotDone(rest);
      }
    }
  }

  lemma LastOf<T>(p: T, rest: seq<T>)
    ensures var all := [p] + rest; all[|all| - 1] == if rest == [] then p else rest[|rest| - 1]
  {
  }

  lemma NotDone(data: Bytes)
    requires data != []
    ensures Filter(data).tail != [] || Filter(data).pieces != []
  {
  }

  /** Cutting the input anywhere else is invisible: the same bytes pass and the same are held. */
  lemma ChunksFilterAlike(chunks: seq<Bytes>)
    requires forall k :: 0 <= k < |chunks| ==> !EndsOnEsc(Concat(chunks[..k]))
    ensures FilterChunks(chunks) == Filter(Concat(chunks))
  {
    forall k | 0 <= k < |chunks| ensures SettledAlong(FilterStep, Concat(chunks[..k])) {
      SettledAlongUnlessEsc(Concat(chunks[..k]));
    }
    ChunksDoNotMatter(FilterStep, chunks);
  }

  /** A cut is invisible, whatever follows, exactly when it is not just after such an ESC. */
  lemma CutInvisible(data: Bytes)
    ensures (forall more: Bytes :: Filter(data + more) == Then(Filter(data), Filter(Filter(data).tail + more)))
        <==> !EndsOnEsc(data)
  {
    SettledAlongUnlessEsc(data);
    if EndsOnEsc(data) {
      EndsOnEscPasses(data);
      EscCutShows(data);
    } else {
      forall more: Bytes ensures Filter(data + more) == Then(Filter(data), Filter(Filter(data).tail + more)) {
        ScanAppend(FilterStep, data, more);
      }
    }
  }

  /** After a passed ESC, a `]` is passed too; uncut, the two would be held. */
  lemma {:induction false} EscCutShows(data: Bytes)
    requires PassesLastEsc(data)
    ensures Filter(data + [0x5d]) != Then(Filter(data), Filter(Filter(data).tail + [0x5d]))
    decreases |data|
  {
    if data == [ESC] {
      LoneEscCutShows();
    } else {
      var s := Proper(FilterStep, data);
      var rest := data[s.used..];
      var p := Piece(data[..s.used], s.what);
      ScanTakes(FilterStep, data, p);
      LastOf(p, Filter(rest).pieces);
      assert data[..s.used] + rest == data;
      NotDone(rest);
      EscCutShows(rest);
      StepStable(data, [0x5d]);
      CutShowsInRest(FilterStep, data, [0x5d]);
    }
  }

  lemma LoneEscCutShows()
    ensures Filter([ESC] + [0x5d]) != Then(Filter([ESC]), Filter(Filter([ESC]).tail + [0x5d]))
  {
    assert [ESC] + [0x5d] == [ESC, 0x5d];
    assert Proper(FilterStep, [ESC, 0x5d]) == Hold;
    assert Proper(FilterStep, [ESC]) == Take(1, Pass) && [ESC][1..] == [];
    assert Filter([ESC]).tail == Filter([]).tail == [];
    assert [] + [0x5d] == [0x5d] && Proper(FilterStep, [0x5d]) == Take(1, Pass) && [0x5d][1..] == [];
    assert Filter([0x5d]).tail == Filter([]).tail == [];
  }

  /** What one more chunk adds. */
  lemma FilteredOneMore(chunks: seq<Bytes>, k: nat)
    requires k < |chunks|
    ensures var s, u := FilterChunks(chunks[..k]), FilterChunks(chunks[..k + 1]);
      var t := Filter([] + s.tail + chunks[k]);
      u.tail == t.tail && Passed(u) == Passed(s) + ([] + Passed(t))
  {
    var s := FilterChunks(chunks[..k]);
    FilteredNext(chunks, k);
    assert [] + s.tail == s.tail;
    ThenPassed(s, Filter(s.tail + chunks[k]));
  }

  lemma FilteredNext(chunks: seq<Bytes>, k: nat)
    requires k < |chunks|
    ensures var s := FilterChunks(chunks[..k]);
      FilterChunks(chunks[..k + 1]) == Then(s, Filter(s.tail + chunks[k]))
  {
    assert chunks[..k + 1][..k] == chunks[..k];
  }

  lemma ThenPassed(s: Scanned<Fate>, t: Scanned<Fate>)
    ensures Passed(Then(s, t)) == Passed(s) + ([] + Passed(t))
  {
    KeptAppend(s.pieces, t.pieces, Passes);
    assert [] + Passed(t) == Passed(t);
  }

  // ---- The filter object ----

  /** The scan has come to position `i` with this output. */
  ghost predicate Filtering(step: Bytes -> Step<Fate>, data: Bytes, ready: Bytes, i: nat, out: Bytes,
      done: seq<Piece<Fate>>)
  {
    i <= |data| && ScannedTo(step, data, i, done) && out == ready + Kept(done, Passes)
  }

  lemma FilteringOn(step: Bytes -> Step<Fate>, data: Bytes, ready: Bytes, i: nat, out: Bytes,
      done: seq<Piece<Fate>>) returns (next: seq<Piece<Fate>>)
    requires Filtering(step, data, ready, i, out, done) && Proper(step, data[i..]).Take?
    ensures var s := Proper(step, data[i..]);
      Filtering(step, data, ready, i + s.used, if s.what == Pass then out + data[i..i + s.used] else out, next)
  {
    var s := Proper(step, data[i..]);
    ScanAdvances(step, data, i, done, s.used, s.what);
    var p := Piece(data[i..i + s.used], s.what);
    next := done + [p];
    KeptAppend(done, [p], Passes);
    KeptOne(p, Passes);
    if s.what == Pass { Assoc(ready, Kept(done, Passes), p.bytes); }
  }

  lemma FilteringEnds(step: Bytes -> Step<Fate>, data: Bytes, ready: Bytes, i: nat, out: Bytes,
      done: seq<Piece<Fate>>)
    requires Filtering(step, data, ready, i, out, done) && Proper(step, data[i..]).Hold?
    ensures Scan(step, data).tail == data[i..] && out == ready + Passed(Scan(step, data))
  {
    ScanHolds(step, data, i, done);
  }

  /** One turn of the loop, looking at the byte after an ESC. */
  method NextPiece(ghost step: Bytes -> Step<Fate>, rest: Bytes) returns (s: Step<Fate>)
    requires rest != [] && Alike(step, FilterStep)
    ensures s == Proper(step, rest)
  {
    assert Proper(step, rest) == Proper(FilterStep, rest);
    if rest[0] != ESC || |rest| < 2 { return Take(1, Pass); }
    if IsOpener(rest[1]) {
      var end := FindStringEnd(rest);
      return if end.Some? then Take(end.value, Drop) else Hold;
    }
    if rest[1] == BRACKET {
      var end := FindCsiEnd(rest);
      return if end.Some? then Take(end.value.end, if end.value.reply then Drop else Pass) else Hold;
    }
    return Take(1, Pass);
  }

  /** Pass on one piece, or drop it. */
  method Emit(ghost step: Bytes -> Step<Fate>, s: Step<Fate>, data: Bytes, ghost ready: Bytes, out: Bytes, i: nat,
      ghost done: seq<Piece<Fate>>) returns (out': Bytes, ghost done': seq<Piece<Fate>>)
    requires Filtering(step, data, ready, i, out, done) && s == Proper(step, data[i..]) && s.Take?
    ensures Filtering(step, data, ready, i + s.used, out', done')
  {
    out' := out;
    done' := FilteringOn(step, data, ready, i, out, done);
    if s.what == Pass { out' := out + data[i..i + s.used]; }
  }

  /** The loop of `feed`. */
  method FilterLoop(data: Bytes, ready: Bytes) returns (out: Bytes, i: nat)
    ensures i <= |data| && Filter(data).tail == data[i..] && out == ready + Passed(Filter(data))
  {
    out, i := ready, 0;
    assert Alike(FilterStep, FilterStep);
    ghost var step: Bytes -> Step<Fate> :| Alike(step, FilterStep);
    ghost var done: seq<Piece<Fate>> := [];
    ScanStarts(step, data);
    while i < |data|
      invariant Filtering(step, data, ready, i, out, done)
    {
      var s := NextPiece(step, data[i..]);
      if s.Hold? { break; }
      out, done := Emit(step, s, data, ready, out, i, done);
      i := i + s.used;
    }
    FilteringEnds(step, data, ready, i, out, done);
    AlikeScans(step, FilterStep, data);
  }

  // ---- The order of arrival ----

  function Numbers(from: nat, n: nat): (r: seq<nat>)
    ensures |r| == n && forall i :: 0 <= i < n ==> r[i] == from + i
  {
    seq(n, i => from + i)
  }

  /** `order[i]` is the arrival number of byte `i` of the queue: no byte is lost, invented or
      doubled. */
  ghost predicate Arranged(queue: Bytes, input: Bytes, order: seq<nat>) {
    && |queue| == |input| == |order|
    && (forall i :: 0 <= i < |order| ==> order[i] < |input| && queue[i] == input[order[i]])
    && (forall i, k :: 0 <= i < k < |order| ==> order[i] != order[k])
  }

  ghost predicate Rising(order: seq<nat>) {
    forall i, k :: 0 <= i < k < |order| ==> order[i] < order[k]
  }

  /** The last `n` bytes arrived after all others, in this order. */
  ghost predicate Latest(order: seq<nat>, n: nat) {
    n <= |order| && forall i, k :: 0 <= i < k < |order| && |order| - n <= k ==> order[i] < order[k]
  }

  /** A rising arrangement is the input itself. */
  lemma RisingIsInput(queue: Bytes, input: Bytes, order: seq<nat>)
    requires Arranged(queue, input, order) && Rising(order)
    ensures queue == input
  {
    var n := |order|;
    forall i | 0 <= i < n ensures order[i] == i {
      RisesFast(order, 0, i);
      RisesFast(order, i, n - 1);
    }
  }

  lemma {:induction false} RisesFast(order: seq<nat>, i: nat, k: nat)
    requires Rising(order) && i <= k < |order|
    ensures order[k] - order[i] >= k - i
    decreases k - i
  {
    if i < k { RisesFast(order, i, k - 1); }
  }

  /** New bytes join at the end. */
  lemma Joins(queue: Bytes, input: Bytes, order: seq<nat>, bytes: Bytes, late: nat)
    requires Arranged(queue, input, order) && Latest(order, late)
    ensures var next := order + Numbers(|input|, |bytes|);
      && Arranged(queue + bytes, input + bytes, next) && Latest(next, late + |bytes|)
      && (Rising(next) <==> Rising(order))
  {
    var next := order + Numbers(|input|, |bytes|);
    if Rising(next) {
      forall i, k | 0 <= i < k < |order| ensures order[i] < order[k] {
        assert next[i] < next[k];
      }
    }
  }

  /** The numbers of a queue whose `late` injected bytes move in front of the `held` ones. */
  function Overtake(order: seq<nat>, held: nat, late: nat): (r: seq<nat>)
    requires held + late <= |order|
    ensures |r| == |order|
  {
    var done := |order| - held - late;
    order[..done] + order[done + held..] + order[done..done + held]
  }

  /** Injected bytes that overtake held ones, and nothing else, spoil the order. */
  lemma Overtakes(front: Bytes, held: Bytes, late: Bytes, input: Bytes, order: seq<nat>)
    requires Arranged(front + held + late, input, order) && Latest(order, |late|)
    ensures var next := Overtake(order, |held|, |late|);
      && Arranged(front + late + held, input, next)
      && (Rising(next) <==> Rising(order) && (held == [] || late == []))
  {
    var next, done := Overtake(order, |held|, |late|), |front|;
    QueueOvertaken(front, held, late);
    OvertakenAt(order, |held|, |late|);
    CameOnce(done, |held|, |late|);
    Rearranged(front + held + late, front + late + held, input, order, next, i => Came(i, done, |held|, |late|));
    OvertakenRises(order, |held|, |late|);
  }

  lemma QueueOvertaken(front: Bytes, held: Bytes, late: Bytes)
    ensures forall i :: 0 <= i < |front + late + held| ==>
      Came(i, |front|, |held|, |late|) < |front + held + late|
      && (front + late + held)[i] == (front + held + late)[Came(i, |front|, |held|, |late|)]
  {
  }

  /** An arrangement whose bytes and numbers move together stays one. */
  lemma Rearranged(was: Bytes, now: Bytes, input: Bytes, order: seq<nat>, next: seq<nat>, came: nat -> nat)
    requires Arranged(was, input, order) && |now| == |was| && |next| == |order|
    requires forall i: nat :: i < |next| ==> came(i) < |order| && next[i] == order[came(i)] && now[i] == was[came(i)]
    requires forall i: nat, k: nat :: i < k < |next| ==> came(i) != came(k)
    ensures Arranged(now, input, next)
  {
    forall i: nat, k: nat | i < k < |next| ensures next[i] != next[k] {
      var a, b := came(i), came(k);
      assert if a < b then order[a] != order[b] else order[b] != order[a];
    }
  }

  lemma OvertakenAt(order: seq<nat>, held: nat, late: nat)
    requires held + late <= |order|
    ensures forall i :: 0 <= i < |order| ==>
      Overtake(order, held, late)[i] == order[Came(i, |order| - held - late, held, late)]
  {
  }

  lemma OvertakenRises(order: seq<nat>, held: nat, late: nat)
    requires held + late <= |order| && Latest(order, late)
    ensures Rising(Overtake(order, held, late)) <==> Rising(order) && (held == 0 || late == 0)
  {
    var next, done := Overtake(order, held, late), |order| - held - late;
    if held != 0 && late != 0 {
      assert next[done] == order[done + held] && next[done + late] == order[done];
    } else {
      assert next == order;
    }
  }

  lemma CameOnce(done: nat, held: nat, late: nat)
    ensures forall i, k :: 0 <= i < k < done + held + late ==> Came(i, done, held, late) != Came(k, done, held, late)
    ensures forall i :: 0 <= i < done + held + late ==> Came(i, done, held, late) < done + held + late
  {
  }

  /** Where byte `i` stood before. */
  function Came(i: nat, done: nat, held: nat, late: nat): (k: nat)
    ensures i < done + held + late ==> k < done + held + late
  {
    if i < done then i else if i < done + late then i + held else if i < done + late + held then i - late else i
  }

  /** Every byte of the input is handled, staged, held or injected, once, in this order of
      arrival. */
  ghost predicate Accounted(handled: Bytes, ready: Bytes, pending: Bytes, injected: Bytes, input: Bytes,
      order: seq<nat>, undisturbed: bool)
  {
    && Arranged(handled + ready + pending + injected, input, order) && Latest(order, |injected|)
    && (undisturbed <==> Rising(order))
  }

  lemma NothingYet()
    ensures Accounted([], [], [], [], [], [], true)
  {
    var none: Bytes := [];
    assert none + none + none + none == none;
  }

  lemma Injected(handled: Bytes, ready: Bytes, pending: Bytes, injected: Bytes, input: Bytes, order: seq<nat>,
      undisturbed: bool, bytes: Bytes) returns (next: seq<nat>)
    requires Accounted(handled, ready, pending, injected, input, order, undisturbed)
    ensures Accounted(handled, ready, pending, injected + bytes, input + bytes, next, undisturbed)
  {
    Joins(handled + ready + pending + injected, input, order, bytes, |injected|);
    Assoc(handled + ready + pending, injected, bytes);
    next := order + Numbers(|input|, |bytes|);
  }

  lemma Flushed(handled: Bytes, ready: Bytes, pending: Bytes, injected: Bytes, input: Bytes, order: seq<nat>,
      undisturbed: bool)
    requires Accounted(handled, ready, pending, injected, input, order, undisturbed)
    ensures Accounted(handled, ready + pending, [], injected, input, order, undisturbed)
  {
    Assoc(handled, ready, pending);
    assert handled + (ready + pending) + [] == handled + ready + pending;
  }

  /** A feed that scans its data to `s`. */
  lemma Refed(handled: Bytes, ready: Bytes, pending: Bytes, injected: Bytes, input: Bytes, order: seq<nat>,
      undisturbed: bool, chunk: Bytes, s: Scanned<Fate>) returns (next: seq<nat>)
    requires Accounted(handled, ready, pending, injected, input, order, undisturbed)
    requires Flatten(s.pieces) + s.tail == injected + pending + chunk
    ensures var still, done := undisturbed && (injected == [] || pending == []), handled + ready + Flatten(s.pieces);
      && Accounted(done, [], s.tail, [], input + chunk, next, still)
      && (still ==> done + s.tail == input + chunk)
  {
    var front, turned := handled + ready, Overtake(order, |pending|, |injected|);
    Overtakes(front, pending, injected, input, order);
    Joins(front + injected + pending, input, turned, chunk, 0);
    next := turned + Numbers(|input|, |chunk|);
    FedQueue(front, injected, pending, chunk, Flatten(s.pieces), s.tail);
    if Rising(next) { RisingIsInput(front + injected + pending + chunk, input + chunk, next); }
  }

  lemma FedQueue(front: Bytes, injected: Bytes, pending: Bytes, chunk: Bytes, out: Bytes, tail: Bytes)
    requires out + tail == injected + pending + chunk
    ensures front + injected + pending + chunk == front + out + tail == front + out + [] + tail + []
  {
    Assoc(front, out, tail);
    assert front + injected + pending + chunk == front + (injected + pending + chunk);
  }

  class InputFilter {
    var pending: Bytes
    var holding: bool      // the hold timer runs
    var injected: Bytes
    var ready: Bytes

    /** All bytes in order of arrival, those passed or dropped in order of handling, and the
        arrival number of each byte. */
    ghost var input: Bytes
    ghost var handled: Bytes
    ghost var order: seq<nat>

    /** No feed has found injected bytes waiting behind held ones. */
    ghost var undisturbed: bool

    ghost predicate Valid()
      reads this
    {
      (holding <==> pending != []) && Accounted(handled, ready, pending, injected, input, order, undisturbed)
    }

    constructor ()
      ensures Valid() && pending == [] && injected == [] && ready == []
      ensures input == [] && handled == [] && undisturbed
    {
      pending, holding, injected, ready := [], false, [], [];
      input, handled, order, undisturbed := [], [], [], true;
      NothingYet();
    }

    method Inject(bytes: Bytes)
      requires Valid()
      modifies this`injected, this`input, this`order
      ensures Valid() && injected == old(injected) + bytes && input == old(input) + bytes
    {
      order := Injected(handled, ready, pending, injected, input, order, undisturbed, bytes);
      injected, input := injected + bytes, input + bytes;
    }

    /** Passes what the filter passes; what it neither passes nor drops is kept for later. As
        long as it never finds bytes both injected and held, everything is handled in order of
        arrival. */
    method Feed(chunk: Bytes) returns (out: Bytes)
      requires Valid()
      modifies this
      ensures Valid()
      ensures var s := Filter(old(injected) + old(pending) + chunk);
        && out == old(ready) + Passed(s) && pending == s.tail
        && Flatten(s.pieces) + pending == old(injected) + old(pending) + chunk
        && handled == old(handled) + old(ready) + Flatten(s.pieces)
      ensures injected == [] && ready == []
      ensures input == old(input) + chunk
      ensures undisturbed <==> old(undisturbed) && (old(injected) == [] || old(pending) == [])
      ensures undisturbed ==> handled + pending == input
    {
      var data := injected + pending + chunk;
      ghost var s := Filter(data);
      ScanConserves(FilterStep, data);
      order := Refed(handled, ready, pending, injected, input, order, undisturbed, chunk, s);
      undisturbed := undisturbed && (injected == [] || pending == []);
      input, handled := input + chunk, handled + ready + Flatten(s.pieces);
      var i;
      out, i := FilterLoop(data, ready);
      injected, ready, pending := [], [], data[i..];
      holding := pending != [];
    }

    method FlushExpired(expired: bool)
      requires Valid()
      modifies this`holding, this`ready, this`pending
      ensures Valid() && injected == old(injected)
      ensures if expired then ready == old(ready) + old(pending) && pending == []
              else ready == old(ready) && pending == old(pending)
    {
      if holding && expired {
        Flushed(handled, ready, pending, injected, input, order, undisturbed);
        holding := false;
        ready, pending := ready + pending, [];
      }
    }

    /** Feed an idle filter one chunk after the other. */
    method FeedChunks(chunks: seq<Bytes>) returns (out: Bytes)
      requires Valid() && pending == [] && injected == [] && ready == []
      modifies this
      ensures Valid() && injected == [] && ready == []
      ensures var s := FilterChunks(chunks); out == Passed(s) && pending == s.tail
      ensures (forall k :: 0 <= k < |chunks| ==> !EndsOnEsc(Concat(chunks[..k]))) ==>
        out == Passed(Filter(Concat(chunks))) && pending == Filter(Concat(chunks)).tail
    {
      out := [];
      for k := 0 to |chunks|
        invariant Valid() && injected == [] && ready == []
        invariant out == Passed(FilterChunks(chunks[..k])) && pending == FilterChunks(chunks[..k]).tail
      {
        FilteredOneMore(chunks, k);
        var more := Feed(chunks[k]);
        out := out + more;
      }
      assert chunks[..|chunks|] == chunks;
      if forall k :: 0 <= k < |chunks| ==> !EndsOnEsc(Concat(chunks[..k])) { ChunksFilterAlike(chunks); }
    }
  }
}
