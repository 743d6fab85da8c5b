/**
 * SGR (section 8.3.117 of ECMA-48): the interpreter `Grid::set_sgr` and the emitter
 * `emit_sgr`.  A parameter list is a sequence of groups, one for each `;`-separated
 * parameter, holding that parameter's `:`-separated subparameters.
 */
module Sgr {
  import opened Ints
  import opened Wrappers
  import opened Cells

  type Groups = seq<seq<u16>>

  /** Arguments of an extended colour, starting at the colour-space selector. */
  function ParseColor(args: seq<u16>): Option<Color> {
    if |args| == 0 then None
    else if args[0] == 5 then
      if |args| >= 2 then Some(Indexed(args[1] % 256)) else None
    else if args[0] == 2 then
      if |args| == 4 then Some(Rgb(args[1] % 256, args[2] % 256, args[3] % 256))
      else if |args| >= 5 then Some(Rgb(args[2] % 256, args[3] % 256, args[4] % 256))
      else None
    else None
  }

  /** How many arguments the colour mode named by `args` needs. */
  function Needed(args: seq<u16>): nat {
    if |args| > 0 && args[0] == 5 then 2
    else if |args| > 0 && args[0] == 2 then 4
    else 1
  }

  /** Pull following groups until `needed` arguments are there; also the groups left over. */
  function Gather(rest: Groups, args: seq<u16>, needed: nat): (r: (seq<u16>, Groups))
    ensures |r.1| <= |rest|
  {
    if |args| < needed && rest != [] then Gather(rest[1..], args + rest[0], needed)
    else (args, rest)
  }

  function SetColor(pen: Style, code: u16, color: Option<Color>): Style {
    match color
    case None => pen
    case Some(c) =>
      if code == 38 then pen.(fg := c)
      else if code == 48 then pen.(bg := c)
      else pen
  }

  /** The single-group codes. */
  function Simple(pen: Style, code: u16): Style {
    if code == 0 then PLAIN
    else if code == 1 then pen.(attrs := pen.attrs.(bold := true))
    else if code == 3 then pen.(attrs := pen.attrs.(italic := true))
    else if code == 4 then pen.(attrs := pen.attrs.(underline := true))
    else if code == 7 then pen.(attrs := pen.attrs.(reverse := true))
    else if code == 22 then pen.(attrs := pen.attrs.(bold := false))
    else if code == 23 then pen.(attrs := pen.attrs.(italic := false))
    else if code == 24 then pen.(attrs := pen.attrs.(underline := false))
    else if code == 27 then pen.(attrs := pen.attrs.(reverse := false))
    else if code == 39 then pen.(fg := Default)
    else if code == 49 then pen.(bg := Default)
    else if 30 <= code <= 37 then pen.(fg := Indexed(code - 30))
    else if 90 <= code <= 97 then pen.(fg := Indexed(code - 90 + 8))
    else if 40 <= code <= 47 then pen.(bg := Indexed(code - 40))
    else if 100 <= code <= 107 then pen.(bg := Indexed(code - 100 + 8))
    else pen
  }

  predicate IsExtended(code: u16) {
    code == 38 || code == 48 || code == 58
  }

  function Code(group: seq<u16>): u16 {
    if |group| == 0 then 0 else group[0]
  }

  /** Interpret the first group (and the groups an extended colour consumes): the new pen
      and the groups still to be read. */
  function Step(params: Groups, pen: Style): (r: (Style, Groups))
    requires params != []
    ensures |r.1| < |params|
  {
    var code := Code(params[0]);
    if IsExtended(code) then
      var own := params[0][1..];
      var (args, rest) :=
        if own == [] && |params| > 1 then (params[1], params[2..]) else (own, params[1..]);
      var (all, after) := Gather(rest, args, Needed(args));
      (SetColor(pen, code, ParseColor(all)), after)
    else
      (Simple(pen, code), params[1..])
  }

  function Interpret(params: Groups, pen: Style): Style
    decreases |params|
  {
    if params == [] then pen
    else var (pen', rest) := Step(params, pen); Interpret(rest, pen')
  }

  /** The loop that pulls in the arguments of a colour, from group `i` on. */
  method GatherArgs(params: Groups, i: nat, args: seq<u16>) returns (all: seq<u16>, next: nat)
    requires i <= |params|
    ensures i <= next <= |params| && (all, params[next..]) == Gather(params[i..], args, Needed(args))
  {
    all, next := args, i;
    var needed := Needed(args);
    while |all| < needed && next < |params|
      invariant i <= next <= |params|
      invariant Gather(params[next..], all, needed) == Gather(params[i..], args, needed)
    {
      all, next := all + params[next], next + 1;
    }
  }

  /** One turn of the loop of `set_sgr`, at group `i`. */
  method ReadGroup(params: Groups, i: nat, pen: Style) returns (style: Style, next: nat)
    requires i < |params|
    ensures i < next <= |params| && Step(params[i..], pen) == (style, params[next..])
  {
    var code := Code(params[i]);
    next := i + 1;
    if !IsExtended(code) { return Simple(pen, code), next; }
    var args := params[i][1..];
    if args == [] && next < |params| {
      args := params[next];
      next := next + 1;
    }
    args, next := GatherArgs(params, next, args);
    style := SetColor(pen, code, ParseColor(args));
  }

  /** The loop of `set_sgr` over the parameter groups. */
  method ReadGroups(params: Groups, pen: Style) returns (style: Style)
    ensures style == Interpret(params, pen)
  {
    style := pen;
    var i := 0;
    while i < |params|
      invariant i <= |params| && Interpret(params[i..], style) == Interpret(params, pen)
    {
      style, i := ReadGroup(params, i, style);
    }
  }

  /** `set_sgr`: an empty parameter list is a reset. */
  function Apply(params: Groups, pen: Style): Style {
    if params == [] then PLAIN else Interpret(params, pen)
  }

  /** `emit_sgr`: parameters after the leading reset, as semicolon groups. */
  function AttrCodes(a: Attr): Groups {
    (if a.bold then [[1]] else []) + (if a.italic then [[3]] else [])
    + (if a.underline then [[4]] else []) + (if a.reverse then [[7]] else [])
  }

  function ColorCodes(c: Color, base: u16, bright: u16, extended: u16): Groups
    requires base <= 1000 && bright <= 1000
  {
    match c
    case Default => []
    case Indexed(n) =>
      if n < 8 then [[base + n]]
      else if n < 16 then [[bright + (n - 8)]]
      else [[extended], [5], [n]]
    case Rgb(r, g, b) => [[extended], [2], [r], [g], [b]]
  }

  function Emit(s: Style): Groups {
    [[0]] + AttrCodes(s.attrs) + ColorCodes(s.fg, 30, 90, 38) + ColorCodes(s.bg, 40, 100, 48)
  }

  // ---- Reading back what was emitted ----

  /** Reading `xs` turns pen `p` into pen `q` and stops exactly at the end of `xs`,
      whatever comes next. */
  ghost predicate Reads(xs: Groups, p: Style, q: Style) {
    forall rest: Groups {:trigger xs + rest} :: Interpret(xs + rest, p) == Interpret(rest, q)
  }

  lemma ReadsAppend(xs: Groups, ys: Groups, p: Style, q: Style, r: Style)
    requires Reads(xs, p, q) && Reads(ys, q, r)
    ensures Reads(xs + ys, p, r)
  {
    forall rest: Groups ensures Interpret((xs + ys) + rest, p) == Interpret(rest, r) {
      assert (xs + ys) + rest == xs + (ys + rest);
    }
  }

  lemma ReadsNothing(p: Style)
    ensures Reads([], p, p)
  {
    forall rest: Groups ensures Interpret([] + rest, p) == Interpret(rest, p) {
      assert [] + rest == rest;
    }
  }

  lemma ReadsSimple(code: u16, p: Style)
    requires !IsExtended(code)
    ensures Reads([[code]], p, Simple(p, code))
  {
    forall rest: Groups
      ensures Interpret([[code]] + rest, p) == Interpret(rest, Simple(p, code))
    {
      assert ([[code]] + rest)[1..] == rest;
    }
  }

  /** Each part of the pen is set by its own codes, put back by its own code and by 0, and left
      alone by every other code. */
  predicate OneCodeSets(p: Style, code: u16, q: Style) {
    && (q.attrs.bold <==> code == 1 || (p.attrs.bold && code !in {0, 22}))
    && (q.attrs.italic <==> code == 3 || (p.attrs.italic && code !in {0, 23}))
    && (q.attrs.underline <==> code == 4 || (p.attrs.underline && code !in {0, 24}))
    && (q.attrs.reverse <==> code == 7 || (p.attrs.reverse && code !in {0, 27}))
    && ColorAfter(p.fg, code, 30, 90, 39, q.fg)
    && ColorAfter(p.bg, code, 40, 100, 49, q.bg)
  }

  /** Eight dark colours, eight bright ones, and the default. */
  predicate ColorAfter(was: Color, code: u16, dark: int, bright: int, default: int, now: Color) {
    if code == default || code == 0 then now == Default
    else if dark <= code < dark + 8 then now == Indexed(code - dark)
    else if bright <= code < bright + 8 then now == Indexed(code - bright + 8)
    else now == was
  }

  /** A code that is not an extended colour, whatever follows it; an empty group counts as 0, and so does an
      empty list. */
  lemma OneCodeExact(group: seq<u16>, p: Style) returns (q: Style)
    requires !IsExtended(Code(group))
    ensures OneCodeSets(p, if group == [] then 0 else group[0], q)
    ensures Reads([group], p, q)
    ensures Apply([], p) == PLAIN && Apply([group], p) == q
  {
    assert [group] + [] == [group];
    q := Simple(p, Code(group));
    forall rest: Groups ensures Interpret([group] + rest, p) == Interpret(rest, q) {
      assert ([group] + rest)[1..] == rest;
    }
  }

  /** The colour an extended one sets: 38 the foreground, 48 the background, and 58 neither. */
  predicate ExtendedSets(p: Style, code: u16, c: Color, q: Style) {
    q == if code == 38 then p.(fg := c) else if code == 48 then p.(bg := c) else p
  }

  /** One extended colour, spelled with colons or with semicolons. */
  function Extended(code: u16, args: seq<u16>, colon: bool): Groups {
    if colon then [[code] + args] else [[code]] + seq(|args|, i requires 0 <= i < |args| => [args[i]])
  }

  lemma {:induction false} GatherSingles(singles: Groups, rest: Groups, args: seq<u16>, all: seq<u16>)
    requires |args| + |singles| == |all| && args == all[..|args|]
    requires forall i :: 0 <= i < |singles| ==> singles[i] == [all[|args| + i]]
    ensures Gather(singles + rest, args, |all|) == (all, rest)
    decreases |singles|
  {
    if singles == [] {
      assert singles + rest == rest && args == all;
    } else {
      var more := singles + rest;
      assert more[1..] == singles[1..] + rest && more[0] == singles[0];
      assert args + more[0] == all[..|args| + 1];
      GatherSingles(singles[1..], rest, args + more[0], all);
    }
  }

  /** A colon group with arguments enough is read on its own, colour-space id and all. */
  lemma ColonReads(code: u16, args: seq<u16>, p: Style)
    requires IsExtended(code) && args != [] && |args| >= Needed(args)
    ensures Reads(Extended(code, args, true), p, SetColor(p, code, ParseColor(args)))
  {
    var xs := Extended(code, args, true);
    forall rest: Groups
      ensures Interpret(xs + rest, p) == Interpret(rest, SetColor(p, code, ParseColor(args)))
    {
      assert (xs + rest)[0][1..] == args && (xs + rest)[1..] == rest;
    }
  }

  /** An extended colour reads the same whether its arguments ride inside one colon group
      or follow as semicolon groups, and takes no argument that is not its own. */
  lemma ReadsExtended(code: u16, args: seq<u16>, p: Style, colon: bool)
    requires IsExtended(code)
    requires (|args| == 2 && args[0] == 5) || (|args| == 4 && args[0] == 2)
    ensures Reads(Extended(code, args, colon), p, SetColor(p, code, ParseColor(args)))
  {
    var xs := Extended(code, args, colon);
    if colon {
      ColonReads(code, args, p);
    } else {
      forall rest: Groups
        ensures Interpret(xs + rest, p) == Interpret(rest, SetColor(p, code, ParseColor(args)))
      {
        var all := xs + rest;
        assert all[0] == [code] && all[1] == [args[0]];
        assert all[0][1..] == [];
        assert all[2..] == xs[2..] + rest;
        GatherSingles(xs[2..], rest, [args[0]], args);
      }
    }
  }

  /** In either spelling, 38 sets the foreground, 48 the background and 58 nothing, to the
      palette entry or the levels named, each modulo 256. */
  lemma ExtendedExact(code: u16, r: u16, g: u16, b: u16, p: Style, colon: bool) returns (indexed: Style, rgb: Style)
    requires code == 38 || code == 48 || code == 58
    ensures ExtendedSets(p, code, Indexed(r % 256), indexed)
    ensures Reads(Extended(code, [5, r], colon), p, indexed)
    ensures ExtendedSets(p, code, Rgb(r % 256, g % 256, b % 256), rgb)
    ensures Reads(Extended(code, [2, r, g, b], colon), p, rgb)
  {
    ReadsExtended(code, [5, r], p, colon);
    ReadsExtended(code, [2, r, g, b], p, colon);
    indexed := SetColor(p, code, Some(Indexed(r % 256)));
    rgb := SetColor(p, code, Some(Rgb(r % 256, g % 256, b % 256)));
  }

  /** Inside one colon group a colour-space id may come before the levels, and is skipped. */
  lemma SpaceIdSkipped(code: u16, id: u16, r: u16, g: u16, b: u16, p: Style) returns (q: Style)
    requires code == 38 || code == 48 || code == 58
    ensures ExtendedSets(p, code, Rgb(r % 256, g % 256, b % 256), q)
    ensures Reads([[code, 2, id, r, g, b]], p, q)
  {
    ColonReads(code, [2, id, r, g, b], p);
    assert [code] + [2, id, r, g, b] == [code, 2, id, r, g, b];
    q := SetColor(p, code, Some(Rgb(r % 256, g % 256, b % 256)));
  }

  /** Colon and semicolon spellings of an extended colour mean the same, whatever follows. */
  lemma ColonAgreesWithSemicolon(code: u16, args: seq<u16>, rest: Groups, p: Style)
    requires IsExtended(code)
    requires (|args| == 2 && args[0] == 5) || (|args| == 4 && args[0] == 2)
    ensures Interpret(Extended(code, args, true) + rest, p)
         == Interpret(Extended(code, args, false) + rest, p)
  {
    ReadsExtended(code, args, p, true);
    ReadsExtended(code, args, p, false);
  }

  // ---- Colours with a colour-space id ----

  /** Codes the interpreter does nothing for. */
  predicate Ignored(code: u16) {
    && !IsExtended(code) && code !in {0, 1, 3, 4, 7, 22, 23, 24, 27, 39, 49}
    && !(30 <= code <= 37 || 40 <= code <= 47 || 90 <= code <= 97 || 100 <= code <= 107)
  }

  /** With semicolons the id is taken for red, and blue for a code of its own. */
  lemma SemicolonsReadId(code: u16, cs: u16, r: u16, g: u16, b: u16, p: Style, rest: Groups)
    requires IsExtended(code)
    ensures var q := SetColor(p, code, Some(Rgb(cs % 256, r % 256, g % 256)));
      Interpret(Extended(code, [2, cs, r, g, b], false) + rest, p) == Interpret([[b]] + rest, q)
  {
    var xs := Extended(code, [2, cs, r, g], false);
    assert Extended(code, [2, cs, r, g, b], false) + rest == xs + ([[b]] + rest);
    ReadsExtended(code, [2, cs, r, g], p, false);
  }

  /** Both spellings mean the same, for this pen and whatever is read after them. */
  ghost predicate SpellingsAgree(code: u16, args: seq<u16>, p: Style, rest: Groups) {
    Interpret(Extended(code, args, true) + rest, p) == Interpret(Extended(code, args, false) + rest, p)
  }

  lemma AgreeMeans(code: u16, cs: u16, r: u16, g: u16, b: u16, p: Style, rest: Groups)
    requires IsExtended(code)
    ensures SpellingsAgree(code, [2, cs, r, g, b], p, rest) <==>
      Interpret(rest, SetColor(p, code, Some(Rgb(r % 256, g % 256, b % 256))))
        == Interpret([[b]] + rest, SetColor(p, code, Some(Rgb(cs % 256, r % 256, g % 256))))
  {
    ColonReads(code, [2, cs, r, g, b], p);
    SemicolonsReadId(code, cs, r, g, b, p, rest);
  }

  const DECKED := Style(Indexed(1), Indexed(1), Attr(true, true, true, true))

  /** A code that is not ignored shows on one of two pens. */
  lemma EffectShows(code: u16, b: u16, c: Color, d: Color)
    requires IsExtended(code) && !IsExtended(b) && !Ignored(b) && c.Rgb? && d.Rgb?
    ensures SetColor(PLAIN, code, Some(c)) != Simple(SetColor(PLAIN, code, Some(d)), b)
         || SetColor(DECKED, code, Some(c)) != Simple(SetColor(DECKED, code, Some(d)), b)
  {
  }

  lemma OneCode(b: u16, q: Style)
    ensures Interpret([[b]] + [], q) == if IsExtended(b) then q else Simple(q, b)
    ensures Interpret([], q) == q
  {
    assert [[b]] + [] == [[b]] && [[b]][1..] == [] && [b][1..] == [];
  }

  /** An extended colour in its place takes the two groups that follow: 5 and 1 name a colour. */
  lemma ExtendedTakes(code: u16, b: u16, q: Style)
    requires IsExtended(b)
    ensures Interpret([[b]] + [[5], [1]], q) == SetColor(q, b, Some(Indexed(1)))
    ensures Interpret([[5], [1]], q) == q.(attrs := q.attrs.(bold := true))
  {
    ReadsExtended(b, [5, 1], q, false);
    assert Extended(b, [5, 1], false) + [] == [[b]] + [[5], [1]];
    assert [[5], [1]][1..] == [[1]] && [[1]][1..] == [];
  }

  /** For a colour-space id and three components the two spellings mean the same, for every pen
      and whatever follows, exactly when the last component is a code that does nothing and, unless
      the colour itself is ignored (code 58), all four numbers name the same level. */
  lemma SpaceIdAgreesExactly(code: u16, cs: u16, r: u16, g: u16, b: u16)
    requires IsExtended(code)
    ensures (forall p, rest :: SpellingsAgree(code, [2, cs, r, g, b], p, rest)) <==>
      Ignored(b) && (code == 58 || cs % 256 == r % 256 == g % 256 == b % 256)
  {
    var args := [2, cs, r, g, b];
    var c, d := Rgb(r % 256, g % 256, b % 256), Rgb(cs % 256, r % 256, g % 256);
    if Ignored(b) && (code == 58 || c == d) {
      forall p, rest ensures SpellingsAgree(code, args, p, rest) {
        AgreeMeans(code, cs, r, g, b, p, rest);
        ReadsSimple(b, SetColor(p, code, Some(d)));
      }
    } else if IsExtended(b) {
      AgreeMeans(code, cs, r, g, b, PLAIN, [[5], [1]]);
      ExtendedTakes(code, b, SetColor(PLAIN, code, Some(d)));
      ExtendedTakes(code, b, SetColor(PLAIN, code, Some(c)));
      assert !SpellingsAgree(code, args, PLAIN, [[5], [1]]);
    } else {
      AgreeMeans(code, cs, r, g, b, PLAIN, []);
      AgreeMeans(code, cs, r, g, b, DECKED, []);
      OneCode(b, SetColor(PLAIN, code, Some(d)));
      OneCode(b, SetColor(DECKED, code, Some(d)));
      OneCode(b, SetColor(PLAIN, code, Some(c)));
      OneCode(b, SetColor(DECKED, code, Some(c)));
      if !Ignored(b) { EffectShows(code, b, c, d); }
      assert !SpellingsAgree(code, args, PLAIN, []) || !SpellingsAgree(code, args, DECKED, []);
    }
  }

  lemma ReadsIndexed(code: u16, n: u8, p: Style)
    requires IsExtended(code)
    ensures Reads([[code], [5], [n]], p, SetColor(p, code, Some(Indexed(n))))
  {
    ReadsExtended(code, [5, n], p, false);
    assert Extended(code, [5, n], false) == [[code], [5], [n]];
  }

  lemma ReadsRgb(code: u16, r: u8, g: u8, b: u8, p: Style)
    requires IsExtended(code)
    ensures Reads([[code], [2], [r], [g], [b]], p, SetColor(p, code, Some(Rgb(r, g, b))))
  {
    ReadsExtended(code, [2, r, g, b], p, false);
    assert Extended(code, [2, r, g, b], false) == [[code], [2], [r], [g], [b]];
  }

  lemma ReadsFlag(on: bool, code: u16, p: Style)
    requires !IsExtended(code)
    ensures Reads(if on then [[code]] else [], p, if on then Simple(p, code) else p)
  {
    if on { ReadsSimple(code, p); } else { ReadsNothing(p); }
  }

  lemma ReadsAttrs(a: Attr, p: Style)
    requires p.attrs == PLAIN.attrs
    ensures Reads(AttrCodes(a), p, p.(attrs := a))
  {
    var b := if a.bold then Simple(p, 1) else p;
    var i := if a.italic then Simple(b, 3) else b;
    var u := if a.underline then Simple(i, 4) else i;
    var r := if a.reverse then Simple(u, 7) else u;
    ReadsFlag(a.bold, 1, p);
    ReadsFlag(a.italic, 3, b);
    ReadsFlag(a.underline, 4, i);
    ReadsFlag(a.reverse, 7, u);
    var c1 := if a.bold then [[1]] else [];
    var c2 := if a.italic then [[3]] else [];
    var c3 := if a.underline then [[4]] else [];
    var c4 := if a.reverse then [[7]] else [];
    ReadsAppend(c1, c2, p, b, i);
    ReadsAppend(c1 + c2, c3, p, i, u);
    ReadsAppend(c1 + c2 + c3, c4, p, u, r);
  }

  lemma ReadsForeground(c: Color, p: Style)
    requires p.fg == Default
    ensures Reads(ColorCodes(c, 30, 90, 38), p, p.(fg := c))
  {
    match c {
      case Default => ReadsNothing(p);
      case Indexed(n) =>
        if n < 8 { ReadsSimple(30 + n, p); }
        else if n < 16 { ReadsSimple(90 + (n - 8), p); }
        else { ReadsIndexed(38, n, p); }
      case Rgb(r, g, b) => ReadsRgb(38, r, g, b, p);
    }
  }

  lemma ReadsBackground(c: Color, p: Style)
    requires p.bg == Default
    ensures Reads(ColorCodes(c, 40, 100, 48), p, p.(bg := c))
  {
    match c {
      case Default => ReadsNothing(p);
      case Indexed(n) =>
        if n < 8 { ReadsSimple(40 + n, p); }
        else if n < 16 { ReadsSimple(100 + (n - 8), p); }
        else { ReadsIndexed(48, n, p); }
      case Rgb(r, g, b) => ReadsRgb(48, r, g, b, p);
    }
  }

  /** What `emit_sgr` writes, `set_sgr` reads back exactly, from any pen. */
  lemma EmitReadsBack(s: Style, p: Style)
    ensures Reads(Emit(s), p, s)
    ensures Apply(Emit(s), p) == s
  {
    ReadsSimple(0, p);
    var withAttrs := PLAIN.(attrs := s.attrs);
    var withFg := withAttrs.(fg := s.fg);
    ReadsAttrs(s.attrs, PLAIN);
    ReadsForeground(s.fg, withAttrs);
    ReadsBackground(s.bg, withFg);
    var fg := ColorCodes(s.fg, 30, 90, 38);
    var bg := ColorCodes(s.bg, 40, 100, 48);
    ReadsAppend([[0]], AttrCodes(s.attrs), p, PLAIN, withAttrs);
    ReadsAppend([[0]] + AttrCodes(s.attrs), fg, p, withAttrs, withFg);
    ReadsAppend([[0]] + AttrCodes(s.attrs) + fg, bg, p, withFg, s);
    assert Emit(s) + [] == Emit(s);
  }
}
