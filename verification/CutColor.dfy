/**
 Colour codes cut after 38;5 or 48;5, which the optimizer accepts (doc/walt/doc/color.py). A terminal drops such a code
 at the end of an escape sequence; but codes written after it in the same sequence complete it.
 */
module CutColor {
  import opened Wrappers
  import opened Color

  const CUT_FG: Codes := [Num(38), Num(5)]
  const CUT_BG: Codes := [Num(48), Num(5)]

  /** A terminal that drops a colour cut at the end of an escape sequence; `d` gives its default colours. */
  function Shows(codes: Codes, a: Attr, d: Attr): Option<Attr>
    decreases |codes|
  {
    if codes == [] || codes == CUT_FG || codes == CUT_BG then Some(a)
    else if StartsColor(codes) then
      if |codes| < 3 || codes[1] != Num(5) then None
      else Shows(codes[3..], if codes[0] == Num(38) then a.(fg := codes[..3]) else a.(bg := codes[..3]), d)
    else if codes[0].Blank? then None
    else
      var a' := ApplyOne(codes[0].n, a, d);
      if a'.None? then None else Shows(codes[1..], a'.value, d)
  }

  lemma {:induction false} ShowsConcat(x: Codes, y: Codes, a: Attr)
    requires Apply(x, a, TERMINAL).Some?
    ensures Shows(x + y, a, TERMINAL) == Shows(y, Apply(x, a, TERMINAL).value, TERMINAL)
    decreases |x|
  {
    if x == [] {
      assert x + y == y;
    } else if StartsColor(x) {
      assert (x + y)[3..] == x[3..] + y && (x + y)[..3] == x[..3];
      ShowsConcat(x[3..], y, if x[0] == Num(38) then a.(fg := x[..3]) else a.(bg := x[..3]));
    } else {
      assert (x + y)[1..] == x[1..] + y;
      ShowsConcat(x[1..], y, ApplyOne(x[0].n, a, TERMINAL).value);
    }
  }

  /** Whole codes are shown as before. */
  lemma ShowsWhole(x: Codes, a: Attr)
    requires Apply(x, a, TERMINAL).Some?
    ensures Shows(x, a, TERMINAL) == Apply(x, a, TERMINAL)
  {
    ShowsConcat(x, [], a);
    assert x + [] == x;
  }

  // ---------- codes of styles ----------

  predicate IsStyle(c: Code) {
    c.Num? && c.n in {1, 2, 22, 3, 23, 4, 24}
  }

  predicate Styles(codes: Codes) {
    forall k :: 0 <= k < |codes| ==> IsStyle(codes[k])
  }

  /** Styles leave the colours alone. */
  lemma {:induction false} StylesKeepColors(codes: Codes, a: Attr)
    requires Styles(codes)
    ensures Apply(codes, a, TERMINAL).Some?
    ensures var r := Apply(codes, a, TERMINAL).value; r.fg == a.fg && r.bg == a.bg
  {
    if codes != [] {
      StylesKeepColors(codes[1..], ApplyOne(codes[0].n, a, TERMINAL).value);
    }
  }

  predicate SameStyles(a: Attr, b: Attr) {
    a.italic == b.italic && a.underline == b.underline && a.bold == b.bold && a.dim == b.dim
  }

  lemma StyleDiffIsStyles(cur: Attr, target: Attr)
    ensures Styles(StyleDiff(cur, target))
    ensures StyleDiff(cur, target) == [] <==> SameStyles(cur, target)
  {
  }

  /** The style codes do reach the target. */
  lemma StyleDiffReaches(cur: Attr, target: Attr)
    ensures Apply(StyleDiff(cur, target), cur, TERMINAL)
         == Some(cur.(italic := target.italic, underline := target.underline, bold := target.bold, dim := target.dim))
  {
    var x, y := ItalicUnderlineDiff(cur, target), BoldDimDiff(cur, target);
    var mid := cur.(italic := target.italic, underline := target.underline);
    ItalicUnderlineReaches(cur, target);
    BoldDimReaches(mid, target);
    hide Apply;
    ApplyConcat(x, y, cur, TERMINAL);
  }

  lemma ItalicUnderlineReaches(cur: Attr, target: Attr)
    ensures Apply(ItalicUnderlineDiff(cur, target), cur, TERMINAL)
         == Some(cur.(italic := target.italic, underline := target.underline))
  {
    var codes := ItalicUnderlineDiff(cur, target);
    if |codes| == 2 {
      assert codes == [Num(codes[0].n), Num(codes[1].n)];
      ApplyPair(codes[0].n, codes[1].n, cur);
    } else if |codes| == 1 {
      assert codes == [Num(codes[0].n)];
      ApplySingle(codes[0].n, cur);
    } else {
      assert codes == [];
    }
  }

  lemma BoldDimReaches(cur: Attr, target: Attr)
    ensures Apply(BoldDimDiff(cur, target), cur, TERMINAL) == Some(cur.(bold := target.bold, dim := target.dim))
  {
    var codes := BoldDimDiff(cur, target);
    if |codes| == 2 {
      assert codes == [Num(codes[0].n), Num(codes[1].n)];
      ApplyPair(codes[0].n, codes[1].n, cur);
    } else if |codes| == 1 {
      assert codes == [Num(codes[0].n)];
      ApplySingle(codes[0].n, cur);
    } else {
      assert codes == [] && cur.bold == target.bold && cur.dim == target.dim;
    }
  }

  lemma {:induction false} ItalicIsKept(codes: Codes, a: Attr)
    requires Styles(codes) && Num(3) !in codes && Num(23) !in codes
    ensures Apply(codes, a, TERMINAL).Some? && Apply(codes, a, TERMINAL).value.italic == a.italic
  {
    if codes != [] {
      ItalicIsKept(codes[1..], ApplyOne(codes[0].n, a, TERMINAL).value);
    }
  }

  lemma {:induction false} UnderlineIsKept(codes: Codes, a: Attr)
    requires Styles(codes) && Num(4) !in codes && Num(24) !in codes
    ensures Apply(codes, a, TERMINAL).Some? && Apply(codes, a, TERMINAL).value.underline == a.underline
  {
    if codes != [] {
      UnderlineIsKept(codes[1..], ApplyOne(codes[0].n, a, TERMINAL).value);
    }
  }

  lemma BoldDimCounts(cur: Attr, target: Attr)
    requires BoldDimDiff(cur, target) != []
    ensures var r := Apply(BoldDimDiff(cur, target)[1..], cur, TERMINAL);
            r.Some? && (r.value.bold != target.bold || r.value.dim != target.dim)
  {
    var codes := BoldDimDiff(cur, target);
    if |codes| == 2 {
      assert codes[1..] == [Num(codes[1].n)];
      ApplySingle(codes[1].n, cur);
    } else {
      assert codes[1..] == [];
    }
  }

  /** Without its first code, the rest does not. */
  lemma FirstStyleCounts(cur: Attr, target: Attr)
    requires StyleDiff(cur, target) != []
    ensures var r := Apply(StyleDiff(cur, target)[1..], cur, TERMINAL); r.Some? && !SameStyles(r.value, target)
  {
    StyleDiffIsStyles(cur, target);
    var codes := StyleDiff(cur, target);
    if target.italic != cur.italic {
      ItalicIsKept(codes[1..], cur);
    } else if target.underline != cur.underline {
      UnderlineIsKept(codes[1..], cur);
    } else {
      assert codes == BoldDimDiff(cur, target);
      BoldDimCounts(cur, target);
    }
  }

  // ---------- one escape sequence ----------

  // `a` is what the program believes, with cut colours among its colours; `shown` is the state of the terminal

  /** The terminal is in the state that the program believes, but for cut colours. */
  predicate Matches(shown: Attr, a: Attr) {
    && ValidColors(shown) && SameStyles(shown, a)
    && IsOr(a.fg, shown.fg, CUT_FG) && IsOr(a.bg, shown.bg, CUT_BG)
  }

  predicate IsOr(c: Codes, shown: Codes, cut: Codes) {
    c == shown || c == cut
  }

  lemma {:induction false} ReadMatches(codes: Codes, shown: Attr, a: Attr, d: Attr)
    requires Matches(shown, a) && ValidColors(d) && Read(codes, a, d).Some?
    ensures Shows(codes, shown, d).Some? && Matches(Shows(codes, shown, d).value, Read(codes, a, d).value)
    decreases |codes|
  {
    if codes == [] || codes == CUT_FG || codes == CUT_BG {
      if codes != [] {
        assert codes[..2] == codes && codes[2..] == [];
      }
    } else if StartsColor(codes) {
      var c := codes[..3];
      if codes[0] == Num(38) {
        ReadMatches(codes[3..], shown.(fg := c), a.(fg := c), d);
      } else {
        ReadMatches(codes[3..], shown.(bg := c), a.(bg := c), d);
      }
    } else {
      OneMatches(codes[0].n, shown, a, d);
      hide ApplyOne, Matches;
      ReadMatches(codes[1..], ApplyOne(codes[0].n, shown, d).value, ApplyOne(codes[0].n, a, d).value, d);
    }
  }

  lemma OneMatches(n: nat, shown: Attr, a: Attr, d: Attr)
    requires Matches(shown, a) && ValidColors(d) && ApplyOne(n, a, d).Some?
    ensures ApplyOne(n, shown, d).Some? && Matches(ApplyOne(n, shown, d).value, ApplyOne(n, a, d).value)
  {
    hide ValidColors, IsOr;
    assert ApplyOne(n, shown, d).Some?;
    ApplyOneKeepsValid(n, shown, d);
    forall c, cut ensures IsOr(c, c, cut) {
      SameIsOr(c, cut);
    }
  }

  lemma SameIsOr(c: Codes, cut: Codes)
    ensures IsOr(c, c, cut)
  {
  }

  // a cut colour and the code that completes it
  lemma Completed(cut: Codes, n: Code, rest: Codes, a: Attr)
    requires cut == CUT_FG || cut == CUT_BG
    ensures Shows(cut + ([n] + rest), a, TERMINAL)
         == Shows(rest, if cut == CUT_FG then a.(fg := cut + [n]) else a.(bg := cut + [n]), TERMINAL)
  {
    var codes := cut + ([n] + rest);
    assert codes[..3] == cut + [n] && codes[3..] == rest;
  }

  lemma OneStyle(c: Code, a: Attr, b: Attr)
    requires IsStyle(c) && SameStyles(a, b)
    ensures ApplyOne(c.n, a, TERMINAL).Some? && ApplyOne(c.n, b, TERMINAL).Some?
    ensures SameStyles(ApplyOne(c.n, a, TERMINAL).value, ApplyOne(c.n, b, TERMINAL).value)
  {
  }

  /** Styles do not depend on the colours. */
  lemma {:induction false} StylesIgnoreColors(codes: Codes, a: Attr, b: Attr)
    requires Styles(codes) && SameStyles(a, b)
    ensures Apply(codes, a, TERMINAL).Some? && Apply(codes, b, TERMINAL).Some?
    ensures SameStyles(Apply(codes, a, TERMINAL).value, Apply(codes, b, TERMINAL).value)
  {
    hide ApplyOne, SameStyles;
    if codes != [] {
      OneStyle(codes[0], a, b);
      StylesIgnoreColors(codes[1..], ApplyOne(codes[0].n, a, TERMINAL).value, ApplyOne(codes[0].n, b, TERMINAL).value);
    }
  }

  // styles on a terminal with other colours
  lemma Styled(cur: Attr, target: Attr, shown: Attr)
    requires SameStyles(shown, cur)
    ensures Shows(StyleDiff(cur, target), shown, TERMINAL) == Some(target.(fg := shown.fg, bg := shown.bg))
  {
    assert StyleDiff(cur, target) == StyleDiff(shown, target);
    StyleDiffReaches(shown, target);
    ShowsWhole(StyleDiff(shown, target), shown);
  }

  /** The first of the styles completes the colour, and is lost. */
  lemma StyleIsLost(cut: Codes, cur: Attr, target: Attr, shown: Attr)
    requires (cut == CUT_FG || cut == CUT_BG) && StyleDiff(cur, target) != [] && SameStyles(shown, cur)
    ensures var r := Shows(cut + StyleDiff(cur, target), shown, TERMINAL); r.Some? && !SameStyles(r.value, target)
  {
    hide StyleDiff, Apply, Shows, ApplyOne;
    var styles := StyleDiff(cur, target);
    StyleDiffIsStyles(cur, target);
    var first, rest := styles[0], styles[1..];
    assert styles == [first] + rest;
    FirstStyleCounts(cur, target);
    Completed(cut, first, rest, shown);
    var a := if cut == CUT_FG then shown.(fg := cut + [first]) else shown.(bg := cut + [first]);
    StylesIgnoreColors(rest, cur, a);
    ShowsWhole(rest, a);
  }

  /** The state to reach: a cut colour changes nothing. */
  function Reached(shown: Attr, target: Attr): Attr {
    target.(fg := if target.fg == CUT_FG then shown.fg else target.fg,
            bg := if target.bg == CUT_BG then shown.bg else target.bg)
  }

  /** The codes of a cut foreground are followed by others. */
  predicate StyleFollows(cur: Attr, target: Attr) {
    target.fg == CUT_FG && cur.fg != CUT_FG && StyleDiff(cur, target) != []
  }

  lemma ShowsForeground(cur: Attr, target: Attr, shown: Attr)
    requires SameStyles(shown, cur) && (cur.fg == CUT_FG || cur.fg == shown.fg)
    requires ValidFg(target.fg) || target.fg == CUT_FG
    ensures var r := Shows(ForegroundDiff(cur, target), shown, TERMINAL);
            && r.Some? && (SameStyles(r.value, target) <==> !StyleFollows(cur, target))
            && (!StyleFollows(cur, target) ==> r.value == Reached(shown, target).(bg := shown.bg))
  {
    var styles := StyleDiff(cur, target);
    Styled(cur, target, shown);
    StyleDiffIsStyles(cur, target);
    assert [] + styles == styles && CUT_FG + [] == CUT_FG;
    assert Shows(CUT_FG, shown, TERMINAL) == Some(shown);
    hide StyleDiff, Shows;
    if target.fg != cur.fg && target.fg == CUT_FG && styles != [] {
      StyleIsLost(CUT_FG, cur, target, shown);
    }
    if target.fg != cur.fg && target.fg != CUT_FG {
      WholeForeground(cur, target, shown);
    }
  }

  lemma WholeForeground(cur: Attr, target: Attr, shown: Attr)
    requires SameStyles(shown, cur) && ValidFg(target.fg)
    ensures Shows(target.fg + StyleDiff(cur, target), shown, TERMINAL) == Some(target.(bg := shown.bg))
  {
    hide StyleDiff, Shows, Apply;
    ApplyFg(target.fg, shown);
    ShowsConcat(target.fg, StyleDiff(cur, target), shown);
    Styled(cur, target, shown.(fg := target.fg));
  }

  /** The first code of the foreground completes a cut background. */
  predicate ForegroundFollows(cur: Attr, target: Attr) {
    target.bg == CUT_BG && cur.bg != CUT_BG && ForegroundDiff(cur, target) != []
  }

  // ... and gives the background that is wanted, the code not being needed for the foreground
  predicate Coincides(cur: Attr, target: Attr, input: Attr, shown: Attr) {
    target.fg != cur.fg && |target.fg| == 1 && target.fg == shown.fg && input.bg == CUT_BG + target.fg
  }

  lemma CompletedByForeground(cur: Attr, target: Attr, input: Attr, shown: Attr)
    requires Matches(input, target) && Matches(shown, cur) && ForegroundFollows(cur, target)
    ensures Shows(CUT_BG + ForegroundDiff(cur, target), shown, TERMINAL) == Some(input)
       <==> Coincides(cur, target, input, shown)
  {
    hide StyleDiff, ValidColors, Shows;
    var styles := StyleDiff(cur, target);
    assert [] + styles == styles;
    if target.fg == cur.fg {
      StyleIsLost(CUT_BG, cur, target, shown);
    } else {
      ColorsOf(input, target);
      FirstCompletes(cur, target, shown);
    }
  }

  lemma ColorsOf(input: Attr, target: Attr)
    requires Matches(input, target)
    ensures ValidFg(target.fg) || target.fg == CUT_FG
    ensures target.bg != [] && (ValidBg(target.bg) || target.bg == CUT_BG)
  {
  }

  lemma FirstCompletes(cur: Attr, target: Attr, shown: Attr)
    requires SameStyles(shown, cur) && (ValidFg(target.fg) || target.fg == CUT_FG)
    ensures Shows(CUT_BG + (target.fg + StyleDiff(cur, target)), shown, TERMINAL)
         == if |target.fg| == 1 then Some(target.(fg := shown.fg, bg := CUT_BG + target.fg)) else None
  {
    hide StyleDiff, Shows;
    var styles := StyleDiff(cur, target);
    var first, rest := target.fg[0], target.fg[1..] + styles;
    assert target.fg + styles == [first] + rest;
    Completed(CUT_BG, first, rest, shown);
    var a := shown.(bg := CUT_BG + [first]);
    if |target.fg| == 1 {
      assert rest == styles && target.fg == [first];
      Styled(cur, target, a);
    } else {
      StartsWithBlink(rest, a);
    }
  }

  // 5 is no code that stands alone here
  lemma StartsWithBlink(codes: Codes, a: Attr)
    requires codes != [] && codes[0] == Num(5)
    ensures Shows(codes, a, TERMINAL).None?
  {
  }

  /** Text written now looks as in the input: under a cut colour, the terminal has the whole colour that the input
      leaves in place; and no code follows a cut one in its sequence, unless it happens to give the wanted colour. */
  predicate Safe(cur: Attr, target: Attr, input: Attr, shown: Attr, foreground: bool, background: bool) {
    if foreground && ForegroundFollows(cur, target) then Coincides(cur, target, input, shown)
    else
      && (foreground ==> !StyleFollows(cur, target))
      && (foreground && target.fg == CUT_FG ==> input.fg == shown.fg)
      && (background && target.bg == CUT_BG ==> input.bg == shown.bg)
  }

  predicate Alike(input: Attr, shown: Attr, foreground: bool, background: bool) {
    (background ==> input.bg == shown.bg) && (foreground ==> input == shown)
  }

  /** What the terminal has of the state of the input. */
  function Last(input: Attr, shown: Attr, foreground: bool, background: bool): Attr {
    if foreground then input else if background then shown.(bg := input.bg) else shown
  }

  lemma SequenceIsShown(cur: Attr, target: Attr, input: Attr, shown: Attr, foreground: bool, background: bool)
    requires Matches(input, target) && Matches(shown, cur) && (foreground ==> background)
    ensures var r := Shows(DiffCodes(cur, target, foreground, background), shown, TERMINAL);
            && (r.Some? && Alike(input, r.value, foreground, background)
                <==> Safe(cur, target, input, shown, foreground, background))
            && (Safe(cur, target, input, shown, foreground, background) ==>
                  && r == Some(Last(input, shown, foreground, background))
                  && Matches(r.value, Emitted(cur, target, foreground, background)))
  {
    if foreground {
      WithForeground(cur, target, input, shown);
    } else {
      BackgroundOnly(cur, target, input, shown, background);
    }
  }

  lemma WithForeground(cur: Attr, target: Attr, input: Attr, shown: Attr)
    requires Matches(input, target) && Matches(shown, cur)
    ensures Shows(DiffCodes(cur, target, true, true), shown, TERMINAL) == Some(input)
       <==> Safe(cur, target, input, shown, true, true)
  {
    hide Shows, ForegroundDiff, StyleDiff, ValidColors;
    var bg := if target.bg != cur.bg then target.bg else [];
    ColorsOf(input, target);
    if ForegroundFollows(cur, target) {
      CompletedByForeground(cur, target, input, shown);
    } else {
      BackgroundIsShown(shown, bg, ForegroundDiff(cur, target));
      ShowsForeground(cur, target, if bg == [] || bg == CUT_BG then shown else shown.(bg := bg));
    }
  }

  lemma BackgroundOnly(cur: Attr, target: Attr, input: Attr, shown: Attr, background: bool)
    requires Matches(input, target) && Matches(shown, cur)
    ensures var r := Shows(DiffCodes(cur, target, false, background), shown, TERMINAL);
            && r == Some(if background && target.bg != CUT_BG then shown.(bg := target.bg) else shown)
            && Matches(r.value, Emitted(cur, target, false, background))
  {
    hide Shows, ValidFg, ValidBg;
    var bg := if background && target.bg != cur.bg then target.bg else [];
    ColorsOf(input, target);
    BackgroundIsShown(shown, bg, []);
    NothingShows(if bg == [] || bg == CUT_BG then shown else shown.(bg := bg));
  }

  lemma NothingShows(a: Attr)
    ensures Shows([], a, TERMINAL) == Some(a)
  {
  }

  lemma BackgroundIsShown(shown: Attr, bg: Codes, fg: Codes)
    requires bg == [] || ValidBg(bg) || (bg == CUT_BG && fg == [])
    ensures Shows(bg + fg, shown, TERMINAL)
         == Shows(fg, if bg == [] || bg == CUT_BG then shown else shown.(bg := bg), TERMINAL)
  {
    if bg == [] {
      assert bg + fg == fg;
    } else if bg == CUT_BG {
      assert bg + fg == bg;
    } else {
      ApplyBg(bg, shown);
      ShowsConcat(bg, fg, shown);
    }
  }

  // ---------- a whole text ----------

  /** What the input shows on such a terminal. */
  function Input(ps: seq<Piece>, d: Attr): Option<Shown> {
    if ps == [] then Some(Shown([], d))
    else
      var init, last := Input(ps[..|ps| - 1], d), ps[|ps| - 1];
      if init.None? then None
      else
        var a := Shows(last.codes, init.value.final, d);
        if a.None? then None else Some(Shown(init.value.runs + [Run(last.text, init.value.final)], a.value))
  }

  /** What the output shows on it. */
  function Output(os: seq<Out>): Option<Shown> {
    if os == [] then Some(Shown([], TERMINAL))
    else
      var init, last := Output(os[..|os| - 1]), os[|os| - 1];
      if init.None? then None
      else
        var a := Shows(last.codes, init.value.final, TERMINAL);
        if a.None? then None else Some(Shown(init.value.runs + [Run(last.text, a.value)], a.value))
  }

  predicate HasInk(text: string) {
    text != "" && !AllSpaces(text)
  }

  /** The attributes of the last text with ink, on the background of the last text. */
  function LastShown(ps: seq<Piece>, d: Attr): Attr {
    if ps == [] then TERMINAL
    else
      var init, text := ps[..|ps| - 1], ps[|ps| - 1].text;
      var input := Input(init, d);
      if input.None? then TERMINAL else Last(input.value.final, LastShown(init, d), HasInk(text), text != "")
  }

  /** All texts of the input are safe under the codes that the program writes before them. */
  predicate CutsAreSafe(ps: seq<Piece>, d: Attr) {
    ps == [] ||
    var init, text := ps[..|ps| - 1], ps[|ps| - 1].text;
    var input, before := Input(init, d), Passed(init, d);
    && CutsAreSafe(init, d)
    && (input.Some? && before.Some? ==>
          Safe(before.value.cur, before.value.target, input.value.final, LastShown(init, d), HasInk(text), text != ""))
  }

  predicate ShownSoFar(input: Option<Shown>, output: Option<Shown>) {
    input.Some? && output.Some? && AllLookLike(input.value.runs, output.value.runs)
  }

  lemma OneMoreRun(xs: seq<Run>, ys: seq<Run>, x: Run, y: Run)
    ensures AllLookLike(xs + [x], ys + [y]) <==> AllLookLike(xs, ys) && LooksLike(x, y)
  {
    var xs', ys' := xs + [x], ys + [y];
    if AllLookLike(xs', ys') {
      forall k | 0 <= k < |xs|
        ensures LooksLike(xs[k], ys[k])
      {
        assert xs'[k] == xs[k] && ys'[k] == ys[k];
      }
      assert xs'[|xs|] == x && ys'[|xs|] == y;
    }
  }

  /** The pass over some pieces. */
  ghost predicate Tracks(ps: seq<Piece>, d: Attr, p: Pass) {
    var input, output := Input(ps, d), Output(p.outs);
    && input.Some? && Matches(input.value.final, p.target)
    && (ShownSoFar(input, output) <==> CutsAreSafe(ps, d))
    && (CutsAreSafe(ps, d) ==> output.value.final == LastShown(ps, d) && Matches(LastShown(ps, d), p.cur))
  }

  lemma {:induction false} PassTracks(ps: seq<Piece>, d: Attr)
    requires ValidColors(d) && Passed(ps, d).Some?
    ensures Tracks(ps, d, Passed(ps, d).value)
  {
    if ps != [] {
      var n := |ps| - 1;
      PassTracks(ps[..n], d);
      OnePieceTracks(ps[..n], d, Passed(ps[..n], d).value, ps[n]);
      assert ps[..n] + [ps[n]] == ps;
    }
  }

  // one more piece, and one more escape sequence

  lemma InputNext(ps: seq<Piece>, d: Attr, piece: Piece)
    requires Input(ps, d).Some? && Shows(piece.codes, Input(ps, d).value.final, d).Some?
    ensures var before := Input(ps, d).value;
            Input(ps + [piece], d) == Some(Shown(before.runs + [Run(piece.text, before.final)],
                                                 Shows(piece.codes, before.final, d).value))
  {
    assert (ps + [piece])[..|ps|] == ps;
  }

  lemma OutputNext(os: seq<Out>, o: Out)
    ensures var before := Output(os);
            var r := if before.Some? then Shows(o.codes, before.value.final, TERMINAL) else None;
            Output(os + [o]) == if r.None? then None
                                else Some(Shown(before.value.runs + [Run(o.text, r.value)], r.value))
  {
    assert (os + [o])[..|os|] == os;
  }

  lemma SafeNext(ps: seq<Piece>, d: Attr, p: Pass, piece: Piece)
    requires Input(ps, d).Some? && Passed(ps, d) == Some(p)
    ensures var input, shown := Input(ps, d).value.final, LastShown(ps, d);
            && LastShown(ps + [piece], d) == Last(input, shown, HasInk(piece.text), piece.text != "")
            && (CutsAreSafe(ps + [piece], d) <==>
                  && CutsAreSafe(ps, d)
                  && Safe(p.cur, p.target, input, shown, HasInk(piece.text), piece.text != ""))
  {
    hide Input, Passed;
    assert (ps + [piece])[..|ps|] == ps;
  }

  lemma OnePieceTracks(ps: seq<Piece>, d: Attr, p: Pass, piece: Piece)
    requires ValidColors(d) && Passed(ps, d) == Some(p) && Tracks(ps, d, p) && PassOne(p, piece, d).Some?
    ensures Tracks(ps + [piece], d, PassOne(p, piece, d).value)
  {
    hide Shows, Read, DiffCodes, Matches, Safe, ValidColors, Input, Output, Passed, CutsAreSafe, LastShown, AllLookLike;
    hide AllSpaces, Last, Emitted;
    var input, shown := Input(ps, d).value, LastShown(ps, d);
    var codes := DiffCodes(p.cur, p.target, HasInk(piece.text), piece.text != "");
    ReadMatches(piece.codes, input.final, p.target, d);
    InputNext(ps, d, piece);
    OutputNext(p.outs, Out(codes, piece.text));
    SafeNext(ps, d, p, piece);
    if CutsAreSafe(ps, d) {
      SequenceIsShown(p.cur, p.target, input.final, shown, HasInk(piece.text), piece.text != "");
    }
    if Output(p.outs).Some? {
      var before := Output(p.outs).value;
      var r := Shows(codes, before.final, TERMINAL);
      if r.Some? {
        OneMoreRun(input.runs, before.runs, Run(piece.text, input.final), Run(piece.text, r.value));
      }
    }
  }

  lemma EndsInDefaults(ps: seq<Piece>, tail: string, d: Attr)
    requires ValidColors(d) && d == Plain(d.bg, d.fg) && Passed(WithReset(ps, tail, d), d).Some?
    ensures Passed(WithReset(ps, tail, d), d).value.target == d
  {
    hide Read, DiffCodes, Passed;
    var all := WithReset(ps, tail, d);
    assert all[..|ps|] == ps && all[..|ps| + 1] == all;
    PassedNext(all, |ps|, d);
    var target := Passed(ps, d).value.target;
    ResetLeadsToDefaults(d.fg, d.bg, target);
    ReadIsApply(all[|ps|].codes, target, d);
  }

  /** For every text that the program accepts: the output shows what the input does, and ends in the defaults, exactly
      when the cut colours in it are safe. */
  lemma CutColorsAreShown(ps: seq<Piece>, tail: string, d: Attr)
    requires d == Plain(d.bg, d.fg) && ValidColors(d) && Optimized(ps, tail, d).Ok?
    ensures var all := WithReset(ps, tail, d);
            var input, output := Input(all, d), Output(Optimized(ps, tail, d).value);
            && input.Some?
            && (output.Some? && AllLookLike(input.value.runs + [Run("", d)], output.value.runs)
                  && output.value.final == d
                <==> CutsAreSafe(all, d))
  {
    hide Shows, Read, DiffCodes, Passed, Input, Output, CutsAreSafe, LastShown, AllLookLike, AllSpaces;
    var all := WithReset(ps, tail, d);
    PassTracks(all, d);
    var p := Passed(all, d).value;
    EndsInDefaults(ps, tail, d);
    var codes := DiffCodes(p.cur, d, true, true);
    OutputNext(p.outs, Out(codes, ""));
    var input, output := Input(all, d).value, Output(p.outs);
    if CutsAreSafe(all, d) {
      SequenceIsShown(p.cur, d, d, LastShown(all, d), true, true);
    }
    if output.Some? && Shows(codes, output.value.final, TERMINAL).Some? {
      var last := Shows(codes, output.value.final, TERMINAL).value;
      OneMoreRun(input.runs, output.value.runs, Run("", d), Run("", last));
    }
  }

  // ---------- texts that are not ----------

  // two escape sequences, before any text
  function TwoSequences(x: Codes, y: Codes): seq<Piece> {
    [Piece("", x), Piece("", y)]
  }

  lemma NothingToShow(before: Pass, codes: Codes, d: Attr)
    requires Read(codes, before.target, d).Some?
    ensures PassOne(before, Piece("", codes), d)
         == Some(Pass(before.outs + [Out([], "")], before.cur, Read(codes, before.target, d).value))
  {
    assert DiffCodes(before.cur, before.target, false, false) == [];
  }

  lemma TwoSequencesPass(x: Codes, y: Codes, a: Attr, b: Attr)
    requires Read(x, TERMINAL, TERMINAL) == Some(a) && Read(y, a, TERMINAL) == Some(b)
    ensures Passed(TwoSequences(x, y), TERMINAL) == Some(Pass([Out([], ""), Out([], "")], TERMINAL, b))
  {
    hide Read, Passed;
    var ps := TwoSequences(x, y);
    NothingPassed(TERMINAL);
    assert ps[..0] == [] && ps[..2] == ps;
    PassedNext(ps, 0, TERMINAL);
    PassedNext(ps, 1, TERMINAL);
    NothingToShow(Pass([], TERMINAL, TERMINAL), x, TERMINAL);
    NothingToShow(Pass([Out([], "")], TERMINAL, a), y, TERMINAL);
    assert [] + [Out([], "")] == [Out([], "")];
    assert [Out([], "")] + [Out([], "")] == [Out([], ""), Out([], "")];
  }

  // what is written for "X" after them
  lemma TextAfterTwo(x: Codes, y: Codes, a: Attr, b: Attr)
    requires Read(x, TERMINAL, TERMINAL) == Some(a) && Read(y, a, TERMINAL) == Some(b)
    ensures var ps := TwoSequences(x, y); var written := Optimized(ps, "X", TERMINAL);
            && written.Ok? && |written.value| == 4
            && written.value[..3] == [Out([], ""), Out([], ""), Out(DiffCodes(TERMINAL, b, true, true), "X")]
            && Input(ps, TERMINAL).Some?
            && (CutsAreSafe(WithReset(ps, "X", TERMINAL), TERMINAL) ==>
                  Safe(TERMINAL, b, Input(ps, TERMINAL).value.final, LastShown(ps, TERMINAL), true, true))
  {
    hide Read, Passed, DiffCodes, Apply, Input, LastShown, CutsAreSafe, Safe;
    var ps := TwoSequences(x, y);
    var all := WithReset(ps, "X", TERMINAL);
    assert all[..2] == ps && all[..3] == all && ps + [all[2]] == all;
    TwoSequencesPass(x, y, a, b);
    PassTracks(ps, TERMINAL);
    ResetLeadsToDefaults(TERMINAL.fg, TERMINAL.bg, b);
    ReadIsApply(all[2].codes, b, TERMINAL);
    PassedNext(all, 2, TERMINAL);
    SafeNext(ps, TERMINAL, Passed(ps, TERMINAL).value, all[2]);
    assert HasInk("X") by {
      assert "X"[0] == 'X';
    }
  }

  /** A cut colour, then underlined text: the terminal would show it underlined, in its default colour. The program
      writes one escape sequence, in which 4 is the number of a colour. */
  lemma UnderlineIsLost()
    ensures Shows(CUT_FG, TERMINAL, TERMINAL) == Some(TERMINAL)
    ensures Shows([Num(4)], TERMINAL, TERMINAL) == Some(TERMINAL.(underline := true))
    ensures var ps := TwoSequences(CUT_FG, [Num(4)]); var written := Optimized(ps, "X", TERMINAL);
            && written.Ok? && |written.value| == 4 && written.value[2] == Out(CUT_FG + [Num(4)], "X")
            && !CutsAreSafe(WithReset(ps, "X", TERMINAL), TERMINAL)
    ensures Shows(CUT_FG + [Num(4)], TERMINAL, TERMINAL) == Some(TERMINAL.(fg := CUT_FG + [Num(4)]))
  {
    hide CutsAreSafe, Input, LastShown, Shows, Apply, WithReset, Optimized;
    UnderlineAlone();
    var a := TERMINAL.(fg := CUT_FG);
    assert Read(CUT_FG, TERMINAL, TERMINAL) == Some(a) by {
      assert CUT_FG[2..] == [] && CUT_FG[..2] == CUT_FG;
    }
    assert Read([Num(4)], a, TERMINAL) == Some(a.(underline := true)) by {
      assert [Num(4)][1..] == [];
    }
    hide Read;
    TextAfterTwo(CUT_FG, [Num(4)], a, a.(underline := true));
    assert DiffCodes(TERMINAL, a.(underline := true), true, true) == CUT_FG + [Num(4)];
  }

  lemma UnderlineAlone()
    ensures Shows(CUT_FG, TERMINAL, TERMINAL) == Some(TERMINAL)
    ensures Shows([Num(4)], TERMINAL, TERMINAL) == Some(TERMINAL.(underline := true))
    ensures Shows(CUT_FG + [Num(4)], TERMINAL, TERMINAL) == Some(TERMINAL.(fg := CUT_FG + [Num(4)]))
  {
    ApplySingle(4, TERMINAL);
    ShowsWhole([Num(4)], TERMINAL);
    Completed(CUT_FG, Num(4), [], TERMINAL);
    assert CUT_FG + ([Num(4)] + []) == CUT_FG + [Num(4)];
  }

  /** Red, then a cut colour: the terminal would show the text in red. The program never writes the red. */
  lemma RedIsLost()
    ensures Shows([Num(31)], TERMINAL, TERMINAL) == Some(TERMINAL.(fg := [Num(31)]))
    ensures Shows(CUT_FG, TERMINAL.(fg := [Num(31)]), TERMINAL) == Some(TERMINAL.(fg := [Num(31)]))
    ensures var ps := TwoSequences([Num(31)], CUT_FG); var written := Optimized(ps, "X", TERMINAL);
            && written.Ok? && |written.value| == 4 && written.value[2] == Out(CUT_FG, "X")
            && !CutsAreSafe(WithReset(ps, "X", TERMINAL), TERMINAL)
  {
    hide CutsAreSafe;
    ApplySingle(31, TERMINAL);
    ShowsWhole([Num(31)], TERMINAL);
    assert CUT_FG[2..] == [] && CUT_FG[..2] == CUT_FG && [Num(31)][1..] == [];
    var a, b := TERMINAL.(fg := [Num(31)]), TERMINAL.(fg := CUT_FG);
    TextAfterTwo([Num(31)], CUT_FG, a, b);
    assert DiffCodes(TERMINAL, b, true, true) == CUT_FG;
    var first, second := Piece("", [Num(31)]), Piece("", CUT_FG);
    InputNext([], TERMINAL, first);
    InputNext([first], TERMINAL, second);
    SafeNext([], TERMINAL, Pass([], TERMINAL, TERMINAL), first);
    NothingPassed(TERMINAL);
    assert [] + [first] == [first] && [first] + [second] == TwoSequences([Num(31)], CUT_FG);
  }
}
