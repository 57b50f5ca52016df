/**
 Terminal colour codes: the transition between two formats, and the pass that drops and postpones
 escape codes that make no visible difference (doc/walt/doc/color.py).
 Text is already split at the escape sequences; an escape sequence is its list of codes.
 */
module Color {
  import opened Wrappers

  // a code is a number, or nothing between two semicolons
  datatype Code = Num(n: nat) | Blank

  type Codes = seq<Code>

  datatype Attr = Attr(bg: Codes, fg: Codes, bold: bool, dim: bool, italic: bool, underline: bool)

  const FG_COLOR_DEFAULT: Codes := [Num(39)]
  const BG_COLOR_DEFAULT: Codes := [Num(49)]

  function Plain(bg: Codes, fg: Codes): Attr {
    Attr(bg, fg, false, false, false, false)
  }

  // ---------- what codes mean ----------

  predicate IsFgCode(n: nat) {
    30 <= n <= 37 || 90 <= n <= 97
  }

  predicate IsBgCode(n: nat) {
    40 <= n <= 47 || 100 <= n <= 107
  }

  predicate ValidFg(c: Codes) {
    || (|c| == 1 && c[0].Num? && (IsFgCode(c[0].n) || c[0].n == 39))
    || (|c| == 3 && c[0] == Num(38) && c[1] == Num(5))
  }

  predicate ValidBg(c: Codes) {
    || (|c| == 1 && c[0].Num? && (IsBgCode(c[0].n) || c[0].n == 49))
    || (|c| == 3 && c[0] == Num(48) && c[1] == Num(5))
  }

  /** The effect of one code that stands alone; `d` gives the default colours. */
  function ApplyOne(n: nat, a: Attr, d: Attr): Option<Attr> {
    if n == 0 then Some(Plain(d.bg, d.fg))
    else if IsFgCode(n) then Some(a.(fg := [Num(n)]))
    else if IsBgCode(n) then Some(a.(bg := [Num(n)]))
    else if n == 39 then Some(a.(fg := d.fg))
    else if n == 49 then Some(a.(bg := d.bg))
    else if n == 1 then Some(a.(bold := true))
    else if n == 2 then Some(a.(dim := true))
    else if n == 22 then Some(a.(bold := false, dim := false))
    else if n == 3 then Some(a.(italic := true))
    else if n == 23 then Some(a.(italic := false))
    else if n == 4 then Some(a.(underline := true))
    else if n == 24 then Some(a.(underline := false))
    else None
  }

  /** The codes by what they change: what sets each attribute, what clears it, and that nothing else does. */
  lemma CodesByAttribute(n: nat, a: Attr, d: Attr)
    ensures ApplyOne(n, a, d).Some? <==>
              n in {0, 1, 2, 3, 4, 22, 23, 24, 39, 49} || IsFgCode(n) || IsBgCode(n)
    ensures ApplyOne(n, a, d).Some? ==>
              var r := ApplyOne(n, a, d).value;
              && (r.bold <==> n == 1 || (a.bold && n !in {0, 22}))
              && (r.dim <==> n == 2 || (a.dim && n !in {0, 22}))
              && (r.italic <==> n == 3 || (a.italic && n !in {0, 23}))
              && (r.underline <==> n == 4 || (a.underline && n !in {0, 24}))
              && r.fg == (if IsFgCode(n) then [Num(n)] else if n in {0, 39} then d.fg else a.fg)
              && r.bg == (if IsBgCode(n) then [Num(n)] else if n in {0, 49} then d.bg else a.bg)
  {
  }

  predicate StartsColor(codes: Codes) {
    codes != [] && (codes[0] == Num(38) || codes[0] == Num(48))
  }

  /** What a terminal whose default colours are those of `d` makes of an escape sequence. */
  function Apply(codes: Codes, a: Attr, d: Attr): Option<Attr> {
    if codes == [] then Some(a)
    else if StartsColor(codes) then
      if |codes| < 3 || codes[1] != Num(5) then None
      else Apply(codes[3..], if codes[0] == Num(38) then a.(fg := codes[..3]) else a.(bg := codes[..3]), d)
    else if codes[0].Blank? then None
    else
      var a' := ApplyOne(codes[0].n, a, d);
      if a'.None? then None else Apply(codes[1..], a'.value, d)
  }

  // a terminal in its initial state
  const TERMINAL: Attr := Plain(BG_COLOR_DEFAULT, FG_COLOR_DEFAULT)

  lemma {:induction false} ApplyConcat(x: Codes, y: Codes, a: Attr, d: Attr)
    requires Apply(x, a, d).Some?
    ensures Apply(x + y, a, d) == Apply(y, Apply(x, a, d).value, d)
    decreases |x|
  {
    if x == [] {
      assert x + y == y;
    } else if StartsColor(x) {
      assert (x + y)[3..] == x[3..] + y && (x + y)[..3] == x[..3];
      ApplyConcat(x[3..], y, if x[0] == Num(38) then a.(fg := x[..3]) else a.(bg := x[..3]), d);
    } else {
      assert (x + y)[1..] == x[1..] + y;
      ApplyConcat(x[1..], y, ApplyOne(x[0].n, a, d).value, d);
    }
  }

  lemma ApplyFg(c: Codes, a: Attr)
    requires ValidFg(c)
    ensures Apply(c, a, TERMINAL) == Some(a.(fg := c))
  {
    if |c| == 3 {
      assert c[..3] == c;
    } else {
      assert c == [c[0]];
    }
  }

  lemma ApplyBg(c: Codes, a: Attr)
    requires ValidBg(c)
    ensures Apply(c, a, TERMINAL) == Some(a.(bg := c))
  {
    if |c| == 3 {
      assert c[..3] == c;
    } else {
      assert c == [c[0]];
    }
  }

  // colours of the 256-colour palette; the first 16 have short codes
  function C256Fg(c: nat): Codes {
    if c > 15 then [Num(38), Num(5), Num(c)] else if c > 7 then [Num(82 + c)] else [Num(30 + c)]
  }

  function C256Bg(c: nat): Codes {
    if c > 15 then [Num(48), Num(5), Num(c)] else if c > 7 then [Num(92 + c)] else [Num(40 + c)]
  }

  lemma PaletteIsFaithful(c: nat, c': nat)
    ensures ValidFg(C256Fg(c)) && ValidBg(C256Bg(c))
    ensures C256Fg(c) == C256Fg(c') ==> c == c'
    ensures C256Bg(c) == C256Bg(c') ==> c == c'
  {
  }

  // ---------- the transition between two formats ----------

  // one or two codes that stand alone
  lemma ApplySingle(n: nat, a: Attr)
    requires n != 38 && n != 48
    ensures Apply([Num(n)], a, TERMINAL) == ApplyOne(n, a, TERMINAL)
  {
    assert [Num(n)][1..] == [];
  }

  lemma ApplyPair(n: nat, m: nat, a: Attr)
    requires n != 38 && n != 48 && ApplyOne(n, a, TERMINAL).Some?
    requires m != 38 && m != 48
    ensures Apply([Num(n)], a, TERMINAL) == ApplyOne(n, a, TERMINAL)
    ensures Apply([Num(n), Num(m)], a, TERMINAL) == ApplyOne(m, ApplyOne(n, a, TERMINAL).value, TERMINAL)
  {
    ApplySingle(n, a);
    ApplySingle(m, ApplyOne(n, a, TERMINAL).value);
    assert [Num(n), Num(m)][1..] == [Num(m)];
  }

  /** Bold and dim: there is no portable way to disable only one of them. */
  method BoldDimCodes(before: Attr, after: Attr) returns (codes: Codes)
    ensures Apply(codes, before, TERMINAL) == Some(before.(bold := after.bold, dim := after.dim))
    ensures codes == [] <==> before.bold == after.bold && before.dim == after.dim
  {
    ApplyPair(22, 1, before);
    ApplyPair(22, 2, before);
    ApplyPair(1, 2, before);
    ApplyPair(2, 2, before);
    codes := [];
    if after.bold != before.bold && !after.bold {
      codes := if after.dim then [Num(22), Num(2)] else [Num(22)];
    } else if after.dim != before.dim && !after.dim {
      codes := if after.bold then [Num(22), Num(1)] else [Num(22)];
    } else if after.bold != before.bold {
      codes := if after.dim != before.dim then [Num(1), Num(2)] else [Num(1)];
    } else if after.dim != before.dim {
      codes := [Num(2)];
    }
  }

  /** The codes that turn the old format into the new one, in any terminal that shows the old one. */
  method GetTransition(before: Attr, after: Attr) returns (codes: Codes)
    requires ValidFg(after.fg) && ValidBg(after.bg) && before.italic == after.italic
    ensures Apply(codes, before, TERMINAL) == Some(after)
    ensures codes == [] <==> before == after
  {
    hide Apply, ApplyOne;
    codes := BoldDimCodes(before, after);
    ghost var a := before.(bold := after.bold, dim := after.dim);
    if after.underline != before.underline {
      codes := codes + [Num(if after.underline then 4 else 24)];
      UnderlineThen(codes[..|codes| - 1], before, a, after.underline);
      a := a.(underline := after.underline);
    }
    if after.bg != before.bg {
      BgThen(codes, before, a, after.bg);
      codes, a := codes + after.bg, a.(bg := after.bg);
    }
    if after.fg != before.fg {
      FgThen(codes, before, a, after.fg);
      codes, a := codes + after.fg, a.(fg := after.fg);
    }
  }

  // codes appended to codes that lead from `from` to `a`
  lemma UnderlineThen(codes: Codes, from: Attr, a: Attr, on: bool)
    requires Apply(codes, from, TERMINAL) == Some(a)
    ensures Apply(codes + [Num(if on then 4 else 24)], from, TERMINAL) == Some(a.(underline := on))
  {
    var n := if on then 4 else 24;
    ApplyPair(n, n, a);
    ApplyConcat(codes, [Num(n)], from, TERMINAL);
  }

  lemma BgThen(codes: Codes, from: Attr, a: Attr, c: Codes)
    requires Apply(codes, from, TERMINAL) == Some(a) && ValidBg(c)
    ensures Apply(codes + c, from, TERMINAL) == Some(a.(bg := c)) && c != []
  {
    ApplyBg(c, a);
    ApplyConcat(codes, c, from, TERMINAL);
  }

  lemma FgThen(codes: Codes, from: Attr, a: Attr, c: Codes)
    requires Apply(codes, from, TERMINAL) == Some(a) && ValidFg(c)
    ensures Apply(codes + c, from, TERMINAL) == Some(a.(fg := c)) && c != []
  {
    ApplyFg(c, a);
    ApplyConcat(codes, c, from, TERMINAL);
  }

  // ---------- the optimizer ----------

  // characters up to an escape sequence, and its codes
  datatype Piece = Piece(text: string, codes: Codes)

  // an escape sequence (none when there is no code) and the characters after it
  datatype Out = Out(codes: Codes, text: string)

  // characters shown with the same attributes
  datatype Run = Run(text: string, attr: Attr)

  datatype Shown = Shown(runs: seq<Run>, final: Attr)

  predicate IsSpace(c: char) {
    c == ' ' || c == '\t' || c == '\n' || c == '\r' || c as int == 11 || c as int == 12
  }

  predicate AllSpaces(s: string) {
    s != "" && forall k :: 0 <= k < |s| ==> IsSpace(s[k])
  }

  /** What the input shows, its default colours and its resets being read as those of `d`. */
  function ShowInput(ps: seq<Piece>, d: Attr): Option<Shown> {
    if ps == [] then Some(Shown([], d))
    else
      var init, last := ShowInput(ps[..|ps| - 1], d), ps[|ps| - 1];
      if init.None? then None
      else
        var a := Apply(last.codes, init.value.final, d);
        if a.None? then None else Some(Shown(init.value.runs + [Run(last.text, init.value.final)], a.value))
  }

  /** What the output shows on a terminal in its initial state. */
  function ShowOutput(os: seq<Out>): Option<Shown> {
    if os == [] then Some(Shown([], TERMINAL))
    else
      var init, last := ShowOutput(os[..|os| - 1]), os[|os| - 1];
      if init.None? then None
      else
        var a := Apply(last.codes, init.value.final, TERMINAL);
        if a.None? then None else Some(Shown(init.value.runs + [Run(last.text, a.value)], a.value))
  }

  /** Same characters, same attributes; white space only needs its background. */
  predicate LooksLike(a: Run, b: Run) {
    && a.text == b.text
    && (a.text != "" ==> a.attr.bg == b.attr.bg)
    && (a.text != "" && !AllSpaces(a.text) ==> a.attr == b.attr)
  }

  predicate AllLookLike(xs: seq<Run>, ys: seq<Run>) {
    |xs| == |ys| && forall k :: 0 <= k < |xs| ==> LooksLike(xs[k], ys[k])
  }

  datatype Error = UnexpectedCode

  predicate ValidColors(a: Attr) {
    ValidFg(a.fg) && ValidBg(a.bg)
  }

  /** How the optimizer reads codes: a colour cut after 38;5 or 48;5 is a colour for it, of two codes. */
  function Read(codes: Codes, a: Attr, d: Attr): Option<Attr>
    decreases |codes|
  {
    if codes == [] then Some(a)
    else if StartsColor(codes) then
      if |codes| < 2 || codes[1] != Num(5) then None
      else
        var end := if |codes| < 3 then |codes| else 3;
        Read(codes[end..], if codes[0] == Num(38) then a.(fg := codes[..end]) else a.(bg := codes[..end]), d)
    else if codes[0].Blank? then None
    else
      var a' := ApplyOne(codes[0].n, a, d);
      if a'.None? then None else Read(codes[1..], a'.value, d)
  }

  lemma {:induction false} ReadIsApply(codes: Codes, a: Attr, d: Attr)
    requires Apply(codes, a, d).Some?
    ensures Read(codes, a, d) == Apply(codes, a, d)
    decreases |codes|
  {
    if codes != [] {
      if StartsColor(codes) {
        ReadIsApply(codes[3..], if codes[0] == Num(38) then a.(fg := codes[..3]) else a.(bg := codes[..3]), d);
      } else {
        ReadIsApply(codes[1..], ApplyOne(codes[0].n, a, d).value, d);
      }
    }
  }

  /** One escape sequence of the input, as the optimizer reads it. */
  method ReadCodes(codes: Codes, target: Attr, d: Attr) returns (r: Result<Attr, Error>)
    requires ValidColors(d)
    ensures r == if Read(codes, target, d).None? then Err(UnexpectedCode) else Ok(Read(codes, target, d).value)
    ensures Apply(codes, target, d).Some? ==> r == Ok(Apply(codes, target, d).value)
    ensures r.Err? <==> Apply(codes, target, d).None? && !CutColorAtEnd(codes)
  {
    var rest, a := codes, target;
    while rest != []
      invariant Apply(rest, a, d) == Apply(codes, target, d)
      invariant Read(rest, a, d) == Read(codes, target, d)
      invariant CutColorAtEnd(rest) <==> CutColorAtEnd(codes)
      decreases |rest|
    {
      if rest[0].Blank? {
        return Err(UnexpectedCode);
      }
      var c := rest[0].n;
      if c == 38 || c == 48 {
        if |rest| < 2 || rest[1] != Num(5) {
          return Err(UnexpectedCode);
        }
        // a slice: the two codes are taken as a colour when the third is missing
        var end := if |rest| < 3 then |rest| else 3;
        a := if c == 38 then a.(fg := rest[..end]) else a.(bg := rest[..end]);
        if |rest| < 3 {
          return Ok(a);
        }
        rest := rest[end..];
      } else {
        var a' := ApplyOne(c, a, d);
        if a'.None? {
          return Err(UnexpectedCode);
        }
        a, rest := a'.value, rest[1..];
      }
    }
    r := Ok(a);
  }

  /** The codes are fine up to a final 38;5 or 48;5 whose colour number is missing. */
  predicate CutColorAtEnd(codes: Codes)
    decreases |codes|
  {
    if codes == [] then false
    else if StartsColor(codes) then
      |codes| >= 2 && codes[1] == Num(5) && (|codes| == 2 || CutColorAtEnd(codes[3..]))
    else codes[0].Num? && ApplyOne(codes[0].n, TERMINAL, TERMINAL).Some? && CutColorAtEnd(codes[1..])
  }

  predicate Understood(codes: Codes) {
    Apply(codes, TERMINAL, TERMINAL).Some?
  }

  /** Whether codes are understood does not depend on the state they apply to. */
  lemma {:induction false} UnderstoodAnywhere(codes: Codes, a: Attr, b: Attr, d: Attr)
    ensures Apply(codes, a, d).Some? <==> Apply(codes, b, TERMINAL).Some?
    decreases |codes|
  {
    if codes != [] {
      if StartsColor(codes) {
        if |codes| >= 3 && codes[1] == Num(5) {
          UnderstoodAnywhere(codes[3..], if codes[0] == Num(38) then a.(fg := codes[..3]) else a.(bg := codes[..3]),
                                         if codes[0] == Num(38) then b.(fg := codes[..3]) else b.(bg := codes[..3]), d);
        }
      } else if codes[0].Num? && ApplyOne(codes[0].n, a, d).Some? {
        UnderstoodAnywhere(codes[1..], ApplyOne(codes[0].n, a, d).value, ApplyOne(codes[0].n, b, TERMINAL).value, d);
      }
    }
  }

  lemma {:induction false} ApplyKeepsValid(codes: Codes, a: Attr, d: Attr)
    requires ValidColors(a) && ValidColors(d) && Apply(codes, a, d).Some?
    ensures ValidColors(Apply(codes, a, d).value)
    decreases |codes|
  {
    if codes != [] {
      if StartsColor(codes) {
        ApplyKeepsValid(codes[3..], if codes[0] == Num(38) then a.(fg := codes[..3]) else a.(bg := codes[..3]), d);
      } else {
        ApplyOneKeepsValid(codes[0].n, a, d);
        hide ApplyOne;
        ApplyKeepsValid(codes[1..], ApplyOne(codes[0].n, a, d).value, d);
      }
    }
  }

  lemma ApplyOneKeepsValid(n: nat, a: Attr, d: Attr)
    requires ValidColors(a) && ValidColors(d) && ApplyOne(n, a, d).Some?
    ensures ValidColors(ApplyOne(n, a, d).value)
  {
  }

  // ---------- emitting the difference ----------

  // the state of the terminal once the wanted part of the difference is emitted
  function Emitted(cur: Attr, target: Attr, foreground: bool, background: bool): Attr {
    var bg := if background then target.bg else cur.bg;
    if foreground then target.(bg := bg) else cur.(bg := bg)
  }

  /** The codes lead from one state of the terminal to another. */
  ghost predicate Leads(codes: Codes, from: Attr, to: Attr, target: Attr) {
    ValidColors(target) ==> Apply(codes, from, TERMINAL) == Some(to)
  }

  /** Codes are added exactly when the terminal has to change. */
  ghost predicate NoIdleCodes(before: Codes, codes: Codes, from: Attr, to: Attr, target: Attr) {
    ValidColors(target) ==> |before| <= |codes| && (|before| == |codes| <==> to == from)
  }

  lemma ColorsAreCodes(target: Attr)
    ensures ValidColors(target) ==> target.fg != [] && target.bg != []
  {
  }

  lemma LeadsNowhere(from: Attr, target: Attr)
    ensures Leads([], from, from, target)
  {
  }

  lemma LeadsToBg(codes: Codes, from: Attr, a: Attr, target: Attr)
    requires Leads(codes, from, a, target)
    ensures Leads(codes + target.bg, from, a.(bg := target.bg), target)
  {
    if ValidColors(target) {
      BgThen(codes, from, a, target.bg);
    }
  }

  lemma LeadsToFg(codes: Codes, from: Attr, a: Attr, target: Attr)
    requires Leads(codes, from, a, target)
    ensures Leads(codes + target.fg, from, a.(fg := target.fg), target)
  {
    if ValidColors(target) {
      FgThen(codes, from, a, target.fg);
    }
  }

  lemma LeadsOn(codes: Codes, from: Attr, a: Attr, target: Attr, n: nat)
    requires Leads(codes, from, a, target) && n != 38 && n != 48 && ApplyOne(n, a, TERMINAL).Some?
    ensures Leads(codes + [Num(n)], from, ApplyOne(n, a, TERMINAL).value, target)
  {
    if ValidColors(target) {
      ApplySingle(n, a);
      ApplyConcat(codes, [Num(n)], from, TERMINAL);
    }
  }

  function BoldDimDiff(cur: Attr, target: Attr): Codes {
    var off := (cur.bold && !target.bold) || (cur.dim && !target.dim);
    (if off then [Num(22)] else [])
    + (if target.bold && (off || !cur.bold) then [Num(1)] else [])
    + (if target.dim && (off || !cur.dim) then [Num(2)] else [])
  }

  function ItalicUnderlineDiff(cur: Attr, target: Attr): Codes {
    (if target.italic == cur.italic then [] else [Num(if target.italic then 3 else 23)])
    + (if target.underline == cur.underline then [] else [Num(if target.underline then 4 else 24)])
  }

  function StyleDiff(cur: Attr, target: Attr): Codes {
    ItalicUnderlineDiff(cur, target) + BoldDimDiff(cur, target)
  }

  function ForegroundDiff(cur: Attr, target: Attr): Codes {
    (if target.fg == cur.fg then [] else target.fg) + StyleDiff(cur, target)
  }

  /** The codes in the order in which they are written. */
  function DiffCodes(cur: Attr, target: Attr, foreground: bool, background: bool): Codes {
    (if background && target.bg != cur.bg then target.bg else [])
    + (if foreground then ForegroundDiff(cur, target) else [])
  }

  lemma ForegroundIgnoresBg(cur: Attr, bg: Codes, target: Attr)
    ensures ForegroundDiff(cur.(bg := bg), target) == ForegroundDiff(cur, target)
  {
  }

  /** Emits the wanted part of the difference between the terminal and the target. */
  method EmitDiff(cur: Attr, target: Attr, foreground: bool, background: bool) returns (codes: Codes, cur': Attr)
    ensures cur' == Emitted(cur, target, foreground, background)
    ensures codes == DiffCodes(cur, target, foreground, background)
    ensures Leads(codes, cur, cur', target) && NoIdleCodes([], codes, cur, cur', target)
  {
    ColorsAreCodes(target);
    hide Leads, ValidFg, ValidBg, ForegroundDiff;
    codes, cur' := [], cur;
    LeadsNowhere(cur, target);
    if background && target.bg != cur.bg {
      LeadsToBg(codes, cur, cur', target);
      codes, cur' := codes + target.bg, cur'.(bg := target.bg);
      assert codes == target.bg;
    }
    assert codes + [] == codes;
    ForegroundIgnoresBg(cur, cur'.bg, target);
    if foreground {
      codes, cur' := EmitForeground(codes, cur, cur', target);
    }
  }

  // three changes of different attributes one after the other
  lemma NoIdleForeground(
    codes: Codes, afterFg: Codes, afterStyles: Codes, all: Codes, cur: Attr, target: Attr)
    requires var fg := cur.(fg := target.fg);
             var styles := fg.(italic := target.italic, underline := target.underline);
             && NoIdleCodes(codes, afterFg, cur, fg, target)
             && NoIdleCodes(afterFg, afterStyles, fg, styles, target)
             && NoIdleCodes(afterStyles, all, styles, styles.(bold := target.bold, dim := target.dim), target)
    ensures NoIdleCodes(codes, all, cur, target.(bg := cur.bg), target)
  {
    hide ValidColors;
  }

  lemma ForegroundParts(codes: Codes, cur: Attr, target: Attr)
    ensures var fg := cur.(fg := target.fg);
            var styles := fg.(italic := target.italic, underline := target.underline);
            var afterFg := if target.fg == cur.fg then codes else codes + target.fg;
            codes + ForegroundDiff(cur, target)
              == afterFg + ItalicUnderlineDiff(fg, target) + BoldDimDiff(styles, target)
  {
    var x, y := ItalicUnderlineDiff(cur, target), BoldDimDiff(cur, target);
    StylesIgnoreOthers(cur, target);
    hide ItalicUnderlineDiff, BoldDimDiff;
    Associative(codes + target.fg, x, y);
    Associative(codes, target.fg, x + y);
    Associative(codes, x, y);
    assert [] + (x + y) == x + y;
  }

  lemma StylesIgnoreOthers(cur: Attr, target: Attr)
    ensures var fg := cur.(fg := target.fg);
            var styles := fg.(italic := target.italic, underline := target.underline);
            && ItalicUnderlineDiff(fg, target) == ItalicUnderlineDiff(cur, target)
            && BoldDimDiff(styles, target) == BoldDimDiff(cur, target)
  {
  }

  lemma Associative(a: Codes, b: Codes, c: Codes)
    ensures (a + b) + c == a + (b + c)
  {
  }

  method EmitForeground(codes: Codes, ghost from: Attr, cur: Attr, target: Attr) returns (codes': Codes, cur': Attr)
    requires Leads(codes, from, cur, target)
    ensures cur' == target.(bg := cur.bg) && codes' == codes + ForegroundDiff(cur, target)
    ensures Leads(codes', from, cur', target) && NoIdleCodes(codes, codes', cur, cur', target)
  {
    hide Leads, ValidFg, ValidBg, ValidColors, ForegroundDiff, ItalicUnderlineDiff, BoldDimDiff;
    ForegroundParts(codes, cur, target);
    ColorsAreCodes(target);
    codes', cur' := codes, cur;
    if target.fg != cur'.fg {
      LeadsToFg(codes', from, cur', target);
      codes', cur' := codes' + target.fg, cur'.(fg := target.fg);
    }
    assert NoIdleCodes(codes, codes', cur, cur', target);
    hide NoIdleCodes;
    ghost var afterFg := codes';
    codes', cur' := EmitStyles(codes', from, cur', target);
    ghost var afterStyles := codes';
    codes', cur' := EmitBoldDim(codes', from, cur', target);
    NoIdleForeground(codes, afterFg, afterStyles, codes', cur, target);
  }

  method EmitStyles(codes: Codes, ghost from: Attr, cur: Attr, target: Attr) returns (codes': Codes, cur': Attr)
    requires Leads(codes, from, cur, target)
    ensures cur' == cur.(italic := target.italic, underline := target.underline)
    ensures codes' == codes + ItalicUnderlineDiff(cur, target)
    ensures Leads(codes', from, cur', target) && NoIdleCodes(codes, codes', cur, cur', target)
  {
    hide Leads, ValidFg, ValidBg;
    codes', cur' := codes, cur;
    if target.italic != cur'.italic {
      var n := if target.italic then 3 else 23;
      LeadsOn(codes', from, cur', target, n);
      codes', cur' := codes' + [Num(n)], cur'.(italic := target.italic);
    }
    if target.underline != cur'.underline {
      var n := if target.underline then 4 else 24;
      LeadsOn(codes', from, cur', target, n);
      codes', cur' := codes' + [Num(n)], cur'.(underline := target.underline);
    }
  }

  method EmitBoldDim(codes: Codes, ghost from: Attr, cur: Attr, target: Attr) returns (codes': Codes, cur': Attr)
    requires Leads(codes, from, cur, target)
    ensures cur' == cur.(bold := target.bold, dim := target.dim)
    ensures codes' == codes + BoldDimDiff(cur, target)
    ensures Leads(codes', from, cur', target) && NoIdleCodes(codes, codes', cur, cur', target)
  {
    hide Leads, ValidFg, ValidBg;
    codes', cur' := codes, cur;
    if (cur.bold && !target.bold) || (cur.dim && !target.dim) {
      // code 22 turns both off
      LeadsOn(codes', from, cur', target, 22);
      codes', cur' := codes' + [Num(22)], cur'.(bold := false, dim := false);
    }
    if !cur'.bold && target.bold {
      LeadsOn(codes', from, cur', target, 1);
      codes', cur' := codes' + [Num(1)], cur'.(bold := true);
    }
    if !cur'.dim && target.dim {
      LeadsOn(codes', from, cur', target, 2);
      codes', cur' := codes' + [Num(2)], cur'.(dim := true);
    }
  }

  // ---------- the pass ----------

  // the program ends every text with the given defaults and with all attributes off
  function WithReset(ps: seq<Piece>, tail: string, d: Attr): seq<Piece> {
    ps + [Piece(tail, d.fg + d.bg + [Num(22), Num(23), Num(24)])]
  }

  /** Each escape sequence that the output has changes the state of the terminal, and all others are left out. */
  ghost predicate Quiet(outs: seq<Out>) {
    outs == [] ||
    var init, last := outs[..|outs| - 1], outs[|outs| - 1];
    && Quiet(init)
    && (ShowOutput(outs).Some? ==>
          (last.codes == [] <==> ShowOutput(outs).value.final == ShowOutput(init).value.final))
  }

  /** An escape sequence is written before a text exactly when the text would look wrong without it, and it changes no
      more of the terminal than the text shows. */
  ghost predicate Lazy(ps: seq<Piece>, d: Attr, outs: seq<Out>) {
    && |ps| == |outs|
    && (ps == [] ||
        var n := |ps| - 1;
        && Lazy(ps[..n], d, outs[..n])
        && (ShowInput(ps[..n], d).Some? && ShowOutput(outs).Some? ==>
              WrittenForText(ps[n].text, ShowInput(ps[..n], d).value.final,
                             ShowOutput(outs[..n]).value.final, outs[n].codes, ShowOutput(outs).value.final)))
  }

  predicate WrittenForText(text: string, wanted: Attr, before: Attr, codes: Codes, after: Attr) {
    && (codes == [] <==> LooksLike(Run(text, wanted), Run(text, before)))
    && after == (if text == "" then before else if AllSpaces(text) then before.(bg := wanted.bg) else wanted)
  }

  /** What the program has written, the state it believes the terminal is in, and the one it should be in. */
  datatype Pass = Pass(outs: seq<Out>, cur: Attr, target: Attr)

  function PassOne(before: Pass, p: Piece, d: Attr): Option<Pass> {
    var foreground, background := p.text != "" && !AllSpaces(p.text), p.text != "";
    var target := Read(p.codes, before.target, d);
    if target.None? then None
    else
      Some(Pass(before.outs + [Out(DiffCodes(before.cur, before.target, foreground, background), p.text)],
                Emitted(before.cur, before.target, foreground, background), target.value))
  }

  /** The pass over some pieces; None for an unexpected code. */
  function Passed(ps: seq<Piece>, d: Attr): Option<Pass> {
    if ps == [] then Some(Pass([], TERMINAL, d))
    else
      var before := Passed(ps[..|ps| - 1], d);
      if before.None? then None else PassOne(before.value, ps[|ps| - 1], d)
  }

  /** What the program writes for a whole text. */
  function Optimized(ps: seq<Piece>, tail: string, d: Attr): Result<seq<Out>, Error> {
    var all := Passed(WithReset(ps, tail, d), d);
    if all.None? then Err(UnexpectedCode)
    else Ok(all.value.outs + [Out(DiffCodes(all.value.cur, all.value.target, true, true), "")])
  }

  /** The output of the first pieces shows what they show, without idle escape sequences. */
  ghost predicate Faithful(ps: seq<Piece>, d: Attr, outs: seq<Out>, target: Attr, cur: Attr) {
    var input, output := ShowInput(ps, d), ShowOutput(outs);
    input.Some? ==>
      && ValidColors(target) && input.value.final == target
      && output.Some? && output.value.final == cur
      && AllLookLike(input.value.runs, output.value.runs)
      && Quiet(outs) && Lazy(ps, d, outs)
  }

  /** What the program does for one piece keeps the output faithful. */
  lemma PieceKeeps(
    ps: seq<Piece>, d: Attr, outs: seq<Out>, target: Attr, cur: Attr, p: Piece, codes: Codes, cur': Attr, target': Attr)
    requires Faithful(ps, d, outs, target, cur) && ValidColors(d)
    requires cur' == Emitted(cur, target, p.text != "" && !AllSpaces(p.text), p.text != "")
    requires Leads(codes, cur, cur', target) && NoIdleCodes([], codes, cur, cur', target)
    requires Apply(p.codes, target, d).Some? ==> target' == Apply(p.codes, target, d).value
    ensures Faithful(ps + [p], d, outs + [Out(codes, p.text)], target', cur')
  {
    hide Apply;
    var ps', outs' := ps + [p], outs + [Out(codes, p.text)];
    assert ps'[..|ps'| - 1] == ps && outs'[..|outs'| - 1] == outs;
    if ShowInput(ps', d).Some? {
      ApplyKeepsValid(p.codes, target, d);
      assert LooksLike(Run(p.text, target), Run(p.text, cur'));
    }
  }

  lemma FlushKeeps(ps: seq<Piece>, d: Attr, outs: seq<Out>, target: Attr, cur: Attr, codes: Codes)
    requires Faithful(ps, d, outs, target, cur) && ShowInput(ps, d).Some?
    requires Leads(codes, cur, target, target) && NoIdleCodes([], codes, cur, target, target)
    ensures Quiet(outs + [Out(codes, "")])
    ensures var input, output := ShowInput(ps, d).value, ShowOutput(outs + [Out(codes, "")]);
            && output.Some? && output.value.final == target
            && AllLookLike(input.runs + [Run("", d)], output.value.runs)
  {
    hide Apply;
    var outs' := outs + [Out(codes, "")];
    assert outs'[..|outs'| - 1] == outs;
  }

  /** The escape sequence added at the end leads back to the defaults, from any state. */
  lemma ResetLeadsToDefaults(fg: Codes, bg: Codes, a: Attr)
    requires ValidFg(fg) && ValidBg(bg)
    ensures Apply(fg + bg + [Num(22), Num(23), Num(24)], a, Plain(bg, fg)) == Some(Plain(bg, fg))
  {
    var d := Plain(bg, fg);
    ApplyDefaults(fg, bg, a);
    ApplyConcat(fg, bg, a, d);
    var a2 := a.(fg := fg, bg := bg);
    ApplyConcat(fg + bg, [Num(22), Num(23), Num(24)], a, d);
    assert [Num(22), Num(23), Num(24)][1..] == [Num(23), Num(24)];
    assert [Num(23), Num(24)][1..] == [Num(24)];
    assert Apply([Num(24)], a2.(bold := false, dim := false, italic := false), d) == Some(d) by {
      assert [Num(24)][1..] == [];
    }
    assert Apply([Num(23), Num(24)], a2.(bold := false, dim := false), d) == Some(d);
  }

  lemma ApplyDefaults(fg: Codes, bg: Codes, a: Attr)
    requires ValidFg(fg) && ValidBg(bg)
    ensures Apply(fg, a, Plain(bg, fg)) == Some(a.(fg := fg))
    ensures Apply(bg, a.(fg := fg), Plain(bg, fg)) == Some(a.(fg := fg, bg := bg))
  {
    if |fg| == 3 { assert fg[..3] == fg; } else { assert fg == [fg[0]]; }
    if |bg| == 3 { assert bg[..3] == bg; } else { assert bg == [bg[0]]; }
  }

  lemma {:induction false} UnderstoodIsShown(ps: seq<Piece>, d: Attr)
    requires forall k :: 0 <= k < |ps| ==> Understood(ps[k].codes)
    ensures ShowInput(ps, d).Some?
  {
    if ps != [] {
      var n := |ps| - 1;
      UnderstoodIsShown(ps[..n], d);
      UnderstoodAnywhere(ps[n].codes, ShowInput(ps[..n], d).value.final, TERMINAL, d);
    }
  }

  lemma ResetIsUnderstood(ps: seq<Piece>, tail: string, d: Attr)
    requires ValidColors(d) && d == Plain(d.bg, d.fg)
    ensures var all := WithReset(ps, tail, d);
            Understood(all[|ps|].codes) && (ShowInput(all, d).Some? ==> ShowInput(all, d).value.final == d)
  {
    var all := WithReset(ps, tail, d);
    ResetLeadsToDefaults(d.fg, d.bg, d);
    UnderstoodAnywhere(all[|ps|].codes, d, TERMINAL, d);
    assert all[..|ps|] == ps;
    if ShowInput(all, d).Some? {
      ResetLeadsToDefaults(d.fg, d.bg, ShowInput(ps, d).value.final);
    }
  }

  method Optimize(ps: seq<Piece>, tail: string, defaultFg: Codes, defaultBg: Codes)
    returns (r: Result<seq<Out>, Error>)
    requires ValidFg(defaultFg) && ValidBg(defaultBg)
    ensures r.Err? <==> exists k :: 0 <= k < |ps| && !Understood(ps[k].codes) && !CutColorAtEnd(ps[k].codes)
    ensures (forall k :: 0 <= k < |ps| ==> Understood(ps[k].codes)) ==>
              && r.Ok? && Preserves(ps, tail, Plain(defaultBg, defaultFg), r.value) && Quiet(r.value)
              && r.value != [] && var d := Plain(defaultBg, defaultFg);
              Lazy(WithReset(ps, tail, d), d, r.value[..|r.value| - 1])
    ensures r == Optimized(ps, tail, Plain(defaultBg, defaultFg))
  {
    hide Leads, Quiet, NoIdleCodes, ValidFg, ValidBg, Faithful, Apply, CutColorAtEnd, Understood, AllSpaces, Preserves;
    hide Read, DiffCodes, Passed, Lazy;
    var d := Plain(defaultBg, defaultFg);
    var all := WithReset(ps, tail, d);
    ResetIsUnderstood(ps, tail, d);
    var outs: seq<Out>, cur, target := [], TERMINAL, d;
    StartsFaithful(d);
    NothingPassed(d);
    assert all[..0] == [];
    for k := 0 to |all|
      invariant Faithful(all[..k], d, outs, target, cur)
      invariant Passed(all[..k], d) == Some(Pass(outs, cur, target))
      invariant forall j :: 0 <= j < k ==> Understood(all[j].codes) || CutColorAtEnd(all[j].codes)
    {
      var pending := all[k].text;
      // white space shows its background only, and no character shows nothing
      var foreground, background := pending != "" && !AllSpaces(pending), pending != "";
      var codes, cur' := EmitDiff(cur, target, foreground, background);
      var res := ReadCodes(all[k].codes, target, d);
      CodesRefused(all[k].codes, target, d);
      PassedNext(all, k, d);
      if res.Err? {
        NotPassed(all, k + 1, d);
        return Err(UnexpectedCode);
      }
      PieceKeeps(all[..k], d, outs, target, cur, all[k], codes, cur', res.value);
      assert all[..k + 1] == all[..k] + [all[k]];
      outs := outs + [Out(codes, pending)];
      cur, target := cur', res.value;
    }
    assert all[..|all|] == all;
    var codes, _ := EmitDiff(cur, target, true, true);
    Finish(ps, tail, d, outs, target, cur, codes);
    assert forall k :: 0 <= k < |ps| ==> ps[k] == all[k];
    r := Ok(outs + [Out(codes, "")]);
    assert r.value[..|r.value| - 1] == outs;
  }

  lemma NothingPassed(d: Attr)
    ensures Passed([], d) == Some(Pass([], TERMINAL, d))
  {
  }

  lemma PassedNext(ps: seq<Piece>, k: nat, d: Attr)
    requires k < |ps|
    ensures var before := Passed(ps[..k], d);
            Passed(ps[..k + 1], d) == if before.None? then None else PassOne(before.value, ps[k], d)
  {
    assert ps[..k + 1][..k] == ps[..k];
  }

  lemma {:induction false} NotPassed(ps: seq<Piece>, k: nat, d: Attr)
    requires k <= |ps| && Passed(ps[..k], d).None?
    ensures Passed(ps, d).None?
    decreases |ps| - k
  {
    if k < |ps| {
      PassedNext(ps, k, d);
      NotPassed(ps, k + 1, d);
    } else {
      assert ps[..k] == ps;
    }
  }

  lemma StartsFaithful(d: Attr)
    requires ValidColors(d)
    ensures Faithful([], d, [], d, TERMINAL)
  {
  }

  lemma CodesRefused(codes: Codes, target: Attr, d: Attr)
    ensures Understood(codes) <==> Apply(codes, target, d).Some?
  {
    UnderstoodAnywhere(codes, target, TERMINAL, d);
  }

  lemma Finish(ps: seq<Piece>, tail: string, d: Attr, outs: seq<Out>, target: Attr, cur: Attr, codes: Codes)
    requires ValidColors(d) && d == Plain(d.bg, d.fg)
    requires Faithful(WithReset(ps, tail, d), d, outs, target, cur) && Leads(codes, cur, target, target)
    requires NoIdleCodes([], codes, cur, target, target)
    ensures (forall k :: 0 <= k < |ps| ==> Understood(ps[k].codes)) ==>
              && Preserves(ps, tail, d, outs + [Out(codes, "")]) && Quiet(outs + [Out(codes, "")])
              && Lazy(WithReset(ps, tail, d), d, outs)
  {
    hide Apply, ValidFg, ValidBg, Understood, Lazy;
    ResetIsUnderstood(ps, tail, d);
    var all := WithReset(ps, tail, d);
    if forall k :: 0 <= k < |ps| ==> Understood(ps[k].codes) {
      UnderstoodIsShown(all, d);
      FlushKeeps(all, d, outs, target, cur, codes);
    }
  }

  /** The output shows the characters of the input with the attributes of the input, and ends with the defaults. */
  ghost predicate Preserves(ps: seq<Piece>, tail: string, d: Attr, outs: seq<Out>) {
    var input, output := ShowInput(WithReset(ps, tail, d), d), ShowOutput(outs);
    && input.Some? && output.Some?
    && AllLookLike(input.value.runs + [Run("", d)], output.value.runs)
    && output.value.final == d
  }
}
