/**
 Wrapping a paragraph into lines of one exact width, with colour escape sequences inside the words
 (doc/walt/doc/markdown.py, justify and wrap_escaped).
 */
module TextWrap {
  import opened Wrappers
  import opened Arithmetic

  // A text is a sequence of characters and of colour escape sequences; the latter take no room on the screen.
  datatype Cell = Glyph(c: char) | Colour(code: string)
  type Text = seq<Cell>

  datatype IndexError = EmptyWord

  const SPACE := Glyph(' ')
  const NEWLINE := Glyph('\n')
  const UNBREAKABLE := Glyph('\U{00A0}')

  predicate Blank(c: Cell) {
    c == SPACE || c == NEWLINE
  }

  predicate Solid(t: Text) {
    forall k :: 0 <= k < |t| ==> !Blank(t[k])
  }

  predicate AllBlank(t: Text) {
    forall k :: 0 <= k < |t| ==> Blank(t[k])
  }

  /** How many columns a text takes. */
  function Visible(t: Text): nat {
    if t == [] then 0 else (if t[0].Glyph? then 1 else 0) + Visible(t[1..])
  }

  lemma {:induction false} VisibleConcat(a: Text, b: Text)
    ensures Visible(a + b) == Visible(a) + Visible(b)
  {
    if a == [] {
      assert a + b == b;
    } else {
      assert (a + b)[1..] == a[1..] + b;
      VisibleConcat(a[1..], b);
    }
  }

  // ---------- words ----------

  /** The words between runs of blanks; blanks at an end of the text leave an empty word there. */
  function Split(t: Text): (words: seq<Text>)
    ensures |words| >= 1
    ensures words[0] == [] <==> t == [] || Blank(t[0])
  {
    if t == [] then [[]]
    else
      var rest := Split(t[1..]);
      if !Blank(t[0]) then [[t[0]] + rest[0]] + rest[1..]
      else if |t| > 1 && Blank(t[1]) then rest
      else [[]] + rest
  }

  /** No blank in a word, and only the first or the last word may be empty. */
  ghost predicate SplitWords(words: seq<Text>) {
    && |words| >= 1
    && (forall k :: 0 <= k < |words| ==> Solid(words[k]))
    && (forall k :: 0 < k < |words| - 1 ==> words[k] != [])
  }

  lemma {:induction false} SplitGivesWords(t: Text)
    ensures SplitWords(Split(t))
  {
    if t != [] {
      SplitGivesWords(t[1..]);
    }
  }

  /** Words with separators between them. */
  function Lay(words: seq<Text>, seps: seq<Text>): Text
    requires |words| == |seps| + 1
  {
    if seps == [] then words[0] else words[0] + seps[0] + Lay(words[1..], seps[1..])
  }

  lemma {:induction false} SplitAfterWord(w: Text, t: Text)
    requires Solid(w)
    ensures Split(w + t) == [w + Split(t)[0]] + Split(t)[1..]
  {
    if w == [] {
      assert w + t == t && w + Split(t)[0] == Split(t)[0];
      assert Split(t) == [Split(t)[0]] + Split(t)[1..];
    } else {
      assert (w + t)[1..] == w[1..] + t;
      SplitAfterWord(w[1..], t);
      assert [w[0]] + (w[1..] + Split(t)[0]) == w + Split(t)[0];
    }
  }

  lemma {:induction false} SplitAfterBlanks(sep: Text, t: Text)
    requires sep != [] && AllBlank(sep) && (t == [] || !Blank(t[0]))
    ensures Split(sep + t) == [[]] + Split(t)
  {
    assert (sep + t)[1..] == sep[1..] + t;
    if |sep| == 1 {
      assert sep[1..] + t == t;
    } else {
      SplitAfterBlanks(sep[1..], t);
    }
  }

  ghost predicate Separators(seps: seq<Text>) {
    forall k :: 0 <= k < |seps| ==> seps[k] != [] && AllBlank(seps[k])
  }

  /** Splitting gives back the words that were laid out, whatever the blanks between them. */
  lemma {:induction false} SplitLay(words: seq<Text>, seps: seq<Text>)
    requires |words| == |seps| + 1 && SplitWords(words) && Separators(seps)
    ensures Split(Lay(words, seps)) == words
  {
    if seps == [] {
      SplitAfterWord(words[0], []);
      assert words[0] + [] == words[0];
    } else {
      var t := Lay(words[1..], seps[1..]);
      SplitLay(words[1..], seps[1..]);
      assert words[1] == [] ==> t == [] by {
        if words[1] == [] {
          assert |words| == 2;
        }
      }
      SplitAfterBlanks(seps[0], t);
      assert Lay(words, seps) == words[0] + seps[0] + t;
      hide Split, Lay, Separators, SplitWords;
      SplitAfterWord(words[0], seps[0] + t);
      assert words[0] + seps[0] + t == words[0] + (seps[0] + t);
      assert words[0] + [] == words[0] && [words[0]] + words[1..] == words;
    }
  }

  lemma {:induction false} LayConcat(a: seq<Text>, sa: seq<Text>, sep: Text, b: seq<Text>, sb: seq<Text>)
    requires |a| == |sa| + 1 && |b| == |sb| + 1
    ensures Lay(a + b, sa + [sep] + sb) == Lay(a, sa) + sep + Lay(b, sb)
  {
    if sa == [] {
      assert (a + b)[1..] == b && (sa + [sep] + sb)[1..] == sb;
    } else {
      assert (a + b)[1..] == a[1..] + b && (sa + [sep] + sb)[1..] == sa[1..] + [sep] + sb;
      LayConcat(a[1..], sa[1..], sep, b, sb);
    }
  }

  // ---------- gaps ----------

  function Total(gaps: seq<nat>): nat {
    if gaps == [] then 0 else gaps[0] + Total(gaps[1..])
  }

  function Uniform(n: nat, v: nat): (gaps: seq<nat>)
    ensures |gaps| == n
  {
    seq(n, _ => v)
  }

  function Plus(a: seq<nat>, b: seq<nat>): (c: seq<nat>)
    requires |a| == |b|
    ensures |c| == |a|
  {
    seq(|a|, k requires 0 <= k < |a| => a[k] + b[k])
  }

  lemma {:induction false} TotalUniform(n: nat, v: nat)
    ensures Total(Uniform(n, v)) == n * v
  {
    if n > 0 {
      assert Uniform(n, v)[1..] == Uniform(n - 1, v);
      TotalUniform(n - 1, v);
      Distribute(n - 1, v);
    }
  }

  lemma {:induction false} TotalPlus(a: seq<nat>, b: seq<nat>)
    requires |a| == |b|
    ensures Total(Plus(a, b)) == Total(a) + Total(b)
  {
    if a != [] {
      assert Plus(a, b)[1..] == Plus(a[1..], b[1..]);
      TotalPlus(a[1..], b[1..]);
    }
  }

  lemma {:induction false} TotalUpdate(gaps: seq<nat>, k: nat, v: nat)
    requires k < |gaps|
    ensures Total(gaps[k := v]) == Total(gaps) - gaps[k] + v
  {
    if k > 0 {
      assert gaps[k := v][1..] == gaps[1..][k - 1 := v];
      TotalUpdate(gaps[1..], k - 1, v);
    } else {
      assert gaps[k := v][1..] == gaps[1..];
    }
  }

  function Spaces(gaps: seq<nat>): (seps: seq<Text>)
    ensures |seps| == |gaps|
  {
    seq(|gaps|, k requires 0 <= k < |gaps| => seq(gaps[k], _ => SPACE))
  }

  /** The columns of the words alone. */
  function Widths(words: seq<Text>): nat {
    if words == [] then 0 else Visible(words[0]) + Widths(words[1..])
  }

  lemma {:induction false} VisibleBlanks(n: nat)
    ensures Visible(seq(n, _ => SPACE)) == n
  {
    if n > 0 {
      assert seq(n, _ => SPACE)[1..] == seq(n - 1, _ => SPACE);
      VisibleBlanks(n - 1);
    }
  }

  /** A line is as wide as its words and its gaps together. */
  lemma {:induction false} VisibleLine(words: seq<Text>, gaps: seq<nat>)
    requires |words| == |gaps| + 1
    ensures Visible(Lay(words, Spaces(gaps))) == Widths(words) + Total(gaps)
  {
    if gaps != [] {
      assert Spaces(gaps)[1..] == Spaces(gaps[1..]);
      VisibleLine(words[1..], gaps[1..]);
      VisibleBlanks(gaps[0]);
      VisibleConcat(words[0] + Spaces(gaps)[0], Lay(words[1..], Spaces(gaps)[1..]));
      VisibleConcat(words[0], Spaces(gaps)[0]);
    } else {
      assert words[1..] == [];
    }
  }

  // ---------- which gaps get a space more ----------

  /** 0, 1, 2: the last character is one of the first, second, third list of signs; 3: none of them. */
  function Rank(word: Text): nat {
    if word == [] || word[|word| - 1].Colour? then 3
    else
      var c := word[|word| - 1].c;
      if c in ".!?" then 0 else if c in ":;" then 1 else if c in "," then 2 else 3
  }

  /** Sentence ends come before colons, and colons before commas. */
  lemma RankOfSign(word: Text, c: char)
    ensures Rank(word + [Glyph(c)]) == 0 <==> c == '.' || c == '!' || c == '?'
    ensures Rank(word + [Glyph(c)]) == 1 <==> c == ':' || c == ';'
    ensures Rank(word + [Glyph(c)]) == 2 <==> c == ','
    ensures Rank(word + [Glyph(c)]) <= 3
    ensures forall code :: Rank(word + [Colour(code)]) == 3
  {
    assert |".!?"| == 3 && ".!?"[0] == '.' && ".!?"[1] == '!' && ".!?"[2] == '?';
    assert |":;"| == 2 && ":;"[0] == ':' && ":;"[1] == ';';
    assert |","| == 1 && ","[0] == ',';
  }

  predicate ServedFirst(words: seq<Text>, i: nat, j: nat)
    requires i < |words| && j < |words|
  {
    Rank(words[i]) < Rank(words[j]) || (Rank(words[i]) == Rank(words[j]) && i < j)
  }

  /** Space given after words of ranks below `limit` only: the lower rank first, from left to right within a rank;
      and to all of them if `left` spaces remain. */
  ghost predicate SignsFirst(words: seq<Text>, punct: seq<nat>, limit: nat, left: nat) {
    && |words| == |punct| + 1
    && (forall k :: 0 <= k < |punct| ==> punct[k] <= (if Rank(words[k]) < limit then 1 else 0))
    && (forall i, j :: 0 <= i < |punct| && 0 <= j < |punct| && punct[j] == 1 && ServedFirst(words, i, j) ==>
          punct[i] == 1)
    && (left > 0 ==> forall k :: 0 <= k < |punct| && Rank(words[k]) < limit ==> punct[k] == 1)
  }

  /** One pass: space given after words of one rank only, from left to right. */
  ghost predicate OnePass(words: seq<Text>, got: seq<nat>, rank: nat, left: nat) {
    && |words| == |got| + 1
    && (forall k :: 0 <= k < |got| ==> got[k] <= (if Rank(words[k]) == rank then 1 else 0))
    && (forall i, j :: 0 <= i < j < |got| && got[j] == 1 && Rank(words[i]) == rank ==> got[i] == 1)
    && (left > 0 ==> forall k :: 0 <= k < |got| && Rank(words[k]) == rank ==> got[k] == 1)
  }

  lemma NextRank(words: seq<Text>, punct: seq<nat>, got: seq<nat>, rank: nat, before: nat, left: nat)
    requires SignsFirst(words, punct, rank, before) && OnePass(words, got, rank, left) && left <= before
    requires before == 0 ==> forall k :: 0 <= k < |got| ==> got[k] == 0
    ensures SignsFirst(words, Plus(punct, got), rank + 1, left)
  {
  }

  method AddAfterSigns(words: seq<Text>, added: array<nat>, rank: nat, numSpaces: nat)
    returns (r: Result<nat, IndexError>, ghost got: seq<nat>)
    requires |words| == added.Length + 1
    modifies added
    ensures |got| == added.Length
    ensures r.Ok? ==> OnePass(words, got, rank, r.value) && r.value + Total(got) == numSpaces
    ensures r.Ok? ==> added[..] == Plus(old(added[..]), got)
    ensures numSpaces == 0 ==> r.Ok? && forall k :: 0 <= k < |got| ==> got[k] == 0
    ensures r.Err? ==> exists k :: 0 <= k < added.Length && words[k] == []
    ensures added.Length > 0 && numSpaces > 0 && words[0] == [] ==> r.Err?
  {
    hide Rank;
    ghost var before := added[..];
    got := Uniform(added.Length, 0);
    TotalUniform(added.Length, 0);
    hide Uniform, Total;
    var left: nat, i := numSpaces, 0;
    while i < added.Length && left > 0
      invariant 0 <= i <= added.Length && |got| == added.Length
      invariant forall k :: 0 <= k < added.Length ==> added[k] == before[k] + got[k]
      invariant left + Total(got) == numSpaces
      invariant forall k :: 0 <= k < i ==> got[k] <= (if Rank(words[k]) == rank then 1 else 0)
      invariant forall k :: i <= k < |got| ==> got[k] == 0
      invariant forall k :: 0 <= k < i && Rank(words[k]) == rank ==> got[k] == 1
      invariant i == 0 ==> left == numSpaces
      invariant numSpaces == 0 ==> i == 0
      invariant i > 0 ==> words[0] != []
    {
      if words[i] == [] {
        return Err(EmptyWord), got;
      }
      if Rank(words[i]) == rank {
        added[i] := added[i] + 1;
        left := left - 1;
        TotalUpdate(got, i, 1);
        got := got[i := 1];
      }
      i := i + 1;
    }
    r := Ok(left);
  }

  /** The place of the i-th of s spaces spread over n gaps. */
  function Spot(i: nat, n: nat, s: nat): nat {
    i * n / (s + 1)
  }

  /** Fewer spaces than gaps get places in range, each further right than the one before. */
  lemma SpotsAreDistinct(i: nat, n: nat, s: nat)
    requires 1 <= i <= s < n
    ensures Spot(i, n, s) < n
    ensures Spot(i - 1, n, s) < Spot(i, n, s)
  {
    var q := (i - 1) * n / (s + 1);
    Distribute(i - 1, n);
    assert (q + 1) * (s + 1) <= (i - 1) * n + (s + 1) <= i * n by {
      Distribute(q, s + 1);
    }
    QuotientAtLeast(i * n, q + 1, s + 1);
    assert i * n < n * (s + 1) by {
      MulMonotone(i, s, n);
      Distribute(s, n);
    }
    QuotientBelow(i * n, n, s + 1);
  }

  /** The places are at even distances, as far as whole numbers allow: s of them cut the n gaps into s + 1 parts, of
      n / (s + 1) gaps or one more. */
  lemma SpotsAreEven(i: nat, n: nat, s: nat)
    requires 1 <= i <= s
    ensures Spot(0, n, s) == 0 && Spot(s + 1, n, s) == n
    ensures n / (s + 1) <= Spot(i, n, s) - Spot(i - 1, n, s) <= n / (s + 1) + 1
    ensures Spot(i, n, s) * (s + 1) <= i * n < Spot(i, n, s) * (s + 1) + (s + 1)
  {
    Euclid(i * n, s + 1);
    QuotientUnique((s + 1) * n, n, s + 1);
    QuotientUnique(0, 0, s + 1);
    Distribute(i - 1, n);
    QuotientOfSum((i - 1) * n, n, s + 1);
  }

  lemma QuotientOfSum(x: nat, y: nat, d: nat)
    requires d > 0
    ensures x / d + y / d <= (x + y) / d <= x / d + y / d + 1
  {
    Euclid(x, d);
    Euclid(y, d);
    SumTimes(x / d, y / d, d);
    Distribute(x / d + y / d, d);
    Distribute(x / d + y / d + 1, d);
    QuotientAtLeast(x + y, x / d + y / d, d);
    QuotientBelow(x + y, x / d + y / d + 2, d);
  }

  lemma Euclid(x: nat, d: nat)
    requires d > 0
    ensures x / d * d <= x < x / d * d + d
  {
  }

  lemma SumTimes(p: nat, q: nat, d: nat)
    ensures (p + q) * d == p * d + q * d
  {
  }

  lemma QuotientAtLeast(x: nat, q: nat, d: nat)
    requires d > 0 && q * d <= x
    ensures q <= x / d
  {
    if x / d < q {
      MulMonotone(x / d + 1, q, d);
    }
  }

  lemma QuotientBelow(x: nat, q: nat, d: nat)
    requires d > 0 && x < q * d
    ensures x / d < q
  {
    if q <= x / d {
      MulMonotone(q, x / d, d);
    }
  }

  /** One space at each of the first places, and none elsewhere. */
  ghost predicate SpreadUpTo(even: seq<nat>, i: nat, s: nat) {
    forall k :: 0 <= k < |even| ==>
      even[k] == if exists j :: 1 <= j < i && Spot(j, |even|, s) == k then 1 else 0
  }

  method SpreadEvenly(added: array<nat>, numSpaces: nat) returns (ghost even: seq<nat>)
    requires numSpaces == 0 || numSpaces < added.Length
    modifies added
    ensures |even| == added.Length && SpreadUpTo(even, numSpaces + 1, numSpaces) && Total(even) == numSpaces
    ensures added[..] == Plus(old(added[..]), even)
  {
    hide Spot;
    ghost var before := added[..];
    even := Uniform(added.Length, 0);
    TotalUniform(added.Length, 0);
    var i := 1;
    while i < numSpaces + 1
      invariant 1 <= i <= numSpaces + 1 && |even| == added.Length
      invariant forall k :: 0 <= k < added.Length ==> added[k] == before[k] + even[k]
      invariant SpreadUpTo(even, i, numSpaces) && Total(even) == i - 1
      invariant forall j :: 1 <= j < i ==> Spot(j, |even|, numSpaces) <= Spot(i - 1, |even|, numSpaces)
    {
      SpotsAreDistinct(i, added.Length, numSpaces);
      var spot := SpotOf(i, added.Length, numSpaces);
      added[spot] := added[spot] + 1;
      TotalUpdate(even, spot, 1);
      even := even[spot := 1];
      i := i + 1;
    }
  }

  method SpotOf(i: nat, n: nat, s: nat) returns (spot: nat)
    ensures spot == Spot(i, n, s)
  {
    spot := i * n / (s + 1);
  }

  // ---------- one line ----------

  /** How the spaces of a justified line are shared out. */
  ghost predicate SharedOut(words: seq<Text>, gaps: seq<nat>, numSpaces: nat, punct: seq<nat>, even: seq<nat>) {
    && |words| == |gaps| + 1 && |punct| == |even| == |gaps| > 0
    && gaps == Plus(Plus(Uniform(|gaps|, numSpaces / |gaps|), punct), even)
    && SignsFirst(words, punct, 3, Total(even))
    && SpreadUpTo(even, Total(even) + 1, Total(even))
    && Total(gaps) == numSpaces
  }

  /** A justified line: the gaps sum to the available spaces, each at most 2 over the average rounded down. */
  ghost predicate Justified(words: seq<Text>, gaps: seq<nat>, numSpaces: nat) {
    && |words| == |gaps| + 1 && gaps != []
    && Total(gaps) == numSpaces
    && (forall k :: 0 <= k < |gaps| ==> numSpaces / |gaps| <= gaps[k] <= numSpaces / |gaps| + 2)
    && exists punct, even :: SharedOut(words, gaps, numSpaces, punct, even)
  }

  /** Over 4 spaces a gap on average: not worth justifying. */
  predicate Sparse(words: seq<Text>, numSpaces: int)
    requires |words| > 1
  {
    numSpaces / (|words| - 1) > 4
  }

  lemma SparseFromFive(words: seq<Text>, numSpaces: int)
    requires |words| > 1
    ensures Sparse(words, numSpaces) <==> numSpaces >= 5 * (|words| - 1)
  {
    var n := |words| - 1;
    if numSpaces / n > 4 {
      MulMonotone(5, numSpaces / n, n);
    } else {
      MulMonotone(numSpaces / n + 1, 5, n);
    }
  }

  predicate SingleSpaces(gaps: seq<nat>) {
    forall k :: 0 <= k < |gaps| ==> gaps[k] == 1
  }

  lemma AtMostTwoMore(words: seq<Text>, base: nat, punct: seq<nat>, even: seq<nat>)
    requires |words| == |punct| + 1 && |punct| == |even|
    requires SignsFirst(words, punct, 3, Total(even)) && SpreadUpTo(even, Total(even) + 1, Total(even))
    ensures var gaps := Plus(Plus(Uniform(|even|, base), punct), even);
            forall k :: 0 <= k < |gaps| ==> base <= gaps[k] <= base + 2
  {
    hide Total, Rank, Spot;
  }

  lemma TotalShared(n: nat, base: nat, punct: seq<nat>, even: seq<nat>)
    requires |punct| == |even| == n
    ensures Total(Plus(Plus(Uniform(n, base), punct), even)) == n * base + Total(punct) + Total(even)
  {
    TotalPlus(Plus(Uniform(n, base), punct), even);
    TotalPlus(Uniform(n, base), punct);
    TotalUniform(n, base);
  }

  lemma ShareIsShared(words: seq<Text>, numSpaces: nat, base: nat, punct: seq<nat>, even: seq<nat>)
    requires |words| == |punct| + 1 && |punct| == |even| > 0 && base == numSpaces / |even|
    requires SignsFirst(words, punct, 3, Total(even)) && SpreadUpTo(even, Total(even) + 1, Total(even))
    requires Total(punct) + Total(even) == numSpaces - base * |even|
    ensures SharedOut(words, Plus(Plus(Uniform(|even|, base), punct), even), numSpaces, punct, even)
  {
    hide SignsFirst, SpreadUpTo, Total;
    TotalShared(|even|, base, punct, even);
    hide Plus, Uniform;
  }

  lemma ShareIsJustified(words: seq<Text>, numSpaces: nat, base: nat, punct: seq<nat>, even: seq<nat>)
    requires |words| == |punct| + 1 && |punct| == |even| > 0 && base == numSpaces / |even|
    requires SignsFirst(words, punct, 3, Total(even)) && SpreadUpTo(even, Total(even) + 1, Total(even))
    requires Total(punct) + Total(even) == numSpaces - base * |even|
    ensures Justified(words, Plus(Plus(Uniform(|even|, base), punct), even), numSpaces)
  {
    hide SignsFirst, SpreadUpTo, Total;
    var gaps := Plus(Plus(Uniform(|even|, base), punct), even);
    ShareIsShared(words, numSpaces, base, punct, even);
    AtMostTwoMore(words, base, punct, even);
    assert Total(gaps) == numSpaces;
    hide Plus, Uniform, SharedOut;
  }

  /** The spaces left over by the division go after the signs first. */
  method AddAfterAllSigns(words: seq<Text>, added: array<nat>, spaces: nat)
    returns (r: Result<nat, IndexError>, ghost punct: seq<nat>)
    requires |words| == added.Length + 1 > 1
    modifies added
    ensures |punct| == added.Length
    ensures r.Ok? ==> SignsFirst(words, punct, 3, r.value) && r.value + Total(punct) == spaces
    ensures r.Ok? ==> added[..] == Plus(old(added[..]), punct)
    ensures r.Err? ==> exists k :: 0 <= k < added.Length && words[k] == []
    ensures words[0] == [] ==> (r.Err? <==> spaces > 0)
  {
    hide Total, SignsFirst, OnePass, Rank;
    ghost var before := added[..];
    var left: nat := spaces;
    punct := Uniform(added.Length, 0);
    TotalUniform(added.Length, 0);
    NothingGiven(words, left);
    assert added[..] == Plus(before, punct);
    var rank := 0;
    while rank < 3
      invariant 0 <= rank <= 3 && |punct| == added.Length && left <= spaces
      invariant added[..] == Plus(before, punct)
      invariant SignsFirst(words, punct, rank, left) && left + Total(punct) == spaces
      invariant words[0] == [] ==> left == spaces && (rank > 0 ==> spaces == 0)
    {
      var pass, got := AddAfterSigns(words, added, rank, left);
      if pass.Err? {
        return Err(EmptyWord), punct;
      }
      NextRank(words, punct, got, rank, left, pass.value);
      TotalPlus(punct, got);
      assert Plus(Plus(before, punct), got) == Plus(before, Plus(punct, got));
      punct := Plus(punct, got);
      left := pass.value;
      rank := rank + 1;
    }
    r := Ok(left);
  }

  /** The gaps of a line that is worth justifying. */
  method FillGaps(words: seq<Text>, numSpaces: nat) returns (r: Result<seq<nat>, IndexError>, ghost gaps: seq<nat>)
    requires |words| > 1
    ensures r.Ok? ==> r.value == gaps && |gaps| == |words| - 1 && Justified(words, gaps, numSpaces)
    ensures r.Err? ==> exists k :: 0 <= k < |words| - 1 && words[k] == []
    ensures words[0] == [] ==> (r.Err? <==> numSpaces % (|words| - 1) != 0)
  {
    hide Total, SharedOut, SignsFirst, SpreadUpTo, Rank, Justified;
    gaps := [];
    var n := |words| - 1;
    var base := numSpaces / n;
    var added := new nat[n](_ => base);
    assert added[..] == Uniform(n, base);
    var left: nat := numSpaces - base * n;
    var rest, punct := AddAfterAllSigns(words, added, left);
    if rest.Err? {
      return Err(EmptyWord), gaps;
    }
    FewerThanGaps(numSpaces, n);
    var even := SpreadEvenly(added, rest.value);
    gaps := added[..];
    ShareIsJustified(words, numSpaces, base, punct, even);
    r := Ok(added[..]);
  }

  lemma FewerThanGaps(x: nat, n: nat)
    requires n > 0
    ensures x - x / n * n == x % n < n
  {
  }

  lemma OneWord(words: seq<Text>)
    requires |words| == 1
    ensures Lay(words, Spaces([])) == words[0]
  {
  }

  /** The words of a line with the available spaces between them. */
  method Justify(words: seq<Text>, numSpaces: int) returns (r: Result<Text, IndexError>, ghost gaps: seq<nat>)
    requires |words| > 1 ==> numSpaces >= 0
    ensures words == [] ==> r == Ok([])
    ensures |words| == 1 ==> r == Ok(words[0])
    ensures words != [] && r.Ok? ==> |gaps| == |words| - 1 && r.value == Lay(words, Spaces(gaps))
    ensures |words| > 1 && r.Ok? ==>
              if Sparse(words, numSpaces) then SingleSpaces(gaps) else Justified(words, gaps, numSpaces)
    ensures r.Err? ==> exists k :: 0 <= k < |words| - 1 && words[k] == []
    ensures |words| > 1 && words[0] == [] ==>
              (r.Err? <==> !Sparse(words, numSpaces) && numSpaces % (|words| - 1) != 0)
  {
    hide Lay, Justified;
    gaps := [];
    if words == [] {
      // no interval to fill: the branches all give the empty text
      return Ok([]), gaps;
    }
    var n := |words| - 1;
    if n == 0 {
      OneWord(words);
      return Ok(words[0]), gaps;
    }
    if numSpaces / n > 4 {
      gaps := Uniform(n, 1);
      return Ok(Lay(words, Spaces(Uniform(n, 1)))), gaps;
    }
    var fill;
    fill, gaps := FillGaps(words, numSpaces);
    if fill.Err? {
      return Err(EmptyWord), gaps;
    }
    r := Ok(Lay(words, Spaces(fill.value)));
  }

  lemma NothingGiven(words: seq<Text>, left: nat)
    requires words != []
    ensures SignsFirst(words, Uniform(|words| - 1, 0), 0, left)
  {
  }

  // ---------- the paragraph ----------

  datatype Line = Line(words: seq<Text>, gaps: seq<nat>)

  ghost predicate Shaped(line: Line) {
    |line.words| == |line.gaps| + 1
  }

  ghost function LineText(line: Line): Text
    requires Shaped(line)
  {
    Lay(line.words, Spaces(line.gaps))
  }

  /** The width of words with single spaces between them. */
  function MinWidth(words: seq<Text>): nat {
    if words == [] then 0 else Widths(words) + |words| - 1
  }

  lemma MinWidthIsVisible(words: seq<Text>)
    requires words != []
    ensures MinWidth(words) == Visible(Lay(words, Spaces(Uniform(|words| - 1, 1))))
  {
    hide Lay, Visible, Total, Spaces, Widths;
    VisibleLine(words, Uniform(|words| - 1, 1));
    TotalUniform(|words| - 1, 1);
  }

  /** A line other than the last: of the exact width, unless it has one word or is too sparse. */
  ghost predicate Full(line: Line, width: int) {
    && Shaped(line)
    && (|line.words| > 1 ==>
          && MinWidth(line.words) <= width
          && if Sparse(line.words, width - Widths(line.words)) then SingleSpaces(line.gaps)
             else Visible(LineText(line)) == width && Justified(line.words, line.gaps, width - Widths(line.words)))
  }

  /** The next word does not fit. */
  predicate TooWide(words: seq<Text>, next: Text, width: int) {
    MinWidth(words + [next]) > width
  }

  ghost predicate AllFull(lines: seq<Line>, width: int) {
    forall i :: 0 <= i < |lines| ==> Full(lines[i], width)
  }

  /** Each line holds as many words as fit. */
  ghost predicate Greedy(lines: seq<Line>, width: int) {
    forall i, j :: 0 <= i && j == i + 1 < |lines| && lines[j].words != [] ==>
      TooWide(lines[i].words, lines[j].words[0], width)
  }

  ghost function AllWords(lines: seq<Line>): seq<Text> {
    if lines == [] then [] else AllWords(lines[..|lines| - 1]) + lines[|lines| - 1].words
  }

  /** A first word that is too wide leaves an empty line, hence an empty word, before it. */
  function Lead(words: seq<Text>, width: int): seq<Text> {
    if words != [] && Visible(words[0]) > width then [[]] else []
  }

  /** How many words the first line takes, if k of them fit. */
  function FirstLine(words: seq<Text>, width: int, k: nat): (n: nat)
    requires k <= |words|
    ensures k <= n <= |words|
    decreases |words| - k
  {
    if k == |words| || MinWidth(words[..k + 1]) > width then k else FirstLine(words, width, k + 1)
  }

  /** A blank at the start of the text makes an empty word, on which the program fails if it looks for signs after
      it: when the first line has to be justified and the division leaves spaces over. */
  predicate BlankStartFails(words: seq<Text>, width: int)
    requires |words| >= 1
  {
    var n := FirstLine(words, width, 1);
    var spaces := width - Widths(words[..n]);
    words[0] == [] && 1 < n < |words| && !Sparse(words[..n], spaces) && spaces % (n - 1) != 0
  }

  /** Words before position s are on finished lines, words s to k on the current one. */
  ghost predicate Filling(words: seq<Text>, width: int, lines: seq<Line>, s: nat, k: nat) {
    && s < k <= |words|
    && AllWords(lines) == Lead(words, width) + words[..s]
    && AllFull(lines, width) && Greedy(lines, width)
    && (k - s > 1 ==> MinWidth(words[s..k]) <= width)
    && (lines != [] ==> TooWide(lines[|lines| - 1].words, words[s], width))
    && (if s == 0 then FirstLine(words, width, 1) == FirstLine(words, width, k) else !BlankStartFails(words, width))
  }

  lemma {:induction false} WidthsConcat(a: seq<Text>, b: seq<Text>)
    ensures Widths(a + b) == Widths(a) + Widths(b)
  {
    if a == [] {
      assert a + b == b;
    } else {
      assert (a + b)[1..] == a[1..] + b;
      WidthsConcat(a[1..], b);
    }
  }

  lemma FirstWord(words: seq<Text>, width: int)
    requires |words| >= 1
    ensures TooWide([], words[0], width) <==> Lead(words, width) != []
    ensures Lead(words, width) == [] ==> Filling(words, width, [], 0, 1)
    ensures Lead(words, width) != [] ==> Filling(words, width, [Line([[]], [])], 0, 1)
  {
    assert [] + [words[0]] == [words[0]] && [words[0]][1..] == [];
    assert Widths([words[0]]) == Visible(words[0]) + Widths([]);
    if Lead(words, width) != [] {
      var lines := [Line([[]], [])];
      assert AllWords(lines[..0]) == [];
      assert [[]] + [words[0]] == [[], words[0]];
      assert [[], words[0]][1..] == [words[0]];
      assert Widths([[], words[0]]) == Visible([]) + Widths([words[0]]);
      assert MinWidth([[]] + [words[0]]) == Visible(words[0]) + 1;
    }
  }

  lemma AddWord(words: seq<Text>, width: int, lines: seq<Line>, s: nat, k: nat)
    requires Filling(words, width, lines, s, k) && k < |words|
    requires !TooWide(words[s..k], words[k], width)
    ensures Filling(words, width, lines, s, k + 1)
  {
    hide AllFull, Greedy, Lead, BlankStartFails, MinWidth;
    assert words[s..k] + [words[k]] == words[s..k + 1];
  }

  lemma GreedyOneMore(lines: seq<Line>, line: Line, width: int)
    requires Greedy(lines, width) && line.words != []
    requires lines != [] ==> TooWide(lines[|lines| - 1].words, line.words[0], width)
    ensures Greedy(lines + [line], width)
  {
    hide TooWide;
    var lines' := lines + [line];
    forall i, j | 0 <= i && j == i + 1 < |lines'| && lines'[j].words != []
      ensures TooWide(lines'[i].words, lines'[j].words[0], width)
    {
      if j < |lines| {
        assert lines'[j] == lines[j] && lines'[i] == lines[i];
      }
    }
  }

  /** The current line is finished. */
  lemma CloseLine(words: seq<Text>, width: int, lines: seq<Line>, s: nat, k: nat, line: Line)
    requires Filling(words, width, lines, s, k) && k < |words|
    requires TooWide(words[s..k], words[k], width)
    requires line.words == words[s..k] && Full(line, width)
    requires s == 0 ==> !BlankStartFails(words, width)
    ensures Filling(words, width, lines + [line], k, k + 1)
  {
    hide Lead, BlankStartFails, MinWidth, Full, FirstLine;
    var lines' := lines + [line];
    assert lines'[..|lines|] == lines;
    assert words[..s] + words[s..k] == words[..k];
    assert Lead(words, width) + words[..s] + words[s..k] == Lead(words, width) + words[..k];
    GreedyOneMore(lines, line, width);
  }

  // ---------- nothing is lost ----------

  /** The lines one below the other. */
  function Join(texts: seq<Text>): Text {
    if texts == [] then []
    else if |texts| == 1 then texts[0]
    else Join(texts[..|texts| - 1]) + [NEWLINE] + texts[|texts| - 1]
  }

  ghost predicate AllShaped(lines: seq<Line>) {
    forall i :: 0 <= i < |lines| ==> Shaped(lines[i])
  }

  ghost function Texts(lines: seq<Line>): (texts: seq<Text>)
    requires AllShaped(lines)
    ensures |texts| == |lines|
  {
    seq(|lines|, i requires 0 <= i < |lines| => LineText(lines[i]))
  }

  ghost function Seps(lines: seq<Line>): seq<Text> {
    if lines == [] then []
    else if |lines| == 1 then Spaces(lines[0].gaps)
    else Seps(lines[..|lines| - 1]) + [[NEWLINE]] + Spaces(lines[|lines| - 1].gaps)
  }

  ghost predicate SpacedOut(line: Line) {
    Shaped(line) && forall k :: 0 <= k < |line.gaps| ==> line.gaps[k] >= 1
  }

  /** At least one space in every gap. */
  ghost predicate AllSpacedOut(lines: seq<Line>) {
    forall i :: 0 <= i < |lines| ==> SpacedOut(lines[i])
  }

  lemma SpacedOutIsShaped(lines: seq<Line>)
    requires AllSpacedOut(lines)
    ensures AllShaped(lines)
  {
  }

  lemma SpacesSeparate(gaps: seq<nat>)
    requires forall k :: 0 <= k < |gaps| ==> gaps[k] >= 1
    ensures Separators(Spaces(gaps))
  {
  }

  lemma SeparatorsConcat(a: seq<Text>, b: seq<Text>)
    requires Separators(a) && Separators(b)
    ensures Separators(a + [[NEWLINE]] + b)
  {
  }

  /** The joined lines are all the words with blanks between them. */
  lemma {:induction false} JoinIsLay(lines: seq<Line>)
    requires lines != [] && AllSpacedOut(lines)
    ensures AllShaped(lines)
    ensures |AllWords(lines)| == |Seps(lines)| + 1 && Separators(Seps(lines))
    ensures Join(Texts(lines)) == Lay(AllWords(lines), Seps(lines))
  {
    var n := |lines| - 1;
    SpacedOutIsShaped(lines);
    assert SpacedOut(lines[n]);
    SpacesSeparate(lines[n].gaps);
    if n == 0 {
      assert AllWords(lines[..0]) == [];
      assert AllWords(lines) == lines[0].words;
    } else {
      JoinIsLay(lines[..n]);
      assert Texts(lines)[..n] == Texts(lines[..n]);
      hide AllSpacedOut, AllShaped, Separators;
      SeparatorsConcat(Seps(lines[..n]), Spaces(lines[n].gaps));
      LayConcat(AllWords(lines[..n]), Seps(lines[..n]), [NEWLINE], lines[n].words, Spaces(lines[n].gaps));
    }
  }

  lemma FullIsSpacedOut(line: Line, width: int)
    requires Full(line, width)
    ensures SpacedOut(line)
  {
    if |line.words| > 1 {
      var spaces := width - Widths(line.words);
      if !Sparse(line.words, spaces) {
        QuotientAtLeast(spaces, 1, |line.gaps|);
      }
    }
  }

  /** The last line: the words that are left, one space apart, and they fit. */
  ghost predicate LastLine(line: Line, width: int) {
    Shaped(line) && SingleSpaces(line.gaps) && (|line.words| > 1 ==> MinWidth(line.words) <= width)
  }

  /** What the lines of a wrapped paragraph are. */
  ghost predicate Wrapped(lines: seq<Line>, width: int) {
    && lines != []
    && AllFull(lines[..|lines| - 1], width) && LastLine(lines[|lines| - 1], width)
    && Greedy(lines, width)
  }

  lemma WrappedIsSpacedOut(lines: seq<Line>, width: int)
    requires Wrapped(lines, width)
    ensures AllSpacedOut(lines)
  {
    hide Greedy;
    forall i | 0 <= i < |lines|
      ensures SpacedOut(lines[i])
    {
      if i < |lines| - 1 {
        assert lines[i] == lines[..|lines| - 1][i];
        FullIsSpacedOut(lines[i], width);
      }
    }
  }

  lemma LeadIsWord(words: seq<Text>, width: int)
    requires SplitWords(words) && (words[0] != [] || |words| == 1)
    ensures SplitWords(Lead(words, width) + words)
  {
  }

  lemma LayFirst(words: seq<Text>, seps: seq<Text>, rest: seq<Text>, tail: seq<Text>)
    requires |words| == |seps| + 1 && seps != [] && rest == words[1..] && tail == seps[1..]
    ensures Lay(words, seps) == words[0] + seps[0] + Lay(rest, tail)
  {
  }

  // an empty word before an empty first word cannot be told from a longer blank
  lemma EmptyLeadLay(words: seq<Text>, seps: seq<Text>)
    requires |words| > 1 && words[0] == [] && |seps| == |words|
    ensures Lay([[]] + words, seps) == Lay(words, [seps[0] + seps[1]] + seps[2..])
  {
    hide Lay;
    var both, rest, tail := seps[0] + seps[1], words[1..], seps[2..];
    LayFirst([[]] + words, seps, words, seps[1..]);
    LayFirst(words, seps[1..], rest, tail);
    LayFirst(words, [both] + tail, rest, tail);
    var t := Lay(rest, tail);
    assert [] + seps[0] + ([] + seps[1] + t) == [] + both + t;
  }

  lemma EmptyLead(words: seq<Text>, seps: seq<Text>)
    requires SplitWords(words) && |words| > 1 && words[0] == []
    requires |seps| == |words| && Separators(seps)
    ensures Split(Lay([[]] + words, seps)) == words
  {
    hide Lay, Split, SplitWords;
    EmptyLeadLay(words, seps);
    MergedSeparate(seps);
    hide Separators;
    SplitLay(words, [seps[0] + seps[1]] + seps[2..]);
  }

  lemma MergedSeparate(seps: seq<Text>)
    requires |seps| >= 2 && Separators(seps)
    ensures Separators([seps[0] + seps[1]] + seps[2..])
  {
  }

  /** Wrapping changes no word and no order: split again, the wrapped text gives the words of the text. The empty
      line before a first word that is too wide counts as an empty word, unless the text starts with a blank. */
  lemma WrappingKeepsWords(words: seq<Text>, width: int, lines: seq<Line>)
    requires SplitWords(words) && Wrapped(lines, width) && AllWords(lines) == Lead(words, width) + words
    ensures AllShaped(lines)
    ensures Split(Join(Texts(lines))) == if words[0] == [] && |words| > 1 then words else Lead(words, width) + words
  {
    hide Split;
    WrappedIsSpacedOut(lines, width);
    assert lines != [];
    hide Wrapped, AllSpacedOut, AllShaped;
    JoinIsLay(lines);
    hide Lay;
    if words[0] == [] && |words| > 1 {
      if Lead(words, width) == [] {
        assert AllWords(lines) == words;
        SplitLay(words, Seps(lines));
      } else {
        EmptyLead(words, Seps(lines));
      }
    } else {
      LeadIsWord(words, width);
      hide Lead, SplitWords;
      SplitLay(AllWords(lines), Seps(lines));
    }
  }

  function Unbreak(t: Text): (u: Text)
    ensures |u| == |t|
    ensures forall k :: 0 <= k < |t| ==> if t[k] == UNBREAKABLE then u[k] == SPACE else u[k] == t[k]
  {
    seq(|t|, k requires 0 <= k < |t| => if t[k] == UNBREAKABLE then SPACE else t[k])
  }

  /** Non-breaking spaces take the same room as spaces. */
  lemma {:induction false} UnbreakKeepsWidth(t: Text)
    ensures Visible(Unbreak(t)) == Visible(t)
  {
    if t != [] {
      assert Unbreak(t)[1..] == Unbreak(t[1..]);
      UnbreakKeepsWidth(t[1..]);
    }
  }

  // ---------- what is printed line by line ----------

  /** The lines of a text as they are printed. */
  function Printed(t: Text): (lines: seq<Text>)
    ensures |lines| >= 1
  {
    if t == [] then [[]]
    else
      var rest := Printed(t[1..]);
      if t[0] == NEWLINE then [[]] + rest else [[t[0]] + rest[0]] + rest[1..]
  }

  function UnbreakAll(texts: seq<Text>): (us: seq<Text>)
    ensures |us| == |texts|
  {
    seq(|texts|, i requires 0 <= i < |texts| => Unbreak(texts[i]))
  }

  lemma {:induction false} PrintedUnbroken(t: Text)
    ensures Printed(Unbreak(t)) == UnbreakAll(Printed(t))
  {
    if t == [] {
      assert Unbreak([]) == [];
    } else {
      assert Unbreak(t)[1..] == Unbreak(t[1..]);
      PrintedUnbroken(t[1..]);
      var rest := Printed(t[1..]);
      if t[0] == NEWLINE {
        assert Unbreak([]) == [];
      } else {
        assert Unbreak([t[0]] + rest[0]) == [Unbreak(t)[0]] + Unbreak(rest[0]);
      }
    }
  }

  lemma {:induction false} PrintedConcat(a: Text, b: Text)
    requires NEWLINE !in b
    ensures Printed(a + [NEWLINE] + b) == Printed(a) + [b]
  {
    var t := a + [NEWLINE] + b;
    if a == [] {
      assert t[1..] == b;
      PrintedAlone(b);
    } else {
      assert t[1..] == a[1..] + [NEWLINE] + b;
      PrintedConcat(a[1..], b);
    }
  }

  lemma {:induction false} PrintedAlone(t: Text)
    requires NEWLINE !in t
    ensures Printed(t) == [t]
  {
    if t != [] {
      PrintedAlone(t[1..]);
      assert [t[0]] + t[1..] == t;
    }
  }

  lemma {:induction false} PrintedJoin(texts: seq<Text>)
    requires texts != [] && forall i :: 0 <= i < |texts| ==> NEWLINE !in texts[i]
    ensures Printed(Join(texts)) == texts
  {
    var n := |texts| - 1;
    if n == 0 {
      PrintedAlone(texts[0]);
    } else {
      PrintedJoin(texts[..n]);
      PrintedConcat(Join(texts[..n]), texts[n]);
      assert texts[..n] + [texts[n]] == texts;
    }
  }

  lemma {:induction false} NoNewlineInLine(words: seq<Text>, gaps: seq<nat>)
    requires |words| == |gaps| + 1 && forall k :: 0 <= k < |words| ==> Solid(words[k])
    ensures NEWLINE !in Lay(words, Spaces(gaps))
  {
    if gaps != [] {
      assert Spaces(gaps)[1..] == Spaces(gaps[1..]);
      NoNewlineInLine(words[1..], gaps[1..]);
    }
  }

  lemma {:induction false} WordsOfLine(lines: seq<Line>, i: nat)
    requires i < |lines|
    ensures forall k :: 0 <= k < |lines[i].words| ==> lines[i].words[k] in AllWords(lines)
  {
    if i < |lines| - 1 {
      WordsOfLine(lines[..|lines| - 1], i);
    }
  }

  /** The lines of the result, as printed, are the lines that were laid out. */
  lemma WrappedLinesArePrinted(words: seq<Text>, width: int, lines: seq<Line>)
    requires SplitWords(words) && lines != [] && AllShaped(lines) && AllWords(lines) == Lead(words, width) + words
    ensures Printed(Unbreak(Join(Texts(lines)))) == UnbreakAll(Texts(lines))
  {
    forall i | 0 <= i < |lines|
      ensures NEWLINE !in Texts(lines)[i]
    {
      WordsOfLine(lines, i);
      assert Solid([]);
      assert forall w :: w in AllWords(lines) ==> Solid(w);
      NoNewlineInLine(lines[i].words, lines[i].gaps);
    }
    hide AllWords, Printed, Join;
    PrintedJoin(Texts(lines));
    PrintedUnbroken(Join(Texts(lines)));
  }

  /** The line made by Justify is a full line. */
  lemma JustifiedIsFull(words: seq<Text>, gaps: seq<nat>, width: int)
    requires |words| == |gaps| + 1 && (|words| > 1 ==> MinWidth(words) <= width)
    requires |words| > 1 ==>
               var spaces := width - Widths(words);
               if Sparse(words, spaces) then SingleSpaces(gaps) else Justified(words, gaps, spaces)
    ensures Full(Line(words, gaps), width)
  {
    hide Lay, Total, SharedOut, MinWidth, Visible, Widths, Spaces;
    VisibleLine(words, gaps);
    if |words| > 1 && !Sparse(words, width - Widths(words)) {
      assert Total(gaps) == width - Widths(words);
    }
  }

  lemma LastIsWrapped(words: seq<Text>, width: int, lines: seq<Line>, s: nat)
    requires Filling(words, width, lines, s, |words|)
    ensures var all := lines + [Line(words[s..], Uniform(|words| - s - 1, 1))];
            Wrapped(all, width) && AllWords(all) == Lead(words, width) + words
  {
    hide Lead, BlankStartFails, MinWidth, FirstLine, Full, TooWide, Visible, Lay, Sparse, Justified, AllFull, Greedy;
    var last := Line(words[s..], Uniform(|words| - s - 1, 1));
    var all := lines + [last];
    assert words[s..|words|] == words[s..];
    assert LastLine(last, width);
    assert all[..|lines|] == lines;
    GreedyOneMore(lines, last, width);
    calc {
      AllWords(all);
      AllWords(lines) + words[s..];
      Lead(words, width) + words[..s] + words[s..];
      { assert words[..s] + words[s..] == words; }
      Lead(words, width) + words;
    }
  }

  /** No failure once all the words are on lines. */
  lemma NoFailure(words: seq<Text>, width: int, lines: seq<Line>, s: nat)
    requires Filling(words, width, lines, s, |words|)
    ensures !BlankStartFails(words, width)
  {
  }

  /** Only a blank at the start of the text can stop a line from being justified. */
  lemma FirstLineFails(words: seq<Text>, width: int, lines: seq<Line>, s: nat, k: nat, failed: bool)
    requires SplitWords(words) && Filling(words, width, lines, s, k) && k < |words|
    requires TooWide(words[s..k], words[k], width)
    requires failed ==> exists j :: 0 <= j < k - s - 1 && words[s..k][j] == []
    requires k - s > 1 && words[s] == [] ==>
               var spaces := width - Widths(words[s..k]);
               (failed <==> !Sparse(words[s..k], spaces) && spaces % (k - s - 1) != 0)
    ensures failed ==> s == 0
    ensures s == 0 ==> (failed <==> BlankStartFails(words, width))
  {
    hide MinWidth, AllFull, Greedy, Sparse;
    assert words[s..k] + [words[k]] == words[s..k + 1];
    if failed {
      var j :| 0 <= j < k - s - 1 && words[s..k][j] == [];
      assert words[s + j] == [];
    }
    if s == 0 {
      assert words[0..k] == words[..k] && words[0..k + 1] == words[..k + 1];
      assert FirstLine(words, width, k) == k;
    }
  }

  ghost predicate Rendered(lines: seq<Line>, texts: seq<Text>) {
    AllShaped(lines) && texts == Texts(lines)
  }

  lemma RenderOne(lines: seq<Line>, texts: seq<Text>, line: Line, text: Text)
    requires Rendered(lines, texts) && Shaped(line) && text == LineText(line)
    ensures Rendered(lines + [line], texts + [text])
  {
    hide LineText, Shaped;
    var lines' := lines + [line];
    assert forall i :: 0 <= i < |lines| ==> lines'[i] == lines[i];
  }

  lemma SpacesForWords(words: seq<Text>, width: int)
    requires |words| > 1 && MinWidth(words) <= width
    ensures width - Widths(words) >= 0
  {
  }

  /** The current line is full: the words it holds are justified. */
  method FinishLine(ghost words: seq<Text>, width: int, ghost lines: seq<Line>, ghost s: nat, ghost k: nat,
                    currWords: seq<Text>)
    returns (r: Result<Text, IndexError>, ghost line: Line)
    requires SplitWords(words) && Filling(words, width, lines, s, k) && k < |words| && currWords == words[s..k]
    requires TooWide(currWords, words[k], width)
    ensures r.Err? ==> BlankStartFails(words, width)
    ensures r.Ok? ==> Shaped(line) && r.value == LineText(line) && Filling(words, width, lines + [line], k, k + 1)
  {
    hide SplitWords, AllFull, Greedy, Lead, BlankStartFails, TooWide, AllWords, FirstLine, Sparse, Justified, Lay;
    if |currWords| > 1 {
      SpacesForWords(currWords, width);
    }
    hide MinWidth, Widths;
    ghost var gaps;
    r, gaps := Justify(currWords, width - Widths(currWords));
    line := Line(currWords, gaps);
    FirstLineFails(words, width, lines, s, k, r.Err?);
    if r.Ok? {
      JustifiedIsFull(currWords, gaps, width);
      hide Full;
      CloseLine(words, width, lines, s, k, line);
    }
  }

  /** Fails exactly on a blank start in an awkward place; otherwise the text is wrapped, with the same words. */
  method WrapEscaped(text: Text, width: int) returns (r: Result<Text, IndexError>, ghost lines: seq<Line>)
    ensures r.Err? <==> BlankStartFails(Split(text), width)
    ensures r.Ok? ==> Wrapped(lines, width) && AllWords(lines) == Lead(Split(text), width) + Split(text)
    ensures r.Ok? ==> AllShaped(lines) && r.value == Unbreak(Join(Texts(lines)))
    ensures r.Ok? ==> Printed(r.value) == UnbreakAll(Texts(lines))
  {
    hide Filling, Lead, Wrapped, AllWords, BlankStartFails, AllShaped, Texts, SplitWords, MinWidth, Lay, Printed;
    hide UnbreakAll;
    var words := Split(text);
    SplitGivesWords(text);
    hide Split;
    var wrappedLines: seq<Text> := [];
    var currWords: seq<Text> := [];
    lines := [];
    FirstWord(words, width);
    ghost var s := 0;
    var k := 0;
    NothingRendered();
    while k < |words|
      invariant 0 <= k <= |words| && Rendered(lines, wrappedLines)
      invariant k == 0 ==> lines == [] && currWords == [] && s == 0
      invariant k > 0 ==> Filling(words, width, lines, s, k) && s < k && currWords == words[s..k]
    {
      if MinWidth(currWords + [words[k]]) > width {
        var line;
        ghost var finished;
        if k == 0 {
          // nothing to justify: an empty line
          ghost var gaps;
          line, gaps := Justify(currWords, width - Widths(currWords));
          finished := Line([[]], []);
          OneWord([[]]);
        } else {
          line, finished := FinishLine(words, width, lines, s, k, currWords);
        }
        if line.Err? {
          return Err(EmptyWord), lines;
        }
        RenderOne(lines, wrappedLines, finished, line.value);
        assert lines == [] ==> lines + [finished] == [finished];
        wrappedLines, lines := wrappedLines + [line.value], lines + [finished];
        currWords := [words[k]];
        s := k;
        assert currWords == words[s..k + 1];
      } else {
        if k > 0 {
          AddWord(words, width, lines, s, k);
        }
        assert words[s..k] + [words[k]] == words[s..k + 1];
        currWords := currWords + [words[k]];
      }
      k := k + 1;
    }
    LastIsWrapped(words, width, lines, s);
    NoFailure(words, width, lines, s);
    assert words[s..|words|] == words[s..];
    ghost var last := Line(currWords, Uniform(|currWords| - 1, 1));
    var text' := Lay(currWords, Spaces(Uniform(|currWords| - 1, 1)));
    RenderOne(lines, wrappedLines, last, text');
    lines := lines + [last];
    WrappedLinesArePrinted(words, width, lines);
    r := Ok(Unbreak(Join(wrappedLines + [text'])));
  }

  lemma NothingRendered()
    ensures Rendered([], [])
  {
  }

  /** For instance " a b cccc" in 5 columns: "a" and "b" leave 3 spaces for the 2 gaps of the first line, so that one
      space is over, and the program looks for a sign at the end of the empty word before the first blank. */
  lemma BlankStartCanFail()
    ensures var text := [SPACE, Glyph('a'), SPACE, Glyph('b'), SPACE, Glyph('c'), Glyph('c'), Glyph('c'), Glyph('c')];
            BlankStartFails(Split(text), 5)
  {
    var a, b, c := [Glyph('a')], [Glyph('b')], [Glyph('c'), Glyph('c'), Glyph('c'), Glyph('c')];
    var words := [[], a, b, c];
    var seps := [[SPACE], [SPACE], [SPACE]];
    assert seps[1..][1..] == [[SPACE]] && words[1..][1..] == [b, c] && [b, c][1..] == [c];
    assert Lay([c], []) == c;
    assert Lay([b, c], [[SPACE]]) == b + [SPACE] + c;
    assert Lay(words[1..], seps[1..]) == a + [SPACE] + (b + [SPACE] + c);
    assert Lay(words, seps) == [] + [SPACE] + (a + [SPACE] + (b + [SPACE] + c));
    assert Lay(words, seps)
        == [SPACE, Glyph('a'), SPACE, Glyph('b'), SPACE, Glyph('c'), Glyph('c'), Glyph('c'), Glyph('c')];
    SplitLay(words, seps);
    hide Split, Lay;
    ShortWords(a, b, c);
  }

  lemma ShortWords(a: Text, b: Text, c: Text)
    requires Visible(a) == Visible(b) == 1 && Visible(c) == 4
    ensures BlankStartFails([[], a, b, c], 5)
  {
    hide Widths, Visible;
    ShortWidths(a, b, c);
    var words := [[], a, b, c];
    assert words[..2] == [[], a] && words[..3] == [[], a, b] && words[..4] == [[], a, b, c];
    assert FirstLine(words, 5, 3) == 3;
    assert FirstLine(words, 5, 2) == 3;
    assert FirstLine(words, 5, 1) == 3;
  }

  lemma ShortWidths(a: Text, b: Text, c: Text)
    requires Visible(a) == Visible(b) == 1 && Visible(c) == 4
    ensures Widths([[], a]) == 1 && Widths([[], a, b]) == 2 && Widths([[], a, b, c]) == 6
  {
    WidthsOfTwo([], a);
    WidthsOfTwo(b, c);
    WidthsConcat([[], a], [b]);
    WidthsConcat([[], a], [b, c]);
    assert [[], a] + [b] == [[], a, b] && [[], a] + [b, c] == [[], a, b, c];
    assert [b][1..] == [];
  }

  lemma WidthsOfTwo(a: Text, b: Text)
    ensures Widths([a, b]) == Visible(a) + Visible(b)
  {
    assert [a, b][1..] == [b] && [b][1..] == [];
    assert Widths([b]) == Visible(b) + Widths([]);
  }
}
