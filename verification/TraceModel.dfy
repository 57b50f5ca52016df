/**
 What a block of recorded instructions means: the stack of file ids, the source locations
 it goes through and the timestamps given to them (trackexec/fast.py, fast_analyse_block).
 */
module TraceModel {
  import opened Arithmetic
  import opened TraceFormat

  // one entry of the call stack saved at the start of a block
  datatype Frame = Frame(fileId: Word, lineno: Word)

  // a source location reached by the traced program
  datatype Point = Point(fileId: Word, lineno: Word, depth: nat)

  datatype Block = Block(snapshot: seq<Frame>, code: seq<Instr>, timestamp: nat, minStack: nat)

  /** The decoder between two instructions; `times` lags behind `points` until the next timestamp. */
  datatype Decoded = Decoded(files: seq<Word>, lastTs: nat, points: seq<Point>, times: seq<int>)

  function FileIds(frames: seq<Frame>): (ids: seq<Word>)
    ensures |ids| == |frames|
    ensures forall k :: 0 <= k < |frames| ==> ids[k] == frames[k].fileId
  {
    seq(|frames|, k requires 0 <= k < |frames| => frames[k].fileId)
  }

  /** n timestamps spread evenly over [a, b), rounded down. */
  function Interpolate(a: int, b: int, n: nat): (ts: seq<int>)
    ensures |ts| == n
  {
    seq(n, k requires 0 <= k < n => InterpolatedAt(a, b, n, k))
  }

  function InterpolatedAt(a: int, b: int, n: nat, k: nat): int
    requires k < n
  {
    a + k * (b - a) / n
  }

  function Begin(b: Block): Decoded {
    Decoded(FileIds(b.snapshot), b.timestamp, [], [])
  }

  function StampTimes(d: Decoded, ts: int): seq<int> {
    if |d.times| < |d.points| then d.times + Interpolate(d.lastTs, ts, |d.points| - |d.times|) else d.times
  }

  function Step(d: Decoded, i: Instr): Decoded {
    match i
    case Call(f) => d.(files := d.files + [f])
    case Ret => if d.files == [] then d else d.(files := d.files[..|d.files| - 1])
    case Stamp(o) => d.(lastTs := d.lastTs + o, times := StampTimes(d, d.lastTs + o))
    case Line(n) =>
      if d.files == [] then d
      else d.(points := d.points + [Point(d.files[|d.files| - 1], n, |d.files|)])
  }

  function Run(d: Decoded, code: seq<Instr>): Decoded {
    if code == [] then d else Step(Run(d, code[..|code| - 1]), code[|code| - 1])
  }

  function RunBlock(b: Block): Decoded {
    Run(Begin(b), b.code)
  }

  /** No instruction returns from, or runs a line in, an empty stack. */
  predicate NoUnderflow(d: Decoded, code: seq<Instr>) {
    code == [] ||
    var init, i := code[..|code| - 1], code[|code| - 1];
    NoUnderflow(d, init) && (i.Ret? || i.Line? ==> Run(d, init).files != [])
  }

  /** The times of all locations of a block that ends at `end`; 0 stands for a yet unknown end. */
  function BlockTimes(b: Block, end: nat): seq<int> {
    var d := RunBlock(b);
    StampTimes(d, if end == 0 then d.lastTs else end)
  }

  /** Lowest stack depth the decoder goes through. */
  function LowestDepth(d: Decoded, code: seq<Instr>): nat {
    if code == [] then |d.files|
    else
      var low, here := LowestDepth(d, code[..|code| - 1]), |Run(d, code).files|;
      if here < low then here else low
  }

  lemma RunAppend(d: Decoded, code: seq<Instr>, i: Instr)
    ensures Run(d, code + [i]) == Step(Run(d, code), i)
    ensures NoUnderflow(d, code + [i]) <==>
            NoUnderflow(d, code) && (i.Ret? || i.Line? ==> Run(d, code).files != [])
    ensures var low, here := LowestDepth(d, code), |Run(d, code + [i]).files|;
            LowestDepth(d, code + [i]) == if here < low then here else low
  {
    assert (code + [i])[..|code|] == code;
  }

  lemma {:induction false} LowestDepthIsBound(d: Decoded, code: seq<Instr>, k: nat)
    requires k <= |code|
    ensures LowestDepth(d, code) <= |Run(d, code[..k]).files|
  {
    if k == |code| {
      assert code[..k] == code;
    } else {
      var init := code[..|code| - 1];
      LowestDepthIsBound(d, init, k);
      assert init[..k] == code[..k];
    }
  }

  lemma {:induction false} LowestDepthIsReached(d: Decoded, code: seq<Instr>) returns (k: nat)
    ensures k <= |code| && LowestDepth(d, code) == |Run(d, code[..k]).files|
  {
    k := |code|;
    assert code[..k] == code;
    if code != [] && LowestDepth(d, code) < |Run(d, code).files| {
      var init := code[..|code| - 1];
      k := LowestDepthIsReached(d, init);
      assert init[..k] == code[..k];
    }
  }

  /** The lowest depth is a bound on every prefix, reached by one of them. */
  lemma LowestDepthIsMinimum(d: Decoded, code: seq<Instr>)
    ensures forall k :: 0 <= k <= |code| ==> LowestDepth(d, code) <= |Run(d, code[..k]).files|
    ensures exists k :: 0 <= k <= |code| && LowestDepth(d, code) == |Run(d, code[..k]).files|
  {
    forall k | 0 <= k <= |code|
      ensures LowestDepth(d, code) <= |Run(d, code[..k]).files|
    {
      LowestDepthIsBound(d, code, k);
    }
    hide LowestDepth, Run;
    var w := LowestDepthIsReached(d, code);
  }

  /** Every decoded location is at least as deep as the lowest depth of its block. */
  lemma {:induction false} PointsAboveLowestDepth(d: Decoded, code: seq<Instr>)
    requires d.points == []
    ensures forall k :: 0 <= k < |Run(d, code).points| ==> LowestDepth(d, code) <= Run(d, code).points[k].depth
  {
    if code != [] {
      PointsAboveLowestDepth(d, code[..|code| - 1]);
    }
  }

  /** What the reader shows of a block: its points with their times. */
  datatype Location = Location(point: Point, timestamp: int)

  function Timed(points: seq<Point>, times: seq<int>): (ls: seq<Location>)
    requires |points| == |times|
    ensures |ls| == |points|
    ensures forall k :: 0 <= k < |ls| ==> ls[k] == Location(points[k], times[k])
  {
    seq(|points|, k requires 0 <= k < |points| => Location(points[k], times[k]))
  }

  // ---------- times ----------

  ghost predicate Increasing(ts: seq<int>) {
    forall i, j :: 0 <= i <= j < |ts| ==> ts[i] <= ts[j]
  }

  ghost predicate Within(ts: seq<int>, low: int, high: int) {
    forall i :: 0 <= i < |ts| ==> low <= ts[i] <= high
  }

  lemma InterpolatedInOrder(a: int, b: int, n: nat, j: nat, k: nat)
    requires a <= b && j <= k < n
    ensures a <= InterpolatedAt(a, b, n, j) <= InterpolatedAt(a, b, n, k) <= b
  {
    var w := b - a;
    MulMonotone(0, j, w);
    MulMonotone(j, k, w);
    MulMonotone(k, n, w);
    DivMonotone(0, j * w, n);
    DivMonotone(j * w, k * w, n);
    DivMonotone(k * w, n * w, n);
    QuotientUnique(n * w, w, n);
    QuotientUnique(0, 0, n);
  }

  lemma StampTimesInOrder(d: Decoded, low: int, ts: int)
    requires Increasing(d.times) && Within(d.times, low, d.lastTs) && low <= d.lastTs <= ts
    requires |d.times| <= |d.points|
    ensures Increasing(StampTimes(d, ts)) && Within(StampTimes(d, ts), low, ts)
    ensures |StampTimes(d, ts)| == |d.points|
  {
    var n := |d.points| - |d.times|;
    var r := StampTimes(d, ts);
    forall j, k | 0 <= j <= k < n
      ensures d.lastTs <= InterpolatedAt(d.lastTs, ts, n, j) <= InterpolatedAt(d.lastTs, ts, n, k) <= ts
    {
      InterpolatedInOrder(d.lastTs, ts, n, j, k);
    }
    var m := |d.times|;
    forall i, j | 0 <= i <= j < |r|
      ensures low <= r[i] <= r[j] <= ts
    {
      if m <= i {
        assert r[i] == InterpolatedAt(d.lastTs, ts, n, i - m) && r[j] == InterpolatedAt(d.lastTs, ts, n, j - m);
      } else if m <= j {
        assert r[j] == InterpolatedAt(d.lastTs, ts, n, j - m);
        assert InterpolatedAt(d.lastTs, ts, n, j - m) >= d.lastTs;
      }
    }
  }

  lemma {:induction false} RunTimesInOrder(d: Decoded, code: seq<Instr>)
    requires d.points == [] && d.times == []
    ensures var r := Run(d, code);
            && Increasing(r.times) && Within(r.times, d.lastTs, r.lastTs)
            && d.lastTs <= r.lastTs && |r.times| <= |r.points|
  {
    if code != [] {
      var n := |code| - 1;
      RunTimesInOrder(d, code[..n]);
      var p := Run(d, code[..n]);
      if code[n].Stamp? {
        StampTimesInOrder(p, d.lastTs, p.lastTs + code[n].offset);
      }
    }
  }

  /** Each location of a block gets exactly one time, in order, within the bounds of the block. */
  lemma BlockTimesInOrder(b: Block, end: nat)
    requires end == 0 || RunBlock(b).lastTs <= end
    ensures var ts := BlockTimes(b, end);
            && |ts| == |RunBlock(b).points|
            && Increasing(ts)
            && Within(ts, b.timestamp, if end == 0 then RunBlock(b).lastTs else end)
  {
    RunTimesInOrder(Begin(b), b.code);
    var d := RunBlock(b);
    StampTimesInOrder(d, b.timestamp, if end == 0 then d.lastTs else end);
  }

  // ---------- how times are spread between two timestamps ----------

  /** A timestamp: how many locations come before it, and its time. */
  datatype Mark = Mark(count: nat, time: int)

  function Lines(code: seq<Instr>): nat {
    if code == [] then 0 else Lines(code[..|code| - 1]) + if code[|code| - 1].Line? then 1 else 0
  }

  function Elapsed(code: seq<Instr>): nat {
    if code == [] then 0
    else Elapsed(code[..|code| - 1]) + if code[|code| - 1].Stamp? then code[|code| - 1].offset else 0
  }

  /** The start of a block and the timestamps in it. */
  function Marks(start: int, code: seq<Instr>): (ms: seq<Mark>)
    ensures ms != []
  {
    if code == [] then [Mark(0, start)]
    else
      var init := code[..|code| - 1];
      Marks(start, init) + if code[|code| - 1].Stamp? then [Mark(Lines(code), start + Elapsed(code))] else []
  }

  /** The marks of a block, and its end. */
  function MarksToEnd(start: int, code: seq<Instr>, end: nat): seq<Mark> {
    Marks(start, code) + [Mark(Lines(code), if end == 0 then start + Elapsed(code) else end)]
  }

  /** The k-th of n locations is at its share of the interval, rounded down. */
  ghost predicate EvenAt(a: int, b: int, n: nat, k: nat, t: int) {
    n * (t - a) <= k * (b - a) < n * (t - a) + n
  }

  ghost predicate EvenBetween(from: Mark, to: Mark, ts: seq<int>) {
    from.count <= to.count <= |ts| &&
    forall k :: from.count <= k < to.count ==>
      EvenAt(from.time, to.time, to.count - from.count, k - from.count, ts[k])
  }

  /** Between any two successive marks the times are spread evenly, the first one being that of the mark. */
  ghost predicate Even(ms: seq<Mark>, ts: seq<int>) {
    forall i, j :: 0 <= i && j == i + 1 < |ms| ==> EvenBetween(ms[i], ms[j], ts)
  }

  lemma InterpolatedIsEven(a: int, b: int, n: nat, k: nat)
    requires k < n
    ensures EvenAt(a, b, n, k, InterpolatedAt(a, b, n, k))
  {
  }

  lemma InterpolateIsEven(before: seq<int>, a: int, b: int, n: nat)
    ensures EvenBetween(Mark(|before|, a), Mark(|before| + n, b), before + Interpolate(a, b, n))
  {
    hide EvenAt, InterpolatedAt;
    var ts := before + Interpolate(a, b, n);
    forall k | |before| <= k < |before| + n
      ensures EvenAt(a, b, n, k - |before|, ts[k])
    {
      InterpolatedIsEven(a, b, n, k - |before|);
    }
  }

  lemma OneMoreMark(ms: seq<Mark>, d: Decoded, ts': int)
    requires ms != [] && Even(ms, d.times) && ms[|ms| - 1] == Mark(|d.times|, d.lastTs) && |d.times| <= |d.points|
    ensures Even(ms + [Mark(|d.points|, ts')], StampTimes(d, ts')) && |StampTimes(d, ts')| == |d.points|
  {
    hide EvenAt, InterpolatedAt;
    InterpolateIsEven(d.times, d.lastTs, ts', |d.points| - |d.times|);
    assert d.times + [] == d.times;
  }

  lemma NoMarks(time: int)
    ensures Even([Mark(0, time)], [])
  {
  }

  lemma {:induction false} RunTimesAreEven(d: Decoded, code: seq<Instr>)
    requires d.points == [] && d.times == [] && NoUnderflow(d, code)
    ensures var r, ms := Run(d, code), Marks(d.lastTs, code);
            && r.lastTs == d.lastTs + Elapsed(code) && |r.points| == Lines(code) && |r.times| <= |r.points|
            && Even(ms, r.times) && ms[|ms| - 1] == Mark(|r.times|, r.lastTs)
  {
    hide Even, StampTimes;
    NoMarks(d.lastTs);
    if code != [] {
      var n := |code| - 1;
      RunTimesAreEven(d, code[..n]);
      var p, ms := Run(d, code[..n]), Marks(d.lastTs, code[..n]);
      assert ms + [] == ms;
      if code[n].Stamp? {
        OneMoreMark(ms, p, p.lastTs + code[n].offset);
      }
    }
  }

  /** The times of a decoded block are spread evenly between its timestamps, from its start to its end. */
  lemma BlockTimesAreEven(d: Decoded, code: seq<Instr>, end: nat)
    requires d.points == [] && d.times == [] && NoUnderflow(d, code)
    ensures var r := Run(d, code);
            Even(MarksToEnd(d.lastTs, code, end), StampTimes(r, if end == 0 then r.lastTs else end))
  {
    RunTimesAreEven(d, code);
    var r := Run(d, code);
    hide Even, StampTimes;
    OneMoreMark(Marks(d.lastTs, code), r, if end == 0 then r.lastTs else end);
  }
}
