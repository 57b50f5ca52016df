/**
 The recorder on values: how trace events become blocks of instructions
 (trackexec/recorder.py), and why cutting the trace into blocks cannot be seen in what is decoded.
 The class in Recorder.dfy does the same on words, arrays and files.
 */
module RecorderModel {
  import opened TraceFormat
  import opened TraceModel

  const LINENO_UNDEFINED: Word := 0

  datatype Rec = Rec(
    stack: seq<Frame>, cur: Word, last: nat, precise: bool, requested: bool, block: Block, written: seq<Block>)

  // Each event carries the clock readings that handling it may need.
  datatype Event =
    | CallEvent(fileId: Word, clock: nat)
    | ReturnEvent(clock: nat)
    | LineEvent(lineno: Word, clock: nat, stampClock: nat, lineClock: nat)
    | EnterPrecise
    | LeavePrecise

  // ---------- the recorder ----------

  function Capacity(size: nat, depth: nat): int {
    size - (2 * depth + 1)
  }

  function Last<T>(s: seq<T>): T
    requires s != []
  {
    s[|s| - 1]
  }

  function DropLast<T>(s: seq<T>): seq<T>
    requires s != []
  {
    s[..|s| - 1]
  }

  function Start(stack: seq<Frame>, clock: nat): Rec {
    Rec(stack, if stack == [] then LINENO_UNDEFINED else Last(stack).lineno, clock, false, false,
        Block(stack, [], clock, |stack|), [])
  }

  function InitBlock(r: Rec, clock: nat): Rec {
    var ts := if clock > r.last then clock else r.last;
    r.(last := ts, block := Block(r.stack, [], ts, |r.stack|))
  }

  function WriteBlock(r: Rec): Rec {
    r.(written := r.written + [r.block])
  }

  predicate HasRoom(size: nat, b: Block, n: nat) {
    |Encode(b.code)| + n + 1 <= Capacity(size, |b.snapshot|)
  }

  function EnsureRoom(size: nat, r: Rec, n: nat, clock: nat): (r': Rec)
    ensures r'.stack == r.stack && r'.cur == r.cur
  {
    if HasRoom(size, r.block, n) then r else InitBlock(WriteBlock(r), clock)
  }

  function Emit(r: Rec, i: Instr): Rec {
    r.(block := r.block.(code := r.block.code + [i]))
  }

  function RecordTimestamp(size: nat, r: Rec, clock: nat, stampClock: nat): (r': Rec)
    ensures r'.stack == r.stack && r'.cur == r.cur
  {
    MarkTime(EnsureRoom(size, r, 5, clock), stampClock)
  }

  // the recorded suite of timestamps is monotonic
  function MarkTime(r: Rec, stampClock: nat): Rec {
    var ts := if stampClock < r.last then r.last else stampClock;
    Emit(r, Stamp(ts - r.last)).(last := ts)
  }

  function OnCall(size: nat, r: Rec, fileId: Word, clock: nat): (r': Rec)
    ensures FileIds(r'.stack) == FileIds(r.stack) + [fileId]
  {
    var cur := if r.stack == [] || Last(r.stack).fileId != fileId then LINENO_UNDEFINED else r.cur;
    var r1 := EnsureRoom(size, r.(cur := cur), 2, clock);
    Emit(r1, Call(fileId)).(stack := r1.stack + [Frame(fileId, cur)])
  }

  // frame d was called from a frame of the same file
  predicate SameFileAt(stack: seq<Frame>, d: int) {
    1 <= d < |stack| && stack[d - 1].fileId == stack[d].fileId
  }

  predicate EndsWithCall(code: seq<Instr>) {
    code != [] && Last(code).Call?
  }

  function OnReturn(size: nat, r: Rec, clock: nat): (r': Rec)
    requires r.stack != []
    ensures FileIds(r'.stack) == DropLast(FileIds(r.stack))
  {
    var r1 :=
      if EndsWithCall(r.block.code) then r.(block := r.block.(code := DropLast(r.block.code)))
      else
        var r0 := Emit(EnsureRoom(size, r, 1, clock), Ret);
        if SameFileAt(r.stack, |r.stack| - 1) then r0 else r0.(cur := LINENO_UNDEFINED);
    Unwind(r1)
  }

  function Unwind(r: Rec): Rec
    requires r.stack != []
  {
    r.(stack := DropLast(r.stack), block := LowerTo(r.block, |r.stack| - 1))
  }

  function LowerTo(b: Block, depth: nat): Block {
    if depth < b.minStack then b.(minStack := depth) else b
  }

  function OnLine(size: nat, r: Rec, lineno: Word, clock: nat, stampClock: nat, lineClock: nat): (r': Rec)
    requires r.stack != []
    ensures FileIds(r'.stack) == FileIds(r.stack)
  {
    var r1 := if r.precise || r.requested
              then RecordTimestamp(size, r, clock, stampClock).(requested := false) else r;
    if lineno == r1.cur then r1
    else MoveTo(EnsureRoom(size, r1, 1, lineClock), lineno)
  }

  function MoveTo(r: Rec, lineno: Word): (r': Rec)
    requires r.stack != []
    ensures FileIds(r'.stack) == FileIds(r.stack)
  {
    Emit(r, Line(lineno)).(
      stack := r.stack[|r.stack| - 1 := Last(r.stack).(lineno := lineno)],
      cur := lineno)
  }

  function OnEvent(size: nat, r: Rec, e: Event): Rec
    requires e.ReturnEvent? || e.LineEvent? ==> r.stack != []
  {
    match e
    case CallEvent(f, c) => OnCall(size, r, f, c)
    case ReturnEvent(c) => OnReturn(size, r, c)
    case LineEvent(n, c, sc, lc) => OnLine(size, r, n, c, sc, lc)
    case EnterPrecise => r.(precise := true)
    case LeavePrecise => r.(precise := false, requested := true)
  }

  // the final timestamp and the flush of the last block
  function Stop(size: nat, r: Rec, clock: nat, stampClock: nat): Rec {
    WriteBlock(RecordTimestamp(size, r, clock, stampClock))
  }

  // ---------- the source locations a program goes through, without any recording ----------

  datatype Source = Source(files: seq<Word>, cur: Word, points: seq<Point>)

  function SourceStart(stack: seq<Frame>): Source {
    Source(FileIds(stack), if stack == [] then LINENO_UNDEFINED else Last(stack).lineno, [])
  }

  /** A line is a new location unless the same line of the same file was the last one seen there. */
  function SourceStep(s: Source, e: Event): Source
    requires e.ReturnEvent? || e.LineEvent? ==> s.files != []
  {
    match e
    case CallEvent(f, _) =>
      Source(s.files + [f], if s.files != [] && Last(s.files) == f then s.cur else LINENO_UNDEFINED, s.points)
    case ReturnEvent(_) =>
      var n := |s.files|;
      var cur := if n >= 2 && s.files[n - 2] == s.files[n - 1] then s.cur else LINENO_UNDEFINED;
      Source(DropLast(s.files), cur, s.points)
    case LineEvent(n, _, _, _) =>
      if n == s.cur then s
      else Source(s.files, n, s.points + [Point(Last(s.files), n, |s.files|)])
    case EnterPrecise => s
    case LeavePrecise => s
  }

  // ---------- runs ----------

  // room for the snapshot, a 5-word timestamp and the final END
  predicate DepthFits(size: nat, depth: nat) {
    2 * depth + 7 <= size
  }

  /** Returns match calls, the stack stays within `limit`, and ids, lines and clocks are in range. */
  predicate ValidEvent(limit: nat, files: seq<Word>, e: Event) {
    match e
    case CallEvent(f, c) => f < TIMESTAMP && |files| < limit && c < STAMP_LIMIT
    case ReturnEvent(c) => files != [] && c < STAMP_LIMIT
    case LineEvent(n, c, sc, lc) =>
      files != [] && 0 < n < TIMESTAMP && c < STAMP_LIMIT && sc < STAMP_LIMIT && lc < STAMP_LIMIT
    case EnterPrecise => true
    case LeavePrecise => true
  }

  predicate ValidRun(limit: nat, s: Source, es: seq<Event>)
    decreases es
  {
    es == [] || (ValidEvent(limit, s.files, es[0]) && ValidRun(limit, SourceStep(s, es[0]), es[1..]))
  }

  function SourceRun(limit: nat, s: Source, es: seq<Event>): Source
    requires ValidRun(limit, s, es)
    decreases es
  {
    if es == [] then s else SourceRun(limit, SourceStep(s, es[0]), es[1..])
  }

  function Record(size: nat, limit: nat, r: Rec, s: Source, es: seq<Event>): Rec
    requires ValidRun(limit, s, es) && FileIds(r.stack) == s.files
    decreases es
  {
    if es == [] then r
    else Record(size, limit, OnEvent(size, r, es[0]), SourceStep(s, es[0]), es[1..])
  }

  // ---------- what every event keeps ----------

  function AllBlocks(r: Rec): seq<Block> {
    r.written + [r.block]
  }

  function BlocksPoints(bs: seq<Block>): seq<Point> {
    if bs == [] then [] else BlocksPoints(DropLast(bs)) + RunBlock(Last(bs)).points
  }

  ghost predicate BlockOk(size: nat, b: Block) {
    && ValidCode(b.code)
    && NoUnderflow(Begin(b), b.code)
    && HasRoom(size, b, 0)
    && b.minStack == LowestDepth(Begin(b), b.code)
    && (forall k :: 0 <= k < |b.snapshot| ==> b.snapshot[k].fileId < TIMESTAMP)
  }

  /** The decoder leaves a block with the stack, and no later than the time, saved at the start of the next one. */
  ghost predicate Follows(b: Block, next: Block) {
    RunBlock(b).files == FileIds(next.snapshot) && RunBlock(b).lastTs <= next.timestamp
  }

  ghost predicate Chain(bs: seq<Block>) {
    forall k :: 0 <= k < |bs| - 1 ==> Follows(bs[k], bs[k + 1])
  }

  function TrailingCalls(code: seq<Instr>): nat {
    if EndsWithCall(code) then 1 + TrailingCalls(DropLast(code)) else 0
  }

  /** While the recorder remembers a line, the calls it could still strip all stay in one file. */
  ghost predicate CallsKeepFile(stack: seq<Frame>, cur: Word, code: seq<Instr>) {
    cur != LINENO_UNDEFINED ==>
      forall d :: |stack| - TrailingCalls(code) <= d < |stack| ==> SameFileAt(stack, d)
  }

  ghost predicate BlocksOk(size: nat, written: seq<Block>, block: Block) {
    && BlockOk(size, block)
    && Chain(written + [block])
    && forall k :: 0 <= k < |written| ==> BlockOk(size, written[k])
  }

  ghost predicate StackOk(size: nat, stack: seq<Frame>) {
    DepthFits(size, |stack|) && forall k :: 0 <= k < |stack| ==> stack[k].fileId < TIMESTAMP
  }

  ghost predicate Inv(size: nat, r: Rec) {
    && StackOk(size, r.stack)
    && r.last < STAMP_LIMIT
    && RunBlock(r.block).files == FileIds(r.stack)
    && RunBlock(r.block).lastTs == r.last
    && CallsKeepFile(r.stack, r.cur, r.block.code)
    && BlocksOk(size, r.written, r.block)
  }

  function PointsSoFar(written: seq<Block>, block: Block): seq<Point> {
    BlocksPoints(written) + RunBlock(block).points
  }

  lemma AllPoints(written: seq<Block>, block: Block)
    ensures BlocksPoints(written + [block]) == PointsSoFar(written, block)
  {
    assert DropLast(written + [block]) == written;
  }

  lemma ReplaceBlock(written: seq<Block>, b: Block, b': Block)
    requires Chain(written + [b]) && b'.snapshot == b.snapshot && b'.timestamp == b.timestamp
    ensures Chain(written + [b'])
  {
    forall k | 0 <= k < |written|
      ensures Follows((written + [b'])[k], (written + [b'])[k + 1])
    {
      assert Follows((written + [b])[k], (written + [b])[k + 1]);
    }
  }

  lemma AppendBlock(written: seq<Block>, b: Block, next: Block)
    requires Chain(written + [b]) && Follows(b, next)
    ensures Chain((written + [b]) + [next])
  {
    var bs := written + [b];
    forall k | 0 <= k < |bs|
      ensures Follows((bs + [next])[k], (bs + [next])[k + 1])
    {
      if k < |written| {
        assert Follows(bs[k], bs[k + 1]);
      }
    }
  }

  /** Starting a block keeps the invariant and shows nothing. */
  lemma EnsureRoomKeeps(size: nat, r: Rec, n: nat, clock: nat)
    requires Inv(size, r) && n <= 5 && clock < STAMP_LIMIT
    ensures var r' := EnsureRoom(size, r, n, clock);
            && Inv(size, r') && HasRoom(size, r'.block, n)
            && PointsSoFar(r'.written, r'.block) == PointsSoFar(r.written, r.block)
  {
    if !HasRoom(size, r.block, n) {
      var r' := EnsureRoom(size, r, n, clock);
      assert RunBlock(r'.block) == Begin(r'.block);
      AppendBlock(r.written, r.block, r'.block);
      AllPoints(r.written, r.block);
    }
  }

  /** Appending an instruction to the current block; only a RETURN can lower its lowest depth. */
  lemma EmitKeeps(size: nat, r: Rec, i: Instr)
    requires BlocksOk(size, r.written, r.block)
    requires ValidInstr(i) && HasRoom(size, r.block, InstrSize(i))
    requires i.Ret? || i.Line? ==> RunBlock(r.block).files != []
    ensures var b := Emit(r, i).block;
            && RunBlock(b) == Step(RunBlock(r.block), i)
            && BlocksOk(size, r.written, if i.Ret? then LowerTo(b, |RunBlock(b).files|) else b)
  {
    var b := Emit(r, i).block;
    RunAppend(Begin(r.block), r.block.code, i);
    EncodeAppend(r.block.code, i);
    assert Begin(b) == Begin(r.block);
    var b' := if i.Ret? then LowerTo(b, |RunBlock(b).files|) else b;
    assert Begin(b') == Begin(b);
    ReplaceBlock(r.written, r.block, b');
  }

  lemma MarkTimeKeeps(size: nat, r: Rec, stampClock: nat)
    requires Inv(size, r) && HasRoom(size, r.block, 5) && stampClock < STAMP_LIMIT
    ensures var r' := MarkTime(r, stampClock);
            Inv(size, r') && PointsSoFar(r'.written, r'.block) == PointsSoFar(r.written, r.block)
  {
    hide BlocksOk, CallsKeepFile, RunBlock, HasRoom;
    var ts := if stampClock < r.last then r.last else stampClock;
    var i := Stamp(ts - r.last);
    EmitStampKeeps(size, r, ts - r.last);
    EmitOther(r.stack, r.cur, r.block.code, i);
    assert MarkTime(r, stampClock) == Emit(r, i).(last := ts);
  }

  lemma EmitStampKeeps(size: nat, r: Rec, o: nat)
    requires BlocksOk(size, r.written, r.block) && o < STAMP_LIMIT && HasRoom(size, r.block, 5)
    ensures var b := Emit(r, Stamp(o)).block; var d, d' := RunBlock(r.block), RunBlock(b);
            && BlocksOk(size, r.written, b)
            && d'.files == d.files && d'.points == d.points && d'.lastTs == d.lastTs + o
  {
    hide BlocksOk, HasRoom;
    EmitKeeps(size, r, Stamp(o));
  }

  lemma RecordTimestampKeeps(size: nat, r: Rec, clock: nat, stampClock: nat)
    requires Inv(size, r) && clock < STAMP_LIMIT && stampClock < STAMP_LIMIT
    ensures var r' := RecordTimestamp(size, r, clock, stampClock);
            Inv(size, r') && PointsSoFar(r'.written, r'.block) == PointsSoFar(r.written, r.block)
  {
    EnsureRoomKeeps(size, r, 5, clock);
    MarkTimeKeeps(size, EnsureRoom(size, r, 5, clock), stampClock);
  }

  lemma EmitOther(stack: seq<Frame>, cur: Word, code: seq<Instr>, i: Instr)
    requires !i.Call?
    ensures CallsKeepFile(stack, cur, code + [i])
  {
  }

  // what OnCall does once there is room for the CALL
  lemma EmitCallKeeps(size: nat, r: Rec, f: Word)
    requires Inv(size, r) && HasRoom(size, r.block, 2) && f < TIMESTAMP && DepthFits(size, |r.stack| + 1)
    requires r.cur != LINENO_UNDEFINED ==> r.stack != [] && Last(r.stack).fileId == f
    ensures var r' := Emit(r, Call(f)).(stack := r.stack + [Frame(f, r.cur)]);
            Inv(size, r') && PointsSoFar(r'.written, r'.block) == PointsSoFar(r.written, r.block)
  {
    hide BlocksOk, CallsKeepFile, HasRoom, RunBlock;
    EmitKeeps(size, r, Call(f));
    CallsAfterCall(r.stack, r.cur, r.block.code, f);
  }

  lemma CallKeeps(size: nat, r: Rec, f: Word, clock: nat)
    requires Inv(size, r) && f < TIMESTAMP && DepthFits(size, |r.stack| + 1) && clock < STAMP_LIMIT
    ensures var r' := OnCall(size, r, f, clock);
            && Inv(size, r') && PointsSoFar(r'.written, r'.block) == PointsSoFar(r.written, r.block)
            && r'.cur == if r.stack == [] || Last(r.stack).fileId != f then LINENO_UNDEFINED else r.cur
  {
    hide BlocksOk, RunBlock;
    var cur := if r.stack == [] || Last(r.stack).fileId != f then LINENO_UNDEFINED else r.cur;
    var r0 := r.(cur := cur);
    assert CallsKeepFile(r.stack, cur, r.block.code);
    assert Inv(size, r0);
    hide Inv, CallsKeepFile;
    EnsureRoomKeeps(size, r0, 2, clock);
    EmitCallKeeps(size, EnsureRoom(size, r0, 2, clock), f);
  }

  lemma CallsAfterCall(stack: seq<Frame>, cur: Word, code: seq<Instr>, f: Word)
    requires CallsKeepFile(stack, cur, code)
    requires cur != LINENO_UNDEFINED ==> stack != [] && Last(stack).fileId == f
    ensures CallsKeepFile(stack + [Frame(f, cur)], cur, code + [Call(f)])
  {
    var stack' := stack + [Frame(f, cur)];
    assert DropLast(code + [Call(f)]) == code;
    forall d | cur != LINENO_UNDEFINED && |stack'| - TrailingCalls(code + [Call(f)]) <= d < |stack'|
      ensures SameFileAt(stack', d)
    {
      if d < |stack| {
        assert SameFileAt(stack, d);
      }
    }
  }

  lemma CallsAfterPop(stack: seq<Frame>, cur: Word, code: seq<Instr>)
    requires stack != [] && EndsWithCall(code) && CallsKeepFile(stack, cur, code)
    ensures CallsKeepFile(DropLast(stack), cur, DropLast(code))
    ensures cur != LINENO_UNDEFINED ==> SameFileAt(stack, |stack| - 1)
  {
    var stack' := DropLast(stack);
    forall d | cur != LINENO_UNDEFINED && |stack'| - TrailingCalls(DropLast(code)) <= d < |stack'|
      ensures SameFileAt(stack', d)
    {
      assert SameFileAt(stack, d);
    }
    assert cur != LINENO_UNDEFINED ==> SameFileAt(stack, |stack| - 1);
  }

  /** Removing a trailing CALL from a block. */
  lemma StripKeeps(size: nat, r: Rec)
    requires BlocksOk(size, r.written, r.block) && EndsWithCall(r.block.code)
    ensures var b := r.block.(code := DropLast(r.block.code)); var d, d' := RunBlock(r.block), RunBlock(b);
            && d'.lastTs == d.lastTs && d'.points == d.points
            && d.files != [] && d'.files == DropLast(d.files)
            && BlocksOk(size, r.written, LowerTo(b, |d'.files|))
            && LowerTo(b, |d'.files|) == b
  {
    var b := r.block.(code := DropLast(r.block.code));
    assert Begin(b) == Begin(r.block);
    var i := Last(r.block.code);
    assert b.code + [i] == r.block.code;
    RunAppend(Begin(b), b.code, i);
    EncodeAppend(b.code, i);
    ReplaceBlock(r.written, r.block, b);
  }

  lemma LowerToRuns(b: Block, depth: nat)
    ensures RunBlock(LowerTo(b, depth)) == RunBlock(b) && LowerTo(b, depth).code == b.code
  {
  }

  // what OnReturn does once there is room for the RETURN
  lemma EmitReturnKeeps(size: nat, r: Rec)
    requires Inv(size, r) && r.stack != [] && HasRoom(size, r.block, 1)
    ensures var r0 := Emit(r, Ret);
            var r' := Unwind(if SameFileAt(r.stack, |r.stack| - 1) then r0 else r0.(cur := LINENO_UNDEFINED));
            Inv(size, r') && PointsSoFar(r'.written, r'.block) == PointsSoFar(r.written, r.block)
  {
    hide BlocksOk, CallsKeepFile, HasRoom, RunBlock;
    EmitKeeps(size, r, Ret);
    var d := RunBlock(r.block);
    assert d.files != [];
    assert Step(d, Ret) == d.(files := DropLast(d.files));
    var b := Emit(r, Ret).block;
    LowerToRuns(b, |RunBlock(b).files|);
    hide Step;
    EmitOther(DropLast(r.stack), r.cur, r.block.code, Ret);
    EmitOther(DropLast(r.stack), LINENO_UNDEFINED, r.block.code, Ret);
  }

  lemma ReturnKeeps(size: nat, r: Rec, clock: nat)
    requires Inv(size, r) && r.stack != [] && clock < STAMP_LIMIT
    ensures var r' := OnReturn(size, r, clock);
            && Inv(size, r') && PointsSoFar(r'.written, r'.block) == PointsSoFar(r.written, r.block)
            && r'.cur == if SameFileAt(r.stack, |r.stack| - 1) then r.cur else LINENO_UNDEFINED
  {
    hide BlocksOk, CallsKeepFile, HasRoom, RunBlock;
    if EndsWithCall(r.block.code) {
      StripKeeps(size, r);
      CallsAfterPop(r.stack, r.cur, r.block.code);
    } else {
      EnsureRoomKeeps(size, r, 1, clock);
      EmitReturnKeeps(size, EnsureRoom(size, r, 1, clock));
    }
  }

  lemma MoveKeeps(size: nat, r: Rec, n: Word)
    requires Inv(size, r) && r.stack != [] && HasRoom(size, r.block, 1) && 0 < n < TIMESTAMP
    ensures var r' := MoveTo(r, n);
            && Inv(size, r')
            && PointsSoFar(r'.written, r'.block)
               == PointsSoFar(r.written, r.block) + [Point(Last(r.stack).fileId, n, |r.stack|)]
  {
    EmitKeeps(size, r, Line(n));
    var r' := MoveTo(r, n);
    EmitOther(r'.stack, n, r.block.code, Line(n));
    var d := RunBlock(r.block);
    assert Step(d, Line(n)) == d.(points := d.points + [Point(Last(r.stack).fileId, n, |r.stack|)]);
  }

  lemma LineKeeps(size: nat, r: Rec, n: Word, clock: nat, stampClock: nat, lineClock: nat)
    requires Inv(size, r) && r.stack != [] && 0 < n < TIMESTAMP
    requires clock < STAMP_LIMIT && stampClock < STAMP_LIMIT && lineClock < STAMP_LIMIT
    ensures var r' := OnLine(size, r, n, clock, stampClock, lineClock);
            && Inv(size, r')
            && PointsSoFar(r'.written, r'.block) == PointsSoFar(r.written, r.block)
                 + (if n == r.cur then [] else [Point(Last(r.stack).fileId, n, |r.stack|)])
            && r'.cur == n && FileIds(r'.stack) == FileIds(r.stack)
  {
    var r1 := r;
    if r.precise || r.requested {
      RecordTimestampKeeps(size, r, clock, stampClock);
      r1 := RecordTimestamp(size, r, clock, stampClock).(requested := false);
    }
    if n != r.cur {
      EnsureRoomKeeps(size, r1, 1, lineClock);
      MoveKeeps(size, EnsureRoom(size, r1, 1, lineClock), n);
    }
  }

  // ---------- whole runs ----------

  ghost predicate Agrees(r: Rec, s: Source) {
    FileIds(r.stack) == s.files && r.cur == s.cur && PointsSoFar(r.written, r.block) == s.points
  }

  ghost predicate StartOk(size: nat, limit: nat, stack: seq<Frame>, clock: nat) {
    && DepthFits(size, limit) && |stack| <= limit && clock < STAMP_LIMIT
    && forall k :: 0 <= k < |stack| ==> stack[k].fileId < TIMESTAMP
  }

  lemma StartKeeps(size: nat, limit: nat, stack: seq<Frame>, clock: nat)
    requires StartOk(size, limit, stack, clock)
    ensures Inv(size, Start(stack, clock)) && Agrees(Start(stack, clock), SourceStart(stack))
  {
  }

  /** One event: the recorder follows the source, whatever block it happens to be in. */
  lemma EventKeeps(size: nat, limit: nat, r: Rec, s: Source, e: Event)
    requires Inv(size, r) && Agrees(r, s) && DepthFits(size, limit) && ValidEvent(limit, s.files, e)
    ensures Inv(size, OnEvent(size, r, e)) && Agrees(OnEvent(size, r, e), SourceStep(s, e))
  {
    match e
    case CallEvent(f, c) => CallAgrees(size, limit, r, s, e);
    case ReturnEvent(c) => ReturnAgrees(size, limit, r, s, e);
    case LineEvent(n, c, sc, lc) => LineAgrees(size, limit, r, s, e);
    case EnterPrecise =>
    case LeavePrecise =>
  }

  lemma CallAgrees(size: nat, limit: nat, r: Rec, s: Source, e: Event)
    requires Inv(size, r) && Agrees(r, s) && DepthFits(size, limit) && ValidEvent(limit, s.files, e) && e.CallEvent?
    ensures Inv(size, OnEvent(size, r, e)) && Agrees(OnEvent(size, r, e), SourceStep(s, e))
  {
    hide BlocksOk, CallsKeepFile, RunBlock, EnsureRoom;
    CallKeeps(size, r, e.fileId, e.clock);
    hide Inv;
  }

  lemma ReturnAgrees(size: nat, limit: nat, r: Rec, s: Source, e: Event)
    requires Inv(size, r) && Agrees(r, s) && ValidEvent(limit, s.files, e) && e.ReturnEvent?
    ensures Inv(size, OnEvent(size, r, e)) && Agrees(OnEvent(size, r, e), SourceStep(s, e))
  {
    hide BlocksOk, CallsKeepFile, RunBlock, EnsureRoom;
    ReturnKeeps(size, r, e.clock);
    hide Inv;
  }

  lemma LineAgrees(size: nat, limit: nat, r: Rec, s: Source, e: Event)
    requires Inv(size, r) && Agrees(r, s) && ValidEvent(limit, s.files, e) && e.LineEvent?
    ensures Inv(size, OnEvent(size, r, e)) && Agrees(OnEvent(size, r, e), SourceStep(s, e))
  {
    LineKeeps(size, r, e.lineno, e.clock, e.stampClock, e.lineClock);
  }

  lemma {:induction false} RunKeeps(size: nat, limit: nat, r: Rec, s: Source, es: seq<Event>)
    requires Inv(size, r) && Agrees(r, s) && DepthFits(size, limit) && ValidRun(limit, s, es)
    ensures Inv(size, Record(size, limit, r, s, es))
    ensures Agrees(Record(size, limit, r, s, es), SourceRun(limit, s, es))
    decreases es
  {
    if es != [] {
      EventKeeps(size, limit, r, s, es[0]);
      RunKeeps(size, limit, OnEvent(size, r, es[0]), SourceStep(s, es[0]), es[1..]);
    }
  }

  /** The recorder after a run started on a given stack. */
  function Recorded(size: nat, limit: nat, stack: seq<Frame>, clock: nat, es: seq<Event>): Rec
    requires ValidRun(limit, SourceStart(stack), es)
  {
    Record(size, limit, Start(stack, clock), SourceStart(stack), es)
  }

  lemma RecordedInv(size: nat, limit: nat, stack: seq<Frame>, clock: nat, es: seq<Event>)
    requires StartOk(size, limit, stack, clock) && ValidRun(limit, SourceStart(stack), es)
    ensures Inv(size, Recorded(size, limit, stack, clock, es))
    ensures Agrees(Recorded(size, limit, stack, clock, es), SourceRun(limit, SourceStart(stack), es))
  {
    StartKeeps(size, limit, stack, clock);
    RunKeeps(size, limit, Start(stack, clock), SourceStart(stack), es);
  }

  /** Decoding all blocks in order gives exactly the locations the program went through. */
  lemma BlockSplittingIsInvisible(size: nat, limit: nat, stack: seq<Frame>, clock: nat, es: seq<Event>)
    requires StartOk(size, limit, stack, clock) && ValidRun(limit, SourceStart(stack), es)
    ensures BlocksPoints(AllBlocks(Recorded(size, limit, stack, clock, es)))
         == SourceRun(limit, SourceStart(stack), es).points
  {
    RecordedInv(size, limit, stack, clock, es);
    var r := Recorded(size, limit, stack, clock, es);
    AllPoints(r.written, r.block);
  }

  /** In particular a recorder whose block never fills up shows the same locations. */
  lemma BlockSizeDoesNotMatter(
    size: nat, size': nat, limit: nat, stack: seq<Frame>, clock: nat, clock': nat, es: seq<Event>)
    requires StartOk(size, limit, stack, clock) && StartOk(size', limit, stack, clock')
    requires ValidRun(limit, SourceStart(stack), es)
    ensures BlocksPoints(AllBlocks(Recorded(size, limit, stack, clock, es)))
         == BlocksPoints(AllBlocks(Recorded(size', limit, stack, clock', es)))
  {
    BlockSplittingIsInvisible(size, limit, stack, clock, es);
    BlockSplittingIsInvisible(size', limit, stack, clock', es);
  }

  /** The stack and time the decoder ends a block with are those the next block starts from. */
  lemma DecoderKeepsPace(size: nat, limit: nat, stack: seq<Frame>, clock: nat, es: seq<Event>)
    requires StartOk(size, limit, stack, clock) && ValidRun(limit, SourceStart(stack), es)
    ensures var r := Recorded(size, limit, stack, clock, es); var bs := AllBlocks(r);
            && (forall k :: 0 <= k < |bs| - 1 ==> RunBlock(bs[k]).files == FileIds(bs[k + 1].snapshot))
            && (forall k :: 0 <= k < |bs| - 1 ==> RunBlock(bs[k]).lastTs <= bs[k + 1].timestamp)
            && RunBlock(r.block).files == FileIds(r.stack)
            && RunBlock(r.block).lastTs == r.last
  {
    RecordedInv(size, limit, stack, clock, es);
    var bs := AllBlocks(Recorded(size, limit, stack, clock, es));
    forall k | 0 <= k < |bs| - 1
      ensures RunBlock(bs[k]).files == FileIds(bs[k + 1].snapshot) && RunBlock(bs[k]).lastTs <= bs[k + 1].timestamp
    {
      assert Follows(bs[k], bs[k + 1]);
    }
  }

  /** The saved minimum of a block is the lowest stack depth its decoding goes through. */
  lemma MinStackIsExact(size: nat, limit: nat, stack: seq<Frame>, clock: nat, es: seq<Event>, k: nat)
    requires StartOk(size, limit, stack, clock) && ValidRun(limit, SourceStart(stack), es)
    requires k < |AllBlocks(Recorded(size, limit, stack, clock, es))|
    ensures var b := AllBlocks(Recorded(size, limit, stack, clock, es))[k];
            && (forall j :: 0 <= j <= |b.code| ==> b.minStack <= |Run(Begin(b), b.code[..j]).files|)
            && (exists j :: 0 <= j <= |b.code| && b.minStack == |Run(Begin(b), b.code[..j]).files|)
            && (forall p :: p in RunBlock(b).points ==> b.minStack <= p.depth)
  {
    RecordedInv(size, limit, stack, clock, es);
    var r := Recorded(size, limit, stack, clock, es);
    var b := AllBlocks(r)[k];
    assert BlockOk(size, b);
    LowestDepthIsMinimum(Begin(b), b.code);
    PointsAboveLowestDepth(Begin(b), b.code);
  }

  // ---------- times over the whole trace ----------

  /** The times of all blocks; each block but the last ends when the next one starts. */
  function TraceTimes(bs: seq<Block>, end: nat): seq<int> {
    if bs == [] then []
    else TraceTimes(DropLast(bs), Last(bs).timestamp) + BlockTimes(Last(bs), end)
  }

  lemma ConcatInOrder(a: seq<int>, b: seq<int>, low: int, mid: int, high: int)
    requires Increasing(a) && Within(a, low, mid) && Increasing(b) && Within(b, mid, high) && low <= mid <= high
    ensures Increasing(a + b) && Within(a + b, low, high)
  {
  }

  lemma {:induction false} TraceTimesInOrder(bs: seq<Block>, end: nat)
    requires Chain(bs) && bs != []
    requires end == 0 || RunBlock(Last(bs)).lastTs <= end
    ensures var ts := TraceTimes(bs, end);
            && |ts| == |BlocksPoints(bs)|
            && Increasing(ts)
            && Within(ts, bs[0].timestamp, if end == 0 then RunBlock(Last(bs)).lastTs else end)
            && bs[0].timestamp <= Last(bs).timestamp <= RunBlock(Last(bs)).lastTs
  {
    hide BlockTimes, Increasing, Within;
    var init, b := DropLast(bs), Last(bs);
    BlockTimesInOrder(b, end);
    var here := BlockTimes(b, end);
    var high := if end == 0 then RunBlock(b).lastTs else end;
    BlockStartsFirst(b);
    if init == [] {
      assert TraceTimes(bs, end) == here;
      assert BlocksPoints(bs) == RunBlock(b).points;
    } else {
      assert Follows(bs[|bs| - 2], bs[|bs| - 1]);
      ChainPrefix(bs);
      TraceTimesInOrder(init, b.timestamp);
      var before := TraceTimes(init, b.timestamp);
      var mid := if b.timestamp == 0 then RunBlock(Last(init)).lastTs else b.timestamp;
      WithinSame(before, bs[0].timestamp, mid, b.timestamp);
      ConcatInOrder(before, here, bs[0].timestamp, b.timestamp, high);
    }
  }

  lemma BlockStartsFirst(b: Block)
    ensures b.timestamp <= RunBlock(b).lastTs
  {
    RunTimesInOrder(Begin(b), b.code);
  }

  lemma ChainPrefix(bs: seq<Block>)
    requires Chain(bs) && bs != []
    ensures Chain(DropLast(bs))
  {
    var init := DropLast(bs);
    forall k | 0 <= k < |init| - 1
      ensures Follows(init[k], init[k + 1])
    {
      assert Follows(bs[k], bs[k + 1]);
    }
  }

  lemma WithinSame(ts: seq<int>, low: int, mid: int, high: int)
    requires Within(ts, low, mid) && mid <= high
    ensures Within(ts, low, high)
  {
  }

  /** Every decoded location has exactly one time, and times never decrease over a recorded trace. */
  lemma TimesAreMonotone(size: nat, limit: nat, stack: seq<Frame>, clock: nat, es: seq<Event>)
    requires StartOk(size, limit, stack, clock) && ValidRun(limit, SourceStart(stack), es)
    ensures var r := Recorded(size, limit, stack, clock, es);
            var ts := TraceTimes(AllBlocks(r), 0);
            && |ts| == |BlocksPoints(AllBlocks(r))|
            && Increasing(ts)
            && Within(ts, AllBlocks(r)[0].timestamp, r.last)
  {
    RecordedInv(size, limit, stack, clock, es);
    TraceTimesInOrder(AllBlocks(Recorded(size, limit, stack, clock, es)), 0);
  }

  /** The blocks on disk once the recorder has stopped. */
  lemma StoppedTrace(
    size: nat, limit: nat, stack: seq<Frame>, clock: nat, es: seq<Event>, flushClock: nat, stampClock: nat)
    requires StartOk(size, limit, stack, clock) && ValidRun(limit, SourceStart(stack), es)
    requires flushClock < STAMP_LIMIT && stampClock < STAMP_LIMIT
    ensures var bs := Stop(size, Recorded(size, limit, stack, clock, es), flushClock, stampClock).written;
            && bs != [] && Chain(bs) && (forall k :: 0 <= k < |bs| ==> BlockOk(size, bs[k]))
            && BlocksPoints(bs) == SourceRun(limit, SourceStart(stack), es).points
            && |TraceTimes(bs, 0)| == |BlocksPoints(bs)| && Increasing(TraceTimes(bs, 0))
  {
    hide BlockOk, CallsKeepFile, RunBlock, Record, SourceRun, TraceTimes, BlocksPoints, Increasing, Chain, MarkTime;
    var r := Recorded(size, limit, stack, clock, es);
    RecordedInv(size, limit, stack, clock, es);
    RecordTimestampKeeps(size, r, flushClock, stampClock);
    var r' := RecordTimestamp(size, r, flushClock, stampClock);
    AllPoints(r'.written, r'.block);
    TraceTimesInOrder(AllBlocks(r'), 0);
  }
}
