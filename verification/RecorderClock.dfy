/**
 What becomes of the clock readings of the recorder: when blocks start and end, and at which time the lines of a
 precise section are shown (trackexec/recorder.py, decoded by fast.py).
 */
module RecorderClock {
  import opened TraceFormat
  import opened TraceModel
  import opened RecorderModel

  // ---------- which readings are used ----------

  function Largest(first: nat, readings: seq<nat>): (x: nat)
    ensures first <= x && forall k :: 0 <= k < |readings| ==> readings[k] <= x
    ensures x == first || x in readings
  {
    if readings == [] then first
    else
      var init, last := Largest(first, readings[..|readings| - 1]), readings[|readings| - 1];
      if init < last then last else init
  }

  lemma {:induction false} LargestConcat(first: nat, a: seq<nat>, b: seq<nat>)
    ensures Largest(first, a + b) == Largest(Largest(first, a), b)
    decreases |b|
  {
    if b == [] {
      assert a + b == a;
    } else {
      var n := |b| - 1;
      assert (a + b)[..|a + b| - 1] == a + b[..n];
      LargestConcat(first, a, b[..n]);
    }
  }

  // the clock is read for a new block when n more words and an END do not fit behind the words of this one
  function RoomReadings(size: nat, words: nat, depth: nat, n: nat, clock: nat): seq<nat> {
    if words + n + 1 <= size - (2 * depth + 1) then [] else [clock]
  }

  /** The clock readings that an event really uses: for new blocks, and for the timestamp of a line. */
  function Readings(size: nat, r: Rec, e: Event): seq<nat> {
    var words, depth := |Encode(r.block.code)|, |r.block.snapshot|;
    match e
    case CallEvent(_, c) => RoomReadings(size, words, depth, 2, c)
    case ReturnEvent(c) => if EndsWithCall(r.block.code) then [] else RoomReadings(size, words, depth, 1, c)
    case LineEvent(n, c, sc, lc) =>
      var stays := n == r.cur;
      if r.precise || r.requested then
        var room := RoomReadings(size, words, depth, 5, c);
        room + [sc]
        + (if stays then []
           else if room == [] then RoomReadings(size, words + 5, depth, 1, lc)
           else RoomReadings(size, 5, |r.stack|, 1, lc))
      else if stays then [] else RoomReadings(size, words, depth, 1, lc)
    case EnterPrecise => []
    case LeavePrecise => []
  }

  lemma RoomClock(size: nat, r: Rec, n: nat, clock: nat)
    ensures EnsureRoom(size, r, n, clock).last
         == Largest(r.last, RoomReadings(size, |Encode(r.block.code)|, |r.block.snapshot|, n, clock))
  {
    assert [clock][..0] == [];
  }

  lemma MarkClock(r: Rec, stampClock: nat)
    ensures MarkTime(r, stampClock).last == Largest(r.last, [stampClock])
    ensures |Encode(MarkTime(r, stampClock).block.code)| == |Encode(r.block.code)| + 5
  {
    assert [stampClock][..0] == [];
    EncodeAppend(r.block.code, Stamp(MarkTime(r, stampClock).last - r.last));
  }

  lemma StampClock(size: nat, r: Rec, clock: nat, stampClock: nat)
    ensures var room := RoomReadings(size, |Encode(r.block.code)|, |r.block.snapshot|, 5, clock);
            var r' := RecordTimestamp(size, r, clock, stampClock);
            && r'.last == Largest(r.last, room + [stampClock])
            && (if room == [] then |Encode(r'.block.code)| == |Encode(r.block.code)| + 5
                                   && r'.block.snapshot == r.block.snapshot
                else |Encode(r'.block.code)| == 5 && r'.block.snapshot == r.stack)
  {
    RoomClock(size, r, 5, clock);
    MarkClock(EnsureRoom(size, r, 5, clock), stampClock);
    var room := RoomReadings(size, |Encode(r.block.code)|, |r.block.snapshot|, 5, clock);
    LargestConcat(r.last, room, [stampClock]);
  }

  /** The recorder's time is the largest reading used so far. */
  lemma EventClock(size: nat, r: Rec, e: Event)
    requires e.ReturnEvent? || e.LineEvent? ==> r.stack != []
    ensures OnEvent(size, r, e).last == Largest(r.last, Readings(size, r, e))
  {
    hide Encode, Largest;
    NoReading(r.last);
    match e
    case CallEvent(f, c) =>
      var cur := if r.stack == [] || Last(r.stack).fileId != f then LINENO_UNDEFINED else r.cur;
      RoomClock(size, r.(cur := cur), 2, c);
    case ReturnEvent(c) => RoomClock(size, r, 1, c);
    case LineEvent(n, c, sc, lc) =>
      if r.precise || r.requested {
        StampClock(size, r, c, sc);
        var r1 := RecordTimestamp(size, r, c, sc).(requested := false);
        RoomClock(size, r1, 1, lc);
        var stamp := RoomReadings(size, |Encode(r.block.code)|, |r.block.snapshot|, 5, c) + [sc];
        LargestConcat(r.last, stamp, RoomReadings(size, |Encode(r1.block.code)|, |r1.block.snapshot|, 1, lc));
        assert stamp + [] == stamp;
      } else {
        RoomClock(size, r, 1, lc);
      }
    case _ =>
  }

  lemma NoReading(last: nat)
    ensures Largest(last, []) == last
  {
  }

  /** The readings used by the first k events. */
  function UsedReadings(size: nat, limit: nat, r: Rec, s: Source, es: seq<Event>, k: nat): seq<nat>
    requires ValidRun(limit, s, es) && FileIds(r.stack) == s.files && k <= |es|
    decreases es
  {
    if k == 0 then []
    else
      Readings(size, r, es[0])
      + UsedReadings(size, limit, OnEvent(size, r, es[0]), SourceStep(s, es[0]), es[1..], k - 1)
  }

  /** The recorder before event k. */
  function RecAt(size: nat, limit: nat, r: Rec, s: Source, es: seq<Event>, k: nat): Rec
    requires ValidRun(limit, s, es) && FileIds(r.stack) == s.files && k <= |es|
    decreases es
  {
    if k == 0 then r else RecAt(size, limit, OnEvent(size, r, es[0]), SourceStep(s, es[0]), es[1..], k - 1)
  }

  lemma {:induction false} ClockAt(size: nat, limit: nat, r: Rec, s: Source, es: seq<Event>, k: nat)
    requires ValidRun(limit, s, es) && FileIds(r.stack) == s.files && k <= |es|
    ensures RecAt(size, limit, r, s, es, k).last == Largest(r.last, UsedReadings(size, limit, r, s, es, k))
    decreases es
  {
    hide OnEvent, Readings, SourceStep;
    if k == 0 {
      NoReading(r.last);
    } else {
      SameFiles(size, limit, r, s, es[0]);
      var r1, s1 := OnEvent(size, r, es[0]), SourceStep(s, es[0]);
      EventClock(size, r, es[0]);
      ClockAt(size, limit, r1, s1, es[1..], k - 1);
      LargestConcat(r.last, Readings(size, r, es[0]), UsedReadings(size, limit, r1, s1, es[1..], k - 1));
    }
  }

  lemma {:induction false} RecAtEnd(size: nat, limit: nat, r: Rec, s: Source, es: seq<Event>)
    requires ValidRun(limit, s, es) && FileIds(r.stack) == s.files
    ensures RecAt(size, limit, r, s, es, |es|) == Record(size, limit, r, s, es)
    decreases es
  {
    hide OnEvent, SourceStep;
    if es != [] {
      SameFiles(size, limit, r, s, es[0]);
      RecAtEnd(size, limit, OnEvent(size, r, es[0]), SourceStep(s, es[0]), es[1..]);
    }
  }

  /** The largest reading used by the first k events, from the start of the recorder on. */
  function TimeAt(size: nat, limit: nat, stack: seq<Frame>, clock: nat, es: seq<Event>, k: nat): nat
    requires ValidRun(limit, SourceStart(stack), es) && k <= |es|
  {
    Largest(clock, UsedReadings(size, limit, Start(stack, clock), SourceStart(stack), es, k))
  }

  /** The decoder ends the last block at the largest reading used, whichever way the clock went. */
  lemma TraceEndsWithTheClock(size: nat, limit: nat, stack: seq<Frame>, clock: nat, es: seq<Event>)
    requires StartOk(size, limit, stack, clock) && ValidRun(limit, SourceStart(stack), es)
    ensures RunBlock(Recorded(size, limit, stack, clock, es).block).lastTs
         == TimeAt(size, limit, stack, clock, es, |es|)
  {
    hide RunBlock, Record, RecAt;
    RecordedInv(size, limit, stack, clock, es);
    ClockAt(size, limit, Start(stack, clock), SourceStart(stack), es, |es|);
    RecAtEnd(size, limit, Start(stack, clock), SourceStart(stack), es);
  }

  /** Once the recorder has stopped, this includes the reading of the stop. */
  lemma StoppedWithTheClock(
    size: nat, limit: nat, stack: seq<Frame>, clock: nat, es: seq<Event>, flushClock: nat, stampClock: nat)
    requires StartOk(size, limit, stack, clock) && ValidRun(limit, SourceStart(stack), es)
    requires flushClock < STAMP_LIMIT && stampClock < STAMP_LIMIT
    ensures var r := Recorded(size, limit, stack, clock, es);
            var bs := Stop(size, r, flushClock, stampClock).written;
            var room := RoomReadings(size, |Encode(r.block.code)|, |r.block.snapshot|, 5, flushClock);
            && bs != []
            && RunBlock(bs[|bs| - 1]).lastTs
               == Largest(TimeAt(size, limit, stack, clock, es, |es|), room + [stampClock])
  {
    hide RunBlock, Record, RecAt, Largest, MarkTime, EnsureRoom, Encode;
    var r := Recorded(size, limit, stack, clock, es);
    RecordedInv(size, limit, stack, clock, es);
    ClockAt(size, limit, Start(stack, clock), SourceStart(stack), es, |es|);
    RecAtEnd(size, limit, Start(stack, clock), SourceStart(stack), es);
    RecordTimestampKeeps(size, r, flushClock, stampClock);
    StampClock(size, r, flushClock, stampClock);
  }

  // ---------- the program before an event ----------

  function SourceAt(limit: nat, s: Source, es: seq<Event>, k: nat): Source
    requires ValidRun(limit, s, es) && k <= |es|
    decreases es
  {
    if k == 0 then s else SourceAt(limit, SourceStep(s, es[0]), es[1..], k - 1)
  }

  // ---------- precise sections ----------

  ghost predicate NoneLeaves(es: seq<Event>, j: nat, k: nat)
    requires k <= |es|
  {
    forall i :: j <= i < k ==> !es[i].LeavePrecise?
  }

  ghost predicate NoLines(es: seq<Event>, j: nat, k: nat)
    requires k <= |es|
  {
    forall i :: j <= i < k ==> !es[i].LineEvent?
  }

  /** Event k is in a section of precise timestamps. */
  ghost predicate InSection(es: seq<Event>, k: nat)
    requires k <= |es|
  {
    exists j :: 0 <= j < k && es[j].EnterPrecise? && NoneLeaves(es, j + 1, k)
  }

  /** No line has been traced between the end of a section and event k. */
  ghost predicate JustLeft(es: seq<Event>, k: nat)
    requires k <= |es|
  {
    exists j :: 0 <= j < k && es[j].LeavePrecise? && NoLines(es, j + 1, k)
  }

  lemma {:induction false} FlagsAt(size: nat, limit: nat, r: Rec, s: Source, es: seq<Event>, k: nat)
    requires ValidRun(limit, s, es) && FileIds(r.stack) == s.files && k <= |es|
    ensures var at := RecAt(size, limit, r, s, es, k);
            && (at.precise <==> InSection(es, k) || (r.precise && NoneLeaves(es, 0, k)))
            && (at.requested <==> JustLeft(es, k) || (r.requested && NoLines(es, 0, k)))
    decreases es
  {
    hide OnEvent, SourceStep, NoneLeaves, NoLines, InSection, JustLeft;
    if k == 0 {
      NothingYet(es);
    } else {
      var r1, s1 := OnEvent(size, r, es[0]), SourceStep(s, es[0]);
      SameFiles(size, limit, r, s, es[0]);
      FlagsAt(size, limit, r1, s1, es[1..], k - 1);
      FlagsOf(size, r, es[0]);
      SectionFirst(es, k);
      LeftFirst(es, k);
    }
  }

  lemma SameFiles(size: nat, limit: nat, r: Rec, s: Source, e: Event)
    requires FileIds(r.stack) == s.files && ValidEvent(limit, s.files, e)
    ensures e.ReturnEvent? || e.LineEvent? ==> r.stack != []
    ensures FileIds(OnEvent(size, r, e).stack) == SourceStep(s, e).files
  {
  }

  lemma NothingYet(es: seq<Event>)
    ensures !InSection(es, 0) && !JustLeft(es, 0) && NoneLeaves(es, 0, 0) && NoLines(es, 0, 0)
  {
  }

  lemma FlagsOf(size: nat, r: Rec, e: Event)
    requires e.ReturnEvent? || e.LineEvent? ==> r.stack != []
    ensures var r' := OnEvent(size, r, e);
            && (r'.precise <==> e.EnterPrecise? || (r.precise && !e.LeavePrecise?))
            && (r'.requested <==> e.LeavePrecise? || (r.requested && !e.LineEvent?))
  {
    hide Encode, HasRoom, Capacity;
  }

  lemma SectionFirst(es: seq<Event>, k: nat)
    requires 0 < k <= |es|
    ensures InSection(es, k) <==> InSection(es[1..], k - 1) || (es[0].EnterPrecise? && NoneLeaves(es, 1, k))
    ensures NoneLeaves(es[1..], 0, k - 1) <==> NoneLeaves(es, 1, k)
    ensures NoneLeaves(es, 0, k) <==> !es[0].LeavePrecise? && NoneLeaves(es, 1, k)
  {
    var rest := es[1..];
    assert forall i :: 0 < i < k ==> es[i] == rest[i - 1];
    if InSection(es, k) {
      var j :| 0 <= j < k && es[j].EnterPrecise? && NoneLeaves(es, j + 1, k);
      if j > 0 {
        assert rest[j - 1].EnterPrecise? && NoneLeaves(rest, j, k - 1);
      }
    }
    if j :| 0 <= j < k - 1 && rest[j].EnterPrecise? && NoneLeaves(rest, j + 1, k - 1) {
      assert es[j + 1].EnterPrecise? && NoneLeaves(es, j + 2, k);
    }
  }

  lemma LeftFirst(es: seq<Event>, k: nat)
    requires 0 < k <= |es|
    ensures JustLeft(es, k) <==> JustLeft(es[1..], k - 1) || (es[0].LeavePrecise? && NoLines(es, 1, k))
    ensures NoLines(es[1..], 0, k - 1) <==> NoLines(es, 1, k)
    ensures NoLines(es, 0, k) <==> !es[0].LineEvent? && NoLines(es, 1, k)
  {
    var rest := es[1..];
    assert forall i :: 0 < i < k ==> es[i] == rest[i - 1];
    if JustLeft(es, k) {
      var j :| 0 <= j < k && es[j].LeavePrecise? && NoLines(es, j + 1, k);
      if j > 0 {
        assert rest[j - 1].LeavePrecise? && NoLines(rest, j, k - 1);
      }
    }
    if j :| 0 <= j < k - 1 && rest[j].LeavePrecise? && NoLines(rest, j + 1, k - 1) {
      assert es[j + 1].LeavePrecise? && NoLines(es, j + 2, k);
    }
  }

  // ---------- times that later events cannot change ----------

  /** The p-th location of the block is, or will be, shown at time t: it is the first one after a timestamp. */
  ghost predicate TimeIs(d: Decoded, p: nat, t: int) {
    p < |d.points| && if p < |d.times| then d.times[p] == t else p == |d.times| && d.lastTs == t
  }

  lemma StampKeepsTime(d: Decoded, end: int, p: nat, t: int)
    requires TimeIs(d, p, t)
    ensures p < |StampTimes(d, end)| && StampTimes(d, end)[p] == t
  {
    if |d.times| == p {
      InterpolatedIsEven(d.lastTs, end, |d.points| - |d.times|, 0);
    }
  }

  lemma StepKeepsTime(d: Decoded, i: Instr, p: nat, t: int)
    requires TimeIs(d, p, t)
    ensures TimeIs(Step(d, i), p, t)
  {
    if i.Stamp? {
      StampKeepsTime(d, d.lastTs + i.offset, p, t);
    }
  }

  /** From r to r', blocks are only appended; the block that was current keeps its start and its known times. */
  ghost predicate Extends(r: Rec, r': Rec) {
    && r.written <= r'.written
    && var b := AllBlocks(r')[|r.written|];
    && b.timestamp == r.block.timestamp
    && forall p, t :: TimeIs(RunBlock(r.block), p, t) ==> TimeIs(RunBlock(b), p, t)
  }

  lemma ExtendsTwice(a: Rec, b: Rec, c: Rec)
    requires Extends(a, b) && Extends(b, c)
    ensures Extends(a, c)
  {
    if |a.written| < |b.written| {
      assert AllBlocks(c)[|a.written|] == AllBlocks(b)[|a.written|];
    }
  }

  lemma RoomExtends(size: nat, r: Rec, n: nat, clock: nat)
    ensures Extends(r, EnsureRoom(size, r, n, clock))
  {
    hide RunBlock;
  }

  lemma EmitExtends(r: Rec, i: Instr)
    ensures Extends(r, Emit(r, i))
  {
    var b := Emit(r, i).block;
    assert Begin(b) == Begin(r.block);
    RunAppend(Begin(r.block), r.block.code, i);
    forall p, t | TimeIs(RunBlock(r.block), p, t)
      ensures TimeIs(RunBlock(b), p, t)
    {
      StepKeepsTime(RunBlock(r.block), i, p, t);
    }
  }

  // same blocks, up to the saved minimum
  lemma SameExtends(r: Rec, a: Rec, b: Rec)
    requires Extends(r, a) && b.written == a.written
    requires b.block == a.block || exists depth :: b.block == LowerTo(a.block, depth)
    ensures Extends(r, b)
  {
    if b.block != a.block {
      var depth :| b.block == LowerTo(a.block, depth);
      LowerToRuns(a.block, depth);
    }
  }

  lemma StripExtends(r: Rec)
    requires EndsWithCall(r.block.code)
    ensures Extends(r, r.(block := r.block.(code := DropLast(r.block.code))))
  {
    var b := r.block.(code := DropLast(r.block.code));
    assert b.code + [Last(r.block.code)] == r.block.code && Begin(b) == Begin(r.block);
    RunAppend(Begin(b), b.code, Last(r.block.code));
  }

  lemma StampExtends(size: nat, r: Rec, clock: nat, stampClock: nat)
    ensures Extends(r, RecordTimestamp(size, r, clock, stampClock))
  {
    hide Extends;
    var r1 := EnsureRoom(size, r, 5, clock);
    var r2 := MarkTime(r1, stampClock);
    RoomExtends(size, r, 5, clock);
    EmitExtends(r1, Stamp(r2.last - r1.last));
    ExtendsTwice(r, r1, Emit(r1, Stamp(r2.last - r1.last)));
    SameExtends(r, Emit(r1, Stamp(r2.last - r1.last)), r2);
  }

  lemma EmitOneExtends(size: nat, r: Rec, n: nat, clock: nat, i: Instr, r': Rec)
    requires var r0 := Emit(EnsureRoom(size, r, n, clock), i);
             r'.written == r0.written && (r'.block == r0.block || exists depth :: r'.block == LowerTo(r0.block, depth))
    ensures Extends(r, r')
  {
    hide Extends;
    var r1 := EnsureRoom(size, r, n, clock);
    RoomExtends(size, r, n, clock);
    EmitExtends(r1, i);
    ExtendsTwice(r, r1, Emit(r1, i));
    SameExtends(r, Emit(r1, i), r');
  }

  lemma ExtendsFrom(r0: Rec, r: Rec, r': Rec)
    requires r0.written == r.written && r0.block == r.block
    ensures Extends(r0, r') == Extends(r, r')
  {
  }

  lemma ReturnExtends(size: nat, r: Rec, clock: nat)
    requires r.stack != []
    ensures Extends(r, OnReturn(size, r, clock))
  {
    hide Extends, EnsureRoom, LowerTo;
    var r' := OnReturn(size, r, clock);
    if EndsWithCall(r.block.code) {
      StripExtends(r);
      SameExtends(r, r.(block := r.block.(code := DropLast(r.block.code))), r');
    } else {
      EmitOneExtends(size, r, 1, clock, Ret, r');
    }
  }

  lemma LineExtends(size: nat, r: Rec, n: Word, clock: nat, stampClock: nat, lineClock: nat)
    requires r.stack != []
    ensures Extends(r, OnLine(size, r, n, clock, stampClock, lineClock))
  {
    hide Extends, EnsureRoom, LowerTo, MarkTime;
    var r' := OnLine(size, r, n, clock, stampClock, lineClock);
    var r1 := r;
    NothingExtends(r);
    if r.precise || r.requested {
      StampExtends(size, r, clock, stampClock);
      r1 := RecordTimestamp(size, r, clock, stampClock).(requested := false);
      SameExtends(r, RecordTimestamp(size, r, clock, stampClock), r1);
    }
    if n != r1.cur {
      EmitOneExtends(size, r1, 1, lineClock, Line(n), r');
      ExtendsTwice(r, r1, r');
    }
  }

  lemma NothingExtends(r: Rec)
    ensures Extends(r, r)
  {
  }

  lemma EventExtends(size: nat, r: Rec, e: Event)
    requires e.ReturnEvent? || e.LineEvent? ==> r.stack != []
    ensures Extends(r, OnEvent(size, r, e))
  {
    hide Extends, OnReturn, OnLine, EnsureRoom, LowerTo;
    var r' := OnEvent(size, r, e);
    match e
    case CallEvent(f, c) =>
      var cur := if r.stack == [] || Last(r.stack).fileId != f then LINENO_UNDEFINED else r.cur;
      var r0 := r.(cur := cur);
      EmitOneExtends(size, r0, 2, c, Call(f), r');
      ExtendsFrom(r0, r, r');
    case ReturnEvent(c) => ReturnExtends(size, r, c);
    case LineEvent(n, c, sc, lc) => LineExtends(size, r, n, c, sc, lc);
    case _ =>
      NothingExtends(r);
      SameExtends(r, r, r');
  }

  lemma {:induction false} RunExtends(size: nat, limit: nat, r: Rec, s: Source, es: seq<Event>)
    requires ValidRun(limit, s, es) && FileIds(r.stack) == s.files
    ensures Extends(r, Record(size, limit, r, s, es))
    decreases es
  {
    hide Extends, OnEvent, SourceStep;
    if es == [] {
      NothingExtends(r);
    } else {
      SameFiles(size, limit, r, s, es[0]);
      var r1, s1 := OnEvent(size, r, es[0]), SourceStep(s, es[0]);
      EventExtends(size, r, es[0]);
      RunExtends(size, limit, r1, s1, es[1..]);
      ExtendsTwice(r, r1, Record(size, limit, r1, s1, es[1..]));
    }
  }

  // ---------- readings that never decrease ----------

  ghost predicate InOrder(low: nat, es: seq<Event>)
    decreases es
  {
    es == [] ||
    match es[0]
    case CallEvent(_, c) => low <= c && InOrder(c, es[1..])
    case ReturnEvent(c) => low <= c && InOrder(c, es[1..])
    case LineEvent(_, c, sc, lc) => low <= c <= sc <= lc && InOrder(lc, es[1..])
    case _ => InOrder(low, es[1..])
  }

  /** The last reading given for an event. */
  function LastReading(low: nat, e: Event): nat {
    match e
    case CallEvent(_, c) => c
    case ReturnEvent(c) => c
    case LineEvent(_, _, _, lc) => lc
    case _ => low
  }

  lemma TimeIsBehind(size: nat, r: Rec, e: Event, es: seq<Event>, low: nat)
    requires e.ReturnEvent? || e.LineEvent? ==> r.stack != []
    requires r.last <= low && InOrder(low, [e] + es)
    ensures OnEvent(size, r, e).last <= LastReading(low, e) && InOrder(LastReading(low, e), es)
  {
    hide OnEvent;
    assert ([e] + es)[1..] == es;
    EventClock(size, r, e);
  }

  /** Every location has its time. */
  ghost predicate NoneOpen(b: Block) {
    |RunBlock(b).times| == |RunBlock(b).points|
  }

  lemma StampLeavesNoneOpen(size: nat, r: Rec, clock: nat, stampClock: nat)
    ensures NoneOpen(RecordTimestamp(size, r, clock, stampClock).block)
  {
    var r1 := EnsureRoom(size, r, 5, clock);
    var r2 := MarkTime(r1, stampClock);
    assert Begin(r2.block) == Begin(r1.block);
    RunAppend(Begin(r1.block), r1.block.code, Stamp(r2.last - r1.last));
    RunTimesInOrder(Begin(r1.block), r1.block.code);
  }

  lemma NewBlockHasNoneOpen(size: nat, r: Rec, n: nat, clock: nat)
    requires NoneOpen(r.block)
    ensures NoneOpen(EnsureRoom(size, r, n, clock).block)
  {
  }

  lemma LineIsFirst(r: Rec, n: Word)
    requires NoneOpen(r.block) && r.stack != []
    requires RunBlock(r.block).files != [] && RunBlock(r.block).lastTs == r.last
    ensures var d := RunBlock(MoveTo(r, n).block); d.points != [] && TimeIs(d, |d.points| - 1, r.last)
  {
    var b := MoveTo(r, n).block;
    assert Begin(b) == Begin(r.block);
    RunAppend(Begin(r.block), r.block.code, Line(n));
  }

  /** A line with a timestamp: its location is the first one after that, or after the start of a new block. */
  lemma LineIsTimed(size: nat, r: Rec, n: Word, clock: nat, stampClock: nat, lineClock: nat)
    requires Inv(size, r) && r.stack != [] && 0 < n < TIMESTAMP && n != r.cur && (r.precise || r.requested)
    requires clock < STAMP_LIMIT && stampClock < STAMP_LIMIT && lineClock < STAMP_LIMIT
    ensures var r' := OnLine(size, r, n, clock, stampClock, lineClock); var d := RunBlock(r'.block);
            && d.points != [] && TimeIs(d, |d.points| - 1, r'.last)
            && |BlocksPoints(r'.written)| + |d.points| == |PointsSoFar(r.written, r.block)| + 1
  {
    hide BlocksOk, CallsKeepFile, StackOk, RunBlock, BlocksPoints, NoneOpen, TimeIs, HasRoom;
    LineKeeps(size, r, n, clock, stampClock, lineClock);
    var r0 := RecordTimestamp(size, r, clock, stampClock);
    RecordTimestampKeeps(size, r, clock, stampClock);
    StampLeavesNoneOpen(size, r, clock, stampClock);
    hide RecordTimestamp;
    var r1 := r0.(requested := false);
    var r2 := EnsureRoom(size, r1, 1, lineClock);
    EnsureRoomKeeps(size, r1, 1, lineClock);
    NewBlockHasNoneOpen(size, r1, 1, lineClock);
    LineIsFirst(r2, n);
  }

  // ---------- when lines of precise sections are shown ----------

  /** Location j of the trace is, or will be, shown at time t. */
  ghost predicate ShownAt(bs: seq<Block>, j: nat, t: int) {
    exists b: nat, p: nat :: ShownIn(bs, b, p, j, t)
  }

  ghost predicate ShownIn(bs: seq<Block>, b: nat, p: nat, j: nat, t: int) {
    b < |bs| && |BlocksPoints(bs[..b])| + p == j && TimeIs(RunBlock(bs[b]), p, t)
  }

  lemma ShownLater(r: Rec, r': Rec, j: nat, t: int)
    requires ShownAt(AllBlocks(r), j, t) && Extends(r, r')
    ensures ShownAt(AllBlocks(r'), j, t)
  {
    var b: nat, p: nat :| ShownIn(AllBlocks(r), b, p, j, t);
    assert AllBlocks(r)[..b] == AllBlocks(r')[..b];
    if b < |r.written| {
      assert AllBlocks(r)[b] == AllBlocks(r')[b];
    }
    assert ShownIn(AllBlocks(r'), b, p, j, t);
  }

  lemma EventIsTimed(size: nat, r: Rec, s: Source, e: Event)
    requires Inv(size, r) && Agrees(r, s) && ValidEvent(|s.files|, s.files, e) && e.LineEvent?
    requires e.lineno != s.cur && (r.precise || r.requested)
    ensures var r' := OnEvent(size, r, e); ShownAt(AllBlocks(r'), |s.points|, r'.last)
  {
    hide Inv, BlocksPoints, TimeIs, OnLine, RunBlock;
    LineIsTimed(size, r, e.lineno, e.clock, e.stampClock, e.lineClock);
    var r' := OnEvent(size, r, e);
    var d, b := RunBlock(r'.block), |r'.written|;
    assert AllBlocks(r')[..b] == r'.written;
    assert ShownIn(AllBlocks(r'), b, |d.points| - 1, |s.points|, r'.last);
  }

  lemma {:induction false} RunTimesLine(size: nat, limit: nat, r: Rec, s: Source, es: seq<Event>, k: nat)
    requires Inv(size, r) && Agrees(r, s) && DepthFits(size, limit) && ValidRun(limit, s, es)
    requires k < |es| && es[k].LineEvent? && es[k].lineno != SourceAt(limit, s, es, k).cur
    requires var at := RecAt(size, limit, r, s, es, k); at.precise || at.requested
    ensures var bs, j := AllBlocks(Record(size, limit, r, s, es)), |SourceAt(limit, s, es, k).points|;
            ShownAt(bs, j, RecAt(size, limit, r, s, es, k + 1).last)
    decreases es
  {
    hide Inv, OnEvent, SourceStep, ShownAt, Extends, ValidEvent;
    SameFiles(size, limit, r, s, es[0]);
    var r1, s1 := OnEvent(size, r, es[0]), SourceStep(s, es[0]);
    RunExtends(size, limit, r1, s1, es[1..]);
    if k == 0 {
      LineIsValid(limit, s, es[0]);
      EventIsTimed(size, r, s, es[0]);
      ShownLater(r1, Record(size, limit, r1, s1, es[1..]), |s.points|, r1.last);
    } else {
      EventKeeps(size, limit, r, s, es[0]);
      RunTimesLine(size, limit, r1, s1, es[1..], k - 1);
    }
  }

  lemma LineIsValid(limit: nat, s: Source, e: Event)
    requires ValidEvent(limit, s.files, e) && e.LineEvent?
    ensures ValidEvent(|s.files|, s.files, e)
  {
  }

  // the times that are known are those of the whole trace
  lemma {:induction false} TraceTimeIs(bs: seq<Block>, end: nat, j: nat, t: int)
    requires ShownAt(bs, j, t)
    ensures |TraceTimes(bs, end)| == |BlocksPoints(bs)| && j < |TraceTimes(bs, end)| && TraceTimes(bs, end)[j] == t
  {
    var b: nat, p: nat :| ShownIn(bs, b, p, j, t);
    TimesOfAll(bs, end);
    TimesOfAll(DropLast(bs), Last(bs).timestamp);
    if b == |bs| - 1 {
      var d := RunBlock(bs[b]);
      StampKeepsTime(d, if end == 0 then d.lastTs else end, p, t);
      assert bs[..b] == DropLast(bs);
    } else {
      assert DropLast(bs)[..b] == bs[..b];
      assert ShownIn(DropLast(bs), b, p, j, t);
      TraceTimeIs(DropLast(bs), Last(bs).timestamp, j, t);
    }
  }

  lemma {:induction false} TimesOfAll(bs: seq<Block>, end: nat)
    ensures |TraceTimes(bs, end)| == |BlocksPoints(bs)|
  {
    if bs != [] {
      TimesOfAll(DropLast(bs), Last(bs).timestamp);
      RunTimesInOrder(Begin(Last(bs)), Last(bs).code);
    }
  }

  lemma {:induction false} PointsGrow(limit: nat, s: Source, es: seq<Event>, k: nat)
    requires ValidRun(limit, s, es) && k < |es| && es[k].LineEvent?
    ensures var at, all := SourceAt(limit, s, es, k), SourceRun(limit, s, es).points;
            && at.files != [] && s.points <= all
            && (es[k].lineno != at.cur ==>
                  |at.points| < |all| && all[|at.points|] == Point(Last(at.files), es[k].lineno, |at.files|))
    decreases es
  {
    var s1 := SourceStep(s, es[0]);
    PointsStay(limit, s1, es[1..]);
    if k > 0 {
      PointsGrow(limit, s1, es[1..], k - 1);
    }
  }

  lemma {:induction false} PointsStay(limit: nat, s: Source, es: seq<Event>)
    requires ValidRun(limit, s, es)
    ensures s.points <= SourceRun(limit, s, es).points
    decreases es
  {
    if es != [] {
      PointsStay(limit, SourceStep(s, es[0]), es[1..]);
    }
  }

  /** The location of a line is there, and shown at this time. */
  ghost predicate ShownOnTime(bs: seq<Block>, at: Source, e: Event, t: int)
    requires e.LineEvent?
  {
    var j, ts := |at.points|, TraceTimes(bs, 0);
    && at.files != [] && j < |BlocksPoints(bs)| == |ts|
    && BlocksPoints(bs)[j] == Point(Last(at.files), e.lineno, |at.files|)
    && ts[j] == t
  }

  /** Each new line of a precise section, and the first line after it, is shown at the time of its own timestamp: the
      largest reading up to then, in all that the recorder ever makes of the run. */
  lemma PreciseLinesAreTimed(
    size: nat, limit: nat, stack: seq<Frame>, clock: nat, es: seq<Event>, k: nat, flushClock: nat, stampClock: nat)
    requires StartOk(size, limit, stack, clock) && ValidRun(limit, SourceStart(stack), es)
    requires k < |es| && es[k].LineEvent? && es[k].lineno != SourceAt(limit, SourceStart(stack), es, k).cur
    requires InSection(es, k) || JustLeft(es, k)
    requires flushClock < STAMP_LIMIT && stampClock < STAMP_LIMIT
    ensures var at, t := SourceAt(limit, SourceStart(stack), es, k), TimeAt(size, limit, stack, clock, es, k + 1);
            var r := Recorded(size, limit, stack, clock, es);
            && ShownOnTime(AllBlocks(r), at, es[k], t)
            && ShownOnTime(Stop(size, r, flushClock, stampClock).written, at, es[k], t)
  {
    hide Inv, RecAt, SourceAt, Record, SourceRun, RecordTimestamp, BlocksPoints, TraceTimes, ShownAt, UsedReadings;
    hide InSection, JustLeft;
    var s, r := SourceStart(stack), Start(stack, clock);
    StartKeeps(size, limit, stack, clock);
    FlagsAt(size, limit, r, s, es, k);
    RunTimesLine(size, limit, r, s, es, k);
    ClockAt(size, limit, r, s, es, k + 1);
    PointsGrow(limit, s, es, k);
    var r1 := Recorded(size, limit, stack, clock, es);
    var r2 := RecordTimestamp(size, r1, flushClock, stampClock);
    BlockSplittingIsInvisible(size, limit, stack, clock, es);
    StoppedTrace(size, limit, stack, clock, es, flushClock, stampClock);
    StampExtends(size, r1, flushClock, stampClock);
    var j, t := |SourceAt(limit, s, es, k).points|, TimeAt(size, limit, stack, clock, es, k + 1);
    ShownLater(r1, r2, j, t);
    TraceTimeIs(AllBlocks(r1), 0, j, t);
    TraceTimeIs(AllBlocks(r2), 0, j, t);
  }

  /** For a clock that never goes back, that is the time at which the line was traced, or at which a block was started
      for it. */
  lemma {:induction false} OnTheClock(
    size: nat, limit: nat, r: Rec, s: Source, es: seq<Event>, k: nat, low: nat)
    requires ValidRun(limit, s, es) && FileIds(r.stack) == s.files && InOrder(low, es) && r.last <= low
    requires k < |es| && es[k].LineEvent?
    requires var at := RecAt(size, limit, r, s, es, k); at.precise || at.requested
    ensures var t := RecAt(size, limit, r, s, es, k + 1).last;
            es[k].stampClock <= t <= es[k].lineClock && (t == es[k].stampClock || t == es[k].lineClock)
    decreases es
  {
    hide OnEvent, SourceStep;
    SameFiles(size, limit, r, s, es[0]);
    var r1, s1 := OnEvent(size, r, es[0]), SourceStep(s, es[0]);
    if k == 0 {
      EventClock(size, r, es[0]);
      StampIsRead(size, r, es[0]);
    } else {
      assert es == [es[0]] + es[1..];
      TimeIsBehind(size, r, es[0], es[1..], low);
      OnTheClock(size, limit, r1, s1, es[1..], k - 1, LastReading(low, es[0]));
    }
  }

  lemma StampIsRead(size: nat, r: Rec, e: Event)
    requires e.LineEvent? && (r.precise || r.requested)
    ensures e.stampClock in Readings(size, r, e)
    ensures forall x :: x in Readings(size, r, e) ==> x == e.clock || x == e.stampClock || x == e.lineClock
  {
  }

  lemma PreciseLinesAreOnTime(
    size: nat, limit: nat, stack: seq<Frame>, clock: nat, es: seq<Event>, k: nat)
    requires ValidRun(limit, SourceStart(stack), es) && InOrder(clock, es)
    requires k < |es| && es[k].LineEvent? && (InSection(es, k) || JustLeft(es, k))
    ensures var t := TimeAt(size, limit, stack, clock, es, k + 1);
            es[k].stampClock <= t <= es[k].lineClock && (t == es[k].stampClock || t == es[k].lineClock)
  {
    hide RecAt, UsedReadings, InOrder, InSection, JustLeft;
    var s, r := SourceStart(stack), Start(stack, clock);
    FlagsAt(size, limit, r, s, es, k);
    ClockAt(size, limit, r, s, es, k + 1);
    OnTheClock(size, limit, r, s, es, k, clock);
  }

  // ---------- when blocks start ----------

  /** The block starts at the reading made for it while handling the event. */
  ghost predicate StartsWith(b: Block, e: Event) {
    match e
    case CallEvent(_, c) => b.timestamp == c
    case ReturnEvent(c) => b.timestamp == c
    case LineEvent(_, c, _, lc) => b.timestamp == c || b.timestamp == lc
    case _ => false
  }

  lemma RoomStarts(size: nat, r: Rec, n: nat, clock: nat)
    requires r.last <= clock
    ensures var r' := EnsureRoom(size, r, n, clock);
            && r'.last <= clock
            && (r' == r || (r'.written == r.written + [r.block] && r'.block.timestamp == clock))
  {
  }

  lemma EventStarts(size: nat, r: Rec, e: Event, low: nat)
    requires e.ReturnEvent? || e.LineEvent? ==> r.stack != []
    requires r.last <= low && InOrder(low, [e])
    ensures var bs := AllBlocks(OnEvent(size, r, e));
            forall b :: |r.written| < b < |bs| ==> StartsWith(bs[b], e)
  {
    hide EnsureRoom;
    match e
    case CallEvent(f, c) =>
      var cur := if r.stack == [] || Last(r.stack).fileId != f then LINENO_UNDEFINED else r.cur;
      RoomStarts(size, r.(cur := cur), 2, c);
    case ReturnEvent(c) => RoomStarts(size, r, 1, c);
    case LineEvent(n, c, sc, lc) =>
      RoomStarts(size, r, 5, c);
      RoomStarts(size, r, 1, lc);
      RoomStarts(size, RecordTimestamp(size, r, c, sc).(requested := false), 1, lc);
    case _ =>
  }

  /** For a clock that never goes back: block b, started by event k, starts at the time of that event. */
  lemma {:induction false} BlocksStartOnTime(
    size: nat, limit: nat, r: Rec, s: Source, es: seq<Event>, k: nat, b: nat, low: nat)
    requires ValidRun(limit, s, es) && FileIds(r.stack) == s.files && InOrder(low, es) && r.last <= low
    requires k < |es|
    requires |RecAt(size, limit, r, s, es, k).written| < b <= |RecAt(size, limit, r, s, es, k + 1).written|
    ensures var bs := AllBlocks(Record(size, limit, r, s, es));
            b < |bs| && StartsWith(bs[b], es[k])
    decreases es
  {
    hide OnEvent, SourceStep, StartsWith;
    SameFiles(size, limit, r, s, es[0]);
    var r1, s1 := OnEvent(size, r, es[0]), SourceStep(s, es[0]);
    assert es == [es[0]] + es[1..];
    TimeIsBehind(size, r, es[0], es[1..], low);
    if k == 0 {
      FirstInOrder(low, es);
      EventStarts(size, r, es[0], low);
      RunExtends(size, limit, r1, s1, es[1..]);
      SameStart(r1, Record(size, limit, r1, s1, es[1..]), b, es[0]);
    } else {
      BlocksStartOnTime(size, limit, r1, s1, es[1..], k - 1, b, LastReading(low, es[0]));
    }
  }

  lemma FirstInOrder(low: nat, es: seq<Event>)
    requires es != [] && InOrder(low, es)
    ensures InOrder(low, [es[0]])
  {
  }

  lemma SameStart(r: Rec, r': Rec, b: nat, e: Event)
    requires Extends(r, r') && b <= |r.written| && StartsWith(AllBlocks(r)[b], e)
    ensures b < |AllBlocks(r')| && StartsWith(AllBlocks(r')[b], e)
  {
    if b < |r.written| {
      assert AllBlocks(r')[b] == AllBlocks(r)[b];
    }
  }

  // ---------- when blocks end ----------

  /** There is no room left for a timestamp and an END. */
  ghost predicate IsFull(size: nat, b: Block) {
    |Encode(b.code)| + 6 > size - (2 * |b.snapshot| + 1)
  }

  ghost predicate AllFull(size: nat, bs: seq<Block>) {
    forall k :: 0 <= k < |bs| ==> IsFull(size, bs[k])
  }

  lemma RoomFills(size: nat, r: Rec, n: nat, clock: nat)
    requires n <= 5 && AllFull(size, r.written)
    ensures AllFull(size, EnsureRoom(size, r, n, clock).written)
  {
  }

  lemma EventFills(size: nat, r: Rec, e: Event)
    requires e.ReturnEvent? || e.LineEvent? ==> r.stack != []
    requires AllFull(size, r.written)
    ensures AllFull(size, OnEvent(size, r, e).written)
  {
    hide AllFull, EnsureRoom;
    match e
    case CallEvent(f, c) =>
      var cur := if r.stack == [] || Last(r.stack).fileId != f then LINENO_UNDEFINED else r.cur;
      RoomFills(size, r.(cur := cur), 2, c);
    case ReturnEvent(c) => RoomFills(size, r, 1, c);
    case LineEvent(n, c, sc, lc) =>
      RoomFills(size, r, 5, c);
      RoomFills(size, r, 1, lc);
      RoomFills(size, RecordTimestamp(size, r, c, sc).(requested := false), 1, lc);
    case _ =>
  }

  /** A recorder only starts a block when the current one is full, but for a few words. */
  lemma {:induction false} BlocksAreFull(size: nat, limit: nat, r: Rec, s: Source, es: seq<Event>)
    requires ValidRun(limit, s, es) && FileIds(r.stack) == s.files && AllFull(size, r.written)
    ensures AllFull(size, Record(size, limit, r, s, es).written)
    decreases es
  {
    hide AllFull, OnEvent, SourceStep;
    if es != [] {
      SameFiles(size, limit, r, s, es[0]);
      EventFills(size, r, es[0]);
      BlocksAreFull(size, limit, OnEvent(size, r, es[0]), SourceStep(s, es[0]), es[1..]);
    }
  }
}
