/**
 The recorder as the program runs it: arrays updated in place and blocks appended to files
 (trackexec/tools.py, trackexec/recorder.py). Each method is proved to do what the functions of
 RecorderModel say, so that the properties proved there hold of the files it leaves behind.
 */
module Recorder {
  import opened Wrappers
  import opened TraceFormat
  import opened TraceModel
  import opened RecorderModel
  import opened LogFiles

  class Uint16Stack {
    const data: array<Word>
    var level: nat

    ghost predicate Valid()
      reads this
    {
      level <= data.Length
    }

    function View(): seq<Word>
      requires Valid()
      reads this, data
    {
      data[..level]
    }

    constructor (size: nat)
      ensures Valid() && fresh(data) && data.Length == size && View() == []
    {
      data := new Word[size];
      level := 0;
    }

    method Add(v: Word)
      requires Valid() && level < data.Length
      modifies this, data
      ensures Valid() && View() == old(View()) + [v]
    {
      data[level] := v;
      level := level + 1;
    }

    method Pop() returns (v: Word)
      requires Valid() && level > 0
      modifies this
      ensures Valid() && old(View()) == View() + [v]
    {
      level := level - 1;
      v := data[level];
    }

    method Pad(v: Word, size: nat)
      requires Valid() && level <= size <= data.Length
      modifies this, data
      ensures Valid() && View() == old(View()) + seq(size - old(level), _ => v)
    {
      forall i | level <= i < size {
        data[i] := v;
      }
      level := size;
    }

    method Reset()
      modifies this
      ensures Valid() && View() == []
    {
      level := 0;
    }
  }

  /** The part of the recorder's invariant that its arrays and opcode tests rely on. */
  ghost predicate InRange(size: nat, r: Rec) {
    DepthFits(size, |r.stack|) && HasRoom(size, r.block, 0) && ValidCode(r.block.code) && r.last < STAMP_LIMIT
  }

  lemma StripWords(code: seq<Instr>)
    requires EndsWithCall(code) && ValidCode(code)
    ensures |Encode(code)| == |Encode(DropLast(code))| + 2
    ensures Encode(code)[..|Encode(code)| - 2] == Encode(DropLast(code))
    ensures ValidCode(DropLast(code))
  {
  }

  class TrackExecRecorder {
    const size: nat
    const stack: array<Frame>
    const bytecode: Uint16Stack
    var stackSize: nat
    var blockStack: seq<Frame>  // the stack saved in the current block
    var maxBytecodeLen: nat
    var blockTimestamp: nat
    var minStackSize: nat
    var lastTimestamp: nat
    var timestampRequested: bool
    var ptSection: bool
    var currentLineno: Word
    var logMapNum: nat
    var log: Log

    ghost var model: Rec

    ghost function Repr(): set<object>
      reads this
    {
      {this, stack, bytecode, bytecode.data}
    }

    /** The fields hold the model's values. */
    ghost predicate Holds()
      reads Repr()
    {
      && bytecode.Valid() && bytecode.data.Length == size && stack.Length == size
      && stackSize <= size && stack[..stackSize] == model.stack
      && bytecode.View() == Encode(model.block.code)
      && blockStack == model.block.snapshot
      && maxBytecodeLen as int == Capacity(size, |blockStack|)
      && blockTimestamp == model.block.timestamp
      && minStackSize == model.block.minStack
      && lastTimestamp == model.last
      && timestampRequested == model.requested && ptSection == model.precise
      && currentLineno == model.cur
    }

    /** The files hold the blocks written so far. */
    ghost predicate FilesHold()
      reads this
    {
      Stored(size, log, model.written) && OpenFile(log, |model.written|, logMapNum)
    }

    ghost predicate Valid()
      reads Repr()
    {
      0 < size <= 0x1_0000 && InRange(size, model) && Holds() && FilesHold()
    }

    // start(): the frames of the calling code are on the stack, and the first block is opened
    constructor (size: nat, limit: nat, frames: seq<Frame>, clock: nat)
      requires size <= 0x1_0000 && StartOk(size, limit, frames, clock)
      ensures Valid() && fresh(Repr()) && this.size == size && model == Start(frames, clock)
    {
      this.size := size;
      stack := new Frame[size](i => if 0 <= i < |frames| then frames[i] else Frame(0, 0));
      bytecode := new Uint16Stack(size);
      stackSize := |frames|;
      currentLineno := if frames == [] then LINENO_UNDEFINED else Last(frames).lineno;
      blockStack := frames;
      maxBytecodeLen := size - (2 * |frames| + 1);
      blockTimestamp, lastTimestamp := clock, clock;
      minStackSize := |frames|;
      timestampRequested, ptSection := false, false;
      logMapNum, log := 0, Log(map[], map[], []);
      model := Start(frames, clock);
      new;
      assert stack[..stackSize] == frames;
    }

    method InitBlock(clock: nat)
      requires bytecode.Valid() && stackSize <= stack.Length == size && 2 * stackSize + 1 <= size
      modifies this, bytecode
      ensures bytecode.Valid() && bytecode.View() == []
      ensures unchanged(`stackSize, `timestampRequested, `ptSection, `currentLineno, `logMapNum, `log, `model)
      ensures lastTimestamp == (if clock > old(lastTimestamp) then clock else old(lastTimestamp))
      ensures blockTimestamp == lastTimestamp && minStackSize == stackSize
      ensures blockStack == stack[..stackSize] && maxBytecodeLen == size - (2 * stackSize + 1)
    {
      if clock > lastTimestamp {
        lastTimestamp := clock;
      }
      blockTimestamp := lastTimestamp;
      minStackSize := stackSize;
      blockStack := stack[..stackSize];
      maxBytecodeLen := size - (2 * stackSize + 1);
      bytecode.Reset();
    }

    /** Appends the padded block to its map file, and its entry to the index. */
    method WriteBlock(force: bool)
      requires Valid()
      modifies this, bytecode, bytecode.data
      ensures Stored(size, log, old(model).written + [old(model).block])
      ensures !force ==> OpenFile(log, |old(model).written| + 1, logMapNum)
      ensures bytecode.Valid()
      ensures unchanged(`stackSize, `blockStack, `maxBytecodeLen, `blockTimestamp, `minStackSize, `lastTimestamp,
                        `timestampRequested, `ptSection, `currentLineno, `model)
    {
      var b := model.block;
      bytecode.Pad(END, maxBytecodeLen);
      assert bytecode.View() == PaddedCode(size, b);
      var ws := [|blockStack|] + StackWords(blockStack) + bytecode.View();
      assert ws == BlockWords(size, b);
      var entry := IndexEntry(blockTimestamp, minStackSize);
      var (log', num') := WriteBlockTo(size, log, logMapNum, ws, entry, force);
      WriteKeeps(size, log, model.written, b, logMapNum, force);
      log, logMapNum := log', num';
    }

    method EnsureBlockHasRoom(numCodes: nat, clock: nat)
      requires Valid() && numCodes <= 5 && clock < STAMP_LIMIT
      modifies this, bytecode, bytecode.data
      ensures Valid() && model == EnsureRoom(size, old(model), numCodes, clock)
      ensures HasRoom(size, model.block, numCodes)
    {
      if bytecode.level + numCodes + 1 > maxBytecodeLen {
        WriteBlock(false);
        InitBlock(clock);
        model := RecorderModel.InitBlock(RecorderModel.WriteBlock(model), clock);
      }
    }

    // ---------- adding one instruction to the bytecode ----------

    method EmitCall(fileId: Word)
      requires Valid() && fileId < TIMESTAMP && HasRoom(size, model.block, 2)
      modifies this, bytecode, bytecode.data
      ensures Valid() && model == Emit(old(model), Call(fileId))
    {
      EncodeAppend(model.block.code, Call(fileId));
      bytecode.Add(CALL);
      bytecode.Add(fileId);
      model := Emit(model, Call(fileId));
    }

    method EmitReturn()
      requires Valid() && HasRoom(size, model.block, 1)
      modifies this, bytecode, bytecode.data
      ensures Valid() && model == Emit(old(model), Ret)
    {
      EncodeAppend(model.block.code, Ret);
      bytecode.Add(RETURN);
      model := Emit(model, Ret);
    }

    method EmitLine(lineno: Word)
      requires Valid() && 0 < lineno < TIMESTAMP && HasRoom(size, model.block, 1)
      modifies this, bytecode, bytecode.data
      ensures Valid() && model == Emit(old(model), Line(lineno))
    {
      EncodeAppend(model.block.code, Line(lineno));
      bytecode.Add(lineno);
      model := Emit(model, Line(lineno));
    }

    method EmitTimestamp(offset: nat)
      requires Valid() && offset < STAMP_LIMIT && HasRoom(size, model.block, 5)
      modifies this, bytecode, bytecode.data
      ensures Valid() && model == Emit(old(model), Stamp(offset))
    {
      EncodeAppend(model.block.code, Stamp(offset));
      ghost var before := bytecode.View();
      bytecode.Add(TIMESTAMP);
      AddDigits(bytecode, offset, 4);
      Associative(before, [TIMESTAMP], StampWords(offset));
      model := Emit(model, Stamp(offset));
    }

    /** Drops the two words of a CALL. */
    method StripCall()
      requires Valid() && EndsWithCall(model.block.code)
      modifies this, bytecode
      ensures Valid() && model == old(model).(block := old(model).block.(code := DropLast(old(model).block.code)))
    {
      ghost var code := model.block.code;
      StripWords(code);
      var _ := bytecode.Pop();
      var _ := bytecode.Pop();
      assert bytecode.View() == Encode(DropLast(code));
      model := model.(block := model.block.(code := DropLast(code)));
    }

    // ---------- the stack ----------

    method PushFrame(fileId: Word)
      requires Valid() && DepthFits(size, stackSize + 1)
      modifies this, stack
      ensures Valid() && model == old(model).(stack := old(model).stack + [Frame(fileId, old(model).cur)])
    {
      stack[stackSize] := Frame(fileId, currentLineno);
      stackSize := stackSize + 1;
      model := model.(stack := model.stack + [Frame(fileId, currentLineno)]);
    }

    method PopFrame()
      requires Valid() && stackSize > 0
      modifies this
      ensures Valid() && model == Unwind(old(model))
    {
      stackSize := stackSize - 1;
      if stackSize < minStackSize {
        minStackSize := stackSize;
      }
      model := Unwind(model);
    }

    method SetTopLineno(lineno: Word)
      requires Valid() && stackSize > 0
      modifies this, stack
      ensures Valid() && old(model).stack != []
      ensures model == old(model).(
                stack := old(model).stack[|old(model).stack| - 1 := Last(old(model).stack).(lineno := lineno)])
    {
      stack[stackSize - 1] := stack[stackSize - 1].(lineno := lineno);
      model := model.(stack := model.stack[|model.stack| - 1 := Last(model.stack).(lineno := lineno)]);
    }

    method TopIsOtherFile(fileId: Word) returns (other: bool)
      requires Valid()
      ensures other <==> model.stack == [] || Last(model.stack).fileId != fileId
    {
      assert stackSize > 0 ==> stack[..stackSize][stackSize - 1] == stack[stackSize - 1];
      other := stackSize == 0 || stack[stackSize - 1].fileId != fileId;
    }

    method TopTwoInSameFile() returns (same: bool)
      requires Valid()
      ensures same <==> SameFileAt(model.stack, |model.stack| - 1)
    {
      same := stackSize >= 2 && stack[stackSize - 2].fileId == stack[stackSize - 1].fileId;
    }

    /** The peephole test: the word before the last one is a CALL. */
    method EndsWithCallOpcode() returns (strippable: bool)
      requires Valid()
      ensures strippable <==> EndsWithCall(model.block.code)
    {
      var level := bytecode.level;
      CallIsVisible(model.block.code);
      strippable := level >= 2 && bytecode.data[level - 2] == CALL;
    }

    // ---------- the other fields ----------

    method SetCurrentLineno(lineno: Word)
      requires Valid()
      modifies this
      ensures Valid() && model == old(model).(cur := lineno)
    {
      currentLineno := lineno;
      model := model.(cur := lineno);
    }

    method SetLastTimestamp(ts: nat)
      requires Valid() && ts < STAMP_LIMIT
      modifies this
      ensures Valid() && model == old(model).(last := ts)
    {
      lastTimestamp := ts;
      model := model.(last := ts);
    }

    method ClearRequest()
      requires Valid()
      modifies this
      ensures Valid() && model == old(model).(requested := false)
    {
      timestampRequested := false;
      model := model.(requested := false);
    }

    // ---------- events ----------

    method RecordTimestamp(clock: nat, stampClock: nat)
      requires Valid() && clock < STAMP_LIMIT && stampClock < STAMP_LIMIT
      modifies this, bytecode, bytecode.data
      ensures Valid() && model == RecorderModel.RecordTimestamp(size, old(model), clock, stampClock)
    {
      EnsureBlockHasRoom(5, clock);
      MarkTime(stampClock);
    }

    method MarkTime(stampClock: nat)
      requires Valid() && stampClock < STAMP_LIMIT && HasRoom(size, model.block, 5)
      modifies this, bytecode, bytecode.data
      ensures Valid() && model == RecorderModel.MarkTime(old(model), stampClock)
    {
      var ts := stampClock;
      if ts < lastTimestamp {
        ts := lastTimestamp;
      }
      EmitTimestamp(ts - lastTimestamp);
      SetLastTimestamp(ts);
    }

    method TraceCallFunction(fileId: Word, clock: nat)
      requires Valid() && fileId < TIMESTAMP && DepthFits(size, stackSize + 1) && clock < STAMP_LIMIT
      modifies Repr()
      ensures Valid() && model == OnCall(size, old(model), fileId, clock)
    {
      var otherFile := TopIsOtherFile(fileId);
      if otherFile {
        SetCurrentLineno(LINENO_UNDEFINED);
      }
      EnsureBlockHasRoom(2, clock);
      EmitCall(fileId);
      PushFrame(fileId);
    }

    method TraceReturn(clock: nat)
      requires Valid() && stackSize > 0 && clock < STAMP_LIMIT
      modifies this, bytecode, bytecode.data
      ensures Valid() && model == OnReturn(size, old(model), clock)
    {
      var strippable := EndsWithCallOpcode();
      if strippable {
        StripCall();
      } else {
        RecordReturn(clock);
      }
      PopFrame();
    }

    method RecordReturn(clock: nat)
      requires Valid() && stackSize > 0 && clock < STAMP_LIMIT
      modifies this, bytecode, bytecode.data
      ensures Valid()
      ensures var r0 := Emit(EnsureRoom(size, old(model), 1, clock), Ret);
              model == if SameFileAt(old(model).stack, |old(model).stack| - 1) then r0
                       else r0.(cur := LINENO_UNDEFINED)
    {
      EnsureBlockHasRoom(1, clock);
      EmitReturn();
      var sameFile := TopTwoInSameFile();
      if !sameFile {
        SetCurrentLineno(LINENO_UNDEFINED);
      }
    }

    method TraceLine(lineno: Word, clock: nat, stampClock: nat, lineClock: nat)
      requires Valid() && stackSize > 0 && 0 < lineno < TIMESTAMP
      requires clock < STAMP_LIMIT && stampClock < STAMP_LIMIT && lineClock < STAMP_LIMIT
      modifies Repr()
      ensures Valid() && model == OnLine(size, old(model), lineno, clock, stampClock, lineClock)
    {
      if ptSection || timestampRequested {
        RecordTimestamp(clock, stampClock);
        ClearRequest();
      }
      if lineno != currentLineno {
        EnsureBlockHasRoom(1, lineClock);
        MoveTo(lineno);
      }
    }

    method MoveTo(lineno: Word)
      requires Valid() && stackSize > 0 && 0 < lineno < TIMESTAMP && HasRoom(size, model.block, 1)
      modifies Repr()
      ensures Valid() && model == RecorderModel.MoveTo(old(model), lineno)
    {
      EmitLine(lineno);
      SetTopLineno(lineno);
      SetCurrentLineno(lineno);
    }

    method Enter()
      requires Valid()
      modifies this
      ensures Valid() && model == OnEvent(size, old(model), EnterPrecise)
    {
      ptSection := true;
      model := model.(precise := true);
    }

    method Exit()
      requires Valid()
      modifies this
      ensures Valid() && model == OnEvent(size, old(model), LeavePrecise)
    {
      timestampRequested, ptSection := true, false;
      model := model.(precise := false, requested := true);
    }

    /** Records a final timestamp and flushes: the files then hold every block. */
    method Stop(clock: nat, stampClock: nat)
      requires Valid() && clock < STAMP_LIMIT && stampClock < STAMP_LIMIT
      modifies Repr()
      ensures Stored(size, log, RecorderModel.Stop(size, old(model), clock, stampClock).written)
    {
      RecordTimestamp(clock, stampClock);
      WriteBlock(true);
    }
  }

  lemma DigitsStep(prefix: seq<Word>, rest: nat, n: nat)
    requires n > 0
    ensures prefix + Digits(rest, n) == (prefix + [rest % 0x8000 + 1]) + Digits(rest / 0x8000, n - 1)
  {
  }

  method AddDigits(bytecode: Uint16Stack, offset: nat, n: nat)
    requires bytecode.Valid() && bytecode.level + n <= bytecode.data.Length
    modifies bytecode, bytecode.data
    ensures bytecode.Valid() && bytecode.View() == old(bytecode.View()) + Digits(offset, n)
  {
    ghost var start := bytecode.View();
    var rest: nat := offset;
    for k := 0 to n
      invariant bytecode.Valid() && bytecode.level == |start| + k
      invariant bytecode.View() + Digits(rest, n - k) == start + Digits(offset, n)
    {
      DigitsStep(bytecode.View(), rest, n - k);
      bytecode.Add(rest % 0x8000 + 1);
      rest := rest / 0x8000;
    }
    assert bytecode.View() + [] == bytecode.View();
  }

  /** A whole recording, from the first frame to the flush of the last block. */
  method RecordTrace(
    size: nat, limit: nat, frames: seq<Frame>, clock: nat, es: seq<Event>, flushClock: nat, stampClock: nat)
    returns (log: Log)
    requires size <= 0x1_0000 && StartOk(size, limit, frames, clock) && ValidRun(limit, SourceStart(frames), es)
    requires flushClock < STAMP_LIMIT && stampClock < STAMP_LIMIT
    ensures Stored(size, log, Stop(size, Recorded(size, limit, frames, clock, es), flushClock, stampClock).written)
  {
    var rec := new TrackExecRecorder(size, limit, frames, clock);
    ghost var s := SourceStart(frames);
    for k := 0 to |es|
      invariant rec.Valid() && fresh(rec.Repr()) && rec.size == size
      invariant ValidRun(limit, s, es[k..]) && |s.files| <= limit && FileIds(rec.model.stack) == s.files
      invariant Record(size, limit, rec.model, s, es[k..]) == Recorded(size, limit, frames, clock, es)
    {
      assert es[k..][0] == es[k] && es[k..][1..] == es[k + 1..];
      HandleEvent(rec, limit, s, es[k]);
      s := SourceStep(s, es[k]);
    }
    rec.Stop(flushClock, stampClock);
    log := rec.log;
  }

  method HandleEvent(rec: TrackExecRecorder, ghost limit: nat, ghost s: Source, e: Event)
    requires rec.Valid() && DepthFits(rec.size, limit) && ValidEvent(limit, s.files, e)
    requires FileIds(rec.model.stack) == s.files && |s.files| <= limit
    modifies rec.Repr()
    ensures rec.Valid() && rec.model == OnEvent(rec.size, old(rec.model), e)
  {
    match e
    case CallEvent(f, c) => rec.TraceCallFunction(f, c);
    case ReturnEvent(c) => rec.TraceReturn(c);
    case LineEvent(n, c, sc, lc) => rec.TraceLine(n, c, sc, lc);
    case EnterPrecise => rec.Enter();
    case LeavePrecise => rec.Exit();
  }
}
