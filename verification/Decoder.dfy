/**
 The loops that decode a block into timed locations (trackexec/fast.py).
 */
module Decoder {
  import opened Wrappers
  import opened TraceFormat
  import opened TraceModel

  /** Fills one interval of the timestamps with an even spread from lastTs to newTs. */
  method ApplyLinearTimestamps(lastTs: int, newTs: int, times: array<int>, start: nat, end: nat)
    requires start <= end <= times.Length
    modifies times
    ensures times[..end] == old(times[..start]) + Interpolate(lastTs, newTs, end - start)
    ensures EvenBetween(Mark(start, lastTs), Mark(end, newTs), times[..end])
  {
    hide EvenBetween, InterpolatedAt;
    InterpolateIsEven(times[..start], lastTs, newTs, end - start);
    for i := start to end
      invariant times[..start] == old(times[..start])
      invariant forall j :: start <= j < i ==> times[j] == InterpolatedAt(lastTs, newTs, end - start, j - start)
    {
      times[i] := InterpolatedAt(lastTs, newTs, end - start, i - start);
    }
  }

  // the first instruction of a parsable, non-empty suffix, and what is left after it
  lemma ParseSplit(ws: seq<Word>, pos: nat, rest: seq<Instr>)
    requires pos <= |ws| && Parse(ws[pos..]) == Some(rest)
    ensures pos < |ws| && (ws[pos] == END <==> rest == [])
    ensures ws[pos] != END ==>
              && pos + InstrSize(rest[0]) < |ws|
              && Parse(ws[pos + InstrSize(rest[0])..]) == Some(rest[1..])
              && match rest[0]
                 case Call(f) => ws[pos] == CALL && ws[pos + 1] == f
                 case Ret => ws[pos] == RETURN
                 case Stamp(o) => ws[pos] == TIMESTAMP
                                  && o == StampValue(ws[pos + 1], ws[pos + 2], ws[pos + 3], ws[pos + 4])
                 case Line(n) => ws[pos] == n && n != CALL && n != RETURN && n != TIMESTAMP
  {
    var s := ws[pos..];
    assert s[0] == ws[pos];
    if s[0] != END {
      var n := InstrSize(rest[0]);
      assert s[n..] == ws[pos + n..];
      assert ws[pos + n..] != [];
    }
  }

  /** The arrays and cursors of the decoding loop; `d` is what they stand for. */
  class BlockAnalysis {
    const fileStack: array<Word>
    const locations: array<Point>
    const times: array<int>
    var stackPos: nat
    var locPos: nat
    var tsStart: int  // first location still without a timestamp, or -1
    var lastTs: nat
    ghost var d: Decoded

    ghost predicate Valid()
      reads this, fileStack, locations, times
    {
      && stackPos <= fileStack.Length && fileStack[..stackPos] == d.files
      && locPos <= locations.Length == times.Length && locations[..locPos] == d.points
      && |d.times| <= locPos && times[..|d.times|] == d.times
      && tsStart == (if |d.times| == locPos then -1 else |d.times|)
      && lastTs == d.lastTs
    }

    constructor (size: nat, startupStack: seq<Word>, blockStart: nat)
      requires |startupStack| <= size
      ensures Valid() && d == Decoded(startupStack, blockStart, [], [])
      ensures fresh(fileStack) && fresh(locations) && fresh(times)
      ensures fileStack.Length == locations.Length == size
    {
      fileStack := new Word[size](i requires 0 <= i < size => if i < |startupStack| then startupStack[i] else 0);
      locations := new Point[size](_ => Point(0, 0, 0));
      times := new int[size](_ => 0);
      stackPos, locPos, tsStart, lastTs := |startupStack|, 0, -1, blockStart;
      d := Decoded(startupStack, blockStart, [], []);
    }

    method PushFile(fileId: Word)
      requires Valid() && stackPos < fileStack.Length
      modifies this`stackPos, this`d, fileStack
      ensures Valid() && d == Step(old(d), Call(fileId)) && stackPos == old(stackPos) + 1
    {
      fileStack[stackPos] := fileId;
      stackPos := stackPos + 1;
      d := Step(d, Call(fileId));
    }

    method PopFile()
      requires Valid() && stackPos > 0
      modifies this`stackPos, this`d
      ensures Valid() && d == Step(old(d), Ret) && stackPos == old(stackPos) - 1
    {
      stackPos := stackPos - 1;
      d := Step(d, Ret);
    }

    /** Gives their times to the locations seen since the last timestamp. */
    method CloseInterval(newTs: nat)
      requires Valid()
      modifies this`tsStart, this`d, times
      ensures Valid() && d == old(d).(times := StampTimes(old(d), newTs)) && |d.times| == locPos
    {
      if tsStart != -1 {
        ApplyLinearTimestamps(lastTs, newTs, times, tsStart, locPos);
        tsStart := -1;
      }
      d := d.(times := StampTimes(d, newTs));
    }

    method Timestamp(offset: nat)
      requires Valid()
      modifies this`tsStart, this`lastTs, this`d, times
      ensures Valid() && d == Step(old(d), Stamp(offset))
    {
      var newTs := lastTs + offset;
      CloseInterval(newTs);
      lastTs := newTs;
      d := d.(lastTs := newTs);
    }

    method Location(lineno: Word)
      requires Valid() && stackPos > 0 && locPos < locations.Length
      modifies this`locPos, this`tsStart, this`d, locations
      ensures Valid() && d == Step(old(d), Line(lineno)) && locPos == old(locPos) + 1
    {
      locations[locPos] := Point(fileStack[stackPos - 1], lineno, stackPos);
      if tsStart == -1 {
        tsStart := locPos;
      }
      locPos := locPos + 1;
      d := Step(d, Line(lineno));
    }
  }

  /** One turn of the decoding loop, on an opcode that is not END. */
  method DecodeOne(st: BlockAnalysis, bytecode: seq<Word>, start: nat, ghost rest: seq<Instr>) returns (pos: nat)
    requires start <= |bytecode| && Parse(bytecode[start..]) == Some(rest) && rest != []
    requires st.Valid() && (rest[0].Ret? || rest[0].Line? ==> st.d.files != [])
    requires st.stackPos + |bytecode| - start <= st.fileStack.Length
    requires st.locPos + |bytecode| - start <= st.locations.Length
    modifies st, st.fileStack, st.locations, st.times
    ensures st.Valid() && st.d == Step(old(st.d), rest[0])
    ensures start < pos <= |bytecode| && Parse(bytecode[pos..]) == Some(rest[1..])
    ensures st.stackPos - pos <= old(st.stackPos) - start && st.locPos - pos <= old(st.locPos) - start
  {
    ParseSplit(bytecode, start, rest);
    var opcode := bytecode[start];
    pos := start + 1;
    if opcode == CALL {
      st.PushFile(bytecode[pos]);
      pos := pos + 1;
    } else if opcode == RETURN {
      st.PopFile();
    } else if opcode == TIMESTAMP {
      st.Timestamp(StampValue(bytecode[pos], bytecode[pos + 1], bytecode[pos + 2], bytecode[pos + 3]));
      pos := pos + 4;
    } else {
      st.Location(opcode);
    }
  }

  method AnalyseBlock(size: nat, startupStack: seq<Word>, bytecode: seq<Word>, blockStart: nat, blockEnd: nat)
    returns (points: seq<Point>, times: seq<int>)
    requires |startupStack| + |bytecode| <= size
    requires Parse(bytecode).Some? && NoUnderflow(Decoded(startupStack, blockStart, [], []), Parse(bytecode).value)
    ensures var d := Run(Decoded(startupStack, blockStart, [], []), Parse(bytecode).value);
            points == d.points && times == StampTimes(d, if blockEnd == 0 then d.lastTs else blockEnd)
    ensures |times| == |points| && Even(MarksToEnd(blockStart, Parse(bytecode).value, blockEnd), times)
  {
    ghost var code := Parse(bytecode).value;
    ghost var k := 0;
    var st := new BlockAnalysis(size, startupStack, blockStart);
    ghost var d0 := st.d;
    var pos := 0;
    while true
      invariant st.Valid() && fresh(st) && fresh(st.fileStack) && fresh(st.locations) && fresh(st.times)
      invariant st.fileStack.Length == st.locations.Length == size
      invariant 0 <= k <= |code| && st.d == Run(d0, code[..k])
      invariant pos <= |bytecode| && Parse(bytecode[pos..]) == Some(code[k..])
      invariant st.stackPos - pos <= |startupStack| && st.locPos <= pos
      decreases |bytecode| - pos
    {
      ParseSplit(bytecode, pos, code[k..]);
      NextInstr(d0, code, k);
      if bytecode[pos] == END {
        break;
      }
      pos := DecodeOne(st, bytecode, pos, code[k..]);
      k := k + 1;
    }
    assert code[..k] == code;
    var end := if blockEnd == 0 then st.lastTs else blockEnd;
    BlockTimesAreEven(d0, code, blockEnd);
    st.CloseInterval(end);
    points, times := st.locations[..st.locPos], st.times[..st.locPos];
  }

  lemma NextInstr(d: Decoded, code: seq<Instr>, k: nat)
    requires k <= |code| && NoUnderflow(d, code)
    ensures k < |code| ==>
              && code[k..][0] == code[k] && code[k..][1..] == code[k + 1..]
              && Run(d, code[..k + 1]) == Step(Run(d, code[..k]), code[k])
              && (code[k].Ret? || code[k].Line? ==> Run(d, code[..k]).files != [])
  {
    if k < |code| {
      assert code[..k + 1] == code[..k] + [code[k]];
      RunAppend(d, code[..k], code[k]);
      NoUnderflowPrefix(d, code, k + 1);
    }
  }

  lemma {:induction false} NoUnderflowPrefix(d: Decoded, code: seq<Instr>, k: nat)
    requires k <= |code| && NoUnderflow(d, code)
    ensures NoUnderflow(d, code[..k])
    decreases |code|
  {
    if k < |code| {
      NoUnderflowPrefix(d, code[..|code| - 1], k);
      assert code[..|code| - 1][..k] == code[..k];
    } else {
      assert code[..k] == code;
    }
  }
}
