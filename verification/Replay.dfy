/**
 From the recording of a program to the player opened on it: the recorder, the reader and the player of the execution
 tracer together (trackexec/recorder.py, reader.py, player.py).
 */
module Replay {
  import opened TraceFormat
  import opened TraceModel
  import opened RecorderModel
  import opened LogFiles
  import opened Recorder
  import opened Reader
  import opened Player
  import opened SourceIndex

  /** The blocks of a stopped recording. */
  function Written(
    size: nat, limit: nat, frames: seq<Frame>, clock: nat, es: seq<Event>, flushClock: nat, stampClock: nat): seq<Block>
    requires ValidRun(limit, SourceStart(frames), es)
  {
    Stop(size, Recorded(size, limit, frames, clock, es), flushClock, stampClock).written
  }

  /** What the player takes for granted. */
  predicate EachHasLocations(blocks: seq<Block>) {
    forall b :: 0 <= b < |blocks| ==> RunBlock(blocks[b]).points != []
  }

  lemma LocationsOfEach(blocks: seq<Block>)
    requires Chain(blocks) && EachHasLocations(blocks)
    ensures forall b :: 0 <= b < |blocks| ==> TraceOf(blocks)[b] != []
  {
    hide RunBlock, BlockLocations;
    forall b | 0 <= b < |blocks|
      ensures TraceOf(blocks)[b] != []
    {
      PointsOfBlock(blocks, b);
    }
  }

  /** Records a run, and opens a player on it: it is at the first of exactly the locations of the program. */
  method RecordAndPlay(
    size: nat, limit: nat, frames: seq<Frame>, clock: nat, es: seq<Event>, flushClock: nat, stampClock: nat)
    returns (player: TrackExecPlayer)
    requires size <= 0x1_0000 && StartOk(size, limit, frames, clock) && ValidRun(limit, SourceStart(frames), es)
    requires flushClock < STAMP_LIMIT && stampClock < STAMP_LIMIT
    requires EachHasLocations(Written(size, limit, frames, clock, es, flushClock, stampClock))
    ensures fresh(player) && fresh(player.reader) && player.Valid()
    ensures player.reader.blockId == 0 && player.idx == 0 && player.breakpoints == {}
    ensures ShownPoints(player.reader.trace) == SourceRun(limit, SourceStart(frames), es).points
  {
    hide Stored, BlockOk, Chain, TraceOf, Recorded, Stop, SourceRun, EachHasLocations, Indexes;
    var log := RecordTrace(size, limit, frames, clock, es, flushClock, stampClock);
    ghost var blocks := Written(size, limit, frames, clock, es, flushClock, stampClock);
    ReaderShowsTheRun(size, limit, frames, clock, es, flushClock, stampClock, log);
    LocationsOfEach(blocks);
    var reader := new LogsReader(size, log, blocks);
    EmptyIndex();
    assert blocks[..0] == [];
    NoTrace();
    player := new TrackExecPlayer(reader, 0, map[]);
  }

  lemma NoTrace()
    ensures TraceOf([]) == []
  {
  }

  // ---------- which recordings can be played ----------

  /** A program that does nothing leaves one block without locations, on which the player fails. */
  lemma NothingToPlay(size: nat, limit: nat, frames: seq<Frame>, clock: nat, flushClock: nat, stampClock: nat)
    requires StartOk(size, limit, frames, clock)
    ensures var blocks := Written(size, limit, frames, clock, [], flushClock, stampClock);
            |blocks| == 1 && RunBlock(blocks[0]).points == [] && !EachHasLocations(blocks)
  {
    var r := Start(frames, clock);
    assert Recorded(size, limit, frames, clock, []) == r;
    assert HasRoom(size, r.block, 5);
    var ts := if stampClock < clock then clock else stampClock;
    var b := r.block.(code := [] + [Stamp(ts - clock)]);
    assert Written(size, limit, frames, clock, [], flushClock, stampClock) == [b];
    RunAppend(Begin(b), [], Stamp(ts - clock));
  }

  // a call into file 0, which runs its line 1
  const ONE_LINE: seq<Event> := [CallEvent(0, 0), LineEvent(1, 0, 0, 0)]

  lemma OneLineRuns(size: nat)
    requires size >= 9
    ensures StartOk(size, 1, [], 0) && ValidRun(1, SourceStart([]), ONE_LINE)
    ensures var r := Recorded(size, 1, [], 0, ONE_LINE);
            && r.written == [] && r.last == 0 && !r.precise && !r.requested
            && r.block == Block([], [Call(0), Line(1)], 0, 0)
  {
    var s0, r0 := SourceStart([]), Start([], 0);
    var r1 := OnEvent(size, r0, ONE_LINE[0]);
    assert Encode([]) == [] && r1.block.code == [Call(0)];
    EncodeAppend([], Call(0));
    assert [] + [Call(0)] == [Call(0)];
    assert ONE_LINE[1..][0] == ONE_LINE[1] && ONE_LINE[1..][1..] == [];
    assert r1.block.code + [Line(1)] == [Call(0), Line(1)];
    var s1 := SourceStep(s0, ONE_LINE[0]);
    assert ValidRun(1, SourceStep(s1, ONE_LINE[1]), []);
    assert ValidRun(1, s1, ONE_LINE[1..]);
    assert Record(size, 1, r1, s1, ONE_LINE[1..]) == OnEvent(size, r1, ONE_LINE[1]);
  }

  lemma CallThenLine()
    ensures Encode([Call(0), Line(1)]) == [CALL, 0, 1]
    ensures var b := Block([], [Call(0), Line(1)], 0, 0);
            RunBlock(b).points == [Point(0, 1, 1)] && RunBlock(b).files == [0] && RunBlock(b).lastTs == 0
  {
    EncodeAppend([], Call(0));
    EncodeAppend([Call(0)], Line(1));
    assert [] + [Call(0)] == [Call(0)] && [Call(0)] + [Line(1)] == [Call(0), Line(1)];
    var d := Begin(Block([], [], 0, 0));
    RunAppend(d, [], Call(0));
    RunAppend(d, [Call(0)], Line(1));
  }

  // the final timestamp, in a block that has room for it or in a new one
  lemma StopsWith(size: nat, r: Rec)
    requires r.last == 0 && r.written == []
    ensures var blocks := Stop(size, r, 0, 0).written;
            if HasRoom(size, r.block, 5) then blocks == [r.block.(code := r.block.code + [Stamp(0)])]
            else blocks == [r.block, Block(r.stack, [Stamp(0)], 0, |r.stack|)]
  {
    assert [] + [Stamp(0)] == [Stamp(0)];
  }

  lemma StampShowsNothing(b: Block, o: nat)
    ensures RunBlock(b.(code := b.code + [Stamp(o)])).points == RunBlock(b).points
  {
    var b' := b.(code := b.code + [Stamp(o)]);
    assert Begin(b') == Begin(b);
    RunAppend(Begin(b), b.code, Stamp(o));
  }

  lemma NoCodeShowsNothing(b: Block)
    requires b.code == []
    ensures RunBlock(b).points == []
  {
  }

  /** A run of one line can be played, unless the block is so small that the final timestamp starts another one. */
  lemma OneLineCanBePlayed(size: nat)
    requires size >= 9
    ensures StartOk(size, 1, [], 0) && ValidRun(1, SourceStart([]), ONE_LINE)
    ensures EachHasLocations(Written(size, 1, [], 0, ONE_LINE, 0, 0)) <==> size > 9
  {
    hide Recorded, Stop, RunBlock, Encode, ValidRun;
    OneLineRuns(size);
    CallThenLine();
    var r := Recorded(size, 1, [], 0, ONE_LINE);
    StopsWith(size, r);
    var blocks := Written(size, 1, [], 0, ONE_LINE, 0, 0);
    if size > 9 {
      StampShowsNothing(r.block, 0);
      assert blocks == [r.block.(code := r.block.code + [Stamp(0)])];
    } else {
      var last := Block(r.stack, [], 0, |r.stack|);
      NoCodeShowsNothing(last);
      StampShowsNothing(last, 0);
      assert [] + [Stamp(0)] == [Stamp(0)];
      assert blocks[1] == last.(code := last.code + [Stamp(0)]);
    }
  }
}
