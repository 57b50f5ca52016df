/**
 Reading a recorded trace back, one cached map file and one decoded block at a time
 (trackexec/reader.py).
 */
module Reader {
  import opened Wrappers
  import opened TraceFormat
  import opened TraceModel
  import opened RecorderModel
  import opened LogFiles
  import opened Decoder
  import opened SourceIndex

  /** What a recorder leaves behind: see RecorderModel.StoppedTrace and Recorder.RecordTrace. */
  ghost predicate ReadableTrace(size: nat, log: Log, blocks: seq<Block>) {
    && blocks != [] && Stored(size, log, blocks) && Chain(blocks)
    && forall k :: 0 <= k < |blocks| ==> BlockOk(size, blocks[k])
  }

  // the start of the next block; the end of the last block is not known
  function BlockEnd(blocks: seq<Block>, k: nat): nat
    requires k < |blocks|
  {
    if k + 1 < |blocks| then blocks[k + 1].timestamp else 0
  }

  function BlockLocations(blocks: seq<Block>, k: nat): seq<Location>
    requires k < |blocks|
  {
    var points, times := RunBlock(blocks[k]).points, BlockTimes(blocks[k], BlockEnd(blocks, k));
    if |points| == |times| then Timed(points, times) else []
  }

  function TraceOf(blocks: seq<Block>): (trace: seq<seq<Location>>)
    ensures |trace| == |blocks|
    ensures forall k :: 0 <= k < |blocks| ==> trace[k] == BlockLocations(blocks, k)
  {
    seq(|blocks|, k requires 0 <= k < |blocks| => BlockLocations(blocks, k))
  }

  lemma BlockLocationsAreTimed(blocks: seq<Block>, k: nat)
    requires k < |blocks| && Chain(blocks)
    ensures |BlockTimes(blocks[k], BlockEnd(blocks, k))| == |RunBlock(blocks[k]).points|
  {
    if k + 1 < |blocks| {
      assert Follows(blocks[k], blocks[k + 1]);
    }
    BlockTimesInOrder(blocks[k], BlockEnd(blocks, k));
  }

  class LogsReader {
    const size: nat
    const log: Log
    ghost const blocks: seq<Block>
    ghost const trace: seq<seq<Location>>  // the decoded blocks
    var blockId: nat
    var mapBlocks: Option<seq<Word>>      // the words of the map file of the current block, once read
    var sourceData: Option<seq<Location>> // the current block, once decoded

    ghost predicate Valid()
      reads this
    {
      && blockId < |blocks| == |log.index|
      && (mapBlocks.Some? ==> mapBlocks == MapFile(log, blockId / BLOCKS_PER_FILE))
      && |trace| == |blocks|
      && (sourceData.Some? ==> sourceData.value == trace[blockId])
      && (sourceData.Some? ==> mapBlocks.Some?)
    }

    constructor (size: nat, log: Log, ghost blocks: seq<Block>)
      requires ReadableTrace(size, log, blocks)
      ensures Valid() && this.size == size && this.log == log && this.blocks == blocks && blockId == 0
      ensures trace == TraceOf(blocks)
    {
      this.size, this.log, this.blocks, this.trace := size, log, blocks, TraceOf(blocks);
      blockId, mapBlocks, sourceData := 0, None, None;
    }

    method Seek(id: nat)
      requires Valid() && id < |blocks|
      modifies this
      ensures Valid() && blockId == id
    {
      if blockId != id {
        // the map file is read again only when the block is in another one
        if blockId / BLOCKS_PER_FILE != id / BLOCKS_PER_FILE {
          mapBlocks := None;
        }
        blockId := id;
        sourceData := None;
      }
    }

    method Next()
      requires Valid() && blockId + 1 < |blocks|
      modifies this
      ensures Valid() && blockId == old(blockId) + 1
    {
      Seek(blockId + 1);
    }

    method AtLastBlock() returns (last: bool)
      requires Valid()
      ensures last <==> blockId == |blocks| - 1
    {
      last := blockId == |log.index| - 1;
    }

    method BlockSourceData() returns (data: seq<Location>)
      requires Valid() && ReadableTrace(size, log, blocks) && trace == TraceOf(blocks)
      modifies this
      ensures Valid() && blockId == old(blockId) && data == trace[blockId]
    {
      if sourceData.None? {
        ReadBlock();
      }
      data := sourceData.value;
    }

    /** The words of the current block, cut out of its map file. */
    method CurrentBlock() returns (words: seq<Word>)
      requires Valid() && Stored(size, log, blocks)
      modifies this
      ensures Valid() && blockId == old(blockId) && sourceData == old(sourceData)
      ensures mapBlocks.Some? && words == BlockWords(size, blocks[blockId])
    {
      StoredBlock(size, log, blocks, blockId);
      if mapBlocks.None? {
        mapBlocks := MapFile(log, blockId / BLOCKS_PER_FILE);
      }
      var low := (blockId % BLOCKS_PER_FILE) * size;
      words := mapBlocks.value[low..low + size];
    }

    method ReadBlock()
      requires Valid() && ReadableTrace(size, log, blocks) && trace == TraceOf(blocks)
      modifies this
      ensures Valid() && blockId == old(blockId) && sourceData.Some?
    {
      var words := CurrentBlock();
      assert log.index[blockId] == Entry(blocks[blockId]);
      var tsEnd := if blockId == |log.index| - 1 then 0 else log.index[blockId + 1].timestamp;
      assert tsEnd == BlockEnd(blocks, blockId);
      var data := DecodeWords(size, words, log.index[blockId].timestamp, tsEnd, blocks, blockId);
      sourceData := Some(data);
    }

    /** The source index; the first `next` blocks were indexed by an earlier run, when they were the whole trace, and
        the end of the last of them was not known. */
    method SrcIndex(next: nat, saved: Index) returns (idx: Index)
      requires Valid() && ReadableTrace(size, log, blocks) && trace == TraceOf(blocks)
      requires next <= |blocks| && Indexes(saved, TraceOf(blocks[..next]))
      modifies this
      ensures Valid() && blockId == old(blockId) && Indexes(idx, trace)
    {
      hide ReadableTrace, TraceOf, Indexes;
      SavedIndex(size, log, blocks, saved, next);
      var savedId := blockId;
      idx := saved;
      if next < |log.index| {
        Seek(next);
        var last := false;
        while !last
          invariant Valid() && next <= blockId && (last ==> blockId == |trace| - 1)
          invariant Indexes(idx, trace[..if last then |trace| else blockId])
          decreases |blocks| - blockId, !last
        {
          idx := IndexCurrentBlock(idx);
          last := AtLastBlock();
          if !last {
            Next();
          }
        }
        Seek(savedId);
      }
      assert trace[..|trace|] == trace;
    }

    /** The source index of a trace that was never indexed. */
    method FirstSrcIndex() returns (idx: Index)
      requires Valid() && ReadableTrace(size, log, blocks) && trace == TraceOf(blocks)
      modifies this
      ensures Valid() && blockId == old(blockId) && Indexes(idx, trace)
    {
      EmptyIndex();
      assert blocks[..0] == [] && TraceOf([]) == [];
      idx := SrcIndex(0, map[]);
    }

    method IndexCurrentBlock(idx: Index) returns (idx': Index)
      requires Valid() && ReadableTrace(size, log, blocks) && trace == TraceOf(blocks)
      requires Indexes(idx, trace[..blockId])
      modifies this
      ensures Valid() && blockId == old(blockId) && Indexes(idx', trace[..blockId + 1])
    {
      hide Indexes, ReadableTrace;
      var data := BlockSourceData();
      idx' := AddBlock(idx, data, blockId);
      AddBlockExtends(idx, idx', trace[..blockId], data);
      assert trace[..blockId] + [data] == trace[..blockId + 1];
    }

    /** Selects the last block that starts before the target, or the first block. */
    method SeekByTimestamp(target: int)
      requires Valid()
      modifies this
      ensures Valid() && blockId == BlockBefore(log.index, target)
    {
      Seek(BlockBefore(log.index, target));
    }
  }

  /** More blocks change the times of a block at most, not its locations. */
  lemma PrefixKeys(blocks: seq<Block>, next: nat, k: nat)
    requires Chain(blocks) && k < next <= |blocks|
    ensures Chain(blocks[..next])
    ensures SameKeys(BlockLocations(blocks[..next], k), BlockLocations(blocks, k))
  {
    assert Chain(blocks[..next]) by {
      forall j | 0 <= j < next - 1
        ensures Follows(blocks[..next][j], blocks[..next][j + 1])
      {
        assert Follows(blocks[j], blocks[j + 1]);
      }
    }
    hide RunBlock, BlockTimes, Chain;
    BlockLocationsAreTimed(blocks, k);
    BlockLocationsAreTimed(blocks[..next], k);
  }

  /** An index of a trace that has grown since is an index of its first blocks. */
  lemma IndexOfPrefix(saved: Index, blocks: seq<Block>, next: nat)
    requires Chain(blocks) && next <= |blocks| && Indexes(saved, TraceOf(blocks[..next]))
    ensures Indexes(saved, TraceOf(blocks)[..next])
  {
    forall k | 0 <= k < next
      ensures SameKeys(TraceOf(blocks[..next])[k], TraceOf(blocks)[..next][k])
    {
      PrefixKeys(blocks, next, k);
    }
    hide BlockLocations, SameKeys, Indexes;
    SameIndex(saved, TraceOf(blocks[..next]), TraceOf(blocks)[..next]);
  }

  lemma SavedIndex(size: nat, log: Log, blocks: seq<Block>, saved: Index, next: nat)
    requires ReadableTrace(size, log, blocks) && next <= |blocks| && Indexes(saved, TraceOf(blocks[..next]))
    ensures Indexes(saved, TraceOf(blocks)[..next])
  {
    hide Chain, BlockOk, Indexes, BlockLocations;
    IndexOfPrefix(saved, blocks, next);
  }

  function Starts(index: seq<IndexEntry>): seq<int> {
    seq(|index|, k requires 0 <= k < |index| => index[k].timestamp)
  }

  /** Insertion point of x in a sorted sequence, before the elements equal to it. */
  function InsertLeft(ts: seq<int>, x: int): (r: nat)
    ensures r <= |ts| && (forall k :: 0 <= k < r ==> ts[k] < x) && (r < |ts| ==> x <= ts[r])
  {
    if ts == [] || x <= ts[0] then 0 else 1 + InsertLeft(ts[1..], x)
  }

  /** Insertion point of x in a sorted sequence, after the elements equal to it. */
  function InsertRight(ts: seq<int>, x: int): (r: nat)
    ensures r <= |ts| && (forall k :: 0 <= k < r ==> ts[k] <= x) && (r < |ts| ==> x < ts[r])
  {
    if ts == [] || x < ts[0] then 0 else 1 + InsertRight(ts[1..], x)
  }

  function BlockBefore(index: seq<IndexEntry>, target: int): (b: nat)
    requires index != []
    ensures b < |index|
  {
    var c := InsertLeft(Starts(index), target);
    if c == 0 then 0 else c - 1
  }

  method DecodeWords(size: nat, words: seq<Word>, tsStart: nat, tsEnd: nat, ghost blocks: seq<Block>, ghost k: nat)
    returns (data: seq<Location>)
    requires k < |blocks| && Chain(blocks) && Fits(size, blocks[k]) && BlockOk(size, blocks[k])
    requires words == BlockWords(size, blocks[k]) && tsStart == blocks[k].timestamp && tsEnd == BlockEnd(blocks, k)
    ensures data == BlockLocations(blocks, k)
  {
    ReadStored(size, blocks[k]);
    BlockLocationsAreTimed(blocks, k);
    var points, times := AnalyseBlock(size, FileIds(ReadStack(words)), ReadBytecode(words), tsStart, tsEnd);
    data := Timed(points, times);
  }

  lemma ReadStored(size: nat, b: Block)
    requires Fits(size, b) && BlockOk(size, b)
    ensures var ws := BlockWords(size, b);
            && Readable(ws) && FileIds(ReadStack(ws)) == Begin(b).files
            && Parse(ReadBytecode(ws)) == Some(b.code) && |ReadStack(ws)| + |ReadBytecode(ws)| <= size
  {
    BlockRoundTrip(size, b);
  }

  // ---------- from the traced program to the reader ----------

  function PointsOf(data: seq<Location>): (ps: seq<Point>)
    ensures |ps| == |data|
  {
    seq(|data|, k requires 0 <= k < |data| => data[k].point)
  }

  function ShownPoints(trace: seq<seq<Location>>): seq<Point> {
    if trace == [] then [] else ShownPoints(DropLast(trace)) + PointsOf(Last(trace))
  }

  function TimesOf(data: seq<Location>): (ts: seq<int>)
    ensures |ts| == |data| && forall k :: 0 <= k < |ts| ==> ts[k] == data[k].timestamp
  {
    seq(|data|, k requires 0 <= k < |data| => data[k].timestamp)
  }

  function ShownTimes(trace: seq<seq<Location>>): seq<int> {
    if trace == [] then [] else ShownTimes(DropLast(trace)) + TimesOf(Last(trace))
  }

  lemma PointsOfBlock(blocks: seq<Block>, k: nat)
    requires Chain(blocks) && k < |blocks|
    ensures PointsOf(BlockLocations(blocks, k)) == RunBlock(blocks[k]).points
    ensures TimesOf(BlockLocations(blocks, k)) == BlockTimes(blocks[k], BlockEnd(blocks, k))
  {
    BlockLocationsAreTimed(blocks, k);
  }

  lemma {:induction false} ShownAreDecoded(blocks: seq<Block>, k: nat)
    requires Chain(blocks) && k <= |blocks|
    ensures ShownPoints(TraceOf(blocks)[..k]) == BlocksPoints(blocks[..k])
    ensures ShownTimes(TraceOf(blocks)[..k]) == TraceTimes(blocks[..k], if k == 0 then 0 else BlockEnd(blocks, k - 1))
  {
    hide RunBlock, BlockLocations, Chain, BlockTimes;
    if k > 0 {
      ShownAreDecoded(blocks, k - 1);
      PointsOfBlock(blocks, k - 1);
      assert TraceOf(blocks)[..k] == TraceOf(blocks)[..k - 1] + [BlockLocations(blocks, k - 1)];
      assert blocks[..k] == blocks[..k - 1] + [blocks[k - 1]];
    }
  }

  /** While the program runs, the blocks written so far are readable, and show its first locations. */
  lemma ReaderShowsAPrefix(
    size: nat, limit: nat, stack: seq<Frame>, clock: nat, es: seq<Event>, log: Log)
    requires StartOk(size, limit, stack, clock) && ValidRun(limit, SourceStart(stack), es)
    requires var blocks := Recorded(size, limit, stack, clock, es).written; blocks != [] && Stored(size, log, blocks)
    ensures var blocks := Recorded(size, limit, stack, clock, es).written;
            && ReadableTrace(size, log, blocks)
            && ShownPoints(TraceOf(blocks)) <= SourceRun(limit, SourceStart(stack), es).points
  {
    hide Stored, BlockOk, TraceOf, Recorded, SourceRun, RunBlock, BlocksPoints;
    var r := Recorded(size, limit, stack, clock, es);
    RecordedInv(size, limit, stack, clock, es);
    ChainPrefix(r.written + [r.block]);
    assert DropLast(r.written + [r.block]) == r.written;
    ShownAreDecoded(r.written, |r.written|);
    assert TraceOf(r.written)[..|r.written|] == TraceOf(r.written) && r.written[..|r.written|] == r.written;
  }

  /** End to end: what the reader shows of the files left by Recorder.RecordTrace is exactly what the program did. */
  lemma ReaderShowsTheRun(
    size: nat, limit: nat, stack: seq<Frame>, clock: nat, es: seq<Event>, flushClock: nat, stampClock: nat, log: Log)
    requires StartOk(size, limit, stack, clock) && ValidRun(limit, SourceStart(stack), es)
    requires flushClock < STAMP_LIMIT && stampClock < STAMP_LIMIT
    requires Stored(size, log, Stop(size, Recorded(size, limit, stack, clock, es), flushClock, stampClock).written)
    ensures var blocks := Stop(size, Recorded(size, limit, stack, clock, es), flushClock, stampClock).written;
            && ReadableTrace(size, log, blocks)
            && ShownPoints(TraceOf(blocks)) == SourceRun(limit, SourceStart(stack), es).points
            && ShownTimes(TraceOf(blocks)) == TraceTimes(blocks, 0)
  {
    hide Stored, BlockOk, TraceOf, Recorded, SourceRun, Stop, RunBlock, TraceTimes;
    var blocks := Stop(size, Recorded(size, limit, stack, clock, es), flushClock, stampClock).written;
    StoppedTrace(size, limit, stack, clock, es, flushClock, stampClock);
    ShownAreDecoded(blocks, |blocks|);
    assert TraceOf(blocks)[..|blocks|] == TraceOf(blocks) && blocks[..|blocks|] == blocks;
  }
}
