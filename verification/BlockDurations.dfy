/**
 The durations of the instructions of one block, those already on the stack at its start included
 (trackexec/reader.py, _compute_durations).
 */
module BlockDurations {
  import opened Wrappers
  import opened TraceFormat
  import opened TraceModel
  import opened RecorderModel
  import opened LogFiles
  import opened Reader
  import opened Player
  import Durations

  /** The snapshot as instructions that start with the block. */
  function StackRows(frames: seq<Frame>, start: nat): (rows: seq<Location>)
    ensures |rows| == |frames| && forall k :: 0 <= k < |rows| ==> rows[k].timestamp == start
  {
    seq(|frames|, k requires 0 <= k < |frames| =>
      Location(Point(frames[k].fileId, frames[k].lineno, k + 1), start))
  }

  /** The frames of the snapshot are on top of each other, the last one being where the decoder starts. */
  lemma RowsStackUp(b: Block, data: seq<Location>, k: nat)
    requires k < |b.snapshot|
    ensures var p := Rows(b, data)[k].point;
            && p.depth == |Begin(b).files[..k + 1]|
            && p.fileId == Begin(b).files[k] && p.lineno == b.snapshot[k].lineno
            && (k == |b.snapshot| - 1 ==> p.depth == |Begin(b).files|)
  {
  }

  function Rows(b: Block, data: seq<Location>): seq<Location> {
    StackRows(b.snapshot, b.timestamp) + data
  }

  function Depths(rows: seq<Location>): (ds: seq<nat>)
    ensures |ds| == |rows| && forall k :: 0 <= k < |ds| ==> ds[k] == rows[k].point.depth
  {
    seq(|rows|, k requires 0 <= k < |rows| => rows[k].point.depth)
  }

  /** The block ends when the next one starts; the last one, with its last location. */
  predicate HasEnd(blocks: seq<Block>, k: nat, data: seq<Location>) {
    k + 1 < |blocks| || data != []
  }

  function EndOf(blocks: seq<Block>, k: nat, data: seq<Location>): int
    requires HasEnd(blocks, k, data)
  {
    if k + 1 < |blocks| then blocks[k + 1].timestamp else data[|data| - 1].timestamp
  }

  method DurationsOfRows(rows: seq<Location>, end: int) returns (durations: seq<int>)
    ensures |durations| == |rows|
    ensures forall i :: 0 <= i < |rows| ==> durations[i] == Durations.Duration(Depths(rows), TimesOf(rows), end, i)
  {
    var depths := new nat[|rows|](k requires 0 <= k < |rows| => rows[k].point.depth);
    var times := new int[|rows|](k requires 0 <= k < |rows| => rows[k].timestamp);
    assert depths[..] == Depths(rows) && times[..] == TimesOf(rows);
    var ds := Durations.ComputeDurations(depths, times, end);
    durations := ds[..];
  }

  /** None stands for the failure on a last block without locations. */
  method ComputeDurations(reader: LogsReader) returns (r: Option<(seq<Location>, seq<int>)>)
    requires reader.Valid() && ReadableTrace(reader.size, reader.log, reader.blocks)
    requires reader.trace == TraceOf(reader.blocks)
    modifies reader
    ensures reader.Valid() && reader.blockId == old(reader.blockId)
    ensures var data := reader.trace[reader.blockId];
            && (r.Some? <==> HasEnd(reader.blocks, reader.blockId, data))
            && (r.Some? ==>
                  var (rows, durations) := r.value; var end := EndOf(reader.blocks, reader.blockId, data);
                  && rows == Rows(reader.blocks[reader.blockId], data) && |durations| == |rows|
                  && forall i :: 0 <= i < |rows| ==>
                       durations[i] == Durations.Duration(Depths(rows), TimesOf(rows), end, i))
  {
    hide TraceOf, ReadableTrace, Stored, ReadStack, BlockWords, StackRows, Depths, TimesOf, Durations.Duration;
    StoredEntries(reader.size, reader.log, reader.blocks, reader.blockId);
    var data := reader.BlockSourceData();
    var last := reader.AtLastBlock();
    if last && data == [] {
      return None;
    }
    var words := reader.CurrentBlock();
    var start := reader.log.index[reader.blockId].timestamp;
    var end := if last then data[|data| - 1].timestamp else reader.log.index[reader.blockId + 1].timestamp;
    var rows := StackRows(ReadStack(words), start) + data;
    var durations := DurationsOfRows(rows, end);
    r := Some((rows, durations));
  }

  lemma StoredEntries(size: nat, log: Log, blocks: seq<Block>, k: nat)
    requires ReadableTrace(size, log, blocks) && k < |blocks|
    ensures Stored(size, log, blocks) && |log.index| == |blocks| && Fits(size, blocks[k])
    ensures forall j :: 0 <= j < |blocks| ==> log.index[j].timestamp == blocks[j].timestamp
    ensures var ws := BlockWords(size, blocks[k]); Readable(ws) && ReadStack(ws) == blocks[k].snapshot
  {
    hide BlockOk, Chain;
    IndexEntries(size, log, blocks);
    StackOfStored(size, log, blocks, k);
  }

  lemma IndexEntries(size: nat, log: Log, blocks: seq<Block>)
    requires Stored(size, log, blocks)
    ensures |log.index| == |blocks| && forall k :: 0 <= k < |blocks| ==> log.index[k].timestamp == blocks[k].timestamp
  {
    assert forall k :: 0 <= k < |blocks| ==> log.index[k] == Entry(blocks[k]);
  }

  lemma StackOfStored(size: nat, log: Log, blocks: seq<Block>, k: nat)
    requires ReadableTrace(size, log, blocks) && k < |blocks|
    ensures Fits(size, blocks[k])
    ensures var ws := BlockWords(size, blocks[k]); Readable(ws) && ReadStack(ws) == blocks[k].snapshot
  {
    assert BlockOk(size, blocks[k]);
    hide Parse, ReadStack, Readable, BlockWords;
    BlockRoundTrip(size, blocks[k]);
  }

  /** On every readable trace durations are not negative, and the outermost ones add up to the time from the first row
      to the end: to the whole block when something was running at its start. */
  lemma DurationsOfBlock(blocks: seq<Block>, k: nat)
    requires Chain(blocks) && k < |blocks| && HasEnd(blocks, k, BlockLocations(blocks, k))
    ensures var data := BlockLocations(blocks, k);
            var rows, end := Rows(blocks[k], data), EndOf(blocks, k, data);
            && (forall i :: 0 <= i < |rows| ==> Durations.Duration(Depths(rows), TimesOf(rows), end, i) >= 0)
            && (rows != [] ==> Durations.DurationOfAlone(Depths(rows), TimesOf(rows), end, |rows|)
                               == end - rows[0].timestamp)
            && (blocks[k].snapshot != [] ==> rows[0].timestamp == blocks[k].timestamp)
  {
    var data := BlockLocations(blocks, k);
    RowsInOrder(blocks, k);
    hide BlockLocations, Chain;
    var rows, end := Rows(blocks[k], data), EndOf(blocks, k, data);
    forall i | 0 <= i < |rows|
      ensures Durations.Duration(Depths(rows), TimesOf(rows), end, i) >= 0
    {
      Durations.DurationsAreNonNegative(Depths(rows), TimesOf(rows), end, i);
    }
    if rows != [] {
      Durations.OutermostDurationsCoverTheBlock(Depths(rows), TimesOf(rows), end);
    }
  }

  lemma RowsInOrder(blocks: seq<Block>, k: nat)
    requires Chain(blocks) && k < |blocks| && HasEnd(blocks, k, BlockLocations(blocks, k))
    ensures var data := BlockLocations(blocks, k);
            var ts, end := TimesOf(Rows(blocks[k], data)), EndOf(blocks, k, data);
            && (forall i, j :: 0 <= i <= j < |ts| ==> ts[i] <= ts[j])
            && (forall i :: 0 <= i < |ts| ==> ts[i] <= end)
  {
    var data := BlockLocations(blocks, k);
    BlockTimesBounded(blocks, k);
    if k + 1 < |blocks| {
      StartsInOrder(blocks, k, k + 1);
    }
    hide BlockLocations, Chain;
    var rows, start := Rows(blocks[k], data), blocks[k].timestamp;
    var ts := TimesOf(data);
    forall i, j | 0 <= i <= j < |rows|
      ensures rows[i].timestamp <= rows[j].timestamp
    {
      var n := |blocks[k].snapshot|;
      if n <= j {
        assert rows[j].timestamp == ts[j - n];
        if n <= i {
          assert rows[i].timestamp == ts[i - n];
        }
      }
    }
    if k + 1 == |blocks| {
      assert EndOf(blocks, k, data) == ts[|ts| - 1] == rows[|rows| - 1].timestamp;
    } else {
      forall i | 0 <= i < |rows|
        ensures rows[i].timestamp <= blocks[k + 1].timestamp
      {
        var n := |blocks[k].snapshot|;
        if n <= i {
          assert rows[i].timestamp == ts[i - n];
        }
      }
    }
  }
}
