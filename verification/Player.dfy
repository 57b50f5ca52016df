/**
 The debugger-like player: "next", "continue", breakpoints and jumps in time over a recorded trace
 (trackexec/player.py). Whole blocks are skipped without being decoded; this is proved not to be visible.
 */
module Player {
  import opened Wrappers
  import opened TraceFormat
  import opened TraceModel
  import opened RecorderModel
  import opened LogFiles
  import opened Reader
  import opened SourceIndex

  type Trace = seq<seq<Location>>

  // ---------- positions in a trace ----------

  predicate Before(b: nat, i: nat, b': nat, i': nat) {
    b < b' || (b == b' && i < i')
  }

  predicate InTrace(trace: Trace, b: nat, i: nat) {
    b < |trace| && i < |trace[b]|
  }

  predicate AtEnd(trace: Trace, b: nat, i: nat) {
    b == |trace| - 1 && i == |trace[b]| - 1
  }

  /** "next" stops at a depth of at most d, or at a breakpoint; "continue" is the case d = -1. */
  predicate Stops(l: Location, d: int, bps: set<Key>) {
    l.point.depth <= d || KeyOf(l) in bps
  }

  /** No location strictly between two positions is a stop. */
  ghost predicate NoStopBetween(trace: Trace, d: int, bps: set<Key>, b0: nat, i0: nat, b1: nat, i1: nat) {
    forall b: nat, i: nat :: InTrace(trace, b, i) && Before(b0, i0, b, i) && Before(b, i, b1, i1) ==>
      !Stops(trace[b][i], d, bps)
  }

  lemma ExtendByOne(trace: Trace, d: int, bps: set<Key>, b0: nat, i0: nat, b: nat, i: nat)
    requires NoStopBetween(trace, d, bps, b0, i0, b, i) && InTrace(trace, b, i) && !Stops(trace[b][i], d, bps)
    ensures NoStopBetween(trace, d, bps, b0, i0, b, i + 1)
    ensures i == |trace[b]| - 1 ==> NoStopBetween(trace, d, bps, b0, i0, b + 1, 0)
  {
  }

  lemma ExtendByBlock(trace: Trace, d: int, bps: set<Key>, b0: nat, i0: nat, b: nat, i: nat)
    requires NoStopBetween(trace, d, bps, b0, i0, b, i) && InTrace(trace, b, i)
    requires forall j :: 0 <= j < |trace[b]| ==> !Stops(trace[b][j], d, bps)
    ensures NoStopBetween(trace, d, bps, b0, i0, b + 1, 0)
  {
  }

  lemma NothingBetweenNeighbours(trace: Trace, d: int, bps: set<Key>, b: nat, i: nat)
    requires InTrace(trace, b, i)
    ensures NoStopBetween(trace, d, bps, b, i, b, i + 1)
    ensures i == |trace[b]| - 1 ==> NoStopBetween(trace, d, bps, b, i, b + 1, 0)
  {
  }

  lemma NothingAfterEnd(trace: Trace, d: int, bps: set<Key>, b: nat, i: nat)
    requires InTrace(trace, b, i) && AtEnd(trace, b, i)
    ensures NoStopBetween(trace, d, bps, b, i, |trace|, 0)
  {
  }

  lemma NothingUpTo(trace: Trace, d: int, bps: set<Key>, b0: nat, i0: nat, b: nat, i: nat)
    requires NoStopBetween(trace, d, bps, b0, i0, b + 1, 0)
    ensures NoStopBetween(trace, d, bps, b0, i0, b, i)
  {
  }

  // ---------- breakpoint counters ----------

  function Counter(counters: map<nat, int>, b: nat): int {
    if b in counters then counters[b] else 0
  }

  function ActiveIn(bps: set<Key>, data: seq<Location>): set<Key> {
    bps * Keys(data)
  }

  /** Each block counter is the number of active breakpoints that occur in the block. */
  ghost predicate CountersAgree(counters: map<nat, int>, bps: set<Key>, trace: Trace) {
    forall b :: 0 <= b < |trace| ==> Counter(counters, b) == |ActiveIn(bps, trace[b])|
  }

  method AddToCounters(counters: map<nat, int>, blocks: set<nat>, delta: int) returns (counters': map<nat, int>)
    ensures forall b :: Counter(counters', b) == Counter(counters, b) + if b in blocks then delta else 0
  {
    counters' := counters;
    var todo := blocks;
    while todo != {}
      invariant todo <= blocks
      invariant forall b :: Counter(counters', b) == Counter(counters, b) + if b in blocks - todo then delta else 0
      decreases |todo|
    {
      var b :| b in todo;
      counters' := counters'[b := Counter(counters', b) + delta];
      todo := todo - {b};
    }
  }

  lemma ToggleAgrees(counters: map<nat, int>, counters': map<nat, int>, bps: set<Key>, key: Key, trace: Trace)
    requires CountersAgree(counters, bps, trace)
    requires var delta := if key in bps then -1 else 1;
             forall b :: Counter(counters', b)
                         == Counter(counters, b) + if b in BlocksWith(trace, key) then delta else 0
    ensures CountersAgree(counters', if key in bps then bps - {key} else bps + {key}, trace)
  {
    var bps' := if key in bps then bps - {key} else bps + {key};
    forall b | 0 <= b < |trace|
      ensures Counter(counters', b) == |ActiveIn(bps', trace[b])|
    {
      ToggleOne(bps, key, trace[b]);
      assert b in BlocksWith(trace, key) <==> key in Keys(trace[b]);
    }
  }

  lemma ToggleOne(bps: set<Key>, key: Key, data: seq<Location>)
    ensures key in Keys(data) && key in bps ==> |ActiveIn(bps - {key}, data)| == |ActiveIn(bps, data)| - 1
    ensures key in Keys(data) && key !in bps ==> |ActiveIn(bps + {key}, data)| == |ActiveIn(bps, data)| + 1
    ensures key !in Keys(data) ==> ActiveIn(bps - {key}, data) == ActiveIn(bps + {key}, data) == ActiveIn(bps, data)
  {
    var keys := Keys(data);
    if key in keys {
      assert (bps - {key}) * keys == bps * keys - {key};
      assert (bps + {key}) * keys == bps * keys + {key};
    } else {
      assert (bps - {key}) * keys == bps * keys;
      assert (bps + {key}) * keys == bps * keys;
    }
  }

  lemma NoCounterNoBreakpoint(counters: map<nat, int>, bps: set<Key>, trace: Trace, b: nat)
    requires CountersAgree(counters, bps, trace) && b < |trace| && Counter(counters, b) <= 0
    ensures forall i :: 0 <= i < |trace[b]| ==> KeyOf(trace[b][i]) !in bps
  {
    assert ActiveIn(bps, trace[b]) == {};
    forall i | 0 <= i < |trace[b]|
      ensures KeyOf(trace[b][i]) !in bps
    {
      assert KeyOf(trace[b][i]) in Keys(trace[b]);
      assert KeyOf(trace[b][i]) !in ActiveIn(bps, trace[b]);
    }
  }

  lemma BlocksOfKey(idx: Index, trace: Trace, key: Key)
    requires Indexes(idx, trace)
    ensures Get(idx, key).blocks == BlocksWith(trace, key)
  {
  }

  lemma KeyOccurs(trace: Trace, key: Key)
    ensures BlocksWith(trace, key) != {} <==> exists b :: 0 <= b < |trace| && key in Keys(trace[b])
  {
    if b: nat :| b < |trace| && key in Keys(trace[b]) {
      assert b in BlocksWith(trace, key);
    } else {
      assert BlocksWith(trace, key) == {};
    }
  }

  // ---------- the recorded minimum ----------

  /** A block whose saved minimum is above a depth holds no location at that depth or below. */
  lemma SkipIsSound(size: nat, log: Log, blocks: seq<Block>, b: nat)
    requires ReadableTrace(size, log, blocks) && b < |blocks|
    ensures forall i :: 0 <= i < |TraceOf(blocks)[b]| ==>
              log.index[b].minStack <= TraceOf(blocks)[b][i].point.depth
  {
    assert BlockOk(size, blocks[b]);
    PointsAboveLowestDepth(Begin(blocks[b]), blocks[b].code);
    BlockLocationsAreTimed(blocks, b);
  }

  /** The trace comes from a recorder, and every block of it holds at least one location. */
  ghost predicate Playable(size: nat, log: Log, blocks: seq<Block>, trace: Trace) {
    && ReadableTrace(size, log, blocks)
    && trace == TraceOf(blocks)
    && forall b :: 0 <= b < |trace| ==> trace[b] != []
  }

  // ---------- the player ----------

  class TrackExecPlayer {
    const reader: LogsReader
    var idx: nat
    var breakpoints: set<Key>
    var counters: map<nat, int>
    var srcIndex: Index

    ghost predicate Valid()
      reads this, reader
    {
      && reader.Valid() && Playable(reader.size, reader.log, reader.blocks, reader.trace)
      && idx < |reader.trace[reader.blockId]|
      && Indexes(srcIndex, reader.trace)
      && CountersAgree(counters, breakpoints, reader.trace)
    }

    constructor (reader: LogsReader, savedNext: nat, saved: Index)
      requires reader.Valid() && Playable(reader.size, reader.log, reader.blocks, reader.trace)
      requires savedNext <= |reader.blocks| && Indexes(saved, TraceOf(reader.blocks[..savedNext]))
      modifies reader
      ensures Valid() && this.reader == reader && reader.blockId == 0 && idx == 0 && breakpoints == {}
    {
      this.reader := reader;
      idx, breakpoints, counters := 0, {}, map[];
      reader.Seek(0);
      var index := reader.SrcIndex(savedNext, saved);
      srcIndex := index;
      reader.Seek(0);
      new;
      forall b | 0 <= b < |reader.trace|
        ensures Counter(counters, b) == |ActiveIn(breakpoints, reader.trace[b])|
      {
        assert ActiveIn(breakpoints, reader.trace[b]) == {};
      }
    }

    method ToggleBreakpoint(key: Key) returns (ok: bool)
      requires Valid()
      modifies this
      ensures Valid() && idx == old(idx) && srcIndex == old(srcIndex)
      ensures ok <==> key in old(breakpoints) || exists b :: 0 <= b < |reader.trace| && key in Keys(reader.trace[b])
      ensures breakpoints == if key in old(breakpoints) then old(breakpoints) - {key}
                             else if ok then old(breakpoints) + {key} else old(breakpoints)
    {
      hide ReadableTrace, TraceOf, CountersAgree, Indexes, BlocksWith, Keys, Get;
      ok := true;
      var blocks := Get(srcIndex, key).blocks;
      BlocksOfKey(srcIndex, reader.trace, key);
      KeyOccurs(reader.trace, key);
      if key in breakpoints {
        var cs := AddToCounters(counters, blocks, -1);
        ToggleAgrees(counters, cs, breakpoints, key, reader.trace);
        counters, breakpoints := cs, breakpoints - {key};
      } else if blocks != {} {
        var cs := AddToCounters(counters, blocks, 1);
        ToggleAgrees(counters, cs, breakpoints, key, reader.trace);
        counters, breakpoints := cs, breakpoints + {key};
      } else {
        ok := false;
      }
    }

    // ---------- reading the current position ----------

    method ExecPoint() returns (l: Location)
      requires Valid()
      modifies reader
      ensures Valid() && reader.blockId == old(reader.blockId) && l == reader.trace[reader.blockId][idx]
    {
      hide Indexes, CountersAgree, BlockOk;
      var data := reader.BlockSourceData();
      l := data[idx];
    }

    method IsEndOfBlock() returns (end: bool)
      requires Valid()
      modifies reader
      ensures Valid() && reader.blockId == old(reader.blockId)
      ensures end <==> idx == |reader.trace[reader.blockId]| - 1
    {
      hide Indexes, CountersAgree, BlockOk;
      var data := reader.BlockSourceData();
      end := idx == |data| - 1;
    }

    method AtStop(d: int) returns (stop: bool)
      requires Valid()
      modifies reader
      ensures Valid() && reader.blockId == old(reader.blockId)
      ensures stop <==> Stops(reader.trace[reader.blockId][idx], d, breakpoints)
    {
      var l := ExecPoint();
      stop := l.point.depth <= d || KeyOf(l) in breakpoints;
    }

    /** True only when no location of the current block can be a stop. */
    method CanSkipBlock(d: int) returns (skip: bool)
      requires Valid()
      ensures skip ==> forall i :: 0 <= i < |reader.trace[reader.blockId]| ==>
                                     !Stops(reader.trace[reader.blockId][i], d, breakpoints)
    {
      hide Indexes, CountersAgree, BlockOk;
      var b := reader.blockId;
      skip := reader.log.index[b].minStack > d && Counter(counters, b) <= 0;
      if skip {
        SkipIsSound(reader.size, reader.log, reader.blocks, b);
        NoCounterNoBreakpoint(counters, breakpoints, reader.trace, b);
      }
    }

    // ---------- moving ----------

    method JumpToNextBlock()
      requires Valid() && reader.blockId + 1 < |reader.trace|
      modifies this`idx, reader
      ensures Valid() && idx == 0 && reader.blockId == old(reader.blockId) + 1
    {
      hide Indexes, CountersAgree, ReadableTrace, TraceOf;
      reader.Next();
      idx := 0;
    }

    method MoveToEndOfBlock()
      requires Valid()
      modifies this`idx, reader
      ensures Valid() && reader.blockId == old(reader.blockId) && idx == |reader.trace[reader.blockId]| - 1
    {
      hide Indexes, CountersAgree, BlockOk;
      var data := reader.BlockSourceData();
      idx := |data| - 1;
    }

    method Step() returns (moved: bool)
      requires Valid()
      modifies this`idx, reader
      ensures Valid()
      ensures moved <==> !AtEnd(reader.trace, old(reader.blockId), old(idx))
      ensures !moved ==> reader.blockId == old(reader.blockId) && idx == old(idx)
      ensures moved ==> if old(idx) == |reader.trace[old(reader.blockId)]| - 1
                        then reader.blockId == old(reader.blockId) + 1 && idx == 0
                        else reader.blockId == old(reader.blockId) && idx == old(idx) + 1
    {
      hide Indexes, CountersAgree, Playable;
      var last := reader.AtLastBlock();
      var end := IsEndOfBlock();
      moved := !(last && end);
      if moved {
        if end {
          JumpToNextBlock();
        } else {
          idx := idx + 1;
        }
      }
    }

    // ---------- searching ----------

    /** No stop since the position (b0, i0), which is behind the current one. */
    ghost predicate NothingSince(d: int, b0: nat, i0: nat)
      requires Valid()
      reads this, reader
    {
      && Before(b0, i0, reader.blockId, idx)
      && NoStopBetween(reader.trace, d, breakpoints, b0, i0, reader.blockId, idx)
    }

    /** Single-steps until a stop, the end of the trace, or the start of the next block. */
    method ScanBlock(d: int, ghost b0: nat, ghost i0: nat) returns (outcome: Outcome)
      requires Valid() && NothingSince(d, b0, i0)
      modifies this`idx, reader
      ensures Valid()
      ensures outcome.Stopped? ==> NothingSince(d, b0, i0) && Stops(reader.trace[reader.blockId][idx], d, breakpoints)
      ensures outcome.TraceEnded? ==>
                && NothingSince(d, b0, i0) && AtEnd(reader.trace, reader.blockId, idx)
                && NoStopBetween(reader.trace, d, breakpoints, b0, i0, |reader.trace|, 0)
      ensures outcome.BlockEnded? ==> NothingSince(d, b0, i0) && reader.blockId == old(reader.blockId) + 1
    {
      hide Indexes, CountersAgree, Playable, NoStopBetween, Stops;
      while true
        invariant Valid() && reader.blockId == old(reader.blockId) && NothingSince(d, b0, i0)
        decreases |reader.trace[reader.blockId]| - idx
      {
        var stop := AtStop(d);
        if stop {
          return Stopped;
        }
        ExtendByOne(reader.trace, d, breakpoints, b0, i0, reader.blockId, idx);
        var moved := Step();
        if !moved {
          return TraceEnded;
        }
        if idx == 0 {
          return BlockEnded;
        }
      }
    }

    /** "next": the first later location that is no deeper than this one, or that has a breakpoint. */
    method Next() returns (ok: bool)
      requires Valid()
      modifies this`idx, reader
      ensures Valid()
      ensures var b0, i0 := old(reader.blockId), old(idx); var d := reader.trace[b0][i0].point.depth;
              if ok then NothingSince(d, b0, i0) && Stops(reader.trace[reader.blockId][idx], d, breakpoints)
              else NoStopBetween(reader.trace, d, breakpoints, b0, i0, |reader.trace|, 0)
    {
      hide Indexes, CountersAgree, Playable, NoStopBetween, Stops;
      ghost var b0, i0 := reader.blockId, idx;
      var here := ExecPoint();
      var d := here.point.depth;
      var moved := Step();
      if !moved {
        NothingAfterEnd(reader.trace, d, breakpoints, b0, i0);
        return false;
      }
      NothingBetweenNeighbours(reader.trace, d, breakpoints, b0, i0);
      while true
        invariant Valid() && NothingSince(d, b0, i0)
        decreases |reader.trace| - reader.blockId
      {
        var skip := CanSkipBlock(d);
        if skip {
          ExtendByBlock(reader.trace, d, breakpoints, b0, i0, reader.blockId, idx);
          var last := reader.AtLastBlock();
          if last {
            return false;
          }
          JumpToNextBlock();
        } else {
          var outcome := ScanBlock(d, b0, i0);
          if outcome.Stopped? {
            return true;
          } else if outcome.TraceEnded? {
            return false;
          }
        }
      }
    }

    /** "continue": the first later location with a breakpoint, or else the end of the trace. */
    method Continue() returns (ok: bool)
      requires Valid()
      modifies this`idx, reader
      ensures Valid()
      ensures var b0, i0 := old(reader.blockId), old(idx);
              && (ok <==> !AtEnd(reader.trace, b0, i0))
              && (!ok ==> reader.blockId == b0 && idx == i0)
              && (ok ==> NothingSince(-1, b0, i0)
                         && (Stops(reader.trace[reader.blockId][idx], -1, breakpoints)
                             || AtEnd(reader.trace, reader.blockId, idx)))
    {
      hide Indexes, CountersAgree, Playable, NoStopBetween, Stops;
      ghost var b0, i0 := reader.blockId, idx;
      ok := Step();
      if !ok {
        return;
      }
      NothingBetweenNeighbours(reader.trace, -1, breakpoints, b0, i0);
      while true
        invariant Valid() && NothingSince(-1, b0, i0)
        decreases |reader.trace| - reader.blockId
      {
        var skip := CanSkipBlock(-1);
        if skip {
          ExtendByBlock(reader.trace, -1, breakpoints, b0, i0, reader.blockId, idx);
          var last := reader.AtLastBlock();
          if last {
            // the end of the block is the end of the trace
            NothingUpTo(reader.trace, -1, breakpoints, b0, i0, reader.blockId, |reader.trace[reader.blockId]| - 1);
            MoveToEndOfBlock();
            return;
          }
          JumpToNextBlock();
        } else {
          var outcome := ScanBlock(-1, b0, i0);
          if !outcome.BlockEnded? {
            return;
          }
        }
      }
    }

    /** A key press: when the command fails, the player goes back to where it was. */
    method Execute(next: bool) returns (ok: bool)
      requires Valid()
      modifies this`idx, reader
      ensures Valid()
      ensures !ok ==> reader.blockId == old(reader.blockId) && idx == old(idx)
      ensures var b0, i0 := old(reader.blockId), old(idx);
              if next then
                var d := reader.trace[b0][i0].point.depth;
                if ok then NothingSince(d, b0, i0) && Stops(reader.trace[reader.blockId][idx], d, breakpoints)
                else NoStopBetween(reader.trace, d, breakpoints, b0, i0, |reader.trace|, 0)
              else
                && (ok <==> !AtEnd(reader.trace, b0, i0))
                && (ok ==> NothingSince(-1, b0, i0)
                           && (Stops(reader.trace[reader.blockId][idx], -1, breakpoints)
                               || AtEnd(reader.trace, reader.blockId, idx)))
    {
      hide Indexes, CountersAgree, Playable, NoStopBetween, Stops;
      var block, i := reader.blockId, idx;
      if next {
        ok := Next();
      } else {
        ok := Continue();
      }
      if !ok {
        idx := i;
        reader.Seek(block);
      }
    }

    /** Jumps to the last instruction at or before a time, or to the start of the chosen block. The times of the block
        are compared as `round` gives them: as if they had been entered in the format of the viewer. */
    method Jump(target: int, round: int -> int)
      requires Valid() && Monotone(round)
      modifies this`idx, reader
      ensures Valid()
      ensures var b1, starts := reader.blockId, Starts(reader.log.index);
              && (b1 > 0 ==> starts[b1] < target)
              && (b1 + 1 < |reader.trace| ==> target <= starts[b1 + 1])
      ensures var data := reader.trace[reader.blockId];
              && (idx > 0 ==> round(data[idx].timestamp) <= target)
              && (idx + 1 < |data| ==> target < round(data[idx + 1].timestamp))
      ensures JumpedTo(RoundedIn(reader.trace, reader.blockId, round), target, reader.blockId, idx)
    {
      hide Indexes, CountersAgree, ReadableTrace, Stored, BlockOk;
      JumpIsSound(reader.size, reader.log, reader.blocks, target, round);
      reader.SeekByTimestamp(target);
      var data := reader.BlockSourceData();
      idx := IndexBefore(Rounded(data, round), target);
    }
  }

  datatype Outcome = Stopped | TraceEnded | BlockEnded

  // ---------- jumps in time ----------

  function IndexBefore(data: seq<Location>, target: int): (i: nat)
    requires data != []
    ensures i < |data|
  {
    var c := InsertRight(TimesOf(data), target);
    if c == 0 then 0 else c - 1
  }

  ghost predicate Monotone(round: int -> int) {
    forall s, t :: s <= t ==> round(s) <= round(t)
  }

  function Rounded(data: seq<Location>, round: int -> int): (r: seq<Location>)
    ensures |r| == |data|
    ensures forall k :: 0 <= k < |r| ==> r[k] == data[k].(timestamp := round(data[k].timestamp))
  {
    seq(|data|, k requires 0 <= k < |data| => data[k].(timestamp := round(data[k].timestamp)))
  }

  function RoundedIn(trace: Trace, b: nat, round: int -> int): Trace
    requires b < |trace|
  {
    trace[b := Rounded(trace[b], round)]
  }

  /** Everything before the chosen location happened by the target time, everything after it not before. */
  ghost predicate JumpedTo(trace: Trace, target: int, b1: nat, i1: nat) {
    && InTrace(trace, b1, i1)
    && (forall b: nat, i: nat :: InTrace(trace, b, i) && Before(b, i, b1, i1) ==> trace[b][i].timestamp <= target)
    && (forall b: nat, i: nat :: InTrace(trace, b, i) && Before(b1, i1, b, i) ==> target <= trace[b][i].timestamp)
  }

  /** The times of one block are in order, from its start to the start of the next block. */
  ghost predicate InBounds(data: seq<Location>, starts: seq<int>, b: nat)
    requires b < |starts|
  {
    && (forall i :: 0 <= i < |data| ==> starts[b] <= data[i].timestamp)
    && (forall i, j :: 0 <= i <= j < |data| ==> data[i].timestamp <= data[j].timestamp)
    && (b + 1 < |starts| ==> var next := starts[b + 1]; forall i :: 0 <= i < |data| ==> data[i].timestamp <= next)
  }

  ghost predicate BlockBounds(trace: Trace, starts: seq<int>) {
    && |trace| == |starts|
    && (forall j, k :: 0 <= j <= k < |starts| ==> starts[j] <= starts[k])
    && (forall b :: 0 <= b < |trace| ==> InBounds(trace[b], starts, b))
  }

  lemma JumpInBounds(trace: Trace, starts: seq<int>, target: int, round: int -> int)
    requires BlockBounds(trace, starts) && trace != [] && forall b :: 0 <= b < |trace| ==> trace[b] != []
    requires Monotone(round)
    ensures var c := InsertLeft(starts, target); var b1 := if c == 0 then 0 else c - 1;
            var rounded := RoundedIn(trace, b1, round);
            JumpedTo(rounded, target, b1, IndexBefore(rounded[b1], target))
  {
    var c := InsertLeft(starts, target);
    var b1 := if c == 0 then 0 else c - 1;
    var rounded := RoundedIn(trace, b1, round);
    var i1 := IndexBefore(rounded[b1], target);
    forall b: nat, i: nat | InTrace(rounded, b, i) && Before(b, i, b1, i1)
      ensures rounded[b][i].timestamp <= target
    {
      if b < b1 {
        assert trace[b][i].timestamp <= starts[b + 1] <= starts[b1] < target;
      } else {
        assert TimesOf(rounded[b])[i] <= target;
      }
    }
    forall b: nat, i: nat | InTrace(rounded, b, i) && Before(b1, i1, b, i)
      ensures target <= rounded[b][i].timestamp
    {
      if b1 < b {
        assert target <= starts[c] <= starts[b] <= trace[b][i].timestamp;
      } else {
        var r := InsertRight(TimesOf(rounded[b]), target);
        assert trace[b][r].timestamp <= trace[b][i].timestamp;
      }
    }
  }

  lemma BlockTimesBounded(blocks: seq<Block>, b: nat)
    requires Chain(blocks) && b < |blocks|
    ensures var ts := TimesOf(BlockLocations(blocks, b));
            && Increasing(ts)
            && (forall i :: 0 <= i < |ts| ==> blocks[b].timestamp <= ts[i])
            && (b + 1 < |blocks| ==>
                  var next := blocks[b + 1].timestamp; forall i :: 0 <= i < |ts| ==> ts[i] <= next)
  {
    hide RunBlock;
    BlockLocationsAreTimed(blocks, b);
    var end := BlockEnd(blocks, b);
    if b + 1 < |blocks| {
      assert Follows(blocks[b], blocks[b + 1]);
    }
    BlockTimesInOrder(blocks[b], end);
    assert TimesOf(BlockLocations(blocks, b)) == BlockTimes(blocks[b], end);
  }

  lemma StartsInOrder(blocks: seq<Block>, j: nat, k: nat)
    requires Chain(blocks) && j <= k < |blocks|
    ensures blocks[j].timestamp <= blocks[k].timestamp
  {
    if j < k {
      StartsInOrder(blocks, j, k - 1);
      BlockStartsFirst(blocks[k - 1]);
      assert Follows(blocks[k - 1], blocks[k]);
    }
  }

  lemma BoundsOfTrace(blocks: seq<Block>, starts: seq<int>)
    requires Chain(blocks) && |starts| == |blocks|
    requires forall k :: 0 <= k < |blocks| ==> starts[k] == blocks[k].timestamp
    ensures BlockBounds(TraceOf(blocks), starts)
  {
    hide BlockLocations, Chain;
    var trace: Trace := TraceOf(blocks);
    forall j, k | 0 <= j <= k < |starts|
      ensures starts[j] <= starts[k]
    {
      StartsInOrder(blocks, j, k);
    }
    forall b: nat | b < |trace|
      ensures InBounds(trace[b], starts, b)
    {
      BlockTimesBounded(blocks, b);
      assert forall i :: 0 <= i < |trace[b]| ==> TimesOf(trace[b])[i] == trace[b][i].timestamp;
    }
  }

  lemma JumpIsSound(size: nat, log: Log, blocks: seq<Block>, target: int, round: int -> int)
    requires ReadableTrace(size, log, blocks) && Monotone(round)
    requires forall b :: 0 <= b < |blocks| ==> TraceOf(blocks)[b] != []
    ensures var b1, starts := BlockBefore(log.index, target), Starts(log.index);
            var rounded := RoundedIn(TraceOf(blocks), b1, round);
            && |starts| == |blocks|
            && JumpedTo(rounded, target, b1, IndexBefore(rounded[b1], target))
            && (b1 > 0 ==> starts[b1] < target) && (b1 + 1 < |blocks| ==> target <= starts[b1 + 1])
            && var i1, data := IndexBefore(rounded[b1], target), rounded[b1];
            && (i1 > 0 ==> data[i1].timestamp <= target)
            && (i1 + 1 < |data| ==> target < data[i1 + 1].timestamp)
  {
    hide BlockLocations, Chain, BlockOk;
    BoundsOfTrace(blocks, Starts(log.index));
    JumpInBounds(TraceOf(blocks), Starts(log.index), target, round);
  }
}
