/**
 The layout of a trace on disk: blocks of a fixed number of words, 32 blocks per map file,
 one index entry per block (trackexec/const.py, trackexec/tools.py, recorder.py _write_block).
 */
module LogFiles {
  import opened Wrappers
  import opened Arithmetic
  import opened TraceFormat
  import opened TraceModel
  import opened RecorderModel

  const BLOCKS_PER_FILE: nat := 32

  datatype IndexEntry = IndexEntry(timestamp: nat, minStack: nat)

  // `plain` holds map files still being filled, `zipped` the compressed ones; both are keyed by file number.
  datatype Log = Log(plain: map<nat, seq<Word>>, zipped: map<nat, seq<Word>>, index: seq<IndexEntry>)

  function MapFile(log: Log, num: nat): Option<seq<Word>> {
    if num in log.plain then Some(log.plain[num])
    else if num in log.zipped then Some(log.zipped[num])
    else None
  }

  // ---------- one block ----------

  predicate Fits(size: nat, b: Block) {
    size <= 0x1_0000 && HasRoom(size, b, 0)
  }

  function StackWords(frames: seq<Frame>): (ws: seq<Word>)
    ensures |ws| == 2 * |frames|
  {
    if frames == [] then []
    else StackWords(DropLast(frames)) + [Last(frames).fileId, Last(frames).lineno]
  }

  function BlockWords(size: nat, b: Block): (ws: seq<Word>)
    requires Fits(size, b)
    ensures |ws| == size
  {
    [|b.snapshot|] + StackWords(b.snapshot) + PaddedCode(size, b)
  }

  function PaddedCode(size: nat, b: Block): (ws: seq<Word>)
    requires Fits(size, b)
    ensures |ws| == Capacity(size, |b.snapshot|)
  {
    Encode(b.code) + Padding(Capacity(size, |b.snapshot|) - |Encode(b.code)|)
  }

  // what the reader sees through the block data type
  predicate Readable(ws: seq<Word>) {
    ws != [] && 1 + 2 * ws[0] <= |ws|
  }

  function ReadStack(ws: seq<Word>): seq<Frame>
    requires Readable(ws)
  {
    seq(ws[0], k requires 0 <= k < ws[0] => Frame(ws[1 + 2 * k], ws[2 + 2 * k]))
  }

  function ReadBytecode(ws: seq<Word>): seq<Word>
    requires Readable(ws)
  {
    var depth: nat := ws[0];
    ws[1 + 2 * depth..]
  }

  lemma {:induction false} StackWordsAt(frames: seq<Frame>, k: nat)
    requires k < |frames|
    ensures StackWords(frames)[2 * k] == frames[k].fileId && StackWords(frames)[2 * k + 1] == frames[k].lineno
  {
    if k < |frames| - 1 {
      StackWordsAt(DropLast(frames), k);
    }
  }

  // frame k of the words of a block whose snapshot takes `words`
  lemma WordsOfFrame(n: Word, words: seq<Word>, tail: seq<Word>, k: nat)
    requires |words| == 2 * n && k < n
    ensures var ws := [n] + words + tail; ws[1 + 2 * k] == words[2 * k] && ws[2 + 2 * k] == words[2 * k + 1]
  {
  }

  lemma StackRoundTrip(frames: seq<Frame>, tail: seq<Word>)
    requires |frames| < 0x1_0000
    ensures var ws := [|frames|] + StackWords(frames) + tail;
            Readable(ws) && ReadStack(ws) == frames && ReadBytecode(ws) == tail
  {
    hide StackWords;
    var words := StackWords(frames);
    var ws := [|frames|] + words + tail;
    assert ws[1 + 2 * |frames|..] == tail;
    forall k | 0 <= k < |frames|
      ensures ReadStack(ws)[k] == frames[k]
    {
      StackWordsAt(frames, k);
      WordsOfFrame(|frames|, words, tail, k);
    }
  }

  lemma CodeRoundTrip(size: nat, b: Block)
    requires Fits(size, b) && ValidCode(b.code)
    ensures var ws := PaddedCode(size, b);
            ws != [] && Parse(ws) == Some(b.code) && ws[|ws| - 1] == END
  {
    var pad := Capacity(size, |b.snapshot|) - |Encode(b.code)|;
    hide Parse, Encode;
    ParseEncode(b.code, pad);
    assert Padding(pad)[pad - 1] == END;
  }

  /** Reading a stored block gives back its stack, with line numbers, and its instructions. */
  lemma BlockRoundTrip(size: nat, b: Block)
    requires Fits(size, b) && ValidCode(b.code)
    ensures var ws := BlockWords(size, b);
            Readable(ws) && ReadStack(ws) == b.snapshot && Parse(ReadBytecode(ws)) == Some(b.code)
            && ws[|ws| - 1] == END
  {
    CodeRoundTrip(size, b);
    assert |b.snapshot| < 0x1_0000;
    hide PaddedCode, Parse, Readable, ReadStack, ReadBytecode, StackWords;
    StackRoundTrip(b.snapshot, PaddedCode(size, b));
  }

  // ---------- blocks in files ----------

  predicate AllFit(size: nat, bs: seq<Block>) {
    forall k :: 0 <= k < |bs| ==> Fits(size, bs[k])
  }

  function Flatten(chunks: seq<seq<Word>>): seq<Word> {
    if chunks == [] then [] else Flatten(DropLast(chunks)) + Last(chunks)
  }

  lemma {:induction false} FlattenSlot(size: nat, chunks: seq<seq<Word>>, k: nat)
    requires forall j :: 0 <= j < |chunks| ==> |chunks[j]| == size
    requires k <= |chunks|
    ensures |Flatten(chunks)| == |chunks| * size
    ensures k < |chunks| ==> 0 <= k * size <= k * size + size <= |Flatten(chunks)|
                             && Flatten(chunks)[k * size..k * size + size] == chunks[k]
  {
    if chunks != [] {
      var init := DropLast(chunks);
      Distribute(|init|, size);
      if k < |init| {
        FlattenSlot(size, init, k);
      } else {
        FlattenSlot(size, init, |init|);
      }
    }
  }

  function Chunks(size: nat, bs: seq<Block>): (chunks: seq<seq<Word>>)
    requires AllFit(size, bs)
    ensures |chunks| == |bs|
    ensures forall k :: 0 <= k < |bs| ==> |chunks[k]| == size && chunks[k] == BlockWords(size, bs[k])
  {
    seq(|bs|, k requires 0 <= k < |bs| => BlockWords(size, bs[k]))
  }

  /** The part of a sequence of blocks that belongs to map file num. */
  function FilePart(chunks: seq<seq<Word>>, num: nat): seq<seq<Word>>
    requires num * BLOCKS_PER_FILE <= |chunks|
  {
    var low := num * BLOCKS_PER_FILE;
    if |chunks| <= low + BLOCKS_PER_FILE then chunks[low..] else chunks[low..low + BLOCKS_PER_FILE]
  }

  ghost predicate FilesHold(log: Log, chunks: seq<seq<Word>>) {
    forall num: nat :: num * BLOCKS_PER_FILE < |chunks| ==>
      MapFile(log, num) == Some(Flatten(FilePart(chunks, num)))
  }

  function Entry(b: Block): IndexEntry {
    IndexEntry(b.timestamp, b.minStack)
  }

  /** Every block has an index entry, and every map file holds exactly its blocks. */
  ghost predicate Stored(size: nat, log: Log, bs: seq<Block>) {
    && AllFit(size, bs)
    && |log.index| == |bs|
    && (forall k :: 0 <= k < |bs| ==> log.index[k] == Entry(bs[k]))
    && FilesHold(log, Chunks(size, bs))
  }

  // slot `slot` of a file
  function Slot(size: nat, ws: seq<Word>, slot: nat): Option<seq<Word>> {
    if 0 <= slot * size <= slot * size + size <= |ws| then Some(ws[slot * size..slot * size + size]) else None
  }

  lemma PartSlot(size: nat, chunks: seq<seq<Word>>, k: nat, num: nat, slot: nat)
    requires k < |chunks| && forall j :: 0 <= j < |chunks| ==> |chunks[j]| == size
    requires k == num * BLOCKS_PER_FILE + slot && slot < BLOCKS_PER_FILE
    ensures slot < |FilePart(chunks, num)| && FilePart(chunks, num)[slot] == chunks[k]
    ensures forall j :: 0 <= j < |FilePart(chunks, num)| ==> |FilePart(chunks, num)[j]| == size
  {
  }

  lemma FileHolds(log: Log, chunks: seq<seq<Word>>, num: nat)
    requires FilesHold(log, chunks) && num * BLOCKS_PER_FILE < |chunks|
    ensures MapFile(log, num) == Some(Flatten(FilePart(chunks, num)))
  {
  }

  lemma StoredAt(size: nat, log: Log, bs: seq<Block>, k: nat, num: nat, slot: nat)
    requires Stored(size, log, bs) && k < |bs|
    requires k == num * BLOCKS_PER_FILE + slot && slot < BLOCKS_PER_FILE
    ensures var file := MapFile(log, num);
            file.Some? && Slot(size, file.value, slot) == Some(BlockWords(size, bs[k]))
  {
    var chunks := Chunks(size, bs);
    PartSlot(size, chunks, k, num, slot);
    FileHolds(log, chunks, num);
    hide Stored, FilePart, Flatten, MapFile, FilesHold;
    FlattenSlot(size, FilePart(chunks, num), slot);
  }

  /** Block k is found in file k / 32 at slot k % 32. */
  lemma StoredBlock(size: nat, log: Log, bs: seq<Block>, k: nat)
    requires Stored(size, log, bs) && k < |bs|
    ensures var file := MapFile(log, k / BLOCKS_PER_FILE);
            file.Some? && Slot(size, file.value, k % BLOCKS_PER_FILE) == Some(BlockWords(size, bs[k]))
  {
    StoredAt(size, log, bs, k, k / BLOCKS_PER_FILE, k % BLOCKS_PER_FILE);
  }

  // ---------- writing a block ----------

  /** A map file is closed when it is full, or when the last block is flushed. */
  function WriteBlockTo(size: nat, log: Log, num: nat, ws: seq<Word>, entry: IndexEntry, force: bool): (Log, nat) {
    var content := OpenContent(log, num) + ws;
    if force || |content| == size * BLOCKS_PER_FILE then
      (Log(log.plain - {num}, log.zipped[num := content], log.index + [entry]), num + 1)
    else
      (Log(log.plain[num := content], log.zipped, log.index + [entry]), num)
  }

  function OpenContent(log: Log, num: nat): seq<Word> {
    if num in log.plain then log.plain[num] else []
  }

  /** Only the file numbered `num` is open, and only when it is not full. */
  predicate OpenFile(log: Log, count: nat, num: nat) {
    num == count / BLOCKS_PER_FILE && log.plain.Keys == if count % BLOCKS_PER_FILE == 0 then {} else {num}
  }

  lemma AppendToPart(chunks: seq<seq<Word>>, ws: seq<Word>, num: nat)
    requires num == |chunks| / BLOCKS_PER_FILE
    ensures FilePart(chunks + [ws], num) == FilePart(chunks, num) + [ws]
    ensures |FilePart(chunks + [ws], num)| == BLOCKS_PER_FILE <==> (|chunks| + 1) % BLOCKS_PER_FILE == 0
    ensures FilePart(chunks, num) == [] <==> |chunks| % BLOCKS_PER_FILE == 0
  {
  }

  lemma ContentOfOpenFile(size: nat, log: Log, chunks: seq<seq<Word>>, ws: seq<Word>, num: nat)
    requires size > 0 && FilesHold(log, chunks) && OpenFile(log, |chunks|, num)
    requires |ws| == size && forall j :: 0 <= j < |chunks| ==> |chunks[j]| == size
    ensures var content := OpenContent(log, num) + ws;
            && content == Flatten(FilePart(chunks + [ws], num))
            && (|content| == size * BLOCKS_PER_FILE <==> (|chunks| + 1) % BLOCKS_PER_FILE == 0)
  {
    var here := FilePart(chunks, num);
    AppendToPart(chunks, ws, num);
    assert OpenContent(log, num) == Flatten(here) by {
      if num in log.plain {
        assert MapFile(log, num) == Some(log.plain[num]);
      }
    }
    assert DropLast(here + [ws]) == here;
    FlattenSlot(size, here + [ws], 0);
    SameMultiple(|here| + 1, BLOCKS_PER_FILE, size);
  }

  lemma SameMultiple(a: nat, b: nat, size: nat)
    requires size > 0
    ensures a * size == size * b <==> a == b
  {
    if a < b {
      MulMonotone(a + 1, b, size);
    } else if b < a {
      MulMonotone(b + 1, a, size);
    }
  }

  lemma FilesKept(size: nat, log: Log, chunks: seq<seq<Word>>, ws: seq<Word>, num: nat, entry: IndexEntry, force: bool)
    requires size > 0 && FilesHold(log, chunks) && OpenFile(log, |chunks|, num)
    requires |ws| == size && forall j :: 0 <= j < |chunks| ==> |chunks[j]| == size
    ensures var (log', num') := WriteBlockTo(size, log, num, ws, entry, force);
            FilesHold(log', chunks + [ws]) && (!force ==> OpenFile(log', |chunks| + 1, num'))
  {
    var (log', num') := WriteBlockTo(size, log, num, ws, entry, force);
    ContentOfOpenFile(size, log, chunks, ws, num);
    forall f: nat | f * BLOCKS_PER_FILE < |chunks + [ws]|
      ensures MapFile(log', f) == Some(Flatten(FilePart(chunks + [ws], f)))
    {
      if f != num {
        assert FilePart(chunks + [ws], f) == FilePart(chunks, f);
      }
    }
  }

  /** Writing a block keeps all earlier blocks where they were and puts the new one after them. */
  lemma WriteKeeps(size: nat, log: Log, bs: seq<Block>, b: Block, num: nat, force: bool)
    requires size > 0 && Stored(size, log, bs) && OpenFile(log, |bs|, num) && Fits(size, b)
    ensures var (log', num') := WriteBlockTo(size, log, num, BlockWords(size, b), Entry(b), force);
            Stored(size, log', bs + [b]) && (!force ==> OpenFile(log', |bs| + 1, num'))
  {
    FilesKept(size, log, Chunks(size, bs), BlockWords(size, b), num, Entry(b), force);
    assert Chunks(size, bs + [b]) == Chunks(size, bs) + [BlockWords(size, b)];
  }
}
