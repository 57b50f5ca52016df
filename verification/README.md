# WalT: verified models

Dafny models of the parts of WalT where state, encodings and protocols interact most, with proofs of what these
parts are for. `dafny verify dfyconfig.toml` checks everything.

* **Execution tracer** (`TraceFormat`, `TraceModel`, `RecorderModel`, `RecorderClock`, `LogFiles`, `Recorder`,
  `Decoder`, `Durations`, `SourceIndex`, `Reader`, `BlockDurations`, `Player`, `Replay`). A recorder turns calls,
  returns, lines and clock readings into fixed-size blocks of 16-bit words, with peephole stripping and a stack
  snapshot at the start of each block. `RecorderModel` states this on values and proves it against a plain description
  of what the program did (`SourceRun`); `Recorder` is the program's own form (arrays, counters, files), proved to do
  the same. `Decoder`, `Reader` and `Player` read the files back: decoding loop, one cached map file and block, source
  index, "next", "continue" and jumps that skip whole blocks. `Replay` goes from the recording to the player.
* **VPN relay** (`CircularBuffer`, `Vpn`). A two-segment byte ring and length-prefixed frames over a stream that is cut
  anywhere.
* **Terminal colours** (`Color`, `CutColor`). The pass that drops and postpones escape codes, against what a terminal
  shows.
* **Processes and events** (`RpcModel`, `Rpc`, `PollersCache`, `EventLoopModel`, `EventLoop`). A two-ended
  request/response protocol with optional serialization of requests, and a recursive event loop with its cache of
  poll objects, as step relations over all interleavings and as classes whose methods do those steps.
* **Algorithms** (`Blowfish`, `Utf8`, `DiffieHellman`, `PoePorts`, `TextWrap`). Credentials under an agreed key, the
  mapping of PoE ports to switch interfaces by groups, and exact-width wrapping of coloured text.

Where the program changes objects in place the model has a class or an array method, tied by its contract to a
specification function, and the properties are proved of the latter. A `hide` in a proof only limits what the
verifier looks at.

Six results are about inputs on which the code does not do what one expects; each comes with such an input:

* `TextWrap.WrapEscaped` fails on a text that starts with a blank, exactly under `BlankStartFails` (the first line has
  to be justified and the division of its spaces leaves a remainder): the program then takes the last character of an
  empty word. `TextWrap.BlankStartCanFail` is " a b cccc" in 5 columns; a paragraph that starts with an empty link
  starts with a blank. A first word wider than the line gives an empty line before it (`Lead`).
* `PollersCache.PollersCache.RegisterFd` keeps the cache right exactly when the descriptor is in no cached set, or is
  registered again with the same mask: cached poll objects are not updated by it (`PollersCache.StaleAfterRegister`).
* `CircularBuffer.Ring.FreeSegments` offers the places of all unread bytes when the ring is full
  (`Vpn.FillWithOneFrame`). `Vpn.RingCanBeFull`: that happens to the relay exactly on a stream in which a frame
  announces 65535 bytes and 65536 bytes are there from its start on (`LongFrame`).
* `Color.Optimize` accepts a colour code cut after `38;5` or `48;5`. On a terminal that drops such a code at the end of
  an escape sequence, the output shows what the input does exactly under `CutColor.CutsAreSafe`
  (`CutColor.CutColorsAreShown`, for every accepted text): under a cut colour the last text already had the whole
  colour that the input leaves in place, and no code is written behind the cut one in its sequence, unless the two
  make just the wanted colour. `CutColor.UnderlineIsLost` and `CutColor.RedIsLost` are texts that come out wrong.
* `RpcModel.CallbackFindsItsTask` needs tasks to return only once the calls made on their behalf have reached the peer.
  `RpcModel.EarlyReturnRaises`: whenever a task returns before that, in any reachable state, the run can go on until
  a callback raises. `RpcModel.CallBackIsReached` gets to such a state.
* A player fails on a block without locations, which the last block may be: `Replay.NothingToPlay` is the recording of
  a program that does nothing, `Replay.OneLineCanBePlayed` one of a single line, for each block size.

Clock readings, key presses, results of reads and writes, poll results, private keys, and the rounding of times that
the player does before a jump (any monotone function) are parameters.

## Model

| member | source | states |
|---|---|---|
| TraceFormat.Digits | server/walt/server/trackexec/recorder.py:235-240 | the digits of a timestamp are never an opcode nor END |
| TraceFormat.StampRoundTrip | server/walt/server/trackexec/fast.py:15-22 | the four 15-bit digits give the offset back modulo 2^60, hence exactly when it is below 2^60 |
| TraceFormat.ParseOne | server/walt/server/trackexec/fast.py:53-81 | reading one encoded instruction gives it back and leaves the words after it |
| TraceFormat.ParseEncode | server/walt/server/trackexec/fast.py:53-81 | decoding a padded block gives back exactly the instructions recorded in it |
| TraceFormat.CallIsVisible | server/walt/server/trackexec/recorder.py:188-189 | the word before the last one is the CALL opcode if and only if the last instruction is a CALL |
| TraceFormat.EncodeConcat | server/walt/server/trackexec/recorder.py:173-174 | encoding is a homomorphism from instructions to words |
| TraceModel.LowestDepthIsMinimum | server/walt/server/trackexec/recorder.py:205-209 | the lowest depth of a block is a lower bound over all prefixes of its decoding, and is reached |
| TraceModel.PointsAboveLowestDepth | server/walt/server/trackexec/fast.py:73-81 | no decoded location is shallower than the lowest depth of its block |
| TraceModel.InterpolatedInOrder | server/walt/server/trackexec/fast.py:25-30 | interpolated times are monotone and stay between the two timestamps |
| TraceModel.StampTimesInOrder | server/walt/server/trackexec/fast.py:65-72 | a timestamp closes the open interval: every location has one time, in order, between the bounds |
| TraceModel.RunTimesInOrder | server/walt/server/trackexec/fast.py:53-81 | decoding any instructions keeps times in order and never ahead of the last timestamp |
| TraceModel.BlockTimesInOrder | server/walt/server/trackexec/fast.py:82-90 | each location of a block gets exactly one time, in order, within the bounds of the block |
| TraceModel.InterpolateIsEven | server/walt/server/trackexec/fast.py:25-30 | times spread over an interval: each is at its exact share, rounded down, the first one at the start |
| TraceModel.RunTimesAreEven | server/walt/server/trackexec/fast.py:53-81 | between any two successive timestamps of the instructions, the decoded times are at their exact shares |
| TraceModel.BlockTimesAreEven | server/walt/server/trackexec/fast.py:53-86 | the same for all times of a block, up to its end |
| RecorderModel.EnsureRoomKeeps | server/walt/server/trackexec/recorder.py:122-127 | starting a new block keeps the recorder's invariant, makes room and shows no location |
| RecorderModel.EmitKeeps | server/walt/server/trackexec/recorder.py:156-223 | appending an instruction to the block is one step of its decoder |
| RecorderModel.RecordTimestampKeeps | server/walt/server/trackexec/recorder.py:225-241 | a timestamp keeps the invariant (decoder time equals recorder time) and shows no location |
| RecorderModel.CallKeeps | server/walt/server/trackexec/recorder.py:156-177 | a call keeps the invariant, shows nothing and forgets the line when it enters another file |
| RecorderModel.StripKeeps | server/walt/server/trackexec/recorder.py:181-192 | removing a trailing CALL undoes it for the decoder and leaves the saved minimum right |
| RecorderModel.ReturnKeeps | server/walt/server/trackexec/recorder.py:180-209 | a return, stripped or not, keeps the invariant and shows nothing; the line survives only within one file |
| RecorderModel.LineKeeps | server/walt/server/trackexec/recorder.py:210-223 | a line adds exactly one location, unless it repeats the current line |
| RecorderModel.EventKeeps | server/walt/server/trackexec/recorder.py:156-252 | after any event, decoder and recorder agree with the program on files, line and locations, in whatever block |
| RecorderModel.RunKeeps | server/walt/server/trackexec/recorder.py:156-252 | the same after every run of events |
| RecorderModel.BlockSplittingIsInvisible | server/walt/server/trackexec/recorder.py:82-223 | for every run and sufficient block size, decoding the blocks in order gives the (file, line, depth) sequence of the program |
| RecorderModel.BlockSizeDoesNotMatter | server/walt/server/trackexec/recorder.py:122-127 | two recorders of different block sizes and clocks show the same locations |
| RecorderModel.DecoderKeepsPace | server/walt/server/trackexec/recorder.py:82-96 | the decoder ends each block with the stack and no later than the time the next one starts from; now it is where the recorder is |
| RecorderModel.MinStackIsExact | server/walt/server/trackexec/recorder.py:205-209 | the saved minimum of every block is exactly the minimum depth its decoding goes through |
| RecorderModel.TraceTimesInOrder | server/walt/server/trackexec/reader.py:195-207 | over a chain of blocks there is one time per location, never decreasing, within the bounds |
| RecorderModel.TimesAreMonotone | server/walt/server/trackexec/recorder.py:225-241 | times never decrease over any recorded trace and never pass the recorder's clock |
| RecorderModel.StoppedTrace | server/walt/server/trackexec/recorder.py:254-258 | the blocks written at the stop hold the whole run, each of them well formed, with monotone times |
| RecorderClock.EventClock | server/walt/server/trackexec/recorder.py:82-96 | after an event, the recorder's time is the largest of its time before and the readings that the event uses |
| RecorderClock.ClockAt | server/walt/server/trackexec/recorder.py:225-241 | after any number of events it is the largest reading used, even if the clock goes back |
| RecorderClock.TraceEndsWithTheClock | server/walt/server/trackexec/recorder.py:225-241 | the decoder ends the current block at the largest reading used |
| RecorderClock.StoppedWithTheClock | server/walt/server/trackexec/recorder.py:254-258 | after the stop it ends the last block at the largest of these and the reading of the stop |
| RecorderClock.FlagsAt | server/walt/server/trackexec/recorder.py:243-252 | a line gets a timestamp exactly in a precise section, or if it is the first one after it |
| RecorderClock.RunExtends | server/walt/server/trackexec/recorder.py:122-127 | later events append blocks: they change neither the start of a block nor the time of a location that follows a timestamp |
| RecorderClock.LineIsTimed | server/walt/server/trackexec/recorder.py:210-223 | the location of such a line is the first one after its timestamp |
| RecorderClock.PreciseLinesAreTimed | server/walt/server/trackexec/recorder.py:210-241 | each new line of a precise section, and the first line after it, is decoded at the largest reading up to then, in the running trace and in the stopped one |
| RecorderClock.PreciseLinesAreOnTime | server/walt/server/trackexec/recorder.py:225-241 | if the clock never goes back, that is the reading of its timestamp, or the one for a block started after it |
| RecorderClock.BlocksStartOnTime | server/walt/server/trackexec/recorder.py:82-96 | if the clock never goes back, each block starts at the reading of the event that started it |
| RecorderClock.BlocksAreFull | server/walt/server/trackexec/recorder.py:122-127 | a block is only written when it has no room for a timestamp and an END |
| LogFiles.StackWordsAt | server/walt/server/trackexec/tools.py:13-20 | entry k of a snapshot is at words 2k and 2k+1 of the stack |
| LogFiles.BlockRoundTrip | server/walt/server/trackexec/tools.py:6-20 | a block written in its variable layout is read back with the same stack and instructions, and ends with END |
| LogFiles.FlattenSlot | server/walt/server/trackexec/reader.py:178-184 | chunk k of a concatenation of equal chunks is its k-th slot |
| LogFiles.StoredBlock | server/walt/server/trackexec/reader.py:178-194 | block k is exactly slot k % 32 of map file k / 32, compressed or not |
| LogFiles.FilesKept | server/walt/server/trackexec/recorder.py:104-117 | writing a block keeps every map file equal to its blocks and closes a file exactly when it is full or forced |
| LogFiles.WriteKeeps | server/walt/server/trackexec/recorder.py:98-120 | writing a block extends the stored trace, files and index, by that block |
| Recorder.Uint16Stack.Add | server/walt/server/trackexec/tools.py:33-35 | pushes one word on the view |
| Recorder.Uint16Stack.Pop | server/walt/server/trackexec/tools.py:37-39 | undoes a push and returns the word |
| Recorder.Uint16Stack.Pad | server/walt/server/trackexec/tools.py:55-57 | fills the view up to a size and keeps what was there |
| Recorder.Uint16Stack.Reset | server/walt/server/trackexec/tools.py:59-60 | empties the view |
| Recorder.TrackExecRecorder.constructor | server/walt/server/trackexec/recorder.py:65-75 | a started recorder is in the start state of the model |
| Recorder.TrackExecRecorder.InitBlock | server/walt/server/trackexec/recorder.py:82-96 | the new block has the current stack, an empty bytecode and a start time that does not go back |
| Recorder.TrackExecRecorder.WriteBlock | server/walt/server/trackexec/recorder.py:98-120 | files and index then hold all blocks, this one included |
| Recorder.TrackExecRecorder.EnsureBlockHasRoom | server/walt/server/trackexec/recorder.py:122-127 | refines the model and leaves room for the requested words and an END |
| Recorder.TrackExecRecorder.EmitTimestamp | server/walt/server/trackexec/recorder.py:227-240 | the words written are the encoding of the timestamp instruction |
| Recorder.TrackExecRecorder.StripCall | server/walt/server/trackexec/recorder.py:190-192 | dropping two words drops exactly the last CALL |
| Recorder.TrackExecRecorder.EndsWithCallOpcode | server/walt/server/trackexec/recorder.py:188-189 | the test on words is the test on instructions |
| Recorder.TrackExecRecorder.PopFrame | server/walt/server/trackexec/recorder.py:205-209 | pops the stack and lowers the minimum as the model does |
| Recorder.TrackExecRecorder.RecordTimestamp | server/walt/server/trackexec/recorder.py:225-241 | the in-place code refines the model's timestamp |
| Recorder.TrackExecRecorder.TraceCallFunction | server/walt/server/trackexec/recorder.py:156-177 | the in-place code refines the model's call event |
| Recorder.TrackExecRecorder.TraceReturn | server/walt/server/trackexec/recorder.py:180-209 | the in-place code refines the model's return event |
| Recorder.TrackExecRecorder.TraceLine | server/walt/server/trackexec/recorder.py:210-223 | the in-place code refines the model's line event |
| Recorder.TrackExecRecorder.Enter | server/walt/server/trackexec/recorder.py:243-245 | starts a section of precise timestamps |
| Recorder.TrackExecRecorder.Exit | server/walt/server/trackexec/recorder.py:247-252 | ends it and requests one more timestamp |
| Recorder.TrackExecRecorder.Stop | server/walt/server/trackexec/recorder.py:254-258 | after the final timestamp and flush, the files hold every block |
| Recorder.AddDigits | server/walt/server/trackexec/recorder.py:238-240 | the loop appends the digits of the offset |
| Recorder.RecordTrace | server/walt/server/trackexec/recorder.py:65-258 | after any run of events and the stop, the files hold exactly the blocks of the model |
| Recorder.HandleEvent | server/walt/server/trackexec/recorder.py:156-252 | each event refines its model |
| Decoder.ApplyLinearTimestamps | server/walt/server/trackexec/fast.py:25-30 | fills one interval of the times, each at its exact share of the interval rounded down, and keeps what precedes it |
| Decoder.ParseSplit | server/walt/server/trackexec/fast.py:53-81 | on parsable words, each opcode has its operands inside the array and END ends the code |
| Decoder.BlockAnalysis.CloseInterval | server/walt/server/trackexec/fast.py:67-70 | all locations since the last timestamp get their time |
| Decoder.BlockAnalysis.Timestamp | server/walt/server/trackexec/fast.py:65-72 | the arrays step as the decoder on values |
| Decoder.BlockAnalysis.Location | server/walt/server/trackexec/fast.py:73-81 | the arrays step as the decoder on values |
| Decoder.DecodeOne | server/walt/server/trackexec/fast.py:54-81 | one turn of the loop is one instruction, within the bounds of all arrays |
| Decoder.AnalyseBlock | server/walt/server/trackexec/fast.py:38-90 | the loop terminates without leaving its arrays and returns the points and times of the block's meaning; between successive timestamps, and up to the end of the block, the times are at their exact shares |
| Durations.PopReturned | server/walt/server/trackexec/fast.py:102-113 | the instructions that an instruction returns from get their duration; pending stays the list of open ones |
| Durations.CloseRemaining | server/walt/server/trackexec/fast.py:116-120 | what is still pending runs to the end of the block |
| Durations.ComputeDurations | server/walt/server/trackexec/fast.py:96-121 | the one-pass pending stack gives each instruction the time to the next one of lower or equal depth, or to the block end |
| Durations.NextReturn | server/walt/server/trackexec/fast.py:93-95 | the defining search: first later instruction of lower or equal depth |
| Durations.DurationsAreNonNegative | server/walt/server/trackexec/fast.py:93-95 | on monotone times durations are not negative |
| Durations.OutermostDurationsCoverTheBlock | server/walt/server/trackexec/fast.py:96-121 | the durations of instructions started with an empty pending list sum to block end minus first time |
| BlockDurations.DurationsOfRows | server/walt/server/trackexec/fast.py:96-121 | the durations of given rows, snapshot included |
| BlockDurations.ComputeDurations | server/walt/server/trackexec/reader.py:218-253 | the durations of the current block of the files: snapshot in front, end at the start of the next block or at the last location; fails exactly on a last block without locations |
| BlockDurations.RowsInOrder | server/walt/server/trackexec/reader.py:218-253 | snapshot and locations are in order in time, up to the end |
| BlockDurations.RowsStackUp | server/walt/server/trackexec/reader.py:238-244 | the rows of the snapshot have the depths of the frames, the last one that of the decoder's starting stack |
| BlockDurations.DurationsOfBlock | server/walt/server/trackexec/reader.py:218-253 | on every readable trace durations are not negative, and the outermost ones sum to the end minus the first row, which is the block start when something was running |
| SourceIndex.AddBlock | server/walt/server/trackexec/reader.py:73-84 | each distinct location of the block gets the block id and its count added, others stay |
| SourceIndex.AddBlockExtends | server/walt/server/trackexec/reader.py:67-104 | an exact index of a prefix becomes an exact index of one more block |
| Reader.BlockLocationsAreTimed | server/walt/server/trackexec/reader.py:195-216 | every location of a stored block has exactly one time |
| Reader.LogsReader.Seek | server/walt/server/trackexec/reader.py:138-146 | the cached map file and decoded block stay those of the current block |
| Reader.LogsReader.CurrentBlock | server/walt/server/trackexec/reader.py:178-194 | whatever is cached, the words returned are those written for the current block |
| Reader.LogsReader.BlockSourceData | server/walt/server/trackexec/reader.py:169-173 | whatever is cached, the data is the decoded current block |
| Reader.LogsReader.ReadBlock | server/walt/server/trackexec/reader.py:186-216 | decodes the current block with its start and end times |
| SourceIndex.SameIndex | server/walt/server/trackexec/reader.py:73-84 | the index depends on the keys of the locations only, not on their times |
| SourceIndex.EmptyIndex | server/walt/server/trackexec/reader.py:41-42 | where nothing is indexed, the empty index is exact |
| Reader.IndexOfPrefix | server/walt/server/trackexec/reader.py:50-63 | an index of a trace that has grown since, whose last block had no known end, is an exact index of its first blocks |
| Reader.LogsReader.SrcIndex | server/walt/server/trackexec/reader.py:49-110 | extended from an index saved when the trace was shorter, the index has for each key exactly its blocks and count; the position is restored |
| Reader.LogsReader.FirstSrcIndex | server/walt/server/trackexec/reader.py:49-110 | the same for an index built at once |
| Reader.LogsReader.SeekByTimestamp | server/walt/server/trackexec/reader.py:148-155 | selects the last block that starts before the target, or the first |
| Reader.DecodeWords | server/walt/server/trackexec/reader.py:200-216 | the stored words of block k decode to its timed locations |
| Reader.ReadStored | server/walt/server/trackexec/reader.py:178-184 | the view of a stored block has its stack and its code |
| Reader.ReaderShowsAPrefix | server/walt/server/trackexec/reader.py:186-216 | while the program runs, the blocks written so far are readable and show its first locations |
| Reader.ReaderShowsTheRun | server/walt/server/trackexec/reader.py:186-216 | end to end: what is read of the files of a stopped recording is exactly the locations the program went through, at the times of the trace |
| Player.ToggleAgrees | server/walt/server/trackexec/player.py:79-100 | a toggle keeps every block counter equal to the number of active breakpoints in the block |
| Player.SkipIsSound | server/walt/server/trackexec/player.py:181-192 | a block whose saved minimum is above a depth has no location at that depth or below |
| Player.TrackExecPlayer.constructor | server/walt/server/trackexec/player.py:71-77 | a player starts at the first location, without breakpoints, with an exact source index |
| Player.TrackExecPlayer.ToggleBreakpoint | server/walt/server/trackexec/player.py:79-100 | toggles the breakpoint; refused exactly for lines that never occur in the trace |
| Player.TrackExecPlayer.CanSkipBlock | server/walt/server/trackexec/player.py:182-192 | a skipped block holds no stop |
| Player.TrackExecPlayer.Step | server/walt/server/trackexec/player.py:157-165 | moves to the next location of the flattened trace; fails exactly at its end |
| Player.TrackExecPlayer.ScanBlock | server/walt/server/trackexec/player.py:194-206 | single-steps to the first stop, the end of the trace or the next block |
| Player.TrackExecPlayer.Next | server/walt/server/trackexec/player.py:173-206 | stops at the first later location no deeper than the start or with a breakpoint; fails exactly when there is none |
| Player.TrackExecPlayer.Continue | server/walt/server/trackexec/player.py:208-235 | stops at the first later breakpoint, else at the end of the trace; fails exactly when already there |
| Player.TrackExecPlayer.Execute | server/walt/server/trackexec/player.py:385-398 | a command succeeds when, and stops where, "next" and "continue" do; a failed one leaves the position unchanged |
| Player.TrackExecPlayer.Jump | server/walt/server/trackexec/player.py:237-260 | the block starts before the target and the next one does not; in it, with the times rounded as the viewer does, the location is the last one at or before the target; over the whole trace, earlier locations are at or before the target and later ones at or after it |
| Player.JumpInBounds | server/walt/server/trackexec/player.py:237-260 | the two searches, in blocks and in a block, compose, with both clamped ends |
| Player.BoundsOfTrace | server/walt/server/trackexec/reader.py:195-207 | the blocks of a recorded trace are ordered in time as the jump needs |
| Player.JumpIsSound | server/walt/server/trackexec/reader.py:148-155 | the jump is right on every recorded trace, for any monotone rounding of the times in the block |
| Replay.RecordAndPlay | server/walt/server/trackexec/player.py:71-77 | recorder, files, reader and player composed: the player opens on exactly the locations of the program |
| Replay.NothingToPlay | server/walt/server/trackexec/recorder.py:254-258 | a recording without events is one block without locations |
| Replay.OneLineCanBePlayed | server/walt/server/trackexec/recorder.py:225-258 | a recording of one line leaves no block without locations exactly if its block has room for the final timestamp |
| CircularBuffer.FreeIsFree | server/walt/server/ext/vpn.c:134-153 | the offered segments are distinct places and hold no unread byte |
| CircularBuffer.Ring.FreeSegments | server/walt/server/ext/vpn.c:134-153 | the segments cover exactly the free space, in filling order; on a full ring they are the places of the unread bytes |
| CircularBuffer.Ring.ReadIntoFree | server/walt/server/ext/vpn.c:134-154 | readv puts the data right after the unread bytes and overwrites none of them |
| CircularBuffer.Ring.Fill | server/walt/server/ext/vpn.c:134-167 | received bytes are appended to the queue; unread bytes are kept; fill = flush + level modulo size |
| CircularBuffer.Ring.Pass | server/walt/server/ext/vpn.c:211-217 | drops the oldest bytes |
| CircularBuffer.Ring.UnreadSegments | server/walt/server/ext/vpn.c:169-192 | the segments are exactly the oldest bytes, in order |
| CircularBuffer.Ring.Flush | server/walt/server/ext/vpn.c:169-209 | the accepted bytes are the oldest ones and leave the queue; an error leaves it unchanged |
| CircularBuffer.Ring.PeekShort | server/walt/server/ext/vpn.c:219-228 | the big-endian short of the two oldest bytes, also across the wrap |
| CircularBuffer.Readv | server/walt/server/ext/vpn.c:154-154 | scattered data fills the segments in order and touches nothing else |
| CircularBuffer.Writev | server/walt/server/ext/vpn.c:193-193 | gathers the segments in order |
| Vpn.Deframe | server/walt/server/ext/vpn.c:315-331 | what is left after parsing holds no complete frame |
| Vpn.DeframeAppend | server/walt/server/ext/vpn.c:300-331 | parsing can stop at any byte and resume: where the stream is cut does not matter |
| Vpn.DeframeFramed | server/walt/server/ext/vpn.c:243-246 | framing any packets below 65536 bytes and parsing gives them back, nothing left |
| Vpn.LengthsInOrder | server/walt/server/ext/vpn.c:238-246 | the high byte of a length comes first |
| Vpn.PrefixDelivery | server/walt/server/ext/vpn.c:300-331 | the packets in any received prefix are the first packets sent, and all of them at the end |
| Vpn.BoundedPrefix | server/walt/server/ext/vpn.c:315-320 | bounds on announced lengths hold for what is left after parsing any prefix |
| Vpn.FramedIsBounded | server/walt/server/ext/vpn.c:284-294 | bounded packets make a stream with bounded announced lengths |
| Vpn.FullRingIsStuck | server/walt/server/ext/vpn.c:315-320 | a full ring holds no complete frame if and only if the first frame announces 65535 bytes |
| Vpn.LongFrameFills | server/walt/server/ext/vpn.c:300-331 | on a stream with such a frame inside, the ring is full after some part of it |
| Vpn.FillsMeansLongFrame | server/walt/server/ext/vpn.c:300-331 | a ring that is full after some part of a stream shows such a frame in it |
| Vpn.RingCanBeFull | server/walt/server/ext/vpn.c:300-331 | the exact condition on the stream under which the ring can be full |
| Vpn.OverrunNeedsLongFrame | server/walt/server/ext/vpn.c:300-331 | so the loop only runs into a full ring on such a stream |
| Vpn.BoundedIsNotLong | server/walt/server/ext/vpn.c:315-320 | announced lengths of at most 65534 exclude it |
| Vpn.FillWithOneFrame | server/walt/server/ext/vpn.c:134-153 | such a frame fills the ring without leaving it, and the next readv is given the places of all unread bytes |
| Vpn.PrefixIsBounded | server/walt/server/ext/vpn.c:284-294 | a stream cut anywhere announces no longer frames than the whole |
| Vpn.RingHasRoom | server/walt/server/ext/vpn.c:307-320 | after all complete packets are out the ring is not full, so fill = flush means empty |
| Vpn.WriteFd | server/walt/server/ext/vpn.c:78-98 | succeeds exactly when no write fails before all bytes are out, however short the writes; then all bytes went out in order, else what the writes before the failing one accepted |
| Vpn.WriteOne | server/walt/server/ext/vpn.c:322-330 | one flush writes exactly the packet of the first frame |
| Vpn.WritePackets | server/walt/server/ext/vpn.c:314-331 | writes exactly the complete frames and keeps the unparsed suffix |
| Vpn.ReadMore | server/walt/server/ext/vpn.c:300-331 | the bytes of one read continue the stream from the unparsed suffix |
| Vpn.RelayFromTap | server/walt/server/ext/vpn.c:282-299 | one tap packet becomes one frame on the channel; ends exactly on an empty read, with nothing changed, or on a failed write, with the accepted part of the frame on the channel |
| Vpn.RelayFromSsh | server/walt/server/ext/vpn.c:300-332 | whatever readv delivers, of any stream, the tap gets the complete frames of the bytes so far, or those before the first one it refuses; ends exactly on the end of the stream, a refused packet, or a full ring, and only the second changes something |
| Vpn.TransferLoop | server/walt/server/ext/vpn.c:248-338 | `Handled`: the polls handled alone fix the packets taken and the bytes received; the channel has the frames of all packets taken, up to the cut of a failed write, and the tap all complete frames received, up to a refused one; only the last poll ends the loop, for its exact reason, and a full ring needs a `LongFrame` |
| Vpn.TapToTap | server/walt/server/ext/vpn.c:248-338 | two composed endpoints, whatever ended them: the second tap has the first packets taken, in order, even if the channel is cut in the middle of a frame, and once all bytes arrived all of them, or those before the first one it refuses; the second ring is never full |
| Color.PaletteIsFaithful | doc/walt/doc/color.py:26-31 | palette codes are valid colours and distinct for distinct colours |
| Color.ApplyConcat | doc/walt/doc/color.py:173-215 | a sequence of codes means the composition of its parts |
| Color.CodesByAttribute | doc/walt/doc/color.py:173-215 | for each attribute, the codes that set it, those that clear it, and that no other code is known or changes it |
| Color.BoldDimCodes | doc/walt/doc/color.py:63-77 | the codes change bold and dim to the new values and nothing else; none are emitted exactly when nothing changes |
| Color.GetTransition | doc/walt/doc/color.py:56-92 | the codes turn the old format into the new one; empty exactly when they are equal |
| Color.ReadCodes | doc/walt/doc/color.py:170-215 | reads an escape sequence as a terminal with the given defaults does, a cut colour as a colour of two codes; raises exactly on codes it does not know |
| Color.ReadIsApply | doc/walt/doc/color.py:170-215 | on whole colours the optimizer reads codes as a terminal does |
| Color.UnderstoodAnywhere | doc/walt/doc/color.py:173-215 | whether codes are understood does not depend on the state |
| Color.ApplyKeepsValid | doc/walt/doc/color.py:173-215 | understood codes keep the two colours valid |
| Color.EmitDiff | doc/walt/doc/color.py:137-167 | the emitted codes, in their order, lead from the terminal's state to the wanted part of the target; none are emitted exactly when nothing has to change |
| Color.EmitBoldDim | doc/walt/doc/color.py:151-165 | bold and dim reach the target though one code turns both off |
| Color.PieceKeeps | doc/walt/doc/color.py:111-216 | one run of characters is shown as in the input, spaces with the right background |
| Color.ResetLeadsToDefaults | doc/walt/doc/color.py:98-100 | the appended codes lead to the defaults from any state |
| Color.Optimize | doc/walt/doc/color.py:95-217 | on understood codes the output shows the input's characters with its attributes and ends in the defaults; an escape sequence is written exactly where the text behind it would look wrong without it, and changes only what that text shows; it raises exactly on unknown codes; on all texts, cut colours included, it is `Optimized` |
| CutColor.ReadMatches | doc/walt/doc/color.py:170-215 | reading keeps the program's belief equal to the terminal's state, but for cut colours |
| CutColor.StyleDiffReaches | doc/walt/doc/color.py:145-167 | the codes of styles reach the target |
| CutColor.FirstStyleCounts | doc/walt/doc/color.py:145-167 | without the first of them they never do |
| CutColor.StyleIsLost | doc/walt/doc/color.py:139-167 | a style written behind a cut colour completes the colour and is lost |
| CutColor.CompletedByForeground | doc/walt/doc/color.py:139-144 | a foreground written behind a cut background is shown as wanted exactly if it is not needed and completes the background to the wanted one |
| CutColor.SequenceIsShown | doc/walt/doc/color.py:137-169 | one escape sequence shows what the input has for the text behind it exactly when it is `Safe` |
| CutColor.CutColorsAreShown | doc/walt/doc/color.py:95-217 | for every text the program accepts, the output shows what the input does and ends in the defaults if and only if the cut colours are safe |
| CutColor.UnderlineIsLost | doc/walt/doc/color.py:137-167 | `ESC[38;5m` `ESC[4m` X comes out as `ESC[38;5;4m` X, in another colour and not underlined |
| CutColor.RedIsLost | doc/walt/doc/color.py:120-144 | `ESC[31m` `ESC[38;5m` X comes out as `ESC[38;5m` X, not in red |
| RpcModel.AcceptKeeps | server/walt/server/process.py:493-525 | handling a result keeps the tracking of all requests and never raises |
| RpcModel.StepKeeps | server/walt/server/process.py:479-619 | every step of either end keeps both ends consistent |
| RpcModel.PlayKeeps | server/walt/server/process.py:479-619 | so does every interleaving |
| RpcModel.ResultNamesSubmittedTask | server/walt/server/process.py:493-525 | a result in the pipe is unique, names a task still submitted at its receiver and is handled without error |
| RpcModel.OneRequestOut | server/walt/server/process.py:592-619 | submitted tasks are exactly the queue, those being finished and those out; serialized, at most one is out |
| RpcModel.RequestsLeaveInOrder | server/walt/server/process.py:592-619 | requests leave one by one in the order of send_task |
| RpcModel.AcceptedOnce | server/walt/server/process.py:493-525 | over a run, a request gets its result exactly once if it is finished, and never otherwise |
| RpcModel.AnsweredOnce | server/walt/server/process.py:388-409 | answers given equal answers in the pipe plus answers accepted, and are at most one per request |
| RpcModel.SendsAreTracked | server/walt/server/process.py:592-619 | over every interleaving, submitted tasks have the parent and the mode of the call with their number |
| RpcModel.ResultsArePicked | server/walt/server/process.py:493-525 | the result of a synchronous call waits exactly from its arrival until its caller picks it up; an asynchronous call never leaves one |
| RpcModel.ParentsAlwaysRun | server/walt/server/process.py:570-590 | when tasks return only once the calls made on their behalf have reached the peer, tasks with calls still queued or in the pipe are running |
| RpcModel.CallbackFindsItsTask | server/walt/server/process.py:529-533 | under the same discipline, every callback finds the task it names still submitted, and is started without error |
| RpcModel.UnknownTaskRaises | server/walt/server/process.py:529-533 | in any reachable state, a queued or sent call for a task that is no longer submitted can be carried on until a callback raises |
| RpcModel.EarlyReturnRaises | server/walt/server/process.py:487-533 | the converse: in any reachable state, if a task with such a call returns, the run can go on until a callback raises |
| RpcModel.CallBackIsReached | server/walt/server/process.py:570-619 | a run reaches a state with such a call |
| Rpc.RPCProcessConnector.SendTask | server/walt/server/process.py:592-619 | the in-place code refines the model |
| Rpc.RPCProcessConnector.AcceptResult | server/walt/server/process.py:493-506 | the in-place code refines the model, errors included |
| Rpc.RPCProcessConnector.FinishResult | server/walt/server/process.py:525-526 | the in-place code refines the model |
| Rpc.RPCProcessConnector.HandleApiCall | server/walt/server/process.py:529-538 | the in-place code refines the model, errors included |
| Rpc.RPCProcessConnector.ReturnResult | server/walt/server/process.py:388-409 | the in-place code refines the model; a second result is refused |
| PollersCache.PollersCache.Get | common/walt/common/evloop.py:103-118 | cached or not, the poll object watches exactly the given descriptors with their latest masks, and is cached afterwards |
| PollersCache.PollersCache.AddEntry | common/walt/common/evloop.py:105-117 | a new entry keeps the maps mutually inverse and the reverse index exact |
| PollersCache.PollersCache.RegisterFd | common/walt/common/evloop.py:119-121 | the cache stays right if and only if no cached set has the descriptor, or its mask is the same |
| PollersCache.StaleAfterRegister | common/walt/common/evloop.py:119-121 | registering a polled descriptor with another mask leaves a cached poll object that watches the first one |
| PollersCache.PollersCache.UpdateFd | common/walt/common/evloop.py:133-137 | all cached poll objects follow the new mask |
| PollersCache.PollersCache.RemoveFd | common/walt/common/evloop.py:122-132 | no cached set mentions the descriptor any more and the rest stays right |
| PollersCache.FreshIsWatching | common/walt/common/evloop.py:112-118 | a cached poll object equals one built afresh |
| PollersCache.UnknownFd | common/walt/common/evloop.py:119-132 | a descriptor that is not registered is in no cached set |
| EventLoopModel.DispatchKeeps | common/walt/common/evloop.py:324-344 | entering a handler, or removing its listener on error, keeps the invariant |
| EventLoopModel.ReturnKeeps | common/walt/common/evloop.py:336-344 | so does its return |
| EventLoopModel.RegisterKeeps | common/walt/common/evloop.py:213-217 | registering keeps the invariant exactly when the descriptor is free or already this listener's |
| EventLoopModel.ChosenKeeps | common/walt/common/evloop.py:285-324 | the chosen event has a registered listener that may be entered |
| EventLoopModel.StepKeeps | common/walt/common/evloop.py:205-344 | every step keeps the invariant and none raises |
| EventLoopModel.NeverRaises | common/walt/common/evloop.py:324-324 | in every reachable state, the listener of the event to handle is registered |
| EventLoopModel.PendingIsSound | common/walt/common/evloop.py:170-180 | every pending descriptor has a registered listener and is not disabled |
| EventLoopModel.NeverReentered | common/walt/common/evloop.py:328-339 | a listener that does not allow reordering is never entered again while its handler runs |
| EventLoopModel.NothingStaysDisabled | common/walt/common/evloop.py:332-339 | descriptors are disabled exactly while such a handler runs |
| EventLoopModel.RegisteredUntilDropped | common/walt/common/evloop.py:213-235 | a listener is registered exactly if it was registered and has had since no removal, no error event and no return of False |
| EventLoopModel.PendingUntilCleared | common/walt/common/evloop.py:170-180 | a notification is pending exactly if poll reported it and it was not taken, updated or dropped since |
| EventLoopModel.HandlersNest | common/walt/common/evloop.py:324-339 | an event without error enters the listener of its descriptor, a return leaves the last one entered |
| EventLoopModel.PolledAre | common/walt/common/evloop.py:164-168 | a loop polls exactly the registered descriptors on which no handler has to finish first |
| EventLoop.EventLoop.RegisterListener | common/walt/common/evloop.py:213-217 | refines the model; loop and poller cache stay right on a free descriptor, and on a used one exactly for the same listener and a mask the cache agrees with |
| EventLoop.EventLoop.UpdateListener | common/walt/common/evloop.py:205-211 | refines the model; the poll masks follow, stale notifications are dropped |
| EventLoop.EventLoop.RemoveListener | common/walt/common/evloop.py:220-235 | refines the model; reports whether the listener was still there |
| EventLoop.EventLoop.PopPendingEvent | common/walt/common/evloop.py:170-180 | takes the oldest pending notification that is allowed, with its status, or reports that there is none; the others keep their order |
| EventLoop.WithoutOne | common/walt/common/evloop.py:205-235 | dropping a descriptor drops its notification and no other |
| EventLoop.PutOne | common/walt/common/evloop.py:317-319 | a notification is added or replaced, one for each descriptor |
| EventLoop.PutInOrder | common/walt/common/evloop.py:317-319 | a new notification comes last, a newer one takes the place of the older one |
| EventLoop.WithoutInOrder | common/walt/common/evloop.py:170-180 | dropping one keeps the order of the others |
| EventLoop.EventLoop.GetPoller | common/walt/common/evloop.py:164-168 | the poll object watches exactly the descriptors to poll, with their latest masks |
| EventLoop.EventLoop.NextEvent | common/walt/common/evloop.py:285-319 | the oldest allowed pending notification first, with its stored status, else the first polled event, the others becoming pending in order; none exactly when there is neither |
| EventLoop.EventLoop.Turn | common/walt/common/evloop.py:285-336 | a turn up to the handler is nothing, or one possible step of the model on the event that `NextEvent` gives, with its status |
| EventLoop.EventLoop.BeginEvent | common/walt/common/evloop.py:324-336 | refines the start of a handler, or the removal on error; pending notifications stay as they are |
| EventLoop.EventLoop.EndEvent | common/walt/common/evloop.py:337-347 | refines its return: the listener goes exactly if the handler returned False |
| Blowfish.BackwardUndoesForward | common/walt/common/crypto/blowfish.py:48-93 | after i rounds, decryption is where encryption was 16 - i rounds in, up to two keys |
| Blowfish.DecipherUndoesEncipher | common/walt/common/crypto/blowfish.py:48-93 | for any P-array and S-boxes, block decryption inverts block encryption |
| Blowfish.ChunkOfBytes | common/walt/common/crypto/blowfish.py:145-158 | the big-endian bytes of a block give it back |
| Blowfish.BytesOfChunk | common/walt/common/crypto/blowfish.py:145-158 | the block of 8 bytes gives them back |
| Blowfish.Padded | common/walt/common/crypto/blowfish.py:110-114 | 1 to 8 bytes are added, each holding their number, up to a multiple of 8 |
| Blowfish.DecipherAllUndoes | common/walt/common/crypto/blowfish.py:118-137 | block by block, decryption inverts encryption |
| Blowfish.DecryptUndoesEncrypt | common/walt/common/crypto/blowfish.py:107-143 | every byte string comes back, whatever the tables |
| Utf8.ValueOfOne | common/walt/common/crypto/blowfish.py:108-108 | the octets of a code point hold its number and announce their count |
| Utf8.DecodeEncode | common/walt/common/crypto/blowfish.py:143-143 | strict UTF-8 decoding gives every encoded text back |
| Blowfish.TextRoundTrip | common/walt/common/crypto/blowfish.py:107-143 | every text without surrogates comes back, whatever the tables |
| Blowfish.ValueOfDigits | common/walt/common/crypto/blowfish.py:18-25 | the hexadecimal digits of a key, padded or truncated, have its value but for the digits cut off |
| Blowfish.SubkeyIsKeyWord | common/walt/common/crypto/blowfish.py:27-34 | subkey i is the 32-bit word i modulo the number of words of the key, counted from its highest one |
| Blowfish.KeyedByWords | common/walt/common/crypto/blowfish.py:31-35 | each P-box is combined with its word of the key |
| Blowfish.ScheduleChainsP | common/walt/common/crypto/blowfish.py:37-41 | each pair of P-boxes is the encryption of the pair before it under the tables at that moment |
| Blowfish.ScheduleChainsBox | common/walt/common/crypto/blowfish.py:43-46 | the same for the pairs of an S-box |
| Blowfish.BlowFish.constructor | common/walt/common/crypto/blowfish.py:9-46 | the in-place key schedule computes the tables of the key |
| Blowfish.BlowFish.RewriteBox | common/walt/common/crypto/blowfish.py:43-46 | one S-box is rewritten pair by pair under the tables so far |
| Blowfish.BlowFish.BfEncrypt | common/walt/common/crypto/blowfish.py:48-69 | the round loop is the Feistel network |
| Blowfish.BlowFish.BfDecrypt | common/walt/common/crypto/blowfish.py:71-93 | the reversed round loop is its inverse |
| Blowfish.BlowFish.Encrypt | common/walt/common/crypto/blowfish.py:107-126 | encodes and encrypts a text; fails exactly on surrogates |
| Blowfish.BlowFish.EncryptBytes | common/walt/common/crypto/blowfish.py:110-126 | the loop encrypts the padded message |
| Blowfish.BlowFish.Decrypt | common/walt/common/crypto/blowfish.py:128-143 | decrypts and decodes a text, or reports why not |
| Blowfish.BlowFish.DecryptBytes | common/walt/common/crypto/blowfish.py:128-141 | the loop decrypts and unpads, failing on an empty input |
| DiffieHellman.PowOfMod | common/walt/common/crypto/dh.py:47-53 | powers commute with reduction |
| DiffieHellman.PowPow | common/walt/common/crypto/dh.py:47-53 | powers of powers multiply exponents |
| DiffieHellman.KeysAgree | common/walt/common/crypto/dh.py:47-53 | for all private keys both peers derive the same key |
| DiffieHellman.DHPeer.constructor | common/walt/common/crypto/dh.py:56-60 | the public key of the private key |
| DiffieHellman.DHPeer.EstablishSession | common/walt/common/crypto/dh.py:65-68 | sets the key derived from the remote public key |
| DiffieHellman.CredentialsRoundTrip | server/walt/server/processes/blocking/service.py:32-43 | the password one peer encrypts is the one the other decrypts |
| DiffieHellman.Login | client/walt/client/auth.py:7-16 | the same with the objects of both sides, surrogates included |
| PoePorts.FirstGroup | server/walt/server/snmp/poe.py:87-94 | listed group by group, the first group is a prefix |
| PoePorts.SlicesAreGroups | server/walt/server/snmp/poe.py:104-106 | cutting every n ports cuts exactly between the groups |
| PoePorts.EndsTellRun | server/walt/server/snmp/poe.py:118-119 | the test on both ends of a range decides whether its numbers are consecutive |
| PoePorts.FindRun | server/walt/server/snmp/poe.py:107-125 | finds the first hole that starts a run, or shows that no later one does; terminates |
| PoePorts.GroupLength | server/walt/server/snmp/poe.py:87-94 | the common length of the groups, or none |
| PoePorts.NextGroup | server/walt/server/snmp/poe.py:104-129 | one more group on one more run keeps the mapping good |
| PoePorts.MapSlices | server/walt/server/snmp/poe.py:100-131 | succeeds exactly when there are enough runs, with a good mapping |
| PoePorts.MapByGroups | server/walt/server/snmp/poe.py:83-131 | an order-preserving bijection onto all ports, each group on consecutive interfaces; succeeds exactly when lengths agree and runs suffice |
| TextWrap.SplitGivesWords | doc/walt/doc/markdown.py:217-217 | no blank in a word, and only the first or last word may be empty |
| TextWrap.SplitLay | doc/walt/doc/markdown.py:217-217 | splitting a layout of words gives the words back, whatever the blanks between them |
| TextWrap.VisibleLine | doc/walt/doc/markdown.py:218-224 | a line is as wide as its words without colours plus its gaps |
| TextWrap.MinWidthIsVisible | doc/walt/doc/markdown.py:218-220 | the width tested for a new word is that of the words with single spaces |
| TextWrap.AddAfterSigns | doc/walt/doc/markdown.py:189-195 | one pass gives spaces from left to right after words ending with a sign, at most one each |
| TextWrap.RankOfSign | doc/walt/doc/markdown.py:187-194 | sentence ends rank first, colons second, commas third, all else last |
| TextWrap.AddAfterAllSigns | doc/walt/doc/markdown.py:187-195 | stronger signs are served first, and all of them if spaces remain; an empty first word fails exactly when there is a space to give |
| TextWrap.SpotsAreDistinct | doc/walt/doc/markdown.py:196-200 | the evenly spread places are in range and distinct |
| TextWrap.SpotsAreEven | doc/walt/doc/markdown.py:196-200 | the places cut the gaps into parts whose sizes differ by one at most |
| TextWrap.SpreadEvenly | doc/walt/doc/markdown.py:199-200 | each place gets one space, the others none |
| TextWrap.FillGaps | doc/walt/doc/markdown.py:183-200 | the gaps sum to the available spaces, each at most 2 over the average |
| TextWrap.Justify | doc/walt/doc/markdown.py:171-203 | empty, single, sparse and justified lines, with their exact gaps; when it fails |
| TextWrap.SparseFromFive | doc/walt/doc/markdown.py:176-178 | a line is left unjustified exactly if it has at least 5 spaces for each gap |
| TextWrap.FinishLine | doc/walt/doc/markdown.py:221-229 | a finished line is full: of exactly the target width unless single or sparse |
| TextWrap.AddWord | doc/walt/doc/markdown.py:230-233 | a word that fits joins the line |
| TextWrap.WrappingKeepsWords | doc/walt/doc/markdown.py:212-235 | split again, the wrapped text gives the words of the text in order, for any width |
| TextWrap.UnbreakKeepsWidth | doc/walt/doc/markdown.py:236-238 | reverting non-breaking spaces keeps widths |
| TextWrap.WrappedLinesArePrinted | doc/walt/doc/markdown.py:235-238 | cut at its newlines, the result is the lines laid out, non-breaking spaces reverted |
| TextWrap.WrapEscaped | doc/walt/doc/markdown.py:212-238 | fails exactly under `BlankStartFails`; otherwise it prints greedy lines of exact width holding all the words |
| TextWrap.BlankStartCanFail | doc/walt/doc/markdown.py:189-195 | " a b cccc" in 5 columns is such a failure |

## Left out

- Python tracing hooks, choice of the traced files, forked children, source archives, gzip and memory-mapped files: only events, words and map files are modelled.
- Numba and numpy: `searchsorted` and `unique` are functions; times are unbounded integers, so wrap-around of 64-bit times is not modelled.
- Floating point: `linspace` is exact interpolation rounded down.
- Recorder.TrackExecRecorder.constructor: the snapshot of the calling code is given; clock readings are below 2^60, block size at most 65536 words, and a stack of depth d needs 2d + 7 words.
- Reader.LogsReader.SrcIndex: cumulated durations, the third entry of each item, are not in the index, because the end of the last block changes when the trace grows; the durations of a block are in `BlockDurations`.
- Reader.LogsReader.FirstSrcIndex: the same.
- Player.TrackExecPlayer.Next: every block holds at least one location, which the program takes for granted (`Replay.EachHasLocations`); screens, scrolling and prompts are left out.
- Trace analysis, pager and command-line tools: they only display what is modelled here.
- Vpn.TransferLoop: select, signals and allocation; a tap write takes the whole packet or fails. The model stops when the ring is full, where the program goes on with overwritten bytes.
- Color.Optimize: the text is given already split at its colour sequences; leading zeros of codes are not modelled.
- RpcModel.PlayKeeps: messages may be handled in any order, which covers batches and nested loops but also orders that cannot happen; pipes stay healthy and nothing is said about liveness.
- EventLoop.EventLoop.NextEvent: planned events, timeouts, signals and the reuse of a poll object within one turn are left out; polled events are of enabled descriptors.
- EventLoop.EventLoop.PopPendingEvent: the order of the polled tuple is not fixed; a listener keeps its descriptor and its `allow_reordering`.
- Blowfish.BlowFish.constructor: the digits of pi are a parameter.
- DiffieHellman.KeysAgree: modulus, generator and the quality of private keys are parameters.
- PoePorts.MapByGroups: the two simpler strategies, SNMP requests and the cache of mappings are not modelled; outside increasing interfaces and ports listed group by group only termination is proved.
- TextWrap.WrapEscaped: tables, links and quoting of the Markdown renderer are left out.
- Process start-up, node and image management, HTTP services, podman and mounts: wrappers around other programs.
