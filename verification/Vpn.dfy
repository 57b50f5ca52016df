/**
 Ethernet packets over a byte stream: length-prefixed frames, and the loop that relays packets between
 the tap interface and the ssh channel (server/ext/vpn.c, store_packet_len to ssh_tap_transfer_loop).
 */
module Vpn {
  import opened CircularBuffer

  type Packet = seq<Byte>

  const ETHERNET_MAX_SIZE := 1514
  const LENGTH_SIZE := 2
  const BUFFER_SIZE := 0x1_0000

  // ---------- frames ----------

  function LengthBytes(n: nat): seq<Byte> {
    [n / 0x100 % 0x100, n % 0x100]
  }

  /** The high byte comes first: encoded lengths are in the order of the lengths. */
  lemma LengthsInOrder(n: nat, m: nat)
    requires n < m < 0x1_0000
    ensures var a, b := LengthBytes(n), LengthBytes(m);
            |a| == |b| == LENGTH_SIZE && (a[0] < b[0] || (a[0] == b[0] && a[1] < b[1]))
  {
  }

  function Frame(p: Packet): seq<Byte> {
    LengthBytes(|p|) + p
  }

  function Framed(ps: seq<Packet>): seq<Byte> {
    if ps == [] then [] else Frame(ps[0]) + Framed(ps[1..])
  }

  function HeaderOf(bytes: seq<Byte>): nat
    requires |bytes| >= LENGTH_SIZE
  {
    Short(bytes[0], bytes[1])
  }

  // does a complete frame stand at the front?
  predicate HasFrame(bytes: seq<Byte>) {
    |bytes| >= LENGTH_SIZE && |bytes| >= LENGTH_SIZE + HeaderOf(bytes)
  }

  datatype Parsed = Parsed(packets: seq<Packet>, rest: seq<Byte>)

  /** The complete frames of a byte sequence, and the bytes left after them. */
  function Deframe(bytes: seq<Byte>): (r: Parsed)
    ensures !HasFrame(r.rest)
    decreases |bytes|
  {
    if !HasFrame(bytes) then Parsed([], bytes)
    else
      var r := Deframe(AfterFrame(bytes));
      Parsed([FirstPacket(bytes)] + r.packets, r.rest)
  }

  function FirstPacket(bytes: seq<Byte>): Packet
    requires HasFrame(bytes)
  {
    bytes[LENGTH_SIZE..LENGTH_SIZE + HeaderOf(bytes)]
  }

  function AfterFrame(bytes: seq<Byte>): seq<Byte>
    requires HasFrame(bytes)
  {
    bytes[LENGTH_SIZE + HeaderOf(bytes)..]
  }

  lemma FrameOfAppend(a: seq<Byte>, b: seq<Byte>)
    requires HasFrame(a)
    ensures HasFrame(a + b) && FirstPacket(a + b) == FirstPacket(a) && AfterFrame(a + b) == AfterFrame(a) + b
  {
    var end := LENGTH_SIZE + HeaderOf(a);
    assert (a + b)[end..] == a[end..] + b;
    assert (a + b)[LENGTH_SIZE..end] == a[LENGTH_SIZE..end];
  }

  /** Parsing can stop at any byte and go on later: where the stream is cut does not matter. */
  lemma {:induction false} DeframeAppend(a: seq<Byte>, b: seq<Byte>)
    ensures var left := Deframe(a); var right := Deframe(left.rest + b);
            Deframe(a + b) == Parsed(left.packets + right.packets, right.rest)
    decreases |a|
  {
    hide HasFrame, HeaderOf, FirstPacket, AfterFrame;
    if HasFrame(a) {
      var tail := AfterFrame(a);
      FrameOfAppend(a, b);
      FrameIsShorter(a);
      DeframeAppend(tail, b);
      var right := Deframe(Deframe(tail).rest + b);
      assert [FirstPacket(a)] + (Deframe(tail).packets + right.packets)
          == ([FirstPacket(a)] + Deframe(tail).packets) + right.packets;
    }
  }

  lemma FrameIsShorter(bytes: seq<Byte>)
    requires HasFrame(bytes)
    ensures |AfterFrame(bytes)| < |bytes|
  {
  }

  predicate Encodable(ps: seq<Packet>) {
    forall k :: 0 <= k < |ps| ==> |ps[k]| < 0x1_0000
  }

  lemma FrameAtFront(p: Packet, tail: seq<Byte>)
    requires |p| < 0x1_0000
    ensures HasFrame(Frame(p) + tail) && HeaderOf(Frame(p) + tail) == |p|
    ensures (Frame(p) + tail)[LENGTH_SIZE..LENGTH_SIZE + |p|] == p && (Frame(p) + tail)[LENGTH_SIZE + |p|..] == tail
  {
  }

  /** Framing loses nothing. */
  lemma {:induction false} DeframeFramed(ps: seq<Packet>)
    requires Encodable(ps)
    ensures Deframe(Framed(ps)) == Parsed(ps, [])
  {
    if ps != [] {
      FrameAtFront(ps[0], Framed(ps[1..]));
      DeframeFramed(ps[1..]);
    }
  }

  /** Whatever part of the stream has arrived, the packets found in it are the first packets sent. */
  lemma PrefixDelivery(ps: seq<Packet>, k: nat)
    requires Encodable(ps) && k <= |Framed(ps)|
    ensures Deframe(Framed(ps)[..k]).packets <= ps
    ensures k == |Framed(ps)| ==> Deframe(Framed(ps)[..k]) == Parsed(ps, [])
  {
    var stream := Framed(ps);
    assert stream == stream[..k] + stream[k..];
    DeframeAppend(stream[..k], stream[k..]);
    DeframeFramed(ps);
  }

  // ---------- frames that fit the ring ----------

  /** No frame of the stream announces more than `limit` bytes. */
  predicate LengthsBounded(bytes: seq<Byte>, limit: nat)
    decreases |bytes|
  {
    |bytes| >= LENGTH_SIZE ==>
      HeaderOf(bytes) <= limit &&
      (HasFrame(bytes) ==> LengthsBounded(bytes[LENGTH_SIZE + HeaderOf(bytes)..], limit))
  }

  lemma {:induction false} BoundedPrefix(bytes: seq<Byte>, k: nat, limit: nat)
    requires k <= |bytes| && LengthsBounded(bytes, limit)
    ensures LengthsBounded(Deframe(bytes[..k]).rest, limit)
    decreases |bytes|
  {
    var a := bytes[..k];
    if HasFrame(a) {
      var end := LENGTH_SIZE + HeaderOf(a);
      assert a[end..] == bytes[end..][..k - end];
      BoundedPrefix(bytes[end..], k - end, limit);
    }
  }

  lemma {:induction false} FramedIsBounded(ps: seq<Packet>, limit: nat)
    requires Encodable(ps) && forall k :: 0 <= k < |ps| ==> |ps[k]| <= limit
    ensures LengthsBounded(Framed(ps), limit)
  {
    if ps != [] {
      FrameAtFront(ps[0], Framed(ps[1..]));
      FramedIsBounded(ps[1..], limit);
    }
  }

  /** A ring that is completely full still holds a complete frame, unless the frame at its front announces
      the largest length two bytes can encode. Frames of up to 65534 bytes therefore never fill the ring. */
  lemma FullRingIsStuck(bytes: seq<Byte>)
    requires |bytes| == BUFFER_SIZE
    ensures !HasFrame(bytes) <==> HeaderOf(bytes) == 0xffff
  {
  }

  /** Somewhere in the stream a frame starts that announces 65535 bytes, and the stream goes on for 65536 bytes at
      least from there. */
  predicate LongFrame(bytes: seq<Byte>)
    decreases |bytes|
  {
    || (|bytes| >= BUFFER_SIZE && HeaderOf(bytes) == 0xffff)
    || (HasFrame(bytes) && LongFrame(bytes[LENGTH_SIZE + HeaderOf(bytes)..]))
  }

  /** The ring can be full after some part of the stream has arrived. */
  ghost predicate FillsRing(bytes: seq<Byte>, k: nat) {
    k <= |bytes| && |Deframe(bytes[..k]).rest| == BUFFER_SIZE
  }

  lemma {:induction false} LongFrameFills(bytes: seq<Byte>) returns (k: nat)
    requires LongFrame(bytes)
    ensures FillsRing(bytes, k)
    decreases |bytes|
  {
    if |bytes| >= BUFFER_SIZE && HeaderOf(bytes) == 0xffff {
      k := BUFFER_SIZE;
      assert HeaderOf(bytes[..k]) == HeaderOf(bytes);
      FullRingIsStuck(bytes[..k]);
      NoFrameToParse(bytes[..k]);
    } else {
      var end := LENGTH_SIZE + HeaderOf(bytes);
      var j := LongFrameFills(bytes[end..]);
      k := end + j;
      var a := bytes[..k];
      assert a[end..] == bytes[end..][..j];
      assert HasFrame(a) && HeaderOf(a) == HeaderOf(bytes);
    }
  }

  lemma {:induction false} FillsMeansLongFrame(bytes: seq<Byte>, k: nat)
    requires FillsRing(bytes, k)
    ensures LongFrame(bytes)
    decreases |bytes|
  {
    var a := bytes[..k];
    if HasFrame(a) {
      var end := LENGTH_SIZE + HeaderOf(a);
      assert a[end..] == bytes[end..][..k - end];
      FillsMeansLongFrame(bytes[end..], k - end);
    } else {
      NoFrameToParse(a);
      FullRingIsStuck(a);
    }
  }

  /** Exactly on such streams can the ring be full. */
  lemma RingCanBeFull(bytes: seq<Byte>)
    ensures LongFrame(bytes) <==> exists k :: FillsRing(bytes, k)
  {
    if LongFrame(bytes) {
      var k := LongFrameFills(bytes);
    }
    if k :| FillsRing(bytes, k) {
      FillsMeansLongFrame(bytes, k);
    }
  }

  // ---------- sending ----------

  function Sum(results: seq<int>): int {
    if results == [] then 0 else Sum(results[..|results| - 1]) + results[|results| - 1]
  }

  /** Write k is the first one to fail, and it is reached: the writes before it do not take all the bytes. */
  ghost predicate FailsAt(size: nat, results: seq<int>, k: nat) {
    && k < |results| && results[k] < 0
    && (forall j :: 0 <= j < k ==> results[j] >= 0)
    && 0 <= Sum(results[..k]) < size
  }

  ghost predicate NoFailure(size: nat, results: seq<int>) {
    forall k :: 0 <= k < |results| ==> !FailsAt(size, results, k)
  }

  lemma SumNext(results: seq<int>, k: nat)
    requires k < |results|
    ensures Sum(results[..k + 1]) == Sum(results[..k]) + results[k]
  {
    assert results[..k + 1][..k] == results[..k];
  }

  // writes that have taken all the bytes cannot fail later
  lemma {:induction false} EnoughWritten(size: nat, results: seq<int>, calls: nat, k: nat)
    requires calls <= k < |results| && Sum(results[..calls]) >= size
    ensures (forall j :: 0 <= j < k ==> results[j] >= 0) ==> Sum(results[..k]) >= size
  {
    if calls < k {
      EnoughWritten(size, results, calls, k - 1);
      SumNext(results, k - 1);
    }
  }

  /** Writes the bytes in as many calls as it takes; the k-th call accepts results[k] bytes, -1 being an error,
      and calls beyond the given results accept everything. What went out before an error is what the calls before it
      accepted. */
  method WriteFd(data: seq<Byte>, results: seq<int>) returns (ok: bool, sent: seq<Byte>)
    ensures ok <==> NoFailure(|data|, results)
    ensures ok ==> sent == data
    ensures !ok ==> exists k: nat :: FailsAt(|data|, results, k) && sent == data[..Sum(results[..k])]
  {
    sent := [];
    var start, calls := 0, 0;
    while start < |data|
      invariant 0 <= start <= |data| && sent == data[..start] && calls >= 0
      invariant forall j :: 0 <= j < calls && j < |results| ==> results[j] >= 0
      invariant calls <= |results| ==> if start < |data| then Sum(results[..calls]) == start
                                       else Sum(results[..calls]) >= start
      invariant calls > |results| ==> start == |data|
      decreases |data| - start, |results| - calls
    {
      var res := |data| - start;
      if calls < |results| {
        SumNext(results, calls);
        if results[calls] < res {
          res := results[calls];
        }
      }
      if res < 0 {
        assert FailsAt(|data|, results, calls);
        return false, sent;
      }
      calls := calls + 1;
      sent := sent + data[start..start + res];
      start := start + res;
      assert data[..start] == data[..start - res] + data[start - res..start];
    }
    forall k | 0 <= k < |results|
      ensures !FailsAt(|data|, results, k)
    {
      if calls <= k {
        EnoughWritten(|data|, results, calls, k);
      }
    }
    ok := true;
  }

  // ---------- receiving ----------

  /** The writes of all these packets were accepted. */
  ghost predicate AllWritten(out: seq<Packet>, tapOk: nat -> bool) {
    forall n: nat :: n < |out| ==> tapOk(n)
  }

  /** Writes all complete packets to the tap interface; the n-th write since the start fails when !tapOk(n). */
  method WritePackets(ring: Ring, tapOk: nat -> bool, tapOut: seq<Packet>) returns (ok: bool, out: seq<Packet>)
    requires ring.Valid() && AllWritten(tapOut, tapOk)
    modifies ring
    ensures ring.Valid() && AllWritten(out, tapOk)
    ensures var r := Deframe(old(ring.Contents()));
            if ok then out == tapOut + r.packets && ring.Contents() == r.rest
            else tapOut <= out < tapOut + r.packets && !tapOk(|out|)
  {
    hide HasFrame, FirstPacket, AfterFrame, Deframe, AllWritten, Short;
    out := tapOut;
    ghost var all := Deframe(ring.Contents());
    while ring.level >= LENGTH_SIZE
      invariant ring.Valid() && AllWritten(out, tapOk)
      invariant tapOut <= out && StillToWrite(tapOut, all, out, ring.Contents())
      decreases ring.level
    {
      ghost var bytes := ring.Contents();
      var packetLen := ring.PeekShort();
      FrameIsComplete(bytes);
      if ring.level < LENGTH_SIZE + packetLen {
        break; // not enough data
      }
      SomethingLeft(tapOut, all, out, bytes);
      var written;
      ok, written := WriteOne(ring, packetLen, tapOk(|out|));
      if !ok {
        return;
      }
      OnePacketOut(tapOut, all, out, bytes);
      OneMoreWritten(out, written, tapOk);
      out := out + [written];
    }
    FrameIsComplete(ring.Contents());
    NoFrameToParse(ring.Contents());
    ok := true;
  }

  /** The packets written, and those still in the bytes, are all the packets. */
  ghost predicate StillToWrite(start: seq<Packet>, all: Parsed, out: seq<Packet>, bytes: seq<Byte>) {
    out + Deframe(bytes).packets == start + all.packets && Deframe(bytes).rest == all.rest
  }

  lemma OnePacketOut(start: seq<Packet>, all: Parsed, out: seq<Packet>, bytes: seq<Byte>)
    requires StillToWrite(start, all, out, bytes) && HasFrame(bytes)
    ensures StillToWrite(start, all, out + [FirstPacket(bytes)], AfterFrame(bytes))
  {
    var r := Deframe(AfterFrame(bytes));
    assert Deframe(bytes) == Parsed([FirstPacket(bytes)] + r.packets, r.rest);
    hide FirstPacket, AfterFrame;
    assert (out + [FirstPacket(bytes)]) + r.packets == out + ([FirstPacket(bytes)] + r.packets);
  }

  lemma SomethingLeft(start: seq<Packet>, all: Parsed, out: seq<Packet>, bytes: seq<Byte>)
    requires StillToWrite(start, all, out, bytes) && HasFrame(bytes)
    ensures out < start + all.packets
  {
    assert Deframe(bytes).packets != [];
  }

  lemma OneMoreWritten(out: seq<Packet>, packet: Packet, tapOk: nat -> bool)
    requires AllWritten(out, tapOk) && tapOk(|out|)
    ensures AllWritten(out + [packet], tapOk)
  {
  }

  lemma FrameIsComplete(bytes: seq<Byte>)
    ensures HasFrame(bytes) <==> |bytes| >= LENGTH_SIZE && |bytes| >= LENGTH_SIZE + HeaderOf(bytes)
  {
  }

  /** Passes the length field and writes one packet. */
  method WriteOne(ring: Ring, packetLen: nat, writable: bool) returns (ok: bool, written: Packet)
    requires ring.Valid() && HasFrame(ring.Contents()) && packetLen == HeaderOf(ring.Contents())
    modifies ring
    ensures ring.Valid() && ok == writable
    ensures ok ==> written == FirstPacket(old(ring.Contents())) && ring.Contents() == AfterFrame(old(ring.Contents()))
    ensures ok ==> ring.level < old(ring.level)
  {
    ghost var bytes := ring.Contents();
    assert bytes[LENGTH_SIZE..][..packetLen] == FirstPacket(bytes);
    assert bytes[LENGTH_SIZE..][packetLen..] == AfterFrame(bytes);
    assert LENGTH_SIZE + packetLen <= |bytes|;
    hide HasFrame, HeaderOf, FirstPacket, AfterFrame, Short;
    ring.Pass(LENGTH_SIZE);
    ok, written := ring.Flush(packetLen, if writable then packetLen else -1);
  }

  // ---------- the select loop ----------

  // What select and the call after it produce: one read on the tap (1 packet, or nothing on error) and the
  // results of the writes on the ssh channel, or a readv on the ssh channel that would like `want` bytes.
  datatype Poll =
    | TapReady(packet: Packet, writes: seq<int>)
    | SshReady(want: nat)

  // Overrun is not a status of the program: the ring is full, and the next readv would be given the places of the
  // unread bytes (CircularBuffer.Ring.FreeSegments). The model stops there.
  datatype Status = Running | ShouldReinit | ShouldAbort | Overrun

  /** Bytes received so far from the ssh channel, packets taken so far from the tap. */
  datatype Progress = Progress(received: nat, taken: seq<Packet>, sshOut: seq<Byte>, tapOut: seq<Packet>)

  predicate ValidPoll(p: Poll) {
    p.TapReady? ==> |p.packet| <= ETHERNET_MAX_SIZE
  }

  /** What any run has done so far, whatever the sizes of the reads and writes were. */
  ghost predicate Relayed(stream: seq<Byte>, s: Progress) {
    && s.received <= |stream|
    && (forall k :: 0 <= k < |s.taken| ==> |s.taken[k]| <= ETHERNET_MAX_SIZE)
    && s.sshOut <= Framed(s.taken)
    && s.tapOut <= Deframe(stream[..s.received]).packets
  }

  /** The channel has the frames of all packets taken, and the tap all complete frames received. */
  ghost predicate Complete(stream: seq<Byte>, s: Progress, pending: seq<Byte>) {
    && Relayed(stream, s)
    && s.sshOut == Framed(s.taken)
    && Parsed(s.tapOut, pending) == Deframe(stream[..s.received])
  }

  lemma FramedAppend(ps: seq<Packet>, p: Packet)
    ensures Framed(ps + [p]) == Framed(ps) + Frame(p)
  {
    if ps == [] {
      assert [p][1..] == [];
    } else {
      assert (ps + [p])[1..] == ps[1..] + [p];
      FramedAppend(ps[1..], p);
    }
  }

  /** One packet from the tap to the ssh channel, behind its length. */
  method RelayFromTap(ghost stream: seq<Byte>, ghost pending: seq<Byte>, s: Progress, packet: Packet, writes: seq<int>)
    returns (s': Progress, status: Status)
    requires Complete(stream, s, pending) && |packet| <= ETHERNET_MAX_SIZE
    ensures Relayed(stream, s') && (status.Running? ==> Complete(stream, s', pending))
    ensures s' == s.(taken := s'.taken, sshOut := s'.sshOut)
    ensures s'.taken == if packet == [] then s.taken else s.taken + [packet]
    ensures status == TapStatus(packet, writes)
    ensures status.ShouldAbort? ==> s' == s
    ensures status.ShouldReinit? ==> ChannelCut(s.sshOut, packet, writes, s'.sshOut)
  {
    if packet == [] {
      return s, ShouldAbort; // short read on tap
    }
    hide Deframe;
    var ok, sent := WriteFd(LengthBytes(|packet|) + packet, writes);
    FramedAppend(s.taken, packet);
    s' := s.(taken := s.taken + [packet], sshOut := s.sshOut + sent);
    status := if ok then Running else ShouldReinit;
  }

  /** A poll of the tap ends the loop on an empty read or a failed write, and on nothing else. */
  ghost function TapStatus(packet: Packet, writes: seq<int>): Status {
    if packet == [] then ShouldAbort
    else if NoFailure(|Frame(packet)|, writes) then Running
    else ShouldReinit
  }

  /** After a failed write the channel has what the writes before it accepted of the frame. */
  ghost predicate ChannelCut(before: seq<Byte>, packet: Packet, writes: seq<int>, after: seq<Byte>) {
    exists k: nat :: FailsAt(|Frame(packet)|, writes, k) && after == before + Frame(packet)[..Sum(writes[..k])]
  }

  // the size of one read: any positive number of bytes up to what is offered and available
  function Delivered(want: nat, available: nat, room: nat): (n: nat)
    requires available > 0 && room > 0
    ensures 0 < n <= available && n <= room
  {
    var most := if available < room then available else room;
    if want == 0 then 1 else if want < most then want else most
  }

  /** The bytes of one read continue the stream. */
  lemma ReadMore(stream: seq<Byte>, received: nat, n: nat)
    requires received + n <= |stream|
    ensures var before, after := Deframe(stream[..received]), Deframe(stream[..received + n]);
            var more := Deframe(before.rest + stream[received..received + n]);
            after == Parsed(before.packets + more.packets, more.rest)
  {
    assert stream[..received + n] == stream[..received] + stream[received..received + n];
    DeframeAppend(stream[..received], stream[received..received + n]);
  }

  /** One readv on the ssh channel, then all complete packets to the tap. */
  method RelayFromSsh(ring: Ring, stream: seq<Byte>, s: Progress, want: nat, tapOk: nat -> bool)
    returns (s': Progress, status: Status)
    requires ring.Valid() && ring.size == BUFFER_SIZE && Complete(stream, s, ring.Contents())
    requires AllWritten(s.tapOut, tapOk)
    modifies ring, ring.buf
    ensures ring.Valid() && Relayed(stream, s')
    ensures s' == s.(received := s'.received, tapOut := s'.tapOut)
    ensures s'.received == ReceivedNext(stream, s.received, want) && s.tapOut <= s'.tapOut
    ensures status == SshStatus(stream, s, s') && TapDone(stream, s', tapOk)
    ensures !status.ShouldAbort? ==> Complete(stream, s', ring.Contents())
    ensures status.ShouldReinit? || status.Overrun? ==> s' == s
  {
    hide Deframe, Framed;
    var available := |stream| - s.received;
    if available == 0 {
      return s, ShouldReinit; // empty read
    }
    if ring.level == ring.size {
      return s, Overrun;
    }
    var n := Delivered(want, available, ring.size - ring.level);
    var received := s.received + n;
    ReadMore(stream, s.received, n);
    ring.Fill(stream[s.received..received]);
    var ok, out := WritePackets(ring, tapOk, s.tapOut);
    s' := s.(received := received, tapOut := out);
    status := if ok then Running else ShouldAbort;
  }

  /** How much of the stream has been received after one more read, if there is something to read and room for it. */
  ghost function ReceivedNext(stream: seq<Byte>, received: nat, want: nat): (r: nat)
    requires received <= |stream|
    ensures received <= r <= |stream|
  {
    var level := |Deframe(stream[..received]).rest|;
    if received == |stream| || level >= BUFFER_SIZE then received
    else received + Delivered(want, |stream| - received, BUFFER_SIZE - level)
  }

  /** A poll of the channel ends the loop at the end of the stream, on a full ring, or on a packet that the tap refuses,
      and on nothing else. */
  ghost function SshStatus(stream: seq<Byte>, s: Progress, s': Progress): Status
    requires s.received <= |stream| && s'.received <= |stream|
  {
    if s.received == |stream| then ShouldReinit
    else if |Deframe(stream[..s.received]).rest| >= BUFFER_SIZE then Overrun
    else if s'.tapOut == Deframe(stream[..s'.received]).packets then Running
    else ShouldAbort
  }

  /** The tap has all complete frames received, or those before the first one that it refuses. */
  ghost predicate TapDone(stream: seq<Byte>, s: Progress, tapOk: nat -> bool)
    requires s.received <= |stream|
  {
    var packets := Deframe(stream[..s.received]).packets;
    s.tapOut <= packets && AllWritten(s.tapOut, tapOk) && (s.tapOut == packets || !tapOk(|s.tapOut|))
  }

  // ---------- whole runs ----------

  /** The packets that the polls read from the tap. */
  function Taken(polls: seq<Poll>): seq<Packet> {
    if polls == [] then []
    else
      var p := polls[|polls| - 1];
      Taken(polls[..|polls| - 1]) + if p.TapReady? && p.packet != [] then [p.packet] else []
  }

  /** How many polls read from the ssh channel. */
  function SshPolls(polls: seq<Poll>): nat {
    if polls == [] then 0
    else SshPolls(polls[..|polls| - 1]) + if polls[|polls| - 1].SshReady? then 1 else 0
  }

  /** How much of the stream the polls read. */
  ghost function Received(stream: seq<Byte>, polls: seq<Poll>): (r: nat)
    ensures r <= |stream|
  {
    if polls == [] then 0
    else
      var r, p := Received(stream, polls[..|polls| - 1]), polls[|polls| - 1];
      if p.SshReady? then ReceivedNext(stream, r, p.want) else r
  }

  /** There is a packet, and the channel takes its frame. */
  ghost predicate IsRelayed(packet: Packet, writes: seq<int>) {
    packet != [] && NoFailure(|packet| + LENGTH_SIZE, writes)
  }

  /** No poll of the tap ends the loop. */
  ghost predicate Healthy(polls: seq<Poll>) {
    forall k :: 0 <= k < |polls| && polls[k].TapReady? ==> IsRelayed(polls[k].packet, polls[k].writes)
  }

  lemma OneMorePoll(stream: seq<Byte>, polls: seq<Poll>, k: nat)
    requires k < |polls|
    ensures Taken(polls[..k + 1]) == Taken(polls[..k])
              + if polls[k].TapReady? && polls[k].packet != [] then [polls[k].packet] else []
    ensures SshPolls(polls[..k + 1]) == SshPolls(polls[..k]) + if polls[k].SshReady? then 1 else 0
    ensures var r := Received(stream, polls[..k]);
            Received(stream, polls[..k + 1]) == if polls[k].SshReady? then ReceivedNext(stream, r, polls[k].want) else r
    ensures Healthy(polls[..k]) && (polls[k].TapReady? ==> IsRelayed(polls[k].packet, polls[k].writes)) ==>
              Healthy(polls[..k + 1])
  {
    assert polls[..k + 1][..k] == polls[..k];
  }

  /** The poll that ended the loop, and why. */
  ghost predicate EndedBy(stream: seq<Byte>, s: Progress, status: Status, poll: Poll)
    requires s.received <= |stream|
  {
    match poll
    case TapReady(packet, writes) =>
      if packet == [] then status.ShouldAbort? else status.ShouldReinit? && !NoFailure(|packet| + LENGTH_SIZE, writes)
    case SshReady(_) =>
      match status
      case Running => false
      case ShouldReinit => s.received == |stream|
      case ShouldAbort => s.tapOut != Deframe(stream[..s.received]).packets
      case Overrun => s.received < |stream| && |Deframe(stream[..s.received]).rest| == BUFFER_SIZE
  }

  /** What the first polls have done, the last of them being the only one that may end the loop. */
  ghost predicate Handled(stream: seq<Byte>, polls: seq<Poll>, tapOk: nat -> bool, s: Progress, status: Status) {
    && s.taken == Taken(polls) && s.received == Received(stream, polls)
    && TapDone(stream, s, tapOk)
    && SshPolls(polls) <= s.received + (if status.Running? then 0 else 1)
    && if status.Running? then
         && Healthy(polls)
         && s.sshOut == Framed(s.taken) && s.tapOut == Deframe(stream[..s.received]).packets
       else
         && polls != []
         && var before, last := polls[..|polls| - 1], polls[|polls| - 1];
         && Healthy(before) && EndedBy(stream, s, status, last)
         && (s.tapOut == Deframe(stream[..s.received]).packets || (last.SshReady? && status.ShouldAbort?))
         && if last.TapReady? && status.ShouldReinit? then
              ChannelCut(Framed(Taken(before)), last.packet, last.writes, s.sshOut)
            else s.sshOut == Framed(s.taken)
  }

  lemma HandledTap(
    stream: seq<Byte>, polls: seq<Poll>, k: nat, tapOk: nat -> bool, s: Progress, s': Progress, status: Status)
    requires k < |polls| && polls[k].TapReady? && Handled(stream, polls[..k], tapOk, s, Running)
    requires s' == s.(taken := s'.taken, sshOut := s'.sshOut)
    requires s'.taken == if polls[k].packet == [] then s.taken else s.taken + [polls[k].packet]
    requires status == TapStatus(polls[k].packet, polls[k].writes)
    requires status.Running? ==> s'.sshOut == Framed(s'.taken)
    requires status.ShouldAbort? ==> s' == s
    requires status.ShouldReinit? ==> ChannelCut(s.sshOut, polls[k].packet, polls[k].writes, s'.sshOut)
    ensures Handled(stream, polls[..k + 1], tapOk, s', status)
  {
    hide Deframe, Framed, Taken, SshPolls, Received, Healthy, ChannelCut;
    OneMorePoll(stream, polls, k);
    assert polls[..k + 1][..k] == polls[..k] && polls[..k + 1][k] == polls[k];
  }

  lemma HandledSsh(
    stream: seq<Byte>, polls: seq<Poll>, k: nat, tapOk: nat -> bool, s: Progress, s': Progress, status: Status)
    requires k < |polls| && polls[k].SshReady? && Handled(stream, polls[..k], tapOk, s, Running)
    requires s' == s.(received := s'.received, tapOut := s'.tapOut)
    requires s'.received == ReceivedNext(stream, s.received, polls[k].want)
    requires |Deframe(stream[..s.received]).rest| <= BUFFER_SIZE
    requires status == SshStatus(stream, s, s') && TapDone(stream, s', tapOk)
    requires !status.ShouldAbort? ==> s'.tapOut == Deframe(stream[..s'.received]).packets
    requires status.ShouldReinit? || status.Overrun? ==> s' == s
    ensures Handled(stream, polls[..k + 1], tapOk, s', status)
  {
    hide Deframe, Framed, Taken, SshPolls, Received, Healthy, ChannelCut, Delivered;
    OneMorePoll(stream, polls, k);
    assert polls[..k + 1][..k] == polls[..k] && polls[..k + 1][k] == polls[k];
  }

  /** The loop over the polls, up to the one that ends it. */
  method TransferLoop(stream: seq<Byte>, polls: seq<Poll>, tapOk: nat -> bool)
    returns (s: Progress, status: Status, handled: nat)
    requires forall k :: 0 <= k < |polls| ==> ValidPoll(polls[k])
    ensures handled <= |polls| && (status.Running? ==> handled == |polls|)
    ensures Relayed(stream, s) && Handled(stream, polls[..handled], tapOk, s, status)
    ensures status.Overrun? ==> LongFrame(stream)
  {
    hide Relayed, Complete, TapDone, Handled, LongFrame, TapStatus, SshStatus, ReceivedNext, ChannelCut, AllWritten;
    var ring := new Ring(BUFFER_SIZE);
    s, status, handled := Progress(0, [], [], []), Running, 0;
    NothingHandled(stream, tapOk);
    assert polls[..0] == [];
    while handled < |polls| && status.Running?
      invariant 0 <= handled <= |polls|
      invariant ring.Valid() && fresh(ring) && fresh(ring.buf) && ring.size == BUFFER_SIZE
      invariant Relayed(stream, s) && (status.Running? ==> Complete(stream, s, ring.Contents()))
      invariant Handled(stream, polls[..handled], tapOk, s, status)
    {
      CompleteIs(stream, s, ring.Contents(), polls[..handled], tapOk);
      ghost var before := s;
      match polls[handled] {
        case TapReady(packet, writes) =>
          s, status := RelayFromTap(stream, ring.Contents(), s, packet, writes);
          CompleteFrames(stream, s, ring.Contents());
          HandledTap(stream, polls, handled, tapOk, before, s, status);
        case SshReady(want) =>
          s, status := RelayFromSsh(ring, stream, s, want, tapOk);
          CompleteFrames(stream, s, ring.Contents());
          HandledSsh(stream, polls, handled, tapOk, before, s, status);
      }
      handled := handled + 1;
    }
    OverrunNeedsLongFrame(stream, polls[..handled], tapOk, s, status);
  }

  lemma NothingHandled(stream: seq<Byte>, tapOk: nat -> bool)
    ensures var s := Progress(0, [], [], []);
            Complete(stream, s, []) && Handled(stream, [], tapOk, s, Running)
  {
    assert stream[..0] == [];
  }

  lemma CompleteIs(stream: seq<Byte>, s: Progress, pending: seq<Byte>, polls: seq<Poll>, tapOk: nat -> bool)
    requires Complete(stream, s, pending) && Handled(stream, polls, tapOk, s, Running) && |pending| <= BUFFER_SIZE
    ensures s.received <= |stream| && |Deframe(stream[..s.received]).rest| <= BUFFER_SIZE && AllWritten(s.tapOut, tapOk)
  {
    hide Deframe, Framed, Taken, SshPolls, Received, Healthy, AllWritten;
  }

  lemma CompleteFrames(stream: seq<Byte>, s: Progress, pending: seq<Byte>)
    ensures Complete(stream, s, pending) ==>
              && s.received <= |stream| && s.sshOut == Framed(s.taken)
              && s.tapOut == Deframe(stream[..s.received]).packets
  {
    hide Deframe, Framed;
  }

  lemma OverrunNeedsLongFrame(
    stream: seq<Byte>, polls: seq<Poll>, tapOk: nat -> bool, s: Progress, status: Status)
    requires Handled(stream, polls, tapOk, s, status)
    ensures status.Overrun? ==> LongFrame(stream)
  {
    hide Deframe, Framed, Taken, SshPolls, Received, Healthy, ChannelCut;
    if status.Overrun? {
      FillsMeansLongFrame(stream, s.received);
    }
  }

  /** After all complete packets are out, the ring is never full: the next readv is offered some space. */
  lemma RingHasRoom(stream: seq<Byte>, received: nat)
    requires received <= |stream| && LengthsBounded(stream, BUFFER_SIZE - LENGTH_SIZE)
    ensures |Deframe(stream[..received]).rest| < BUFFER_SIZE
  {
    BoundedPrefix(stream, received, BUFFER_SIZE - LENGTH_SIZE);
  }

  /** In particular frames of up to 65534 bytes never overrun the ring. */
  lemma {:induction false} BoundedIsNotLong(bytes: seq<Byte>)
    requires LengthsBounded(bytes, BUFFER_SIZE - LENGTH_SIZE)
    ensures !LongFrame(bytes)
    decreases |bytes|
  {
    if HasFrame(bytes) {
      BoundedIsNotLong(bytes[LENGTH_SIZE + HeaderOf(bytes)..]);
    }
  }

  /** One frame that announces 65535 bytes can fill the ring: it is not complete, so that nothing leaves the ring, and
      the next readv is given the places of all the bytes received. */
  method FillWithOneFrame() returns (ring: Ring, iov: seq<IoVec>)
    ensures fresh(ring) && ring.Valid() && ring.level == ring.size == BUFFER_SIZE
    ensures Deframe(ring.Contents()) == Parsed([], ring.Contents()) && HeaderOf(ring.Contents()) == 0xffff
    ensures InArray(iov, BUFFER_SIZE) && TotalLen(iov) == BUFFER_SIZE
    ensures forall k :: 0 <= k < BUFFER_SIZE ==> Place(iov, BUFFER_SIZE, k) == At(BUFFER_SIZE, ring.flushPos, k)
  {
    hide Deframe;
    ring := new Ring(BUFFER_SIZE);
    var data: seq<Byte> := [0xff, 0xff] + seq(BUFFER_SIZE - LENGTH_SIZE, _ => 0);
    assert HeaderOf(data) == 0xffff;
    ring.Fill(data);
    assert ring.Contents() == data;
    FullRingIsStuck(data);
    NoFrameToParse(data);
    iov := ring.FreeSegments();
  }

  lemma NoFrameToParse(bytes: seq<Byte>)
    requires !HasFrame(bytes)
    ensures Deframe(bytes) == Parsed([], bytes)
  {
  }

  // ---------- end to end ----------

  lemma {:induction false} PrefixIsBounded(bytes: seq<Byte>, k: nat, limit: nat)
    requires k <= |bytes| && LengthsBounded(bytes, limit)
    ensures LengthsBounded(bytes[..k], limit)
    decreases |bytes|
  {
    var a := bytes[..k];
    if HasFrame(a) {
      var end := LENGTH_SIZE + HeaderOf(a);
      assert a[end..] == bytes[end..][..k - end];
      PrefixIsBounded(bytes[end..], k - end, limit);
    }
  }

  /** Two endpoints: what the first relays from its tap, until it stops if it does, the second writes on its own tap,
      in order; everything once all bytes of all frames have arrived. */
  lemma TapToTap(
    aIn: seq<Byte>, a: Progress, b: Progress, bPolls: seq<Poll>, tapOk: nat -> bool, bStatus: Status)
    requires Relayed(aIn, a) && Relayed(a.sshOut, b) && Handled(a.sshOut, bPolls, tapOk, b, bStatus)
    ensures LengthsBounded(a.sshOut, BUFFER_SIZE - LENGTH_SIZE) && !LongFrame(a.sshOut)
    ensures b.tapOut <= a.taken
    ensures a.sshOut == Framed(a.taken) && b.received == |a.sshOut| ==>
              b.tapOut == a.taken || !tapOk(|b.tapOut|)
  {
    hide Deframe, Framed, LengthsBounded, LongFrame, Taken, SshPolls, Received, Healthy, ChannelCut, EndedBy;
    hide AllWritten;
    assert a.sshOut == Framed(a.taken)[..|a.sshOut|];
    assert a.sshOut[..b.received] == Framed(a.taken)[..b.received];
    FramedIsBounded(a.taken, BUFFER_SIZE - LENGTH_SIZE);
    PrefixIsBounded(Framed(a.taken), |a.sshOut|, BUFFER_SIZE - LENGTH_SIZE);
    BoundedIsNotLong(a.sshOut);
    PrefixDelivery(a.taken, b.received);
  }
}
