/**
 The byte ring between the ssh channel and the tap interface (server/ext/vpn.c, cbuf_*).
 Pointers are modelled as offsets in the array; readv and writev as methods over the segments they are given.
 */
module CircularBuffer {

  type Byte = b: int | 0 <= b < 0x100

  // one segment handed to readv or writev
  datatype IoVec = IoVec(base: nat, len: nat)

  // readv and writev are given one or two segments of the buffer
  predicate InArray(iov: seq<IoVec>, size: nat) {
    1 <= |iov| <= 2 && iov[0].base + iov[0].len <= size && (|iov| == 2 ==> iov[1].base + iov[1].len <= size)
  }

  function TotalLen(iov: seq<IoVec>): nat
    requires 1 <= |iov| <= 2
  {
    if |iov| == 2 then iov[0].len + iov[1].len else iov[0].len
  }

  /** The place of the k-th byte transferred. */
  function Place(iov: seq<IoVec>, size: nat, k: nat): (p: nat)
    requires InArray(iov, size) && k < TotalLen(iov)
    ensures p < size
  {
    if k < iov[0].len then iov[0].base + k else iov[1].base + (k - iov[0].len)
  }

  function Short(high: int, low: int): int {
    high * 0x100 + low
  }

  // offset of a pointer moved past the end of the buffer by less than one turn
  function Wrap(size: nat, p: nat): int {
    if p < size then p else p - size
  }

  // place of the k-th byte from p on
  function At(size: nat, p: nat, k: nat): int {
    Wrap(size, p + k)
  }

  lemma WrapTwice(size: nat, p: nat, j: nat, k: nat)
    requires p < size && j + k < size
    ensures Wrap(size, At(size, p, j) + k) == Wrap(size, p + j + k)
  {
  }

  lemma WrapInjective(size: nat, p: nat, j: nat, k: nat)
    requires p < size && j < k < size
    ensures At(size, p, j) != At(size, p, k)
  {
  }

  /** The places that readv fills are pairwise distinct and hold no unread byte. */
  lemma FreeIsFree(size: nat, p: nat, level: nat, iov: seq<IoVec>)
    requires p < size && level <= size && InArray(iov, size) && TotalLen(iov) == size - level
    requires forall k :: 0 <= k < size - level ==> Place(iov, size, k) == Wrap(size, Wrap(size, p + level) + k)
    ensures forall k :: 0 <= k < size - level ==> Place(iov, size, k) == At(size, p, level + k)
    ensures forall j, k :: 0 <= j < k < size - level ==> Place(iov, size, j) != Place(iov, size, k)
    ensures forall j, k :: 0 <= j < level && 0 <= k < size - level ==> At(size, p, j) != Place(iov, size, k)
  {
    forall k | 0 <= k < size - level
      ensures Place(iov, size, k) == At(size, p, level + k)
    {
      WrapTwice(size, p, level, k);
    }
    forall j, k | 0 <= j < k < size - level
      ensures Place(iov, size, j) != Place(iov, size, k)
    {
      WrapInjective(size, p, level + j, level + k);
    }
    forall j, k | 0 <= j < level && 0 <= k < size - level
      ensures At(size, p, j) != Place(iov, size, k)
    {
      WrapInjective(size, p, j, level + k);
    }
  }

  class Ring {
    const size: nat
    const buf: array<Byte>
    var level: nat
    var fillPos: nat
    var flushPos: nat

    ghost predicate Valid()
      reads this
    {
      && 0 < size == buf.Length
      && level <= size && flushPos < size
      && fillPos == Wrap(size, flushPos + level)
    }

    /** The unread bytes, oldest first. */
    ghost function Contents(): (s: seq<Byte>)
      requires Valid()
      reads this, buf
      ensures |s| == level
      ensures forall k :: 0 <= k < level ==> s[k] == buf[At(size, flushPos, k)]
    {
      if flushPos + level <= size then buf[flushPos..flushPos + level]
      else buf[flushPos..] + buf[..flushPos + level - size]
    }

    constructor (size: nat)
      requires size > 0
      ensures Valid() && fresh(buf) && this.size == size && Contents() == []
    {
      this.size := size;
      buf := new Byte[size](_ => 0);
      level, fillPos, flushPos := 0, 0, 0;
    }

    /** The segments offered to readv are exactly the free space, in the order it will be filled; but on a full
        ring, where the two positions meet, they are the places of all the unread bytes. */
    method FreeSegments() returns (iov: seq<IoVec>)
      requires Valid()
      ensures InArray(iov, size) && TotalLen(iov) == if level < size then size - level else size
      ensures forall k :: 0 <= k < TotalLen(iov) ==> Place(iov, size, k) == Wrap(size, Wrap(size, flushPos + level) + k)
      ensures level == size ==> forall k :: 0 <= k < size ==> Place(iov, size, k) == At(size, flushPos, k)
    {
      if fillPos < flushPos {
        iov := [IoVec(fillPos, flushPos - fillPos)];
      } else {
        iov := [];
        if fillPos < size {
          iov := iov + [IoVec(fillPos, size - fillPos)];
        }
        if 0 < flushPos {
          iov := iov + [IoVec(0, flushPos)];
        }
      }
    }

    /** Receives the bytes that one readv delivers: at least one, at most what was offered. */
    method Fill(data: seq<Byte>)
      requires Valid() && 0 < |data| <= size - level
      modifies this, buf
      ensures Valid() && Contents() == old(Contents()) + data
    {
      ghost var unread := Contents();
      ReadIntoFree(data);
      MoveFill(unread, data, |data|);
    }

    // no position moves yet
    method ReadIntoFree(data: seq<Byte>)
      requires Valid() && |data| <= size - level && level < size
      modifies buf
      ensures forall k :: 0 <= k < level ==> buf[At(size, flushPos, k)] == old(buf[At(size, flushPos, k)])
      ensures forall k :: 0 <= k < |data| ==> buf[At(size, flushPos, level + k)] == data[k]
    {
      var iov := FreeSegments();
      FreeIsFree(size, flushPos, level, iov);
      hide Place;
      Readv(buf, iov, data);
    }

    method MoveFill(ghost unread: seq<Byte>, ghost data: seq<Byte>, count: nat)
      requires Valid() && 0 < |data| == count <= size - level
      requires |unread| == level && forall k :: 0 <= k < level ==> buf[At(size, flushPos, k)] == unread[k]
      requires forall k :: 0 <= k < count ==> buf[At(size, flushPos, level + k)] == data[k]
      modifies this
      ensures Valid() && Contents() == unread + data
    {
      fillPos := fillPos + count;
      if fillPos >= size {
        fillPos := fillPos - size;
      }
      level := level + count;
      forall k | 0 <= k < level
        ensures Contents()[k] == (unread + data)[k]
      {
        if |unread| <= k {
          assert buf[At(size, flushPos, |unread| + (k - |unread|))] == data[k - |unread|];
        }
      }
    }

    /** Moves past bytes without writing them anywhere. */
    method Pass(shift: nat)
      requires Valid() && shift <= level
      modifies this
      ensures Valid() && Contents() == old(Contents())[shift..]
    {
      flushPos := flushPos + shift;
      if flushPos >= size {
        flushPos := flushPos - size;
      }
      level := level - shift;
    }

    /** Offers the `count` oldest bytes to one writev, which accepts some of them, or fails with -1. */
    method Flush(count: nat, accepted: int) returns (ok: bool, written: seq<Byte>)
      requires Valid() && -1 <= accepted <= count <= level
      modifies this
      ensures Valid() && (ok <==> accepted != -1)
      ensures ok ==> written == old(Contents())[..accepted] && Contents() == old(Contents())[accepted..]
      ensures !ok ==> written == [] && Contents() == old(Contents())
    {
      var iov := UnreadSegments(count);
      if accepted == -1 {
        return false, [];
      }
      var offered := Writev(buf, iov);
      written := offered[..accepted];
      Pass(accepted);
      // an empty buffer restarts at its beginning
      if level == 0 {
        fillPos, flushPos := 0, 0;
      }
      ok := true;
    }

    /** The segments given to writev are the oldest bytes. */
    method UnreadSegments(count: nat) returns (iov: seq<IoVec>)
      requires Valid() && count <= level
      ensures InArray(iov, size) && TotalLen(iov) == count
      ensures forall k :: 0 <= k < count ==> Place(iov, size, k) == At(size, flushPos, k)
    {
      if fillPos > flushPos {
        iov := [IoVec(flushPos, count)];
      } else {
        var first := if count <= size - flushPos then count else size - flushPos;
        iov := [IoVec(flushPos, first)];
        if count - first > 0 {
          iov := iov + [IoVec(0, count - first)];
        }
      }
    }

    /** The big-endian 16-bit number at the front. */
    method PeekShort() returns (n: nat)
      requires Valid() && level >= 2
      ensures n == Short(Contents()[0], Contents()[1])
    {
      var high := buf[flushPos];
      var low := if flushPos + 1 == size then buf[0] else buf[flushPos + 1];
      n := Short(high, low);
    }
  }

  /** readv: the data fills the segments one after the other, and nothing else changes. */
  method Readv(buf: array<Byte>, iov: seq<IoVec>, data: seq<Byte>)
    requires InArray(iov, buf.Length) && |data| <= TotalLen(iov)
    requires forall j, k :: 0 <= j < k < TotalLen(iov) ==> Place(iov, buf.Length, j) != Place(iov, buf.Length, k)
    modifies buf
    ensures forall k :: 0 <= k < |data| ==> buf[Place(iov, buf.Length, k)] == data[k]
    ensures forall p :: 0 <= p < buf.Length && (forall k :: 0 <= k < |data| ==> Place(iov, buf.Length, k) != p) ==>
              buf[p] == old(buf[p])
  {
    for i := 0 to |data|
      invariant forall k :: 0 <= k < i ==> buf[Place(iov, buf.Length, k)] == data[k]
      invariant forall p :: 0 <= p < buf.Length && (forall k :: 0 <= k < i ==> Place(iov, buf.Length, k) != p) ==>
                  buf[p] == old(buf[p])
    {
      buf[Place(iov, buf.Length, i)] := data[i];
    }
  }

  /** writev: the bytes of the segments one after the other. */
  method Writev(buf: array<Byte>, iov: seq<IoVec>) returns (data: seq<Byte>)
    requires InArray(iov, buf.Length)
    ensures |data| == TotalLen(iov)
    ensures forall k :: 0 <= k < |data| ==> data[k] == buf[Place(iov, buf.Length, k)]
  {
    data := buf[iov[0].base..iov[0].base + iov[0].len];
    if |iov| == 2 {
      data := data + buf[iov[1].base..iov[1].base + iov[1].len];
    }
  }
}
