/**
 How long each instruction of a block ran: up to the next instruction of a lower or equal stack depth,
 or to the end of the block (trackexec/fast.py, fast_compute_durations).
 */
module Durations {

  /** Nothing between i and p is at, or below, the depth of i. */
  ghost predicate Open(depths: seq<nat>, i: nat, p: nat)
    requires i < p <= |depths|
  {
    forall j :: i < j < p ==> depths[i] < depths[j]
  }

  /** The definition: look forward from `from` for the end of instruction i. */
  function NextReturn(depths: seq<nat>, i: nat, from: nat): (e: nat)
    requires i < from <= |depths|
    ensures from <= e <= |depths|
    ensures forall j :: from <= j < e ==> depths[i] < depths[j]
    ensures e < |depths| ==> depths[e] <= depths[i]
    decreases |depths| - from
  {
    if from == |depths| || depths[from] <= depths[i] then from else NextReturn(depths, i, from + 1)
  }

  function TimeAt(times: seq<int>, blockEnd: int, p: nat): int
    requires p <= |times|
  {
    if p == |times| then blockEnd else times[p]
  }

  function Duration(depths: seq<nat>, times: seq<int>, blockEnd: int, i: nat): int
    requires i < |depths| == |times|
  {
    TimeAt(times, blockEnd, NextReturn(depths, i, i + 1)) - times[i]
  }

  lemma NextReturnIs(depths: seq<nat>, i: nat, e: nat)
    requires i < e <= |depths| && Open(depths, i, e)
    requires e < |depths| ==> depths[e] <= depths[i]
    ensures NextReturn(depths, i, i + 1) == e
  {
  }

  /** The indices still pending at p, innermost last. */
  ghost predicate IsPending(depths: seq<nat>, pending: seq<nat>, p: nat)
    requires p <= |depths|
  {
    && (forall q :: 0 <= q < |pending| ==> pending[q] < p)
    && (forall q, r :: 0 <= q < r < |pending| ==> pending[q] < pending[r] && depths[pending[q]] < depths[pending[r]])
    && (forall q :: 0 <= q < |pending| ==> Open(depths, pending[q], p))
    && (forall i :: 0 <= i < p && Open(depths, i, p) ==> i in pending)
  }

  /** Instructions that are no longer pending have their duration. */
  ghost predicate ClosedAreDone(depths: seq<nat>, times: seq<int>, blockEnd: int, durations: seq<int>, p: nat)
    requires p <= |depths| == |times| == |durations|
  {
    forall i :: 0 <= i < p && !Open(depths, i, p) ==> durations[i] == Duration(depths, times, blockEnd, i)
  }

  lemma NothingPending(depths: seq<nat>, times: seq<int>, blockEnd: int, durations: seq<int>)
    requires |depths| == |times| == |durations|
    ensures IsPending(depths, [], 0) && ClosedAreDone(depths, times, blockEnd, durations, 0)
  {
  }

  method ComputeDurations(depths: array<nat>, times: array<int>, blockEnd: int) returns (durations: array<int>)
    requires depths.Length == times.Length
    ensures fresh(durations) && durations.Length == depths.Length
    ensures forall i :: 0 <= i < depths.Length ==> durations[i] == Duration(depths[..], times[..], blockEnd, i)
  {
    hide IsPending, ClosedAreDone;
    var n := depths.Length;
    durations := new int[n](_ => 0);
    var pending := new nat[n](_ => 0);
    var count: nat := 0;
    ghost var ds, ts := depths[..], times[..];
    NothingPending(ds, ts, blockEnd, durations[..]);
    assert pending[..0] == [];
    for p := 0 to n
      invariant count <= p && ds == depths[..] && ts == times[..]
      invariant IsPending(ds, pending[..count], p)
      invariant ClosedAreDone(ds, ts, blockEnd, durations[..], p)
    {
      count := PopReturned(depths, times, blockEnd, durations, pending, count, p);
      pending[count] := p;
      count := count + 1;
      assert pending[..count] == pending[..count - 1] + [p];
    }
    CloseRemaining(ds, times, blockEnd, durations, pending[..count]);
  }

  /** The instructions that p returns from get their duration and leave the pending list. */
  method PopReturned(
    depths: array<nat>, times: array<int>, blockEnd: int, durations: array<int>, pending: array<nat>,
    level: nat, p: nat)
    returns (count: nat)
    requires p < depths.Length == times.Length == durations.Length == pending.Length && level <= p
    requires durations != times
    requires IsPending(depths[..], pending[..level], p)
    requires ClosedAreDone(depths[..], times[..], blockEnd, durations[..], p)
    modifies durations
    ensures count <= level && IsPending(depths[..], pending[..count] + [p], p + 1)
    ensures ClosedAreDone(depths[..], times[..], blockEnd, durations[..], p + 1)
  {
    count := level;
    ghost var before, ds, ts := pending[..level], depths[..], times[..];
    while count > 0 && depths[p] <= depths[pending[count - 1]]
      invariant count <= level && ts == times[..]
      invariant Popped(ds, ts, blockEnd, durations[..], before, count, p)
    {
      var idx := pending[count - 1];
      assert idx == before[count - 1];
      PopOne(ds, ts, blockEnd, durations[..], before, count, p);
      ghost var done := durations[..];
      durations[idx] := times[p] - times[idx];
      count := count - 1;
      assert durations[..] == done[idx := ts[p] - ts[idx]];
    }
    assert before[..count] == pending[..count];
    PushPending(ds, before, count, p);
    ClosedNext(ds, ts, blockEnd, durations[..], before, count, p);
  }

  /** The pending instructions from `count` on have returned at p and have their duration. */
  ghost predicate Popped(
    depths: seq<nat>, times: seq<int>, blockEnd: int, durations: seq<int>, before: seq<nat>, count: nat, p: nat)
    requires p < |depths| == |times| == |durations| && IsPending(depths, before, p)
  {
    && count <= |before|
    && (forall q :: count <= q < |before| ==> depths[p] <= depths[before[q]])
    && ClosedAreDone(depths, times, blockEnd, durations, p)
    && forall q :: count <= q < |before| ==> durations[before[q]] == Duration(depths, times, blockEnd, before[q])
  }

  lemma PopOne(
    depths: seq<nat>, times: seq<int>, blockEnd: int, durations: seq<int>, before: seq<nat>, count: nat, p: nat)
    requires p < |depths| == |times| == |durations| && IsPending(depths, before, p)
    requires 0 < count && Popped(depths, times, blockEnd, durations, before, count, p)
    requires depths[p] <= depths[before[count - 1]]
    ensures var idx := before[count - 1];
            Popped(depths, times, blockEnd, durations[idx := times[p] - times[idx]], before, count - 1, p)
  {
    NextReturnIs(depths, before[count - 1], p);
  }

  lemma ClosedNext(
    depths: seq<nat>, times: seq<int>, blockEnd: int, durations: seq<int>, before: seq<nat>, count: nat, p: nat)
    requires p < |depths| == |times| == |durations| && IsPending(depths, before, p)
    requires Popped(depths, times, blockEnd, durations, before, count, p)
    requires count > 0 ==> depths[before[count - 1]] < depths[p]
    ensures ClosedAreDone(depths, times, blockEnd, durations, p + 1)
  {
    forall i | 0 <= i < p + 1 && !Open(depths, i, p + 1)
      ensures durations[i] == Duration(depths, times, blockEnd, i)
    {
      if Open(depths, i, p) {
        PoppedAreAbove(depths, before, count, p, i);
      }
    }
  }

  /** What is still pending runs up to the end of the block. */
  method CloseRemaining(ghost ds: seq<nat>, times: array<int>, blockEnd: int, durations: array<int>, pending: seq<nat>)
    requires |ds| == times.Length == durations.Length && durations != times
    requires IsPending(ds, pending, |ds|) && ClosedAreDone(ds, times[..], blockEnd, durations[..], |ds|)
    modifies durations
    ensures forall i :: 0 <= i < |ds| ==> durations[i] == Duration(ds, times[..], blockEnd, i)
  {
    ghost var ts := times[..];
    for q := 0 to |pending|
      invariant ts == times[..]
      invariant ClosedAreDone(ds, ts, blockEnd, durations[..], |ds|)
      invariant forall r :: 0 <= r < q ==> durations[pending[r]] == Duration(ds, ts, blockEnd, pending[r])
    {
      NextReturnIs(ds, pending[q], |ds|);
      durations[pending[q]] := blockEnd - times[pending[q]];
    }
    forall i | 0 <= i < |ds|
      ensures durations[i] == Duration(ds, ts, blockEnd, i)
    {
      if Open(ds, i, |ds|) {
        assert i in pending;
      }
    }
  }

  lemma PoppedAreAbove(depths: seq<nat>, before: seq<nat>, count: nat, p: nat, i: nat)
    requires p < |depths| && IsPending(depths, before, p) && count <= |before|
    requires count > 0 ==> depths[before[count - 1]] < depths[p]
    requires forall q :: count <= q < |before| ==> depths[p] <= depths[before[q]]
    requires i < p && Open(depths, i, p)
    ensures exists q :: 0 <= q < |before| && before[q] == i && (q < count <==> Open(depths, i, p + 1))
  {
    assert i in before;
    var q :| 0 <= q < |before| && before[q] == i;
    if q < count {
      assert depths[i] <= depths[before[count - 1]];
    }
  }

  // the instructions that stay pending are open, and shallower than p
  lemma StillPending(depths: seq<nat>, before: seq<nat>, count: nat, p: nat, q: nat)
    requires p < |depths| && IsPending(depths, before, p) && q < count <= |before|
    requires depths[before[count - 1]] < depths[p]
    ensures before[q] < p && depths[before[q]] < depths[p] && Open(depths, before[q], p + 1)
  {
    assert depths[before[q]] <= depths[before[count - 1]];
    assert Open(depths, before[q], p);
  }

  /** After the instructions that return at p are popped, p itself becomes the innermost pending one. */
  lemma PushPending(depths: seq<nat>, before: seq<nat>, count: nat, p: nat)
    requires p < |depths| && IsPending(depths, before, p) && count <= |before|
    requires count > 0 ==> depths[before[count - 1]] < depths[p]
    requires forall q :: count <= q < |before| ==> depths[p] <= depths[before[q]]
    ensures IsPending(depths, before[..count] + [p], p + 1)
  {
    var after := before[..count] + [p];
    forall q | 0 <= q < |after|
      ensures after[q] < p + 1 && Open(depths, after[q], p + 1)
      ensures q < count ==> after[q] == before[q] && after[q] < p && depths[after[q]] < depths[p]
    {
      if q < count {
        StillPending(depths, before, count, p, q);
      }
    }
    forall i | 0 <= i < p + 1 && Open(depths, i, p + 1)
      ensures i in after
    {
      if i < p {
        StaysPending(depths, before, count, p, i);
      }
      assert after[count] == p;
    }
    hide Open;
  }

  lemma StaysPending(depths: seq<nat>, before: seq<nat>, count: nat, p: nat, i: nat)
    requires p < |depths| && IsPending(depths, before, p) && count <= |before|
    requires count > 0 ==> depths[before[count - 1]] < depths[p]
    requires forall q :: count <= q < |before| ==> depths[p] <= depths[before[q]]
    requires i < p && Open(depths, i, p + 1)
    ensures i in before[..count] + [p]
  {
    assert Open(depths, i, p);
    PoppedAreAbove(depths, before, count, p, i);
    hide Open, IsPending;
    var q :| 0 <= q < |before| && before[q] == i && q < count;
    assert (before[..count] + [p])[q] == i;
  }

  // ---------- properties of the definition ----------

  lemma DurationsAreNonNegative(depths: seq<nat>, times: seq<int>, blockEnd: int, i: nat)
    requires i < |depths| == |times|
    requires forall j, k :: 0 <= j <= k < |times| ==> times[j] <= times[k]
    requires forall j :: 0 <= j < |times| ==> times[j] <= blockEnd
    ensures Duration(depths, times, blockEnd, i) >= 0
  {
  }

  /** No earlier instruction is still running when i starts: it is pushed on an empty list. */
  ghost predicate StartsAlone(depths: seq<nat>, i: nat)
    requires i < |depths|
  {
    forall j :: 0 <= j < i ==> !RunsAt(depths, j, i)
  }

  ghost predicate RunsAt(depths: seq<nat>, j: nat, i: nat)
    requires j < i < |depths|
  {
    Open(depths, j, i + 1)
  }

  ghost function DurationOfAlone(depths: seq<nat>, times: seq<int>, blockEnd: int, p: nat): int
    requires p <= |depths| == |times|
  {
    if p == 0 then 0
    else DurationOfAlone(depths, times, blockEnd, p - 1)
         + if StartsAlone(depths, p - 1) then Duration(depths, times, blockEnd, p - 1) else 0
  }

  lemma RunsOn(depths: seq<nat>, b: nat, i: nat)
    requires b < i < |depths| && StartsAlone(depths, b) && Open(depths, b, i) && !StartsAlone(depths, i)
    ensures Open(depths, b, i + 1)
  {
    var j :| 0 <= j < i && RunsAt(depths, j, i);
    if j < b {
      assert RunsAt(depths, j, b);
    }
    assert depths[b] <= depths[j] < depths[i];
  }

  // the outermost instruction running at p, and the time covered up to its end
  lemma {:induction false} AloneUpTo(depths: seq<nat>, times: seq<int>, blockEnd: int, p: nat) returns (b: nat)
    requires 0 < p <= |depths| == |times|
    ensures b < p && StartsAlone(depths, b) && Open(depths, b, p)
    ensures DurationOfAlone(depths, times, blockEnd, p)
         == TimeAt(times, blockEnd, NextReturn(depths, b, b + 1)) - times[0]
  {
    if p == 1 {
      b := 0;
      assert DurationOfAlone(depths, times, blockEnd, 0) == 0;
    } else {
      var i := p - 1;
      b := AloneUpTo(depths, times, blockEnd, i);
      if StartsAlone(depths, i) {
        assert !RunsAt(depths, b, i);
        NextReturnIs(depths, b, i);
        b := i;
      } else {
        RunsOn(depths, b, i);
      }
    }
  }

  /** The instructions started while nothing else was running account for the whole block, without overlap. */
  lemma OutermostDurationsCoverTheBlock(depths: seq<nat>, times: seq<int>, blockEnd: int)
    requires 0 < |depths| == |times|
    ensures DurationOfAlone(depths, times, blockEnd, |depths|) == blockEnd - times[0]
  {
    var b := AloneUpTo(depths, times, blockEnd, |depths|);
    NextReturnIs(depths, b, |depths|);
  }
}
