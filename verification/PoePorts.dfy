/**
 Guessing which PoE port belongs to which switch interface, when each group of PoE ports occupies a run of
 consecutive interface numbers (server/walt/server/snmp/poe.py, get_poe_port_mapping).
 */
module PoePorts {
  import opened Wrappers
  import opened Arithmetic

  // (group, port within the group)
  type PoePort = (int, int)

  predicate Increasing(ifaces: seq<int>) {
    forall i, j :: 0 <= i < j < |ifaces| ==> ifaces[i] < ifaces[j]
  }

  // ---------- groups ----------

  function CountOf(poe: seq<PoePort>, g: int): nat {
    if poe == [] then 0 else (if poe[0].0 == g then 1 else 0) + CountOf(poe[1..], g)
  }

  /** All groups have n ports. */
  predicate SameGroupLength(poe: seq<PoePort>, n: nat) {
    forall k :: 0 <= k < |poe| ==> CountOf(poe, poe[k].0) == n
  }

  /** The ports are listed group by group. */
  predicate ListedByGroup(poe: seq<PoePort>) {
    forall i, j, k :: 0 <= i < j < k < |poe| && poe[i].0 == poe[k].0 ==> poe[j].0 == poe[i].0
  }

  lemma {:induction false} CountOfAbsent(poe: seq<PoePort>, g: int)
    ensures CountOf(poe, g) <= |poe|
    ensures CountOf(poe, g) == 0 <==> forall k :: 0 <= k < |poe| ==> poe[k].0 != g
  {
    if poe != [] {
      CountOfAbsent(poe[1..], g);
    }
  }

  lemma {:induction false} CountOfConcat(a: seq<PoePort>, b: seq<PoePort>, g: int)
    ensures CountOf(a + b, g) == CountOf(a, g) + CountOf(b, g)
  {
    if a == [] {
      assert a + b == b;
    } else {
      assert (a + b)[1..] == a[1..] + b;
      CountOfConcat(a[1..], b, g);
    }
  }

  lemma {:induction false} CountOfAll(poe: seq<PoePort>, g: int)
    requires forall k :: 0 <= k < |poe| ==> poe[k].0 == g
    ensures CountOf(poe, g) == |poe|
  {
    if poe != [] {
      CountOfAll(poe[1..], g);
    }
  }

  lemma OnlyPrefix(poe: seq<PoePort>, e: nat)
    requires ListedByGroup(poe) && 0 < e < |poe| && poe[e].0 != poe[0].0
    ensures forall k :: 0 <= k < |poe[e..]| ==> poe[e..][k].0 != poe[0].0
  {
    assert forall k :: e <= k < |poe| ==> poe[k].0 != poe[0].0;
  }

  /** The first group is a prefix of a list made group by group. */
  lemma FirstGroup(poe: seq<PoePort>, n: nat)
    requires poe != [] && ListedByGroup(poe) && CountOf(poe, poe[0].0) == n
    ensures 0 < n <= |poe|
    ensures forall k :: 0 <= k < n ==> poe[k].0 == poe[0].0
    ensures forall k :: n <= k < |poe| ==> poe[k].0 != poe[0].0
  {
    var g := poe[0].0;
    var e := PrefixEnd(poe, g);
    var first, rest := poe[..e], poe[e..];
    if e < |poe| {
      OnlyPrefix(poe, e);
    }
    hide ListedByGroup;
    assert poe == first + rest;
    CountOfConcat(first, rest, g);
    CountOfAll(first, g);
    CountOfAbsent(rest, g);
    assert e == n;
    assert forall k :: n <= k < |poe| ==> poe[k] == rest[k - n];
  }

  lemma {:induction false} PrefixEnd(poe: seq<PoePort>, g: int) returns (e: nat)
    ensures e <= |poe| && (forall k :: 0 <= k < e ==> poe[k].0 == g) && (e < |poe| ==> poe[e].0 != g)
  {
    e := 0;
    while e < |poe| && poe[e].0 == g
      invariant e <= |poe| && forall k :: 0 <= k < e ==> poe[k].0 == g
    {
      e := e + 1;
    }
  }

  // which slice of n ports is port i in?
  function SliceOf(i: nat, n: nat): nat
    requires n > 0
  {
    i / n
  }

  lemma RestOfGroups(poe: seq<PoePort>, n: nat)
    requires poe != [] && ListedByGroup(poe) && SameGroupLength(poe, n) && n <= |poe|
    requires forall k :: 0 <= k < n ==> poe[k].0 == poe[0].0
    requires forall k :: n <= k < |poe| ==> poe[k].0 != poe[0].0
    ensures ListedByGroup(poe[n..]) && SameGroupLength(poe[n..], n)
  {
    var first, rest := poe[..n], poe[n..];
    assert forall k :: 0 <= k < |rest| ==> rest[k] == poe[n + k];
    assert ListedByGroup(rest);
    hide ListedByGroup;
    assert poe == first + rest;
    forall k | 0 <= k < |rest|
      ensures CountOf(rest, rest[k].0) == n
    {
      CountOfConcat(first, rest, rest[k].0);
      CountOfAbsent(first, rest[k].0);
      assert rest[k] == poe[n + k];
    }
  }

  /** Cutting the list every n ports cuts it between the groups. */
  lemma {:induction false} SlicesAreGroups(poe: seq<PoePort>, n: nat)
    requires n > 0 && ListedByGroup(poe) && SameGroupLength(poe, n)
    ensures |poe| == SliceOf(|poe|, n) * n
    ensures forall i, j :: 0 <= i < |poe| && 0 <= j < |poe| ==>
              (poe[i].0 == poe[j].0 <==> SliceOf(i, n) == SliceOf(j, n))
    decreases |poe|
  {
    if poe == [] {
      SliceIndex(0, n);
    } else {
      FirstGroup(poe, n);
      RestOfGroups(poe, n);
      var rest := poe[n..];
      SlicesAreGroups(rest, n);
      SliceIndex(|poe|, n);
      hide SliceOf, ListedByGroup, SameGroupLength;
      Distribute(SliceOf(|rest|, n), n);
      forall i, j | 0 <= i < |poe| && 0 <= j < |poe|
        ensures poe[i].0 == poe[j].0 <==> SliceOf(i, n) == SliceOf(j, n)
      {
        SliceIndex(i, n);
        SliceIndex(j, n);
        assert i >= n ==> rest[i - n] == poe[i];
        assert j >= n ==> rest[j - n] == poe[j];
      }
    }
  }

  lemma SliceIndex(i: nat, n: nat)
    requires n > 0
    ensures i < n ==> SliceOf(i, n) == 0
    ensures i >= n ==> SliceOf(i, n) == SliceOf(i - n, n) + 1
  {
    if i < n {
      QuotientUnique(i, 0, n);
    } else {
      var q := (i - n) / n;
      QuotientUnique(i, q + 1, n);
    }
  }

  // ---------- the search ----------

  /** Where a run of interface numbers may start: at the first interface, and after each jump. */
  function Holes(ifaces: seq<int>): seq<nat> {
    [0] + Jumps(ifaces, 1)
  }

  function Jumps(ifaces: seq<int>, from: nat): (js: seq<nat>)
    requires from >= 1
    ensures forall k :: 0 <= k < |js| ==> from <= js[k] < |ifaces| && ifaces[js[k]] - ifaces[js[k] - 1] > 1
    ensures forall j, k :: 0 <= j < k < |js| ==> js[j] < js[k]
    decreases |ifaces| - from
  {
    if from >= |ifaces| then []
    else (if ifaces[from] - ifaces[from - 1] > 1 then [from] else []) + Jumps(ifaces, from + 1)
  }

  /** n interfaces from position h on have consecutive numbers. */
  predicate Run(ifaces: seq<int>, h: nat, n: nat) {
    h + n <= |ifaces| && forall j :: h <= j < h + n ==> ifaces[j] == ifaces[h] + (j - h)
  }

  lemma {:induction false} GrowsByOneAtLeast(ifaces: seq<int>, h: nat, k: nat)
    requires Increasing(ifaces) && h + k < |ifaces|
    ensures ifaces[h] + k <= ifaces[h + k]
  {
    if k > 0 {
      GrowsByOneAtLeast(ifaces, h, k - 1);
    }
  }

  /** The test of the program on the two ends of a range is enough. */
  lemma EndsTellRun(ifaces: seq<int>, h: nat, n: nat)
    requires Increasing(ifaces) && n > 0 && h + n <= |ifaces|
    ensures ifaces[h + n - 1] - ifaces[h] + 1 == n <==> Run(ifaces, h, n)
  {
    if ifaces[h + n - 1] - ifaces[h] + 1 == n {
      forall j | h <= j < h + n
        ensures ifaces[j] == ifaces[h] + (j - h)
      {
        GrowsByOneAtLeast(ifaces, h, j - h);
        GrowsByOneAtLeast(ifaces, j, h + n - 1 - j);
      }
    }
  }

  lemma NoLaterRun(ifaces: seq<int>, k: nat, n: nat)
    requires k < |Holes(ifaces)| && Holes(ifaces)[k] + n > |ifaces|
    ensures forall j :: k <= j < |Holes(ifaces)| ==> !Run(ifaces, Holes(ifaces)[j], n)
  {
  }

  /** Tries the holes in turn, from `from` on, for a run of n interfaces. */
  method FindRun(ifaces: seq<int>, holes: seq<nat>, from: nat, n: nat) returns (start: Option<nat>, next: nat)
    requires holes == Holes(ifaces) && from <= |holes| && n > 0
    ensures from <= next <= |holes|
    ensures start.Some? ==> next > from && start.value == holes[next - 1] && start.value + n <= |ifaces|
    ensures start.Some? && Increasing(ifaces) ==> Run(ifaces, start.value, n)
    ensures start.Some? && Increasing(ifaces) ==> forall k :: from <= k < next - 1 ==> !Run(ifaces, holes[k], n)
    ensures start.None? && Increasing(ifaces) ==> forall k :: from <= k < |holes| ==> !Run(ifaces, holes[k], n)
  {
    hide Increasing, Run, Holes;
    next := from;
    while true
      invariant from <= next <= |holes|
      invariant Increasing(ifaces) ==> forall k :: from <= k < next ==> !Run(ifaces, holes[k], n)
      decreases |holes| - next
    {
      if next >= |holes| {
        return None, next;
      }
      var h := holes[next];
      next := next + 1;
      if h + n > |ifaces| {
        // and the later holes are further right
        NoLaterRun(ifaces, next - 1, n);
        return None, next;
      }
      if Increasing(ifaces) {
        EndsTellRun(ifaces, h, n);
      }
      if ifaces[h + n - 1] - ifaces[h] + 1 == n {
        return Some(h), next;
      }
    }
  }

  // ---------- the mapping ----------

  /** Two runs from different holes do not overlap. */
  lemma LaterHoleIsAfter(ifaces: seq<int>, h: nat, n: nat, j: nat)
    requires Run(ifaces, h, n) && h < j < |ifaces| && ifaces[j] - ifaces[j - 1] > 1
    ensures h + n <= j
  {
  }

  lemma HolesInOrder(ifaces: seq<int>, n: nat, j: nat, k: nat)
    requires j < k < |Holes(ifaces)| && Run(ifaces, Holes(ifaces)[j], n)
    ensures Holes(ifaces)[j] < Holes(ifaces)[k] && Holes(ifaces)[j] + n <= Holes(ifaces)[k]
  {
    var js := Jumps(ifaces, 1);
    assert Holes(ifaces)[k] == js[k - 1];
    if j > 0 {
      assert Holes(ifaces)[j] == js[j - 1];
    }
    LaterHoleIsAfter(ifaces, Holes(ifaces)[j], n, Holes(ifaces)[k]);
  }

  /** Interface keys[i] is mapped to the i-th port, and no other interface is mapped. */
  ghost predicate Mapped(ps: seq<PoePort>, m: map<int, PoePort>, keys: seq<int>) {
    && |keys| <= |ps|
    && (forall k :: k in m <==> k in keys)
    && (forall i :: 0 <= i < |keys| ==> m[keys[i]] == ps[i])
  }

  /** The ports of one slice are on consecutive interface numbers. */
  ghost predicate Consecutive(keys: seq<int>, n: nat)
    requires n > 0
  {
    forall i, j :: 0 <= i <= j < |keys| && SliceOf(i, n) == SliceOf(j, n) ==> keys[j] - keys[i] == j - i
  }

  function Zip(keys: seq<int>, ps: seq<PoePort>): map<int, PoePort>
    requires |keys| <= |ps|
  {
    if keys == [] then map[]
    else var n := |keys| - 1; Zip(keys[..n], ps)[keys[n] := ps[n]]
  }

  lemma {:induction false} ZipIs(keys: seq<int>, ps: seq<PoePort>)
    requires |keys| <= |ps| && Increasing(keys)
    ensures Mapped(ps, Zip(keys, ps), keys)
  {
    if keys != [] {
      var n := |keys| - 1;
      ZipIs(keys[..n], ps);
      assert keys == keys[..n] + [keys[n]];
    }
  }

  lemma DomainOfUnion(m: map<int, PoePort>, keys: seq<int>, zip: map<int, PoePort>, run: seq<int>)
    requires (forall k :: k in m <==> k in keys) && (forall k :: k in zip <==> k in run)
    ensures forall k :: k in m + zip <==> k in keys + run
  {
  }

  lemma ValuesOfUnion(ps: seq<PoePort>, m: map<int, PoePort>, keys: seq<int>, zip: map<int, PoePort>, run: seq<int>)
    requires |keys| + |run| <= |ps| && Mapped(ps, m, keys) && Mapped(ps[|keys|..], zip, run)
    requires forall i :: 0 <= i < |keys| ==> keys[i] !in zip
    ensures forall i :: 0 <= i < |keys + run| ==> (keys + run)[i] in m + zip && (m + zip)[(keys + run)[i]] == ps[i]
  {
    var n, tail := |keys|, ps[|keys|..];
    forall i | 0 <= i < |keys + run|
      ensures (keys + run)[i] in m + zip && (m + zip)[(keys + run)[i]] == ps[i]
    {
      var k := (keys + run)[i];
      if i < n {
        assert k == keys[i] && k in keys && k in m && k !in zip;
      } else {
        assert k == run[i - n] && k in run && k in zip && zip[k] == tail[i - n];
      }
    }
  }

  /** One more group. */
  lemma MapOneGroup(ps: seq<PoePort>, m: map<int, PoePort>, keys: seq<int>, run: seq<int>)
    requires |keys| + |run| <= |ps| && Mapped(ps, m, keys) && Increasing(run)
    requires forall i, j :: 0 <= i < |keys| && 0 <= j < |run| ==> keys[i] < run[j]
    ensures Mapped(ps, m + Zip(run, ps[|keys|..]), keys + run)
  {
    hide Increasing, Zip;
    var zip := Zip(run, ps[|keys|..]);
    ZipIs(run, ps[|keys|..]);
    forall i | 0 <= i < |keys|
      ensures keys[i] !in zip
    {
      var k := keys[i];
      assert k !in run;
    }
    DomainOfUnion(m, keys, zip, run);
    ValuesOfUnion(ps, m, keys, zip, run);
  }

  lemma ConsecutiveGroup(keys: seq<int>, n: nat, ifaces: seq<int>, h: nat)
    requires n > 0 && |keys| == SliceOf(|keys|, n) * n && Run(ifaces, h, n)
    requires Consecutive(keys, n)
    ensures Consecutive(keys + ifaces[h..h + n], n)
  {
    var count, keys' := |keys|, keys + ifaces[h..h + n];
    forall i, j | 0 <= i <= j < |keys'| && SliceOf(i, n) == SliceOf(j, n)
      ensures keys'[j] - keys'[i] == j - i
    {
      if i < count <= j {
        DivMonotone(count, j, n);
        SliceBefore(i, count, n);
      }
    }
  }

  lemma SliceBefore(i: nat, count: nat, n: nat)
    requires n > 0 && i < count == SliceOf(count, n) * n
    ensures SliceOf(i, n) < SliceOf(count, n)
  {
    if SliceOf(count, n) <= SliceOf(i, n) {
      MulMonotone(SliceOf(count, n), SliceOf(i, n), n);
    }
  }

  /** How many holes from `from` on start a run of n interfaces. */
  function RunsFrom(ifaces: seq<int>, from: nat, n: nat): nat
    decreases |Holes(ifaces)| - from
  {
    if from >= |Holes(ifaces)| then 0
    else (if Run(ifaces, Holes(ifaces)[from], n) then 1 else 0) + RunsFrom(ifaces, from + 1, n)
  }

  lemma {:induction false} SkipRuns(ifaces: seq<int>, from: nat, to: nat, n: nat)
    requires from <= to <= |Holes(ifaces)|
    requires forall k :: from <= k < to ==> !Run(ifaces, Holes(ifaces)[k], n)
    ensures RunsFrom(ifaces, from, n) == RunsFrom(ifaces, to, n)
    decreases |Holes(ifaces)| - from
  {
    if from < to {
      SkipRuns(ifaces, from + 1, to, n);
    }
  }

  /** What a mapping by groups is: an order-preserving bijection from some interfaces onto all the ports,
      each group on consecutive interface numbers. */
  ghost predicate GoodMapping(ifaces: seq<int>, poe: seq<PoePort>, m: map<int, PoePort>, keys: seq<int>) {
    && |keys| == |poe| && Mapped(poe, m, keys)
    && Increasing(keys) && (forall i :: 0 <= i < |keys| ==> keys[i] in ifaces)
    && (forall i, j :: 0 <= i <= j < |poe| && poe[i].0 == poe[j].0 ==> keys[j] - keys[i] == j - i)
  }

  /** The common number of ports of the groups, if there is one. */
  method GroupLength(poe: seq<PoePort>) returns (r: Option<nat>)
    ensures r.Some? ==> SameGroupLength(poe, r.value) && r.value == FirstGroupLength(poe) > 0
    ensures r.None? ==> poe == [] || !SameGroupLength(poe, FirstGroupLength(poe))
  {
    if poe == [] {
      return None;
    }
    var n := CountOf(poe, poe[0].0);
    for k := 0 to |poe|
      invariant forall j :: 0 <= j < k ==> CountOf(poe, poe[j].0) == n
    {
      if CountOf(poe, poe[k].0) != n {
        return None;
      }
    }
    r := Some(n);
  }

  function FirstGroupLength(poe: seq<PoePort>): nat {
    if poe == [] then 0 else CountOf(poe, poe[0].0)
  }

  /** The search has used `count / n` of the runs found from hole `from` on, and all of them lie before the
      next holes. */
  ghost predicate Progress(ifaces: seq<int>, poe: seq<PoePort>, m: map<int, PoePort>, keys: seq<int>, n: nat, from: nat)
    requires n > 0
  {
    && |keys| <= |poe| && |keys| == SliceOf(|keys|, n) * n
    && Mapped(poe, m, keys) && Increasing(keys) && Consecutive(keys, n)
    && (forall i :: 0 <= i < |keys| ==> keys[i] in ifaces)
    && BeforeHoles(ifaces, keys, from)
    && RunsFrom(ifaces, 0, n) == SliceOf(|keys|, n) + RunsFrom(ifaces, from, n)
  }

  /** All mapped interfaces lie before the holes from `from` on. */
  ghost predicate BeforeHoles(ifaces: seq<int>, keys: seq<int>, from: nat) {
    forall i, k :: 0 <= i < |keys| && from <= k < |Holes(ifaces)| && Holes(ifaces)[k] < |ifaces| ==>
      keys[i] < ifaces[Holes(ifaces)[k]]
  }

  lemma RunBeforeHoles(ifaces: seq<int>, keys: seq<int>, n: nat, from: nat, hole: nat)
    requires n > 0 && Increasing(ifaces) && BeforeHoles(ifaces, keys, from)
    requires from <= hole < |Holes(ifaces)| && Run(ifaces, Holes(ifaces)[hole], n)
    ensures var h := Holes(ifaces)[hole];
            && BeforeHoles(ifaces, keys + ifaces[h..h + n], hole + 1)
            && (forall i :: 0 <= i < |keys| ==> keys[i] < ifaces[h])
  {
    var h := Holes(ifaces)[hole];
    var keys' := keys + ifaces[h..h + n];
    forall i, k | 0 <= i < |keys'| && hole + 1 <= k < |Holes(ifaces)| && Holes(ifaces)[k] < |ifaces|
      ensures keys'[i] < ifaces[Holes(ifaces)[k]]
    {
      HolesInOrder(ifaces, n, hole, k);
      hide Holes, Run;
      if i >= |keys| {
        assert keys'[i] == ifaces[h + (i - |keys|)];
      }
    }
  }

  lemma RunIsIncreasing(ifaces: seq<int>, keys: seq<int>, h: nat, n: nat)
    requires Increasing(ifaces) && Increasing(keys) && n > 0 && h + n <= |ifaces|
    requires forall i :: 0 <= i < |keys| ==> keys[i] < ifaces[h]
    ensures var run := ifaces[h..h + n];
            && Increasing(run) && Increasing(keys + run)
            && (forall i, j :: 0 <= i < |keys| && 0 <= j < |run| ==> keys[i] < run[j])
  {
    forall j | h <= j < h + n
      ensures ifaces[h] <= ifaces[j]
    {
    }
  }

  /** The count of used runs after one more. */
  lemma NextCount(ifaces: seq<int>, count: nat, n: nat, from: nat, hole: nat)
    requires n > 0 && count == SliceOf(count, n) * n
    requires RunsFrom(ifaces, 0, n) == SliceOf(count, n) + RunsFrom(ifaces, from, n)
    requires from <= hole < |Holes(ifaces)| && Run(ifaces, Holes(ifaces)[hole], n)
    requires forall k :: from <= k < hole ==> !Run(ifaces, Holes(ifaces)[k], n)
    ensures count + n == SliceOf(count + n, n) * n
    ensures RunsFrom(ifaces, 0, n) == SliceOf(count + n, n) + RunsFrom(ifaces, hole + 1, n)
  {
    hide Holes;
    SkipRuns(ifaces, from, hole, n);
    SliceIndex(count + n, n);
    hide SliceOf, Run;
    Distribute(SliceOf(count, n), n);
  }

  lemma SliceWithin(ifaces: seq<int>, h: nat, n: nat)
    requires h + n <= |ifaces|
    ensures var run := ifaces[h..h + n]; forall i :: 0 <= i < |run| ==> run[i] in ifaces
  {
  }

  /** The mapped interfaces after one more run. */
  lemma NextKeys(ifaces: seq<int>, keys: seq<int>, n: nat, from: nat, hole: nat)
    requires n > 0 && Increasing(ifaces) && Increasing(keys) && Consecutive(keys, n)
    requires |keys| == SliceOf(|keys|, n) * n && BeforeHoles(ifaces, keys, from)
    requires forall i :: 0 <= i < |keys| ==> keys[i] in ifaces
    requires from <= hole < |Holes(ifaces)| && Run(ifaces, Holes(ifaces)[hole], n)
    ensures var h := Holes(ifaces)[hole];
            var run := ifaces[h..h + n];
            && Increasing(run) && Increasing(keys + run) && Consecutive(keys + run, n)
            && BeforeHoles(ifaces, keys + run, hole + 1)
            && (forall i :: 0 <= i < |keys + run| ==> (keys + run)[i] in ifaces)
            && (forall i, j :: 0 <= i < |keys| && 0 <= j < |run| ==> keys[i] < run[j])
  {
    hide Increasing, Consecutive, BeforeHoles, Holes, SliceOf;
    var h := Holes(ifaces)[hole];
    assert h + n <= |ifaces|;
    hide Run;
    RunBeforeHoles(ifaces, keys, n, from, hole);
    ConsecutiveGroup(keys, n, ifaces, h);
    RunIsIncreasing(ifaces, keys, h, n);
    SliceWithin(ifaces, h, n);
  }

  lemma NextGroup(
    ifaces: seq<int>, poe: seq<PoePort>, m: map<int, PoePort>, keys: seq<int>, n: nat, from: nat, hole: nat)
    requires n > 0 && Increasing(ifaces) && Progress(ifaces, poe, m, keys, n, from) && |keys| + n <= |poe|
    requires from <= hole < |Holes(ifaces)| && Run(ifaces, Holes(ifaces)[hole], n)
    requires forall k :: from <= k < hole ==> !Run(ifaces, Holes(ifaces)[k], n)
    ensures var h := Holes(ifaces)[hole];
            Progress(ifaces, poe, m + Zip(ifaces[h..h + n], poe[|keys|..]), keys + ifaces[h..h + n], n, hole + 1)
  {
    hide Increasing, Consecutive, BeforeHoles, Holes, SliceOf, Mapped, Zip, RunsFrom;
    var h := Holes(ifaces)[hole];
    assert h + n <= |ifaces|;
    hide Run;
    var run := ifaces[h..h + n];
    NextKeys(ifaces, keys, n, from, hole);
    NextCount(ifaces, |keys|, n, from, hole);
    MapOneGroup(poe, m, keys, run);
    assert |keys + run| == |keys| + n;
  }

  lemma AllMapped(ifaces: seq<int>, poe: seq<PoePort>, m: map<int, PoePort>, keys: seq<int>, n: nat, from: nat)
    requires n > 0 && ListedByGroup(poe) && SameGroupLength(poe, n)
    requires Progress(ifaces, poe, m, keys, n, from) && |keys| == |poe|
    ensures GoodMapping(ifaces, poe, m, keys) && |poe| <= RunsFrom(ifaces, 0, n) * n
  {
    SlicesAreGroups(poe, n);
    MulMonotone(SliceOf(|poe|, n), RunsFrom(ifaces, 0, n), n);
  }

  lemma RoomForAGroup(poe: seq<PoePort>, n: nat, count: nat)
    requires n > 0 && ListedByGroup(poe) && SameGroupLength(poe, n)
    requires count < |poe| && count == SliceOf(count, n) * n
    ensures count + n <= |poe|
  {
    SlicesAreGroups(poe, n);
    if SliceOf(|poe|, n) <= SliceOf(count, n) {
      MulMonotone(SliceOf(|poe|, n), SliceOf(count, n), n);
    } else {
      MulMonotone(SliceOf(count, n) + 1, SliceOf(|poe|, n), n);
      Distribute(SliceOf(count, n), n);
    }
  }

  /** Each slice of n ports goes to the first run of n interfaces found from the next hole on. */
  method MapSlices(ifaces: seq<int>, poe: seq<PoePort>, n: nat)
    returns (r: Option<map<int, PoePort>>, ghost keys: seq<int>)
    requires n > 0 && SameGroupLength(poe, n)
    ensures Increasing(ifaces) && ListedByGroup(poe) && r.Some? ==> GoodMapping(ifaces, poe, r.value, keys)
    ensures Increasing(ifaces) && ListedByGroup(poe) ==> (r.Some? <==> |poe| <= RunsFrom(ifaces, 0, n) * n)
  {
    hide Increasing, ListedByGroup, SameGroupLength, Progress, GoodMapping, SliceOf, Run;
    ghost var tidy := Increasing(ifaces) && ListedByGroup(poe);
    var holes := Holes(ifaces);
    var m: map<int, PoePort> := map[];
    var poeIdx, holeIdx := 0, 0;
    keys := [];
    NothingMapped(ifaces, poe, n);
    while poeIdx < |poe|
      invariant 0 <= poeIdx && 0 <= holeIdx <= |holes|
      invariant tidy ==> |keys| == poeIdx <= |poe| && Progress(ifaces, poe, m, keys, n, holeIdx)
      decreases |poe| - poeIdx
    {
      ghost var from := holeIdx;
      var start;
      start, holeIdx := FindRun(ifaces, holes, holeIdx, n);
      if start.None? {
        if tidy {
          TooFewRuns(ifaces, poe, m, keys, n, from);
        }
        return None, keys;
      }
      var width := if n <= |poe| - poeIdx then n else |poe| - poeIdx;
      var run := ifaces[start.value..start.value + width];
      if tidy {
        WholeSlices(ifaces, poe, m, keys, n, from);
        RoomForAGroup(poe, n, poeIdx);
        NextGroup(ifaces, poe, m, keys, n, from, holeIdx - 1);
        keys := keys + run;
      }
      m := m + Zip(run, poe[poeIdx..]);
      poeIdx := poeIdx + n;
    }
    if tidy {
      AllMapped(ifaces, poe, m, keys, n, holeIdx);
    }
    r := Some(m);
  }

  lemma NothingMapped(ifaces: seq<int>, poe: seq<PoePort>, n: nat)
    requires n > 0
    ensures Progress(ifaces, poe, map[], [], n, 0)
  {
    SliceIndex(0, n);
  }

  lemma WholeSlices(ifaces: seq<int>, poe: seq<PoePort>, m: map<int, PoePort>, keys: seq<int>, n: nat, from: nat)
    requires n > 0 && Progress(ifaces, poe, m, keys, n, from)
    ensures |keys| == SliceOf(|keys|, n) * n
  {
  }

  lemma TooFewRuns(ifaces: seq<int>, poe: seq<PoePort>, m: map<int, PoePort>, keys: seq<int>, n: nat, from: nat)
    requires n > 0 && Progress(ifaces, poe, m, keys, n, from) && |keys| < |poe| && from <= |Holes(ifaces)|
    requires forall k :: from <= k < |Holes(ifaces)| ==> !Run(ifaces, Holes(ifaces)[k], n)
    ensures RunsFrom(ifaces, 0, n) * n < |poe|
  {
    SkipRuns(ifaces, from, |Holes(ifaces)|, n);
  }

  /** On interfaces in increasing order and ports listed group by group, the strategy succeeds with a good mapping
      exactly when there are enough runs of interfaces, one per group. */
  method MapByGroups(ifaces: seq<int>, poe: seq<PoePort>) returns (r: Option<map<int, PoePort>>, ghost keys: seq<int>)
    ensures Increasing(ifaces) && ListedByGroup(poe) && r.Some? ==> GoodMapping(ifaces, poe, r.value, keys)
    ensures Increasing(ifaces) && ListedByGroup(poe) ==>
              var n := FirstGroupLength(poe);
              r.Some? <==> poe != [] && SameGroupLength(poe, n) && |poe| <= RunsFrom(ifaces, 0, n) * n
  {
    keys := [];
    var len := GroupLength(poe);
    if len.None? {
      return None, keys;
    }
    r, keys := MapSlices(ifaces, poe, len.value);
  }
}
