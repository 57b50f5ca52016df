/**
 The cache of poll objects of the event loop, one per set of file descriptors
 (common/walt/common/evloop.py, PollersCache). A poll object is the map from descriptor to event mask it watches.
 */
module PollersCache {

  type Fd = nat
  type Fds = seq<Fd>
  type Poller = map<Fd, int>

  /** The poll object one would build from scratch. */
  function Watching(fds: Fds, events: map<Fd, int>): Poller
    requires forall fd :: fd in fds ==> fd in events
  {
    map fd | fd in fds :: events[fd]
  }

  class PollersCache {
    var nextFdsId: nat
    var fdsIdPerFds: map<Fds, nat>
    var fdsPerFdsId: map<nat, Fds>
    var fdsIdsPerFd: map<Fd, set<nat>> // a dictionary with a default
    var pollerPerFdsId: map<nat, Poller>
    var eventsPerFd: map<Fd, int>

    function IdsOf(fd: Fd): set<nat>
      reads this`fdsIdsPerFd
    {
      Lookup(fdsIdsPerFd, fd)
    }

    ghost predicate Valid()
      reads this
    {
      && Inverse(fdsIdPerFds, fdsPerFdsId, nextFdsId)
      && Indexed(fdsIdsPerFd, fdsPerFdsId)
      && Fresh(pollerPerFdsId, fdsPerFdsId, eventsPerFd)
    }

    /** The poll object that the cache holds for a set of descriptors. */
    predicate Cached(fds: Fds, poller: Poller)
      reads this
    {
      && fds in fdsIdPerFds && fdsIdPerFds[fds] in pollerPerFdsId
      && pollerPerFdsId[fdsIdPerFds[fds]] == poller
    }

    constructor ()
      ensures Valid() && eventsPerFd == map[] && fdsPerFdsId == map[]
    {
      nextFdsId, fdsIdPerFds, fdsPerFdsId := 0, map[], map[];
      fdsIdsPerFd, pollerPerFdsId, eventsPerFd := map[], map[], map[];
    }

    method Get(fds: Fds) returns (poller: Poller)
      requires Valid() && forall fd :: fd in fds ==> fd in eventsPerFd
      modifies this
      ensures Valid() && eventsPerFd == old(eventsPerFd)
      ensures poller == Watching(fds, eventsPerFd) && Cached(fds, poller)
    {
      var id := if fds in fdsIdPerFds then fdsIdPerFds[fds] else nextFdsId;
      if id == nextFdsId {
        poller := Watching(fds, eventsPerFd);
        AddEntry(fds, poller);
      } else {
        poller := pollerPerFdsId[id];
        FreshIsWatching(pollerPerFdsId, fdsPerFdsId, eventsPerFd, id);
      }
    }

    method AddEntry(fds: Fds, poller: Poller)
      requires Valid() && fds !in fdsIdPerFds && forall fd :: fd in fds ==> fd in eventsPerFd
      requires poller == Watching(fds, eventsPerFd)
      modifies this
      ensures Valid() && eventsPerFd == old(eventsPerFd) && Cached(fds, poller)
    {
      hide Inverse, Fresh, Indexed, IndexAdded, Watching;
      var id := nextFdsId;
      AddKeeps(fdsIdPerFds, fdsPerFdsId, id, fds, pollerPerFdsId, eventsPerFd);
      var idx := AddId(fdsIdsPerFd, fds, id);
      AddIndexed(fdsIdsPerFd, idx, fdsPerFdsId, id, fds);
      fdsIdPerFds := fdsIdPerFds[fds := id];
      fdsPerFdsId := fdsPerFdsId[id := fds];
      nextFdsId := id + 1;
      fdsIdsPerFd := idx;
      pollerPerFdsId := pollerPerFdsId[id := poller];
    }

    /** Registering is sound exactly when no cached poll object watches the descriptor with another mask. */
    method RegisterFd(fd: Fd, events: int)
      requires Valid()
      modifies this`eventsPerFd
      ensures eventsPerFd == old(eventsPerFd)[fd := events]
      ensures Valid() <==> IdsOf(fd) == {} || old(fd in eventsPerFd && eventsPerFd[fd] == events)
    {
      ghost var before := eventsPerFd;
      eventsPerFd := eventsPerFd[fd := events];
      assert forall id :: id in IdsOf(fd) <==> Holds(fdsIdsPerFd, fd, id);
      if IdsOf(fd) != {} {
        var id :| id in IdsOf(fd);
        assert id in fdsPerFdsId && fd in fdsPerFdsId[id] && fd in pollerPerFdsId[id];
        assert fd in before && pollerPerFdsId[id][fd] == before[fd];
        if before[fd] == events {
          assert eventsPerFd == before;
        } else {
          assert pollerPerFdsId[id][fd] != eventsPerFd[fd];
          assert !IsWatching(pollerPerFdsId[id], fdsPerFdsId[id], eventsPerFd);
        }
      } else {
        assert forall id :: id in fdsPerFdsId ==> !Holds(fdsIdsPerFd, fd, id);
      }
    }

    method UpdateFd(fd: Fd, events: int)
      requires Valid()
      modifies this`eventsPerFd, this`pollerPerFdsId
      ensures Valid() && eventsPerFd == old(eventsPerFd)[fd := events]
    {
      MembersOf(fdsIdsPerFd, fdsPerFdsId, fd);
      var pollers := ModifyAll(pollerPerFdsId, IdsOf(fd), fd, events);
      UpdateKeeps(pollerPerFdsId, pollers, fdsPerFdsId, eventsPerFd, fd, events);
      hide Inverse, Fresh, Indexed;
      eventsPerFd := eventsPerFd[fd := events];
      pollerPerFdsId := pollers;
    }

    /** Forgets a descriptor and every cached set that contains it. */
    method RemoveFd(fd: Fd)
      requires Valid() && fd in eventsPerFd
      modifies this
      ensures Valid() && eventsPerFd == old(eventsPerFd) - {fd}
      ensures forall id :: id in fdsPerFdsId ==> fd !in fdsPerFdsId[id]
      ensures IdsOf(fd) == {}
    {
      hide Inverse, Fresh, Indexed, Holds;
      ghost var events := eventsPerFd;
      var todo := IdsOf(fd);
      MembersOf(fdsIdsPerFd, fdsPerFdsId, fd);
      while todo != {}
        invariant Valid() && todo == IdsOf(fd) && eventsPerFd == old(eventsPerFd)
        decreases |todo|
      {
        var id :| id in todo;
        MembersOf(fdsIdsPerFd, fdsPerFdsId, fd);
        ghost var before := fdsIdsPerFd;
        DropEntry(id);
        LookupWithout(before, fdsIdsPerFd, fd, id);
        todo := todo - {id};
      }
      MembersOf(fdsIdsPerFd, fdsPerFdsId, fd);
      ForgetFd(fdsIdsPerFd, fdsPerFdsId, pollerPerFdsId, eventsPerFd, fd);
      eventsPerFd := eventsPerFd - {fd};
      fdsIdsPerFd := fdsIdsPerFd - {fd};
    }

    method DropEntry(id: nat)
      requires Valid() && id in fdsPerFdsId
      modifies this
      ensures Valid() && eventsPerFd == old(eventsPerFd)
      ensures forall fd, i :: Holds(fdsIdsPerFd, fd, i) <==> Holds(old(fdsIdsPerFd), fd, i) && i != id
    {
      var fds := fdsPerFdsId[id];
      fdsPerFdsId := fdsPerFdsId - {id};
      fdsIdPerFds := fdsIdPerFds - {fds};
      fdsIdsPerFd := DiscardId(fdsIdsPerFd, fds, id);
      pollerPerFdsId := pollerPerFdsId - {id};
    }
  }

  /** Registering a polled descriptor again with another mask: the cache goes on watching the first one. */
  method StaleAfterRegister(fd: Fd, events: int, others: int) returns (cache: PollersCache)
    requires events != others
    ensures fresh(cache) && cache.eventsPerFd == map[fd := others] && cache.Cached([fd], map[fd := events])
    ensures !cache.Valid()
  {
    cache := new PollersCache();
    UnknownFd(cache.fdsIdsPerFd, cache.fdsPerFdsId, cache.pollerPerFdsId, cache.eventsPerFd, fd);
    cache.RegisterFd(fd, events);
    var poller := cache.Get([fd]);
    assert poller == map[fd := events];
    ghost var id := cache.fdsIdPerFds[[fd]];
    assert id in cache.fdsPerFdsId && cache.fdsPerFdsId[id] == [fd];
    MembersOf(cache.fdsIdsPerFd, cache.fdsPerFdsId, fd);
    cache.RegisterFd(fd, others);
  }

  function Lookup(idx: map<Fd, set<nat>>, fd: Fd): set<nat> {
    if fd in idx then idx[fd] else {}
  }

  /** The two id maps are inverse of each other. */
  ghost predicate Inverse(ids: map<Fds, nat>, sets: map<nat, Fds>, next: nat) {
    && (forall fds :: fds in ids ==> ids[fds] in sets && sets[ids[fds]] == fds)
    && (forall id :: id in sets ==> sets[id] in ids && ids[sets[id]] == id)
    && (forall id :: id in sets ==> id < next)
  }

  /** Each cached poll object watches its descriptors with their latest masks. */
  ghost predicate Fresh(pollers: map<nat, Poller>, sets: map<nat, Fds>, events: map<Fd, int>) {
    && pollers.Keys == sets.Keys
    && forall id :: id in sets ==> IsWatching(pollers[id], sets[id], events)
  }

  ghost predicate IsWatching(poller: Poller, fds: Fds, events: map<Fd, int>) {
    && (forall fd :: fd in fds ==> fd in events)
    && (forall fd :: fd in poller <==> fd in fds)
    && (forall fd :: fd in poller ==> poller[fd] == events[fd])
  }

  lemma FreshIsWatching(pollers: map<nat, Poller>, sets: map<nat, Fds>, events: map<Fd, int>, id: nat)
    requires Fresh(pollers, sets, events) && id in sets
    ensures (forall fd :: fd in sets[id] ==> fd in events) && pollers[id] == Watching(sets[id], events)
  {
    assert IsWatching(pollers[id], sets[id], events);
    var w := Watching(sets[id], events);
    assert forall fd :: fd in w <==> fd in pollers[id];
    assert forall fd :: fd in w ==> w[fd] == pollers[id][fd];
  }

  lemma LookupWithout(idx: map<Fd, set<nat>>, idx': map<Fd, set<nat>>, fd: Fd, id: nat)
    requires forall i :: Holds(idx', fd, i) <==> Holds(idx, fd, i) && i != id
    ensures Lookup(idx', fd) == Lookup(idx, fd) - {id}
  {
    assert forall i :: i in Lookup(idx', fd) <==> Holds(idx', fd, i);
    assert forall i :: i in Lookup(idx, fd) <==> Holds(idx, fd, i);
  }

  lemma ForgetFd(idx: map<Fd, set<nat>>, sets: map<nat, Fds>, pollers: map<nat, Poller>, events: map<Fd, int>, fd: Fd)
    requires Indexed(idx, sets) && Fresh(pollers, sets, events) && Lookup(idx, fd) == {}
    ensures Indexed(idx - {fd}, sets) && Fresh(pollers, sets, events - {fd})
  {
    MembersOf(idx, sets, fd);
    assert forall f, id :: Holds(idx - {fd}, f, id) <==> Holds(idx, f, id);
    forall id | id in sets
      ensures IsWatching(pollers[id], sets[id], events - {fd})
    {
      assert IsWatching(pollers[id], sets[id], events);
    }
  }

  /** A descriptor that is not registered is in no cached set. */
  lemma UnknownFd(idx: map<Fd, set<nat>>, sets: map<nat, Fds>, pollers: map<nat, Poller>, events: map<Fd, int>, fd: Fd)
    requires Indexed(idx, sets) && Fresh(pollers, sets, events) && fd !in events
    ensures Lookup(idx, fd) == {}
  {
    MembersOf(idx, sets, fd);
    forall id | id in sets
      ensures fd !in sets[id]
    {
      assert IsWatching(pollers[id], sets[id], events);
    }
  }

  lemma AddKeeps(
    ids: map<Fds, nat>, sets: map<nat, Fds>, next: nat, fds: Fds, pollers: map<nat, Poller>, events: map<Fd, int>)
    requires Inverse(ids, sets, next) && Fresh(pollers, sets, events) && fds !in ids
    requires forall fd :: fd in fds ==> fd in events
    ensures next !in sets && Inverse(ids[fds := next], sets[next := fds], next + 1)
    ensures Fresh(pollers[next := Watching(fds, events)], sets[next := fds], events)
  {
    assert IsWatching(Watching(fds, events), fds, events);
  }

  lemma MembersOf(idx: map<Fd, set<nat>>, sets: map<nat, Fds>, fd: Fd)
    requires Indexed(idx, sets)
    ensures forall id :: id in Lookup(idx, fd) <==> id in sets && fd in sets[id]
  {
    assert forall id :: id in Lookup(idx, fd) <==> Holds(idx, fd, id);
  }

  lemma UpdateKeeps(
    pollers: map<nat, Poller>, pollers': map<nat, Poller>, sets: map<nat, Fds>, events: map<Fd, int>, fd: Fd, ev: int)
    requires Fresh(pollers, sets, events) && pollers'.Keys == pollers.Keys
    requires forall id :: id in pollers ==>
               pollers'[id] == if fd in sets[id] then pollers[id][fd := ev] else pollers[id]
    ensures Fresh(pollers', sets, events[fd := ev])
  {
    forall id | id in sets
      ensures IsWatching(pollers'[id], sets[id], events[fd := ev])
    {
      assert IsWatching(pollers[id], sets[id], events);
    }
  }

  // the reverse index of one more cached set
  ghost predicate IndexAdded(idx: map<Fd, set<nat>>, idx': map<Fd, set<nat>>, fds: Fds, id: nat) {
    forall fd, i :: Holds(idx', fd, i) <==> Holds(idx, fd, i) || (i == id && fd in fds)
  }

  lemma AddIndexed(idx: map<Fd, set<nat>>, idx': map<Fd, set<nat>>, sets: map<nat, Fds>, next: nat, fds: Fds)
    requires Indexed(idx, sets) && next !in sets && IndexAdded(idx, idx', fds, next)
    ensures Indexed(idx', sets[next := fds])
  {
  }

  predicate Holds(idx: map<Fd, set<nat>>, fd: Fd, id: nat) {
    id in Lookup(idx, fd)
  }

  ghost predicate Indexed(idx: map<Fd, set<nat>>, sets: map<nat, Fds>) {
    forall fd, id :: Holds(idx, fd, id) <==> id in sets && fd in sets[id]
  }

  method AddId(idx: map<Fd, set<nat>>, fds: Fds, id: nat) returns (idx': map<Fd, set<nat>>)
    ensures IndexAdded(idx, idx', fds, id)
  {
    idx' := idx;
    for k := 0 to |fds|
      invariant forall fd, i :: Holds(idx', fd, i) <==> Holds(idx, fd, i) || (i == id && fd in fds[..k])
    {
      ghost var before := idx';
      idx' := idx'[fds[k] := Lookup(idx', fds[k]) + {id}];
      assert forall fd, i :: Holds(idx', fd, i) <==> Holds(before, fd, i) || (i == id && fd == fds[k]);
      assert fds[..k + 1] == fds[..k] + [fds[k]];
    }
    assert fds[..|fds|] == fds;
  }

  method DiscardId(idx: map<Fd, set<nat>>, fds: Fds, id: nat) returns (idx': map<Fd, set<nat>>)
    ensures forall fd, i :: Holds(idx', fd, i) <==> Holds(idx, fd, i) && !(i == id && fd in fds)
  {
    idx' := idx;
    for k := 0 to |fds|
      invariant forall fd, i :: Holds(idx', fd, i) <==> Holds(idx, fd, i) && !(i == id && fd in fds[..k])
    {
      ghost var before := idx';
      idx' := idx'[fds[k] := Lookup(idx', fds[k]) - {id}];
      assert forall fd, i :: Holds(idx', fd, i) <==> Holds(before, fd, i) && !(i == id && fd == fds[k]);
      assert fds[..k + 1] == fds[..k] + [fds[k]];
    }
    assert fds[..|fds|] == fds;
  }

  method ModifyAll(pollers: map<nat, Poller>, ids: set<nat>, fd: Fd, events: int) returns (pollers': map<nat, Poller>)
    requires ids <= pollers.Keys
    ensures pollers'.Keys == pollers.Keys
    ensures forall id :: id in pollers ==> pollers'[id] == if id in ids then pollers[id][fd := events] else pollers[id]
  {
    pollers' := pollers;
    var todo := ids;
    while todo != {}
      invariant todo <= ids && pollers'.Keys == pollers.Keys
      invariant forall id :: id in pollers ==>
                  pollers'[id] == if id in ids - todo then pollers[id][fd := events] else pollers[id]
      decreases |todo|
    {
      var id :| id in todo;
      var poller: Poller := pollers'[id];
      pollers' := pollers'[id := poller[fd := events]];
      todo := todo - {id};
    }
  }
}
