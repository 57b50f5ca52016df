/**
 The event loop object (common/walt/common/evloop.py, EventLoop): its dictionaries changed in place, together
 with the cache of poll objects. Each method does what the functions of EventLoopModel say.
 */
module EventLoop {
  import opened Wrappers
  import P = PollersCache
  import M = EventLoopModel

  // a notification: the descriptor, and whether there is something to read or write rather than an error
  datatype Event = Event(fd: P.Fd, ok: bool)

  class EventLoop {
    const pollers: P.PollersCache
    var listenersPerFd: map<P.Fd, M.Listener>
    var fdPerListener: map<M.Listener, P.Fd>
    var pendingEvents: seq<Event>  // a dictionary by descriptor, oldest entry first
    var disabledFds: set<P.Fd>
    ghost var running: seq<M.Running>

    ghost function State(): M.Loop
      reads this
    {
      M.Loop(listenersPerFd, fdPerListener, Fds(pendingEvents), disabledFds, running)
    }

    /** The loop and its cache of poll objects know the same descriptors. */
    ghost predicate Valid()
      reads this, pollers
    {
      && M.Inv(State()) && Distinct(pendingEvents)
      && pollers.Valid() && pollers.eventsPerFd.Keys == listenersPerFd.Keys
    }

    constructor ()
      ensures Valid() && fresh(pollers) && State() == M.EMPTY
    {
      pollers := new P.PollersCache();
      listenersPerFd, fdPerListener, pendingEvents, disabledFds, running := map[], map[], [], {}, [];
    }

    /** Right exactly when the descriptor is free, or its own listener is registered again with a mask that the cache
        of poll objects does not contradict. */
    method RegisterListener(l: M.Listener, events: int)
      requires Valid()
      modifies this, pollers
      ensures State() == M.Register(old(State()), l)
      ensures l.fd !in old(listenersPerFd) ==> Valid()
      ensures l.fd in old(listenersPerFd) ==>
                (Valid() <==> old(listenersPerFd)[l.fd] == l
                              && old(pollers.IdsOf(l.fd) == {} || pollers.eventsPerFd[l.fd] == events))
    {
      hide P.Inverse, P.Indexed, P.Fresh, P.Lookup, M.Inv, Fds, Distinct;
      M.RegisterKeeps(State(), l);
      if l.fd !in pollers.eventsPerFd {
        P.UnknownFd(pollers.fdsIdsPerFd, pollers.fdsPerFdsId, pollers.pollerPerFdsId, pollers.eventsPerFd, l.fd);
      }
      pollers.RegisterFd(l.fd, events);
      fdPerListener := fdPerListener[l := l.fd];
      listenersPerFd := listenersPerFd[l.fd := l];
      assert pollers.eventsPerFd.Keys == listenersPerFd.Keys;
    }

    method UpdateListener(l: M.Listener, events: int)
      requires Valid() && l in fdPerListener
      modifies this, pollers
      ensures Valid() && State() == M.Update(old(State()), l)
      ensures pollers.eventsPerFd == old(pollers.eventsPerFd)[l.fd := events]
      ensures l.fd !in Fds(pendingEvents)
    {
      M.StepKeeps(State(), M.DoUpdate(l));
      var fd := fdPerListener[l];
      assert fd in listenersPerFd;
      hide P.Inverse, P.Indexed, P.Fresh, M.Inv;
      pollers.UpdateFd(fd, events);
      WithoutOne(pendingEvents, fd);
      pendingEvents := Without(pendingEvents, fd);
    }

    method RemoveListener(l: M.Listener) returns (removed: bool)
      requires Valid()
      modifies this, pollers
      ensures Valid() && State() == M.Remove(old(State()), l)
      ensures removed <==> l in old(fdPerListener)
    {
      M.StepKeeps(State(), M.DoRemove(l));
      if l !in fdPerListener {
        return false;
      }
      var fd := fdPerListener[l];
      assert fd in listenersPerFd;
      hide P.Inverse, P.Indexed, P.Fresh, M.Inv;
      pollers.RemoveFd(fd);
      fdPerListener := fdPerListener - {l};
      listenersPerFd := listenersPerFd - {fd};
      WithoutOne(pendingEvents, fd);
      pendingEvents := Without(pendingEvents, fd);
      removed := true;
    }

    /** Takes a pending notification, if there is one that this loop may handle: the oldest one, or the one of the
        single listener. */
    method PopPendingEvent(single: Option<M.Listener>) returns (r: Option<Event>)
      requires Valid() && M.SingleOk(State(), single)
      modifies this`pendingEvents
      ensures r.None? <==> M.Poppable(old(State()), single) == {}
      ensures r.None? ==> pendingEvents == old(pendingEvents)
      ensures r.Some? ==> Chosen(single, old(fdPerListener), old(pendingEvents), r.value)
      ensures r.Some? ==> pendingEvents == Without(old(pendingEvents), r.value.fd) && Distinct(pendingEvents)
      ensures r.Some? ==>
                && r.value.fd in M.Poppable(old(State()), single)
                && State() == old(State()).(pending := old(State()).pending - {r.value.fd})
    {
      if single.None? {
        if pendingEvents == [] {
          return None;
        }
        r := Some(pendingEvents[0]);
      } else {
        var fd := fdPerListener[single.value];
        r := Find(pendingEvents, fd);
        if r.None? {
          assert M.Poppable(State(), single) == {};
          return None;
        }
      }
      assert r.value.fd in M.Poppable(State(), single);
      WithoutOne(pendingEvents, r.value.fd);
      pendingEvents := Without(pendingEvents, r.value.fd);
    }

    /** The poll object of this loop, fresh from the cache: it watches exactly the descriptors to poll. */
    method GetPoller(single: Option<M.Listener>) returns (poller: P.Poller)
      requires Valid() && M.SingleOk(State(), single)
      modifies pollers
      ensures Valid() && State() == old(State())
      ensures poller.Keys == M.PollingFds(State(), single)
      ensures forall fd :: fd in poller ==> fd in pollers.eventsPerFd && poller[fd] == pollers.eventsPerFd[fd]
    {
      var fds;
      if single.None? {
        fds := Listed(listenersPerFd.Keys - disabledFds);
      } else {
        fds := [fdPerListener[single.value]];
      }
      assert forall fd :: fd in fds <==> fd in M.PollingFds(State(), single);
      hide M.Inv;
      poller := pollers.Get(fds);
    }

    /** What the kernel may report: distinct descriptors among those polled. */
    ghost predicate Reported(single: Option<M.Listener>, polled: seq<Event>)
      requires M.SingleOk(State(), single)
      reads this
    {
      && (forall k :: 0 <= k < |polled| ==> polled[k].fd in M.PollingFds(State(), single))
      && (forall j, k :: 0 <= j < k < |polled| ==> polled[j].fd != polled[k].fd)
    }

    /** The event of a turn: a pending notification if there is one, else the first one that poll reports. */
    method NextEvent(single: Option<M.Listener>, polled: seq<Event>) returns (r: Option<Event>)
      requires Valid() && M.SingleOk(State(), single) && Reported(single, polled)
      modifies this`pendingEvents
      ensures NextIs(single, old(State()), old(pendingEvents), polled, r, pendingEvents)
      ensures Distinct(pendingEvents)
      ensures r.None? ==> State() == old(State())
      ensures M.Poppable(old(State()), single) != {} ==>
                && r.Some? && r.value.fd in M.Poppable(old(State()), single)
                && State() == old(State()).(pending := old(State()).pending - {r.value.fd})
      ensures M.Poppable(old(State()), single) == {} && polled != [] ==>
                State() == old(State()).(pending := old(State()).pending + Others(polled))
    {
      hide M.Inv, P.Inverse, P.Indexed, P.Fresh, Put, Without;
      r := PopPendingEvent(single);
      if r.None? && polled != [] {
        r := Some(polled[0]);
        for k := 1 to |polled|
          invariant pendingEvents == PutAll(old(pendingEvents), polled[1..k]) && Distinct(pendingEvents)
        {
          PutOne(pendingEvents, polled[k]);
          assert polled[1..k + 1] == polled[1..k] + [polled[k]];
          assert polled[1..k + 1][..k - 1] == polled[1..k];
          pendingEvents := Put(pendingEvents, polled[k]);
        }
        assert polled[1..|polled|] == polled[1..];
        FdsOfAll(old(pendingEvents), polled[1..]);
        assert Others(polled) == Fds(polled[1..]);
      }
    }

    /** The step of the model that a turn takes. */
    static function TurnStep(s: M.Loop, single: Option<M.Listener>, polled: seq<Event>, e: Event): M.Step
      requires M.SingleOk(s, single)
    {
      if M.Poppable(s, single) != {} then M.DoPop(single, e.fd, e.ok) else M.DoPoll(single, e.fd, Others(polled), e.ok)
    }

    /** One turn of the loop, up to the start of the handler: nothing, or a possible step of the model. */
    method Turn(single: Option<M.Listener>, polled: seq<Event>) returns (r: Option<Event>)
      requires Valid() && M.SingleOk(State(), single) && Reported(single, polled)
      modifies this, pollers
      ensures Valid()
      ensures r.None? <==> M.Poppable(old(State()), single) == {} && polled == []
      ensures r.Some? ==>
                if M.Poppable(old(State()), single) != {}
                then Chosen(single, old(fdPerListener), old(pendingEvents), r.value) else r.value == polled[0]
      ensures r.Some? && r.value.ok ==> NextIs(single, old(State()), old(pendingEvents), polled, r, pendingEvents)
      ensures r.None? ==> State() == old(State())
      ensures r.Some? ==>
                var step := TurnStep(old(State()), single, polled, r.value);
                M.Enabled(old(State()), step) && M.Next(old(State()), step) == Some(State())
    {
      hide M.Inv, P.Inverse, P.Indexed, P.Fresh;
      ghost var s := State();
      r := NextEvent(single, polled);
      if r.Some? {
        OthersAreLater(polled);
        M.ChosenKeeps(s, TurnStep(s, single, polled, r.value));
        BeginEvent(r.value);
      }
    }

    /** The listener of the event is entered, or removed on error. */
    method BeginEvent(e: Event)
      requires Valid()
      requires e.fd in listenersPerFd && e.fd !in Fds(pendingEvents)
      requires listenersPerFd[e.fd].allowReordering || e.fd !in disabledFds
      modifies this, pollers
      ensures Valid() && State() == M.Dispatch(old(State()), e.fd, e.ok)
      ensures e.ok ==> pendingEvents == old(pendingEvents)
    {
      M.DispatchKeeps(State(), e.fd, e.ok);
      var l := listenersPerFd[e.fd];
      if !e.ok {
        var _ := RemoveListener(l);
      } else {
        hide M.Inv, P.Inverse, P.Indexed, P.Fresh;
        if !l.allowReordering {
          disabledFds := disabledFds + {e.fd};
        }
        running := running + [M.Running(l, !l.allowReordering)];
      }
    }

    /** The handler on top of the stack returns. */
    method EndEvent(l: M.Listener, wasDisabled: bool, keep: bool)
      requires Valid() && running != [] && running[|running| - 1] == M.Running(l, wasDisabled)
      modifies this, pollers
      ensures Valid() && State() == M.Return(old(State()), keep)
      ensures keep ==> listenersPerFd == old(listenersPerFd) && fdPerListener == old(fdPerListener)
      ensures !keep ==> l !in fdPerListener && (l.fd in listenersPerFd ==> listenersPerFd[l.fd] != l)
      ensures forall m :: m != l ==> (m in fdPerListener <==> m in old(fdPerListener))
      ensures running == old(running)[..|old(running)| - 1]
    {
      M.ReturnKeeps(State(), true);
      if wasDisabled {
        disabledFds := disabledFds - {l.fd};
      }
      running := running[..|running| - 1];
      if !keep {
        var _ := RemoveListener(l);
      }
    }
  }

  // ---------- pending notifications ----------

  function Fds(events: seq<Event>): set<P.Fd> {
    set e | e in events :: e.fd
  }

  /** One entry per descriptor. */
  ghost predicate Distinct(events: seq<Event>) {
    forall j, k :: 0 <= j < k < |events| ==> events[j].fd != events[k].fd
  }

  function Without(events: seq<Event>, fd: P.Fd): seq<Event> {
    if events == [] then []
    else if events[0].fd == fd then Without(events[1..], fd)
    else [events[0]] + Without(events[1..], fd)
  }

  /** An entry that is already there keeps its place. */
  function Put(events: seq<Event>, e: Event): seq<Event> {
    if events == [] then [e]
    else if events[0].fd == e.fd then [e] + events[1..]
    else [events[0]] + Put(events[1..], e)
  }

  function PutAll(events: seq<Event>, more: seq<Event>): seq<Event> {
    if more == [] then events else Put(PutAll(events, more[..|more| - 1]), more[|more| - 1])
  }

  lemma {:induction false} WithoutOne(events: seq<Event>, fd: P.Fd)
    ensures Fds(Without(events, fd)) == Fds(events) - {fd}
    ensures Distinct(events) ==> Distinct(Without(events, fd))
  {
    if events != [] {
      WithoutOne(events[1..], fd);
      FdsFirst(events);
      if events[0].fd != fd {
        FdsFirst([events[0]] + Without(events[1..], fd));
        if Distinct(events) {
          DistinctFirst(events);
          DistinctFirst([events[0]] + Without(events[1..], fd));
        }
      }
    }
  }

  lemma {:induction false} PutOne(events: seq<Event>, e: Event)
    ensures Fds(Put(events, e)) == Fds(events) + {e.fd}
    ensures Distinct(events) ==> Distinct(Put(events, e))
  {
    if events == [] {
      FdsFirst([e]);
    } else {
      FdsFirst(events);
      if events[0].fd == e.fd {
        FdsFirst([e] + events[1..]);
      } else {
        PutOne(events[1..], e);
        FdsFirst([events[0]] + Put(events[1..], e));
        if Distinct(events) {
          DistinctFirst(events);
          DistinctFirst([events[0]] + Put(events[1..], e));
        }
      }
    }
  }

  /** The place of a descriptor in the dictionary. */
  ghost predicate IsAt(events: seq<Event>, k: nat, fd: P.Fd) {
    k < |events| && events[k].fd == fd
  }

  /** A new notification comes last; a newer one takes the place of the older one. */
  lemma {:induction false} PutInOrder(events: seq<Event>, e: Event)
    requires Distinct(events)
    ensures e.fd !in Fds(events) ==> Put(events, e) == events + [e]
    ensures e.fd in Fds(events) ==> exists k: nat :: IsAt(events, k, e.fd) && Put(events, e) == events[k := e]
  {
    hide Fds, Distinct;
    NoFds();
    if events != [] {
      FdsFirst(events);
      DistinctFirst(events);
      if events[0].fd == e.fd {
        assert IsAt(events, 0, e.fd) && Put(events, e) == events[0 := e];
      } else {
        PutInOrder(events[1..], e);
        if e.fd in Fds(events) {
          var k: nat :| IsAt(events[1..], k, e.fd) && Put(events[1..], e) == events[1..][k := e];
          var events' := events[k + 1 := e];
          assert [events[0]] + events[1..][k := e] == events';
          assert IsAt(events, k + 1, e.fd) && Put(events, e) == events';
        } else {
          assert [events[0]] + (events[1..] + [e]) == events + [e];
        }
      }
    }
  }

  lemma NoFds()
    ensures Fds([]) == {}
  {
  }

  /** The other notifications keep their order. */
  lemma {:induction false} WithoutInOrder(events: seq<Event>, fd: P.Fd)
    requires Distinct(events)
    ensures fd !in Fds(events) ==> Without(events, fd) == events
    ensures fd in Fds(events) ==>
              exists k: nat :: IsAt(events, k, fd) && Without(events, fd) == events[..k] + events[k + 1..]
  {
    hide Fds, Distinct;
    NoFds();
    if events != [] {
      FdsFirst(events);
      DistinctFirst(events);
      WithoutInOrder(events[1..], fd);
      if events[0].fd == fd {
        assert IsAt(events, 0, fd) && Without(events, fd) == events[..0] + events[1..];
      } else if fd in Fds(events) {
        var k: nat :| IsAt(events[1..], k, fd) && Without(events[1..], fd) == events[1..][..k] + events[1..][k + 1..];
        assert [events[0]] + (events[1..][..k] + events[1..][k + 1..]) == events[..k + 1] + events[k + 2..];
        assert IsAt(events, k + 1, fd) && Without(events, fd) == events[..k + 1] + events[k + 2..];
      }
    }
  }

  lemma {:induction false} FdsOfAll(events: seq<Event>, more: seq<Event>)
    ensures Fds(PutAll(events, more)) == Fds(events) + Fds(more)
  {
    if more != [] {
      var n := |more| - 1;
      FdsOfAll(events, more[..n]);
      PutOne(PutAll(events, more[..n]), more[n]);
      assert more == more[..n] + [more[n]];
    }
  }

  lemma FdsFirst(events: seq<Event>)
    requires events != []
    ensures Fds(events) == {events[0].fd} + Fds(events[1..])
  {
    assert events == [events[0]] + events[1..];
  }

  lemma DistinctFirst(events: seq<Event>)
    requires events != []
    ensures Distinct(events) <==> Distinct(events[1..]) && events[0].fd !in Fds(events[1..])
  {
    if Distinct(events[1..]) && events[0].fd !in Fds(events[1..]) {
      forall j, k | 0 <= j < k < |events|
        ensures events[j].fd != events[k].fd
      {
        assert events[1..][k - 1] == events[k];
        if j > 0 {
          assert events[1..][j - 1] == events[j];
        }
      }
    }
  }

  method Find(events: seq<Event>, fd: P.Fd) returns (r: Option<Event>)
    ensures r.None? <==> fd !in Fds(events)
    ensures r.Some? ==> r.value in events && r.value.fd == fd
  {
    for k := 0 to |events|
      invariant forall j :: 0 <= j < k ==> events[j].fd != fd
    {
      if events[k].fd == fd {
        return Some(events[k]);
      }
    }
    r := None;
  }

  /** The notification that a loop takes: the oldest one, or that of its single listener. */
  ghost predicate Chosen(single: Option<M.Listener>, fdOf: map<M.Listener, P.Fd>, events: seq<Event>, e: Event) {
    if single.None? then events != [] && e == events[0]
    else e in events && single.value in fdOf && e.fd == fdOf[single.value]
  }

  /** The event of a turn, and the notifications that are pending after it. */
  ghost predicate NextIs(
    single: Option<M.Listener>, s: M.Loop, events: seq<Event>, polled: seq<Event>, r: Option<Event>,
    events': seq<Event>)
    requires M.SingleOk(s, single)
  {
    if M.Poppable(s, single) != {} then
      r.Some? && Chosen(single, s.fdOf, events, r.value) && events' == Without(events, r.value.fd)
    else if polled == [] then r.None? && events' == events
    else r == Some(polled[0]) && events' == PutAll(events, polled[1..])
  }

  // all events but the first
  function Others(polled: seq<Event>): set<P.Fd> {
    set k | 1 <= k < |polled| :: polled[k].fd
  }

  lemma OthersAreLater(polled: seq<Event>)
    requires forall j, k :: 0 <= j < k < |polled| ==> polled[j].fd != polled[k].fd
    ensures polled != [] ==> polled[0].fd !in Others(polled)
    ensures forall fd :: fd in Others(polled) ==> exists k :: 1 <= k < |polled| && polled[k].fd == fd
  {
  }

  method Listed(s: set<P.Fd>) returns (fds: seq<P.Fd>)
    ensures forall fd :: fd in fds <==> fd in s
  {
    fds := [];
    var todo := s;
    while true
      invariant todo <= s
      invariant forall fd :: fd in fds <==> fd in s - todo
      decreases |todo|
    {
      if fd: P.Fd :| fd in todo {
        fds := fds + [fd];
        todo := todo - {fd};
      } else {
        break;
      }
    }
  }
}
