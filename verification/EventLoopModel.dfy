/**
 The recursive event loop (common/walt/common/evloop.py, EventLoop): listeners, pending notifications,
 disabled descriptors, and the stack of the handlers that are running.
 */
module EventLoopModel {
  import opened Wrappers
  import P = PollersCache

  // a listener keeps its descriptor and its allow_reordering attribute
  datatype Listener = Listener(id: nat, fd: P.Fd, allowReordering: bool)

  // a handler that is running
  datatype Running = Running(listener: Listener, disabledFd: bool)

  datatype Loop = Loop(
    listeners: map<P.Fd, Listener>,
    fdOf: map<Listener, P.Fd>,
    pending: set<P.Fd>,
    disabled: set<P.Fd>,
    running: seq<Running>)

  const EMPTY: Loop := Loop(map[], map[], {}, {}, [])

  // ---------- what the methods do ----------

  function Register(s: Loop, l: Listener): Loop {
    s.(listeners := s.listeners[l.fd := l], fdOf := s.fdOf[l := l.fd])
  }

  /** Notifications for events that are no longer waited for are dropped. */
  function Update(s: Loop, l: Listener): Loop
    requires l in s.fdOf
  {
    s.(pending := s.pending - {s.fdOf[l]})
  }

  function Remove(s: Loop, l: Listener): Loop {
    if l !in s.fdOf then s // already removed
    else
      var fd := s.fdOf[l];
      s.(fdOf := s.fdOf - {l}, listeners := s.listeners - {fd}, pending := s.pending - {fd})
  }

  /** The descriptors a loop polls: all enabled ones, or the one of a single listener. */
  function PollingFds(s: Loop, single: Option<Listener>): set<P.Fd>
    requires single.Some? ==> single.value in s.fdOf
  {
    if single.None? then s.listeners.Keys - s.disabled else {s.fdOf[single.value]}
  }

  /** Which pending notifications a loop may take. */
  function Poppable(s: Loop, single: Option<Listener>): set<P.Fd>
    requires single.Some? ==> single.value in s.fdOf
  {
    if single.None? then s.pending else s.pending * {s.fdOf[single.value]}
  }

  /** Starts the handler of the listener of fd, or removes the listener on error. */
  function Dispatch(s: Loop, fd: P.Fd, ok: bool): Loop
    requires fd in s.listeners
  {
    var l := s.listeners[fd];
    if !ok then Remove(s, l)
    else if l.allowReordering then s.(running := s.running + [Running(l, false)])
    else s.(disabled := s.disabled + {fd}, running := s.running + [Running(l, true)])
  }

  /** The handler on top returns; the listener is removed when it asked for it. */
  function Return(s: Loop, keep: bool): Loop
    requires s.running != []
  {
    var r := s.running[|s.running| - 1];
    var s' := s.(running := s.running[..|s.running| - 1],
                 disabled := if r.disabledFd then s.disabled - {r.listener.fd} else s.disabled);
    if keep then s' else Remove(s', r.listener)
  }

  // ---------- steps ----------

  // What the code on top of the stack can do: handlers and callbacks change listeners, the innermost loop
  // takes a pending notification or polls (first event handled, others pending), a handler returns.
  datatype Step =
    | DoRegister(l: Listener)
    | DoUpdate(l: Listener)
    | DoRemove(l: Listener)
    | DoPop(single: Option<Listener>, fd: P.Fd, ok: bool)
    | DoPoll(single: Option<Listener>, first: P.Fd, others: set<P.Fd>, ok: bool)
    | DoReturn(keep: bool)

  /** single_listener loops run on registered listeners that allow reordering. */
  predicate SingleOk(s: Loop, single: Option<Listener>) {
    single.Some? ==> single.value in s.fdOf && single.value.allowReordering
  }

  predicate Enabled(s: Loop, step: Step) {
    match step
    case DoRegister(l) => l !in s.fdOf && l.fd !in s.listeners
    case DoUpdate(l) => l in s.fdOf
    case DoRemove(_) => true
    case DoPop(single, fd, _) => SingleOk(s, single) && fd in Poppable(s, single)
    case DoPoll(single, first, others, _) =>
      && SingleOk(s, single) && Poppable(s, single) == {}
      && {first} + others <= PollingFds(s, single) && first !in others
    case DoReturn(_) => s.running != []
  }

  /** None when the program raises a KeyError. */
  function Next(s: Loop, step: Step): Option<Loop>
    requires Enabled(s, step)
  {
    match step
    case DoRegister(l) => Some(Register(s, l))
    case DoUpdate(l) => Some(Update(s, l))
    case DoRemove(l) => Some(Remove(s, l))
    case DoPop(_, fd, ok) =>
      if fd in s.listeners then Some(Dispatch(s.(pending := s.pending - {fd}), fd, ok)) else None
    case DoPoll(_, first, others, ok) =>
      if first in s.listeners then Some(Dispatch(s.(pending := s.pending + others), first, ok)) else None
    case DoReturn(keep) => Some(Return(s, keep))
  }

  // ---------- what every step keeps ----------

  ghost predicate MapsInverse(s: Loop) {
    && (forall l :: l in s.fdOf ==> s.fdOf[l] == l.fd && l.fd in s.listeners && s.listeners[l.fd] == l)
    && (forall fd :: fd in s.listeners ==> s.listeners[fd].fd == fd && s.listeners[fd] in s.fdOf)
  }

  /** Only handlers that do not allow reordering disable their descriptor, each of them another one. */
  ghost predicate DisabledByRunning(s: Loop) {
    && (forall k :: 0 <= k < |s.running| ==> s.running[k].disabledFd == !s.running[k].listener.allowReordering)
    && (forall fd :: fd in s.disabled <==> exists k :: 0 <= k < |s.running| && Disables(s.running[k], fd))
    && (forall j, k :: 0 <= j < k < |s.running| && s.running[j].disabledFd && s.running[k].disabledFd ==>
          s.running[j].listener.fd != s.running[k].listener.fd)
  }

  predicate Disables(r: Running, fd: P.Fd) {
    r.disabledFd && r.listener.fd == fd
  }

  ghost predicate Inv(s: Loop) {
    && MapsInverse(s) && DisabledByRunning(s)
    && s.pending <= s.listeners.Keys
    && s.pending !! s.disabled
  }

  lemma DispatchKeeps(s: Loop, fd: P.Fd, ok: bool)
    requires Inv(s) && fd in s.listeners && fd !in s.pending
    requires s.listeners[fd].allowReordering || fd !in s.disabled
    ensures Inv(Dispatch(s, fd, ok))
  {
    var s' := Dispatch(s, fd, ok);
    if ok {
      var n := |s.running|;
      assert s'.running[n].listener == s.listeners[fd];
      forall f
        ensures f in s'.disabled <==> exists k :: 0 <= k < |s'.running| && Disables(s'.running[k], f)
      {
        if k :| 0 <= k < n && Disables(s.running[k], f) {
          assert Disables(s'.running[k], f);
        }
        if f == fd {
          assert s'.running[n].disabledFd ==> Disables(s'.running[n], f);
        }
      }
    }
  }

  lemma ReturnKeeps(s: Loop, keep: bool)
    requires Inv(s) && s.running != []
    ensures Inv(Return(s, keep))
  {
    var s' := Return(s, keep);
    var n := |s.running| - 1;
    forall f
      ensures f in s'.disabled <==> exists k :: 0 <= k < |s'.running| && Disables(s'.running[k], f)
    {
      if k :| 0 <= k < n && Disables(s.running[k], f) {
        assert Disables(s'.running[k], f);
      }
    }
  }

  /** Every step keeps the invariant, and no step raises. */
  lemma StepKeeps(s: Loop, step: Step)
    requires Inv(s) && Enabled(s, step)
    ensures Next(s, step).Some? && Inv(Next(s, step).value)
  {
    match step
    case DoPop(_, fd, ok) => DispatchKeeps(s.(pending := s.pending - {fd}), fd, ok);
    case DoPoll(single, first, others, ok) => DispatchKeeps(s.(pending := s.pending + others), first, ok);
    case DoReturn(keep) => ReturnKeeps(s, keep);
    case _ =>
  }

  /** Registering keeps the invariant exactly when the descriptor is free, or already this listener's. */
  lemma RegisterKeeps(s: Loop, l: Listener)
    requires Inv(s)
    ensures Inv(Register(s, l)) <==> (l.fd in s.listeners ==> s.listeners[l.fd] == l)
  {
    var s' := Register(s, l);
    if l.fd in s.listeners && s.listeners[l.fd] != l {
      assert s.listeners[l.fd] in s'.fdOf;
    }
  }

  /** Choosing the event of a turn: a pending notification, else the first polled one; others become pending. */
  lemma ChosenKeeps(s: Loop, step: Step)
    requires Inv(s) && Enabled(s, step) && (step.DoPop? || step.DoPoll?)
    ensures step.DoPop? ==>
              var s' := s.(pending := s.pending - {step.fd});
              Inv(s') && step.fd in s'.listeners && (s'.listeners[step.fd].allowReordering || step.fd !in s'.disabled)
    ensures step.DoPoll? ==>
              var s' := s.(pending := s.pending + step.others);
              && Inv(s') && step.first in s'.listeners && step.first !in s'.pending
              && (s'.listeners[step.first].allowReordering || step.first !in s'.disabled)
  {
  }

  // ---------- main results ----------

  /** The loop after some steps; None when one of them is not possible, or raises. */
  function After(steps: seq<Step>): Option<Loop> {
    if steps == [] then Some(EMPTY)
    else
      var s, step := After(steps[..|steps| - 1]), steps[|steps| - 1];
      if s.None? || !Enabled(s.value, step) then None else Next(s.value, step)
  }

  lemma {:induction false} AfterInv(steps: seq<Step>)
    requires After(steps).Some?
    ensures Inv(After(steps).value)
  {
    if steps != [] {
      AfterInv(steps[..|steps| - 1]);
      StepKeeps(After(steps[..|steps| - 1]).value, steps[|steps| - 1]);
    }
  }

  /** No possible step ever raises. */
  lemma NeverRaises(steps: seq<Step>, step: Step)
    requires After(steps).Some? && Enabled(After(steps).value, step)
    ensures Next(After(steps).value, step).Some?
  {
    AfterInv(steps);
    StepKeeps(After(steps).value, step);
  }

  /** Each pending descriptor has a registered listener and is not disabled; taking it raises nothing. */
  lemma PendingIsSound(steps: seq<Step>, fd: P.Fd)
    requires After(steps).Some? && fd in After(steps).value.pending
    ensures var s := After(steps).value;
            fd in s.listeners && s.listeners[fd] in s.fdOf && fd !in s.disabled
  {
    AfterInv(steps);
  }

  /** A listener that does not allow reordering is never entered again while its handler runs. */
  lemma NeverReentered(steps: seq<Step>, j: nat, k: nat)
    requires After(steps).Some? && j < k < |After(steps).value.running|
    ensures var running := After(steps).value.running;
            running[j].listener == running[k].listener ==> running[j].listener.allowReordering
  {
    AfterInv(steps);
  }

  /** Descriptors are disabled exactly while such a handler runs: none stays disabled when all have returned. */
  lemma NothingStaysDisabled(steps: seq<Step>)
    requires After(steps).Some?
    ensures var s := After(steps).value;
            s.disabled
              == set k | 0 <= k < |s.running| && !s.running[k].listener.allowReordering :: s.running[k].listener.fd
  {
    AfterInv(steps);
    var s := After(steps).value;
    var fds := set k | 0 <= k < |s.running| && !s.running[k].listener.allowReordering :: s.running[k].listener.fd;
    forall fd
      ensures fd in s.disabled <==> fd in fds
    {
      if k :| 0 <= k < |s.running| && Disables(s.running[k], fd) {
      }
      if fd in fds {
        var k :| 0 <= k < |s.running| && !s.running[k].listener.allowReordering && s.running[k].listener.fd == fd;
        assert Disables(s.running[k], fd);
      }
    }
  }

  // ---------- which listeners are registered, and which notifications are pending ----------

  function Top(s: Loop): Option<Listener> {
    if s.running == [] then None else Some(s.running[|s.running| - 1].listener)
  }

  /** The steps after which a listener is no longer registered: its removal, an error on its descriptor, and a handler
      of its own that returns False. */
  predicate Drops(s: Loop, step: Step, l: Listener) {
    match step
    case DoRemove(m) => m == l
    case DoPop(_, fd, ok) => !ok && fd == l.fd
    case DoPoll(_, first, _, ok) => !ok && first == l.fd
    case DoReturn(keep) => !keep && Top(s) == Some(l)
    case _ => false
  }

  /** Step k of a possible run, and the state it starts from. */
  ghost predicate DropsAt(steps: seq<Step>, k: nat, l: Listener)
    requires k < |steps|
  {
    After(steps[..k]).Some? && Drops(After(steps[..k]).value, steps[k], l)
  }

  ghost predicate RegisteredSince(steps: seq<Step>, k: nat, l: Listener)
    requires k < |steps|
  {
    steps[k] == DoRegister(l) && forall j :: k < j < |steps| ==> !DropsAt(steps, j, l)
  }

  lemma StepRegisters(s: Loop, step: Step, l: Listener)
    requires Inv(s) && Enabled(s, step) && Next(s, step).Some?
    ensures l in Next(s, step).value.fdOf <==> step == DoRegister(l) || (l in s.fdOf && !Drops(s, step, l))
  {
  }

  /** A listener is registered exactly if it was registered and nothing has dropped it since. */
  lemma {:induction false} RegisteredUntilDropped(steps: seq<Step>, l: Listener)
    requires After(steps).Some?
    ensures var s := After(steps).value;
            && (l in s.fdOf <==> exists k :: 0 <= k < |steps| && RegisteredSince(steps, k, l))
            && (l in s.fdOf <==> l.fd in s.listeners && s.listeners[l.fd] == l)
  {
    AfterInv(steps);
    if steps != [] {
      var n := |steps| - 1;
      RegisteredUntilDropped(steps[..n], l);
      AfterInv(steps[..n]);
      StepRegisters(After(steps[..n]).value, steps[n], l);
      hide Inv, Enabled, Next, Drops;
      OneMoreStep(steps, l);
    }
  }

  lemma OneMoreStep(steps: seq<Step>, l: Listener)
    requires steps != [] && After(steps).Some?
    ensures var n := |steps| - 1;
            (exists k :: 0 <= k < |steps| && RegisteredSince(steps, k, l)) <==>
              || steps[n] == DoRegister(l)
              || ((exists k :: 0 <= k < n && RegisteredSince(steps[..n], k, l)) && !DropsAt(steps, n, l))
  {
    hide After, Drops;
    var n := |steps| - 1;
    var init := steps[..n];
    forall k | 0 <= k < n
      ensures init[..k] == steps[..k] && DropsAt(init, k, l) == DropsAt(steps, k, l)
    {
      assert init[..k] == steps[..k];
    }
    if k :| 0 <= k < |steps| && RegisteredSince(steps, k, l) {
      if k < n {
        assert RegisteredSince(init, k, l);
      }
    }
    if k :| 0 <= k < n && RegisteredSince(init, k, l) {
      if !DropsAt(steps, n, l) {
        assert RegisteredSince(steps, k, l);
      }
    }
    if steps[n] == DoRegister(l) {
      assert RegisteredSince(steps, n, l);
    }
  }

  /** The steps after which a notification is no longer pending: it is taken, its listener asks for other events, or is
      dropped. */
  predicate Clears(s: Loop, step: Step, fd: P.Fd) {
    match step
    case DoUpdate(l) => l.fd == fd
    case DoPop(_, f, _) => f == fd
    case _ => fd in s.listeners && Drops(s, step, s.listeners[fd])
  }

  ghost predicate ClearsAt(steps: seq<Step>, k: nat, fd: P.Fd)
    requires k < |steps|
  {
    After(steps[..k]).Some? && Clears(After(steps[..k]).value, steps[k], fd)
  }

  /** Poll reported it in step k behind the event that was handled. */
  ghost predicate PendingSince(steps: seq<Step>, k: nat, fd: P.Fd)
    requires k < |steps|
  {
    steps[k].DoPoll? && fd in steps[k].others && forall j :: k < j < |steps| ==> !ClearsAt(steps, j, fd)
  }

  lemma StepLeavesPending(s: Loop, step: Step, fd: P.Fd)
    requires Inv(s) && Enabled(s, step) && Next(s, step).Some?
    ensures fd in Next(s, step).value.pending <==>
              (step.DoPoll? && fd in step.others) || (fd in s.pending && !Clears(s, step, fd))
  {
  }

  /** A notification is pending exactly if poll reported it and nothing has cleared it since. */
  lemma {:induction false} PendingUntilCleared(steps: seq<Step>, fd: P.Fd)
    requires After(steps).Some?
    ensures fd in After(steps).value.pending <==> exists k :: 0 <= k < |steps| && PendingSince(steps, k, fd)
  {
    if steps != [] {
      var n := |steps| - 1;
      PendingUntilCleared(steps[..n], fd);
      AfterInv(steps[..n]);
      StepLeavesPending(After(steps[..n]).value, steps[n], fd);
      hide Inv, Enabled, Next, Clears;
      OneMoreClearing(steps, fd);
    }
  }

  lemma OneMoreClearing(steps: seq<Step>, fd: P.Fd)
    requires steps != [] && After(steps).Some?
    ensures var n := |steps| - 1;
            (exists k :: 0 <= k < |steps| && PendingSince(steps, k, fd)) <==>
              || (steps[n].DoPoll? && fd in steps[n].others)
              || ((exists k :: 0 <= k < n && PendingSince(steps[..n], k, fd)) && !ClearsAt(steps, n, fd))
  {
    hide After, Clears;
    var n := |steps| - 1;
    var init := steps[..n];
    forall k | 0 <= k < n
      ensures init[..k] == steps[..k] && ClearsAt(init, k, fd) == ClearsAt(steps, k, fd)
    {
      assert init[..k] == steps[..k];
    }
    if k :| 0 <= k < |steps| && PendingSince(steps, k, fd) {
      if k < n {
        assert PendingSince(init, k, fd);
      }
    }
    if k :| 0 <= k < n && PendingSince(init, k, fd) {
      if !ClearsAt(steps, n, fd) {
        assert PendingSince(steps, k, fd);
      }
    }
    if steps[n].DoPoll? && fd in steps[n].others {
      assert PendingSince(steps, n, fd);
    }
  }

  // ---------- which handlers are running, and what is polled ----------

  /** Handlers nest: an event without error enters the listener registered on its descriptor, a return leaves the last
      one entered. */
  lemma HandlersNest(steps: seq<Step>, step: Step)
    requires After(steps + [step]).Some?
    ensures After(steps).Some?
    ensures var s, s' := After(steps).value, After(steps + [step]).value;
            match step
            case DoPop(_, fd, true) => fd in s.listeners && Entered(s, s', s.listeners[fd])
            case DoPoll(_, first, _, true) => first in s.listeners && Entered(s, s', s.listeners[first])
            case DoReturn(_) => s.running != [] && s'.running == s.running[..|s.running| - 1]
            case _ => s'.running == s.running
  {
    assert (steps + [step])[..|steps|] == steps;
  }

  ghost predicate Entered(s: Loop, s': Loop, l: Listener) {
    |s'.running| == |s.running| + 1 && s.running <= s'.running && Top(s') == Some(l)
  }

  /** A loop polls every registered descriptor on which no handler runs that has to finish first. */
  lemma PolledAre(steps: seq<Step>, fd: P.Fd)
    requires After(steps).Some?
    ensures var s := After(steps).value;
            fd in PollingFds(s, None) <==>
              && fd in s.listeners
              && forall k :: 0 <= k < |s.running| && s.running[k].listener.fd == fd ==>
                   s.running[k].listener.allowReordering
  {
    NothingStaysDisabled(steps);
  }
}
