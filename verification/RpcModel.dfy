/**
 Two processes that call each other through a pair of pipes (server/process.py, RPCProcessConnector and RPCTask):
 the state of a connector, the two-ended protocol as a step relation, and what every interleaving keeps.
 */
module RpcModel {
  import opened Wrappers

  // parent is -1, or the number of the peer's request on behalf of which the call is made
  datatype Task = Task(parent: int, sync: bool)

  datatype Request = Request(parent: int, id: nat)

  // ("API_CALL", remote_req_id, local_req_id, ...) and ("RESULT", remote_req_id, ...)
  datatype Msg = ApiCall(parent: int, id: nat) | Reply(id: nat)

  datatype Conn = Conn(
    serialize: bool,
    nextId: nat,
    submitted: map<nat, Task>,
    nextReqs: Option<seq<Request>>,  // None: no request is waiting for its result
    finishing: set<nat>,             // results being processed: the callback runs, the task is still submitted
    results: set<nat>,               // results of synchronous calls, for the caller to pick up
    tasks: map<nat, bool>)           // tasks started for the peer; true once completed

  function NewConn(serialize: bool): Conn {
    Conn(serialize, 0, map[], None, {}, {}, map[])
  }

  // ---------- what one connector does ----------

  /** send_task: with serialized requests, only one at a time is out. */
  function SendTask(c: Conn, parent: int, sync: bool): (Conn, seq<Msg>) {
    var id := c.nextId;
    var c' := c.(nextId := id + 1, submitted := c.submitted[id := Task(parent, sync)]);
    if !c.serialize then (c', [ApiCall(parent, id)])
    else if c.nextReqs.None? then (c'.(nextReqs := Some([])), [ApiCall(parent, id)])
    else (c'.(nextReqs := Some(c.nextReqs.value + [Request(parent, id)])), [])
  }

  /** A RESULT, up to the start of its callback; None stands for an exception of the program. */
  function AcceptResult(c: Conn, id: nat): Option<(Conn, seq<Msg>)> {
    if c.serialize && c.nextReqs.None? then None
    else
      var (c', out) := NextRequest(c);
      if id !in c.submitted then None
      else Some((c'.(finishing := c.finishing + {id},
                     results := if c.submitted[id].sync then c.results + {id} else c.results), out))
  }

  /** The next waiting request goes out, if there is one. */
  function NextRequest(c: Conn): (Conn, seq<Msg>)
    requires c.serialize ==> c.nextReqs.Some?
  {
    if !c.serialize then (c, [])
    else if c.nextReqs.value == [] then (c.(nextReqs := None), [])
    else
      var req := c.nextReqs.value[0];
      (c.(nextReqs := Some(c.nextReqs.value[1..])), [ApiCall(req.parent, req.id)])
  }

  /** The end of the callback. */
  function FinishResult(c: Conn, id: nat): Conn {
    c.(submitted := c.submitted - {id}, finishing := c.finishing - {id})
  }

  /** An API_CALL; a callback must name a task that is still submitted here. */
  function StartTask(c: Conn, parent: int, id: nat): Option<Conn> {
    if parent != -1 && (parent < 0 || parent !in c.submitted) then None
    else Some(c.(tasks := c.tasks[id := false]))
  }

  /** return_result and return_exception; a second one is an assertion failure. */
  function ReturnResult(c: Conn, id: nat): Option<(Conn, seq<Msg>)>
    requires id in c.tasks
  {
    if c.tasks[id] then None else Some((c.(tasks := c.tasks[id := true]), [Reply(id)]))
  }

  // ---------- the two ends ----------

  // x talks to y; `there` are the messages from x to y that y has not handled yet, `back` those from y to x
  datatype Sys = Sys(x: Conn, y: Conn, there: multiset<Msg>, back: multiset<Msg>)

  function Swap(s: Sys): Sys {
    Sys(s.y, s.x, s.back, s.there)
  }

  // Messages may be handled in any order, which covers the sorting of event batches and nested event loops.
  datatype Step =
    | Send(parent: int, sync: bool)
    | Accept(id: nat)
    | Finish(id: nat)
    | Pick(id: nat)
    | Start(parent: int, id: nat)
    | Return(id: nat)

  /** May end x take this step? A call is made for itself or for a task it is running. */
  predicate Enabled(s: Sys, step: Step) {
    match step
    case Send(parent, _) => parent == -1 || (parent >= 0 && parent in s.x.tasks && !s.x.tasks[parent])
    case Accept(id) => Reply(id) in s.back
    case Finish(id) => id in s.x.finishing
    case Pick(id) => id in s.x.results
    case Start(parent, id) => ApiCall(parent, id) in s.back
    case Return(id) => id in s.x.tasks
  }

  /** A step of end x; None when the program raises. */
  function StepX(s: Sys, step: Step): Option<Sys>
    requires Enabled(s, step)
  {
    match step
    case Send(parent, sync) =>
      var (x', out) := SendTask(s.x, parent, sync);
      Some(s.(x := x', there := s.there + multiset(out)))
    case Accept(id) =>
      var r := AcceptResult(s.x, id);
      if r.None? then None
      else Some(s.(x := r.value.0, there := s.there + multiset(r.value.1), back := s.back - multiset{Reply(id)}))
    case Finish(id) => Some(s.(x := FinishResult(s.x, id)))
    case Pick(id) => Some(s.(x := s.x.(results := s.x.results - {id})))
    case Start(parent, id) =>
      var r := StartTask(s.x, parent, id);
      if r.None? then None else Some(s.(x := r.value, back := s.back - multiset{ApiCall(parent, id)}))
    case Return(id) =>
      var r := ReturnResult(s.x, id);
      if r.None? then None
      else Some(s.(x := r.value.0, there := s.there + multiset(r.value.1)))
  }

  // ---------- where each submitted task is ----------

  datatype Phase = Queued | Calling | Running | Answered | Finishing

  type Phases = map<nat, Phase>

  predicate Out(p: Phase) {
    p.Calling? || p.Running? || p.Answered?
  }

  function Queue(c: Conn): seq<Request> {
    if c.nextReqs.Some? then c.nextReqs.value else []
  }

  /** Number of requests that have left. */
  function Left(c: Conn): int {
    c.nextId - |Queue(c)|
  }

  /** Every submitted task of x is in exactly one place, and every place holds only submitted tasks. */
  ghost predicate Tracks(s: Sys, ph: Phases) {
    && ph.Keys == s.x.submitted.Keys
    && (forall id :: id in ph ==> id < s.x.nextId)
    && (forall p, id :: s.there[ApiCall(p, id)] ==
          if id in ph && ph[id].Calling? && s.x.submitted[id].parent == p then 1 else 0)
    && (forall id :: s.back[Reply(id)] == if id in ph && ph[id].Answered? then 1 else 0)
    && (forall id :: id in s.y.tasks && !s.y.tasks[id] <==> id in ph && ph[id].Running?)
    && (forall id :: id in s.x.finishing <==> id in ph && ph[id].Finishing?)
    && QueueTracks(s.x, ph)
  }

  /** The queue holds the last requests sent, in the order of send_task; all others have left before them. */
  ghost predicate QueueTracks(c: Conn, ph: Phases)
    requires ph.Keys == c.submitted.Keys
  {
    && (!c.serialize ==> c.nextReqs.None?)
    && 0 <= Left(c)
    && (forall i :: 0 <= i < |Queue(c)| ==>
          Queue(c)[i].id == Left(c) + i && Queue(c)[i].id in ph
          && Queue(c)[i].parent == c.submitted[Queue(c)[i].id].parent)
    && (forall id :: id in ph ==> (ph[id].Queued? <==> Left(c) <= id))
  }

  /** With serialized requests, one request is out exactly when `nextReqs` is not None. */
  ghost predicate OneOut(c: Conn, ph: Phases) {
    c.serialize ==>
      && (forall id, id' :: id in ph && id' in ph && Out(ph[id]) && Out(ph[id']) ==> id == id')
      && ((exists id :: id in ph && Out(ph[id])) <==> c.nextReqs.Some?)
  }

  ghost predicate Good(s: Sys, ph: Phases) {
    Tracks(s, ph) && OneOut(s.x, ph)
  }

  // ---------- steps of the requesting end ----------

  // a new request that leaves at once
  lemma SendNowTracks(s: Sys, ph: Phases, t: Task)
    requires Tracks(s, ph) && Queue(s.x) == []
    ensures var id := s.x.nextId;
            Tracks(s.(x := s.x.(nextId := id + 1, submitted := s.x.submitted[id := t]),
                      there := s.there + multiset{ApiCall(t.parent, id)}), ph[id := Calling])
  {
  }

  // a new request that has to wait
  lemma SendLaterTracks(s: Sys, ph: Phases, t: Task)
    requires Tracks(s, ph) && s.x.nextReqs.Some?
    ensures var id := s.x.nextId;
            Tracks(s.(x := s.x.(nextId := id + 1, submitted := s.x.submitted[id := t],
                                nextReqs := Some(s.x.nextReqs.value + [Request(t.parent, id)]))), ph[id := Queued])
  {
  }

  lemma TracksNextReqs(s: Sys, ph: Phases, reqs: Option<seq<Request>>)
    requires Tracks(s, ph) && s.x.serialize && Queue(s.x) == [] && reqs in {None, Some([])}
    ensures Tracks(s.(x := s.x.(nextReqs := reqs)), ph)
  {
  }

  lemma SendKeeps(s: Sys, ph: Phases, parent: int, sync: bool) returns (ph': Phases)
    requires Good(s, ph) && Enabled(s, Send(parent, sync))
    ensures StepX(s, Send(parent, sync)).Some? && Good(StepX(s, Send(parent, sync)).value, ph')
  {
    hide Tracks;
    var id, t := s.x.nextId, Task(parent, sync);
    var s' := StepX(s, Send(parent, sync)).value;
    NewId(s, ph);
    if !s.x.serialize || s.x.nextReqs.None? {
      SendNowTracks(s, ph, t);
      ph' := ph[id := Calling];
      var s1 := s.(x := s.x.(nextId := id + 1, submitted := s.x.submitted[id := t]),
                   there := s.there + multiset{ApiCall(parent, id)});
      assert multiset([ApiCall(parent, id)]) == multiset{ApiCall(parent, id)};
      assert s' == s1.(x := s1.x.(nextReqs := s'.x.nextReqs));
      if s.x.serialize {
        TracksNextReqs(s1, ph', Some([]));
        assert forall i :: i in ph ==> !Out(ph[i]);
        assert Out(ph'[id]);
      }
    } else {
      SendLaterTracks(s, ph, t);
      ph' := ph[id := Queued];
      assert s'.there == s.there;
      OneOutSame(s.x, s'.x, ph, ph', id);
    }
  }

  lemma NewId(s: Sys, ph: Phases)
    requires Tracks(s, ph)
    ensures s.x.nextId !in ph && (!s.x.serialize ==> s.x.nextReqs.None?)
  {
  }

  // adding or dropping a task that is not out changes nothing
  lemma OneOutSame(c: Conn, c': Conn, ph: Phases, ph': Phases, id: nat)
    requires OneOut(c, ph) && c'.serialize == c.serialize && c'.nextReqs.Some? == c.nextReqs.Some?
    requires id in ph ==> !Out(ph[id])
    requires id in ph' ==> !Out(ph'[id])
    requires ph - {id} == ph' - {id}
    ensures OneOut(c', ph')
  {
    assert forall i :: i != id ==> (i in ph <==> i in ph - {id}) && (i in ph' <==> i in ph' - {id});
    assert forall i :: i in ph && i != id ==> i in ph' && (ph - {id})[i] == ph[i] && (ph' - {id})[i] == ph'[i];
    if c.serialize && c.nextReqs.Some? {
      var i :| i in ph && Out(ph[i]);
      assert i in ph' && Out(ph'[i]);
    }
  }

  lemma AcceptSucceeds(s: Sys, ph: Phases, id: nat)
    requires Good(s, ph) && Reply(id) in s.back
    ensures AcceptResult(s.x, id).Some? && id in s.x.submitted && id !in s.x.finishing
    ensures s.back[Reply(id)] == 1
  {
    assert Out(ph[id]);
  }

  // a result arrives
  lemma AnsweredTracks(s: Sys, ph: Phases, id: nat, results: set<nat>)
    requires Tracks(s, ph) && Reply(id) in s.back
    ensures id in ph && ph[id].Answered?
    ensures Tracks(s.(x := s.x.(finishing := s.x.finishing + {id}, results := results),
                      back := s.back - multiset{Reply(id)}), ph[id := Finishing])
  {
    hide QueueTracks;
    QueueMoves(s.x, ph, id, Finishing);
    QueueSame(s.x, s.x.(finishing := s.x.finishing + {id}, results := results), ph[id := Finishing]);
  }

  lemma QueueSame(c: Conn, c': Conn, ph: Phases)
    requires ph.Keys == c.submitted.Keys
    requires c' == c.(finishing := c'.finishing, results := c'.results, tasks := c'.tasks)
    ensures QueueTracks(c, ph) ==> QueueTracks(c', ph)
  {
    assert Queue(c') == Queue(c);
  }

  // the first waiting request leaves
  lemma NextTracks(s: Sys, ph: Phases)
    requires Tracks(s, ph) && Queue(s.x) != []
    ensures var req := Queue(s.x)[0];
            && req.id == Left(s.x) && req.id in ph && ph[req.id].Queued?
            && Tracks(s.(x := s.x.(nextReqs := Some(Queue(s.x)[1..])),
                         there := s.there + multiset{ApiCall(req.parent, req.id)}), ph[req.id := Calling])
  {
  }

  lemma NextRequestKeeps(s: Sys, ph: Phases) returns (ph': Phases)
    requires Tracks(s, ph)
    requires s.x.serialize ==> s.x.nextReqs.Some? && forall i :: i in ph ==> !Out(ph[i])
    ensures var (x', out) := NextRequest(s.x);
            Good(s.(x := x', there := s.there + multiset(out)), ph')
  {
    hide Tracks;
    ph' := ph;
    NewId(s, ph);
    var (x', out) := NextRequest(s.x);
    if !s.x.serialize || Queue(s.x) == [] {
      assert s.there + multiset(out) == s.there;
      if s.x.serialize {
        TracksNextReqs(s, ph, None);
      }
    } else {
      var req := Queue(s.x)[0];
      NextTracks(s, ph);
      assert multiset(out) == multiset{ApiCall(req.parent, req.id)};
      ph' := ph[req.id := Calling];
      assert Out(ph'[req.id]);
    }
  }

  lemma AcceptKeeps(s: Sys, ph: Phases, id: nat) returns (ph': Phases)
    requires Good(s, ph) && Reply(id) in s.back
    ensures StepX(s, Accept(id)).Some? && Good(StepX(s, Accept(id)).value, ph')
  {
    AcceptSucceeds(s, ph, id);
    var results := if s.x.submitted[id].sync then s.x.results + {id} else s.x.results;
    AnsweredTracks(s, ph, id, results);
    hide Tracks;
    assert Out(ph[id]);
    var s1 := s.(x := s.x.(finishing := s.x.finishing + {id}, results := results),
                 back := s.back - multiset{Reply(id)});
    var ph1 := ph[id := Finishing];
    assert s.x.serialize ==> forall i :: i in ph1 ==> !Out(ph1[i]);
    ph' := NextRequestKeeps(s1, ph1);
    assert StepX(s, Accept(id)).value
        == s1.(x := NextRequest(s1.x).0, there := s.there + multiset(NextRequest(s1.x).1));
  }

  lemma FinishKeeps(s: Sys, ph: Phases, id: nat) returns (ph': Phases)
    requires Good(s, ph) && id in s.x.finishing
    ensures Good(StepX(s, Finish(id)).value, ph')
  {
    hide Tracks;
    ph' := ph - {id};
    FinishTracks(s, ph, id);
    assert ph' - {id} == ph - {id};
    OneOutSame(s.x, FinishResult(s.x, id), ph, ph', id);
  }

  lemma FinishTracks(s: Sys, ph: Phases, id: nat)
    requires Tracks(s, ph) && id in s.x.finishing
    ensures id in ph && ph[id].Finishing? && Tracks(s.(x := FinishResult(s.x, id)), ph - {id})
  {
    var ph' := ph - {id};
    assert forall i :: i in ph' ==> i in ph && ph'[i] == ph[i];
  }

  // ---------- steps of the answering end, seen from the requests of its peer ----------

  lemma StartTracks(s: Sys, ph: Phases, parent: int, id: nat)
    requires Tracks(s, ph) && ApiCall(parent, id) in s.there
    ensures id in ph && ph[id].Calling? && (id !in s.y.tasks || s.y.tasks[id])
    ensures Tracks(s.(y := s.y.(tasks := s.y.tasks[id := false]), there := s.there - multiset{ApiCall(parent, id)}),
                   ph[id := Running])
  {
    hide QueueTracks;
    QueueMoves(s.x, ph, id, Running);
  }

  lemma ReturnTracks(s: Sys, ph: Phases, id: nat)
    requires Tracks(s, ph) && id in s.y.tasks && !s.y.tasks[id]
    ensures id in ph && ph[id].Running?
    ensures Tracks(s.(y := s.y.(tasks := s.y.tasks[id := true]), back := s.back + multiset{Reply(id)}),
                   ph[id := Answered])
  {
    hide QueueTracks;
    QueueMoves(s.x, ph, id, Answered);
  }

  // a request that is not queued changes its phase
  lemma QueueMoves(c: Conn, ph: Phases, id: nat, p: Phase)
    requires ph.Keys == c.submitted.Keys && id in ph && !p.Queued?
    ensures ph[id := p].Keys == c.submitted.Keys
    ensures QueueTracks(c, ph) && !ph[id].Queued? ==> QueueTracks(c, ph[id := p])
  {
    assert ph[id := p].Keys == ph.Keys + {id};
  }

  // a request that is out stays out
  lemma OutMoves(c: Conn, ph: Phases, id: nat, p: Phase)
    requires OneOut(c, ph) && id in ph && Out(ph[id]) && Out(p)
    ensures OneOut(c, ph[id := p])
  {
    assert Out(ph[id := p][id]);
  }

  lemma StartKeeps(s: Sys, ph: Phases, parent: int, id: nat) returns (ph': Phases)
    requires Good(s, ph) && ApiCall(parent, id) in s.there
    ensures id !in s.y.tasks || s.y.tasks[id]
    ensures Good(s.(y := s.y.(tasks := s.y.tasks[id := false]), there := s.there - multiset{ApiCall(parent, id)}), ph')
  {
    hide Tracks, OneOut;
    ph' := ph[id := Running];
    StartTracks(s, ph, parent, id);
    OutMoves(s.x, ph, id, Running);
  }

  lemma ReturnKeeps(s: Sys, ph: Phases, id: nat) returns (ph': Phases)
    requires Good(s, ph) && id in s.y.tasks && !s.y.tasks[id]
    ensures Good(s.(y := s.y.(tasks := s.y.tasks[id := true]), back := s.back + multiset{Reply(id)}), ph')
  {
    hide Tracks, OneOut;
    ph' := ph[id := Answered];
    ReturnTracks(s, ph, id);
    OutMoves(s.x, ph, id, Answered);
  }

  /** A step that leaves the requests of x, their messages and their tasks alone. */
  lemma Unaffected(s: Sys, s': Sys, ph: Phases)
    requires Good(s, ph)
    requires s'.x == s.x.(tasks := s'.x.tasks) && s'.y.tasks == s.y.tasks
    requires forall p, id :: s'.there[ApiCall(p, id)] == s.there[ApiCall(p, id)]
    requires forall id :: s'.back[Reply(id)] == s.back[Reply(id)]
    ensures Good(s', ph)
  {
  }

  // ---------- any step of either end ----------

  ghost predicate Both(s: Sys, phX: Phases, phY: Phases) {
    Good(s, phX) && Good(Swap(s), phY)
  }

  predicate OwnRequests(step: Step) {
    step.Send? || step.Accept? || step.Finish? || step.Pick?
  }

  predicate OnlyCalls(out: seq<Msg>) {
    forall k :: 0 <= k < |out| ==> out[k].ApiCall?
  }

  lemma NoReply(out: seq<Msg>, id: nat)
    requires OnlyCalls(out)
    ensures multiset(out)[Reply(id)] == 0
  {
    assert Reply(id) !in out;
  }

  lemma SendFacts(c: Conn, parent: int, sync: bool)
    ensures var (c', out) := SendTask(c, parent, sync);
            && c'.submitted == c.submitted[c.nextId := Task(parent, sync)] && c'.nextId == c.nextId + 1
            && c'.finishing == c.finishing && c'.tasks == c.tasks && c'.results == c.results && OnlyCalls(out)
  {
  }

  lemma AcceptFacts(c: Conn, id: nat)
    requires AcceptResult(c, id).Some?
    ensures var (c', out) := AcceptResult(c, id).value;
            && c'.submitted == c.submitted && c'.nextId == c.nextId
            && c'.finishing == c.finishing + {id} && c'.tasks == c.tasks && OnlyCalls(out)
            && (id in c.submitted ==> c'.results == c.results + if c.submitted[id].sync then {id} else {})
  {
  }

  lemma OwnMessages(s: Sys, step: Step)
    requires Enabled(s, step) && StepX(s, step).Some? && OwnRequests(step)
    ensures var s' := StepX(s, step).value;
            && s'.y == s.y && s'.x.tasks == s.x.tasks
            && (forall id :: s'.there[Reply(id)] == s.there[Reply(id)])
            && (forall p, id :: s'.back[ApiCall(p, id)] == s.back[ApiCall(p, id)])
  {
    hide SendTask, AcceptResult;
    match step
    case Send(parent, sync) =>
      SendFacts(s.x, parent, sync);
      forall id { NoReply(SendTask(s.x, parent, sync).1, id); }
    case Accept(id) =>
      AcceptFacts(s.x, id);
      forall i { NoReply(AcceptResult(s.x, id).value.1, i); }
    case _ =>
  }

  /** A step about the own requests of x does not touch the requests of y. */
  lemma PeerUnaffected(s: Sys, step: Step, ph: Phases)
    requires Enabled(s, step) && StepX(s, step).Some? && OwnRequests(step) && Good(Swap(s), ph)
    ensures Good(Swap(StepX(s, step).value), ph)
  {
    hide Good;
    var s' := StepX(s, step).value;
    OwnMessages(s, step);
    hide StepX, Enabled;
    Unaffected(Swap(s), Swap(s'), ph);
  }

  lemma OwnStepKeeps(s: Sys, step: Step, ph: Phases) returns (ph': Phases)
    requires Good(s, ph) && Enabled(s, step) && StepX(s, step).Some? && OwnRequests(step)
    ensures Good(StepX(s, step).value, ph')
  {
    hide Good, StepX;
    match step
    case Send(parent, sync) => ph' := SendKeeps(s, ph, parent, sync);
    case Accept(id) => ph' := AcceptKeeps(s, ph, id);
    case Finish(id) => ph' := FinishKeeps(s, ph, id);
    case Pick(id) => PickKeeps(s, ph, id); ph' := ph;
  }

  lemma StepKeeps(s: Sys, step: Step, phX: Phases, phY: Phases) returns (phX': Phases, phY': Phases)
    requires Both(s, phX, phY) && Enabled(s, step) && StepX(s, step).Some?
    ensures Both(StepX(s, step).value, phX', phY')
  {
    hide Good;
    var s' := StepX(s, step).value;
    phX', phY' := phX, phY;
    match step
    case Start(parent, id) =>
      Unaffected(s, s', phX);
      phY' := StartKeeps(Swap(s), phY, parent, id);
    case Return(id) =>
      Unaffected(s, s', phX);
      phY' := ReturnKeeps(Swap(s), phY, id);
      assert multiset([Reply(id)]) == multiset{Reply(id)};
    case _ =>
      phX' := OwnStepKeeps(s, step, phX);
      PeerUnaffected(s, step, phY);
  }

  lemma PickKeeps(s: Sys, ph: Phases, id: nat)
    requires Good(s, ph) && Enabled(s, Pick(id))
    ensures Good(StepX(s, Pick(id)).value, ph)
  {
  }

  // ---------- runs ----------

  // one of the two ends takes a step
  datatype Turn = Turn(byX: bool, step: Step)

  predicate CanTake(s: Sys, t: Turn) {
    Enabled(if t.byX then s else Swap(s), t.step)
  }

  function Take(s: Sys, t: Turn): Option<Sys>
    requires CanTake(s, t)
  {
    if t.byX then StepX(s, t.step)
    else
      var r := StepX(Swap(s), t.step);
      if r.None? then None else Some(Swap(r.value))
  }

  /** The state after an interleaving; None when a turn is not possible, or raises. */
  function Play(serializeX: bool, serializeY: bool, turns: seq<Turn>): Option<Sys> {
    if turns == [] then Some(Sys(NewConn(serializeX), NewConn(serializeY), multiset{}, multiset{}))
    else
      var s := Play(serializeX, serializeY, turns[..|turns| - 1]);
      if s.None? || !CanTake(s.value, turns[|turns| - 1]) then None else Take(s.value, turns[|turns| - 1])
  }

  lemma {:induction false} PlayKeeps(serializeX: bool, serializeY: bool, turns: seq<Turn>)
    returns (phX: Phases, phY: Phases)
    requires Play(serializeX, serializeY, turns).Some?
    ensures Both(Play(serializeX, serializeY, turns).value, phX, phY)
  {
    phX, phY := map[], map[];
    if turns != [] {
      var n := |turns| - 1;
      phX, phY := PlayKeeps(serializeX, serializeY, turns[..n]);
      var s := Play(serializeX, serializeY, turns[..n]).value;
      hide Good;
      if turns[n].byX {
        phX, phY := StepKeeps(s, turns[n].step, phX, phY);
      } else {
        phY, phX := StepKeeps(Swap(s), turns[n].step, phY, phX);
      }
    }
  }

  // the run as seen from one end
  function Seen(s: Sys, fromX: bool): Sys {
    if fromX then s else Swap(s)
  }

  lemma SeenGood(serializeX: bool, serializeY: bool, turns: seq<Turn>, fromX: bool) returns (ph: Phases)
    requires Play(serializeX, serializeY, turns).Some?
    ensures Good(Seen(Play(serializeX, serializeY, turns).value, fromX), ph)
  {
    var phX, phY := PlayKeeps(serializeX, serializeY, turns);
    ph := if fromX then phX else phY;
  }

  // ---------- main results ----------

  /** A result in the pipe is the only one for its request, and the request is still waiting for it;
      handling it never raises. */
  lemma ResultNamesSubmittedTask(serializeX: bool, serializeY: bool, turns: seq<Turn>, fromX: bool, id: nat)
    requires Play(serializeX, serializeY, turns).Some?
    ensures var s := Seen(Play(serializeX, serializeY, turns).value, fromX);
            Reply(id) in s.back ==>
              && s.back[Reply(id)] == 1 && id in s.x.submitted && id !in s.x.finishing
              && AcceptResult(s.x, id).Some?
              && (id in s.y.tasks ==> s.y.tasks[id])
  {
    var ph := SeenGood(serializeX, serializeY, turns, fromX);
    var s := Seen(Play(serializeX, serializeY, turns).value, fromX);
    if Reply(id) in s.back {
      AcceptSucceeds(s, ph, id);
    }
  }

  function QueueIds(c: Conn): set<nat> {
    set req | req in Queue(c) :: req.id
  }

  /** Requests that have left and whose result has not arrived. */
  function Unanswered(c: Conn): set<nat> {
    set id | id in c.submitted && id !in c.finishing && id < Left(c)
  }

  lemma QueueIdsAre(c: Conn, ph: Phases)
    requires ph.Keys == c.submitted.Keys && QueueTracks(c, ph) && forall id :: id in ph ==> id < c.nextId
    ensures forall id :: id in QueueIds(c) <==> id in c.submitted && Left(c) <= id
  {
    forall id | id in c.submitted && Left(c) <= id
      ensures id in QueueIds(c)
    {
      if id - Left(c) < |Queue(c)| {
        assert Queue(c)[id - Left(c)].id == id;
      }
    }
  }

  /** Submitted requests are the waiting ones, those being finished, and those that are out;
      with serialized requests there is at most one of the latter. */
  lemma OneRequestOut(serializeX: bool, serializeY: bool, turns: seq<Turn>, fromX: bool)
    requires Play(serializeX, serializeY, turns).Some?
    ensures var c := Seen(Play(serializeX, serializeY, turns).value, fromX).x;
            && c.submitted.Keys == QueueIds(c) + c.finishing + Unanswered(c)
            && QueueIds(c) !! c.finishing !! Unanswered(c)
            && (c.serialize ==> |Unanswered(c)| == if c.nextReqs.Some? then 1 else 0)
  {
    var ph := SeenGood(serializeX, serializeY, turns, fromX);
    var c := Seen(Play(serializeX, serializeY, turns).value, fromX).x;
    QueueIdsAre(c, ph);
    assert forall id :: id in Unanswered(c) <==> id in ph && Out(ph[id]);
    if c.serialize {
      if id :| id in ph && Out(ph[id]) {
        assert Unanswered(c) == {id};
      } else {
        assert Unanswered(c) == {};
      }
    }
  }

  /** Requests leave one by one in the order of send_task: each one written is the next in that order. */
  lemma RequestsLeaveInOrder(serializeX: bool, serializeY: bool, turns: seq<Turn>, fromX: bool, step: Step)
    requires Play(serializeX, serializeY, turns).Some?
    requires var s := Seen(Play(serializeX, serializeY, turns).value, fromX);
             Enabled(s, step) && StepX(s, step).Some?
    ensures var s := Seen(Play(serializeX, serializeY, turns).value, fromX); var s' := StepX(s, step).value;
            && Left(s.x) <= Left(s'.x) <= Left(s.x) + 1
            && forall p, id :: s'.there[ApiCall(p, id)] > s.there[ApiCall(p, id)] ==>
                                 id == Left(s.x) && Left(s'.x) == id + 1
  {
    var ph := SeenGood(serializeX, serializeY, turns, fromX);
    var s := Seen(Play(serializeX, serializeY, turns).value, fromX);
    hide Play;
    LeavesInOrder(s, step, ph);
  }

  // what one connector writes is the next request, if anything
  predicate Leaves(c: Conn, c': Conn, out: seq<Msg>) {
    || (out == [] && Left(c') == Left(c))
    || (Left(c') == Left(c) + 1 && |out| == 1 && out[0].ApiCall? && out[0].id == Left(c))
  }

  lemma SendLeaves(c: Conn, parent: int, sync: bool)
    requires !c.serialize ==> c.nextReqs.None?
    ensures Leaves(c, SendTask(c, parent, sync).0, SendTask(c, parent, sync).1)
  {
  }

  lemma AcceptLeaves(c: Conn, id: nat)
    requires AcceptResult(c, id).Some? && (Queue(c) != [] ==> Queue(c)[0].id == Left(c))
    ensures Leaves(c, AcceptResult(c, id).value.0, AcceptResult(c, id).value.1)
  {
  }

  lemma AddsNext(there: multiset<Msg>, out: seq<Msg>, c: Conn, c': Conn)
    requires Leaves(c, c', out)
    ensures Left(c) <= Left(c') <= Left(c) + 1
    ensures forall p, id :: (there + multiset(out))[ApiCall(p, id)] > there[ApiCall(p, id)] ==>
              id == Left(c) && Left(c') == id + 1
  {
    if out != [] {
      assert out == [out[0]];
    }
  }

  // what a step writes, in terms of the connector
  lemma StepWrites(s: Sys, step: Step)
    requires Enabled(s, step) && StepX(s, step).Some?
    ensures var s' := StepX(s, step).value;
            match step
            case Send(parent, sync) =>
              var (x', out) := SendTask(s.x, parent, sync); s'.x == x' && s'.there == s.there + multiset(out)
            case Accept(id) =>
              && AcceptResult(s.x, id).Some?
              && var (x', out) := AcceptResult(s.x, id).value; s'.x == x' && s'.there == s.there + multiset(out)
            case _ => Left(s'.x) == Left(s.x) && forall p, id :: s'.there[ApiCall(p, id)] == s.there[ApiCall(p, id)]
  {
    hide SendTask, AcceptResult;
  }

  lemma LeavesInOrder(s: Sys, step: Step, ph: Phases)
    requires Good(s, ph) && Enabled(s, step) && StepX(s, step).Some?
    ensures var s' := StepX(s, step).value;
            && Left(s.x) <= Left(s'.x) <= Left(s.x) + 1
            && forall p, id :: s'.there[ApiCall(p, id)] > s.there[ApiCall(p, id)] ==>
                                 id == Left(s.x) && Left(s'.x) == id + 1
  {
    NewId(s, ph);
    hide StepX, Enabled, SendTask, AcceptResult, Leaves, Left;
    StepWrites(s, step);
    match step
    case Send(parent, sync) =>
      SendLeaves(s.x, parent, sync);
      AddsNext(s.there, SendTask(s.x, parent, sync).1, s.x, SendTask(s.x, parent, sync).0);
    case Accept(id) =>
      if Queue(s.x) != [] {
        FirstInQueue(s, ph);
      }
      var r := AcceptResult(s.x, id).value;
      AcceptLeaves(s.x, id);
      AddsNext(s.there, r.1, s.x, r.0);
    case _ =>
  }

  lemma FirstInQueue(s: Sys, ph: Phases)
    requires Good(s, ph) && Queue(s.x) != []
    ensures Queue(s.x)[0].id == Left(s.x)
  {
  }

  function Count(turns: seq<Turn>, t: Turn): nat {
    if turns == [] then 0 else Count(turns[..|turns| - 1], t) + if turns[|turns| - 1] == t then 1 else 0
  }

  /** Exactly once: over a whole run, a request gets its result once if it is finished or being finished,
      and not at all otherwise. */
  lemma {:induction false} AcceptedOnce(serializeX: bool, serializeY: bool, turns: seq<Turn>, fromX: bool, id: nat)
    requires Play(serializeX, serializeY, turns).Some?
    ensures var c := Seen(Play(serializeX, serializeY, turns).value, fromX).x;
            Count(turns, Turn(fromX, Accept(id)))
            == if id < c.nextId && (id !in c.submitted || id in c.finishing) then 1 else 0
  {
    hide Good, StepX, Enabled;
    if turns != [] {
      var n := |turns| - 1;
      AcceptedOnce(serializeX, serializeY, turns[..n], fromX, id);
      var ph := SeenGood(serializeX, serializeY, turns[..n], fromX);
      var s := Seen(Play(serializeX, serializeY, turns[..n]).value, fromX);
      if turns[n].byX == fromX {
        AcceptedNext(s, turns[n].step, ph, id);
      } else {
        PeerStateKept(Swap(s), turns[n].step);
      }
    }
  }

  lemma PeerStateKept(s: Sys, step: Step)
    requires Enabled(s, step) && StepX(s, step).Some?
    ensures StepX(s, step).value.y == s.y
  {
  }

  predicate HasResult(c: Conn, id: nat) {
    id < c.nextId && (id !in c.submitted || id in c.finishing)
  }

  lemma FinishingAreSubmitted(s: Sys, ph: Phases)
    requires Good(s, ph)
    ensures forall id :: id in s.x.finishing ==> id in s.x.submitted
    ensures forall id :: id in s.x.submitted ==> id < s.x.nextId
  {
  }

  lemma AcceptedNext(s: Sys, step: Step, ph: Phases, id: nat)
    requires Good(s, ph) && Enabled(s, step) && StepX(s, step).Some?
    ensures step == Accept(id) ==> !HasResult(s.x, id)
    ensures HasResult(StepX(s, step).value.x, id) <==> HasResult(s.x, id) || step == Accept(id)
  {
    hide Good, SendTask, AcceptResult, OnlyCalls;
    FinishingAreSubmitted(s, ph);
    match step
    case Send(parent, sync) =>
      SendFacts(s.x, parent, sync);
    case Accept(i) =>
      AcceptSucceeds(s, ph, i);
      AcceptFacts(s.x, i);
    case Finish(i) =>
    case _ =>
      assert StepX(s, step).value.x.submitted == s.x.submitted;
      assert StepX(s, step).value.x.finishing == s.x.finishing;
  }

  /** Conservation: every answer given is either still in the pipe or accepted; so none is given twice. */
  lemma {:induction false} AnsweredOnce(serializeX: bool, serializeY: bool, turns: seq<Turn>, fromX: bool, id: nat)
    requires Play(serializeX, serializeY, turns).Some?
    ensures Count(turns, Turn(!fromX, Return(id)))
         == Seen(Play(serializeX, serializeY, turns).value, fromX).back[Reply(id)]
            + Count(turns, Turn(fromX, Accept(id)))
    ensures Count(turns, Turn(!fromX, Return(id))) <= 1
  {
    AnswersAreConserved(serializeX, serializeY, turns, fromX, id);
    AcceptedOnce(serializeX, serializeY, turns, fromX, id);
    ResultNamesSubmittedTask(serializeX, serializeY, turns, fromX, id);
  }

  lemma {:induction false} AnswersAreConserved(
    serializeX: bool, serializeY: bool, turns: seq<Turn>, fromX: bool, id: nat)
    requires Play(serializeX, serializeY, turns).Some?
    ensures Count(turns, Turn(!fromX, Return(id)))
         == Seen(Play(serializeX, serializeY, turns).value, fromX).back[Reply(id)]
            + Count(turns, Turn(fromX, Accept(id)))
  {
    if turns != [] {
      var n := |turns| - 1;
      AnswersAreConserved(serializeX, serializeY, turns[..n], fromX, id);
      AnswersNext(Seen(Play(serializeX, serializeY, turns[..n]).value, turns[n].byX), turns[n].step, id);
    }
  }

  lemma AnswersNext(s: Sys, step: Step, id: nat)
    requires Enabled(s, step) && StepX(s, step).Some?
    ensures var s' := StepX(s, step).value;
            && s'.back[Reply(id)] == s.back[Reply(id)] - (if step == Accept(id) then 1 else 0)
            && s'.there[Reply(id)] == s.there[Reply(id)] + (if step == Return(id) then 1 else 0)
  {
    hide SendTask, AcceptResult;
    match step
    case Send(parent, sync) =>
      SendFacts(s.x, parent, sync);
      NoReply(SendTask(s.x, parent, sync).1, id);
    case Accept(i) =>
      AcceptFacts(s.x, i);
      NoReply(AcceptResult(s.x, i).value.1, id);
    case _ =>
  }

  // ---------- results of synchronous calls ----------

  /** The calls made by one end, in order: call number id is the id-th of them. */
  function Sends(turns: seq<Turn>, fromX: bool): seq<Task> {
    if turns == [] then []
    else
      var t := turns[|turns| - 1];
      Sends(turns[..|turns| - 1], fromX)
      + if t.byX == fromX && t.step.Send? then [Task(t.step.parent, t.step.sync)] else []
  }

  /** Submitted tasks are what was sent; only synchronous calls have results to be picked up. */
  ghost predicate ResultsTrack(c: Conn, sends: seq<Task>) {
    && |sends| == c.nextId
    && (forall id :: id in c.submitted ==> id < |sends| && c.submitted[id] == sends[id])
    && (forall id :: id in c.results ==> id < |sends| && sends[id].sync && HasResult(c, id))
  }

  /** The results that wait, after one more step. */
  function ResultsAfter(results: set<nat>, sends: seq<Task>, step: Step): set<nat> {
    match step
    case Accept(id) => results + if id < |sends| && sends[id].sync then {id} else {}
    case Pick(id) => results - {id}
    case _ => results
  }

  function SendsAfter(sends: seq<Task>, step: Step): seq<Task> {
    sends + if step.Send? then [Task(step.parent, step.sync)] else []
  }

  // a new task, and a result that arrives
  lemma SentTracks(c: Conn, c': Conn, sends: seq<Task>, t: Task)
    requires ResultsTrack(c, sends) && forall id :: id in c.finishing ==> id in c.submitted
    requires c'.submitted == c.submitted[c.nextId := t] && c'.nextId == c.nextId + 1
    requires c'.finishing == c.finishing && c'.results == c.results
    ensures ResultsTrack(c', sends + [t])
  {
  }

  lemma AcceptedTracks(c: Conn, c': Conn, sends: seq<Task>, id: nat)
    requires ResultsTrack(c, sends) && id in c.submitted
    requires c'.submitted == c.submitted && c'.nextId == c.nextId && c'.finishing == c.finishing + {id}
    requires c'.results == c.results + if c.submitted[id].sync then {id} else {}
    ensures ResultsTrack(c', sends) && c'.results == ResultsAfter(c.results, sends, Accept(id))
  {
  }

  lemma ResultsNext(s: Sys, step: Step, ph: Phases, sends: seq<Task>)
    requires Good(s, ph) && Enabled(s, step) && StepX(s, step).Some? && ResultsTrack(s.x, sends)
    ensures var c' := StepX(s, step).value.x;
            ResultsTrack(c', SendsAfter(sends, step)) && c'.results == ResultsAfter(s.x.results, sends, step)
  {
    hide Good, SendTask, AcceptResult, OnlyCalls;
    FinishingAreSubmitted(s, ph);
    assert sends + [] == sends;
    if step.Send? {
      SendFacts(s.x, step.parent, step.sync);
      SentTracks(s.x, StepX(s, step).value.x, sends, Task(step.parent, step.sync));
    } else if step.Accept? {
      AcceptSucceeds(s, ph, step.id);
      AcceptFacts(s.x, step.id);
      AcceptedTracks(s.x, StepX(s, step).value.x, sends, step.id);
    } else {
      OtherTracks(s, step, sends);
    }
  }

  lemma OtherTracks(s: Sys, step: Step, sends: seq<Task>)
    requires Enabled(s, step) && StepX(s, step).Some? && ResultsTrack(s.x, sends) && !step.Send? && !step.Accept?
    ensures var c' := StepX(s, step).value.x;
            ResultsTrack(c', sends) && c'.results == ResultsAfter(s.x.results, sends, step)
  {
  }

  lemma {:induction false} SendsAreTracked(serializeX: bool, serializeY: bool, turns: seq<Turn>, fromX: bool)
    requires Play(serializeX, serializeY, turns).Some?
    ensures ResultsTrack(Seen(Play(serializeX, serializeY, turns).value, fromX).x, Sends(turns, fromX))
  {
    hide Good, StepX, Enabled, ResultsTrack;
    if turns == [] {
      NothingSent(serializeX);
      NothingSent(serializeY);
    } else {
      var n := |turns| - 1;
      SendsAreTracked(serializeX, serializeY, turns[..n], fromX);
      var s := Seen(Play(serializeX, serializeY, turns[..n]).value, fromX);
      if turns[n].byX == fromX {
        var ph := SeenGood(serializeX, serializeY, turns[..n], fromX);
        ResultsNext(s, turns[n].step, ph, Sends(turns[..n], fromX));
      } else {
        PeerStateKept(Swap(s), turns[n].step);
        assert Sends(turns[..n], fromX) + [] == Sends(turns[..n], fromX);
      }
    }
  }

  lemma NothingSent(serialize: bool)
    ensures ResultsTrack(NewConn(serialize), [])
  {
  }

  /** Over a whole run, the result of a synchronous call waits for its caller from its arrival until it is picked up,
      and an asynchronous call never leaves one. */
  lemma {:induction false} ResultsArePicked(
    serializeX: bool, serializeY: bool, turns: seq<Turn>, fromX: bool, id: nat)
    requires Play(serializeX, serializeY, turns).Some?
    ensures var c := Seen(Play(serializeX, serializeY, turns).value, fromX).x;
            var accepted, picked := Count(turns, Turn(fromX, Accept(id))), Count(turns, Turn(fromX, Pick(id)));
            var sends := Sends(turns, fromX);
            && (id in c.results <==> accepted > picked && id < |sends| && sends[id].sync)
            && picked <= accepted <= 1
            && (id >= |sends| ==> accepted == 0)
            && (id < |sends| && !sends[id].sync ==> picked == 0)
  {
    hide Good, StepX, Enabled, HasResult;
    if turns != [] {
      var n := |turns| - 1;
      ResultsArePicked(serializeX, serializeY, turns[..n], fromX, id);
      SendsAreTracked(serializeX, serializeY, turns[..n], fromX);
      AcceptedOnce(serializeX, serializeY, turns, fromX, id);
      var s := Seen(Play(serializeX, serializeY, turns[..n]).value, fromX);
      if turns[n].byX == fromX {
        var ph := SeenGood(serializeX, serializeY, turns[..n], fromX);
        ResultsNext(s, turns[n].step, ph, Sends(turns[..n], fromX));
        PickedIsThere(s, turns[n].step, id);
      } else {
        PeerStateKept(Swap(s), turns[n].step);
      }
    }
  }

  lemma PickedIsThere(s: Sys, step: Step, id: nat)
    requires Enabled(s, step)
    ensures step == Pick(id) ==> id in s.x.results
  {
  }

  // ---------- callbacks ----------

  /** A call that has not reached the peer yet: it waits for its turn, or is in the pipe. */
  predicate Outgoing(s: Sys, parent: int, id: nat) {
    ApiCall(parent, id) in s.there || Request(parent, id) in Queue(s.x)
  }

  predicate Runs(c: Conn, task: int) {
    task == -1 || (task >= 0 && task in c.tasks && !c.tasks[task])
  }

  /** Tasks with calls of their own that have not reached the peer are still running. */
  ghost predicate ParentsRun(s: Sys) {
    forall parent, id :: Outgoing(s, parent, id) ==> Runs(s.x, parent)
  }

  /** A task returns only once the calls made on its behalf have reached the peer. */
  ghost predicate Disciplined(s: Sys, step: Step) {
    step.Return? ==> forall id :: !Outgoing(s, step.id, id)
  }

  ghost predicate DisciplinedRun(serializeX: bool, serializeY: bool, turns: seq<Turn>) {
    turns == [] ||
    var init, t := turns[..|turns| - 1], turns[|turns| - 1];
    && DisciplinedRun(serializeX, serializeY, init)
    && (Play(serializeX, serializeY, init).Some? ==>
          Disciplined(Seen(Play(serializeX, serializeY, init).value, t.byX), t.step))
  }

  lemma SendQueues(c: Conn, parent: int, sync: bool)
    ensures var (c', out) := SendTask(c, parent, sync);
            && (forall r :: r in Queue(c') ==> r in Queue(c) || r == Request(parent, c.nextId))
            && (forall m :: m in out ==> m == ApiCall(parent, c.nextId))
            && c'.tasks == c.tasks
  {
  }

  lemma AcceptQueues(c: Conn, id: nat)
    requires AcceptResult(c, id).Some?
    ensures var (c', out) := AcceptResult(c, id).value;
            && (forall r :: r in Queue(c') ==> r in Queue(c))
            && (forall m :: m in out ==> m.ApiCall? && Request(m.parent, m.id) in Queue(c))
            && c'.tasks == c.tasks
  {
  }

  /** Only a new call becomes outgoing. */
  lemma OutgoingNext(s: Sys, step: Step, parent: int, id: nat)
    requires Enabled(s, step) && StepX(s, step).Some? && Outgoing(StepX(s, step).value, parent, id)
    ensures Outgoing(s, parent, id) || (step.Send? && parent == step.parent)
  {
    hide SendTask, AcceptResult;
    match step
    case Send(p, sync) =>
      SendQueues(s.x, p, sync);
      InSum(s.there, SendTask(s.x, p, sync).1, ApiCall(parent, id));
    case Accept(i) =>
      AcceptQueues(s.x, i);
      InSum(s.there, AcceptResult(s.x, i).value.1, ApiCall(parent, id));
    case Return(i) =>
      InSum(s.there, [Reply(i)], ApiCall(parent, id));
    case _ =>
  }

  lemma InSum(there: multiset<Msg>, out: seq<Msg>, m: Msg)
    ensures m in there + multiset(out) <==> m in there || m in out
  {
  }

  /** Only a return ends a task. */
  lemma RunsNext(s: Sys, step: Step, task: int)
    requires Enabled(s, step) && StepX(s, step).Some? && Runs(s.x, task)
    ensures Runs(StepX(s, step).value.x, task) || (step.Return? && task == step.id)
  {
    hide SendTask, AcceptResult;
    match step
    case Send(p, sync) => SendQueues(s.x, p, sync);
    case Accept(i) => AcceptQueues(s.x, i);
    case _ =>
  }

  lemma ParentsNext(s: Sys, step: Step)
    requires ParentsRun(s) && Enabled(s, step) && Disciplined(s, step) && StepX(s, step).Some?
    ensures ParentsRun(StepX(s, step).value)
  {
    var s' := StepX(s, step).value;
    forall parent, id | Outgoing(s', parent, id)
      ensures Runs(s'.x, parent)
    {
      hide StepX, Outgoing;
      OutgoingNext(s, step, parent, id);
      RunsNext(s, step, parent);
    }
  }

  /** A step of the peer leaves the outgoing calls, or receives one of them. */
  lemma ParentsOfPeer(s: Sys, step: Step)
    requires ParentsRun(Swap(s)) && Enabled(s, step) && StepX(s, step).Some?
    ensures ParentsRun(Swap(StepX(s, step).value))
  {
    var s' := StepX(s, step).value;
    forall parent, id | Outgoing(Swap(s'), parent, id)
      ensures Runs(s'.y, parent)
    {
      hide SendTask, AcceptResult;
      assert s'.y == s.y && Outgoing(Swap(s), parent, id);
    }
  }

  lemma {:induction false} ParentsAlwaysRun(serializeX: bool, serializeY: bool, turns: seq<Turn>, fromX: bool)
    requires Play(serializeX, serializeY, turns).Some? && DisciplinedRun(serializeX, serializeY, turns)
    ensures ParentsRun(Seen(Play(serializeX, serializeY, turns).value, fromX))
  {
    if turns != [] {
      var n := |turns| - 1;
      ParentsAlwaysRun(serializeX, serializeY, turns[..n], fromX);
      hide StepX, Enabled, ParentsRun, Disciplined;
      var s := Seen(Play(serializeX, serializeY, turns[..n]).value, fromX);
      if turns[n].byX == fromX {
        ParentsNext(s, turns[n].step);
      } else {
        ParentsOfPeer(Swap(s), turns[n].step);
      }
    }
  }

  /** Callbacks: when no task returns before the calls made on its behalf have reached the peer, every API_CALL that
      arrives finds the task it is meant for still submitted, and its handling never raises. */
  lemma CallbackFindsItsTask(
    serializeX: bool, serializeY: bool, turns: seq<Turn>, fromX: bool, parent: int, id: nat)
    requires Play(serializeX, serializeY, turns).Some? && DisciplinedRun(serializeX, serializeY, turns)
    requires ApiCall(parent, id) in Seen(Play(serializeX, serializeY, turns).value, fromX).back
    ensures var s := Seen(Play(serializeX, serializeY, turns).value, fromX);
            (parent == -1 || (parent >= 0 && parent in s.x.submitted)) && StartTask(s.x, parent, id).Some?
  {
    var s := Seen(Play(serializeX, serializeY, turns).value, fromX);
    var mine := SeenGood(serializeX, serializeY, turns, fromX);
    ParentsAlwaysRun(serializeX, serializeY, turns, !fromX);
    hide Play;
    assert Outgoing(Swap(s), parent, id);
  }

  // ---------- and when a task returns too early ----------

  /** A run goes on with a step of either end. */
  lemma PlayOn(serializeX: bool, serializeY: bool, turns: seq<Turn>, fromX: bool, own: bool, step: Step)
    requires Play(serializeX, serializeY, turns).Some?
    requires var s := Seen(Play(serializeX, serializeY, turns).value, fromX);
             var end := if own then s else Swap(s);
             Enabled(end, step) && StepX(end, step).Some?
    ensures var s := Seen(Play(serializeX, serializeY, turns).value, fromX);
            var next := Play(serializeX, serializeY, turns + [Turn(own == fromX, step)]);
            && next.Some?
            && Seen(next.value, fromX)
               == if own then StepX(s, step).value else Swap(StepX(Swap(s), step).value)
  {
    hide StepX, Enabled;
    var t := Turn(own == fromX, step);
    assert (turns + [t])[..|turns|] == turns && (turns + [t])[|turns|] == t;
  }

  lemma ReturnOne(s: Sys, id: nat)
    requires id in s.x.tasks && !s.x.tasks[id]
    ensures StepX(s, Return(id)) ==
              Some(s.(x := s.x.(tasks := s.x.tasks[id := true]), there := s.there + multiset{Reply(id)}))
  {
    assert multiset([Reply(id)]) == multiset{Reply(id)};
  }

  lemma AcceptOne(s: Sys, id: nat)
    requires Reply(id) in s.back && AcceptResult(s.x, id).Some?
    ensures StepX(s, Accept(id)).Some?
    ensures var s' := StepX(s, Accept(id)).value;
            id in s'.x.finishing && s'.y == s.y && forall p, i :: ApiCall(p, i) in s.back ==> ApiCall(p, i) in s'.back
  {
    AcceptFacts(s.x, id);
    hide AcceptResult;
  }

  /** x can be asked to start a task for a call of y, and raises. */
  predicate Raises(s: Sys, parent: int, id: nat) {
    Enabled(s, Start(parent, id)) && StepX(s, Start(parent, id)).None?
  }

  /** x returns the result of a request of y: it starts it if it is still in the pipe, unless that raises, and then
      returns. */
  lemma Answer(serializeX: bool, serializeY: bool, turns: seq<Turn>, fromX: bool, parent: int, r: nat)
    returns (more: seq<Turn>, raised: bool)
    requires Play(serializeX, serializeY, turns).Some?
    requires var s := Seen(Play(serializeX, serializeY, turns).value, fromX);
             ApiCall(parent, r) in s.back || (r in s.x.tasks && !s.x.tasks[r]) || Reply(r) in s.there
    ensures Play(serializeX, serializeY, turns + more).Some?
    ensures var s := Seen(Play(serializeX, serializeY, turns).value, fromX);
            var s' := Seen(Play(serializeX, serializeY, turns + more).value, fromX);
            && s'.y == s.y && s'.x.submitted == s.x.submitted
            && if raised then Raises(s', parent, r) else Reply(r) in s'.there
  {
    hide Play;
    var s := Seen(Play(serializeX, serializeY, turns).value, fromX);
    more, raised := [], false;
    assert turns + more == turns;
    if Reply(r) in s.there {
      return;
    }
    if ApiCall(parent, r) in s.back {
      if StepX(s, Start(parent, r)).None? {
        return more, true;
      }
      PlayOn(serializeX, serializeY, turns, fromX, true, Start(parent, r));
      more := [Turn(fromX, Start(parent, r))];
      s := StepX(s, Start(parent, r)).value;
    }
    hide StepX;
    ReturnOne(s, r);
    PlayOn(serializeX, serializeY, turns + more, fromX, true, Return(r));
    assert turns + more + [Turn(fromX, Return(r))] == turns + (more + [Turn(fromX, Return(r))]);
    more := more + [Turn(fromX, Return(r))];
  }

  /** While requests wait, one of them is out. */
  lemma OneIsOut(s: Sys, ph: Phases) returns (r: nat)
    requires Good(s, ph) && Queue(s.x) != []
    ensures r in s.x.submitted
    ensures ApiCall(s.x.submitted[r].parent, r) in s.there || (r in s.y.tasks && !s.y.tasks[r]) || Reply(r) in s.back
  {
    r :| r in ph && Out(ph[r]);
  }

  /** Accepting a result sends the next waiting request. */
  lemma AcceptSendsNext(s: Sys, id: nat)
    requires s.x.serialize && Queue(s.x) != [] && Reply(id) in s.back && AcceptResult(s.x, id).Some?
    ensures StepX(s, Accept(id)).Some?
    ensures var s', q := StepX(s, Accept(id)).value, Queue(s.x);
            && s'.y == s.y && Queue(s'.x) == q[1..] && ApiCall(q[0].parent, q[0].id) in s'.there
            && forall m :: m in s.there ==> m in s'.there
  {
  }

  /** Once x no longer knows a task for which y has an outgoing call, a run can go on until x raises. */
  lemma UnknownTaskRaises(
    serializeX: bool, serializeY: bool, turns: seq<Turn>, fromX: bool, task: nat, id: nat)
    returns (more: seq<Turn>, parent: int, call: nat)
    requires Play(serializeX, serializeY, turns).Some?
    requires var s := Seen(Play(serializeX, serializeY, turns).value, fromX);
             task !in s.x.submitted && Outgoing(Swap(s), task, id)
    ensures Play(serializeX, serializeY, turns + more).Some?
    ensures Raises(Seen(Play(serializeX, serializeY, turns + more).value, fromX), parent, call)
    decreases |Queue(Seen(Play(serializeX, serializeY, turns).value, fromX).y)|
  {
    hide Play, StepX, Good, AcceptResult, Enabled, Raises;
    var s := Seen(Play(serializeX, serializeY, turns).value, fromX);
    if ApiCall(task, id) in s.back {
      more, parent, call := [], task, id;
      assert turns + [] == turns;
      UnknownParent(s, task, id);
      return;
    }
    var ph := SeenGood(serializeX, serializeY, turns, !fromX);
    var r := OneIsOut(Swap(s), ph);
    parent, call := s.y.submitted[r].parent, r;
    var answer, raised := Answer(serializeX, serializeY, turns, fromX, parent, r);
    if raised {
      more := answer;
      return;
    }
    var turns1 := turns + answer;
    var s1 := Seen(Play(serializeX, serializeY, turns1).value, fromX);
    ph := SeenGood(serializeX, serializeY, turns1, !fromX);
    QueueMeansSerialized(Swap(s1), ph);
    AcceptSucceeds(Swap(s1), ph, r);
    AcceptSendsNext(Swap(s1), r);
    ReplyEnables(Swap(s1), r);
    PlayOn(serializeX, serializeY, turns1, fromX, false, Accept(r));
    var turns2 := turns1 + [Turn(!fromX, Accept(r))];
    var s2 := Seen(Play(serializeX, serializeY, turns2).value, fromX);
    StillOutgoing(Queue(s1.y), task, id);
    assert Outgoing(Swap(s2), task, id);
    var rest;
    rest, parent, call := UnknownTaskRaises(serializeX, serializeY, turns2, fromX, task, id);
    more := answer + [Turn(!fromX, Accept(r))] + rest;
    assert turns2 + rest == turns + more;
  }

  lemma QueueMeansSerialized(s: Sys, ph: Phases)
    requires Good(s, ph) && Queue(s.x) != []
    ensures s.x.serialize
  {
  }

  lemma ReplyEnables(s: Sys, id: nat)
    requires Reply(id) in s.back
    ensures Enabled(s, Accept(id))
  {
  }

  lemma StillOutgoing(q: seq<Request>, parent: int, id: nat)
    requires q != [] && Request(parent, id) in q
    ensures q[0] == Request(parent, id) || Request(parent, id) in q[1..]
  {
  }

  /** In every reachable state: if a task of the peer has an outgoing call and returns now, the run can go on until a
      callback raises. So the discipline asks for no more than is needed. */
  lemma EarlyReturnRaises(
    serializeX: bool, serializeY: bool, turns: seq<Turn>, fromX: bool, task: nat, id: nat)
    returns (more: seq<Turn>, parent: int, call: nat)
    requires Play(serializeX, serializeY, turns).Some?
    requires var s := Seen(Play(serializeX, serializeY, turns).value, fromX);
             Outgoing(Swap(s), task, id) && task in s.y.tasks && !s.y.tasks[task]
    ensures var early := turns + [Turn(!fromX, Return(task))] + more;
            && Play(serializeX, serializeY, early).Some?
            && Raises(Seen(Play(serializeX, serializeY, early).value, fromX), parent, call)
  {
    hide Play, StepX, AcceptResult, Good, Raises;
    var s := Seen(Play(serializeX, serializeY, turns).value, fromX);
    ReturnOne(Swap(s), task);
    PlayOn(serializeX, serializeY, turns, fromX, false, Return(task));
    var turns1 := turns + [Turn(!fromX, Return(task))];
    var s1 := Seen(Play(serializeX, serializeY, turns1).value, fromX);
    var ph := SeenGood(serializeX, serializeY, turns1, fromX);
    AcceptSucceeds(s1, ph, task);
    AcceptOne(s1, task);
    PlayOn(serializeX, serializeY, turns1, fromX, true, Accept(task));
    var turns2 := turns1 + [Turn(fromX, Accept(task))];
    var s2 := Seen(Play(serializeX, serializeY, turns2).value, fromX);
    FinishOne(s2, task);
    PlayOn(serializeX, serializeY, turns2, fromX, true, Finish(task));
    var turns3 := turns2 + [Turn(fromX, Finish(task))];
    assert Outgoing(Swap(Seen(Play(serializeX, serializeY, turns3).value, fromX)), task, id);
    var rest;
    rest, parent, call := UnknownTaskRaises(serializeX, serializeY, turns3, fromX, task, id);
    more := [Turn(fromX, Accept(task)), Turn(fromX, Finish(task))] + rest;
    assert turns3 + rest == turns1 + more;
  }

  lemma FinishOne(s: Sys, id: nat)
    requires id in s.x.finishing
    ensures StepX(s, Finish(id)) == Some(s.(x := FinishResult(s.x, id)))
  {
  }

  lemma UnknownParent(s: Sys, parent: nat, id: nat)
    requires ApiCall(parent, id) in s.back && parent !in s.x.submitted
    ensures Raises(s, parent, id)
  {
  }

  /** Such a state is reached by a request of x, whose task at y makes a call for it. */
  const CALL_BACK: seq<Turn> := [Turn(true, Send(-1, false)), Turn(false, Start(-1, 0)), Turn(false, Send(0, false))]

  lemma SendOne(s: Sys, parent: int)
    requires !s.x.serialize && Enabled(s, Send(parent, false))
    ensures var id := s.x.nextId;
            StepX(s, Send(parent, false)) ==
              Some(s.(x := s.x.(nextId := id + 1, submitted := s.x.submitted[id := Task(parent, false)]),
                      there := s.there + multiset{ApiCall(parent, id)}))
  {
    assert multiset([ApiCall(parent, s.x.nextId)]) == multiset{ApiCall(parent, s.x.nextId)};
  }

  lemma CallBackIsReached()
    ensures Play(false, false, CALL_BACK).Some?
    ensures var s := Play(false, false, CALL_BACK).value;
            ApiCall(0, 0) in s.back && 0 in s.y.tasks && !s.y.tasks[0]
  {
    var ts := CALL_BACK;
    var s0 := Sys(NewConn(false), NewConn(false), multiset{}, multiset{});
    assert ts[..0] == [] && ts[..1] == ts[..0] + [ts[0]] && ts[..2] == ts[..1] + [ts[1]] && ts == ts[..2] + [ts[2]];
    SendOne(s0, -1);
    PlayOn(false, false, ts[..0], true, true, ts[0].step);
    var s1 := Play(false, false, ts[..1]).value;
    PlayOn(false, false, ts[..1], true, false, ts[1].step);
    var s2 := Play(false, false, ts[..2]).value;
    SendOne(Swap(s2), 0);
    PlayOn(false, false, ts[..2], true, false, ts[2].step);
  }
}
