/**
 The connector object of server/process.py: its dictionaries changed in place, and the messages it writes.
 Each method does what the functions of RpcModel say.
 */
module Rpc {
  import opened Wrappers
  import M = RpcModel

  class RPCProcessConnector {
    const serializeReqs: bool
    var idsGenerator: nat
    var submittedTasks: map<nat, M.Task>
    var nextReqs: Option<seq<M.Request>>
    var results: set<nat>
    var tasks: map<nat, bool>
    ghost var finishing: set<nat>

    ghost function State(): M.Conn
      reads this
    {
      M.Conn(serializeReqs, idsGenerator, submittedTasks, nextReqs, finishing, results, tasks)
    }

    constructor (serialize: bool)
      ensures State() == M.NewConn(serialize)
    {
      serializeReqs := serialize;
      idsGenerator, submittedTasks, nextReqs, results, tasks, finishing := 0, map[], None, {}, map[], {};
    }

    method SendTask(parent: int, sync: bool) returns (id: nat, out: seq<M.Msg>)
      modifies this
      ensures id == old(idsGenerator) && (State(), out) == M.SendTask(old(State()), parent, sync)
    {
      id := idsGenerator;
      idsGenerator := idsGenerator + 1;
      submittedTasks := submittedTasks[id := M.Task(parent, sync)];
      out := [];
      if serializeReqs {
        if nextReqs.None? {
          nextReqs := Some([]);
          out := [M.ApiCall(parent, id)];
        } else {
          nextReqs := Some(nextReqs.value + [M.Request(parent, id)]);
        }
      } else {
        out := [M.ApiCall(parent, id)];
      }
    }

    /** The RESULT branch of handle_next_event, up to the call of the callback. */
    method AcceptResult(id: nat) returns (ok: bool, out: seq<M.Msg>)
      modifies this
      ensures ok <==> M.AcceptResult(old(State()), id).Some?
      ensures ok ==> (State(), out) == M.AcceptResult(old(State()), id).value
    {
      out := [];
      if serializeReqs {
        if nextReqs.None? {
          return false, out;
        } else if |nextReqs.value| > 0 {
          var req := nextReqs.value[0];
          nextReqs := Some(nextReqs.value[1..]);
          out := [M.ApiCall(req.parent, req.id)];
        } else {
          nextReqs := None; // no more pending requests
        }
      }
      if id !in submittedTasks {
        return false, out;
      }
      if submittedTasks[id].sync {
        results := results + {id};
      }
      finishing := finishing + {id};
      ok := true;
    }

    /** The end of the RESULT branch. */
    method FinishResult(id: nat)
      modifies this
      ensures State() == M.FinishResult(old(State()), id)
    {
      submittedTasks := submittedTasks - {id};
      finishing := finishing - {id};
    }

    /** handle_api_call, up to the call of the service. */
    method HandleApiCall(parent: int, id: nat) returns (ok: bool)
      modifies this
      ensures ok <==> M.StartTask(old(State()), parent, id).Some?
      ensures State() == if ok then M.StartTask(old(State()), parent, id).value else old(State())
    {
      ok := true;
      if parent != -1 {
        ok := parent >= 0 && parent in submittedTasks;
      }
      if ok {
        tasks := tasks[id := false];
      }
    }

    /** return_result and return_exception of the task started for a request of the peer. */
    method ReturnResult(id: nat) returns (ok: bool, out: seq<M.Msg>)
      requires id in tasks
      modifies this
      ensures ok <==> M.ReturnResult(old(State()), id).Some?
      ensures if ok then (State(), out) == M.ReturnResult(old(State()), id).value
              else State() == old(State()) && out == []
    {
      if tasks[id] {
        return false, [];
      }
      tasks := tasks[id := true];
      return true, [M.Reply(id)];
    }
  }
}
