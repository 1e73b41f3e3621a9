/** The CFQ scheduler object, proved against the shared fair-queue specification. */
module Cfq {
  import opened IoRequests
  import opened Options
  import FairQueue

  class CfqScheduler {
    var queues: map<nat, seq<IoRequest>>
    var order: seq<nat>
    var rrIndex: nat
    var submitted: nat
    var merged: nat

    function View(): FairQueue.Fair
      reads this
    {
      FairQueue.Fair(queues, order, rrIndex)
    }

    constructor ()
      ensures View() == FairQueue.EMPTY && submitted == merged == 0
    {
      queues, order, rrIndex, submitted, merged := map[], [], 0, 0, 0;
    }

    method Submit(req: IoRequest)
      modifies this
      ensures View() == FairQueue.Submitted(old(View()), req)
      ensures submitted == old(submitted) + 1
      ensures merged == old(merged) + if FairQueue.Merges(old(View()), req) then 1 else 0
    {
      submitted := submitted + 1;
      var pid := req.pid;
      var queue := if pid in queues then queues[pid] else [];
      if |queue| > 0 {
        var last := queue[|queue| - 1];
        if FairQueue.CanMergeBack(last, req) {
          queues := queues[pid := queue[..|queue| - 1] + [FairQueue.MergeBack(last, req)]];
          merged := merged + 1;
          return;
        }
      }
      queues := queues[pid := queue + [req]];
      if pid !in order {
        order := order + [pid];
      }
    }

    method Dispatch() returns (r: Option<IoRequest>)
      modifies this`queues, this`order, this`rrIndex
      ensures (View(), r) == FairQueue.Dispatched(old(View()), false)
    {
      if order == [] {
        return None;
      }
      var pid := SelectNextPid();
      if pid !in queues || queues[pid] == [] {
        return None;
      }
      var queue := queues[pid];
      var req := queue[0];
      queue := queue[1..];
      queues := queues[pid := queue];
      if queue == [] {
        queues := queues - {pid};
        assert queues == old(queues) - {pid};
        order := RetainOthers(order, pid);
        if rrIndex >= |order| && order != [] {
          rrIndex := 0;
        }
      }
      r := Some(req);
    }

    method SelectNextPid() returns (pid: nat)
      requires order != []
      modifies this`rrIndex
      ensures pid == FairQueue.NextPid(old(View()))
      ensures rrIndex == FairQueue.Start(old(View())) + 1
    {
      if rrIndex >= |order| {
        rrIndex := 0;
      }
      pid := order[rrIndex];
      rrIndex := rrIndex + 1;
    }
  }

  method RetainOthers(order: seq<nat>, pid: nat) returns (kept: seq<nat>)
    ensures kept == FairQueue.Without(order, pid)
  {
    kept := [];
    for i := 0 to |order|
      invariant kept + FairQueue.Without(order[i..], pid) == FairQueue.Without(order, pid)
    {
      assert order[i..][1..] == order[i + 1..];
      if order[i] != pid {
        kept := kept + [order[i]];
      }
    }
  }
}
