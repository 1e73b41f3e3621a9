/** The BFQ scheduler: the fair queue plus a sector budget per process.

    The budget decides only whether rr_index is rewound after a dispatch, so every BFQ run
    is a run of the fair queue. */
module Bfq {
  import opened IoRequests
  import opened Options
  import FairQueue
  import Cfq

  const DEFAULT_BUDGET: nat := 128

  datatype BfqQueue = BfqQueue(requests: seq<IoRequest>, budget: nat, budgetUsed: nat, weight: nat)

  datatype Sched = Sched(queues: map<nat, BfqQueue>, order: seq<nat>, rr: nat)

  /** The proportional weight, in u32 arithmetic. */
  function WeightForPriority(prio: Priority): nat {
    match prio.cls
    case RealTime => (500 - prio.level * 50) % FairQueue.U32
    case BestEffort => 100 + (4 - (if prio.level < 4 then prio.level else 4)) * 25
    case Idle => 10
    case NoClass => 100
  }

  // ---- The two operations ----

  function QueueFor(s: Sched, req: IoRequest): BfqQueue {
    if req.pid in s.queues then s.queues[req.pid] else BfqQueue([], 0, 0, WeightForPriority(req.priority))
  }

  predicate Merges(s: Sched, req: IoRequest) {
    var q := QueueFor(s, req).requests;
    q != [] && FairQueue.CanMergeBack(q[|q| - 1], req)
  }

  function Submitted(s: Sched, req: IoRequest): Sched {
    var q := QueueFor(s, req);
    var n := |q.requests|;
    if Merges(s, req) then
      s.(queues := s.queues[req.pid := q.(requests := q.requests[..n - 1] + [FairQueue.MergeBack(q.requests[n - 1], req)])])
    else
      s.(queues := s.queues[req.pid := q.(requests := q.requests + [req])],
         order := if req.pid in s.order then s.order else s.order + [req.pid])
  }

  /** A queue without a budget gets a fresh one. */
  function Refilled(q: BfqQueue): BfqQueue {
    if q.budget == 0 then q.(budget := DEFAULT_BUDGET * q.weight / 100, budgetUsed := 0) else q
  }

  /** Serving the first request uses the budget up. */
  predicate Exhausts(q: BfqQueue)
    requires q.requests != []
  {
    Refilled(q).budgetUsed + q.requests[0].nrSectors >= Refilled(q).budget
  }

  /** The queue after its first request is served. */
  function Charged(q: BfqQueue): BfqQueue
    requires q.requests != []
  {
    var r := Refilled(q).(requests := q.requests[1..]);
    if Exhausts(q) || r.requests == [] then r.(budget := 0, budgetUsed := 0)
    else r.(budgetUsed := r.budgetUsed + q.requests[0].nrSectors)
  }

  function Dispatched(s: Sched): (Sched, Option<IoRequest>) {
    if s.order == [] then (s, None)
    else
      var i := if s.rr >= |s.order| then 0 else s.rr;
      var pid := s.order[i];
      var s1 := s.(rr := i + 1);
      if pid !in s.queues then (s1, None)
      else if s.queues[pid].requests == [] then (s1.(queues := s.queues[pid := Refilled(s.queues[pid])]), None)
      else
        var q := s.queues[pid];
        if |q.requests| == 1 then
          var order := FairQueue.Without(s.order, pid);
          (Sched(s.queues - {pid}, order, FairQueue.Rewound(i + 1, order)), Some(q.requests[0]))
        else
          (s1.(queues := s.queues[pid := Charged(q)], rr := if Exhausts(q) then FairQueue.Rewound(i + 1, s.order) else i + 1),
           Some(q.requests[0]))
  }

  // ---- Every BFQ step is a fair-queue step ----

  function Abs(s: Sched): FairQueue.Fair {
    FairQueue.Fair(map pid | pid in s.queues :: s.queues[pid].requests, s.order, s.rr)
  }

  /** Whether the next dispatch uses up the budget of the process it serves. */
  predicate NextExhausts(s: Sched) {
    s.order != [] &&
    var pid := s.order[if s.rr >= |s.order| then 0 else s.rr];
    pid in s.queues && s.queues[pid].requests != [] && Exhausts(s.queues[pid])
  }

  lemma SubmitRefines(s: Sched, req: IoRequest)
    ensures Abs(Submitted(s, req)) == FairQueue.Submitted(Abs(s), req)
    ensures Merges(s, req) <==> FairQueue.Merges(Abs(s), req)
  {
    assert Abs(Submitted(s, req)).queues == FairQueue.Submitted(Abs(s), req).queues;
  }

  lemma DispatchRefines(s: Sched)
    ensures Abs(Dispatched(s).0) == FairQueue.Dispatched(Abs(s), NextExhausts(s)).0
    ensures Dispatched(s).1 == FairQueue.Dispatched(Abs(s), NextExhausts(s)).1
  {
    assert Abs(Dispatched(s).0).queues == FairQueue.Dispatched(Abs(s), NextExhausts(s)).0.queues;
  }

  // ---- Whole runs ----

  datatype Op = Submit(req: IoRequest) | Dispatch

  datatype History = History(s: Sched, submitted: seq<IoRequest>, merged: nat, returned: seq<IoRequest>)

  function Perform(h: History, op: Op): History {
    match op
    case Submit(req) =>
      h.(s := Submitted(h.s, req), submitted := h.submitted + [req], merged := h.merged + if Merges(h.s, req) then 1 else 0)
    case Dispatch =>
      var (s', o) := Dispatched(h.s);
      h.(s := s', returned := if o.Some? then h.returned + [o.value] else h.returned)
  }

  const EMPTY := Sched(map[], [], 0)

  /** The history after the first n operations. */
  function Play(ops: seq<Op>, n: nat): History
    requires n <= |ops|
  {
    if n == 0 then History(EMPTY, [], 0, []) else Perform(Play(ops, n - 1), ops[n - 1])
  }

  function AbsHistory(h: History): FairQueue.History {
    FairQueue.History(Abs(h.s), h.submitted, h.merged, h.returned)
  }

  function LiftOp(s: Sched, op: Op): FairQueue.Op {
    match op
    case Submit(req) => FairQueue.Submit(req)
    case Dispatch => FairQueue.Dispatch(NextExhausts(s))
  }

  lemma EmptyRefines()
    ensures Abs(EMPTY) == FairQueue.EMPTY
  {
    assert Abs(EMPTY).queues == map[];
  }

  lemma PerformRefines(h: History, op: Op)
    ensures AbsHistory(Perform(h, op)) == FairQueue.Perform(AbsHistory(h), LiftOp(h.s, op))
  {
    match op
    case Submit(req) => SubmitRefines(h.s, req);
    case Dispatch => DispatchRefines(h.s);
  }

  /** fops is the same run, with each dispatch's rewind decided by the budget. */
  ghost predicate Lifts(ops: seq<Op>, fops: seq<FairQueue.Op>, n: nat)
    requires n <= |ops| && n <= |fops|
  {
    n > 0 ==> Lifts(ops, fops, n - 1) && fops[n - 1] == LiftOp(Play(ops, n - 1).s, ops[n - 1])
  }

  lemma {:induction false} RunLifts(ops: seq<Op>, fops: seq<FairQueue.Op>, n: nat)
    requires n <= |ops| && n <= |fops| && Lifts(ops, fops, n)
    ensures AbsHistory(Play(ops, n)) == FairQueue.Play(fops, n)
  {
    if n == 0 {
      EmptyRefines();
    } else {
      RunLifts(ops, fops, n - 1);
      PerformRefines(Play(ops, n - 1), ops[n - 1]);
    }
  }

  function Lift(ops: seq<Op>): (fops: seq<FairQueue.Op>)
    ensures |fops| == |ops|
  {
    seq(|ops|, i requires 0 <= i < |ops| => LiftOp(Play(ops, i).s, ops[i]))
  }

  lemma {:induction false} LiftLifts(ops: seq<Op>, n: nat)
    requires n <= |ops|
    ensures Lifts(ops, Lift(ops), n)
  {
    if n > 0 {
      LiftLifts(ops, n - 1);
    }
  }

  /** Every BFQ run is a fair-queue run: the same queues, list and index, the same requests submitted, merged and
      returned. */
  lemma RunRefines(ops: seq<Op>, n: nat)
    requires n <= |ops|
    ensures AbsHistory(Play(ops, n)) == FairQueue.Play(Lift(ops), n)
  {
    LiftLifts(ops, n);
    RunLifts(ops, Lift(ops), n);
  }

  // ---- What holds of every BFQ run ----

  lemma PlayValid(ops: seq<Op>, n: nat)
    requires n <= |ops|
    ensures FairQueue.Valid(Abs(Play(ops, n).s))
  {
    RunRefines(ops, n);
    FairQueue.PlayValid(Lift(ops), n);
  }

  /** After any run dispatch returns nothing exactly when is_empty holds. */
  lemma NoneExactlyWhenEmpty(ops: seq<Op>)
    ensures var s := Play(ops, |ops|).s;
            Dispatched(s).1.None? <==> forall pid :: pid in s.queues ==> s.queues[pid].requests == []
  {
    var s := Play(ops, |ops|).s;
    PlayValid(ops, |ops|);
    DispatchRefines(s);
    FairQueue.DispatchValid(Abs(s), NextExhausts(s));
    FairQueue.EmptyAgrees(Abs(s));
    assert forall pid :: pid in s.queues ==> Abs(s).queues[pid] == s.queues[pid].requests;
  }

  /** Over every run, submitted minus merged requests are the returned plus the pending ones. */
  lemma RunConserves(ops: seq<Op>, n: nat)
    requires n <= |ops|
    ensures var h := Play(ops, n);
            |h.submitted| - h.merged == |h.returned| + FairQueue.Backlog(Abs(h.s).queues, h.s.order)
  {
    RunRefines(ops, n);
    FairQueue.RunConserves(Lift(ops), n);
  }

  /** What was returned for each process, then what is pending, is what it submitted, unit by unit and in order,
      after each of the first n operations. */
  ghost predicate RefinesUpTo(ops: seq<Op>, n: nat)
    requires n <= |ops|
  {
    FairQueue.Refines(AbsHistory(Play(ops, n))) && (n > 0 ==> RefinesUpTo(ops, n - 1))
  }

  /** Each of the first n operations, if it is a submission, fits when it is made. */
  ghost predicate FitsUpTo(ops: seq<Op>, n: nat)
    requires n <= |ops|
  {
    n > 0 ==> (ops[n - 1].Submit? ==> FairQueue.Fits(Abs(Play(ops, n - 1).s), ops[n - 1].req)) && FitsUpTo(ops, n - 1)
  }

  lemma {:induction false} RefinesLifts(ops: seq<Op>, fops: seq<FairQueue.Op>, n: nat)
    requires n <= |ops| && n <= |fops| && Lifts(ops, fops, n)
    ensures RefinesUpTo(ops, n) <==> FairQueue.RefinesUpTo(fops, n)
  {
    RunLifts(ops, fops, n);
    if n > 0 {
      RefinesLifts(ops, fops, n - 1);
    }
  }

  lemma {:induction false} FitsLifts(ops: seq<Op>, fops: seq<FairQueue.Op>, n: nat)
    requires n <= |ops| && n <= |fops| && Lifts(ops, fops, n)
    ensures FitsUpTo(ops, n) <==> FairQueue.FitsUpTo(fops, n)
  {
    if n > 0 {
      RunLifts(ops, fops, n - 1);
      FitsLifts(ops, fops, n - 1);
    }
  }

  /** A run looks like a plain FIFO per process at every point exactly when every merge in it fits in a u32. */
  lemma RefinesExactly(ops: seq<Op>, n: nat)
    requires n <= |ops|
    ensures RefinesUpTo(ops, n) <==> FitsUpTo(ops, n)
  {
    LiftLifts(ops, n);
    RefinesLifts(ops, Lift(ops), n);
    FitsLifts(ops, Lift(ops), n);
    FairQueue.RefinesExactly(Lift(ops), n);
  }

  /** The processes a run serves, from a given state. */
  function Served(s: Sched, ops: seq<Op>): seq<nat>
    decreases |ops|
  {
    if ops == [] then []
    else if ops[0].Submit? then Served(Submitted(s, ops[0].req), ops[1..])
    else
      var (s', o) := Dispatched(s);
      (if o.Some? then [o.value.pid] else []) + Served(s', ops[1..])
  }

  /** At most p processes are queued at every point of the run. */
  ghost predicate AtMost(s: Sched, ops: seq<Op>, p: nat)
    decreases |ops|
  {
    && |s.order| <= p
    && (ops != [] ==>
          if ops[0].Submit? then AtMost(Submitted(s, ops[0].req), ops[1..], p)
          else AtMost(Dispatched(s).0, ops[1..], p))
  }

  function Dispatches(ops: seq<Op>): nat {
    if ops == [] then 0 else (if ops[0].Dispatch? then 1 else 0) + Dispatches(ops[1..])
  }

  function LiftFrom(s: Sched, ops: seq<Op>): seq<FairQueue.Op>
    decreases |ops|
  {
    if ops == [] then []
    else [LiftOp(s, ops[0])] + LiftFrom(Perform(History(s, [], 0, []), ops[0]).s, ops[1..])
  }

  lemma {:induction false} LiftedFuture(s: Sched, ops: seq<Op>, p: nat)
    ensures var fops := LiftFrom(s, ops);
            && FairQueue.Served(Abs(s), fops) == Served(s, ops)
            && (FairQueue.AtMost(Abs(s), fops, p) <==> AtMost(s, ops, p))
            && FairQueue.Dispatches(fops) == Dispatches(ops)
    decreases |ops|
  {
    if ops != [] {
      var s' := Perform(History(s, [], 0, []), ops[0]).s;
      PerformRefines(History(s, [], 0, []), ops[0]);
      LiftedFuture(s', ops[1..], p);
      assert LiftFrom(s, ops)[1..] == LiftFrom(s', ops[1..]);
    }
  }

  /** If at most p processes are ever queued at once, a queued process is served within p * (p - 1) dispatches
      (the first one, if it is alone), whatever arrives meanwhile and however the budgets run out. */
  lemma StarvationFree(past: seq<Op>, s: Sched, future: seq<Op>, x: nat, p: nat)
    requires s == Play(past, |past|).s && x in s.order
    requires AtMost(s, future, p) && Dispatches(future) >= FairQueue.Turns(p)
    ensures x in Served(s, future)
  {
    PlayValid(past, |past|);
    LiftedFuture(s, future, p);
    FairQueue.ServedInTime(Abs(s), LiftFrom(s, future), x, p);
  }

  // ---- Budgets ----

  /** A queue's account: the priority of the request that opened it, and the sectors served on its current budget. */
  datatype Account = Account(prio: Priority, spent: nat)

  /** Real-time weighs 500 less 50 for each level (levels beyond ten wrap in 32 bits), best-effort 200 less 25 for each
      level down to 100, idle 10, and no class 100. */
  ghost predicate Weighs(prio: Priority, w: nat) {
    match prio.cls
    case RealTime => w < 0x1_0000_0000 && (w + 50 * prio.level - 500) % 0x1_0000_0000 == 0
    case BestEffort => w == if prio.level < 4 then 200 - 25 * prio.level else 100
    case Idle => w == 10
    case NoClass => w == 100
  }

  lemma WeighsExactly(prio: Priority)
    ensures Weighs(prio, WeightForPriority(prio))
  {
    if prio.cls.RealTime? {
      var x, m := 500 - 50 * prio.level, 0x1_0000_0000;
      assert x == x / m * m + x % m;
      assert x % m - x == (-(x / m)) * m;
      assert (-(x / m)) * m % m == 0;
    }
  }

  /** The budget of a weight: 128 sectors for every hundred, rounded down. */
  function Share(w: nat): nat {
    128 * w / 100
  }

  /** The accounts of the pending queues. */
  type Ledger = map<nat, Account>

  /** A dispatch of r books its sectors; a queue that is empty is closed, and one that has used up its budget starts over. */
  function Book(l: Ledger, r: IoRequest, left: map<nat, BfqQueue>): Ledger {
    if r.pid !in left then l - {r.pid}
    else if r.pid !in l then l
    else
      var spent := l[r.pid].spent + r.nrSectors;
      l[r.pid := l[r.pid].(spent := if spent >= Share(left[r.pid].weight) then 0 else spent)]
  }

  /** A submission opens an account unless its process has one. */
  function Open(l: Ledger, req: IoRequest): Ledger {
    if req.pid in l then l else l[req.pid := Account(req.priority, 0)]
  }

  function BookStep(l: Ledger, s: Sched, op: Op): Ledger {
    match op
    case Submit(req) => Open(l, req)
    case Dispatch => if Dispatched(s).1.None? then l else Book(l, Dispatched(s).1.value, Dispatched(s).0.queues)
  }

  /** A run with its histories and ledgers. */
  ghost predicate Booked(hs: seq<History>, ls: seq<Ledger>, ops: seq<Op>) {
    && |hs| == |ls| == |ops| + 1
    && hs[0] == History(EMPTY, [], 0, []) && ls[0] == map[]
    && forall i :: 0 <= i < |ops| ==> hs[i + 1] == Perform(hs[i], ops[i]) && ls[i + 1] == BookStep(ls[i], hs[i].s, ops[i])
  }

  /** The queue's weight is that of its account, and its budget, if it has one, is the share of that weight and not yet
      used up by what the account has spent. */
  ghost predicate QueueOk(q: BfqQueue, a: Account) {
    && Weighs(a.prio, q.weight) && q.budgetUsed == a.spent
    && (if q.budget == 0 then q.budgetUsed == 0 else q.budget == Share(q.weight) && q.budgetUsed < q.budget)
  }

  ghost predicate BudgetsOk(s: Sched, l: Ledger) {
    l.Keys == s.queues.Keys && forall pid :: pid in s.queues ==> QueueOk(s.queues[pid], l[pid])
  }

  lemma SubmitBooks(s: Sched, l: Ledger, req: IoRequest)
    requires BudgetsOk(s, l)
    ensures BudgetsOk(Submitted(s, req), Open(l, req))
  {
    WeighsExactly(req.priority);
  }

  lemma ChargedOk(q: BfqQueue, a: Account)
    requires QueueOk(q, a) && |q.requests| >= 2
    ensures var spent := a.spent + q.requests[0].nrSectors;
            QueueOk(Charged(q), a.(spent := if spent >= Share(q.weight) then 0 else spent))
  {
  }

  lemma DispatchBooks(s: Sched, l: Ledger)
    requires BudgetsOk(s, l) && FairQueue.Valid(Abs(s)) && Dispatched(s).1.Some?
    ensures BudgetsOk(Dispatched(s).0, Book(l, Dispatched(s).1.value, Dispatched(s).0.queues))
  {
    var i := if s.rr >= |s.order| then 0 else s.rr;
    var pid := s.order[i];
    assert pid in Abs(s).queues && Abs(s).queues[pid] == s.queues[pid].requests;
    assert Abs(s).queues[pid][0].pid == pid;
    if |s.queues[pid].requests| >= 2 {
      ChargedOk(s.queues[pid], l[pid]);
    }
  }

  lemma NothingMoves(s: Sched)
    requires FairQueue.Valid(Abs(s)) && Dispatched(s).1.None?
    ensures Dispatched(s).0 == s
  {
    DispatchRefines(s);
    FairQueue.DispatchValid(Abs(s), NextExhausts(s));
  }

  lemma StepBooks(h: History, l: Ledger, op: Op)
    requires BudgetsOk(h.s, l) && FairQueue.Valid(Abs(h.s))
    ensures BudgetsOk(Perform(h, op).s, BookStep(l, h.s, op))
  {
    if op.Submit? {
      SubmitBooks(h.s, l, op.req);
    } else if Dispatched(h.s).1.Some? {
      DispatchBooks(h.s, l);
    } else {
      NothingMoves(h.s);
    }
  }

  lemma StepValid(h: History, op: Op)
    requires FairQueue.Valid(Abs(h.s))
    ensures FairQueue.Valid(Abs(Perform(h, op).s))
  {
    PerformRefines(h, op);
    FairQueue.PerformValid(AbsHistory(h), LiftOp(h.s, op));
  }

  /** In every run each queue has the weight of the request that opened it, the budget of that weight, and has used of it
      just the sectors served since it was granted. */
  lemma {:induction false} RunBudgets(hs: seq<History>, ls: seq<Ledger>, ops: seq<Op>, n: nat)
    requires Booked(hs, ls, ops) && n <= |ops|
    ensures BudgetsOk(hs[n].s, ls[n]) && FairQueue.Valid(Abs(hs[n].s))
  {
    if n > 0 {
      RunBudgets(hs, ls, ops, n - 1);
      StepBooks(hs[n - 1], ls[n - 1], ops[n - 1]);
      StepValid(hs[n - 1], ops[n - 1]);
    }
  }

  /** In every run the next dispatch uses up its queue's budget, and so may rewind rr_index, exactly when the sectors
      spent and those of the request reach the share of the queue's weight. */
  lemma ExhaustsExactly(hs: seq<History>, ls: seq<Ledger>, ops: seq<Op>, n: nat)
    requires Booked(hs, ls, ops) && n <= |ops|
    ensures
      var s, l := hs[n].s, ls[n];
      if s.order == [] then !NextExhausts(s)
      else
        var pid := FairQueue.NextPid(Abs(s));
        && pid in s.queues && pid in l && s.queues[pid].requests != []
        && (NextExhausts(s) <==> l[pid].spent + s.queues[pid].requests[0].nrSectors >= Share(s.queues[pid].weight))
  {
    RunBudgets(hs, ls, ops, n);
    var s := hs[n].s;
    if s.order != [] {
      var pid := FairQueue.NextPid(Abs(s));
      assert pid in Abs(s).queues && Abs(s).queues[pid] != [];
    }
  }

  // ---- The scheduler object ----

  class BfqScheduler {
    var queues: map<nat, BfqQueue>
    var order: seq<nat>
    var rrIndex: nat
    var submitted: nat
    var merged: nat

    function View(): Sched
      reads this
    {
      Sched(queues, order, rrIndex)
    }

    constructor ()
      ensures View() == EMPTY && submitted == merged == 0
    {
      queues, order, rrIndex, submitted, merged := map[], [], 0, 0, 0;
    }

    method Submit(req: IoRequest)
      modifies this
      ensures View() == Submitted(old(View()), req)
      ensures submitted == old(submitted) + 1
      ensures merged == old(merged) + if Merges(old(View()), req) then 1 else 0
    {
      submitted := submitted + 1;
      var pid := req.pid;
      var queue := if pid in queues then queues[pid] else BfqQueue([], 0, 0, WeightForPriority(req.priority));
      var n := |queue.requests|;
      if n > 0 && FairQueue.CanMergeBack(queue.requests[n - 1], req) {
        queue := queue.(requests := queue.requests[..n - 1] + [FairQueue.MergeBack(queue.requests[n - 1], req)]);
        queues := queues[pid := queue];
        merged := merged + 1;
        return;
      }
      queue := queue.(requests := queue.requests + [req]);
      queues := queues[pid := queue];
      if pid !in order {
        order := order + [pid];
      }
    }

    method Dispatch() returns (r: Option<IoRequest>)
      modifies this`queues, this`order, this`rrIndex
      ensures (View(), r) == Dispatched(old(View()))
    {
      if order == [] {
        return None;
      }
      if rrIndex >= |order| {
        rrIndex := 0;
      }
      var pid := order[rrIndex];
      rrIndex := rrIndex + 1;
      if pid !in queues {
        return None;
      }
      var queue := queues[pid];
      if queue.budget == 0 {
        queue := queue.(budget := DEFAULT_BUDGET * queue.weight / 100, budgetUsed := 0);
      }
      if queue.requests == [] {
        queues := queues[pid := queue];
        return None;
      }
      var req := queue.requests[0];
      queue := queue.(requests := queue.requests[1..], budgetUsed := queue.budgetUsed + req.nrSectors);
      if queue.budgetUsed >= queue.budget || queue.requests == [] {
        queue := queue.(budget := 0, budgetUsed := 0);
        if queue.requests == [] {
          queues := queues - {pid};
          order := Cfq.RetainOthers(order, pid);
        } else {
          queues := queues[pid := queue];
        }
        if rrIndex >= |order| && order != [] {
          rrIndex := 0;
        }
      } else {
        queues := queues[pid := queue];
      }
      r := Some(req);
    }
  }
}
