/** The part CFQ and BFQ share: one FIFO of requests per process, back merging on submit,
    and a round-robin list walked by rr_index. The two schedulers differ only in when
    rr_index is rewound; `rewind` stands for that choice. */
module FairQueue {
  import opened IoRequests
  import opened Options

  const U32: nat := 0x1_0000_0000
  const U64: nat := 0x1_0000_0000_0000_0000

  datatype Fair = Fair(queues: map<nat, seq<IoRequest>>, order: seq<nat>, rr: nat)

  const EMPTY := Fair(map[], [], 0)

  // ---- Merging ----

  predicate CanMergeBack(a: IoRequest, b: IoRequest) {
    a.direction == b.direction && (a.sector + a.nrSectors) % U64 == b.sector && a.priority.cls == b.priority.cls
  }

  function MergeBack(a: IoRequest, b: IoRequest): IoRequest {
    a.(nrSectors := (a.nrSectors + b.nrSectors) % U32)
  }

  /** What a request asks the device to do, sector by sector. */
  datatype Unit = Unit(direction: Direction, cls: PriorityClass, sector: nat)

  function Expand(r: IoRequest): seq<Unit> {
    seq(r.nrSectors, i requires 0 <= i < r.nrSectors => Unit(r.direction, r.priority.cls, (r.sector + i) % U64))
  }

  function ExpandAll(s: seq<IoRequest>): seq<Unit> {
    if s == [] then [] else Expand(s[0]) + ExpandAll(s[1..])
  }

  /** Merging keeps every sector, in order, exactly when the merged size fits in a u32. */
  lemma MergeExact(a: IoRequest, b: IoRequest)
    requires CanMergeBack(a, b)
    ensures Expand(MergeBack(a, b)) == Expand(a) + Expand(b) <==> a.nrSectors + b.nrSectors < U32
  {
    var m := MergeBack(a, b);
    if a.nrSectors + b.nrSectors < U32 {
      forall i | 0 <= i < m.nrSectors ensures Expand(m)[i] == (Expand(a) + Expand(b))[i] {
        if i >= a.nrSectors {
          ModShift(a.sector + a.nrSectors, i - a.nrSectors);
        }
      }
    } else {
      assert |Expand(m)| < |Expand(a)| + |Expand(b)|;
    }
  }

  lemma ModShift(x: nat, i: nat)
    ensures (x % U64 + i) % U64 == (x + i) % U64
  {
  }

  // ---- The two operations ----

  function QueueOf(s: Fair, pid: nat): seq<IoRequest> {
    if pid in s.queues then s.queues[pid] else []
  }

  predicate Merges(s: Fair, req: IoRequest) {
    var q := QueueOf(s, req.pid);
    q != [] && CanMergeBack(q[|q| - 1], req)
  }

  function Submitted(s: Fair, req: IoRequest): Fair {
    var pid := req.pid;
    var q := QueueOf(s, pid);
    if Merges(s, req) then s.(queues := s.queues[pid := q[..|q| - 1] + [MergeBack(q[|q| - 1], req)]])
    else s.(queues := s.queues[pid := q + [req]], order := if pid in s.order then s.order else s.order + [pid])
  }

  function Without(order: seq<nat>, pid: nat): seq<nat> {
    if order == [] then [] else (if order[0] != pid then [order[0]] else []) + Without(order[1..], pid)
  }

  function Start(s: Fair): nat {
    if s.rr >= |s.order| then 0 else s.rr
  }

  /** The process the round robin serves next. */
  function NextPid(s: Fair): nat
    requires s.order != []
  {
    s.order[Start(s)]
  }

  function Rewound(rr: nat, order: seq<nat>): nat {
    if rr >= |order| && order != [] then 0 else rr
  }

  function Dispatched(s: Fair, rewind: bool): (Fair, Option<IoRequest>) {
    if s.order == [] then (s, None)
    else
      var pid := NextPid(s);
      var s1 := s.(rr := Start(s) + 1);
      if QueueOf(s, pid) == [] then (s1, None)
      else
        var q := s.queues[pid];
        if |q| == 1 then
          var order := Without(s.order, pid);
          (Fair(s.queues - {pid}, order, Rewound(s1.rr, order)), Some(q[0]))
        else
          (s1.(queues := s.queues[pid := q[1..]], rr := if rewind then Rewound(s1.rr, s.order) else s1.rr), Some(q[0]))
  }

  // ---- Representation invariant ----

  ghost predicate NoDuplicates(order: seq<nat>) {
    forall i, j :: 0 <= i < j < |order| ==> order[i] != order[j]
  }

  /** The list and the map hold the same processes, every queue is non-empty, and holds its own process's requests. */
  ghost predicate Valid(s: Fair) {
    && NoDuplicates(s.order)
    && (forall pid :: pid in s.queues <==> pid in s.order)
    && (forall pid :: pid in s.queues ==> s.queues[pid] != [])
    && (forall pid, i :: pid in s.queues && 0 <= i < |s.queues[pid]| ==> s.queues[pid][i].pid == pid)
    && (s.rr <= |s.order| || (s.order == [] && s.rr == 1))
  }

  lemma {:induction false} WithoutAt(order: seq<nat>, i: nat)
    requires NoDuplicates(order) && i < |order|
    ensures Without(order, order[i]) == order[..i] + order[i + 1..]
  {
    if i == 0 {
      WithoutAbsent(order[1..], order[0]);
    } else {
      WithoutAt(order[1..], i - 1);
      assert order == [order[0]] + order[1..];
    }
  }

  lemma {:induction false} WithoutAbsent(order: seq<nat>, pid: nat)
    requires pid !in order
    ensures Without(order, pid) == order
  {
    if order != [] {
      WithoutAbsent(order[1..], pid);
    }
  }

  lemma SubmitValid(s: Fair, req: IoRequest)
    requires Valid(s)
    ensures Valid(Submitted(s, req))
  {
    var s' := Submitted(s, req);
    forall pid, i | pid in s'.queues && 0 <= i < |s'.queues[pid]| ensures s'.queues[pid][i].pid == pid {
      if pid == req.pid && pid in s.queues && i < |s.queues[pid]| {
        assert s.queues[pid][i].pid == pid;
      }
    }
  }

  /** A drained process leaves both the map and its one place in the list. */
  lemma {:induction false} WithoutMember(order: seq<nat>, pid: nat, p: nat)
    ensures p in Without(order, pid) <==> p in order && p != pid
  {
    if order != [] {
      WithoutMember(order[1..], pid, p);
      assert order == [order[0]] + order[1..];
    }
  }

  lemma RemovedNoDuplicates(order: seq<nat>, i: nat)
    requires NoDuplicates(order) && i < |order|
    ensures NoDuplicates(order[..i] + order[i + 1..])
  {
    var left := order[..i] + order[i + 1..];
    forall j, k | 0 <= j < k < |left| ensures left[j] != left[k] {
      assert left[j] == order[if j < i then j else j + 1] && left[k] == order[if k < i then k else k + 1];
    }
  }

  lemma DrainValid(s: Fair, i: nat, rr: nat)
    requires Valid(s) && i < |s.order|
    requires var order := Without(s.order, s.order[i]); rr <= |order| || (order == [] && rr == 1)
    ensures Valid(Fair(s.queues - {s.order[i]}, Without(s.order, s.order[i]), rr))
  {
    WithoutAt(s.order, i);
    RemovedNoDuplicates(s.order, i);
    forall p {
      WithoutMember(s.order, s.order[i], p);
    }
  }

  lemma DispatchValid(s: Fair, rewind: bool)
    requires Valid(s)
    ensures Valid(Dispatched(s, rewind).0)
    ensures Dispatched(s, rewind).1.None? <==> s.order == []
    ensures s.order != [] ==> Dispatched(s, rewind).1.value == s.queues[NextPid(s)][0]
  {
    if s.order != [] {
      var pid := NextPid(s);
      assert pid in s.order;
      if |s.queues[pid]| == 1 {
        var order := Without(s.order, pid);
        WithoutAt(s.order, Start(s));
        DrainValid(s, Start(s), Rewound(Start(s) + 1, order));
      } else {
        var s' := Dispatched(s, rewind).0;
        forall p, i | p in s'.queues && 0 <= i < |s'.queues[p]| ensures s'.queues[p][i].pid == p {
          assert s'.queues[p][i] == s.queues[p][if p == pid then i + 1 else i];
        }
      }
    }
  }

  /** is_empty looks at the queues, dispatch at the list: they agree. */
  lemma EmptyAgrees(s: Fair)
    requires Valid(s)
    ensures (forall pid :: pid in s.queues ==> s.queues[pid] == []) <==> s.order == []
  {
    if s.order != [] {
      assert s.order[0] in s.queues;
    }
  }

  // ---- What the operations do to the queues ----

  /** The request continues the last one of its process: same direction and class, and it starts where that one ends. */
  predicate Continues(q: seq<IoRequest>, req: IoRequest) {
    q != [] &&
    var last := q[|q| - 1];
    && last.direction == req.direction && last.priority.cls == req.priority.cls
    && (last.sector + last.nrSectors == req.sector || last.sector + last.nrSectors == req.sector + 0x1_0000_0000_0000_0000)
  }

  lemma MergesContinuing(s: Fair, req: IoRequest)
    requires req.sector < U64 && forall r :: r in QueueOf(s, req.pid) ==> r.sector < U64 && r.nrSectors < U32
    ensures Merges(s, req) <==> Continues(QueueOf(s, req.pid), req)
  {
    var q := QueueOf(s, req.pid);
    if q != [] {
      assert q[|q| - 1] in q;
    }
  }

  /** A request that continues the last one lengthens it; any other joins the end of its queue. The process joins the end
      of the list if it is not on it, and nothing else moves. */
  lemma SubmitExactly(s: Fair, req: IoRequest)
    requires Valid(s)
    requires req.sector < U64 && forall r :: r in QueueOf(s, req.pid) ==> r.sector < U64 && r.nrSectors < U32
    ensures
      var q, s' := QueueOf(s, req.pid), Submitted(s, req);
      && QueueOf(s', req.pid) ==
         (if Continues(q, req) then q[..|q| - 1] + [q[|q| - 1].(nrSectors := (q[|q| - 1].nrSectors + req.nrSectors) % U32)]
          else q + [req])
      && (forall pid :: pid != req.pid ==> QueueOf(s', pid) == QueueOf(s, pid))
      && s'.order == (if req.pid in s.order then s.order else s.order + [req.pid]) && s'.rr == s.rr
  {
    MergesContinuing(s, req);
  }

  // ---- Whole runs ----

  datatype Op = Submit(req: IoRequest) | Dispatch(rewind: bool)

  datatype History = History(s: Fair, submitted: seq<IoRequest>, merged: nat, returned: seq<IoRequest>)

  function Perform(h: History, op: Op): History {
    match op
    case Submit(req) =>
      h.(s := Submitted(h.s, req), submitted := h.submitted + [req], merged := h.merged + if Merges(h.s, req) then 1 else 0)
    case Dispatch(rewind) =>
      var (s', o) := Dispatched(h.s, rewind);
      h.(s := s', returned := if o.Some? then h.returned + [o.value] else h.returned)
  }

  /** The history after the first n operations. */
  function Play(ops: seq<Op>, n: nat): History
    requires n <= |ops|
  {
    if n == 0 then History(EMPTY, [], 0, []) else Perform(Play(ops, n - 1), ops[n - 1])
  }

  lemma PerformValid(h: History, op: Op)
    requires Valid(h.s)
    ensures Valid(Perform(h, op).s)
  {
    match op
    case Submit(req) => SubmitValid(h.s, req);
    case Dispatch(rewind) => DispatchValid(h.s, rewind);
  }

  lemma {:induction false} PlayValid(ops: seq<Op>, n: nat)
    requires n <= |ops|
    ensures Valid(Play(ops, n).s)
  {
    if n > 0 {
      PlayValid(ops, n - 1);
      PerformValid(Play(ops, n - 1), ops[n - 1]);
    }
  }

  /** After any run dispatch returns nothing exactly when is_empty holds. */
  lemma NoneExactlyWhenEmpty(ops: seq<Op>, rewind: bool)
    ensures var s := Play(ops, |ops|).s;
            Dispatched(s, rewind).1.None? <==> forall pid :: pid in s.queues ==> s.queues[pid] == []
  {
    PlayValid(ops, |ops|);
    DispatchValid(Play(ops, |ops|).s, rewind);
    EmptyAgrees(Play(ops, |ops|).s);
  }

  // ---- Merging refines a plain FIFO per process ----

  function OfPid(s: seq<IoRequest>, pid: nat): seq<IoRequest> {
    if s == [] then [] else if s[0].pid == pid then [s[0]] + OfPid(s[1..], pid) else OfPid(s[1..], pid)
  }

  ghost predicate RefinesFor(h: History, pid: nat) {
    ExpandAll(OfPid(h.returned, pid)) + ExpandAll(QueueOf(h.s, pid)) == ExpandAll(OfPid(h.submitted, pid))
  }

  /** What was returned for a process, then what is pending, is what it submitted, unit by unit and in order. */
  ghost predicate Refines(h: History) {
    forall pid :: RefinesFor(h, pid)
  }

  /** If the request is going to be merged, the merged size fits in a u32. */
  predicate Fits(s: Fair, req: IoRequest) {
    var q := QueueOf(s, req.pid);
    Merges(s, req) ==> q[|q| - 1].nrSectors + req.nrSectors < U32
  }

  lemma {:induction false} ExpandSnoc(s: seq<IoRequest>, r: IoRequest)
    ensures ExpandAll(s + [r]) == ExpandAll(s) + Expand(r)
  {
    if s == [] {
      assert [r][1..] == [];
    } else {
      ExpandSnoc(s[1..], r);
      assert (s + [r])[1..] == s[1..] + [r];
    }
  }

  lemma {:induction false} OfPidSnoc(s: seq<IoRequest>, r: IoRequest, pid: nat)
    ensures OfPid(s + [r], pid) == if r.pid == pid then OfPid(s, pid) + [r] else OfPid(s, pid)
  {
    if s == [] {
      assert [r][1..] == [];
    } else {
      OfPidSnoc(s[1..], r, pid);
      assert (s + [r])[1..] == s[1..] + [r];
    }
  }

  /** A submission adds exactly its own units to its queue if and only if it fits. */
  lemma SubmitUnits(s: Fair, req: IoRequest)
    ensures ExpandAll(QueueOf(Submitted(s, req), req.pid)) == ExpandAll(QueueOf(s, req.pid)) + Expand(req) <==> Fits(s, req)
  {
    var q := QueueOf(s, req.pid);
    if Merges(s, req) {
      var rest, last := q[..|q| - 1], q[|q| - 1];
      MergeExact(last, req);
      ExpandSnoc(rest, MergeBack(last, req));
      ExpandSnoc(rest, last);
      assert rest + [last] == q;
      Cancel(ExpandAll(rest), Expand(MergeBack(last, req)), Expand(last) + Expand(req));
      assert ExpandAll(q) + Expand(req) == ExpandAll(rest) + (Expand(last) + Expand(req));
    } else {
      ExpandSnoc(q, req);
    }
  }

  lemma Cancel(a: seq<Unit>, b: seq<Unit>, c: seq<Unit>)
    ensures a + b == a + c <==> b == c
  {
    if a + b == a + c {
      assert b == (a + b)[|a|..] == (a + c)[|a|..] == c;
    }
  }

  lemma Regroup(a: seq<Unit>, b: seq<Unit>, c: seq<Unit>)
    ensures a + (b + c) == a + b + c
  {
  }

  lemma SubmitRefinesFor(h: History, req: IoRequest, pid: nat)
    requires RefinesFor(h, pid)
    ensures RefinesFor(Perform(h, Submit(req)), pid) <==> (pid == req.pid ==> Fits(h.s, req))
  {
    var h' := Perform(h, Submit(req));
    OfPidSnoc(h.submitted, req, pid);
    if pid == req.pid {
      SubmitUnits(h.s, req);
      ExpandSnoc(OfPid(h.submitted, pid), req);
      var done, before, after := ExpandAll(OfPid(h.returned, pid)), ExpandAll(QueueOf(h.s, pid)), ExpandAll(QueueOf(h'.s, pid));
      Cancel(done, after, before + Expand(req));
      Regroup(done, before, Expand(req));
    }
  }

  lemma SubmitRefines(h: History, req: IoRequest)
    requires Refines(h)
    ensures Refines(Perform(h, Submit(req))) <==> Fits(h.s, req)
  {
    forall pid ensures RefinesFor(Perform(h, Submit(req)), pid) <==> (pid == req.pid ==> Fits(h.s, req)) {
      assert RefinesFor(h, pid);
      SubmitRefinesFor(h, req, pid);
    }
    assert RefinesFor(Perform(h, Submit(req)), req.pid) <==> Fits(h.s, req);
  }

  /** A dispatch takes the head of the next process's queue and leaves the others alone. */
  lemma DispatchQueues(s: Fair, rewind: bool, pid: nat)
    requires Valid(s) && s.order != []
    ensures
      var next := NextPid(s);
      && next in s.queues && s.queues[next] != [] && s.queues[next][0].pid == next
      && Dispatched(s, rewind).1 == Some(s.queues[next][0])
      && QueueOf(Dispatched(s, rewind).0, pid) == (if pid == next then s.queues[next][1..] else QueueOf(s, pid))
  {
    assert NextPid(s) in s.order;
  }

  lemma ServedUnits(done: seq<IoRequest>, q: seq<IoRequest>)
    requires q != []
    ensures ExpandAll(done + [q[0]]) + ExpandAll(q[1..]) == ExpandAll(done) + ExpandAll(q)
  {
    ExpandSnoc(done, q[0]);
    Regroup(ExpandAll(done), Expand(q[0]), ExpandAll(q[1..]));
  }

  lemma DispatchRefinesFor(h: History, rewind: bool, pid: nat)
    requires Valid(h.s) && RefinesFor(h, pid) && h.s.order != []
    ensures RefinesFor(Perform(h, Dispatch(rewind)), pid)
  {
    var next := NextPid(h.s);
    DispatchQueues(h.s, rewind, pid);
    var q := h.s.queues[next];
    OfPidSnoc(h.returned, q[0], pid);
    if pid == next {
      ServedUnits(OfPid(h.returned, pid), q);
    }
  }

  lemma DispatchRefines(h: History, rewind: bool)
    requires Valid(h.s) && Refines(h)
    ensures Refines(Perform(h, Dispatch(rewind)))
  {
    if h.s.order != [] {
      forall pid ensures RefinesFor(Perform(h, Dispatch(rewind)), pid) {
        assert RefinesFor(h, pid);
        DispatchRefinesFor(h, rewind, pid);
      }
    }
  }

  /** The history refines the plain FIFO after each of the first n operations. */
  ghost predicate RefinesUpTo(ops: seq<Op>, n: nat)
    requires n <= |ops|
  {
    Refines(Play(ops, n)) && (n > 0 ==> RefinesUpTo(ops, n - 1))
  }

  /** Each of the first n operations, if it is a submission, fits when it is made. */
  ghost predicate FitsUpTo(ops: seq<Op>, n: nat)
    requires n <= |ops|
  {
    n > 0 ==> (ops[n - 1].Submit? ==> Fits(Play(ops, n - 1).s, ops[n - 1].req)) && FitsUpTo(ops, n - 1)
  }

  lemma StepRefines(ops: seq<Op>, n: nat)
    requires n < |ops| && Refines(Play(ops, n))
    ensures Refines(Play(ops, n + 1)) <==> (ops[n].Submit? ==> Fits(Play(ops, n).s, ops[n].req))
  {
    PlayValid(ops, n);
    match ops[n]
    case Submit(req) => SubmitRefines(Play(ops, n), req);
    case Dispatch(rewind) => DispatchRefines(Play(ops, n), rewind);
  }

  lemma StartRefines(ops: seq<Op>)
    ensures RefinesUpTo(ops, 0)
  {
    forall pid ensures RefinesFor(Play(ops, 0), pid) {
    }
  }

  /** A run looks like a plain FIFO per process at every point exactly when every merge in it fits in a u32. */
  lemma {:induction false} RefinesExactly(ops: seq<Op>, n: nat)
    requires n <= |ops|
    ensures RefinesUpTo(ops, n) <==> FitsUpTo(ops, n)
  {
    if n == 0 {
      StartRefines(ops);
    } else {
      RefinesExactly(ops, n - 1);
      if Refines(Play(ops, n - 1)) {
        StepRefines(ops, n - 1);
      }
    }
  }

  // ---- Conservation ----

  function Backlog(queues: map<nat, seq<IoRequest>>, order: seq<nat>): nat {
    if order == [] then 0
    else (if order[0] in queues then |queues[order[0]]| else 0) + Backlog(queues, order[1..])
  }

  lemma {:induction false} BacklogSplit(queues: map<nat, seq<IoRequest>>, a: seq<nat>, b: seq<nat>)
    ensures Backlog(queues, a + b) == Backlog(queues, a) + Backlog(queues, b)
  {
    if a == [] {
      assert a + b == b;
    } else {
      BacklogSplit(queues, a[1..], b);
      assert (a + b)[1..] == a[1..] + b;
    }
  }

  lemma {:induction false} BacklogFrame(q1: map<nat, seq<IoRequest>>, q2: map<nat, seq<IoRequest>>, order: seq<nat>)
    requires forall p :: p in order ==> (p in q1 <==> p in q2) && (p in q1 ==> |q1[p]| == |q2[p]|)
    ensures Backlog(q1, order) == Backlog(q2, order)
  {
    if order != [] {
      BacklogFrame(q1, q2, order[1..]);
    }
  }

  /** The backlog is the part at position i plus what every map that differs only there agrees on. */
  lemma BacklogAt(q1: map<nat, seq<IoRequest>>, q2: map<nat, seq<IoRequest>>, order: seq<nat>, i: nat)
    requires NoDuplicates(order) && i < |order|
    requires forall p :: p != order[i] ==> (p in q1 <==> p in q2) && (p in q1 ==> q1[p] == q2[p])
    ensures Backlog(q1, order) - (if order[i] in q1 then |q1[order[i]]| else 0)
         == Backlog(q2, order[..i] + order[i + 1..])
  {
    var a, b := order[..i], order[i + 1..];
    assert order == a + ([order[i]] + b);
    BacklogSplit(q1, a, [order[i]] + b);
    BacklogSplit(q1, [order[i]], b);
    BacklogSplit(q2, a, b);
    BacklogFrame(q1, q2, a);
    BacklogFrame(q1, q2, b);
    assert [order[i]][1..] == [];
    assert Backlog(q1, [order[i]]) == if order[i] in q1 then |q1[order[i]]| else 0;
  }

  ghost predicate Conserves(h: History) {
    |h.submitted| - h.merged == |h.returned| + Backlog(h.s.queues, h.s.order)
  }

  lemma SubmitConserves(h: History, req: IoRequest)
    requires Valid(h.s) && Conserves(h)
    ensures Conserves(Perform(h, Submit(req)))
  {
    var s, s', pid := h.s, Submitted(h.s, req), req.pid;
    if pid in s.order {
      var i :| 0 <= i < |s.order| && s.order[i] == pid;
      BacklogAt(s.queues, s.queues, s.order, i);
      BacklogAt(s'.queues, s.queues, s.order, i);
    } else {
      assert pid !in s.queues;
      BacklogSplit(s'.queues, s.order, [pid]);
      BacklogFrame(s'.queues, s.queues, s.order);
      assert [pid][1..] == [];
      assert Backlog(s'.queues, [pid]) == 1;
    }
  }

  lemma DispatchConserves(h: History, rewind: bool)
    requires Valid(h.s) && Conserves(h)
    ensures Conserves(Perform(h, Dispatch(rewind)))
  {
    var s := h.s;
    DispatchValid(s, rewind);
    if s.order != [] {
      var s', i := Dispatched(s, rewind).0, Start(s);
      var pid := s.order[i];
      assert pid in s.queues;
      BacklogAt(s.queues, s'.queues, s.order, i);
      WithoutAt(s.order, i);
      if |s.queues[pid]| > 1 {
        BacklogAt(s'.queues, s'.queues, s.order, i);
      }
    }
  }

  /** Over every run, submitted minus merged requests are the returned plus the pending ones. */
  lemma {:induction false} RunConserves(ops: seq<Op>, n: nat)
    requires n <= |ops|
    ensures Conserves(Play(ops, n))
  {
    if n > 0 {
      RunConserves(ops, n - 1);
      PlayValid(ops, n - 1);
      match ops[n - 1]
      case Submit(req) => SubmitConserves(Play(ops, n - 1), req);
      case Dispatch(rewind) => DispatchConserves(Play(ops, n - 1), rewind);
    }
  }

  // ---- Starvation freedom ----

  /** The dispatches that can pass a process by while it moves down from position q to the front: p for each place,
      one less for the last place of a full list, where draining its neighbour rewinds rr_index. */
  function Climb(q: nat, p: nat): nat {
    if q == 0 then 0 else Climb(q - 1, p) + if q == p - 1 then q else p
  }

  /** The dispatches that can pass by a process at position q when rr_index is at rr. */
  function Patience(q: nat, rr: nat, p: nat): int {
    if rr <= q then Climb(q, p) - rr else Climb(q, p) + p - rr
  }

  lemma {:induction false} ClimbStep(q: nat, p: nat)
    requires 1 <= q < p
    ensures Climb(q, p) == Climb(q - 1, p) + if q == p - 1 then p - 1 else p
    ensures Climb(q, p) >= q && Climb(q - 1, p) >= q - 1
  {
    if q > 1 {
      ClimbStep(q - 1, p);
    }
  }

  lemma {:induction false} ClimbValue(q: nat, p: nat)
    requires q < p
    ensures Climb(q, p) == if q == 0 then 0 else if q == p - 1 then p * q - 1 else p * q
  {
    if q > 0 {
      ClimbValue(q - 1, p);
      assert p * (q - 1) == p * q - p;
    }
  }

  /** Serving another position i either keeps q, or, draining a position before q, moves q down by one; a drain
      within reach of the end, or a rewind there, starts the list over. */
  lemma PatienceStep(n: nat, q: nat, rr: nat, i: nat, q': nat, rr': nat, p: nat)
    requires q < n <= p && rr <= n && i == (if rr >= n then 0 else rr) && i != q
    requires q' == q || (i < q && q' == q - 1)
    requires (rr' == i + 1 && (q' == q - 1 ==> i + 1 < n - 1)) ||
             (rr' == 0 && i + 1 >= n - 1 && (q' == q - 1 || i + 1 == n || q < i))
    ensures 0 <= Patience(q', rr', p) < Patience(q, rr, p)
  {
    if q >= 1 {
      ClimbStep(q, p);
    }
  }

  /** The list and rr_index after a dispatch at position i: a drained process leaves the list, and reaching its end may
      start it over. */
  lemma DispatchOrder(s: Fair, rewind: bool, i: nat)
    requires Valid(s) && s.order != [] && i == Start(s)
    ensures
      var s', drained := Dispatched(s, rewind).0, |QueueOf(s, s.order[i])| == 1;
      && s'.order == (if drained then s.order[..i] + s.order[i + 1..] else s.order)
      && (s'.rr == i + 1 || (s'.rr == 0 && i + 1 >= |s'.order|))
      && (drained && s'.order != [] ==> s'.rr == if i + 1 >= |s'.order| then 0 else i + 1)
  {
    assert s.order[i] in s.order;
    WithoutAt(s.order, i);
  }

  /** A dispatch that does not serve x keeps x queued and uses up patience. */
  lemma DispatchPatience(s: Fair, rewind: bool, x: nat, q: nat, p: nat) returns (q': nat)
    requires Valid(s) && q < |s.order| <= p && s.order[q] == x && NextPid(s) != x
    ensures var s' := Dispatched(s, rewind).0;
            && q' < |s'.order| && s'.order[q'] == x
            && 0 <= Patience(q', s'.rr, p) < Patience(q, s.rr, p)
  {
    var i, s' := Start(s), Dispatched(s, rewind).0;
    DispatchOrder(s, rewind, i);
    q' := if |QueueOf(s, s.order[i])| == 1 && i < q then q - 1 else q;
    PatienceStep(|s.order|, q, s.rr, i, if |QueueOf(s, s.order[i])| == 1 && i < q then q - 1 else q, s'.rr, p);
  }

  /** The processes a run serves, from a given state. */
  function Served(s: Fair, ops: seq<Op>): seq<nat>
    decreases |ops|
  {
    if ops == [] then []
    else if ops[0].Submit? then Served(Submitted(s, ops[0].req), ops[1..])
    else
      var (s', o) := Dispatched(s, ops[0].rewind);
      (if o.Some? then [o.value.pid] else []) + Served(s', ops[1..])
  }

  /** At most p processes are queued at every point of the run. */
  ghost predicate AtMost(s: Fair, ops: seq<Op>, p: nat)
    decreases |ops|
  {
    && |s.order| <= p
    && (ops != [] ==>
          if ops[0].Submit? then AtMost(Submitted(s, ops[0].req), ops[1..], p)
          else AtMost(Dispatched(s, ops[0].rewind).0, ops[1..], p))
  }

  function Dispatches(ops: seq<Op>): nat {
    if ops == [] then 0 else (if ops[0].Dispatch? then 1 else 0) + Dispatches(ops[1..])
  }

  lemma ServesNext(s: Fair, ops: seq<Op>)
    requires Valid(s) && s.order != [] && ops != [] && ops[0].Dispatch?
    ensures Served(s, ops) == [NextPid(s)] + Served(Dispatched(s, ops[0].rewind).0, ops[1..])
  {
    DispatchValid(s, ops[0].rewind);
    assert NextPid(s) in s.order;
    assert s.queues[NextPid(s)][0].pid == NextPid(s);
  }

  lemma PatienceNonNegative(q: nat, rr: nat, p: nat)
    requires q < p && rr <= p
    ensures Patience(q, rr, p) >= 0
  {
    if q >= 1 {
      ClimbStep(q, p);
    }
  }

  lemma {:induction false} PatienceRunsOut(s: Fair, ops: seq<Op>, x: nat, q: nat, p: nat)
    requires Valid(s) && q < |s.order| && s.order[q] == x && AtMost(s, ops, p)
    requires x !in Served(s, ops)
    ensures Dispatches(ops) <= Patience(q, s.rr, p)
    decreases |ops|
  {
    if ops == [] {
      PatienceNonNegative(q, s.rr, p);
    } else if ops[0].Submit? {
      SubmitValid(s, ops[0].req);
      PatienceRunsOut(Submitted(s, ops[0].req), ops[1..], x, q, p);
    } else {
      ServesNext(s, ops);
      assert NextPid(s) in Served(s, ops);
      var q' := DispatchPatience(s, ops[0].rewind, x, q, p);
      DispatchValid(s, ops[0].rewind);
      PatienceRunsOut(Dispatched(s, ops[0].rewind).0, ops[1..], x, q', p);
    }
  }

  lemma {:induction false} ClimbBound(q: nat, p: nat)
    requires q < p
    ensures 0 <= Climb(q, p) <= Climb(p - 1, p)
    ensures q < p - 1 ==> Climb(q, p) + p - 1 <= Climb(p - 1, p)
    decreases p - q
  {
    if q < p - 1 {
      ClimbStep(q + 1, p);
      ClimbBound(q + 1, p);
    }
  }

  /** The dispatches after which every queued process has been served, with at most p of them queued. */
  function Turns(p: nat): nat {
    if p <= 1 then 1 else p * (p - 1)
  }

  lemma PatienceBound(q: nat, rr: nat, p: nat)
    requires q < p && rr <= p
    ensures Patience(q, rr, p) < Turns(p)
  {
    ClimbBound(q, p);
    ClimbValue(p - 1, p);
  }

  /** If at most p processes are ever queued at once, a queued process is served within p * (p - 1) dispatches
      (the first one, if it is alone), whatever arrives meanwhile. */
  lemma StarvationFree(past: seq<Op>, s: Fair, future: seq<Op>, x: nat, p: nat)
    requires s == Play(past, |past|).s && x in s.order
    requires AtMost(s, future, p) && Dispatches(future) >= Turns(p)
    ensures x in Served(s, future)
  {
    PlayValid(past, |past|);
    ServedInTime(s, future, x, p);
  }

  lemma ServedInTime(s: Fair, future: seq<Op>, x: nat, p: nat)
    requires Valid(s) && x in s.order && AtMost(s, future, p) && Dispatches(future) >= Turns(p)
    ensures x in Served(s, future)
  {
    if x !in Served(s, future) {
      var q :| 0 <= q < |s.order| && s.order[q] == x;
      PatienceRunsOut(s, future, x, q, p);
      PatienceBound(q, s.rr, p);
    }
  }

  // ---- What rewinding changes ----

  /** Same queues, same list, same process next: rr_index may still differ at the end of the list. */
  predicate SameTurn(s: Fair, t: Fair) {
    s.queues == t.queues && s.order == t.order && Start(s) == Start(t)
  }

  lemma SameTurnStep(s: Fair, t: Fair, rs: bool, rt: bool)
    requires SameTurn(s, t)
    ensures Dispatched(s, rs).1 == Dispatched(t, rt).1 && SameTurn(Dispatched(s, rs).0, Dispatched(t, rt).0)
  {
  }

  /** What a row of dispatches returns, each with its own choice of rewinding. */
  function Returned(s: Fair, rewinds: seq<bool>): seq<Option<IoRequest>>
    decreases |rewinds|
  {
    if rewinds == [] then []
    else [Dispatched(s, rewinds[0]).1] + Returned(Dispatched(s, rewinds[0]).0, rewinds[1..])
  }

  /** Between two arrivals rewinding is invisible: BFQ's budgets do not change what is returned, nor its order. */
  lemma {:induction false} RewindInvisible(s: Fair, t: Fair, rs: seq<bool>, rt: seq<bool>)
    requires SameTurn(s, t) && |rs| == |rt|
    ensures Returned(s, rs) == Returned(t, rt)
    decreases |rs|
  {
    if rs != [] {
      SameTurnStep(s, t, rs[0], rt[0]);
      RewindInvisible(Dispatched(s, rs[0]).0, Dispatched(t, rt[0]).0, rs[1..], rt[1..]);
    }
  }

  /** An arrival sees it: after a dispatch at the end of the list, the newcomer goes next unless rr_index was rewound. */
  lemma ArrivalSeesRewind(s: Fair, req: IoRequest, rewind: bool)
    requires Valid(s) && s.order != [] && Start(s) == |s.order| - 1 && |QueueOf(s, NextPid(s))| >= 2
    requires req.pid !in s.order
    ensures NextPid(Submitted(Dispatched(s, rewind).0, req)) == if rewind then s.order[0] else req.pid
  {
    var s1 := Dispatched(s, rewind).0;
    assert s1.order == s.order;
    assert QueueOf(s1, req.pid) == [];
    assert Submitted(s1, req).order == s.order + [req.pid];
  }
}
