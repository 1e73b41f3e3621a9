/** The Kyber scheduler: three FIFOs whose queue depths are tuned by completion latencies. */
module Kyber {
  import opened IoRequests
  import opened Options

  const READ_TARGET: nat := 2000
  const WRITE_TARGET: nat := 10000
  const READ_DEPTH_MAX: nat := 1024
  const WRITE_DEPTH_MAX: nat := 512
  const DISCARD_DEPTH: nat := 64

  datatype Lane = Reads | Writes | Discards

  /** Flushes travel with the writes. */
  function LaneOf(d: Direction): Lane {
    match d
    case Read => Reads
    case Write | Flush => Writes
    case Discard => Discards
  }

  datatype Sched = Sched(
    readQueue: seq<IoRequest>, writeQueue: seq<IoRequest>, discardQueue: seq<IoRequest>,
    readDepth: nat, writeDepth: nat,
    readInflight: nat, writeInflight: nat, discardInflight: nat,
    completed: nat, avgLatency: nat, maxLatency: nat)
  {
    function Queue(lane: Lane): seq<IoRequest> {
      match lane
      case Reads => readQueue
      case Writes => writeQueue
      case Discards => discardQueue
    }

    function Depth(lane: Lane): nat {
      match lane
      case Reads => readDepth
      case Writes => writeDepth
      case Discards => DISCARD_DEPTH
    }

    function Inflight(lane: Lane): nat {
      match lane
      case Reads => readInflight
      case Writes => writeInflight
      case Discards => discardInflight
    }
  }

  const EMPTY := Sched([], [], [], 256, 128, 0, 0, 0, 0, 0, 0)

  // ---- The scheduler object ----

  class KyberScheduler {
    var readQueue: seq<IoRequest>
    var writeQueue: seq<IoRequest>
    var discardQueue: seq<IoRequest>
    var readDepth: nat
    var writeDepth: nat
    var readInflight: nat
    var writeInflight: nat
    var discardInflight: nat
    var completed: nat
    var avgLatency: nat
    var maxLatency: nat

    function View(): Sched
      reads this
    {
      Sched(readQueue, writeQueue, discardQueue, readDepth, writeDepth,
            readInflight, writeInflight, discardInflight, completed, avgLatency, maxLatency)
    }

    constructor ()
      ensures View() == EMPTY
    {
      readQueue, writeQueue, discardQueue := [], [], [];
      readDepth, writeDepth := 256, 128;
      readInflight, writeInflight, discardInflight := 0, 0, 0;
      completed, avgLatency, maxLatency := 0, 0, 0;
    }

    method Submit(req: IoRequest)
      modifies this
      ensures View() == Submitted(old(View()), req)
    {
      match req.direction
      case Read => readQueue := readQueue + [req];
      case Write => writeQueue := writeQueue + [req];
      case Discard => discardQueue := discardQueue + [req];
      case Flush => writeQueue := writeQueue + [req];
    }

    method Dispatch() returns (r: Option<IoRequest>)
      modifies this
      ensures (View(), r) == Dispatched(old(View()))
    {
      if readInflight < readDepth && readQueue != [] {
        r := Some(readQueue[0]);
        readQueue := readQueue[1..];
        readInflight := readInflight + 1;
        return;
      }
      if writeInflight < writeDepth && writeQueue != [] {
        r := Some(writeQueue[0]);
        writeQueue := writeQueue[1..];
        writeInflight := writeInflight + 1;
        return;
      }
      if discardInflight < DISCARD_DEPTH && discardQueue != [] {
        r := Some(discardQueue[0]);
        discardQueue := discardQueue[1..];
        discardInflight := discardInflight + 1;
        return;
      }
      r := None;
    }

    method Complete(req: IoRequest, latency: nat)
      modifies this
      ensures View() == Completed(old(View()), req, latency)
    {
      completed := completed + 1;
      match req.direction {
        case Read =>
          readInflight := Less(readInflight);
          readDepth := Tuned(readDepth, latency > READ_TARGET, READ_DEPTH_MAX);
        case Write | Flush =>
          writeInflight := Less(writeInflight);
          writeDepth := Tuned(writeDepth, latency > WRITE_TARGET, WRITE_DEPTH_MAX);
        case Discard =>
          discardInflight := Less(discardInflight);
      }
      if latency > maxLatency {
        maxLatency := latency;
      }
      avgLatency := Averaged(avgLatency, completed, latency);
    }
  }

  // ---- The operations as functions ----

  function Submitted(s: Sched, req: IoRequest): Sched {
    match LaneOf(req.direction)
    case Reads => s.(readQueue := s.readQueue + [req])
    case Writes => s.(writeQueue := s.writeQueue + [req])
    case Discards => s.(discardQueue := s.discardQueue + [req])
  }

  predicate Ready(s: Sched, lane: Lane) {
    s.Inflight(lane) < s.Depth(lane) && s.Queue(lane) != []
  }

  /** Reads before writes before discards. */
  function Choose(s: Sched): Option<Lane> {
    if Ready(s, Reads) then Some(Reads)
    else if Ready(s, Writes) then Some(Writes)
    else if Ready(s, Discards) then Some(Discards)
    else None
  }

  function Dispatched(s: Sched): (Sched, Option<IoRequest>) {
    match Choose(s)
    case None => (s, None)
    case Some(Reads) => (s.(readQueue := s.readQueue[1..], readInflight := s.readInflight + 1), Some(s.readQueue[0]))
    case Some(Writes) => (s.(writeQueue := s.writeQueue[1..], writeInflight := s.writeInflight + 1), Some(s.writeQueue[0]))
    case Some(Discards) =>
      (s.(discardQueue := s.discardQueue[1..], discardInflight := s.discardInflight + 1), Some(s.discardQueue[0]))
  }

  function Less(n: nat): nat {
    if n > 0 then n - 1 else 0
  }

  function Tuned(depth: nat, slow: bool, most: nat): nat {
    if slow then if depth * 3 / 4 > 1 then depth * 3 / 4 else 1
    else if depth + 1 < most then depth + 1 else most
  }

  /** The running average after the n-th completion, in integer division. */
  function Averaged(avg: nat, n: nat, latency: nat): nat
    requires n >= 1
  {
    Quotient(avg * (n - 1) + latency, n)
  }

  function Quotient(a: nat, b: nat): nat
    requires b >= 1
  {
    a / b
  }

  function Completed(s: Sched, req: IoRequest, latency: nat): Sched {
    var n := s.completed + 1;
    var t := s.(
      completed := n,
      maxLatency := if latency > s.maxLatency then latency else s.maxLatency,
      avgLatency := Averaged(s.avgLatency, n, latency));
    match LaneOf(req.direction)
    case Reads => t.(readInflight := Less(s.readInflight), readDepth := Tuned(s.readDepth, latency > READ_TARGET, READ_DEPTH_MAX))
    case Writes => t.(writeInflight := Less(s.writeInflight), writeDepth := Tuned(s.writeDepth, latency > WRITE_TARGET, WRITE_DEPTH_MAX))
    case Discards => t.(discardInflight := Less(s.discardInflight))
  }

  // ---- Whole runs ----

  /** Complete(i, latency) completes the i-th request still in flight. */
  datatype Op = Submit(req: IoRequest) | Dispatch | Complete(i: nat, latency: nat)

  datatype History = History(s: Sched, submitted: seq<IoRequest>, returned: seq<IoRequest>, flying: seq<IoRequest>, latencies: nat)

  predicate Allowed(h: History, op: Op) {
    op.Complete? ==> op.i < |h.flying|
  }

  function Perform(h: History, op: Op): History
    requires Allowed(h, op)
  {
    match op
    case Submit(req) => h.(s := Submitted(h.s, req), submitted := h.submitted + [req])
    case Dispatch =>
      var (s', o) := Dispatched(h.s);
      if o.None? then h.(s := s') else h.(s := s', returned := h.returned + [o.value], flying := h.flying + [o.value])
    case Complete(i, latency) =>
      h.(s := Completed(h.s, h.flying[i], latency), flying := h.flying[..i] + h.flying[i + 1..], latencies := h.latencies + latency)
  }

  const START := History(EMPTY, [], [], [], 0)

  /** hs are the histories along a run in which every request is completed at most once. */
  ghost predicate Run(hs: seq<History>, ops: seq<Op>) {
    && |hs| == |ops| + 1
    && hs[0] == START
    && forall i :: 0 <= i < |ops| ==> Allowed(hs[i], ops[i]) && hs[i + 1] == Perform(hs[i], ops[i])
  }

  function InLane(s: seq<IoRequest>, lane: Lane): seq<IoRequest> {
    if s == [] then [] else if LaneOf(s[0].direction) == lane then [s[0]] + InLane(s[1..], lane) else InLane(s[1..], lane)
  }

  lemma {:induction false} InLaneSplit(a: seq<IoRequest>, b: seq<IoRequest>, lane: Lane)
    ensures InLane(a + b, lane) == InLane(a, lane) + InLane(b, lane)
  {
    if a == [] {
      assert a + b == b;
    } else {
      InLaneSplit(a[1..], b, lane);
      assert (a + b)[1..] == a[1..] + b;
    }
  }

  lemma InLaneSnoc(s: seq<IoRequest>, r: IoRequest, lane: Lane)
    ensures InLane(s + [r], lane) == if LaneOf(r.direction) == lane then InLane(s, lane) + [r] else InLane(s, lane)
  {
    InLaneSplit(s, [r], lane);
    assert [r][1..] == [];
  }

  lemma InLaneRemove(s: seq<IoRequest>, i: nat, lane: Lane)
    requires i < |s|
    ensures |InLane(s[..i] + s[i + 1..], lane)| == |InLane(s, lane)| - if LaneOf(s[i].direction) == lane then 1 else 0
  {
    InLaneSplit(s[..i], s[i + 1..], lane);
    InLaneSplit(s[..i], s[i..], lane);
    assert s[..i] + s[i..] == s;
  }

  /** Per lane: what was submitted is what was returned followed by what is queued, and the in-flight count is exact. */
  ghost predicate LaneOk(h: History, lane: Lane) {
    && InLane(h.submitted, lane) == InLane(h.returned, lane) + h.s.Queue(lane)
    && h.s.Inflight(lane) == |InLane(h.flying, lane)|
    && (forall i :: 0 <= i < |h.s.Queue(lane)| ==> LaneOf(h.s.Queue(lane)[i].direction) == lane)
  }

  ghost predicate DepthsOk(s: Sched) {
    1 <= s.readDepth <= READ_DEPTH_MAX && 1 <= s.writeDepth <= WRITE_DEPTH_MAX
  }

  /** The running average falls behind the true mean by less than (n-1)/2, and never exceeds the maximum. */
  ghost predicate AverageOk(h: History) {
    var n := h.s.completed;
    && 0 <= 2 * (h.latencies - n * h.s.avgLatency)
    && 2 * (h.latencies - n * h.s.avgLatency) <= n * (n - 1)
    && h.s.avgLatency <= h.s.maxLatency
  }

  ghost predicate Inv(h: History) {
    && (forall lane :: LaneOk(h, lane))
    && DepthsOk(h.s)
    && AverageOk(h)
    && |h.returned| == |h.flying| + h.s.completed
  }

  lemma SubmitLane(h: History, req: IoRequest, lane: Lane)
    requires LaneOk(h, lane)
    ensures LaneOk(Perform(h, Submit(req)), lane)
  {
    InLaneSnoc(h.submitted, req, lane);
    if LaneOf(req.direction) == lane {
      assert InLane(h.returned, lane) + (h.s.Queue(lane) + [req]) == InLane(h.returned, lane) + h.s.Queue(lane) + [req];
    }
  }

  lemma HeadMoves(a: seq<IoRequest>, q: seq<IoRequest>)
    requires q != []
    ensures a + [q[0]] + q[1..] == a + q
  {
    assert q == [q[0]] + q[1..];
  }

  /** A dispatch takes the head of the chosen lane and leaves the others alone. */
  lemma DispatchQueues(s: Sched, lane: Lane)
    requires Choose(s).Some?
    ensures
      var from, s' := Choose(s).value, Dispatched(s).0;
      && s.Queue(from) != [] && Dispatched(s).1 == Some(s.Queue(from)[0])
      && s'.Queue(lane) == (if lane == from then s.Queue(from)[1..] else s.Queue(lane))
      && s'.Inflight(lane) == s.Inflight(lane) + if lane == from then 1 else 0
  {
  }

  lemma DispatchLane(h: History, lane: Lane)
    requires LaneOk(h, lane) && Choose(h.s).Some? && LaneOk(h, Choose(h.s).value)
    ensures LaneOk(Perform(h, Dispatch), lane)
  {
    var from := Choose(h.s).value;
    DispatchQueues(h.s, lane);
    var q := h.s.Queue(from);
    assert LaneOf(q[0].direction) == from;
    InLaneSnoc(h.returned, q[0], lane);
    InLaneSnoc(h.flying, q[0], lane);
    if lane == from {
      HeadMoves(InLane(h.returned, lane), q);
    }
  }

  lemma CompleteLane(h: History, i: nat, latency: nat, lane: Lane)
    requires LaneOk(h, lane) && i < |h.flying|
    ensures LaneOk(Perform(h, Complete(i, latency)), lane)
  {
    InLaneRemove(h.flying, i, lane);
  }

  lemma QuotientBound(total: nat, m: nat, most: nat)
    requires m >= 1 && total <= m * most
    ensures total / m <= most
  {
  }

  lemma MulMono(m: nat, a: nat, b: nat)
    requires a <= b
    ensures m * a <= m * b
  {
  }

  /** One more completion adds the remainder of the division, at most n, to the accumulated error. */
  lemma AverageStep(sum: nat, n: nat, avg: nat, x: nat)
    requires 0 <= 2 * (sum - n * avg) <= n * (n - 1)
    ensures 0 <= 2 * (sum + x - (n + 1) * Averaged(avg, n + 1, x)) <= (n + 1) * n
  {
    var m, total := n + 1, avg * n + x;
    var avg', rem := total / m, total % m;
    assert total == m * avg' + rem && 0 <= rem <= n;
    assert sum + x - m * avg' == sum - n * avg + rem;
    assert n * (n - 1) + 2 * n == m * n;
  }

  lemma AverageBelowMax(n: nat, avg: nat, most: nat, x: nat)
    requires avg <= most && x <= most
    ensures Averaged(avg, n + 1, x) <= most
  {
    MulMono(n, avg, most);
    assert avg * n + x <= (n + 1) * most;
    QuotientBound(avg * n + x, n + 1, most);
  }

  lemma CompleteAverage(h: History, i: nat, latency: nat)
    requires AverageOk(h) && i < |h.flying|
    ensures AverageOk(Perform(h, Complete(i, latency)))
  {
    var s, s' := h.s, Perform(h, Complete(i, latency)).s;
    AverageStep(h.latencies, s.completed, s.avgLatency, latency);
    AverageBelowMax(s.completed, s.avgLatency, s'.maxLatency, latency);
  }

  lemma InvStep(h: History, op: Op)
    requires Inv(h) && Allowed(h, op)
    ensures Inv(Perform(h, op))
  {
    var h' := Perform(h, op);
    match op
    case Submit(req) =>
      forall lane ensures LaneOk(h', lane) {
        SubmitLane(h, req, lane);
      }
    case Dispatch =>
      if Choose(h.s).Some? {
        forall lane ensures LaneOk(h', lane) {
          DispatchLane(h, lane);
        }
      }
    case Complete(i, latency) =>
      forall lane ensures LaneOk(h', lane) {
        CompleteLane(h, i, latency, lane);
      }
      CompleteAverage(h, i, latency);
  }

  /** Over every run that completes each dispatched request at most once: depths stay in range, per-lane order and
      in-flight counts are exact, and the running average stays within n(n-1)/2 of the latency sum. */
  lemma {:induction false} RunInv(hs: seq<History>, ops: seq<Op>, i: nat)
    requires Run(hs, ops) && i < |hs|
    ensures Inv(hs[i])
  {
    if i > 0 {
      RunInv(hs, ops, i - 1);
      InvStep(hs[i - 1], ops[i - 1]);
    } else {
      forall lane ensures LaneOk(START, lane) {
      }
    }
  }

  /** A queue with nothing of its lane in flight never blocks the dispatcher. */
  lemma NeverStuck(hs: seq<History>, ops: seq<Op>, i: nat, lane: Lane)
    requires Run(hs, ops) && i < |hs|
    requires hs[i].s.Queue(lane) != [] && InLane(hs[i].flying, lane) == []
    ensures Dispatched(hs[i].s).1.Some?
  {
    RunInv(hs, ops, i);
    assert LaneOk(hs[i], lane);
    assert Ready(hs[i].s, lane);
  }

  // ---- How the depths adapt ----

  /** The latency, in microseconds, above which a completion in the lane is slow. */
  function Target(lane: Lane): nat {
    if lane.Reads? then 2000 else 10000
  }

  function Cap(lane: Lane): nat {
    if lane.Reads? then 1024 else 512
  }

  function InitialDepth(lane: Lane): nat {
    if lane.Reads? then 256 else 128
  }

  /** The operation completes a request of this lane. */
  predicate Completes(h: History, op: Op, lane: Lane) {
    op.Complete? && op.i < |h.flying| && LaneOf(h.flying[op.i].direction) == lane
  }

  /** Only a completion in the lane moves its depth. */
  lemma DepthStep(h: History, op: Op, lane: Lane)
    requires Allowed(h, op) && !lane.Discards?
    ensures Perform(h, op).s.Depth(lane) ==
            if Completes(h, op, lane) then Tuned(h.s.Depth(lane), op.latency > Target(lane), Cap(lane)) else h.s.Depth(lane)
  {
  }

  /** The completions in the lane from point i of a run to point j. */
  function Completions(hs: seq<History>, ops: seq<Op>, i: nat, j: nat, lane: Lane): nat
    requires |hs| == |ops| + 1 && i <= j <= |ops|
  {
    if i == j then 0
    else Completions(hs, ops, i, j - 1, lane) + if Completes(hs[j - 1], ops[j - 1], lane) then 1 else 0
  }

  /** Every completion in the lane between the two points is slow, or every one is fast. */
  ghost predicate AllOf(hs: seq<History>, ops: seq<Op>, i: nat, j: nat, lane: Lane, slow: bool)
    requires |hs| == |ops| + 1 && i <= j <= |ops|
  {
    forall k :: i <= k < j && Completes(hs[k], ops[k], lane) ==> (ops[k].latency > Target(lane) <==> slow)
  }

  /** Between two points of any run, whatever else happens, fast completions raise the lane's depth by exactly one each
      until it reaches the cap. */
  lemma {:induction false} FastRecovers(hs: seq<History>, ops: seq<Op>, i: nat, j: nat, lane: Lane)
    requires Run(hs, ops) && i <= j <= |ops| && !lane.Discards? && AllOf(hs, ops, i, j, lane, false)
    ensures var d := hs[i].s.Depth(lane) + Completions(hs, ops, i, j, lane);
            hs[j].s.Depth(lane) == if d < Cap(lane) then d else Cap(lane)
    decreases j
  {
    if i == j {
      RunInv(hs, ops, i);
    } else {
      FastRecovers(hs, ops, i, j - 1, lane);
      DepthStep(hs[j - 1], ops[j - 1], lane);
    }
  }

  /** A scheduler that has seen only fast completions in a lane has that lane's initial depth plus one for each. */
  lemma FastFromStart(hs: seq<History>, ops: seq<Op>, j: nat, lane: Lane)
    requires Run(hs, ops) && j <= |ops| && !lane.Discards? && AllOf(hs, ops, 0, j, lane, false)
    ensures var d := InitialDepth(lane) + Completions(hs, ops, 0, j, lane);
            hs[j].s.Depth(lane) == if d < Cap(lane) then d else Cap(lane)
  {
    FastRecovers(hs, ops, 0, j, lane);
  }

  /** after is three quarters of before, rounded down, but at least one. */
  predicate CutByQuarter(before: nat, after: nat) {
    if before <= 2 then after == 1 else 4 * after <= 3 * before < 4 * after + 4
  }

  /** In every run a slow completion cuts its lane's depth by a quarter, and nothing else lowers a depth. */
  lemma SlowCuts(hs: seq<History>, ops: seq<Op>, j: nat, lane: Lane)
    requires Run(hs, ops) && j < |ops| && !lane.Discards?
    ensures if Completes(hs[j], ops[j], lane) && ops[j].latency > Target(lane)
            then CutByQuarter(hs[j].s.Depth(lane), hs[j + 1].s.Depth(lane))
            else hs[j].s.Depth(lane) <= hs[j + 1].s.Depth(lane)
  {
    RunInv(hs, ops, j);
    DepthStep(hs[j], ops[j], lane);
  }

  function Pow(b: nat, n: nat): nat {
    if n == 0 then 1 else b * Pow(b, n - 1)
  }

  /** n cuts by a quarter: at most (3/4)^n of the depth is left, unless it is one, and no less than that minus four. */
  ghost predicate CutTimes(before: nat, after: nat, n: nat) {
    && after >= 1
    && (after == 1 || Pow(4, n) * after <= Pow(3, n) * before)
    && Pow(4, n) * (after + 4) >= Pow(3, n) * before
  }

  lemma CutLower(p3: nat, p4: nat, before: nat, mid: nat, after: nat)
    requires p4 * (mid + 4) >= p3 * before && 4 * (after + 4) >= 3 * (mid + 4)
    ensures 4 * p4 * (after + 4) >= 3 * p3 * before
  {
    Scale(p4, 3 * (mid + 4), 4 * (after + 4));
    assert p4 * (3 * (mid + 4)) == 3 * (p4 * (mid + 4)) && p4 * (4 * (after + 4)) == 4 * p4 * (after + 4);
  }

  lemma CutUpper(p3: nat, p4: nat, before: nat, mid: nat, after: nat)
    requires p4 * mid <= p3 * before && 4 * after <= 3 * mid
    ensures 4 * p4 * after <= 3 * p3 * before
  {
    Scale(p4, 4 * after, 3 * mid);
    assert p4 * (4 * after) == 4 * p4 * after && p4 * (3 * mid) == 3 * (p4 * mid);
  }

  lemma Scale(p: nat, x: nat, y: nat)
    requires x <= y
    ensures p * x <= p * y
  {
  }

  lemma CutOnce(before: nat, mid: nat, after: nat, n: nat)
    requires CutTimes(before, mid, n) && CutByQuarter(mid, after)
    ensures CutTimes(before, after, n + 1)
  {
    CutLower(Pow(3, n), Pow(4, n), before, mid, after);
    if after > 1 {
      CutUpper(Pow(3, n), Pow(4, n), before, mid, after);
    }
  }

  /** Between two points of any run n slow completions in a lane, whatever else happens, cut its depth n times by a
      quarter. */
  lemma {:induction false} SlowShrinks(hs: seq<History>, ops: seq<Op>, i: nat, j: nat, lane: Lane)
    requires Run(hs, ops) && i <= j <= |ops| && !lane.Discards? && AllOf(hs, ops, i, j, lane, true)
    ensures CutTimes(hs[i].s.Depth(lane), hs[j].s.Depth(lane), Completions(hs, ops, i, j, lane))
    decreases j
  {
    if i == j {
      RunInv(hs, ops, i);
    } else {
      SlowShrinks(hs, ops, i, j - 1, lane);
      DepthStep(hs[j - 1], ops[j - 1], lane);
      if Completes(hs[j - 1], ops[j - 1], lane) {
        SlowCuts(hs, ops, j - 1, lane);
        CutOnce(hs[i].s.Depth(lane), hs[j - 1].s.Depth(lane), hs[j].s.Depth(lane), Completions(hs, ops, i, j - 1, lane));
      }
    }
  }

  // ---- Priority ----

  function Rank(lane: Lane): nat {
    match lane
    case Reads => 0
    case Writes => 1
    case Discards => 2
  }

  /** In every run a dispatched request heads its own lane, and each lane before it is empty or at its depth. */
  lemma DispatchPriority(hs: seq<History>, ops: seq<Op>, i: nat, other: Lane)
    requires Run(hs, ops) && i < |hs| && Dispatched(hs[i].s).1.Some?
    ensures
      var s, r := hs[i].s, Dispatched(hs[i].s).1.value;
      var lane := LaneOf(r.direction);
      && s.Queue(lane) != [] && r == s.Queue(lane)[0] && s.Inflight(lane) < s.Depth(lane)
      && (Rank(other) < Rank(lane) ==> s.Queue(other) == [] || s.Inflight(other) >= s.Depth(other))
  {
    RunInv(hs, ops, i);
    assert LaneOk(hs[i], Choose(hs[i].s).value);
  }
}
