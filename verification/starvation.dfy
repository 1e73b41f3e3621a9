/** How long the round robin can pass one process by: the bound p * (p - 1) is exact.

    The slow run keeps p processes queued, each with one request. Serving a process that is given another request first
    leaves the list alone; draining the neighbour in front of x moves x under rr_index, and the neighbour rejoins. */
module Starvation {
  import opened IoRequests
  import opened Options
  import opened FairQueue

  /** A request that never merges with another of its kind. */
  function Req(pid: nat): IoRequest {
    IoRequest(0, Read, 0, 1, Priority(NoClass, 0), pid, 0)
  }

  /** Every listed process has exactly one request pending. */
  function Singles(order: seq<nat>, rr: nat): Fair {
    Fair(map pid | pid in order :: [Req(pid)], order, rr)
  }

  /** From s, some run without rewinding has k dispatches, never more than p processes queued, and never serves x. */
  ghost predicate Starves(s: Fair, x: nat, p: nat, k: nat) {
    exists ops :: StarvesBy(s, ops, x, p, k)
  }

  ghost predicate StarvesBy(s: Fair, ops: seq<Op>, x: nat, p: nat, k: nat) {
    Unwound(ops) && AtMost(s, ops, p) && Dispatches(ops) == k && x !in Served(s, ops)
  }

  /** CFQ's runs: no dispatch rewinds. */
  ghost predicate Unwound(ops: seq<Op>) {
    forall i :: 0 <= i < |ops| ==> ops[i] != Dispatch(true)
  }

  lemma SubmitFirst(s: Fair, req: IoRequest, x: nat, p: nat, k: nat)
    requires |s.order| <= p && Starves(Submitted(s, req), x, p, k)
    ensures Starves(s, x, p, k)
  {
    var rest :| StarvesBy(Submitted(s, req), rest, x, p, k);
    var ops := [Submit(req)] + rest;
    assert ops[1..] == rest;
    assert StarvesBy(s, ops, x, p, k);
  }

  lemma DispatchFirst(s: Fair, x: nat, p: nat, k: nat)
    requires |s.order| <= p && Starves(Dispatched(s, false).0, x, p, k)
    requires Dispatched(s, false).1.Some? ==> Dispatched(s, false).1.value.pid != x
    ensures Starves(s, x, p, k + 1)
  {
    var rest :| StarvesBy(Dispatched(s, false).0, rest, x, p, k);
    var ops := [Dispatch(false)] + rest;
    assert ops[1..] == rest;
    assert StarvesBy(s, ops, x, p, k + 1);
  }

  /** Serving position i of the list after giving it a second request. */
  lemma PassOne(order: seq<nat>, rr: nat, i: nat, x: nat, p: nat, k: nat)
    requires i < |order| <= p && Start(Singles(order, rr)) == i && order[i] != x
    requires Starves(Singles(order, i + 1), x, p, k)
    ensures Starves(Singles(order, rr), x, p, k + 1)
  {
    var s, a := Singles(order, rr), order[i];
    var s1 := Submitted(s, Req(a));
    assert a in s.queues && QueueOf(s, a) == [Req(a)] && !Merges(s, Req(a));
    assert s1 == s.(queues := s.queues[a := [Req(a)] + [Req(a)]]);
    var s2 := Dispatched(s1, false).0;
    assert ([Req(a)] + [Req(a)])[1..] == [Req(a)];
    assert s2.queues == s.queues;
    assert s2 == Singles(order, i + 1);
    DispatchFirst(s1, x, p, k);
    SubmitFirst(s, Req(a), x, p, k + 1);
  }

  /** The list after the process at position i was drained and joined again. */
  function Rejoined(order: seq<nat>, i: nat): seq<nat>
    requires i < |order|
  {
    order[..i] + order[i + 1..] + [order[i]]
  }

  lemma SameProcesses(order: seq<nat>, i: nat)
    requires i < |order|
    ensures forall pid :: pid in Rejoined(order, i) <==> pid in order
  {
    assert order == order[..i] + [order[i]] + order[i + 1..];
  }

  lemma Drains(order: seq<nat>, rr: nat, i: nat)
    requires NoDuplicates(order) && i < |order| && |order| >= 2 && Start(Singles(order, rr)) == i
    ensures Dispatched(Singles(order, rr), false) ==
            (Fair(Singles(order, rr).queues - {order[i]}, order[..i] + order[i + 1..], if i + 1 < |order| - 1 then i + 1 else 0),
             Some(Req(order[i])))
  {
    WithoutAt(order, i);
  }

  lemma Rejoins(order: seq<nat>, i: nat, rr: nat)
    requires NoDuplicates(order) && i < |order|
    ensures Submitted(Fair(Singles(order, 0).queues - {order[i]}, order[..i] + order[i + 1..], rr), Req(order[i]))
         == Singles(Rejoined(order, i), rr)
  {
    var a, left := order[i], order[..i] + order[i + 1..];
    var s := Fair(Singles(order, 0).queues - {a}, left, rr);
    assert a !in left;
    assert QueueOf(s, a) == [];
    SameProcesses(order, i);
    assert [] + [Req(a)] == [Req(a)];
    assert Singles(order, 0).queues == Singles(Rejoined(order, i), rr).queues;
    assert Submitted(s, Req(a)).queues == Singles(order, 0).queues;
  }

  /** Serving the last request of position i, which then joins the end of the list. */
  lemma DrainOne(order: seq<nat>, rr: nat, i: nat, rr': nat, x: nat, p: nat, k: nat)
    requires NoDuplicates(order) && i < |order| <= p && |order| >= 2 && Start(Singles(order, rr)) == i && order[i] != x
    requires rr' == if i + 1 < |order| - 1 then i + 1 else 0
    requires Starves(Singles(Rejoined(order, i), rr'), x, p, k)
    ensures Starves(Singles(order, rr), x, p, k + 1)
  {
    Drains(order, rr, i);
    var s1 := Dispatched(Singles(order, rr), false).0;
    Rejoins(order, i, rr');
    SubmitFirst(s1, Req(order[i]), x, p, k);
    DispatchFirst(Singles(order, rr), x, p, k);
  }

  lemma RejoinedKeeps(order: seq<nat>, i: nat)
    requires NoDuplicates(order) && i < |order|
    ensures NoDuplicates(Rejoined(order, i)) && |Rejoined(order, i)| == |order|
    ensures i + 1 < |order| ==> Rejoined(order, i)[i] == order[i + 1]
  {
    var t := Rejoined(order, i);
    forall j, k | 0 <= j < k < |t| ensures t[j] != t[k] {
      assert t[j] == order[if j < i then j else j + 1];
      assert k < |t| - 1 ==> t[k] == order[if k < i then k else k + 1];
      assert t[|t| - 1] == order[i];
    }
  }

  /** Serving every position from rr to the end of a full list. */
  lemma {:induction false} PassTail(order: seq<nat>, rr: nat, q: nat, x: nat, p: nat, k: nat)
    requires NoDuplicates(order) && q < rr <= |order| == p && order[q] == x
    requires Starves(Singles(order, p), x, p, k)
    ensures Starves(Singles(order, rr), x, p, k + p - rr)
    decreases p - rr
  {
    if rr < p {
      PassTail(order, rr + 1, q, x, p, k);
      PassOne(order, rr, rr, x, p, k + p - rr - 1);
    }
  }

  /** Serving every position from i to just before `end`. */
  lemma {:induction false} PassHead(order: seq<nat>, rr: nat, i: nat, end: nat, q: nat, x: nat, p: nat, k: nat)
    requires NoDuplicates(order) && i < end <= q < |order| == p && order[q] == x && Start(Singles(order, rr)) == i
    requires Starves(Singles(order, end), x, p, k)
    ensures Starves(Singles(order, rr), x, p, k + end - i)
    decreases p - i
  {
    if i + 1 < end {
      PassHead(order, i + 1, i + 1, end, q, x, p, k);
    }
    PassOne(order, rr, i, x, p, k + end - i - 1);
  }

  /** From the start of the list: serve up to the neighbour in front of x, and drain that one. */
  lemma StepDown(order: seq<nat>, rr: nat, q: nat, rr': nat, x: nat, p: nat, k: nat)
    requires NoDuplicates(order) && 1 <= q < |order| == p && order[q] == x && (rr == 0 || rr == p)
    requires rr' == if q < p - 1 then q else 0
    requires Starves(Singles(Rejoined(order, q - 1), rr'), x, p, k)
    ensures Starves(Singles(order, rr), x, p, k + q)
  {
    if q == 1 {
      DrainOne(order, rr, 0, rr', x, p, k);
    } else {
      DrainOne(order, q - 1, q - 1, rr', x, p, k);
      PassHead(order, rr, 0, q - 1, q, x, p, k + 1);
    }
  }

  /** One place down, with p dispatches passing by, or p - 1 from the last place. */
  lemma MiddlePlace(order: seq<nat>, rr: nat, q: nat, x: nat, p: nat, k: nat)
    requires NoDuplicates(order) && 1 <= q < |order| - 1 && |order| == p && order[q] == x && (rr == 0 || rr == p)
    requires Starves(Singles(Rejoined(order, q - 1), p), x, p, k)
    ensures Starves(Singles(order, rr), x, p, k + p)
  {
    RejoinedKeeps(order, q - 1);
    PassTail(Rejoined(order, q - 1), q, q - 1, x, p, k);
    StepDown(order, rr, q, q, x, p, k + p - q);
  }

  lemma LastPlace(order: seq<nat>, rr: nat, q: nat, x: nat, p: nat, k: nat)
    requires NoDuplicates(order) && 1 <= q == |order| - 1 && |order| == p && order[q] == x && (rr == 0 || rr == p)
    requires Starves(Singles(Rejoined(order, q - 1), 0), x, p, k)
    ensures Starves(Singles(order, rr), x, p, k + p - 1)
  {
    StepDown(order, rr, q, 0, x, p, k);
  }

  /** A process at position q of a full list can be passed by Climb(q, p) times. */
  lemma {:induction false} ClimbStarves(order: seq<nat>, rr: nat, q: nat, x: nat, p: nat, c: nat)
    requires NoDuplicates(order) && q < |order| == p && order[q] == x && p >= 2 && (rr == 0 || rr == p)
    requires c == Climb(q, p)
    ensures Starves(Singles(order, rr), x, p, c)
    decreases q
  {
    if q == 0 {
      assert StarvesBy(Singles(order, rr), [], x, p, 0);
    } else {
      RejoinedKeeps(order, q - 1);
      ClimbStep(q, p);
      var k: nat := Climb(q - 1, p);
      if q < p - 1 {
        ClimbStarves(Rejoined(order, q - 1), p, q - 1, x, p, k);
        MiddlePlace(order, rr, q, x, p, k);
      } else {
        ClimbStarves(Rejoined(order, q - 1), 0, q - 1, x, p, k);
        LastPlace(order, rr, q, x, p, k);
      }
    }
  }

  // ---- The slow state is reached ----

  function Upto(n: nat): (order: seq<nat>)
    ensures |order| == n && forall i :: 0 <= i < n ==> order[i] == i
  {
    seq(n, i => i)
  }

  function Joins(n: nat): (ops: seq<Op>)
    ensures |ops| == n && forall i :: 0 <= i < n ==> ops[i] == Submit(Req(i))
  {
    seq(n, i requires i >= 0 => Submit(Req(i)))
  }

  lemma {:induction false} JoinsReach(p: nat, n: nat)
    requires n <= p
    ensures Play(Joins(p), n).s == Singles(Upto(n), 0)
  {
    if n == 0 {
      assert Singles(Upto(0), 0).queues == map[];
      assert Upto(0) == [];
    } else {
      JoinsReach(p, n - 1);
      OneJoins(n - 1);
    }
  }

  lemma OneJoins(n: nat)
    ensures Submitted(Singles(Upto(n), 0), Req(n)) == Singles(Upto(n + 1), 0)
  {
    var s := Singles(Upto(n), 0);
    assert n !in Upto(n);
    assert QueueOf(s, n) == [];
    assert Upto(n + 1) == Upto(n) + [n];
    assert [] + [Req(n)] == [Req(n)];
    assert Submitted(s, Req(n)).queues == Singles(Upto(n + 1), 0).queues;
  }

  // ---- The exact bound ----

  /** Every queued process of every CFQ run is served within k dispatches while at most p are queued. */
  ghost predicate ServedWithin(p: nat, k: nat) {
    forall past, future, x :: Unwound(past) && Unwound(future) && Waits(past, future, x, p, k) ==>
      x in Served(Play(past, |past|).s, future)
  }

  ghost predicate Waits(past: seq<Op>, future: seq<Op>, x: nat, p: nat, k: nat) {
    var s := Play(past, |past|).s;
    x in s.order && AtMost(s, future, p) && Dispatches(future) >= k
  }

  /** With at most p >= 1 processes queued at once, k dispatches are enough for every queued one exactly when
      k >= p * (p - 1), or k >= 1 when it is alone. */
  lemma StarvationExactly(p: nat, k: nat)
    requires p >= 1
    ensures ServedWithin(p, k) <==> k >= Turns(p)
  {
    if k >= Turns(p) {
      forall past, future, x | Waits(past, future, x, p, k) ensures x in Served(Play(past, |past|).s, future) {
        StarvationFree(past, Play(past, |past|).s, future, x, p);
      }
    } else {
      var past, future, x := SlowRun(p);
      assert Waits(past, future, x, p, k);
    }
  }

  lemma SlowFuture(p: nat) returns (future: seq<Op>)
    requires p >= 1
    ensures StarvesBy(Singles(Upto(p), 0), future, p - 1, p, Turns(p) - 1)
  {
    if p == 1 {
      future := [];
    } else {
      ClimbValue(p - 1, p);
      ClimbStarves(Upto(p), 0, p - 1, p - 1, p, Turns(p) - 1);
      future :| StarvesBy(Singles(Upto(p), 0), future, p - 1, p, Turns(p) - 1);
    }
  }

  /** p submissions, then one dispatch too few, none of which serves the process that came last. */
  lemma SlowRun(p: nat) returns (past: seq<Op>, future: seq<Op>, x: nat)
    requires p >= 1
    ensures Unwound(past) && Unwound(future) && Waits(past, future, x, p, Turns(p) - 1)
    ensures x !in Served(Play(past, |past|).s, future)
  {
    past, x := Joins(p), p - 1;
    future := SlowFuture(p);
    JoinsReach(p, p);
    assert Upto(p)[p - 1] == x;
  }
}
