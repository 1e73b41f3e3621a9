/** What the deadline scheduler dispatches next, told from the requests alone: which are pending, when they fall due, and
    what was returned before. */
module DeadlineRules {
  import opened IoRequests
  import opened Options
  import opened Deadline

  /** The oldest entry is due. */
  predicate Due(fifo: seq<IoRequest>, now: nat) {
    fifo != [] && fifo[0].deadline <= now
  }

  ghost predicate ReadWaits(s: Sched) {
    exists r :: r in s.readFifo && r.direction.Read?
  }

  // ---- When requests fall due ----

  /** A read is due half a second after its submission, a write five seconds after; others keep their deadline. */
  function DueAt(r: IoRequest, now: nat): nat {
    match r.direction
    case Read => now + 500_000_000
    case Write => now + 5_000_000_000
    case _ => r.deadline
  }

  function Submissions(ops: seq<Op>): seq<IoRequest> {
    if ops == [] then []
    else
      (if ops[0].Submit? then [ops[0].req.(deadline := DueAt(ops[0].req, ops[0].now))] else []) + Submissions(ops[1..])
  }

  /** The accepted requests are the submitted ones, in order, each with the deadline of its direction. */
  lemma {:induction false} AcceptedAre(h: History, ops: seq<Op>)
    ensures Play(h, ops).accepted == h.accepted + Submissions(ops)
    decreases |ops|
  {
    if ops != [] {
      AcceptedAre(Perform(h, ops[0]), ops[1..]);
    }
  }

  // ---- Which reads went ahead, and where the head is ----

  /** How many requests of the read side went ahead of the writes, and where the last dispatch by sector ended. */
  datatype Track = Track(ahead: nat, head: nat)

  /** A read goes ahead. An overdue write, or one that nothing went ahead of twice, starts the count over; a write that
      goes because two reads went ahead does not. */
  function Follow(t: Track, s: Sched, now: nat, o: Option<IoRequest>): Track {
    if o.None? then t
    else
      Track(
        if !o.value.direction.Write? then if t.ahead < 0xFFFF_FFFF then t.ahead + 1 else t.ahead
        else if Due(s.writeFifo, now) || t.ahead < 2 then 0
        else t.ahead,
        if Due(s.readFifo, now) || Due(s.writeFifo, now) then t.head else o.value.sector + o.value.nrSectors)
  }

  function Tracked(h: History, ops: seq<Op>, t: Track): Track
    decreases |ops|
  {
    if ops == [] then t
    else
      Tracked(Perform(h, ops[0]), ops[1..],
              if ops[0].Submit? then t else Follow(t, h.s, ops[0].now, Dispatched(h.s, ops[0].now).1))
  }

  function TrackOf(s: Sched): Track {
    Track(s.writesStarved, s.lastSector)
  }

  lemma HeadDirections(s: Sched)
    requires Agree(s)
    ensures s.readFifo != [] ==> !s.readFifo[0].direction.Write?
    ensures s.writeFifo != [] ==> s.writeFifo[0].direction.Write?
  {
  }

  lemma ReadsSorted(s: Sched)
    requires Agree(s)
    ensures forall r :: r in s.readSorted <==> r in s.readFifo && r.direction.Read?
    ensures s.readSorted != [] <==> ReadWaits(s)
  {
    forall r ensures r in s.readSorted <==> r in s.readFifo && r.direction.Read? {
      assert r in s.readSorted <==> r in multiset(s.readSorted);
      assert r in s.readFifo <==> r in multiset(s.readFifo);
      assert r in s.readFifo ==> !r.direction.Write?;
    }
    if s.readSorted != [] {
      assert s.readSorted[0] in s.readSorted;
    }
  }

  lemma WritesSorted(s: Sched)
    requires Agree(s)
    ensures forall r :: r in s.writeSorted <==> r in s.writeFifo
    ensures s.writeSorted != [] <==> s.writeFifo != []
  {
    forall r ensures r in s.writeSorted <==> r in s.writeFifo {
      assert r in s.writeSorted <==> r in multiset(s.writeSorted);
      assert r in s.writeFifo <==> r in multiset(s.writeFifo);
      assert r in s.writeFifo ==> r.direction.Write?;
    }
    if s.writeSorted != [] {
      assert s.writeSorted[0] in s.writeSorted;
    }
    if s.writeFifo != [] {
      assert s.writeFifo[0] in s.writeFifo;
    }
  }

  lemma {:induction false} ReadsMembers(s: seq<IoRequest>)
    ensures forall r :: r in Reads(s) <==> r in s && r.direction.Read?
  {
    if s != [] {
      ReadsMembers(s[1..]);
      assert s == [s[0]] + s[1..];
    }
  }

  lemma SameNearest(a: seq<IoRequest>, b: seq<IoRequest>, head: nat, r: IoRequest)
    requires Nearest(a, head, r) && forall x :: x in a <==> x in b
    ensures Nearest(b, head, r)
  {
  }

  lemma NextRead(s: Sched)
    requires Agree(s)
    ensures s.readSorted != [] <==> ReadWaits(s)
    ensures s.readSorted != [] ==>
              var r := s.readSorted[NextIndex(s.readSorted, s.lastSector)];
              r.direction.Read? && Nearest(Reads(s.readFifo), s.lastSector, r)
  {
    ReadsSorted(s);
    ReadsMembers(s.readFifo);
    if s.readSorted != [] {
      var r := s.readSorted[NextIndex(s.readSorted, s.lastSector)];
      assert r in s.readSorted;
      NextNearest(s.readSorted, s.lastSector);
      SameNearest(s.readSorted, Reads(s.readFifo), s.lastSector, r);
    }
  }

  lemma NextWrite(s: Sched)
    requires Agree(s)
    ensures s.writeSorted != [] <==> s.writeFifo != []
    ensures s.writeSorted != [] ==>
              var w := s.writeSorted[NextIndex(s.writeSorted, s.lastSector)];
              w.direction.Write? && Nearest(s.writeFifo, s.lastSector, w)
  {
    WritesSorted(s);
    if s.writeSorted != [] {
      var w := s.writeSorted[NextIndex(s.writeSorted, s.lastSector)];
      assert w in s.writeSorted;
      assert w in s.writeFifo;
      NextNearest(s.writeSorted, s.lastSector);
      SameNearest(s.writeSorted, s.writeFifo, s.lastSector, w);
    }
  }

  /** The facts about the lists that the rules depend on. */
  ghost predicate Known(s: Sched) {
    && (s.readFifo != [] ==> !s.readFifo[0].direction.Write?)
    && (s.writeFifo != [] ==> s.writeFifo[0].direction.Write?)
    && (s.readSorted != [] ==> s.readSorted[NextIndex(s.readSorted, s.lastSector)].direction.Read?)
    && (s.writeSorted != [] ==> s.writeSorted[NextIndex(s.writeSorted, s.lastSector)].direction.Write?)
  }

  lemma FollowKnown(s: Sched, now: nat)
    requires Known(s)
    ensures TrackOf(Dispatched(s, now).0) == Follow(TrackOf(s), s, now, Dispatched(s, now).1)
  {
    match Choose(s, now)
    case ExpiredRead =>
    case ExpiredWrite =>
    case StarvedWrite =>
    case SortedRead =>
    case SortedWrite =>
    case Nothing =>
  }

  lemma FollowStep(s: Sched, now: nat)
    requires Agree(s)
    ensures TrackOf(Dispatched(s, now).0) == Follow(TrackOf(s), s, now, Dispatched(s, now).1)
  {
    HeadDirections(s);
    NextRead(s);
    NextWrite(s);
    FollowKnown(s, now);
  }

  lemma {:induction false} FollowRun(h: History, ops: seq<Op>)
    requires Exact(h) && ClashFree(h, ops)
    ensures TrackOf(Play(h, ops).s) == Tracked(h, ops, TrackOf(h.s))
    decreases |ops|
  {
    if ops != [] {
      if ops[0].Dispatch? {
        FollowStep(h.s, ops[0].now);
      }
      PerformExact(h, ops[0]);
      FollowRun(Perform(h, ops[0]), ops[1..]);
    }
  }

  // ---- The rules ----

  /** The next request: the oldest of the read side if it is due, else the oldest write if it is due; else by sector,
      a write if two reads went ahead or no read waits, and a read otherwise. */
  ghost predicate Decided(s: Sched, now: nat, t: Track, o: Option<IoRequest>) {
    if Due(s.readFifo, now) then o == Some(s.readFifo[0])
    else if Due(s.writeFifo, now) then o == Some(s.writeFifo[0])
    else if s.writeFifo != [] && (t.ahead >= 2 || !ReadWaits(s)) then
      o.Some? && o.value.direction.Write? && Nearest(s.writeFifo, t.head, o.value)
    else if ReadWaits(s) then
      o.Some? && o.value.direction.Read? && Nearest(Reads(s.readFifo), t.head, o.value)
    else o.None?
  }

  lemma DecidesKnown(s: Sched, now: nat)
    requires !Due(s.readFifo, now) && !Due(s.writeFifo, now)
    requires (s.readSorted != [] <==> ReadWaits(s)) && (s.writeSorted != [] <==> s.writeFifo != [])
    requires s.readSorted != [] ==>
               var r := s.readSorted[NextIndex(s.readSorted, s.lastSector)];
               r.direction.Read? && Nearest(Reads(s.readFifo), s.lastSector, r)
    requires s.writeSorted != [] ==>
               var w := s.writeSorted[NextIndex(s.writeSorted, s.lastSector)];
               w.direction.Write? && Nearest(s.writeFifo, s.lastSector, w)
    ensures Decided(s, now, TrackOf(s), Dispatched(s, now).1)
  {
  }

  lemma Decides(s: Sched, now: nat)
    requires Agree(s)
    ensures Decided(s, now, TrackOf(s), Dispatched(s, now).1)
  {
    if !Due(s.readFifo, now) && !Due(s.writeFifo, now) {
      NextRead(s);
      NextWrite(s);
      DecidesKnown(s, now);
    }
  }

  /** After any clash-free run the next request is the decided one. */
  lemma RunDecides(past: seq<Op>, now: nat)
    requires ClashFree(START, past)
    ensures var s := Play(START, past).s;
            Decided(s, now, Tracked(START, past, Track(0, 0)), Dispatched(s, now).1)
  {
    PlayExact(START, past);
    FollowRun(START, past);
    Decides(Play(START, past).s, now);
  }

  // ---- Write starvation ----

  /** At every dispatch of the run a write is pending, and none is returned. */
  ghost predicate WritesWait(h: History, ops: seq<Op>)
    decreases |ops|
  {
    ops != [] ==>
      && (ops[0].Dispatch? ==>
            var o := Dispatched(h.s, ops[0].now).1;
            h.s.writeFifo != [] && o.Some? && !o.value.direction.Write?)
      && WritesWait(Perform(h, ops[0]), ops[1..])
  }

  /** The reads returned although the oldest entry of the read side was not due. */
  function UndueReads(h: History, ops: seq<Op>): nat
    decreases |ops|
  {
    if ops == [] then 0
    else
      (if ops[0].Dispatch? && !Due(h.s.readFifo, ops[0].now) && Dispatched(h.s, ops[0].now).1.Some? &&
          !Dispatched(h.s, ops[0].now).1.value.direction.Write? then 1 else 0) +
      UndueReads(Perform(h, ops[0]), ops[1..])
  }

  lemma {:induction false} FewReadsFrom(h: History, ops: seq<Op>)
    requires Exact(h) && ClashFree(h, ops) && WritesWait(h, ops)
    ensures UndueReads(h, ops) <= if h.s.writesStarved < 2 then 2 - h.s.writesStarved else 0
    decreases |ops|
  {
    if ops != [] {
      if ops[0].Dispatch? {
        Decides(h.s, ops[0].now);
        FollowStep(h.s, ops[0].now);
      }
      PerformExact(h, ops[0]);
      FewReadsFrom(Perform(h, ops[0]), ops[1..]);
    }
  }

  /** After any clash-free run: while a write is pending and none is returned, at most two reads that are not due are
      returned, fewer if some already went ahead. */
  lemma FewReadsWhileWritesWait(past: seq<Op>, h: History, future: seq<Op>)
    requires ClashFree(START, past) && h == Play(START, past) && ClashFree(h, future) && WritesWait(h, future)
    ensures var n := Tracked(START, past, Track(0, 0)).ahead;
            UndueReads(h, future) <= if n < 2 then 2 - n else 0
  {
    PlayExact(START, past);
    FollowRun(START, past);
    FewReadsFrom(h, future);
  }
}
