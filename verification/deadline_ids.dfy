/** Which ids the deadline scheduler needs: the indices agree and no request is lost or returned twice, at every point
    of a run and after any dispatches from there, exactly when no submission clashes with a pending id of its side. */
module DeadlineIds {
  import opened IoRequests
  import opened Options
  import opened Deadline

  /** What callers rely on: both sides' indices hold the same requests, ordered by sector, and every accepted request
      is pending or was returned, exactly once. */
  ghost predicate Sound(h: History) {
    && SideAgrees(h.s.readSorted, h.s.readFifo) && SideAgrees(h.s.writeSorted, h.s.writeFifo)
    && Sorted(h.s.readSorted) && Sorted(h.s.writeSorted)
    && multiset(h.accepted) == Pending(h.s) + multiset(h.returned)
  }

  /** Dispatches at these times, one after the other. */
  function After(h: History, nows: seq<nat>): History
    decreases |nows|
  {
    if nows == [] then h else After(Perform(h, Dispatch(nows[0])), nows[1..])
  }

  /** Sound at every point of the run, and after any dispatches from that point. */
  ghost predicate SoundThroughout(h: History, ops: seq<Op>)
    decreases |ops|
  {
    && (forall nows :: Sound(After(h, nows)))
    && (ops != [] ==> SoundThroughout(Perform(h, ops[0]), ops[1..]))
  }

  lemma {:induction false} ExactStaysSound(h: History, nows: seq<nat>)
    requires Exact(h)
    ensures Sound(After(h, nows))
    decreases |nows|
  {
    if nows != [] {
      DispatchExact(h, nows[0]);
      ExactStaysSound(Perform(h, Dispatch(nows[0])), nows[1..]);
    }
  }

  lemma AfterOne(h: History, now: nat, rest: seq<nat>)
    ensures After(h, [now] + rest) == After(Perform(h, Dispatch(now)), rest)
  {
    assert ([now] + rest)[1..] == rest;
  }

  // ---- A read or write that joins a pending id: expire everything ----

  /** Entries i and j of the FIFO share an id, i first. */
  ghost predicate Pair(fifo: seq<IoRequest>, i: nat, j: nat) {
    i < j < |fifo| && fifo[i].id == fifo[j].id
  }

  ghost predicate AllDue(fifo: seq<IoRequest>, now: nat) {
    forall r :: r in fifo ==> r.deadline <= now
  }

  /** Dropping the first copy by id empties the sorted list of that id while the FIFO still holds the second. */
  lemma HeadBreaks(sorted: seq<IoRequest>, fifo: seq<IoRequest>, j: nat)
    requires 0 < j < |fifo| && fifo[0].id == fifo[j].id && Indexed(fifo[j])
    ensures !SideAgrees(Without(sorted, fifo[0].id), fifo[1..])
  {
    WithoutCount(sorted, fifo[0].id, fifo[j]);
    assert fifo[1..][j - 1] == fifo[j];
    assert fifo[j] in multiset(fifo[1..]);
  }

  lemma {:induction false} ReadPairBreaks(h: History, i: nat, j: nat, now: nat) returns (nows: seq<nat>)
    requires Pair(h.s.readFifo, i, j) && Indexed(h.s.readFifo[j]) && AllDue(h.s.readFifo, now)
    ensures !Sound(After(h, nows))
    decreases |h.s.readFifo|
  {
    var fifo, h' := h.s.readFifo, Perform(h, Dispatch(now));
    assert fifo[0] in fifo;
    nows := [];
    if fifo[0].id == fifo[j].id {
      HeadBreaks(h.s.readSorted, fifo, j);
    } else {
      nows := ReadPairBreaks(h', i - 1, j - 1, now);
    }
    AfterOne(h, now, nows);
    nows := [now] + nows;
  }

  lemma {:induction false} WritePairBreaks(h: History, i: nat, j: nat, now: nat) returns (nows: seq<nat>)
    requires Pair(h.s.writeFifo, i, j) && Indexed(h.s.writeFifo[j])
    requires AllDue(h.s.readFifo, now) && AllDue(h.s.writeFifo, now)
    ensures !Sound(After(h, nows))
    decreases |h.s.readFifo| + |h.s.writeFifo|
  {
    var fifo, h' := h.s.writeFifo, Perform(h, Dispatch(now));
    nows := [];
    if h.s.readFifo != [] {
      assert h.s.readFifo[0] in h.s.readFifo;
      nows := WritePairBreaks(h', i, j, now);
    } else {
      assert fifo[0] in fifo;
      if fifo[0].id == fifo[j].id {
        HeadBreaks(h.s.writeSorted, fifo, j);
      } else {
        nows := WritePairBreaks(h', i - 1, j - 1, now);
      }
    }
    AfterOne(h, now, nows);
    nows := [now] + nows;
  }

  // ---- A flush that joins a pending read: dispatch by sector ----

  lemma {:induction false} EntrySurvives(s: seq<IoRequest>, id: nat, j: nat) returns (j': nat)
    requires j < |s| && s[j].id != id
    ensures j' < |Without(s, id)| && Without(s, id)[j'] == s[j]
  {
    j' := 0;
    if j > 0 {
      j' := EntrySurvives(s[1..], id, j - 1);
      if s[0].id != id {
        j' := j' + 1;
      }
    }
  }

  /** Both entries survive the removal of another id, in order. */
  lemma {:induction false} PairSurvives(s: seq<IoRequest>, id: nat, i: nat, j: nat) returns (i': nat, j': nat)
    requires Pair(s, i, j) && s[i].id != id
    ensures Pair(Without(s, id), i', j') && Without(s, id)[i'] == s[i] && Without(s, id)[j'] == s[j]
  {
    if i == 0 {
      i' := 0;
      j' := EntrySurvives(s[1..], id, j - 1);
      j' := j' + 1;
    } else {
      i', j' := PairSurvives(s[1..], id, i - 1, j - 1);
      if s[0].id != id {
        i', j' := i' + 1, j' + 1;
      }
    }
  }

  lemma {:induction false} WithoutLength(s: seq<IoRequest>, id: nat)
    ensures |Without(s, id)| <= |s|
  {
    if s != [] {
      WithoutLength(s[1..], id);
    }
  }

  /** A read, not yet due at time 0, and behind it a flush or discard with its id. */
  ghost predicate Trap(s: Sched, i: nat, j: nat) {
    && Pair(s.readFifo, i, j)
    && s.readFifo[i].direction.Read? && s.readFifo[i].deadline > 0 && !Indexed(s.readFifo[j])
  }

  ghost function Work(s: Sched): nat {
    |s.readFifo| + |s.writeFifo| + |s.readSorted| + |s.writeSorted|
  }

  /** Taking more than the one returned request out of the pending ones breaks the account. */
  lemma Unaccounted(accepted: seq<IoRequest>, was: multiset<IoRequest>, returned: seq<IoRequest>,
                    left: multiset<IoRequest>, r: IoRequest, f: IoRequest)
    requires multiset(accepted) == was + multiset(returned) && left[f] < was[f] && r != f
    ensures multiset(accepted) != left + multiset(returned + [r])
  {
    Appended(returned, r);
    assert (left + multiset(returned + [r]))[f] < multiset(accepted)[f];
  }

  lemma DropCount(fifo: seq<IoRequest>, writes: seq<IoRequest>, id: nat, f: IoRequest)
    requires f in fifo && f.id == id
    ensures (multiset(Without(fifo, id)) + multiset(writes))[f] < (multiset(fifo) + multiset(writes))[f]
  {
    WithoutCount(fifo, id, f);
    assert f in multiset(fifo);
  }

  /** Returning the read by sector drops the flush from the FIFO with it, and nobody ever gets the flush. */
  lemma FlushDropped(h: History, i: nat, j: nat)
    requires Sound(h) && Trap(h.s, i, j) && Choose(h.s, 0).SortedRead?
    requires h.s.readSorted[NextIndex(h.s.readSorted, h.s.lastSector)].id == h.s.readFifo[j].id
    ensures !Sound(Perform(h, Dispatch(0)))
  {
    var s, f := h.s, h.s.readFifo[j];
    var k := NextIndex(s.readSorted, s.lastSector);
    var r := s.readSorted[k];
    SideMember(s.readSorted, s.readFifo, k);
    DropCount(s.readFifo, s.writeFifo, r.id, f);
    var h' := Perform(h, Dispatch(0));
    Unaccounted(h.accepted, Pending(s), h.returned, Pending(h'.s), r, f);
  }

  lemma TrapPassed(s: Sched, i: nat, j: nat) returns (i': nat, j': nat)
    requires Trap(s, i, j) && s.readSorted != []
    requires s.readSorted[NextIndex(s.readSorted, s.lastSector)].id != s.readFifo[j].id
    ensures Trap(FromReadSorted(s).0, i', j') && Work(FromReadSorted(s).0) < Work(s)
  {
    var r := s.readSorted[NextIndex(s.readSorted, s.lastSector)];
    WithoutLength(s.readFifo, r.id);
    i', j' := PairSurvives(s.readFifo, r.id, i, j);
  }

  lemma WriteWork(s: Sched)
    requires s.writeSorted != []
    ensures Work(FromWriteSorted(s).0) < Work(s)
  {
    WithoutLength(s.writeFifo, s.writeSorted[NextIndex(s.writeSorted, s.lastSector)].id);
  }

  /** Any other dispatch at time 0 leaves the trap in place, with less to do. */
  lemma TrapStays(s: Sched, i: nat, j: nat) returns (i': nat, j': nat)
    requires Trap(s, i, j) && s.readSorted != []
    requires Choose(s, 0).SortedRead? ==> s.readSorted[NextIndex(s.readSorted, s.lastSector)].id != s.readFifo[j].id
    ensures Trap(Dispatched(s, 0).0, i', j') && Work(Dispatched(s, 0).0) < Work(s)
  {
    i', j' := i, j;
    match Choose(s, 0)
    case ExpiredRead =>
      WithoutLength(s.readSorted, s.readFifo[0].id);
      i', j' := i - 1, j - 1;
    case ExpiredWrite => WithoutLength(s.writeSorted, s.writeFifo[0].id);
    case StarvedWrite => WriteWork(s);
    case SortedRead => i', j' := TrapPassed(s.(writesStarved := Starve(s.writesStarved)), i, j);
  }

  lemma TrapSorted(s: Sched, i: nat, j: nat)
    requires SideAgrees(s.readSorted, s.readFifo) && Trap(s, i, j)
    ensures s.readSorted != []
  {
    assert s.readFifo[i] in multiset(s.readFifo);
    assert multiset(s.readSorted)[s.readFifo[i]] > 0;
  }

  lemma {:induction false} TrapBreaks(h: History, i: nat, j: nat) returns (nows: seq<nat>)
    requires Trap(h.s, i, j)
    ensures !Sound(After(h, nows))
    decreases Work(h.s)
  {
    nows := [];
    if Sound(h) {
      TrapSorted(h.s, i, j);
      var head := NextIndex(h.s.readSorted, h.s.lastSector);
      if Choose(h.s, 0).SortedRead? && h.s.readSorted[head].id == h.s.readFifo[j].id {
        FlushDropped(h, i, j);
      } else {
        var i', j' := TrapStays(h.s, i, j);
        nows := TrapBreaks(Perform(h, Dispatch(0)), i', j');
      }
      AfterOne(h, 0, nows);
      nows := [0] + nows;
    }
  }

  // ---- The exact condition ----

  function Latest(fifo: seq<IoRequest>): (now: nat)
    ensures forall r :: r in fifo ==> r.deadline <= now
  {
    if fifo == [] then 0
    else
      var now := Latest(fifo[1..]);
      if fifo[0].deadline > now then fifo[0].deadline else now
  }

  /** A submission that clashes has a row of dispatches after which the indices disagree or a request is lost. */
  lemma ClashBreaks(h: History, req: IoRequest, now: nat) returns (nows: seq<nat>)
    requires Exact(h) && !NoClash(FifoOf(h.s, req), req)
    ensures !Sound(After(Perform(h, Submit(req, now)), nows))
  {
    var h', fifo := Perform(h, Submit(req, now)), FifoOf(h.s, req);
    var i :| 0 <= i < |fifo| && fifo[i].id == req.id && (Indexed(fifo[i]) || Indexed(req));
    var late := Latest(h'.s.readFifo) + Latest(h'.s.writeFifo);
    if req.direction.Write? {
      nows := WritePairBreaks(h', i, |fifo|, late);
    } else if req.direction.Read? {
      nows := ReadPairBreaks(h', i, |fifo|, late);
    } else {
      assert fifo[i] in h.s.readFifo;
      nows := TrapBreaks(h', i, |fifo|);
    }
  }

  lemma {:induction false} SoundExactlyFrom(h: History, ops: seq<Op>)
    requires Exact(h)
    ensures SoundThroughout(h, ops) <==> ClashFree(h, ops)
    decreases |ops|
  {
    forall nows ensures Sound(After(h, nows)) {
      ExactStaysSound(h, nows);
    }
    if ops != [] {
      var h' := Perform(h, ops[0]);
      if ops[0].Submit? && !NoClash(FifoOf(h.s, ops[0].req), ops[0].req) {
        var nows := ClashBreaks(h, ops[0].req, ops[0].now);
        assert !SoundThroughout(h', ops[1..]);
      } else {
        PerformExact(h, ops[0]);
        SoundExactlyFrom(h', ops[1..]);
      }
    }
  }

  /** The scheduler keeps its promises at every point of a run, and after any dispatches from there, if and only if no
      submission shares its id with a request pending on its side, where only flushes and discards may share one. */
  lemma SoundExactly(ops: seq<Op>)
    ensures SoundThroughout(START, ops) <==> ClashFree(START, ops)
  {
    SoundExactlyFrom(START, ops);
  }

  /** A read and then a flush with its id, at time 0: one dispatch returns the read, and the flush is gone. */
  lemma FlushLost(r: IoRequest, f: IoRequest)
    requires r.direction.Read? && f.direction.Flush? && r.id == f.id
    ensures
      var h := Play(START, [Submit(r, 0), Submit(f, 0), Dispatch(0)]);
      && h.accepted == [Stamped(r, 0), f] && h.returned == [Stamped(r, 0)]
      && h.s.readSorted == h.s.writeSorted == h.s.readFifo == h.s.writeFifo == []
  {
    var a, ops := Stamped(r, 0), [Submit(r, 0), Submit(f, 0), Dispatch(0)];
    var h1 := Perform(START, Submit(r, 0));
    var h2 := Perform(h1, Submit(f, 0));
    assert ops[1..] == [Submit(f, 0), Dispatch(0)] && ops[1..][1..] == [Dispatch(0)] && [Dispatch(0)][1..] == [];
    assert Play(START, ops) == Play(h1, ops[1..]) == Play(h2, [Dispatch(0)]) == Perform(h2, Dispatch(0));
    assert h1.s.readSorted == [a] && h1.s.readFifo == [a];
    assert h2.s.readSorted == [a] && h2.s.readFifo == [a, f];
    assert [a, f][1..] == [f] && [f][1..] == [];
    assert Without([f], a.id) == Without([], a.id);
    assert Without([a, f], a.id) == [];
  }
}
