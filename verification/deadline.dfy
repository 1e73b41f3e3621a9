/** The deadline scheduler: each pending request sits in a FIFO and, unless it is a flush
    or a discard, in a list sorted by sector. The clock is a parameter. */
module Deadline {
  import opened IoRequests
  import opened Options

  const READ_DEADLINE: nat := 500 * 1_000_000
  const WRITE_DEADLINE: nat := 5000 * 1_000_000
  const WRITES_STARVED_MAX: nat := 2
  const U32_MAX: nat := 0xFFFF_FFFF

  datatype Sched = Sched(
    readSorted: seq<IoRequest>, writeSorted: seq<IoRequest>,
    readFifo: seq<IoRequest>, writeFifo: seq<IoRequest>,
    writesStarved: nat, lastSector: nat)

  const EMPTY := Sched([], [], [], [], 0, 0)

  // ---- List operations ----

  /** The requests whose id differs from `id`, in order. */
  function Without(s: seq<IoRequest>, id: nat): seq<IoRequest> {
    if s == [] then []
    else (if s[0].id != id then [s[0]] else []) + Without(s[1..], id)
  }

  /** The first position whose sector exceeds (or, if `orEqual`, reaches) `sector`; |s| if none does. */
  function Position(s: seq<IoRequest>, sector: nat, orEqual: bool): (p: nat)
    ensures p <= |s|
    ensures p < |s| ==> s[p].sector > sector || (orEqual && s[p].sector == sector)
    ensures forall i :: 0 <= i < p ==> s[i].sector < sector || (!orEqual && s[i].sector == sector)
  {
    if s == [] || s[0].sector > sector || (orEqual && s[0].sector == sector) then 0
    else 1 + Position(s[1..], sector, orEqual)
  }

  function Inserted(s: seq<IoRequest>, r: IoRequest): seq<IoRequest> {
    var p := Position(s, r.sector, false);
    s[..p] + [r] + s[p..]
  }

  /** The index the elevator serves next: the first request at or beyond the head, else the first of all. */
  function NextIndex(s: seq<IoRequest>, head: nat): (i: nat)
    requires s != []
    ensures i < |s|
  {
    var p := Position(s, head, true);
    if p < |s| then p else 0
  }

  // ---- The two operations ----

  function Stamped(r: IoRequest, now: nat): IoRequest {
    match r.direction
    case Read => r.(deadline := now + READ_DEADLINE)
    case Write => r.(deadline := now + WRITE_DEADLINE)
    case _ => r
  }

  function Submitted(s: Sched, req: IoRequest, now: nat): Sched {
    var r := Stamped(req, now);
    match r.direction
    case Read => s.(readSorted := Inserted(s.readSorted, r), readFifo := s.readFifo + [r])
    case Write => s.(writeSorted := Inserted(s.writeSorted, r), writeFifo := s.writeFifo + [r])
    case _ => s.(readFifo := s.readFifo + [r])
  }

  function Starve(n: nat): nat {
    if n < U32_MAX then n + 1 else n
  }

  function FromReadSorted(s: Sched): (Sched, Option<IoRequest>) {
    if s.readSorted == [] then (s, None)
    else
      var i := NextIndex(s.readSorted, s.lastSector);
      var r := s.readSorted[i];
      (s.(readSorted := s.readSorted[..i] + s.readSorted[i + 1..], readFifo := Without(s.readFifo, r.id),
          lastSector := r.sector + r.nrSectors), Some(r))
  }

  function FromWriteSorted(s: Sched): (Sched, Option<IoRequest>) {
    if s.writeSorted == [] then (s, None)
    else
      var i := NextIndex(s.writeSorted, s.lastSector);
      var r := s.writeSorted[i];
      (s.(writeSorted := s.writeSorted[..i] + s.writeSorted[i + 1..], writeFifo := Without(s.writeFifo, r.id),
          lastSector := r.sector + r.nrSectors), Some(r))
  }

  datatype Rule = ExpiredRead | ExpiredWrite | StarvedWrite | SortedRead | SortedWrite | Nothing

  /** Which rule the dispatcher follows. */
  function Choose(s: Sched, now: nat): Rule {
    if s.readFifo != [] && s.readFifo[0].deadline <= now then ExpiredRead
    else if s.writeFifo != [] && s.writeFifo[0].deadline <= now then ExpiredWrite
    else if s.writesStarved >= WRITES_STARVED_MAX && s.writeSorted != [] then StarvedWrite
    else if s.readSorted != [] then SortedRead
    else if s.writeSorted != [] then SortedWrite
    else Nothing
  }

  function Dispatched(s: Sched, now: nat): (Sched, Option<IoRequest>) {
    match Choose(s, now)
    case ExpiredRead =>
      var r := s.readFifo[0];
      (s.(readFifo := s.readFifo[1..], readSorted := Without(s.readSorted, r.id), writesStarved := Starve(s.writesStarved)), Some(r))
    case ExpiredWrite =>
      var r := s.writeFifo[0];
      (s.(writeFifo := s.writeFifo[1..], writeSorted := Without(s.writeSorted, r.id), writesStarved := 0), Some(r))
    case StarvedWrite => FromWriteSorted(s)
    case SortedRead => FromReadSorted(s.(writesStarved := Starve(s.writesStarved)))
    case SortedWrite => FromWriteSorted(s.(writesStarved := 0))
    case Nothing => (s, None)
  }

  // ---- The scheduler object ----

  method FindPosition(s: seq<IoRequest>, sector: nat, orEqual: bool) returns (p: nat)
    ensures p == Position(s, sector, orEqual)
  {
    p := 0;
    while p < |s| && !(s[p].sector > sector || (orEqual && s[p].sector == sector))
      invariant p <= |s|
      invariant Position(s, sector, orEqual) == p + Position(s[p..], sector, orEqual)
    {
      assert s[p..][1..] == s[p + 1..];
      p := p + 1;
    }
  }

  method FindNext(s: seq<IoRequest>, head: nat) returns (i: nat)
    requires s != []
    ensures i == NextIndex(s, head)
  {
    i := FindPosition(s, head, true);
    if i == |s| {
      i := 0;
    }
  }

  lemma WithoutStep(s: seq<IoRequest>, i: nat, id: nat)
    requires i < |s|
    ensures Without(s[i..], id) == (if s[i].id != id then [s[i]] else []) + Without(s[i + 1..], id)
  {
    assert s[i..][1..] == s[i + 1..];
  }

  lemma Shift(a: seq<IoRequest>, b: seq<IoRequest>, c: seq<IoRequest>)
    ensures a + (b + c) == a + b + c
  {
  }

  method Retain(s: seq<IoRequest>, id: nat) returns (kept: seq<IoRequest>)
    ensures kept == Without(s, id)
  {
    kept := [];
    for i := 0 to |s|
      invariant kept + Without(s[i..], id) == Without(s, id)
    {
      WithoutStep(s, i, id);
      Shift(kept, [s[i]], Without(s[i + 1..], id));
      if s[i].id != id {
        kept := kept + [s[i]];
      }
    }
  }

  class DeadlineScheduler {
    var readSorted: seq<IoRequest>
    var writeSorted: seq<IoRequest>
    var readFifo: seq<IoRequest>
    var writeFifo: seq<IoRequest>
    var writesStarved: nat
    var lastSector: nat

    function View(): Sched
      reads this
    {
      Sched(readSorted, writeSorted, readFifo, writeFifo, writesStarved, lastSector)
    }

    constructor ()
      ensures View() == EMPTY
    {
      readSorted, writeSorted, readFifo, writeFifo := [], [], [], [];
      writesStarved, lastSector := 0, 0;
    }

    method Submit(request: IoRequest, now: nat)
      modifies this
      ensures View() == Submitted(old(View()), request, now)
    {
      var req := request;
      match req.direction {
        case Read =>
          req := req.(deadline := now + READ_DEADLINE);
          var pos := FindPosition(readSorted, req.sector, false);
          readSorted := readSorted[..pos] + [req] + readSorted[pos..];
          readFifo := readFifo + [req];
        case Write =>
          req := req.(deadline := now + WRITE_DEADLINE);
          var pos := FindPosition(writeSorted, req.sector, false);
          writeSorted := writeSorted[..pos] + [req] + writeSorted[pos..];
          writeFifo := writeFifo + [req];
        case _ =>
          readFifo := readFifo + [req];
      }
    }

    method Dispatch(now: nat) returns (r: Option<IoRequest>)
      modifies this
      ensures (View(), r) == Dispatched(old(View()), now)
    {
      ghost var rule := Choose(View(), now);
      if readFifo != [] && readFifo[0].deadline <= now {
        assert rule == ExpiredRead;
        var req := readFifo[0];
        readFifo := readFifo[1..];
        readSorted := Retain(readSorted, req.id);
        writesStarved := Starve(writesStarved);
        return Some(req);
      }
      if writeFifo != [] && writeFifo[0].deadline <= now {
        assert rule == ExpiredWrite;
        var req := writeFifo[0];
        writeFifo := writeFifo[1..];
        writeSorted := Retain(writeSorted, req.id);
        writesStarved := 0;
        return Some(req);
      }
      if writesStarved >= WRITES_STARVED_MAX && writeSorted != [] {
        assert rule == StarvedWrite;
        r := DispatchFromSorted(false);
        return;
      }
      if readSorted != [] {
        assert rule == SortedRead;
        writesStarved := Starve(writesStarved);
        r := DispatchFromSorted(true);
        return;
      }
      if writeSorted != [] {
        assert rule == SortedWrite;
        writesStarved := 0;
        r := DispatchFromSorted(false);
        return;
      }
      r := None;
    }

    method DispatchFromSorted(isRead: bool) returns (r: Option<IoRequest>)
      modifies this
      ensures (View(), r) == if isRead then FromReadSorted(old(View())) else FromWriteSorted(old(View()))
    {
      var sorted := if isRead then readSorted else writeSorted;
      if sorted == [] {
        return None;
      }
      var idx := FindNext(sorted, lastSector);
      var req := sorted[idx];
      sorted := sorted[..idx] + sorted[idx + 1..];
      lastSector := req.sector + req.nrSectors;
      if isRead {
        readSorted := sorted;
        readFifo := Retain(readFifo, req.id);
      } else {
        writeSorted := sorted;
        writeFifo := Retain(writeFifo, req.id);
      }
      r := Some(req);
    }
  }

  // ---- Facts about removing by id ----

  ghost predicate Distinct(s: seq<IoRequest>) {
    forall i, j :: 0 <= i < j < |s| ==> s[i].id != s[j].id
  }

  ghost predicate Sorted(s: seq<IoRequest>) {
    forall i, j :: 0 <= i < j < |s| ==> s[i].sector <= s[j].sector
  }

  ghost predicate Fresh(s: seq<IoRequest>, id: nat) {
    forall i :: 0 <= i < |s| ==> s[i].id != id
  }

  lemma {:induction false} WithoutFresh(s: seq<IoRequest>, id: nat)
    requires Fresh(s, id)
    ensures Without(s, id) == s
  {
    if s != [] {
      WithoutFresh(s[1..], id);
    }
  }

  ghost predicate Only(s: seq<IoRequest>, i: nat)
    requires i < |s|
  {
    forall j :: 0 <= j < |s| && j != i ==> s[j].id != s[i].id
  }

  /** Where no other entry has its id, removing an entry by id is removing one position. */
  lemma {:induction false} WithoutAt(s: seq<IoRequest>, i: nat)
    requires i < |s| && Only(s, i)
    ensures Without(s, s[i].id) == s[..i] + s[i + 1..]
  {
    if i == 0 {
      WithoutFresh(s[1..], s[0].id);
    } else {
      assert s[0].id != s[i].id;
      WithoutAt(s[1..], i - 1);
      assert s == [s[0]] + s[1..];
    }
  }

  /** Removal by id takes away every copy of that id and nothing else. */
  lemma {:induction false} WithoutCount(s: seq<IoRequest>, id: nat, x: IoRequest)
    ensures multiset(Without(s, id))[x] == if x.id == id then 0 else multiset(s)[x]
  {
    if s != [] {
      WithoutCount(s[1..], id, x);
      assert s == [s[0]] + s[1..];
    }
  }

  lemma RemovedKeeps(s: seq<IoRequest>, i: nat)
    requires Distinct(s) && i < |s|
    ensures Distinct(s[..i] + s[i + 1..])
    ensures Sorted(s) ==> Sorted(s[..i] + s[i + 1..])
    ensures multiset(s) == multiset(s[..i] + s[i + 1..]) + multiset{s[i]}
  {
    assert s == s[..i] + [s[i]] + s[i + 1..];
  }

  /** A list with distinct ids either holds the id at one position or not at all. */
  lemma WithoutKeeps(s: seq<IoRequest>, id: nat)
    requires Distinct(s)
    ensures Distinct(Without(s, id))
    ensures Sorted(s) ==> Sorted(Without(s, id))
  {
    if i :| 0 <= i < |s| && s[i].id == id {
      WithoutAt(s, i);
      RemovedKeeps(s, i);
    } else {
      WithoutFresh(s, id);
    }
  }

  lemma InsertedSorted(s: seq<IoRequest>, r: IoRequest)
    requires Sorted(s)
    ensures Sorted(Inserted(s, r))
  {
    var p := Position(s, r.sector, false);
    assert p < |s| ==> forall i :: p <= i < |s| ==> s[p].sector <= s[i].sector;
  }

  lemma InsertedAt(s: seq<IoRequest>, r: IoRequest, p: nat)
    requires p <= |s| && Distinct(s) && Fresh(s, r.id)
    ensures Distinct(s[..p] + [r] + s[p..])
    ensures multiset(s[..p] + [r] + s[p..]) == multiset(s) + multiset{r}
  {
    var t := s[..p] + [r] + s[p..];
    forall i, j | 0 <= i < j < |t| ensures t[i].id != t[j].id {
      assert i < p ==> t[i] == s[i];
      assert j > p ==> t[j] == s[j - 1];
    }
    assert s == s[..p] + s[p..];
  }

  lemma InsertedDistinct(s: seq<IoRequest>, r: IoRequest)
    requires Distinct(s) && Fresh(s, r.id)
    ensures Distinct(Inserted(s, r))
    ensures multiset(Inserted(s, r)) == multiset(s) + multiset{r}
  {
    InsertedAt(s, r, Position(s, r.sector, false));
  }

  // ---- The two indices agree ----

  predicate Indexed(r: IoRequest) {
    r.direction.Read? || r.direction.Write?
  }

  /** The sorted list holds the reads and writes of the FIFO and nothing else. */
  ghost predicate SideAgrees(sorted: seq<IoRequest>, fifo: seq<IoRequest>) {
    forall x :: multiset(sorted)[x] == if Indexed(x) then multiset(fifo)[x] else 0
  }

  /** Only flushes and discards may share an id. */
  ghost predicate Apart(fifo: seq<IoRequest>) {
    forall i, j :: 0 <= i < j < |fifo| && fifo[i].id == fifo[j].id ==> !Indexed(fifo[i]) && !Indexed(fifo[j])
  }

  /** A request may join: its id is not pending on this side, unless both are flushes or discards. */
  ghost predicate NoClash(fifo: seq<IoRequest>, r: IoRequest) {
    forall i :: 0 <= i < |fifo| && fifo[i].id == r.id ==> !Indexed(fifo[i]) && !Indexed(r)
  }

  /** One side of the scheduler. */
  ghost predicate SideOk(sorted: seq<IoRequest>, fifo: seq<IoRequest>) {
    SideAgrees(sorted, fifo) && Sorted(sorted) && Distinct(sorted) && Apart(fifo)
  }

  lemma SideMember(sorted: seq<IoRequest>, fifo: seq<IoRequest>, i: nat)
    requires SideAgrees(sorted, fifo) && i < |sorted|
    ensures sorted[i] in fifo && Indexed(sorted[i])
  {
    assert sorted[i] in multiset(sorted);
    assert multiset(fifo)[sorted[i]] > 0;
  }

  lemma SideInsert(sorted: seq<IoRequest>, fifo: seq<IoRequest>, r: IoRequest)
    requires SideOk(sorted, fifo) && Indexed(r) && NoClash(fifo, r)
    ensures SideOk(Inserted(sorted, r), fifo + [r])
  {
    forall i | 0 <= i < |sorted| ensures sorted[i].id != r.id {
      SideMember(sorted, fifo, i);
    }
    InsertedSorted(sorted, r);
    InsertedDistinct(sorted, r);
  }

  lemma SideAppend(sorted: seq<IoRequest>, fifo: seq<IoRequest>, r: IoRequest)
    requires SideOk(sorted, fifo) && !Indexed(r) && NoClash(fifo, r)
    ensures SideOk(sorted, fifo + [r])
  {
    assert multiset(fifo + [r]) == multiset(fifo) + multiset{r};
  }

  function RemovedAt(s: seq<IoRequest>, i: nat): seq<IoRequest>
    requires i < |s|
  {
    s[..i] + s[i + 1..]
  }

  lemma RemovedCount(s: seq<IoRequest>, i: nat)
    requires i < |s|
    ensures multiset(s) == multiset(RemovedAt(s, i)) + multiset{s[i]}
    ensures forall x :: x in RemovedAt(s, i) ==> x in s
  {
    assert s == s[..i] + [s[i]] + s[i + 1..];
  }

  lemma RemovedApart(fifo: seq<IoRequest>, i: nat)
    requires Apart(fifo) && i < |fifo|
    ensures Apart(RemovedAt(fifo, i))
  {
    var t := RemovedAt(fifo, i);
    forall j, k | 0 <= j < k < |t| && t[j].id == t[k].id ensures !Indexed(t[j]) && !Indexed(t[k]) {
      assert t[j] == fifo[if j < i then j else j + 1] && t[k] == fifo[if k < i then k else k + 1];
    }
  }

  /** Once entry i is gone, no read or write with its id is left. */
  lemma NoneLeft(fifo: seq<IoRequest>, i: nat, x: IoRequest)
    requires Apart(fifo) && i < |fifo| && Indexed(x) && x.id == fifo[i].id
    ensures x !in RemovedAt(fifo, i)
  {
    var t := RemovedAt(fifo, i);
    forall j | 0 <= j < |t| ensures t[j] != x {
      assert t[j] == fifo[if j < i then j else j + 1];
    }
  }

  lemma SideTake(sorted: seq<IoRequest>, fifo: seq<IoRequest>, i: nat)
    requires SideOk(sorted, fifo) && i < |fifo|
    ensures SideOk(Without(sorted, fifo[i].id), RemovedAt(fifo, i))
  {
    var id, fifo' := fifo[i].id, RemovedAt(fifo, i);
    WithoutKeeps(sorted, id);
    RemovedApart(fifo, i);
    RemovedCount(fifo, i);
    forall x ensures multiset(Without(sorted, id))[x] == if Indexed(x) then multiset(fifo')[x] else 0 {
      WithoutCount(sorted, id, x);
      if Indexed(x) && x.id == id {
        NoneLeft(fifo, i, x);
      }
    }
  }

  ghost predicate Agree(s: Sched) {
    && SideOk(s.readSorted, s.readFifo)
    && SideOk(s.writeSorted, s.writeFifo)
    && (forall r :: r in s.readFifo ==> !r.direction.Write? && (r.direction.Read? ==> r.deadline >= READ_DEADLINE))
    && (forall r :: r in s.writeFifo ==> r.direction.Write?)
  }

  ghost function Pending(s: Sched): multiset<IoRequest> {
    multiset(s.readFifo) + multiset(s.writeFifo)
  }

  /** The FIFO a request joins. */
  function FifoOf(s: Sched, r: IoRequest): seq<IoRequest> {
    if r.direction.Write? then s.writeFifo else s.readFifo
  }

  lemma SubmitAgrees(s: Sched, req: IoRequest, now: nat)
    requires Agree(s) && NoClash(FifoOf(s, req), req)
    ensures Agree(Submitted(s, req, now))
  {
    var r := Stamped(req, now);
    if r.direction.Read? {
      SideInsert(s.readSorted, s.readFifo, r);
      Appended(s.readFifo, r);
    } else if r.direction.Write? {
      SideInsert(s.writeSorted, s.writeFifo, r);
      Appended(s.writeFifo, r);
    } else {
      SideAppend(s.readSorted, s.readFifo, r);
      Appended(s.readFifo, r);
    }
  }

  lemma SubmitPends(s: Sched, req: IoRequest, now: nat)
    ensures Pending(Submitted(s, req, now)) == Pending(s) + multiset{Stamped(req, now)}
  {
    Appended(FifoOf(s, req), Stamped(req, now));
  }

  lemma Appended(fifo: seq<IoRequest>, r: IoRequest)
    ensures multiset(fifo + [r]) == multiset(fifo) + multiset{r}
    ensures forall x :: x in fifo + [r] ==> x in fifo || x == r
  {
  }

  /** Entry i of one side's FIFO leaves both lists of that side; the other side is untouched. */
  ghost predicate Takes(s: Sched, s': Sched, read: bool, i: nat) {
    if read then
      && i < |s.readFifo|
      && s'.readFifo == RemovedAt(s.readFifo, i) && s'.readSorted == Without(s.readSorted, s.readFifo[i].id)
      && s'.writeFifo == s.writeFifo && s'.writeSorted == s.writeSorted
    else
      && i < |s.writeFifo|
      && s'.writeFifo == RemovedAt(s.writeFifo, i) && s'.writeSorted == Without(s.writeSorted, s.writeFifo[i].id)
      && s'.readFifo == s.readFifo && s'.readSorted == s.readSorted
  }

  function Taken(s: Sched, read: bool, i: nat): IoRequest
    requires i < if read then |s.readFifo| else |s.writeFifo|
  {
    if read then s.readFifo[i] else s.writeFifo[i]
  }

  /** The elevator's choice is one entry of the FIFO, and removing it by id from either list removes just that. */
  lemma NextTaken(sorted: seq<IoRequest>, fifo: seq<IoRequest>, head: nat) returns (i: nat)
    requires SideOk(sorted, fifo) && sorted != []
    ensures var k := NextIndex(sorted, head);
            && i < |fifo| && fifo[i] == sorted[k]
            && sorted[..k] + sorted[k + 1..] == Without(sorted, fifo[i].id)
            && Without(fifo, fifo[i].id) == RemovedAt(fifo, i)
  {
    var k := NextIndex(sorted, head);
    SideMember(sorted, fifo, k);
    i :| 0 <= i < |fifo| && fifo[i] == sorted[k];
    WithoutAt(sorted, k);
    WithoutAt(fifo, i);
  }

  lemma SortedReadTakes(s: Sched) returns (i: nat)
    requires SideOk(s.readSorted, s.readFifo) && s.readSorted != []
    ensures Takes(s, FromReadSorted(s).0, true, i) && FromReadSorted(s).1 == Some(s.readFifo[i])
  {
    i := NextTaken(s.readSorted, s.readFifo, s.lastSector);
  }

  lemma SortedWriteTakes(s: Sched) returns (i: nat)
    requires SideOk(s.writeSorted, s.writeFifo) && s.writeSorted != []
    ensures Takes(s, FromWriteSorted(s).0, false, i) && FromWriteSorted(s).1 == Some(s.writeFifo[i])
  {
    i := NextTaken(s.writeSorted, s.writeFifo, s.lastSector);
  }

  lemma DispatchTakes(s: Sched, now: nat) returns (read: bool, i: nat)
    requires Agree(s) && !Choose(s, now).Nothing?
    ensures Takes(s, Dispatched(s, now).0, read, i) && Dispatched(s, now).1 == Some(Taken(s, read, i))
  {
    match Choose(s, now)
    case ExpiredRead => read, i := true, 0;
    case ExpiredWrite => read, i := false, 0;
    case SortedRead =>
      read := true;
      i := SortedReadTakes(s.(writesStarved := Starve(s.writesStarved)));
    case StarvedWrite =>
      read := false;
      i := SortedWriteTakes(s);
    case SortedWrite =>
      read := false;
      i := SortedWriteTakes(s.(writesStarved := 0));
  }

  lemma TakeAgrees(s: Sched, s': Sched, read: bool, i: nat)
    requires Agree(s) && Takes(s, s', read, i)
    ensures Agree(s') && Pending(s) == Pending(s') + multiset{Taken(s, read, i)}
  {
    if read {
      SideTake(s.readSorted, s.readFifo, i);
      RemovedCount(s.readFifo, i);
    } else {
      SideTake(s.writeSorted, s.writeFifo, i);
      RemovedCount(s.writeFifo, i);
    }
  }

  // ---- Whole runs ----

  datatype Op = Submit(req: IoRequest, now: nat) | Dispatch(now: nat)

  /** The scheduler after a run, with the requests accepted (as stamped) and returned, in order. */
  datatype History = History(s: Sched, accepted: seq<IoRequest>, returned: seq<IoRequest>)

  function Perform(h: History, op: Op): History {
    match op
    case Submit(req, now) => h.(s := Submitted(h.s, req, now), accepted := h.accepted + [Stamped(req, now)])
    case Dispatch(now) =>
      var (s', o) := Dispatched(h.s, now);
      h.(s := s', returned := if o.Some? then h.returned + [o.value] else h.returned)
  }

  function Play(h: History, ops: seq<Op>): History
    decreases |ops|
  {
    if ops == [] then h else Play(Perform(h, ops[0]), ops[1..])
  }

  const START := History(EMPTY, [], [])

  /** Every accepted request is pending or was returned, exactly once, and the indices agree. */
  ghost predicate Exact(h: History) {
    Agree(h.s) && multiset(h.accepted) == Pending(h.s) + multiset(h.returned)
  }

  lemma SubmitExact(h: History, req: IoRequest, now: nat)
    requires Exact(h) && NoClash(FifoOf(h.s, req), req)
    ensures Exact(Perform(h, Submit(req, now)))
  {
    SubmitAgrees(h.s, req, now);
    SubmitPends(h.s, req, now);
    Appended(h.accepted, Stamped(req, now));
  }

  lemma DispatchExact(h: History, now: nat)
    requires Exact(h)
    ensures Exact(Perform(h, Dispatch(now)))
  {
    if !Choose(h.s, now).Nothing? {
      var read, i := DispatchTakes(h.s, now);
      TakeAgrees(h.s, Dispatched(h.s, now).0, read, i);
      Appended(h.returned, Taken(h.s, read, i));
    }
  }

  /** No submission of the run shares its id with a request pending on its side, flushes and discards aside. */
  ghost predicate ClashFree(h: History, ops: seq<Op>)
    decreases |ops|
  {
    ops != [] ==>
      && (ops[0].Submit? ==> NoClash(FifoOf(h.s, ops[0].req), ops[0].req))
      && ClashFree(Perform(h, ops[0]), ops[1..])
  }

  lemma PerformExact(h: History, op: Op)
    requires Exact(h) && (op.Submit? ==> NoClash(FifoOf(h.s, op.req), op.req))
    ensures Exact(Perform(h, op))
  {
    match op
    case Submit(req, now) => SubmitExact(h, req, now);
    case Dispatch(now) => DispatchExact(h, now);
  }

  lemma {:induction false} PlayExact(h: History, ops: seq<Op>)
    requires Exact(h) && ClashFree(h, ops)
    ensures Exact(Play(h, ops))
    decreases |ops|
  {
    if ops != [] {
      PerformExact(h, ops[0]);
      PlayExact(Perform(h, ops[0]), ops[1..]);
    }
  }

  // ---- Runs with distinct ids ----

  ghost predicate DistinctIds(ops: seq<Op>) {
    forall i, j :: 0 <= i < j < |ops| && ops[i].Submit? && ops[j].Submit? ==> ops[i].req.id != ops[j].req.id
  }

  ghost predicate AllFresh(accepted: seq<IoRequest>, ops: seq<Op>) {
    forall i :: 0 <= i < |ops| && ops[i].Submit? ==> Fresh(accepted, ops[i].req.id)
  }

  lemma StillFresh(h: History, ops: seq<Op>)
    requires ops != [] && DistinctIds(ops) && AllFresh(h.accepted, ops)
    ensures DistinctIds(ops[1..]) && AllFresh(Perform(h, ops[0]).accepted, ops[1..])
  {
    var rest := ops[1..];
    forall i | 0 <= i < |rest| && rest[i].Submit? ensures Fresh(Perform(h, ops[0]).accepted, rest[i].req.id) {
      assert rest[i] == ops[i + 1];
    }
  }

  lemma AcceptedCovers(h: History, r: IoRequest)
    requires Exact(h) && Fresh(h.accepted, r.id)
    ensures NoClash(FifoOf(h.s, r), r)
  {
    var fifo := FifoOf(h.s, r);
    forall i | 0 <= i < |fifo| ensures fifo[i].id != r.id {
      assert fifo[i] in multiset(h.accepted);
    }
  }

  lemma {:induction false} DistinctFrom(h: History, ops: seq<Op>)
    requires Exact(h) && DistinctIds(ops) && AllFresh(h.accepted, ops)
    ensures ClashFree(h, ops)
    decreases |ops|
  {
    if ops != [] {
      if ops[0].Submit? {
        AcceptedCovers(h, ops[0].req);
      }
      PerformExact(h, ops[0]);
      StillFresh(h, ops);
      DistinctFrom(Perform(h, ops[0]), ops[1..]);
    }
  }

  /** Distinct ids are enough; reusing an id that is no longer pending on its side is fine too. */
  lemma DistinctIdsClashFree(ops: seq<Op>)
    requires DistinctIds(ops)
    ensures ClashFree(START, ops)
  {
    DistinctFrom(START, ops);
  }

  /** Over every clash-free run: write_sorted is a permutation of write_fifo, read_sorted of the reads in read_fifo,
      both are ordered by sector, and every accepted request is pending or was returned exactly once. */
  lemma RunExact(ops: seq<Op>)
    requires ClashFree(START, ops)
    ensures var h := Play(START, ops);
            && multiset(h.s.writeSorted) == multiset(h.s.writeFifo)
            && multiset(h.s.readSorted) == multiset(Reads(h.s.readFifo))
            && Sorted(h.s.readSorted) && Sorted(h.s.writeSorted)
            && multiset(h.accepted) == multiset(h.s.readFifo) + multiset(h.s.writeFifo) + multiset(h.returned)
  {
    PlayExact(START, ops);
    var s := Play(START, ops).s;
    forall x ensures multiset(s.writeSorted)[x] == multiset(s.writeFifo)[x] {
      assert x in s.writeFifo ==> Indexed(x);
    }
    forall x ensures multiset(s.readSorted)[x] == multiset(Reads(s.readFifo))[x] {
      ReadsCount(s.readFifo, x);
      assert x in s.readFifo ==> !x.direction.Write?;
    }
  }

  function Reads(s: seq<IoRequest>): seq<IoRequest> {
    if s == [] then [] else (if s[0].direction.Read? then [s[0]] else []) + Reads(s[1..])
  }

  lemma {:induction false} ReadsCount(s: seq<IoRequest>, x: IoRequest)
    ensures multiset(Reads(s))[x] == if x.direction.Read? then multiset(s)[x] else 0
  {
    if s != [] {
      ReadsCount(s[1..], x);
      assert s == [s[0]] + s[1..];
    }
  }

  lemma {:induction false} AcceptedZero(h: History, ops: seq<Op>)
    requires ZeroDeadlines(ops) && forall r :: r in h.accepted && !Indexed(r) ==> r.deadline == 0
    ensures forall r :: r in Play(h, ops).accepted && !Indexed(r) ==> r.deadline == 0
    decreases |ops|
  {
    if ops != [] {
      AcceptedZero(Perform(h, ops[0]), ops[1..]);
    }
  }

  lemma SideNonEmpty(sorted: seq<IoRequest>, fifo: seq<IoRequest>)
    requires SideAgrees(sorted, fifo)
    ensures fifo != [] && Indexed(fifo[0]) ==> sorted != []
  {
    if fifo != [] && Indexed(fifo[0]) {
      assert fifo[0] in multiset(fifo);
      assert multiset(sorted)[fifo[0]] > 0;
    }
  }

  lemma NothingToDo(s: Sched, now: nat)
    requires Agree(s) && Choose(s, now).Nothing?
    requires forall r :: r in s.readFifo && !Indexed(r) ==> r.deadline == 0
    ensures s.readFifo == [] && s.writeFifo == []
  {
    SideNonEmpty(s.readSorted, s.readFifo);
    SideNonEmpty(s.writeSorted, s.writeFifo);
  }

  /** After any clash-free run with zero flush deadlines, dispatch comes back empty-handed exactly when nothing is pending. */
  lemma WorkConserving(ops: seq<Op>, now: nat)
    requires ClashFree(START, ops) && ZeroDeadlines(ops)
    ensures var s := Play(START, ops).s; Dispatched(s, now).1.None? <==> s.readFifo == [] && s.writeFifo == []
  {
    PlayExact(START, ops);
    AcceptedZero(START, ops);
    var h := Play(START, ops);
    if Choose(h.s, now).Nothing? {
      forall r | r in h.s.readFifo && !Indexed(r) ensures r.deadline == 0 {
        assert r in multiset(h.accepted);
      }
      NothingToDo(h.s, now);
    } else {
      var read, i := DispatchTakes(h.s, now);
    }
  }

  // ---- The elevator ----

  /** r is the nearest of these at or beyond the head, or, when there is none, the lowest of all. */
  ghost predicate Nearest(sorted: seq<IoRequest>, head: nat, r: IoRequest) {
    && r in sorted
    && (r.sector >= head || forall x :: x in sorted ==> x.sector < head)
    && forall x :: x in sorted && (x.sector >= head <==> r.sector >= head) ==> r.sector <= x.sector
  }

  lemma NextNearest(sorted: seq<IoRequest>, head: nat)
    requires Sorted(sorted) && sorted != []
    ensures Nearest(sorted, head, sorted[NextIndex(sorted, head)])
  {
    var i, p := NextIndex(sorted, head), Position(sorted, head, true);
    forall x | x in sorted && (x.sector >= head <==> sorted[i].sector >= head) ensures sorted[i].sector <= x.sector {
      var k :| 0 <= k < |sorted| && sorted[k] == x;
      assert k < p ==> x.sector < head;
    }
  }

  /** A dispatch by sector, of either side, returns the nearest request of that side and moves the head behind it. */
  lemma ElevatorOrder(s: Sched, now: nat)
    requires Agree(s) && (Choose(s, now).SortedRead? || Choose(s, now).SortedWrite? || Choose(s, now).StarvedWrite?)
    ensures
      var (s', o) := Dispatched(s, now);
      && o.Some? && s'.lastSector == o.value.sector + o.value.nrSectors
      && Nearest(if Choose(s, now).SortedRead? then s.readSorted else s.writeSorted, s.lastSector, o.value)
  {
    if Choose(s, now).SortedRead? {
      NextNearest(s.readSorted, s.lastSector);
    } else {
      NextNearest(s.writeSorted, s.lastSector);
    }
  }

  // ---- Latency: expired reads leave in FIFO order, at once ----

  ghost predicate NonDecreasingClock(ops: seq<Op>, from: nat) {
    && (forall i :: 0 <= i < |ops| ==> from <= ops[i].now)
    && (forall i, j :: 0 <= i < j < |ops| ==> ops[i].now <= ops[j].now)
  }

  /** Flushes and discards arrive with deadline 0, as IoRequest::new makes them. */
  ghost predicate ZeroDeadlines(ops: seq<Op>) {
    forall i :: 0 <= i < |ops| && ops[i].Submit? && !Indexed(ops[i].req) ==> ops[i].req.deadline == 0
  }

  /** Nothing ahead of a read in the FIFO is due later than that read. */
  ghost predicate DueInOrder(s: Sched, clock: nat) {
    FifoDue(s.readFifo, clock)
  }

  ghost predicate FifoDue(fifo: seq<IoRequest>, clock: nat) {
    && (forall i :: 0 <= i < |fifo| ==> fifo[i].deadline <= clock + READ_DEADLINE)
    && (forall i, j :: 0 <= i < j < |fifo| && fifo[j].direction.Read? ==> fifo[i].deadline <= fifo[j].deadline)
  }

  lemma FifoWithout(fifo: seq<IoRequest>, id: nat, clock: nat)
    requires FifoDue(fifo, clock)
    ensures FifoDue(Without(fifo, id), clock)
  {
    var f := WithoutOrdered(fifo, id);
  }

  lemma FifoAppend(fifo: seq<IoRequest>, r: IoRequest, clock: nat, now: nat)
    requires FifoDue(fifo, clock) && clock <= now
    requires r.deadline == now + READ_DEADLINE || (!r.direction.Read? && r.deadline == 0)
    ensures FifoDue(fifo + [r], now)
  {
  }

  lemma {:induction false} WithoutOrdered(s: seq<IoRequest>, id: nat) returns (f: seq<nat>)
    ensures |f| == |Without(s, id)|
    ensures forall i :: 0 <= i < |f| ==> f[i] < |s| && Without(s, id)[i] == s[f[i]]
    ensures forall i, j :: 0 <= i < j < |f| ==> f[i] < f[j]
  {
    f := [];
    if s != [] {
      var g := WithoutOrdered(s[1..], id);
      f := (if s[0].id != id then [0] else []) + seq(|g|, i requires 0 <= i < |g| => g[i] + 1);
    }
  }

  lemma PerformDue(h: History, op: Op, clock: nat)
    requires DueInOrder(h.s, clock) && clock <= op.now
    requires op.Submit? && !Indexed(op.req) ==> op.req.deadline == 0
    ensures DueInOrder(Perform(h, op).s, op.now)
  {
    match op
    case Submit(req, now) =>
      if !req.direction.Write? {
        FifoAppend(h.s.readFifo, Stamped(req, now), clock, now);
      }
    case Dispatch(now) =>
      if Choose(h.s, now).SortedRead? {
        var i := NextIndex(h.s.readSorted, h.s.lastSector);
        FifoWithout(h.s.readFifo, h.s.readSorted[i].id, clock);
      }
  }

  lemma {:induction false} PlayDue(h: History, ops: seq<Op>, clock: nat)
    requires DueInOrder(h.s, clock) && NonDecreasingClock(ops, clock) && ZeroDeadlines(ops)
    ensures DueInOrder(Play(h, ops).s, if ops == [] then clock else ops[|ops| - 1].now)
    decreases |ops|
  {
    if ops != [] {
      PerformDue(h, ops[0], clock);
      PlayDue(Perform(h, ops[0]), ops[1..], ops[0].now);
    }
  }

  function Dispatches(ops: seq<Op>): nat {
    if ops == [] then 0 else (if ops[0].Dispatch? then 1 else 0) + Dispatches(ops[1..])
  }

  /** While the first n entries of read_fifo are expired, dispatches return exactly those, in order,
      whatever is submitted in between. */
  lemma {:induction false} ExpiredInOrder(h: History, ops: seq<Op>, n: nat)
    requires n <= |h.s.readFifo| && Dispatches(ops) <= n
    requires forall i, k :: 0 <= i < n && 0 <= k < |ops| && ops[k].Dispatch? ==> h.s.readFifo[i].deadline <= ops[k].now
    ensures Play(h, ops).returned == h.returned + h.s.readFifo[..Dispatches(ops)]
    decreases |ops|
  {
    if ops != [] {
      var h', rest := Perform(h, ops[0]), ops[1..];
      if ops[0].Submit? {
        assert h.s.readFifo <= h'.s.readFifo;
        ExpiredInOrder(h', rest, n);
        assert h'.s.readFifo[..Dispatches(rest)] == h.s.readFifo[..Dispatches(rest)];
      } else {
        HeadFirst(h, ops[0].now);
        ExpiredInOrder(h', rest, n - 1);
        Cons(h.returned, h.s.readFifo, Dispatches(rest));
      }
    }
  }

  lemma Cons(pre: seq<IoRequest>, s: seq<IoRequest>, k: nat)
    requires k < |s|
    ensures pre + [s[0]] + s[1..][..k] == pre + s[..k + 1]
  {
    assert s[..k + 1] == [s[0]] + s[1..][..k];
  }

  lemma HeadFirst(h: History, now: nat)
    requires h.s.readFifo != [] && h.s.readFifo[0].deadline <= now
    ensures var h' := Perform(h, Dispatch(now));
            h'.s.readFifo == h.s.readFifo[1..] && h'.returned == h.returned + [h.s.readFifo[0]]
  {
  }

  lemma LatencyFrom(h: History, clock: nat, future: seq<Op>, k: nat)
    requires DueInOrder(h.s, clock) && k < |h.s.readFifo| && h.s.readFifo[k].direction.Read?
    requires ExpiredThroughout(h.s.readFifo[k], future) && Dispatches(future) == k + 1
    ensures Play(h, future).returned == h.returned + h.s.readFifo[..k] + [h.s.readFifo[k]]
  {
    var fifo := h.s.readFifo;
    forall i | 0 <= i < k + 1 ensures fifo[i].deadline <= fifo[k].deadline {
    }
    ExpiredInOrder(h, future, k + 1);
    Snoc(h.returned, fifo, k);
  }

  lemma Snoc(pre: seq<IoRequest>, s: seq<IoRequest>, k: nat)
    requires k < |s|
    ensures pre + s[..k + 1] == pre + s[..k] + [s[k]]
  {
    assert s[..k + 1] == s[..k] + [s[k]];
  }

  ghost predicate ExpiredThroughout(r: IoRequest, ops: seq<Op>) {
    forall i :: 0 <= i < |ops| && ops[i].Dispatch? ==> r.deadline <= ops[i].now
  }

  /** After any run, a read that is expired from now on with k entries ahead of it is returned by the
      (k+1)-th next dispatch, and those k by the k before, whatever is submitted meanwhile. */
  lemma ExpiredReadLatency(past: seq<Op>, h: History, future: seq<Op>, k: nat)
    requires NonDecreasingClock(past, 0) && ZeroDeadlines(past) && h == Play(START, past)
    requires k < |h.s.readFifo| && h.s.readFifo[k].direction.Read?
    requires ExpiredThroughout(h.s.readFifo[k], future) && Dispatches(future) == k + 1
    ensures Play(h, future).returned == h.returned + h.s.readFifo[..k] + [h.s.readFifo[k]]
  {
    PlayDue(START, past, 0);
    LatencyFrom(h, if past == [] then 0 else past[|past| - 1].now, future, k);
  }
}
