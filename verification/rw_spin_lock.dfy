/** The writer-preferring reader-writer spinlock, one step per atomic operation.

    Any number of threads interleave under sequential consistency. `word` is the u32
    lock word. A compare-exchange compares it with the value the thread loaded in an
    earlier step, and the weak form may fail spuriously. */
module RwSpinLock {

  const WRITER_BIT: nat := 0x8000_0000
  const M: nat := 0x1_0000_0000
  type U32 = x: nat | x < M

  datatype Op = Read | TryRead | Write

  datatype Pc =
    | Idle
    | Spin(op: Op)                // about to load the lock word
    | Loaded(op: Op, seen: U32)   // loaded it, about to test the writer bit and compare-exchange
    | Reading                     // an RwSpinLockReadGuard exists
    | Draining                    // set the writer bit, waits for the readers to drain
    | Writing                     // an RwSpinLockWriteGuard exists

  datatype State = State(word: U32, pcs: map<nat, Pc>)
  {
    function At(t: nat): Pc {
      if t in pcs then pcs[t] else Idle
    }

    function With(t: nat, p: Pc): State {
      this.(pcs := if p.Idle? then pcs - {t} else pcs[t := p])
    }

    function Readers(): set<nat> {
      set t | t in pcs && pcs[t].Reading?
    }

    function Writers(): set<nat> {
      set t | t in pcs && (pcs[t].Draining? || pcs[t].Writing?)
    }
  }

  datatype Action =
    | Call(t: nat, op: Op)
    | Load(t: nat)
    | Cas(t: nat, spurious: bool)
    | Drain(t: nat)
    | TryWrite(t: nat)
    | ReadDrop(t: nat)
    | WriteDrop(t: nat)

  const INIT := State(0, map[])

  /** Bit 31 of a u32. */
  predicate HasWriterBit(w: U32) {
    w >= WRITER_BIT
  }

  predicate Enabled(s: State, a: Action) {
    match a
    case Call(t, _) => s.At(t).Idle?
    case Load(t) => s.At(t).Spin?
    case Cas(t, spurious) => s.At(t).Loaded? && (spurious ==> !s.At(t).op.TryRead?)
    case Drain(t) => s.At(t).Draining?
    case TryWrite(t) => s.At(t).Idle?
    case ReadDrop(t) => s.At(t).Reading?
    case WriteDrop(t) => s.At(t).Writing?
  }

  function Step(s: State, a: Action): State
    requires Enabled(s, a)
  {
    match a
    case Call(t, op) => s.With(t, Spin(op))
    case Load(t) => s.With(t, Loaded(s.At(t).op, s.word))
    case Cas(t, spurious) =>
      var Loaded(op, seen) := s.At(t);
      if !HasWriterBit(seen) && s.word == seen && !spurious then
        if op.Write? then s.With(t, Draining).(word := seen + WRITER_BIT)
        else s.With(t, Reading).(word := (seen + 1) % M)
      else
        s.With(t, if op.TryRead? then Idle else Spin(op))
    case Drain(t) => if s.word % WRITER_BIT == 0 then s.With(t, Writing) else s
    case TryWrite(t) => if s.word == 0 then s.With(t, Writing).(word := WRITER_BIT) else s
    case ReadDrop(t) => s.With(t, Idle).(word := (s.word - 1) % M)
    case WriteDrop(t) => s.With(t, Idle).(word := if HasWriterBit(s.word) then s.word - WRITER_BIT else s.word)
  }

  ghost predicate Run(ss: seq<State>, acts: seq<Action>) {
    && |ss| == |acts| + 1
    && ss[0] == INIT
    && forall i :: 0 <= i < |acts| ==> Enabled(ss[i], acts[i]) && ss[i + 1] == Step(ss[i], acts[i])
  }

  // ---- The invariant: the word counts readers and the writer, in one sum ----

  ghost predicate Inv(s: State) {
    && Counts(s.word, s.Readers(), s.Writers())
    && (forall t :: s.At(t).Writing? ==> s.Readers() == {})
  }

  /** What one thread changing its program counter does to the two sets. */
  lemma Moves(s: State, t: nat, p: Pc)
    ensures s.With(t, p).Readers() == ReadersAfter(s, t, p)
    ensures s.With(t, p).Writers() == WritersAfter(s, t, p)
    ensures forall u :: u != t ==> s.With(t, p).At(u) == s.At(u)
    ensures s.With(t, p).At(t) == p
    ensures t in s.Readers() <==> s.At(t).Reading?
    ensures t in s.Writers() <==> s.At(t).Draining? || s.At(t).Writing?
  {
  }

  /** The invariant as a fact about the word and the two sets of threads. */
  predicate Counts(word: U32, readers: set<nat>, writers: set<nat>) {
    && word == |readers| + (if writers == {} then 0 else WRITER_BIT)
    && |readers| <= WRITER_BIT
    && (writers != {} ==> |readers| < WRITER_BIT)
    && (forall t, u :: t in writers && u in writers ==> t == u)
  }

  lemma CountsEnter(word: U32, readers: set<nat>, writers: set<nat>, t: nat)
    requires Counts(word, readers, writers) && t !in readers && !HasWriterBit(word)
    ensures writers == {}
    ensures Counts(word + 1, readers + {t}, writers)
    ensures Counts(word + WRITER_BIT, readers, writers + {t})
  {
    assert |readers + {t}| == |readers| + 1;
  }

  lemma CountsLeave(word: U32, readers: set<nat>, writers: set<nat>, t: nat)
    requires Counts(word, readers, writers)
    ensures t in readers ==> word > 0 && Counts(word - 1, readers - {t}, writers)
    ensures t in writers ==> word >= WRITER_BIT && HasWriterBit(word) && Counts(word - WRITER_BIT, readers, writers - {t})
  {
    if t in readers {
      assert |readers - {t}| == |readers| - 1;
    }
    if t in writers {
      assert writers - {t} == {};
    }
  }

  function ReadersAfter(s: State, t: nat, p: Pc): set<nat> {
    if p.Reading? then s.Readers() + {t} else s.Readers() - {t}
  }

  function WritersAfter(s: State, t: nat, p: Pc): set<nat> {
    if p.Draining? || p.Writing? then s.Writers() + {t} else s.Writers() - {t}
  }

  lemma InvMove(s: State, t: nat, p: Pc, word: U32)
    requires Inv(s)
    requires Counts(word, ReadersAfter(s, t, p), WritersAfter(s, t, p))
    requires p.Writing? ==> ReadersAfter(s, t, p) == {}
    requires p.Reading? ==> s.Writers() == {}
    ensures Inv(s.With(t, p).(word := word))
  {
    var s' := s.With(t, p).(word := word);
    Moves(s, t, p);
    assert s'.Readers() == s.With(t, p).Readers() && s'.Writers() == s.With(t, p).Writers();
    forall u | s'.At(u).Writing? ensures s'.Readers() == {} {
      if u != t {
        Moves(s, u, Idle);
      }
    }
  }

  /** A thread outside both sets changes its program counter without entering either. */
  lemma InvStays(s: State, t: nat, p: Pc)
    requires Inv(s) && Outside(s.At(t)) && Outside(p)
    ensures Inv(s.With(t, p))
  {
    Moves(s, t, p);
    assert ReadersAfter(s, t, p) == s.Readers() && WritersAfter(s, t, p) == s.Writers();
    InvMove(s, t, p, s.word);
  }

  predicate Outside(p: Pc) {
    p.Idle? || p.Spin? || p.Loaded?
  }

  lemma InvReadEnter(s: State, t: nat)
    requires Inv(s) && Outside(s.At(t)) && !HasWriterBit(s.word)
    ensures Inv(s.With(t, Reading).(word := s.word + 1))
  {
    Moves(s, t, Idle);
    CountsEnter(s.word, s.Readers(), s.Writers(), t);
    assert s.Writers() - {t} == s.Writers();
    InvMove(s, t, Reading, s.word + 1);
  }

  lemma InvWriteEnter(s: State, t: nat)
    requires Inv(s) && Outside(s.At(t)) && !HasWriterBit(s.word)
    ensures Inv(s.With(t, Draining).(word := s.word + WRITER_BIT))
  {
    Moves(s, t, Idle);
    CountsEnter(s.word, s.Readers(), s.Writers(), t);
    assert s.Readers() - {t} == s.Readers();
    InvMove(s, t, Draining, s.word + WRITER_BIT);
  }

  lemma InvCas(s: State, t: nat, spurious: bool)
    requires Inv(s) && Enabled(s, Cas(t, spurious))
    ensures Inv(Step(s, Cas(t, spurious)))
  {
    var Loaded(op, seen) := s.At(t);
    if !HasWriterBit(seen) && s.word == seen && !spurious {
      if op.Write? {
        InvWriteEnter(s, t);
      } else {
        InvReadEnter(s, t);
      }
    } else {
      InvStays(s, t, if op.TryRead? then Idle else Spin(op));
    }
  }

  lemma InvDrain(s: State, t: nat)
    requires Inv(s) && s.At(t).Draining?
    ensures Inv(Step(s, Drain(t)))
  {
    if s.word % WRITER_BIT == 0 {
      Moves(s, t, Idle);
      assert s.Readers() == {} && s.Writers() + {t} == s.Writers();
      InvMove(s, t, Writing, s.word);
    }
  }

  lemma InvTryWrite(s: State, t: nat)
    requires Inv(s) && s.At(t).Idle?
    ensures Inv(Step(s, TryWrite(t)))
  {
    if s.word == 0 {
      Moves(s, t, Idle);
      CountsEnter(s.word, s.Readers(), s.Writers(), t);
      InvMove(s, t, Writing, WRITER_BIT);
    }
  }

  lemma InvReadDrop(s: State, t: nat)
    requires Inv(s) && s.At(t).Reading?
    ensures Inv(Step(s, ReadDrop(t)))
  {
    Moves(s, t, Idle);
    CountsLeave(s.word, s.Readers(), s.Writers(), t);
    assert s.Writers() - {t} == s.Writers();
    InvMove(s, t, Idle, s.word - 1);
  }

  lemma InvWriteDrop(s: State, t: nat)
    requires Inv(s) && s.At(t).Writing?
    ensures Inv(Step(s, WriteDrop(t)))
  {
    Moves(s, t, Idle);
    CountsLeave(s.word, s.Readers(), s.Writers(), t);
    assert s.Readers() - {t} == s.Readers();
    InvMove(s, t, Idle, s.word - WRITER_BIT);
  }

  lemma InvStep(s: State, a: Action)
    requires Inv(s) && Enabled(s, a)
    ensures Inv(Step(s, a))
  {
    var t := a.t;
    match a
    case Call(_, op) => InvStays(s, t, Spin(op));
    case Load(_) => InvStays(s, t, Loaded(s.At(t).op, s.word));
    case Cas(_, spurious) => InvCas(s, t, spurious);
    case Drain(_) => InvDrain(s, t);
    case TryWrite(_) => InvTryWrite(s, t);
    case ReadDrop(_) => InvReadDrop(s, t);
    case WriteDrop(_) => InvWriteDrop(s, t);
  }

  lemma {:induction false} InvAt(ss: seq<State>, acts: seq<Action>, i: nat)
    requires Run(ss, acts) && i < |ss|
    ensures Inv(ss[i])
  {
    if i > 0 {
      InvAt(ss, acts, i - 1);
      InvStep(ss[i - 1], acts[i - 1]);
    }
  }

  /** A write guard excludes every other guard, however many threads there are. */
  lemma Exclusion(ss: seq<State>, acts: seq<Action>, i: nat, t: nat, u: nat)
    requires Run(ss, acts) && i < |ss| && t != u
    requires ss[i].At(t).Writing?
    ensures !ss[i].At(u).Reading? && !ss[i].At(u).Writing? && !ss[i].At(u).Draining?
  {
    InvAt(ss, acts, i);
    Moves(ss[i], t, Idle);
    Moves(ss[i], u, Idle);
  }

  /** The low 31 bits count the read guards, and bit 31 says that exactly one writer waits or is inside. */
  ghost predicate Encodes(s: State) {
    && s.word % WRITER_BIT == |s.Readers()|
    && (HasWriterBit(s.word) <==> exists t :: s.Writers() == {t})
  }

  lemma EncodesWhenRoom(s: State)
    requires Inv(s) && |s.Readers()| < WRITER_BIT
    ensures Encodes(s)
  {
    if t :| t in s.Writers() {
      assert s.Writers() == {t};
    }
  }

  /** In every reachable state the word is a faithful encoding exactly while fewer than 2^31 read guards live. */
  lemma EncodesExactly(ss: seq<State>, acts: seq<Action>, i: nat)
    requires Run(ss, acts) && i < |ss|
    ensures Encodes(ss[i]) <==> |ss[i].Readers()| < WRITER_BIT
  {
    InvAt(ss, acts, i);
    if |ss[i].Readers()| < WRITER_BIT {
      EncodesWhenRoom(ss[i]);
    }
  }

  /** A waiting writer gets in exactly when the last reader has left. */
  lemma DrainExactly(ss: seq<State>, acts: seq<Action>, i: nat, t: nat)
    requires Run(ss, acts) && i < |ss| && ss[i].At(t).Draining?
    ensures Step(ss[i], Drain(t)).At(t).Writing? <==> forall u :: !ss[i].At(u).Reading?
  {
    InvAt(ss, acts, i);
    var s := ss[i];
    assert t in s.Writers();
    if s.Readers() == {} {
      forall u ensures !s.At(u).Reading? {
        assert u !in s.Readers();
      }
    } else {
      var u :| u in s.Readers();
      assert s.At(u).Reading?;
    }
  }

  // ---- Who gets in, and who leaves ----

  /** Nobody reads, waits to write or writes. */
  ghost predicate Free(s: State) {
    forall u :: !s.At(u).Reading? && !s.At(u).Draining? && !s.At(u).Writing?
  }

  /** A writer waits or is inside. */
  ghost predicate Claimed(s: State) {
    exists u :: s.At(u).Draining? || s.At(u).Writing?
  }

  /** Only thread t moved, to p. */
  ghost predicate Moved(s: State, s': State, t: nat, p: Pc) {
    s'.At(t) == p && forall u :: u != t ==> s'.At(u) == s.At(u)
  }

  lemma SetsAreThreads(s: State)
    ensures forall u :: u in s.Readers() <==> s.At(u).Reading?
    ensures forall u :: u in s.Writers() <==> s.At(u).Draining? || s.At(u).Writing?
    ensures Free(s) <==> s.Readers() == {} && s.Writers() == {}
    ensures Claimed(s) <==> s.Writers() != {}
  {
    if !Free(s) {
      var u :| s.At(u).Reading? || s.At(u).Draining? || s.At(u).Writing?;
      assert u in s.Readers() || u in s.Writers();
    }
    if s.Readers() != {} {
      var u :| u in s.Readers();
      assert s.At(u).Reading?;
    }
    if s.Writers() != {} {
      var u :| u in s.Writers();
      assert s.At(u).Draining? || s.At(u).Writing?;
    }
  }

  lemma WordZero(s: State)
    requires Inv(s)
    ensures s.word == 0 <==> Free(s)
  {
    SetsAreThreads(s);
  }

  lemma WordOpen(s: State)
    requires Inv(s)
    ensures !HasWriterBit(s.word) <==> !Claimed(s) && |s.Readers()| < WRITER_BIT
  {
    SetsAreThreads(s);
  }

  /** In every reachable state try_write returns a guard exactly when the lock is free, and otherwise changes nothing. */
  lemma TryWriteExactly(ss: seq<State>, acts: seq<Action>, i: nat, t: nat)
    requires Run(ss, acts) && i < |ss| && ss[i].At(t).Idle?
    ensures Free(ss[i]) ==> Moved(ss[i], Step(ss[i], TryWrite(t)), t, Writing)
    ensures !Free(ss[i]) ==> Step(ss[i], TryWrite(t)) == ss[i]
  {
    InvAt(ss, acts, i);
    WordZero(ss[i]);
    Moves(ss[i], t, Writing);
  }

  /** In every reachable state the exchange of read, try_read and write enters exactly when the value it loaded showed no
      writer, the word still has that value, and it does not fail spuriously; a reader is then in, a writer is next.
      Otherwise the word is untouched, try_read gives up and the others start over. */
  lemma ExchangeExactly(ss: seq<State>, acts: seq<Action>, i: nat, t: nat, spurious: bool)
    requires Run(ss, acts) && i < |ss| && Enabled(ss[i], Cas(t, spurious))
    ensures
      var s, s' := ss[i], Step(ss[i], Cas(t, spurious));
      var Loaded(op, seen) := s.At(t);
      if seen < WRITER_BIT && s.word == seen && !spurious then
        Moved(s, s', t, if op.Write? then Draining else Reading) && !Claimed(s)
      else
        Moved(s, s', t, if op.TryRead? then Idle else Spin(op)) && s'.word == s.word
  {
    InvAt(ss, acts, i);
    WordOpen(ss[i]);
    var s' := Step(ss[i], Cas(t, spurious));
    Moves(ss[i], t, s'.At(t));
  }

  /** A call that is not interfered with: the state after its load and exchange. */
  function Alone(s: State, t: nat, op: Op): State
    requires s.At(t).Idle?
  {
    var s1 := Step(s, Call(t, op));
    assert s1.At(t) == Spin(op);
    var s2 := Step(s1, Load(t));
    assert s2.At(t) == Loaded(op, s.word);
    Step(s2, Cas(t, false))
  }

  /** In every reachable state a call that runs its load and exchange without interference enters exactly when no writer
      waits or is inside and fewer than 2^31 threads read. */
  lemma AloneExactly(ss: seq<State>, acts: seq<Action>, i: nat, t: nat, op: Op)
    requires Run(ss, acts) && i < |ss| && ss[i].At(t).Idle?
    ensures
      var s, s' := ss[i], Alone(ss[i], t, op);
      if !Claimed(s) && |s.Readers()| < WRITER_BIT then Moved(s, s', t, if op.Write? then Draining else Reading)
      else Moved(s, s', t, if op.TryRead? then Idle else Spin(op)) && s'.word == s.word
  {
    InvAt(ss, acts, i);
    WordOpen(ss[i]);
  }

  /** Dropping a guard makes its thread idle and moves nobody else; after a write guard's drop the lock is free. */
  lemma DropExactly(ss: seq<State>, acts: seq<Action>, i: nat, t: nat)
    requires Run(ss, acts) && i < |ss|
    ensures ss[i].At(t).Reading? ==> Moved(ss[i], Step(ss[i], ReadDrop(t)), t, Idle)
    ensures ss[i].At(t).Writing? ==> Moved(ss[i], Step(ss[i], WriteDrop(t)), t, Idle) && Free(Step(ss[i], WriteDrop(t)))
  {
    var s := ss[i];
    Moves(s, t, Idle);
    if s.At(t).Writing? {
      forall u | u != t ensures !s.At(u).Reading? && !s.At(u).Writing? && !s.At(u).Draining? {
        Exclusion(ss, acts, i, t, u);
      }
    }
  }

  /** While bit 31 stays set no reader enters: the readers at j are among those at i. */
  lemma {:induction false} ReadersOnlyLeave(ss: seq<State>, acts: seq<Action>, i: nat, j: nat)
    requires Run(ss, acts) && i <= j < |ss|
    requires forall k :: i <= k <= j ==> HasWriterBit(ss[k].word)
    ensures ss[j].Readers() <= ss[i].Readers()
    ensures |ss[j].Readers()| <= |ss[i].Readers()|
    decreases j
  {
    if i < j {
      ReadersOnlyLeave(ss, acts, i, j - 1);
      var s, a := ss[j - 1], acts[j - 1];
      assert HasWriterBit(s.word);
      Moves(s, a.t, ss[j].At(a.t));
      assert ss[j].Readers() == s.With(a.t, ss[j].At(a.t)).Readers();
      SubsetSize(ss[j].Readers(), ss[j - 1].Readers());
    }
  }

  lemma {:induction false} SubsetSize(a: set<nat>, b: set<nat>)
    requires a <= b
    ensures |a| <= |b|
  {
    if a != {} {
      var x :| x in a;
      SubsetSize(a - {x}, b - {x});
    }
  }

  // ---- How many threads it takes to overflow the reader count ----

  ghost predicate Reaches(s: State, n: nat) {
    exists ss, acts :: RunTo(ss, acts, s, n)
  }

  ghost predicate RunTo(ss: seq<State>, acts: seq<Action>, s: State, n: nat) {
    Run(ss, acts) && Threads(acts, n) && ss[|acts|] == s
  }

  ghost predicate Threads(acts: seq<Action>, n: nat) {
    forall i :: 0 <= i < |acts| ==> acts[i].t < n
  }

  lemma Extend(s: State, a: Action, n: nat)
    requires Reaches(s, n) && Enabled(s, a) && a.t < n
    ensures Reaches(Step(s, a), n)
  {
    var ss, acts :| RunTo(ss, acts, s, n);
    var ss', acts' := ss + [Step(s, a)], acts + [a];
    forall i | 0 <= i < |acts'|
      ensures Enabled(ss'[i], acts'[i]) && ss'[i + 1] == Step(ss'[i], acts'[i])
    {
      assert i < |acts| ==> ss'[i + 1] == ss[i + 1];
    }
    assert RunTo(ss', acts', Step(s, a), n);
  }

  function Upto(n: nat): (r: set<nat>)
    ensures forall t: nat :: t in r <==> t < n
    ensures |r| == n
  {
    if n == 0 then {} else Upto(n - 1) + {n - 1}
  }

  /** Threads 0 .. k-1 each hold a read guard. */
  function Crowd(k: nat): State
    requires k < M
  {
    if k == 0 then INIT else Crowd(k - 1).With(k - 1, Reading).(word := k)
  }

  lemma ReadReached(s: State, t: nat, n: nat)
    requires Reaches(s, n) && t < n && t !in s.pcs && !HasWriterBit(s.word)
    ensures Reaches(s.With(t, Reading).(word := s.word + 1), n)
  {
    Extend(s, Call(t, Read), n);
    var s1 := Step(s, Call(t, Read));
    Extend(s1, Load(t), n);
    var s2 := Step(s1, Load(t));
    Extend(s2, Cas(t, false), n);
    assert Step(s2, Cas(t, false)) == s.With(t, Reading).(word := s.word + 1);
  }

  lemma {:induction false} CrowdReached(k: nat, n: nat)
    requires k <= WRITER_BIT && k <= n
    ensures Reaches(Crowd(k), n)
    ensures Crowd(k).word == k && Crowd(k).Readers() == Upto(k)
    ensures forall t :: t in Crowd(k).pcs ==> t < k
  {
    if k == 0 {
      assert RunTo([INIT], [], Crowd(0), n);
    } else {
      CrowdReached(k - 1, n);
      var t, s := k - 1, Crowd(k - 1);
      ReadReached(s, t, n);
      Moves(s, t, Reading);
      assert Crowd(k).Readers() == s.With(t, Reading).Readers();
    }
  }

  lemma ThreadsBoundReaders(ss: seq<State>, acts: seq<Action>, i: nat, n: nat)
    requires Run(ss, acts) && Threads(acts, n) && i < |ss|
    ensures |ss[i].Readers()| <= n
  {
    ReadersAreThreads(ss, acts, i, n);
    SubsetSize(ss[i].Readers(), Upto(n));
  }

  lemma {:induction false} ReadersAreThreads(ss: seq<State>, acts: seq<Action>, i: nat, n: nat)
    requires Run(ss, acts) && Threads(acts, n) && i < |ss|
    ensures forall t :: t in ss[i].pcs ==> t < n
  {
    if i > 0 {
      ReadersAreThreads(ss, acts, i - 1, n);
    }
  }

  ghost predicate AlwaysEncodes(n: nat) {
    forall ss, acts, i :: Run(ss, acts) && Threads(acts, n) && 0 <= i < |ss| ==> Encodes(ss[i])
  }

  /** With n threads the encoding holds in every reachable state exactly when n < 2^31. */
  lemma EncodingNeedsFewerThan2To31Threads(n: nat)
    ensures AlwaysEncodes(n) <==> n < WRITER_BIT
  {
    if n < WRITER_BIT {
      forall ss, acts, i | Run(ss, acts) && Threads(acts, n) && 0 <= i < |ss| ensures Encodes(ss[i]) {
        ThreadsBoundReaders(ss, acts, i, n);
        EncodesExactly(ss, acts, i);
      }
    } else {
      CrowdReached(WRITER_BIT, n);
      var ss, acts :| RunTo(ss, acts, Crowd(WRITER_BIT), n);
      EncodesExactly(ss, acts, |acts|);
    }
  }
}
