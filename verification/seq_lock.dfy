/** The sequence lock: optimistic readers copy the data word by word while at most one
    writer overwrites it word by word.

    Any number of threads interleave under sequential consistency, one step per atomic
    operation or word. `sequence` is the u64 counter and the only one guards read;
    `ticks` is auxiliary and counts how often it was incremented. */
module SeqLock {
  import Bits

  const M: nat := 0x1_0000_0000_0000_0000

  type Value = seq<int>

  datatype Pc =
    | Idle
    | ReadSpin                            // at the top of the read loop
    | Copying(seq1: nat, buf: Value)      // loaded an even sequence, copied |buf| words
    | WriteSpin(v: Value)                 // compare-exchange loop on write_lock
    | Locked(v: Value)                    // before the first increment
    | Storing(v: Value, k: nat)           // stored k words
    | Unlocking                           // after the second increment

  datatype State = State(sequence: nat, ticks: nat, data: Value, writeLock: bool, pcs: map<nat, Pc>)
  {
    function At(t: nat): Pc {
      if t in pcs then pcs[t] else Idle
    }

    function With(t: nat, p: Pc): State {
      this.(pcs := if p.Idle? then pcs - {t} else pcs[t := p])
    }

    function Tick(): State {
      this.(sequence := (sequence + 1) % M, ticks := ticks + 1)
    }
  }

  datatype Action =
    | CallRead(t: nat) | LoadSeq(t: nat) | CopyWord(t: nat) | CheckSeq(t: nat)
    | CallWrite(t: nat, v: Value) | CasLock(t: nat) | Begin(t: nat) | StoreWord(t: nat) | End(t: nat) | Unlock(t: nat)

  predicate Enabled(s: State, a: Action) {
    match a
    case CallRead(t) => s.At(t).Idle?
    case LoadSeq(t) => s.At(t).ReadSpin?
    case CopyWord(t) => s.At(t).Copying? && |s.At(t).buf| < |s.data|
    case CheckSeq(t) => s.At(t).Copying? && |s.At(t).buf| == |s.data|
    case CallWrite(t, v) => s.At(t).Idle? && |v| == |s.data|
    case CasLock(t) => s.At(t).WriteSpin?
    case Begin(t) => s.At(t).Locked?
    case StoreWord(t) => s.At(t).Storing? && s.At(t).k < |s.data| == |s.At(t).v|
    case End(t) => s.At(t).Storing? && s.At(t).k == |s.data|
    case Unlock(t) => s.At(t).Unlocking?
  }

  function Step(s: State, a: Action): State
    requires Enabled(s, a)
  {
    var t := a.t;
    match a
    case CallRead(_) => s.With(t, ReadSpin)
    case LoadSeq(_) => if s.sequence % 2 != 0 then s else s.With(t, Copying(s.sequence, []))
    case CopyWord(_) =>
      var Copying(seq1, buf) := s.At(t);
      s.With(t, Copying(seq1, buf + [s.data[|buf|]]))
    case CheckSeq(_) => s.With(t, if Returns(s, a) then Idle else ReadSpin)
    case CallWrite(_, v) => s.With(t, WriteSpin(v))
    case CasLock(_) => if s.writeLock then s else s.With(t, Locked(s.At(t).v)).(writeLock := true)
    case Begin(_) => s.With(t, Storing(s.At(t).v, 0)).Tick()
    case StoreWord(_) =>
      var Storing(v, k) := s.At(t);
      s.With(t, Storing(v, k + 1)).(data := s.data[k := v[k]])
    case End(_) => s.With(t, Unlocking).Tick()
    case Unlock(_) => s.With(t, Idle).(writeLock := false)
  }

  /** The read returns: the second load of the counter saw the first one's value. */
  predicate Returns(s: State, a: Action) {
    a.CheckSeq? && s.At(a.t).Copying? && |s.At(a.t).buf| == |s.data| && s.sequence == s.At(a.t).seq1
  }

  function Init(v: Value): State {
    State(0, 0, v, false, map[])
  }

  ghost predicate Run(ss: seq<State>, acts: seq<Action>, words: nat) {
    && |ss| == |acts| + 1
    && |ss[0].data| == words
    && ss[0] == Init(ss[0].data)
    && forall i :: 0 <= i < |acts| ==> Enabled(ss[i], acts[i]) && ss[i + 1] == Step(ss[i], acts[i])
  }

  // ---- What a read promises ----

  /** One pass of the read loop: t loaded the counter at step j and checks it again at step i. */
  ghost predicate Attempt(ss: seq<State>, acts: seq<Action>, t: nat, j: nat, i: nat)
    requires |ss| == |acts| + 1
  {
    && j < i < |acts|
    && acts[j] == LoadSeq(t)
    && acts[i] == CheckSeq(t)
    && forall m :: j < m <= i ==> ss[m].At(t).Copying?
  }

  /** v is the initial value or the argument of a write that finished before state i. */
  ghost predicate Written(ss: seq<State>, acts: seq<Action>, i: nat, v: Value)
    requires |ss| == |acts| + 1 && i < |ss|
  {
    v == ss[0].data || exists k :: 0 <= k < i && Finishes(ss[k], acts[k], v)
  }

  predicate Finishes(s: State, a: Action, v: Value) {
    a.End? && s.At(a.t) == Storing(v, |v|)
  }

  /** The buffer t returns at step i was the whole, stable, current value at some instant
      between that attempt's two loads of the counter. */
  ghost predicate Whole(ss: seq<State>, acts: seq<Action>, i: nat)
    requires |ss| == |acts| + 1 && i < |acts| && Returns(ss[i], acts[i])
  {
    exists j: nat, m: nat :: Attempt(ss, acts, acts[i].t, j, i) && j <= m <= i &&
                   Current(ss, acts, m, ss[i].At(acts[i].t).buf)
  }

  ghost predicate Current(ss: seq<State>, acts: seq<Action>, m: nat, v: Value)
    requires |ss| == |acts| + 1 && m < |ss|
  {
    ss[m].data == v && Written(ss, acts, m, v)
  }

  ghost predicate ReadsWhole(ss: seq<State>, acts: seq<Action>)
    requires |ss| == |acts| + 1
  {
    forall i :: 0 <= i < |acts| && Returns(ss[i], acts[i]) ==> Whole(ss, acts, i)
  }

  /** The counter moves at most 2 * n times between the two loads of any attempt: n writes, begun or finished. */
  ghost predicate Within(ss: seq<State>, acts: seq<Action>, n: nat)
    requires |ss| == |acts| + 1
  {
    forall t, j: nat, i: nat :: Attempt(ss, acts, t, j, i) ==> ss[i].ticks - ss[j].ticks <= 2 * n
  }

  // ---- The writer side ----

  predicate Holds(p: Pc) {
    p.Locked? || p.Storing? || p.Unlocking?
  }

  predicate PcOk(s: State, p: Pc) {
    match p
    case Locked(v) => |v| == |s.data| && s.ticks % 2 == 0
    case WriteSpin(v) => |v| == |s.data|
    case Storing(v, k) => |v| == |s.data| && k <= |v| && s.ticks % 2 == 1 && s.data[..k] == v[..k]
    case Unlocking => s.ticks % 2 == 0
    case _ => true
  }

  ghost predicate Inv(s: State, words: nat) {
    && |s.data| == words
    && s.sequence == s.ticks % M
    && (!s.writeLock ==> s.ticks % 2 == 0)
    && (forall t :: PcOk(s, s.At(t)) && (Holds(s.At(t)) ==> s.writeLock))
    && (forall t, u :: Holds(s.At(t)) && Holds(s.At(u)) ==> t == u)
  }

  /** A step of thread t keeps the invariant when no other thread holds the write lock, or t changes only its own reads. */
  lemma InvMove(s: State, t: nat, s': State, words: nat)
    requires Inv(s, words) && |s'.data| == words
    requires s'.sequence == s'.ticks % M && (!s'.writeLock ==> s'.ticks % 2 == 0)
    requires forall u :: u != t ==> s'.At(u) == s.At(u)
    requires PcOk(s', s'.At(t)) && (Holds(s'.At(t)) ==> s'.writeLock)
    requires (forall u :: u != t ==> !Holds(s.At(u))) || (s' == s.With(t, s'.At(t)) && !Holds(s'.At(t)))
    ensures Inv(s', words)
  {
    forall u ensures PcOk(s', s'.At(u)) && (Holds(s'.At(u)) ==> s'.writeLock) {
      assert PcOk(s, s.At(u));
    }
  }

  lemma OthersUnmoved(s: State, t: nat, p: Pc)
    ensures forall u :: u != t ==> s.With(t, p).At(u) == s.At(u)
    ensures s.With(t, p).At(t) == p
  {
  }

  lemma NextTick(n: nat)
    ensures (n % M + 1) % M == (n + 1) % M
  {
    var q, r := n / M, n % M;
    if r + 1 < M {
      Bits.Euclid(n + 1, M, q, r + 1);
    } else {
      Bits.Euclid(n + 1, M, q + 1, 0);
    }
  }

  lemma TickCounts(s: State)
    requires s.sequence == s.ticks % M
    ensures s.Tick().sequence == s.Tick().ticks % M
  {
    NextTick(s.ticks);
  }

  lemma TickParity(n: nat)
    ensures n % M % 2 == n % 2
  {
    var q, r := n / M, n % M;
    Bits.Euclid(n, 2, M / 2 * q + r / 2, r % 2);
  }

  lemma InvStep(s: State, a: Action, words: nat)
    requires Inv(s, words) && Enabled(s, a)
    ensures Inv(Step(s, a), words)
    ensures s.ticks <= Step(s, a).ticks
    ensures s.ticks % 2 == 0 ==> Step(s, a).data == s.data
  {
    var t, s' := a.t, Step(s, a);
    assert PcOk(s, s.At(t));
    OthersUnmoved(s, t, s'.At(t));
    if a.Begin? || a.StoreWord? || a.End? || a.Unlock? {
      InvWriter(s, a, words);
    } else if a.CasLock? {
      if !s.writeLock {
        InvMove(s, t, s', words);
      }
    } else {
      assert s'.pcs == s.With(t, s'.At(t)).pcs;
      InvMove(s, t, s', words);
    }
  }

  lemma InvWriter(s: State, a: Action, words: nat)
    requires Inv(s, words) && Enabled(s, a)
    requires a.Begin? || a.StoreWord? || a.End? || a.Unlock?
    ensures Inv(Step(s, a), words)
    ensures s.ticks % 2 == 0 ==> Step(s, a).data == s.data
  {
    assert s.ticks % 2 == 0 ==> !a.StoreWord? by {
      assert PcOk(s, s.At(a.t));
    }
    match a
    case StoreWord(t) => InvStore(s, t, words);
    case Unlock(t) => InvUnlock(s, t, words);
    case Begin(t) => InvBegin(s, t, words);
    case End(t) => InvEnd(s, t, words);
  }

  lemma NextParity(n: nat)
    ensures (n + 1) % 2 == 1 - n % 2
  {
  }

  lemma InvBegin(s: State, t: nat, words: nat)
    requires Inv(s, words) && s.At(t).Locked?
    ensures Inv(s.With(t, Storing(s.At(t).v, 0)).Tick(), words)
  {
    assert PcOk(s, s.At(t));
    NextParity(s.ticks);
    InvTick(s, t, Storing(s.At(t).v, 0), words);
  }

  lemma InvEnd(s: State, t: nat, words: nat)
    requires Inv(s, words) && s.At(t).Storing?
    ensures Inv(s.With(t, Unlocking).Tick(), words)
  {
    assert PcOk(s, s.At(t));
    NextParity(s.ticks);
    InvTick(s, t, Unlocking, words);
  }

  lemma InvUnlock(s: State, t: nat, words: nat)
    requires Inv(s, words) && s.At(t).Unlocking?
    ensures Inv(s.With(t, Idle).(writeLock := false), words)
  {
    assert PcOk(s, s.At(t));
    OthersUnmoved(s, t, Idle);
    InvMove(s, t, s.With(t, Idle).(writeLock := false), words);
  }

  lemma InvTick(s: State, t: nat, p: Pc, words: nat)
    requires Inv(s, words) && Holds(s.At(t)) && Holds(p) && PcOk(s.Tick(), p)
    ensures Inv(s.With(t, p).Tick(), words)
  {
    OthersUnmoved(s, t, p);
    TickCounts(s);
    InvMove(s, t, s.With(t, p).Tick(), words);
  }

  lemma InvStore(s: State, t: nat, words: nat)
    requires Inv(s, words) && Enabled(s, StoreWord(t))
    ensures Inv(Step(s, StoreWord(t)), words)
  {
    var s' := Step(s, StoreWord(t));
    assert PcOk(s, s.At(t));
    OthersUnmoved(s, t, s'.At(t));
    var Storing(v, k) := s.At(t);
    assert s'.data[..k + 1] == v[..k + 1];
    InvMove(s, t, s', words);
  }

  lemma {:induction false} InvAt(ss: seq<State>, acts: seq<Action>, words: nat, i: nat)
    requires Run(ss, acts, words) && i < |ss|
    ensures Inv(ss[i], words)
  {
    if i > 0 {
      InvAt(ss, acts, words, i - 1);
      InvStep(ss[i - 1], acts[i - 1], words);
    }
  }

  /** The counter follows the ticks, the ticks only grow, and memory is still while they are even. */
  lemma StepFacts(ss: seq<State>, acts: seq<Action>, words: nat, i: nat)
    requires Run(ss, acts, words) && i < |acts|
    ensures ss[i].sequence == ss[i].ticks % M
    ensures ss[i].ticks <= ss[i + 1].ticks
    ensures ss[i].ticks % 2 == 0 ==> ss[i + 1].data == ss[i].data
  {
    InvAt(ss, acts, words, i);
    InvStep(ss[i], acts[i], words);
  }

  /** Whenever no write is in progress the memory holds one whole written value. */
  lemma {:induction false} StableIsWritten(ss: seq<State>, acts: seq<Action>, words: nat, i: nat)
    requires Run(ss, acts, words) && i < |ss| && ss[i].ticks % 2 == 0
    ensures Written(ss, acts, i, ss[i].data)
  {
    if i > 0 {
      var s, a := ss[i - 1], acts[i - 1];
      InvAt(ss, acts, words, i - 1);
      InvStep(s, a, words);
      if s.ticks % 2 == 0 {
        StableIsWritten(ss, acts, words, i - 1);
      } else {
        assert PcOk(s, s.At(a.t));
        assert Finishes(s, a, ss[i].data);
      }
    }
  }

  // ---- The reader side ----

  lemma StartsCopying(s: State, a: Action, t: nat)
    requires Enabled(s, a) && !s.At(t).Copying? && Step(s, a).At(t).Copying?
    ensures a == LoadSeq(t)
  {
    OthersUnmoved(s, a.t, Step(s, a).At(a.t));
  }

  lemma {:induction false} FindLoad(ss: seq<State>, acts: seq<Action>, words: nat, t: nat, i: nat) returns (j: nat)
    requires Run(ss, acts, words) && i < |ss| && ss[i].At(t).Copying?
    ensures j < i && acts[j] == LoadSeq(t) && forall m :: j < m <= i ==> ss[m].At(t).Copying?
  {
    assert i > 0;
    if ss[i - 1].At(t).Copying? {
      j := FindLoad(ss, acts, words, t, i - 1);
    } else {
      j := i - 1;
      StartsCopying(ss[j], acts[j], t);
    }
  }

  /** While the counter has not moved since the load at j, memory has not changed and the buffer is a prefix of it. */
  lemma {:induction false} CopyTracks(ss: seq<State>, acts: seq<Action>, words: nat, t: nat, j: nat, i: nat)
    requires Run(ss, acts, words) && j < i < |ss|
    requires acts[j] == LoadSeq(t) && forall m :: j < m <= i ==> ss[m].At(t).Copying?
    ensures ss[i].At(t).seq1 == ss[j].sequence
    ensures ss[j].ticks % 2 == 0 && ss[j].ticks <= ss[i].ticks
    ensures ss[j].ticks == ss[i].ticks ==> ss[i].data == ss[j].data && ss[i].At(t).buf <= ss[i].data
  {
    StepFacts(ss, acts, words, i - 1);
    if j < i - 1 {
      CopyTracks(ss, acts, words, t, j, i - 1);
      CopyStep(ss[i - 1], acts[i - 1], t);
    } else {
      LoadStep(ss[j], t);
    }
  }

  lemma LoadStep(s: State, t: nat)
    requires Enabled(s, LoadSeq(t)) && s.sequence == s.ticks % M && Step(s, LoadSeq(t)).At(t).Copying?
    ensures Step(s, LoadSeq(t)).At(t) == Copying(s.sequence, [])
    ensures s.ticks % 2 == 0 && Step(s, LoadSeq(t)).ticks == s.ticks
  {
    TickParity(s.ticks);
  }

  lemma CopyStep(s: State, a: Action, t: nat)
    requires Enabled(s, a) && s.At(t).Copying? && Step(s, a).At(t).Copying?
    ensures Step(s, a).At(t).seq1 == s.At(t).seq1
    ensures s.At(t).buf <= s.data ==> Step(s, a).At(t).buf <= s.data
  {
    OthersUnmoved(s, a.t, Step(s, a).At(a.t));
  }

  lemma ReturnedWhole(ss: seq<State>, acts: seq<Action>, words: nat, i: nat)
    requires Run(ss, acts, words) && i < |acts| && Returns(ss[i], acts[i])
    requires Within(ss, acts, M / 2 - 1)
    ensures Whole(ss, acts, i)
  {
    var t := acts[i].t;
    var j := FindLoad(ss, acts, words, t, i);
    CopyTracks(ss, acts, words, t, j, i);
    assert Attempt(ss, acts, t, j, i);
    InvAt(ss, acts, words, i);
    InvAt(ss, acts, words, j);
    assert ss[j].ticks == ss[i].ticks;
    StableIsWritten(ss, acts, words, i);
    assert Current(ss, acts, i, ss[i].At(t).buf);
  }

  // ---- When a read goes on, and when it returns ----

  /** In every run a reader starts copying exactly when no write is in progress, and otherwise loads again. */
  lemma LoadExactly(ss: seq<State>, acts: seq<Action>, words: nat, i: nat, t: nat)
    requires Run(ss, acts, words) && i < |ss| && ss[i].At(t).ReadSpin?
    ensures var s, s' := ss[i], Step(ss[i], LoadSeq(t));
            if s.ticks % 2 == 0 then s'.At(t) == Copying(s.sequence, []) else s' == s
  {
    InvAt(ss, acts, words, i);
    TickParity(ss[i].ticks);
  }

  /** In every run a reader that has copied all words returns exactly when the counter moved by a multiple of 2^64 since
      its first load, and otherwise starts over; a return ends the call. */
  lemma CheckExactly(ss: seq<State>, acts: seq<Action>, words: nat, t: nat, j: nat, i: nat)
    requires Run(ss, acts, words) && j < i < |ss|
    requires acts[j] == LoadSeq(t) && forall m :: j < m <= i ==> ss[m].At(t).Copying?
    requires Enabled(ss[i], CheckSeq(t))
    ensures var s' := Step(ss[i], CheckSeq(t));
            if (ss[i].ticks - ss[j].ticks) % 0x1_0000_0000_0000_0000 == 0 then Returns(ss[i], CheckSeq(t)) && s'.At(t).Idle?
            else !Returns(ss[i], CheckSeq(t)) && s'.At(t).ReadSpin?
  {
    CopyTracks(ss, acts, words, t, j, i);
    InvAt(ss, acts, words, i);
    InvAt(ss, acts, words, j);
    SameRemainder(ss[j].ticks, ss[i].ticks);
    OthersUnmoved(ss[i], t, Step(ss[i], CheckSeq(t)).At(t));
  }

  lemma SameRemainder(a: nat, b: nat)
    requires a <= b
    ensures a % M == b % M <==> (b - a) % M == 0
  {
    var q, r := (b - a) / M, (b - a) % M;
    if r == 0 {
      Bits.Euclid(b, M, a / M + q, a % M);
    } else if a % M == b % M {
      Bits.Euclid(b - a, M, b / M - a / M, 0);
    }
  }

  // ---- The bound is exact: 2^63 writes inside one read can tear it ----

  ghost predicate RunTo(ss: seq<State>, acts: seq<Action>, s: State, words: nat)
    requires words >= 2
  {
    && Run(ss, acts, words)
    && ss[|acts|] == s
    && (forall i :: 0 <= i < |acts| ==> !acts[i].CheckSeq?)
    && (forall i :: 0 <= i < |ss| ==> Descending(ss[i]))
  }

  /** The first word is never behind the second: no such memory equals a buffer 0, 1, ... */
  predicate Descending(s: State) {
    |s.data| >= 2 && s.data[1] <= s.data[0]
  }

  ghost predicate Reaches(s: State, words: nat)
    requires words >= 2
  {
    exists ss, acts :: RunTo(ss, acts, s, words)
  }

  lemma Extend(s: State, a: Action, words: nat)
    requires words >= 2 && Reaches(s, words) && Enabled(s, a) && !a.CheckSeq? && Descending(Step(s, a))
    ensures Reaches(Step(s, a), words)
  {
    var ss, acts :| RunTo(ss, acts, s, words);
    var ss', acts' := ss + [Step(s, a)], acts + [a];
    forall i | 0 <= i < |acts'|
      ensures Enabled(ss'[i], acts'[i]) && ss'[i + 1] == Step(ss'[i], acts'[i])
    {
      assert i < |acts| ==> ss'[i + 1] == ss[i + 1];
    }
    assert RunTo(ss', acts', Step(s, a), words);
  }

  function Ones(words: nat): Value {
    seq(words, _ => 1)
  }

  function Zeros(words: nat): Value {
    seq(words, _ => 0)
  }

  predicate Binary(v: Value) {
    forall i :: 0 <= i < |v| ==> 0 <= v[i] <= 1
  }

  lemma {:induction false} StoresReached(s: State, words: nat, k: nat)
    requires words >= 2 && |s.data| == words && Binary(s.data) && k <= words
    requires Reaches(s, words) && s.At(1) == Storing(Ones(words), k) && Descending(s)
    requires k >= 1 ==> s.data[0] == 1
    ensures Reaches(s.With(1, Storing(Ones(words), words)).(data := s.data[..k] + Ones(words)[k..]), words)
    decreases words - k
  {
    if k < words {
      var s' := Step(s, StoreWord(1));
      Extend(s, StoreWord(1), words);
      StoresReached(s', words, k + 1);
      assert s'.data[..k + 1] + Ones(words)[k + 1..] == s.data[..k] + Ones(words)[k..];
      assert s'.With(1, Storing(Ones(words), words)).pcs == s.With(1, Storing(Ones(words), words)).pcs;
    } else {
      assert s.data[..k] + Ones(words)[k..] == s.data;
      assert s.With(1, Storing(Ones(words), words)) == s;
    }
  }

  lemma BeginReached(s: State, words: nat)
    requires words >= 2 && |s.data| == words && Descending(s)
    requires Reaches(s, words) && !s.writeLock && 1 !in s.pcs
    ensures Reaches(s.With(1, Storing(Ones(words), 0)).Tick().(writeLock := true), words)
  {
    var a1 := CallWrite(1, Ones(words));
    Extend(s, a1, words);
    var s1 := Step(s, a1);
    Extend(s1, CasLock(1), words);
    var s2 := Step(s1, CasLock(1));
    Extend(s2, Begin(1), words);
    assert Step(s2, Begin(1)).pcs == s.With(1, Storing(Ones(words), 0)).pcs;
  }

  lemma EndReached(s: State, words: nat)
    requires words >= 2 && s.data == Ones(words) && Reaches(s, words)
    requires s.At(1) == Storing(Ones(words), words)
    ensures Reaches(s.With(1, Idle).Tick().(writeLock := false), words)
  {
    Extend(s, End(1), words);
    var s5 := Step(s, End(1));
    Extend(s5, Unlock(1), words);
    assert Step(s5, Unlock(1)).pcs == s.With(1, Idle).pcs;
  }

  /** One whole write of ones by thread 1. */
  lemma WriteReached(s: State, words: nat)
    requires words >= 2 && |s.data| == words && Binary(s.data) && Descending(s)
    requires Reaches(s, words) && !s.writeLock && 1 !in s.pcs
    ensures Reaches(s.Tick().Tick().(data := Ones(words)), words)
  {
    BeginReached(s, words);
    var s3 := s.With(1, Storing(Ones(words), 0)).Tick().(writeLock := true);
    StoresReached(s3, words, 0);
    var s4 := s3.With(1, Storing(Ones(words), words)).(data := Ones(words));
    assert s3.data[..0] + Ones(words)[0..] == Ones(words);
    EndReached(s4, words);
    WriteEnds(s, Ones(words));
  }

  /** A whole write by an idle thread leaves no trace but the two ticks and the data. */
  lemma WriteEnds(s: State, v: Value)
    requires !s.writeLock && 1 !in s.pcs
    ensures
      var s3 := s.With(1, Storing(v, 0)).Tick().(writeLock := true);
      var s4 := s3.With(1, Storing(v, |v|)).(data := v);
      s4.With(1, Idle).Tick().(writeLock := false) == s.Tick().Tick().(data := v)
  {
    assert s.pcs[1 := Storing(v, 0)][1 := Storing(v, |v|)] - {1} == s.pcs;
  }

  /** Thread 0 has loaded the counter and copied one word; then k writes ran. */
  function MidRead(words: nat, k: nat): State {
    State(2 * k % M, 2 * k, if k == 0 then Zeros(words) else Ones(words), false, map[0 := Copying(0, [0])])
  }

  lemma ReadStartReached(words: nat)
    requires words >= 2
    ensures Reaches(MidRead(words, 0), words)
  {
    var s := Init(Zeros(words));
    assert RunTo([s], [], s, words);
    Extend(s, CallRead(0), words);
    var s1 := Step(s, CallRead(0));
    Extend(s1, LoadSeq(0), words);
    var s2 := Step(s1, LoadSeq(0));
    Extend(s2, CopyWord(0), words);
    var s3 := Step(s2, CopyWord(0));
    assert s3.At(0) == Copying(0, [0]);
    assert s3.pcs == MidRead(words, 0).pcs;
  }

  lemma TwoTicks(words: nat, k: nat)
    ensures MidRead(words, k).Tick().Tick().(data := Ones(words)) == MidRead(words, k + 1)
  {
    NextTick(2 * k);
    NextTick(2 * k + 1);
  }

  lemma {:induction false} MidReadReached(words: nat, k: nat)
    requires words >= 2
    ensures Reaches(MidRead(words, k), words)
  {
    if k == 0 {
      ReadStartReached(words);
    } else {
      MidReadReached(words, k - 1);
      WriteReached(MidRead(words, k - 1), words);
      TwoTicks(words, k - 1);
    }
  }

  function Torn(k: nat): Value
    requires k >= 1
  {
    [0] + Ones(k - 1)
  }

  lemma {:induction false} CopiesReached(s: State, words: nat, k: nat)
    requires words >= 2 && s.data == Ones(words) && Reaches(s, words)
    requires 1 <= k <= words && s.pcs == map[0 := Copying(0, Torn(k))]
    ensures Reaches(s.(pcs := map[0 := Copying(0, Torn(words))]), words)
    decreases words - k
  {
    if k < words {
      Extend(s, CopyWord(0), words);
      assert Torn(k) + [1] == Torn(k + 1);
      var s' := Step(s, CopyWord(0));
      assert s'.pcs == map[0 := Copying(0, Torn(k + 1))];
      CopiesReached(s', words, k + 1);
      assert s'.(pcs := map[0 := Copying(0, Torn(words))]) == s.(pcs := map[0 := Copying(0, Torn(words))]);
    } else {
      assert s.(pcs := map[0 := Copying(0, Torn(words))]) == s;
    }
  }

  /** The reader has copied its last word and the counter reads 0 again. */
  function TornState(words: nat): State
    requires words >= 1
  {
    MidRead(words, M / 2).(pcs := map[0 := Copying(0, Torn(words))])
  }

  lemma TornReached(words: nat)
    requires words >= 2
    ensures Reaches(TornState(words), words)
  {
    MidReadReached(words, M / 2);
    assert Torn(1) == [0];
    CopiesReached(MidRead(words, M / 2), words, 1);
  }

  /** Appending the reader's second load of the counter to a run. */
  lemma CheckLast(ss: seq<State>, acts: seq<Action>, s: State, words: nat)
    requires words >= 2 && RunTo(ss, acts, s, words) && Enabled(s, CheckSeq(0))
    ensures Run(ss + [Step(s, CheckSeq(0))], acts + [CheckSeq(0)], words)
  {
    var ss', acts' := ss + [Step(s, CheckSeq(0))], acts + [CheckSeq(0)];
    forall i | 0 <= i < |acts'|
      ensures Enabled(ss'[i], acts'[i]) && ss'[i + 1] == Step(ss'[i], acts'[i])
    {
      assert i < |acts| ==> ss'[i + 1] == ss[i + 1];
    }
  }

  /** The tearing run: a read returns 0, 1, ..., which no state of the run ever held. */
  lemma TornRead(words: nat, n: nat) returns (ss: seq<State>, acts: seq<Action>)
    requires words >= 2 && n >= M / 2
    ensures Run(ss, acts, words) && Within(ss, acts, n) && !ReadsWhole(ss, acts)
  {
    TornReached(words);
    var s := TornState(words);
    ss, acts :| RunTo(ss, acts, s, words);
    var last := |acts|;
    CheckLast(ss, acts, s, words);
    ss, acts := ss + [Step(s, CheckSeq(0))], acts + [CheckSeq(0)];
    forall t, j: nat, i: nat | Attempt(ss, acts, t, j, i) ensures ss[i].ticks - ss[j].ticks <= 2 * n {
      assert i == last;
    }
    assert Returns(ss[last], acts[last]);
    forall m | 0 <= m <= last ensures !Current(ss, acts, m, Torn(words)) {
      assert Descending(ss[m]);
    }
    assert !Whole(ss, acts, last);
  }

  ghost predicate NeverTears(words: nat, n: nat) {
    forall ss, acts :: Run(ss, acts, words) && Within(ss, acts, n) ==> ReadsWhole(ss, acts)
  }

  /** With data of two words or more, no read tears exactly when every attempt overlaps fewer than 2^63 writes. */
  lemma NeverTearsExactly(words: nat, n: nat)
    requires words >= 2
    ensures NeverTears(words, n) <==> n < 0x8000_0000_0000_0000
  {
    if n < M / 2 {
      WholeWhenBounded(words, n);
    } else {
      var ss, acts := TornRead(words, n);
    }
  }

  /** For data of any size, reads that overlap fewer than 2^63 writes return whole current values. */
  lemma WholeWhenBounded(words: nat, n: nat)
    requires n < M / 2
    ensures NeverTears(words, n)
  {
    forall ss, acts, i | Run(ss, acts, words) && Within(ss, acts, n) && 0 <= i < |acts| && Returns(ss[i], acts[i])
      ensures Whole(ss, acts, i)
    {
      assert Within(ss, acts, M / 2 - 1);
      ReturnedWhole(ss, acts, words, i);
    }
  }
}
