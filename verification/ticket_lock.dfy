/** The FIFO ticket spinlock, as a transition system with one step per atomic operation.

    Any number of threads interleave under sequential consistency. `next` and
    `serving` are the two u32 counters, and every guard reads only them and the u32
    values a thread loaded. The unbounded `issued` and `served`, and the numbers
    `draw` and `seen` kept beside a thread's u32 values, are auxiliary: they record how
    often the counters moved and are never read by a guard. */
module TicketLock {

  const M: nat := 0x1_0000_0000

  datatype Pc =
    | Idle
    | Waiting(ticket: nat, draw: nat)   // in the spin loop of lock
    | Loaded(current: nat, seen: nat)   // in try_lock, between the load and the compare-exchange
    | Holding(draw: nat)                // a TicketLockGuard exists

  datatype State = State(next: nat, serving: nat, issued: nat, served: nat, pcs: map<nat, Pc>)
  {
    function At(t: nat): Pc {
      if t in pcs then pcs[t] else Idle
    }

    function With(t: nat, p: Pc): State {
      this.(pcs := if p.Idle? then pcs - {t} else pcs[t := p])
    }
  }

  datatype Action = Draw(t: nat) | Enter(t: nat) | Spin(t: nat) | TryLoad(t: nat) | TryCas(t: nat) | Release(t: nat)

  const INIT := State(0, 0, 0, 0, map[])

  predicate Enabled(s: State, a: Action) {
    match a
    case Draw(t) => s.At(t).Idle?
    case Enter(t) => s.At(t).Waiting? && s.At(t).ticket == s.serving
    case Spin(t) => s.At(t).Waiting? && s.At(t).ticket != s.serving
    case TryLoad(t) => s.At(t).Idle?
    case TryCas(t) => s.At(t).Loaded?
    case Release(t) => s.At(t).Holding?
  }

  function Step(s: State, a: Action): State
    requires Enabled(s, a)
  {
    match a
    case Draw(t) =>
      s.With(t, Waiting(s.next, s.issued)).(next := (s.next + 1) % M, issued := s.issued + 1)
    case Enter(t) => s.With(t, Holding(s.At(t).draw))
    case Spin(t) => s
    case TryLoad(t) => s.With(t, Loaded(s.serving, s.served))
    case TryCas(t) =>
      if CasWins(s, a) then
        s.With(t, Holding(s.issued)).(next := (s.At(t).current + 1) % M, issued := s.issued + 1)
      else
        s.With(t, Idle)
    case Release(t) =>
      s.With(t, Idle).(serving := (s.serving + 1) % M, served := s.served + 1)
  }

  predicate CasWins(s: State, a: Action) {
    a.TryCas? && s.At(a.t).Loaded? && s.next == s.At(a.t).current
  }

  ghost predicate Run(ss: seq<State>, acts: seq<Action>) {
    && |ss| == |acts| + 1
    && ss[0] == INIT
    && forall i :: 0 <= i < |acts| ==> Enabled(ss[i], acts[i]) && ss[i + 1] == Step(ss[i], acts[i])
  }

  /** Never more than `out` tickets outstanding, and never more than `gap` tickets between
      the value a try_lock loaded and next_ticket at its compare-exchange. */
  ghost predicate Within(ss: seq<State>, acts: seq<Action>, out: nat, gap: nat)
    requires |ss| == |acts| + 1
  {
    && (forall i :: 0 <= i < |ss| ==> ss[i].issued - ss[i].served <= out)
    && (forall i :: 0 <= i < |acts| && acts[i].TryCas? && ss[i].At(acts[i].t).Loaded? ==>
          ss[i].issued - ss[i].At(acts[i].t).seen <= gap)
  }

  /** The action creates a guard. */
  predicate Grants(s: State, a: Action) {
    (a.Enter? && s.At(a.t).Waiting?) || CasWins(s, a)
  }

  /** The position, in drawing order, of the ticket the new guard holds. */
  function GrantedDraw(s: State, a: Action): nat
    requires Grants(s, a)
  {
    if a.Enter? then s.At(a.t).draw else s.issued
  }

  ghost predicate Exclusive(s: State) {
    forall t, u :: s.At(t).Holding? && s.At(u).Holding? ==> t == u
  }

  /** What the lock promises over a whole run: one guard at a time, guards in ticket order,
      and no try_lock that overtakes a thread that holds or waits for the lock. */
  ghost predicate Fair(ss: seq<State>, acts: seq<Action>)
    requires |ss| == |acts| + 1
  {
    && (forall i :: 0 <= i < |ss| ==> Exclusive(ss[i]))
    && (forall i, j :: 0 <= i < j < |acts| && Grants(ss[i], acts[i]) && Grants(ss[j], acts[j]) ==>
          GrantedDraw(ss[i], acts[i]) < GrantedDraw(ss[j], acts[j]))
    && (forall i :: 0 <= i < |acts| && CasWins(ss[i], acts[i]) ==> Free(ss[i]))
  }

  ghost predicate Free(s: State) {
    forall t :: s.At(t).Idle? || s.At(t).Loaded?
  }

  // ---- The inductive invariant ----

  predicate Ticketed(p: Pc) {
    p.Waiting? || p.Holding?
  }

  ghost predicate Inv(s: State) {
    && s.next == s.issued % M
    && s.serving == s.served % M
    && s.served <= s.issued
    && (forall t :: PcOk(s, s.At(t)))
    && (forall t, u :: Ticketed(s.At(t)) && Ticketed(s.At(u)) && s.At(t).draw == s.At(u).draw ==> t == u)
  }

  predicate PcOk(s: State, p: Pc) {
    match p
    case Idle => true
    case Waiting(k, d) => k == d % M && s.served <= d < s.issued
    case Loaded(c, seen) => c == seen % M && seen <= s.served
    case Holding(d) => d == s.served < s.issued
  }

  /** Two numbers congruent modulo M and closer than M are equal. */
  lemma Congruent(a: nat, b: nat)
    requires a <= b < a + M && a % M == b % M
    ensures a == b
  {
  }

  lemma ModStep(a: nat)
    ensures (a % M + 1) % M == (a + 1) % M
  {
  }

  ghost predicate StepWithin(s: State, a: Action, out: nat, gap: nat) {
    && s.issued - s.served <= out
    && (a.TryCas? && s.At(a.t).Loaded? ==> s.issued - s.At(a.t).seen <= gap)
  }

  ghost predicate OthersFit(s: State, s': State, t: nat) {
    forall u :: u != t ==> s'.At(u) == s.At(u) && PcOk(s', s.At(u))
  }

  /** A ticket at p is the one t had, or a new one. */
  ghost predicate OwnTicket(s: State, t: nat, p: Pc) {
    Ticketed(p) ==> (Ticketed(s.At(t)) && s.At(t).draw == p.draw) || NewTicket(s, p.draw)
  }

  ghost predicate NewTicket(s: State, d: nat) {
    forall u :: Ticketed(s.At(u)) ==> s.At(u).draw != d
  }

  /** A move of one thread keeps the invariant when its new place fits, its ticket is nobody else's, and the others still
      fit the new counters. */
  lemma InvMove(s: State, s': State, t: nat)
    requires Inv(s) && s'.next == s'.issued % M && s'.serving == s'.served % M && s'.served <= s'.issued
    requires OthersFit(s, s', t) && PcOk(s', s'.At(t)) && OwnTicket(s, t, s'.At(t))
    ensures Inv(s')
  {
    forall u ensures PcOk(s', s'.At(u)) {
      assert u != t ==> s'.At(u) == s.At(u);
    }
  }

  lemma InvDraw(s: State, t: nat)
    requires Inv(s) && s.At(t).Idle?
    ensures Inv(Step(s, Draw(t)))
  {
    ModStep(s.issued);
    forall u | u != t ensures PcOk(Step(s, Draw(t)), s.At(u)) {
      assert PcOk(s, s.At(u));
    }
    forall u | Ticketed(s.At(u)) ensures s.At(u).draw != s.issued {
      assert PcOk(s, s.At(u));
    }
    InvMove(s, Step(s, Draw(t)), t);
  }

  lemma InvEnter(s: State, t: nat)
    requires Inv(s) && Enabled(s, Enter(t)) && s.issued - s.served <= M
    ensures Inv(Step(s, Enter(t))) && s.At(t).draw == s.served
  {
    assert PcOk(s, s.At(t));
    Congruent(s.served, s.At(t).draw);
    forall u | u != t ensures PcOk(Step(s, Enter(t)), s.At(u)) {
      assert PcOk(s, s.At(u));
    }
    InvMove(s, Step(s, Enter(t)), t);
  }

  lemma InvCas(s: State, t: nat)
    requires Inv(s) && CasWins(s, TryCas(t)) && s.issued - s.At(t).seen < M
    ensures Inv(Step(s, TryCas(t))) && Free(s) && s.issued == s.served
  {
    assert PcOk(s, s.At(t));
    Congruent(s.At(t).seen, s.issued);
    ModStep(s.issued);
    forall u ensures s.At(u).Idle? || s.At(u).Loaded? {
      assert PcOk(s, s.At(u));
    }
    forall u | u != t ensures PcOk(Step(s, TryCas(t)), s.At(u)) {
      assert PcOk(s, s.At(u));
    }
    InvMove(s, Step(s, TryCas(t)), t);
  }

  lemma InvRelease(s: State, t: nat)
    requires Inv(s) && s.At(t).Holding?
    ensures Inv(Step(s, Release(t)))
  {
    assert PcOk(s, s.At(t));
    ModStep(s.served);
    forall u | u != t ensures PcOk(Step(s, Release(t)), s.At(u)) {
      assert PcOk(s, s.At(u));
    }
    InvMove(s, Step(s, Release(t)), t);
  }

  /** A thread without a ticket moves to a place without one. */
  lemma InvStays(s: State, t: nat, p: Pc)
    requires Inv(s) && !Ticketed(s.At(t)) && !Ticketed(p) && PcOk(s, p)
    ensures Inv(s.With(t, p))
  {
    forall u | u != t ensures PcOk(s.With(t, p), s.At(u)) {
      assert PcOk(s, s.At(u));
    }
    InvMove(s, s.With(t, p), t);
  }

  lemma InvStep(s: State, a: Action)
    requires Inv(s) && Enabled(s, a) && StepWithin(s, a, M, M - 1)
    ensures Inv(Step(s, a))
    ensures Grants(s, a) ==> GrantedDraw(s, a) == s.served
    ensures CasWins(s, a) ==> Free(s)
  {
    var t := a.t;
    match a
    case Draw(_) => InvDraw(s, t);
    case Enter(_) => InvEnter(s, t);
    case Spin(_) => assert Step(s, a) == s;
    case TryLoad(_) => InvStays(s, t, Loaded(s.serving, s.served));
    case TryCas(_) =>
      if CasWins(s, a) {
        InvCas(s, t);
      } else {
        InvStays(s, t, Idle);
      }
    case Release(_) => InvRelease(s, t);
  }

  lemma {:induction false} InvAt(ss: seq<State>, acts: seq<Action>, i: nat)
    requires Run(ss, acts) && Within(ss, acts, M, M - 1) && i < |ss|
    ensures Inv(ss[i])
  {
    if i > 0 {
      InvAt(ss, acts, i - 1);
      InvStep(ss[i - 1], acts[i - 1]);
    }
  }

  lemma InvExclusive(s: State)
    requires Inv(s)
    ensures Exclusive(s)
  {
    forall t, u | s.At(t).Holding? && s.At(u).Holding? ensures t == u {
      assert PcOk(s, s.At(t)) && PcOk(s, s.At(u));
    }
  }

  /** A granted ticket is held until `served` has moved past it. */
  lemma {:induction false} HeldUntilServed(ss: seq<State>, acts: seq<Action>, i: nat, k: nat)
    requires Run(ss, acts) && Within(ss, acts, M, M - 1)
    requires i < k < |ss| && Grants(ss[i], acts[i])
    ensures GrantedDraw(ss[i], acts[i]) <= ss[k].served
    ensures GrantedDraw(ss[i], acts[i]) == ss[k].served ==> ss[k].At(acts[i].t) == Holding(GrantedDraw(ss[i], acts[i]))
  {
    InvAt(ss, acts, k - 1);
    InvStep(ss[k - 1], acts[k - 1]);
    if k > i + 1 {
      HeldUntilServed(ss, acts, i, k - 1);
    }
  }

  lemma GrantOrder(ss: seq<State>, acts: seq<Action>, i: nat, j: nat)
    requires Run(ss, acts) && Within(ss, acts, M, M - 1)
    requires i < j < |acts| && Grants(ss[i], acts[i]) && Grants(ss[j], acts[j])
    ensures GrantedDraw(ss[i], acts[i]) < GrantedDraw(ss[j], acts[j])
  {
    HeldUntilServed(ss, acts, i, j);
    InvAt(ss, acts, j);
    InvStep(ss[j], acts[j]);
    var d := GrantedDraw(ss[i], acts[i]);
    if d == ss[j].served {
      assert PcOk(ss[j], ss[j].At(acts[i].t));
      assert Ticketed(ss[j].At(acts[i].t));
    }
  }

  // ---- Who gets in, and who leaves ----

  /** Every outstanding ticket has an owner that waits with it or holds it. */
  ghost predicate Owned(s: State) {
    forall d: nat :: s.served <= d < s.issued ==> HasOwner(s, d)
  }

  ghost predicate HasOwner(s: State, d: nat) {
    exists t :: Ticketed(s.At(t)) && s.At(t).draw == d
  }

  lemma OwnedStep(s: State, a: Action)
    requires Inv(s) && Owned(s) && Enabled(s, a) && StepWithin(s, a, M, M - 1)
    ensures Owned(Step(s, a))
  {
    var s', t := Step(s, a), a.t;
    assert PcOk(s, s.At(t));
    forall d: nat | s'.served <= d < s'.issued ensures HasOwner(s', d) {
      if d < s.issued {
        assert HasOwner(s, d);
        var u :| Ticketed(s.At(u)) && s.At(u).draw == d;
        assert u != t ==> s'.At(u) == s.At(u);
        assert Ticketed(s'.At(u)) && s'.At(u).draw == d;
      } else {
        assert Ticketed(s'.At(t)) && s'.At(t).draw == d;
      }
    }
  }

  lemma {:induction false} OwnedAt(ss: seq<State>, acts: seq<Action>, i: nat)
    requires Run(ss, acts) && Within(ss, acts, M, M - 1) && i < |ss|
    ensures Owned(ss[i])
  {
    if i > 0 {
      OwnedAt(ss, acts, i - 1);
      InvAt(ss, acts, i - 1);
      OwnedStep(ss[i - 1], acts[i - 1]);
    }
  }

  /** Only thread t moved, to p. */
  ghost predicate Moved(s: State, s': State, t: nat, p: Pc) {
    s'.At(t) == p && forall u :: u != t ==> s'.At(u) == s.At(u)
  }

  /** No other thread holds the lock or waits with an earlier ticket. */
  ghost predicate FirstInLine(s: State, t: nat)
    requires s.At(t).Waiting?
  {
    forall u :: u != t && Ticketed(s.At(u)) ==> s.At(t).draw < s.At(u).draw
  }

  /** In every bounded run a waiting thread finds its turn come exactly when it is first in line, and then gets the lock. */
  lemma LockExactly(ss: seq<State>, acts: seq<Action>, i: nat, t: nat)
    requires Run(ss, acts) && Within(ss, acts, M, M - 1) && i < |ss| && ss[i].At(t).Waiting?
    ensures Enabled(ss[i], Enter(t)) <==> FirstInLine(ss[i], t)
    ensures Enabled(ss[i], Spin(t)) <==> !FirstInLine(ss[i], t)
    ensures FirstInLine(ss[i], t) ==> Moved(ss[i], Step(ss[i], Enter(t)), t, Holding(ss[i].At(t).draw))
    ensures !FirstInLine(ss[i], t) ==> Step(ss[i], Spin(t)) == ss[i]
  {
    var s := ss[i];
    InvAt(ss, acts, i);
    OwnedAt(ss, acts, i);
    assert PcOk(s, s.At(t)) && s.issued - s.served <= M;
    if s.At(t).ticket == s.serving {
      Congruent(s.served, s.At(t).draw);
      forall u | u != t && Ticketed(s.At(u)) ensures s.At(t).draw < s.At(u).draw {
        assert PcOk(s, s.At(u));
      }
    } else {
      assert HasOwner(s, s.served);
    }
  }

  /** A try_lock that nobody interferes with: its load and its compare-exchange. */
  function TryAlone(s: State, t: nat): State
    requires s.At(t).Idle?
  {
    var s1 := Step(s, TryLoad(t));
    assert s1.At(t).Loaded?;
    Step(s1, TryCas(t))
  }

  lemma FreeMeansServed(s: State)
    requires Inv(s) && Owned(s)
    ensures Free(s) <==> s.issued == s.served
  {
    if s.issued > s.served {
      assert HasOwner(s, s.served);
    } else {
      forall t ensures s.At(t).Idle? || s.At(t).Loaded? {
        assert PcOk(s, s.At(t));
      }
    }
  }

  /** In every bounded run with fewer than 2^32 tickets outstanding, an undisturbed try_lock gets the lock exactly when
      nobody holds it or waits for it, and otherwise changes nothing. */
  lemma TryLockExactly(ss: seq<State>, acts: seq<Action>, i: nat, t: nat)
    requires Run(ss, acts) && Within(ss, acts, M, M - 1) && i < |ss| && ss[i].At(t).Idle?
    requires ss[i].issued - ss[i].served < M
    ensures var s, s' := ss[i], TryAlone(ss[i], t);
            if Free(s) then Moved(s, s', t, Holding(s.issued)) && s'.issued == s.issued + 1
            else Moved(s, s', t, Idle) && s'.next == s.next && s'.serving == s.serving
  {
    var s := ss[i];
    InvAt(ss, acts, i);
    OwnedAt(ss, acts, i);
    FreeMeansServed(s);
    if s.next == s.serving {
      Congruent(s.served, s.issued);
    }
  }

  /** In every bounded run dropping the guard makes its thread idle, moves nobody else, and lets the next ticket in. */
  lemma ReleaseExactly(ss: seq<State>, acts: seq<Action>, i: nat, t: nat)
    requires Run(ss, acts) && Within(ss, acts, M, M - 1) && i < |ss| && ss[i].At(t).Holding?
    ensures Moved(ss[i], Step(ss[i], Release(t)), t, Idle)
    ensures Step(ss[i], Release(t)).served == ss[i].At(t).draw + 1
  {
    InvAt(ss, acts, i);
    assert PcOk(ss[i], ss[i].At(t));
  }

  lemma FairWhenBounded(ss: seq<State>, acts: seq<Action>)
    requires Run(ss, acts) && Within(ss, acts, M, M - 1)
    ensures Fair(ss, acts)
  {
    forall i | 0 <= i < |ss| ensures Exclusive(ss[i]) {
      InvAt(ss, acts, i);
      InvExclusive(ss[i]);
    }
    forall i, j | 0 <= i < j < |acts| && Grants(ss[i], acts[i]) && Grants(ss[j], acts[j])
      ensures GrantedDraw(ss[i], acts[i]) < GrantedDraw(ss[j], acts[j])
    {
      GrantOrder(ss, acts, i, j);
    }
    forall i | 0 <= i < |acts| && CasWins(ss[i], acts[i]) ensures Free(ss[i]) {
      InvAt(ss, acts, i);
      InvStep(ss[i], acts[i]);
    }
  }

  // ---- The bounds are exact ----

  ghost predicate Reaches(s: State, out: nat, gap: nat) {
    exists ss, acts :: RunTo(ss, acts, s, out, gap)
  }

  ghost predicate RunTo(ss: seq<State>, acts: seq<Action>, s: State, out: nat, gap: nat) {
    Run(ss, acts) && Within(ss, acts, out, gap) && ss[|acts|] == s
  }

  lemma InitReached(out: nat, gap: nat)
    ensures Reaches(INIT, out, gap)
  {
    assert RunTo([INIT], [], INIT, out, gap);
  }

  lemma Extend(s: State, a: Action, out: nat, gap: nat)
    requires Reaches(s, out, gap) && Enabled(s, a) && StepWithin(s, a, out, gap)
    requires Step(s, a).issued - Step(s, a).served <= out
    ensures Reaches(Step(s, a), out, gap)
  {
    var ss, acts :| RunTo(ss, acts, s, out, gap);
    var ss', acts' := ss + [Step(s, a)], acts + [a];
    forall i | 0 <= i < |acts'|
      ensures Enabled(ss'[i], acts'[i]) && ss'[i + 1] == Step(ss'[i], acts'[i])
    {
      assert i < |acts| ==> ss'[i + 1] == ss[i + 1];
    }
    assert RunTo(ss', acts', Step(s, a), out, gap);
  }

  /** Thread 0 has loaded now_serving; thread 1 then locked and released k times. */
  function AfterCycles(k: nat): State {
    State(k % M, k % M, k, k, map[0 := Loaded(0, 0)])
  }

  lemma {:induction false} CyclesReached(k: nat, out: nat, gap: nat)
    requires out >= 1
    ensures Reaches(AfterCycles(k), out, gap)
  {
    if k == 0 {
      InitReached(out, gap);
      Extend(INIT, TryLoad(0), out, gap);
      assert Step(INIT, TryLoad(0)) == AfterCycles(0);
    } else {
      CyclesReached(k - 1, out, gap);
      var s := AfterCycles(k - 1);
      Extend(s, Draw(1), out, gap);
      var s1 := Step(s, Draw(1));
      Extend(s1, Enter(1), out, gap);
      var s2 := Step(s1, Enter(1));
      Extend(s2, Release(1), out, gap);
      ModStep(k - 1);
      assert Step(s2, Release(1)).pcs == AfterCycles(k).pcs;
    }
  }

  /** After 2^32 tickets a stale try_lock wins while the lock is held. */
  lemma StaleCasBreaks(out: nat, gap: nat) returns (s: State)
    requires out >= 2 && gap >= M
    ensures Reaches(s, out, gap) && !Exclusive(s)
  {
    CyclesReached(M - 1, out, gap);
    s := AfterCycles(M - 1);
    Extend(s, Draw(1), out, gap);
    s := Step(s, Draw(1));
    Extend(s, Enter(1), out, gap);
    s := Step(s, Enter(1));
    Extend(s, TryCas(0), out, gap);
    s := Step(s, TryCas(0));
    assert s.At(0).Holding? && s.At(1).Holding?;
  }

  /** Thread 0 holds the lock and threads 1 .. k-1 wait. */
  function Queue(k: nat): State
    requires k >= 1
  {
    State(k % M, 0, k, 0, map t: nat | 0 <= t < k :: if t == 0 then Holding(0) else Waiting(t % M, t))
  }

  lemma {:induction false} QueueReached(k: nat, out: nat, gap: nat)
    requires 1 <= k <= out
    ensures Reaches(Queue(k), out, gap)
  {
    if k == 1 {
      InitReached(out, gap);
      Extend(INIT, Draw(0), out, gap);
      var s1 := Step(INIT, Draw(0));
      Extend(s1, Enter(0), out, gap);
      assert Step(s1, Enter(0)).pcs == Queue(1).pcs;
    } else {
      QueueReached(k - 1, out, gap);
      Extend(Queue(k - 1), Draw(k - 1), out, gap);
      ModStep(k - 1);
      assert Step(Queue(k - 1), Draw(k - 1)).pcs == Queue(k).pcs;
    }
  }

  /** With 2^32 + 1 tickets outstanding two waiters hold the same u32 ticket. */
  lemma CrowdBreaks(out: nat, gap: nat) returns (s: State)
    requires out > M
    ensures Reaches(s, out, gap) && !Exclusive(s)
  {
    QueueReached(M + 1, out, gap);
    s := Queue(M + 1);
    Extend(s, Enter(M), out, gap);
    s := Step(s, Enter(M));
    assert s.At(0).Holding? && s.At(M).Holding?;
  }

  ghost predicate FairWithin(out: nat, gap: nat) {
    forall ss, acts :: Run(ss, acts) && Within(ss, acts, out, gap) ==> Fair(ss, acts)
  }

  /** The lock keeps its promises on every run exactly when at most 2^32 tickets are ever
      outstanding and fewer than 2^32 separate a try_lock's load from its compare-exchange. */
  lemma FairExactly(out: nat, gap: nat)
    requires out >= 2
    ensures FairWithin(out, gap) <==> out <= 0x1_0000_0000 && gap < 0x1_0000_0000
  {
    if out <= M && gap < M {
      forall ss, acts | Run(ss, acts) && Within(ss, acts, out, gap) ensures Fair(ss, acts) {
        assert Within(ss, acts, M, M - 1);
        FairWhenBounded(ss, acts);
      }
    } else {
      var s;
      if out > M {
        s := CrowdBreaks(out, gap);
      } else {
        s := StaleCasBreaks(out, gap);
      }
      var ss, acts :| RunTo(ss, acts, s, out, gap);
      assert !Fair(ss, acts) by {
        assert !Exclusive(ss[|acts|]);
      }
    }
  }
}
