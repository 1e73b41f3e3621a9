/** The eBPF verifier and interpreter.

    Registers and the program counter are 64-bit and wrap. Helper functions are
    arbitrary: `helper` gives the result of a call from the step count, the helper id
    and the registers. Indexing a register that does not exist is the outcome Crash. */
module Ebpf {
  import opened Bits

  const M: nat := 0x1_0000_0000_0000_0000
  const M32: nat := 0x1_0000_0000
  const BPF_MAXINSNS: nat := 4096
  const BPF_REG_COUNT: nat := 11
  const STEP_BUDGET: nat := 1_000_000

  type U64 = x: nat | x < M
  type U8 = x: nat | x < 256
  type I16 = x: int | -0x8000 <= x < 0x8000
  type I32 = x: int | -0x8000_0000 <= x < 0x8000_0000

  datatype Insn = Insn(code: U8, regs: U8, off: I16, imm: I32)
  {
    function Class(): nat { code % 8 }
    function Op(): nat { code / 16 * 16 }
    predicate UsesRegister() { code / 8 % 2 == 1 }
    function Dst(): nat { regs % 16 }
    function Src(): nat { regs / 16 % 16 }

    /** JA and the conditional jumps: everything in the JMP class but CALL and EXIT. */
    predicate IsJump() { Class() == BPF_JMP && Op() != BPF_CALL && Op() != BPF_EXIT }
  }

  const BPF_ALU: nat := 0x04
  const BPF_JMP: nat := 0x05
  const BPF_ALU64: nat := 0x07

  const BPF_ADD: nat := 0x00
  const BPF_SUB: nat := 0x10
  const BPF_MUL: nat := 0x20
  const BPF_DIV: nat := 0x30
  const BPF_OR: nat := 0x40
  const BPF_AND: nat := 0x50
  const BPF_LSH: nat := 0x60
  const BPF_RSH: nat := 0x70
  const BPF_NEG: nat := 0x80
  const BPF_MOD: nat := 0x90
  const BPF_XOR: nat := 0xA0
  const BPF_MOV: nat := 0xB0
  const BPF_ARSH: nat := 0xC0

  const BPF_JA: nat := 0x00
  const BPF_JEQ: nat := 0x10
  const BPF_JGT: nat := 0x20
  const BPF_JGE: nat := 0x30
  const BPF_JSET: nat := 0x40
  const BPF_JNE: nat := 0x50
  const BPF_JSGT: nat := 0x60
  const BPF_JSGE: nat := 0x70
  const BPF_CALL: nat := 0x80
  const BPF_EXIT: nat := 0x90
  const BPF_JLT: nat := 0xA0
  const BPF_JLE: nat := 0xB0
  const BPF_JSLT: nat := 0xC0
  const BPF_JSLE: nat := 0xD0

  // ---- Arithmetic ----

  lemma Pow2Of64()
    ensures Pow2(32) == M32 && Pow2(64) == M
  {
    assert Pow2(8) == 256;
    Pow2Add(8, 8);
    Pow2Add(16, 16);
    Pow2Add(32, 32);
  }

  function Bitwise(op: Bits.Op, a: U64, b: U64): U64 {
    Pow2Of64();
    ApplyLow(op, a, b, 64);
    Apply(op, a, b)
  }

  function Signed(x: U64): int {
    if x < M / 2 then x else x - M
  }

  predicate IsAluOp(op: nat) {
    op % 16 == 0 && op <= BPF_ARSH
  }

  /** The value an ALU operation computes, or nothing for an opcode that is not one. */
  function Alu(op: nat, d: U64, s: U64): (r: Result<U64>)
    ensures r.Ok? <==> IsAluOp(op)
  {
    if op == BPF_ADD then Ok((d + s) % M)
    else if op == BPF_SUB then Ok((d - s) % M)
    else if op == BPF_MUL then Ok((d * s) % M)
    else if op == BPF_DIV then Ok(if s == 0 then 0 else Quotient(d, s))
    else if op == BPF_OR then Ok(Bitwise(OrOp, d, s))
    else if op == BPF_AND then Ok(Bitwise(AndOp, d, s))
    else if op == BPF_LSH then Ok((d * Pow2(s % 64)) % M)
    else if op == BPF_RSH then Ok(Quotient(d, Pow2(s % 64)))
    else if op == BPF_NEG then Ok((M - d) % M)
    else if op == BPF_MOD then Ok(if s == 0 then d else Remainder(d, s))
    else if op == BPF_XOR then Ok(Bitwise(XorOp, d, s))
    else if op == BPF_MOV then Ok(s)
    else if op == BPF_ARSH then Ok(Signed(d) / Pow2(s % 64) % M)
    else Err
  }

  function Quotient(a: U64, b: nat): (q: U64)
    requires b > 0
    ensures q == a / b
  {
    QuotientFits(a, b);
    a / b
  }

  lemma QuotientFits(a: nat, b: nat)
    requires b > 0
    ensures 0 <= a / b <= a
  {
    assert a <= b * a;
    DivBound(a, b, a);
  }

  function Remainder(a: U64, b: U64): (q: U64)
    requires b > 0
    ensures q == a % b
  {
    a % b
  }

  predicate Taken(op: nat, d: U64, s: U64) {
    if op == BPF_JEQ then d == s
    else if op == BPF_JGT then d > s
    else if op == BPF_JGE then d >= s
    else if op == BPF_JSET then Bitwise(AndOp, d, s) != 0
    else if op == BPF_JNE then d != s
    else if op == BPF_JSGT then Signed(d) > Signed(s)
    else if op == BPF_JSGE then Signed(d) >= Signed(s)
    else if op == BPF_JLT then d < s
    else if op == BPF_JLE then d <= s
    else if op == BPF_JSLT then Signed(d) < Signed(s)
    else if op == BPF_JSLE then Signed(d) <= Signed(s)
    else false
  }

  // ---- One step ----

  datatype Result<+T> = Ok(value: T) | Err

  datatype State = State(regs: seq<U64>, pc: U64)

  datatype Outcome = Exit(r0: U64) | InvalidProg | Crash | OffEnd(r0: U64) | Budget(r0: U64)

  datatype Stepped = Next(s: State) | Done(o: Outcome)

  type Helper = (nat, int, seq<U64>) -> U64

  predicate RegsOk(regs: seq<U64>) {
    |regs| == 11
  }

  function SourceValue(insn: Insn, regs: seq<U64>): Result<U64>
    requires RegsOk(regs)
  {
    if !insn.UsesRegister() then Ok(insn.imm % M)
    else if insn.Src() < BPF_REG_COUNT then Ok(regs[insn.Src()])
    else Err
  }

  /** The registers after an ALU instruction. */
  function AluStep(insn: Insn, regs: seq<U64>): (r: Result<seq<U64>>)
    requires RegsOk(regs) && insn.Dst() < BPF_REG_COUNT && SourceValue(insn, regs).Ok?
    ensures r.Ok? <==> IsAluOp(insn.Op())
    ensures r.Ok? ==> RegsOk(r.value)
  {
    match Alu(insn.Op(), regs[insn.Dst()], SourceValue(insn, regs).value)
    case Err => Err
    case Ok(v) => Ok(regs[insn.Dst() := if insn.Class() == BPF_ALU then v % M32 else v])
  }

  /** A taken jump adds the offset before the common increment, so it may pass through 2^64 - 1. */
  function Jump(pc: U64, off: I16): U64 {
    (pc + off) % M
  }

  function Advance(s: State): State {
    s.(pc := (s.pc + 1) % M)
  }

  function Step(insns: seq<Insn>, s: State, count: nat, helper: Helper): (r: Stepped)
    requires RegsOk(s.regs) && s.pc < |insns|
    ensures r.Next? ==> RegsOk(r.s.regs)
  {
    var insn := insns[s.pc];
    if insn.Class() == BPF_ALU || insn.Class() == BPF_ALU64 then
      if SourceValue(insn, s.regs).Err? then Done(Crash)
      else if !IsAluOp(insn.Op()) then Done(InvalidProg)
      else if insn.Dst() >= BPF_REG_COUNT then Done(Crash)
      else Next(Advance(s.(regs := AluStep(insn, s.regs).value)))
    else if insn.Class() == BPF_JMP then
      if insn.Op() == BPF_EXIT then Done(Exit(s.regs[0]))
      else if insn.Op() == BPF_CALL then Next(Advance(s.(regs := s.regs[0 := helper(count, insn.imm % M32, s.regs)])))
      else if insn.Op() == BPF_JA then Next(Advance(s.(pc := Jump(s.pc, insn.off))))
      else if SourceValue(insn, s.regs).Err? then Done(Crash)
      else if !KnownCondition(insn.Op()) then Next(Advance(s))
      else if insn.Dst() >= BPF_REG_COUNT then Done(Crash)
      else if Taken(insn.Op(), s.regs[insn.Dst()], SourceValue(insn, s.regs).value) then Next(Advance(s.(pc := Jump(s.pc, insn.off))))
      else Next(Advance(s))
    else Next(Advance(s))
  }

  predicate KnownCondition(op: nat) {
    BPF_JEQ <= op <= BPF_JSLE
  }

  /** The interpreter loop from a given step count. */
  ghost function Run(insns: seq<Insn>, s: State, count: nat, helper: Helper): Outcome
    requires RegsOk(s.regs)
    decreases if count < STEP_BUDGET then STEP_BUDGET - count else 0
  {
    if s.pc >= |insns| then OffEnd(s.regs[0])
    else if count >= STEP_BUDGET then Budget(s.regs[0])
    else
      match Step(insns, s, count, helper)
      case Done(o) => o
      case Next(s') => Run(insns, s', count + 1, helper)
  }

  class BpfContext {
    var regs: seq<U64>
    var pc: U64

    /** R1 points at the context. */
    constructor (ctxData: U64)
      ensures RegsOk(regs) && pc == 0 && regs == seq(BPF_REG_COUNT, _ => 0)[1 := ctxData]
    {
      regs := seq(BPF_REG_COUNT, _ => 0)[1 := ctxData];
      pc := 0;
    }
  }

  method Execute(insns: seq<Insn>, ctx: BpfContext, helper: Helper) returns (o: Outcome)
    requires RegsOk(ctx.regs)
    modifies ctx
    ensures o == Run(insns, State(old(ctx.regs), old(ctx.pc)), 0, helper)
  {
    var count := 0;
    while ctx.pc < |insns| && count < STEP_BUDGET
      invariant RegsOk(ctx.regs) && count <= STEP_BUDGET
      invariant Run(insns, State(ctx.regs, ctx.pc), count, helper) == Run(insns, State(old(ctx.regs), old(ctx.pc)), 0, helper)
      decreases STEP_BUDGET - count
    {
      match Step(insns, State(ctx.regs, ctx.pc), count, helper)
      case Done(outcome) => return outcome;
      case Next(s) =>
        ctx.regs, ctx.pc := s.regs, s.pc;
        count := count + 1;
    }
    o := if ctx.pc >= |insns| then OffEnd(ctx.regs[0]) else Budget(ctx.regs[0]);
  }

  // ---- The verifier ----

  predicate IsExit(insn: Insn) {
    insn.Class() == BPF_JMP && insn.Op() == BPF_EXIT
  }

  predicate InsnOk(insns: seq<Insn>, i: nat)
    requires i < |insns|
  {
    && (insns[i].IsJump() ==> 0 <= i + 1 + insns[i].off < |insns|)
    && insns[i].Dst() < BPF_REG_COUNT && insns[i].Src() < BPF_REG_COUNT
  }

  ghost predicate Accepts(insns: seq<Insn>) {
    && insns != []
    && IsExit(insns[|insns| - 1])
    && forall i :: 0 <= i < |insns| ==> InsnOk(insns, i)
  }

  method VerifyProgram(insns: seq<Insn>) returns (ok: bool)
    ensures ok <==> Accepts(insns)
  {
    if insns == [] {
      return false;
    }
    if !IsExit(insns[|insns| - 1]) {
      return false;
    }
    for i := 0 to |insns|
      invariant forall k :: 0 <= k < i ==> InsnOk(insns, k)
    {
      var insn := insns[i];
      if insn.Class() == BPF_JMP && insn.Op() != BPF_CALL && insn.Op() != BPF_EXIT {
        var target := i + 1 + insn.off;
        if target < 0 || target >= |insns| {
          assert !InsnOk(insns, i);
          return false;
        }
      }
      if insn.Dst() >= BPF_REG_COUNT || insn.Src() >= BPF_REG_COUNT {
        assert !InsnOk(insns, i);
        return false;
      }
    }
    ok := true;
  }

  datatype LoadError = TooLarge | VerifierFailed | Loaded

  method ProgLoad(insns: seq<Insn>) returns (r: LoadError)
    ensures r.Loaded? <==> |insns| <= 4096 && Accepts(insns)
    ensures r.TooLarge? <==> |insns| > 4096
  {
    if |insns| > BPF_MAXINSNS {
      return TooLarge;
    }
    var ok := VerifyProgram(insns);
    r := if ok then Loaded else VerifierFailed;
  }

  // ---- Soundness of the verifier ----

  /** Where an accepted program can go in one step: on, or to a checked jump target. */
  lemma StepSafe(insns: seq<Insn>, s: State, count: nat, helper: Helper)
    requires Accepts(insns) && |insns| <= M && RegsOk(s.regs) && s.pc < |insns|
    ensures match Step(insns, s, count, helper)
            case Done(o) => o.Exit? || o.InvalidProg?
            case Next(s') => s'.pc < |insns| &&
                             (s'.pc == s.pc + 1 || (insns[s.pc].IsJump() && s'.pc == s.pc + 1 + insns[s.pc].off))
  {
    var insn := insns[s.pc];
    assert InsnOk(insns, s.pc);
    if insn.IsJump() {
      JumpThenIncrement(s.pc, insn.off, |insns|);
    }
    if s.pc == |insns| - 1 {
      assert IsExit(insn);
    }
  }

  lemma JumpThenIncrement(pc: U64, off: I16, len: nat)
    requires 0 <= pc + 1 + off < len <= M
    ensures (Jump(pc, off) + 1) % M == pc + 1 + off
  {
  }

  /** An accepted program ends by EXIT, by an invalid opcode or by the step budget: it never runs off its end and
      never names a register that does not exist, for any registers, any starting point and any helper results. */
  lemma {:induction false} VerifierSound(insns: seq<Insn>, s: State, count: nat, helper: Helper)
    requires Accepts(insns) && |insns| <= M && RegsOk(s.regs) && s.pc < |insns|
    ensures var o := Run(insns, s, count, helper); o.Exit? || o.InvalidProg? || o.Budget?
    decreases if count < STEP_BUDGET then STEP_BUDGET - count else 0
  {
    if count < STEP_BUDGET {
      StepSafe(insns, s, count, helper);
      match Step(insns, s, count, helper)
      case Done(o) =>
      case Next(s') => VerifierSound(insns, s', count + 1, helper);
    }
  }

  // ---- Forward-only programs ----

  ghost predicate ForwardOnly(insns: seq<Insn>) {
    forall i :: 0 <= i < |insns| && insns[i].IsJump() ==> insns[i].off >= 0
  }

  /** The program counters a run visits. */
  ghost function Visited(insns: seq<Insn>, s: State, count: nat, helper: Helper): seq<nat>
    requires RegsOk(s.regs)
    decreases if count < STEP_BUDGET then STEP_BUDGET - count else 0
  {
    if s.pc >= |insns| || count >= STEP_BUDGET then []
    else
      [s.pc] +
      match Step(insns, s, count, helper)
      case Done(_) => []
      case Next(s') => Visited(insns, s', count + 1, helper)
  }

  ghost predicate Increasing(v: seq<nat>) {
    forall i, j :: 0 <= i < j < |v| ==> v[i] < v[j]
  }

  lemma {:induction false} ForwardVisits(insns: seq<Insn>, s: State, count: nat, helper: Helper)
    requires Accepts(insns) && ForwardOnly(insns) && |insns| <= M && RegsOk(s.regs) && s.pc < |insns|
    ensures Increasing(Visited(insns, s, count, helper))
    ensures forall i :: 0 <= i < |Visited(insns, s, count, helper)| ==> s.pc <= Visited(insns, s, count, helper)[i]
    decreases if count < STEP_BUDGET then STEP_BUDGET - count else 0
  {
    if count < STEP_BUDGET {
      StepSafe(insns, s, count, helper);
      match Step(insns, s, count, helper)
      case Done(_) =>
      case Next(s') =>
        ForwardVisits(insns, s', count + 1, helper);
        var rest := Visited(insns, s', count + 1, helper);
        assert forall i :: 0 <= i < |rest| ==> s.pc < rest[i];
    }
  }

  lemma {:induction false} ForwardEnds(insns: seq<Insn>, s: State, count: nat, helper: Helper)
    requires Accepts(insns) && ForwardOnly(insns) && |insns| <= M && RegsOk(s.regs) && s.pc < |insns|
    requires count + |insns| - s.pc <= STEP_BUDGET
    ensures var o := Run(insns, s, count, helper); o.Exit? || o.InvalidProg?
    decreases |insns| - s.pc
  {
    StepSafe(insns, s, count, helper);
    match Step(insns, s, count, helper)
    case Done(_) =>
    case Next(s') => ForwardEnds(insns, s', count + 1, helper);
  }

  /** A loaded program without backward jumps executes each instruction at most once and always ends by EXIT or an
      invalid opcode, because the load limit is below the step budget. */
  lemma ForwardOnlyTerminates(insns: seq<Insn>, regs: seq<U64>, helper: Helper)
    requires Accepts(insns) && |insns| <= 4096 && ForwardOnly(insns) && RegsOk(regs)
    ensures var o := Run(insns, State(regs, 0), 0, helper); o.Exit? || o.InvalidProg?
    ensures Increasing(Visited(insns, State(regs, 0), 0, helper))
  {
    ForwardEnds(insns, State(regs, 0), 0, helper);
    ForwardVisits(insns, State(regs, 0), 0, helper);
  }

  /** The smallest loop: a jump to itself, which the verifier accepts. */
  const SPIN := [Insn(BPF_JMP, 0, -1, 0), Insn(BPF_JMP + BPF_EXIT, 0, 0, 0)]

  lemma SpinAccepted()
    ensures Accepts(SPIN) && !ForwardOnly(SPIN)
  {
    assert SPIN[0].IsJump();
  }

  /** With a backward jump the budget is what ends the run; the jump goes through the largest program counter. */
  lemma {:induction false} SpinHitsBudget(regs: seq<U64>, count: nat, helper: Helper)
    requires RegsOk(regs) && count <= 1_000_000
    ensures Run(SPIN, State(regs, 0), count, helper) == Budget(regs[0])
    ensures |Visited(SPIN, State(regs, 0), count, helper)| == 1_000_000 - count
    decreases 1_000_000 - count
  {
    if count < 1_000_000 {
      assert Jump(0, -1) == M - 1;
      assert Step(SPIN, State(regs, 0), count, helper) == Next(State(regs, 0));
      SpinHitsBudget(regs, count + 1, helper);
    }
  }
}
