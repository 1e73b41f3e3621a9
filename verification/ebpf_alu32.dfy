/** The 32-bit ALU class: the interpreter computes in 64 bits and truncates. This module
    says for which opcodes that equals the 32-bit machine of section 4.1 of RFC 9669. */
module EbpfAlu32 {
  import opened Bits
  import opened Ebpf

  type U32 = x: nat | x < M32

  function Low(x: nat): U32 {
    x % M32
  }

  function Bitwise32(op: Bits.Op, a: U32, b: U32): U32 {
    Pow2Of64();
    ApplyLow(op, a, b, 32);
    Apply(op, a, b)
  }

  function Signed32(x: U32): int {
    if x < M32 / 2 then x else x - M32
  }

  /** The 32-bit machine: operands, results and shift counts are 32-bit. */
  function Alu32(op: nat, d: U32, s: U32): Result<U32> {
    if op == BPF_ADD then Ok((d + s) % M32)
    else if op == BPF_SUB then Ok((d - s) % M32)
    else if op == BPF_MUL then Ok((d * s) % M32)
    else if op == BPF_DIV then Ok(if s == 0 then 0 else Low(Quotient(d, s)))
    else if op == BPF_OR then Ok(Bitwise32(OrOp, d, s))
    else if op == BPF_AND then Ok(Bitwise32(AndOp, d, s))
    else if op == BPF_LSH then Ok((d * Pow2(s % 32)) % M32)
    else if op == BPF_RSH then Ok(Low(Quotient(d, Pow2(s % 32))))
    else if op == BPF_NEG then Ok((M32 - d) % M32)
    else if op == BPF_MOD then Ok(if s == 0 then d else Low(Remainder(d, s)))
    else if op == BPF_XOR then Ok(Bitwise32(XorOp, d, s))
    else if op == BPF_MOV then Ok(s)
    else if op == BPF_ARSH then Ok(Signed32(d) / Pow2(s % 32) % M32)
    else Err
  }

  /** Division, remainder and the three shifts look at bits above 31 or at shift counts above 31. */
  predicate Truncates(op: nat) {
    op !in {BPF_DIV, BPF_MOD, BPF_LSH, BPF_RSH, BPF_ARSH}
  }

  ghost predicate Simulates(op: nat) {
    forall d: U64, s: U64 :: Agrees(op, d, s)
  }

  predicate Agrees(op: nat, d: U64, s: U64) {
    match (Alu(op, d, s), Alu32(op, Low(d), Low(s)))
    case (Ok(v), Ok(w)) => Low(v) == w
    case (Err, Err) => true
    case _ => false
  }

  // ---- The opcodes that work ----

  lemma LowOfLow(x: int)
    ensures x % M % M32 == x % M32
  {
    assert M == M32 * M32;
    var q, r := x / M, x % M;
    assert x == M32 * (M32 * q) + r;
    ModOfMultiple(r, M32 * q);
  }

  lemma ModOfMultiple(r: int, k: int)
    ensures (M32 * k + r) % M32 == r % M32
  {
  }

  lemma LowMul(d: nat, s: nat)
    ensures (d * s) % M32 == (Low(d) * Low(s)) % M32
  {
    var dh, sh, dl, sl := d / M32, s / M32, Low(d), Low(s);
    assert d == M32 * dh + dl && s == M32 * sh + sl;
    var k := dh * s + dl * sh;
    assert d * s == M32 * k + dl * sl by {
      assert d * s == M32 * (dh * s) + dl * s;
      assert dl * s == M32 * (dl * sh) + dl * sl;
    }
    ModOfMultiple(dl * sl, k);
  }

  lemma LowLinear(d: nat, s: nat)
    ensures (d + s) % M32 == (Low(d) + Low(s)) % M32
    ensures (d - s) % M32 == (Low(d) - Low(s)) % M32
    ensures (M - d) % M32 == (M32 - Low(d)) % M32
  {
    var dh, sh := d / M32, s / M32;
    ModOfMultiple(Low(d) + Low(s), dh + sh);
    ModOfMultiple(Low(d) - Low(s), dh - sh);
    ModOfMultiple(M32 - Low(d), M32 - 1 - dh);
  }

  lemma AgreesAlways(op: nat, d: U64, s: U64)
    requires IsAluOp(op) && Truncates(op)
    ensures Agrees(op, d, s)
  {
    if op == BPF_ADD {
      LowOfLow(d + s);
      LowLinear(d, s);
    } else if op == BPF_SUB {
      LowOfLow(d - s);
      LowLinear(d, s);
    } else if op == BPF_MUL {
      LowOfLow(d * s);
      LowMul(d, s);
    } else if op == BPF_NEG {
      LowOfLow(M - d);
      LowLinear(d, s);
    } else if op != BPF_MOV {
      Pow2Of64();
      ApplyLow(if op == BPF_OR then OrOp else if op == BPF_AND then AndOp else XorOp, d, s, 32);
    }
  }

  // ---- The opcodes that do not ----

  lemma ArshDisagrees()
    ensures !Agrees(BPF_ARSH, M32 / 2, 1)
  {
    assert Pow2(1) == 2 && Pow2(0) == 1;
    assert Signed(M32 / 2) / Pow2(1) % M == M32 / 4;
    assert Signed32(Low(M32 / 2)) / Pow2(1) % M32 == M32 / 2 + M32 / 4;
  }

  lemma LshDisagrees()
    ensures !Agrees(BPF_LSH, 1, 32)
  {
    assert Pow2(1) == 2 && Pow2(0) == 1;
    Pow2Of64();
  }

  lemma Disagrees(op: nat) returns (d: U64, s: U64)
    requires IsAluOp(op) && !Truncates(op)
    ensures !Agrees(op, d, s)
  {
    if op == BPF_DIV {
      d, s := M32, 2;
    } else if op == BPF_MOD {
      d, s := M32, 3;
    } else if op == BPF_LSH {
      d, s := 1, 32;
      LshDisagrees();
    } else if op == BPF_RSH {
      assert Pow2(1) == 2 && Pow2(0) == 1;
      d, s := M32, 1;
    } else {
      d, s := M32 / 2, 1;
      ArshDisagrees();
    }
  }

  /** Computing in 64 bits and truncating equals 32-bit arithmetic, for every pair of operands, exactly for the
      opcodes other than division, remainder and the shifts. */
  lemma SimulatesExactly(op: nat)
    requires IsAluOp(op)
    ensures Simulates(op) <==> Truncates(op)
  {
    if Truncates(op) {
      forall d: U64, s: U64 ensures Agrees(op, d, s) {
        AgreesAlways(op, d, s);
      }
    } else {
      var d, s := Disagrees(op);
    }
  }

  // ---- Straight-line programs ----

  predicate Straight(insn: Insn) {
    && insn.Class() == BPF_ALU && IsAluOp(insn.Op()) && Truncates(insn.Op())
    && insn.Dst() < BPF_REG_COUNT && insn.Src() < BPF_REG_COUNT
  }

  ghost predicate StraightLine(insns: seq<Insn>) {
    forall i :: 0 <= i < |insns| ==> Straight(insns[i])
  }

  /** The 32-bit machine's step: a register operand or the 32-bit immediate. */
  function Step32(insn: Insn, regs: seq<U32>): (r: seq<U32>)
    requires |regs| == BPF_REG_COUNT && Straight(insn)
    ensures |r| == BPF_REG_COUNT
  {
    var s := if insn.UsesRegister() then regs[insn.Src()] else Low32OfImm(insn.imm);
    match Alu32(insn.Op(), regs[insn.Dst()], s)
    case Ok(v) => regs[insn.Dst() := v]
    case Err => regs
  }

  function Low32OfImm(imm: I32): U32 {
    imm % M32
  }

  function Run32(insns: seq<Insn>, regs: seq<U32>): (r: seq<U32>)
    requires |regs| == BPF_REG_COUNT && forall i :: 0 <= i < |insns| ==> Straight(insns[i])
    ensures |r| == BPF_REG_COUNT
  {
    if insns == [] then regs else Step32(insns[|insns| - 1], Run32(insns[..|insns| - 1], regs))
  }

  ghost predicate LowHalves(regs: seq<U64>, regs32: seq<U32>) {
    |regs| == |regs32| == BPF_REG_COUNT && forall i :: 0 <= i < BPF_REG_COUNT ==> Low(regs[i]) == regs32[i]
  }

  lemma OneStep(insn: Insn, regs: seq<U64>, regs32: seq<U32>)
    requires Straight(insn) && LowHalves(regs, regs32)
    ensures AluStep(insn, regs).Ok? && LowHalves(AluStep(insn, regs).value, Step32(insn, regs32))
    ensures AluStep(insn, regs).value[insn.Dst()] < M32
  {
    var s := SourceValue(insn, regs).value;
    LowOfLow(insn.imm);
    AgreesAlways(insn.Op(), regs[insn.Dst()], s);
  }

  /** The interpreter's state after the first n instructions of a straight-line prefix. */
  ghost function After(insns: seq<Insn>, s: State, n: nat, helper: Helper): Stepped
    requires RegsOk(s.regs) && n <= |insns|
    ensures After(insns, s, n, helper).Next? ==> RegsOk(After(insns, s, n, helper).s.regs)
  {
    if n == 0 then Next(s)
    else
      match After(insns, s, n - 1, helper)
      case Done(o) => Done(o)
      case Next(s') => if s'.pc < |insns| then Step(insns, s', n - 1, helper) else Done(OffEnd(s'.regs[0]))
  }

  lemma StraightStep(insns: seq<Insn>, s: State, regs32: seq<U32>, n: nat, helper: Helper)
    requires n < |insns| < M && s.pc == n && Straight(insns[n]) && LowHalves(s.regs, regs32)
    ensures var r := Step(insns, s, n, helper);
            r.Next? && r.s.pc == n + 1 && LowHalves(r.s.regs, Step32(insns[n], regs32))
  {
    OneStep(insns[n], s.regs, regs32);
  }

  /** Running a straight-line ALU program leaves in every register's low half what the 32-bit machine computes. */
  lemma {:induction false} StraightLineSimulates(insns: seq<Insn>, regs: seq<U64>, regs32: seq<U32>, n: nat, helper: Helper)
    requires StraightLine(insns) && n <= |insns| < M && LowHalves(regs, regs32)
    ensures var r := After(insns, State(regs, 0), n, helper);
            r.Next? && r.s.pc == n && LowHalves(r.s.regs, Run32(insns[..n], regs32))
  {
    if n > 0 {
      StraightLineSimulates(insns, regs, regs32, n - 1, helper);
      var s := After(insns, State(regs, 0), n - 1, helper).s;
      assert insns[..n][..n - 1] == insns[..n - 1];
      StraightStep(insns, s, Run32(insns[..n - 1], regs32), n - 1, helper);
    }
  }
}
