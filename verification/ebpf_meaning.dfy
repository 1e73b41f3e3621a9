/** What each instruction means, told by whole programs, in the numbers of the instruction encoding (RFC 9669): what a
    program that uses the instruction returns, for all registers and operands. */
module EbpfMeaning {
  import opened Bits
  import opened Ebpf

  const TWO64: nat := 0x1_0000_0000_0000_0000

  // ---- Running short programs ----

  lemma RunNext(insns: seq<Insn>, s: State, count: nat, helper: Helper)
    requires RegsOk(s.regs) && s.pc < |insns| && count < 100
    ensures Step(insns, s, count, helper).Next? ==>
              Run(insns, s, count, helper) == Run(insns, Step(insns, s, count, helper).s, count + 1, helper)
    ensures Step(insns, s, count, helper).Done? ==>
              Run(insns, s, count, helper) == Step(insns, s, count, helper).o
  {
  }

  /** 64-bit move of register src to r0. */
  function MoveTo0(src: nat): Insn
    requires src < 11
  {
    Insn(0xBF, 16 * src, 0, 0)
  }

  const EXIT := Insn(0x95, 0, 0, 0)

  lemma ExitStep(insns: seq<Insn>, s: State, count: nat, helper: Helper)
    requires RegsOk(s.regs) && s.pc < |insns| && count < 100 && insns[s.pc] == EXIT
    ensures Run(insns, s, count, helper) == Exit(s.regs[0])
  {
    RunNext(insns, s, count, helper);
  }

  lemma MoveStep(insns: seq<Insn>, s: State, src: nat, count: nat, helper: Helper)
    requires RegsOk(s.regs) && s.pc < |insns| < TWO64 && count < 99 && src < 11 && insns[s.pc] == MoveTo0(src)
    ensures Run(insns, s, count, helper) == Run(insns, State(s.regs[0 := s.regs[src]], s.pc + 1), count + 1, helper)
  {
    var insn := MoveTo0(src);
    assert insn.Class() == BPF_ALU64 && insn.Op() == BPF_MOV && insn.UsesRegister() && insn.Dst() == 0;
    assert insn.Src() == src;
    RunNext(insns, s, count, helper);
  }

  /** The last two instructions return a register. */
  lemma MoveThenExit(insns: seq<Insn>, s: State, src: nat, count: nat, helper: Helper)
    requires RegsOk(s.regs) && s.pc + 1 < |insns| < TWO64 && count < 90 && src < 11
    requires insns[s.pc] == MoveTo0(src) && insns[s.pc + 1] == EXIT
    ensures Run(insns, s, count, helper) == Exit(s.regs[src])
  {
    MoveStep(insns, s, src, count, helper);
    ExitStep(insns, State(s.regs[0 := s.regs[src]], s.pc + 1), count + 1, helper);
  }

  /** An operand: a register, or the immediate sign-extended to 64 bits. */
  datatype Operand = Reg(r: nat) | Imm(imm: I32)

  predicate OperandOk(o: Operand) {
    o.Reg? ==> o.r < 11
  }

  function ValueOf(o: Operand, regs: seq<U64>): U64
    requires RegsOk(regs) && OperandOk(o)
  {
    match o
    case Reg(r) => regs[r]
    case Imm(imm) => if imm >= 0 then imm else imm + TWO64
  }

  /** An instruction of a class (4 and 7: arithmetic in 32 and 64 bits, 5: jumps) on register dst and an operand. */
  function Encode(cls: nat, op: nat, dst: nat, o: Operand, off: I16): Insn
    requires cls < 8 && op % 16 == 0 && op < 256 && dst < 11 && OperandOk(o)
  {
    match o
    case Reg(r) => Insn(op + 8 + cls, 16 * r + dst, off, 0)
    case Imm(imm) => Insn(op + cls, dst, off, imm)
  }

  lemma DecodedCode(i: Insn, cls: nat, q: nat, x: nat)
    requires cls < 8 && q < 16 && x < 2 && i.code == 16 * q + 8 * x + cls
    ensures i.Class() == cls && i.Op() == 16 * q && (i.UsesRegister() <==> x == 1)
  {
    Euclid(i.code, 8, 2 * q + x, cls);
    Euclid(i.code, 16, q, 8 * x + cls);
  }

  lemma DecodedRegs(i: Insn, dst: nat, src: nat)
    requires dst < 16 && src < 16 && i.regs == 16 * src + dst
    ensures i.Dst() == dst && i.Src() == src
  {
    Euclid(i.regs, 16, src, dst);
  }

  lemma Extended(imm: I32)
    ensures imm % TWO64 == if imm >= 0 then imm else imm + TWO64
  {
  }

  lemma Decoded(cls: nat, op: nat, dst: nat, o: Operand, off: I16, regs: seq<U64>)
    requires cls < 8 && op % 16 == 0 && op < 256 && dst < 11 && OperandOk(o) && RegsOk(regs)
    ensures var i := Encode(cls, op, dst, o, off);
            && i.Class() == cls && i.Op() == op && i.Dst() == dst && i.off == off
            && SourceValue(i, regs) == Ok(ValueOf(o, regs))
  {
    var i := Encode(cls, op, dst, o, off);
    DecodedCode(i, cls, op / 16, if o.Reg? then 1 else 0);
    DecodedRegs(i, dst, if o.Reg? then o.r else 0);
    if o.Imm? {
      Extended(o.imm);
    }
  }

  // ---- Conditional jumps ----

  /** A 64-bit word read as two's complement. */
  function AsSigned(x: U64): int {
    if x < 0x8000_0000_0000_0000 then x else x - TWO64
  }

  /** The jump opcodes but the plain jump, the call and the exit. */
  predicate IsCondition(op: nat) {
    op in {0x10, 0x20, 0x30, 0x40, 0x50, 0x60, 0x70, 0xA0, 0xB0, 0xC0, 0xD0, 0xE0, 0xF0}
  }

  ghost predicate ShareBit(a: U64, b: U64) {
    exists k: nat :: k < 64 && BitAt(a, k) && BitAt(b, k)
  }

  /** Equal, above, at or above, a common bit, different, the same signed, below, at or below, and the same signed; the
      two unused opcodes never hold. */
  ghost predicate Holds(op: nat, a: U64, b: U64) {
    match op
    case 0x10 => a == b
    case 0x20 => a > b
    case 0x30 => a >= b
    case 0x40 => ShareBit(a, b)
    case 0x50 => a != b
    case 0x60 => AsSigned(a) > AsSigned(b)
    case 0x70 => AsSigned(a) >= AsSigned(b)
    case 0xA0 => a < b
    case 0xB0 => a <= b
    case 0xC0 => AsSigned(a) < AsSigned(b)
    case 0xD0 => AsSigned(a) <= AsSigned(b)
    case _ => false
  }

  lemma CommonBit(a: U64, b: U64)
    ensures Bitwise(AndOp, a, b) != 0 <==> ShareBit(a, b)
  {
    if And(a, b) != 0 {
      var k := SomeBit(And(a, b));
      ApplyBits(AndOp, a, b, k);
      Pow2Of64();
      BitBelow(a, 64, k);
    }
    if k: nat :| k < 64 && BitAt(a, k) && BitAt(b, k) {
      ApplyBits(AndOp, a, b, k);
      NoBitOfZero(k);
    }
  }

  lemma TakenHolds(op: nat, a: U64, b: U64)
    requires IsCondition(op)
    ensures Taken(op, a, b) <==> Holds(op, a, b)
  {
    if op == 0x40 {
      CommonBit(a, b);
    }
  }

  /** If the condition holds of register dst and the operand, return register yes, else register no. */
  function Choice(op: nat, dst: nat, o: Operand, yes: nat, no: nat): seq<Insn>
    requires op % 16 == 0 && op < 256 && dst < 11 && OperandOk(o) && yes < 11 && no < 11
  {
    [Encode(5, op, dst, o, 2), MoveTo0(no), EXIT, MoveTo0(yes), EXIT]
  }

  lemma JumpStep(insns: seq<Insn>, regs: seq<U64>, s: U64, helper: Helper)
    requires RegsOk(regs) && |insns| == 5 && insns[0].off == 2
    requires insns[0].Class() == BPF_JMP && IsCondition(insns[0].Op()) && insns[0].Dst() < 11
    requires SourceValue(insns[0], regs) == Ok(s)
    ensures Step(insns, State(regs, 0), 0, helper) ==
            Next(State(regs, if Taken(insns[0].Op(), regs[insns[0].Dst()], s) then 3 else 1))
  {
    assert KnownCondition(insns[0].Op()) || insns[0].Op() in {0xE0, 0xF0};
  }

  lemma JumpRun(insns: seq<Insn>, op: nat, dst: nat, o: Operand, regs: seq<U64>, helper: Helper)
    requires IsCondition(op) && dst < 11 && OperandOk(o) && RegsOk(regs)
    requires |insns| == 5 && insns[0] == Encode(5, op, dst, o, 2)
    ensures Run(insns, State(regs, 0), 0, helper) ==
            Run(insns, State(regs, if Holds(op, regs[dst], ValueOf(o, regs)) then 3 else 1), 1, helper)
  {
    Decoded(5, op, dst, o, 2, regs);
    TakenHolds(op, regs[dst], ValueOf(o, regs));
    JumpStep(insns, regs, ValueOf(o, regs), helper);
    RunNext(insns, State(regs, 0), 0, helper);
  }

  /** Every conditional jump is taken exactly when its condition holds, for all registers and operands. */
  lemma BranchExactly(op: nat, dst: nat, o: Operand, yes: nat, no: nat, regs: seq<U64>, helper: Helper)
    requires IsCondition(op) && dst < 11 && OperandOk(o) && yes < 11 && no < 11 && RegsOk(regs)
    ensures Run(Choice(op, dst, o, yes, no), State(regs, 0), 0, helper) ==
            Exit(if Holds(op, regs[dst], ValueOf(o, regs)) then regs[yes] else regs[no])
  {
    var insns := Choice(op, dst, o, yes, no);
    JumpRun(insns, op, dst, o, regs, helper);
    if Holds(op, regs[dst], ValueOf(o, regs)) {
      MoveThenExit(insns, State(regs, 3), yes, 1, helper);
    } else {
      MoveThenExit(insns, State(regs, 1), no, 1, helper);
    }
  }

  /** Jumping on "above" picks the larger of two registers, on "below" the smaller, signed or not. */
  lemma PicksLargest(op: nat, x: nat, y: nat, regs: seq<U64>, helper: Helper)
    requires op in {0x20, 0x30, 0x60, 0x70, 0xA0, 0xB0, 0xC0, 0xD0} && x < 11 && y < 11 && RegsOk(regs)
    ensures
      var o := Run(Choice(op, x, Reg(y), x, y), State(regs, 0), 0, helper);
      && o.Exit? && (o.r0 == regs[x] || o.r0 == regs[y])
      && (op in {0x20, 0x30} ==> o.r0 >= regs[x] && o.r0 >= regs[y])
      && (op in {0xA0, 0xB0} ==> o.r0 <= regs[x] && o.r0 <= regs[y])
      && (op in {0x60, 0x70} ==> AsSigned(o.r0) >= AsSigned(regs[x]) && AsSigned(o.r0) >= AsSigned(regs[y]))
      && (op in {0xC0, 0xD0} ==> AsSigned(o.r0) <= AsSigned(regs[x]) && AsSigned(o.r0) <= AsSigned(regs[y]))
  {
    BranchExactly(op, x, Reg(y), x, y, regs, helper);
  }

  // ---- Arithmetic ----

  /** What the operation on a and b must yield in 64 bits. */
  ghost predicate Yields(op: nat, a: U64, b: U64, v: U64) {
    match op
    case 0x00 => v == if a + b < TWO64 then a + b else a + b - TWO64
    case 0x10 => v == if a >= b then a - b else a - b + TWO64
    case 0x20 => exists q :: a * b == q * TWO64 + v
    case 0x30 => if b == 0 then v == 0 else v * b <= a < v * b + b
    case 0x40 => forall k: nat :: BitAt(v, k) <==> BitAt(a, k) || BitAt(b, k)
    case 0x50 => forall k: nat :: BitAt(v, k) <==> BitAt(a, k) && BitAt(b, k)
    case 0x60 => exists q :: a * Pow2(b % 64) == q * TWO64 + v
    case 0x70 => v * Pow2(b % 64) <= a < v * Pow2(b % 64) + Pow2(b % 64)
    case 0x80 => v == if a == 0 then 0 else TWO64 - a
    case 0x90 => if b == 0 then v == a else v < b && exists q :: a == q * b + v
    case 0xA0 => forall k: nat :: BitAt(v, k) <==> BitAt(a, k) != BitAt(b, k)
    case 0xB0 => v == b
    case 0xC0 => AsSigned(v) * Pow2(b % 64) <= AsSigned(a) < AsSigned(v) * Pow2(b % 64) + Pow2(b % 64)
    case _ => false
  }

  lemma DivMod(a: int, m: nat)
    requires m > 0
    ensures a == a / m * m + a % m && 0 <= a % m < m
  {
  }

  lemma YieldsSum(a: U64, b: U64)
    ensures Yields(0x00, a, b, Alu(0x00, a, b).value) && Yields(0x10, a, b, Alu(0x10, a, b).value)
  {
    Wraps(a + b);
    Wraps(a - b);
  }

  lemma Wraps(x: int)
    requires 0 < x + TWO64 && x < 2 * TWO64
    ensures x % TWO64 == if x < 0 then x + TWO64 else if x < TWO64 then x else x - TWO64
  {
  }

  lemma YieldsLinear(op: nat, a: U64, b: U64)
    requires op in {0x00, 0x10, 0x80, 0xB0}
    ensures Yields(op, a, b, Alu(op, a, b).value)
  {
    YieldsSum(a, b);
    Wraps(TWO64 - a);
  }

  lemma YieldsProduct(op: nat, a: U64, b: U64)
    requires op in {0x20, 0x60}
    ensures Yields(op, a, b, Alu(op, a, b).value)
  {
    var product := if op == 0x20 then a * b else a * Pow2(b % 64);
    DivMod(product, TWO64);
    assert product == product / TWO64 * TWO64 + Alu(op, a, b).value;
  }

  lemma YieldsQuotient(op: nat, a: U64, b: U64)
    requires op in {0x30, 0x70, 0x90}
    ensures Yields(op, a, b, Alu(op, a, b).value)
  {
    var m := if op == 0x70 then Pow2(b % 64) else b;
    if m > 0 {
      DivMod(a, m);
      assert a == a / m * m + a % m;
    }
  }

  lemma YieldsBits(op: nat, a: U64, b: U64)
    requires op in {0x40, 0x50, 0xA0}
    ensures Yields(op, a, b, Alu(op, a, b).value)
  {
    var bop := if op == 0x40 then OrOp else if op == 0x50 then AndOp else XorOp;
    forall k: nat {
      ApplyBits(bop, a, b, k);
    }
  }

  /** An arithmetic shift of a word stays within the signed range, so it comes back as it is. */
  lemma YieldsSigned(a: U64, b: U64)
    ensures Yields(0xC0, a, b, Alu(0xC0, a, b).value)
  {
    var p, x := Pow2(b % 64), AsSigned(a);
    DivMod(x, p);
    SignedQuotient(x, p);
    SignedWord(x / p);
    assert Signed(a) == x;
  }

  lemma Stretch(p: nat, d: int)
    requires p >= 1
    ensures d >= 0 ==> p * d >= d
    ensures d <= 0 ==> p * d <= d
  {
  }

  /** Dividing never moves a number away from zero by more than itself. */
  lemma QuotientBetween(x: int, p: nat, q: int)
    requires p >= 1 && p * q <= x < p * q + p
    ensures x >= 0 ==> 0 <= q <= x
    ensures x < 0 ==> x <= q < 0
  {
    Stretch(p, q);
    Stretch(p, q + 1);
    assert p * (q + 1) == p * q + p;
  }

  lemma SignedQuotient(x: int, p: nat)
    requires p >= 1 && -0x8000_0000_0000_0000 <= x < 0x8000_0000_0000_0000
    ensures -0x8000_0000_0000_0000 <= x / p < 0x8000_0000_0000_0000
  {
    DivMod(x, p);
    QuotientBetween(x, p, x / p);
  }

  lemma SignedWord(q: int)
    requires -0x8000_0000_0000_0000 <= q < 0x8000_0000_0000_0000
    ensures AsSigned(q % TWO64) == q
  {
    assert q % TWO64 == if q >= 0 then q else q + TWO64;
  }

  lemma AluYields(op: nat, a: U64, b: U64)
    requires IsAluOp(op)
    ensures Alu(op, a, b).Ok? && Yields(op, a, b, Alu(op, a, b).value)
  {
    if op in {0x00, 0x10, 0x80, 0xB0} {
      YieldsLinear(op, a, b);
    } else if op in {0x20, 0x60} {
      YieldsProduct(op, a, b);
    } else if op in {0x30, 0x70, 0x90} {
      YieldsQuotient(op, a, b);
    } else if op in {0x40, 0x50, 0xA0} {
      YieldsBits(op, a, b);
    } else {
      YieldsSigned(a, b);
    }
  }

  /** Apply an operation to register dst and an operand, and return the register. */
  function Compute(cls: nat, op: nat, dst: nat, o: Operand): seq<Insn>
    requires (cls == 4 || cls == 7) && op % 16 == 0 && op < 256 && dst < 11 && OperandOk(o)
  {
    [Encode(cls, op, dst, o, 0), MoveTo0(dst), EXIT]
  }

  lemma AluNext(insns: seq<Insn>, regs: seq<U64>, b: U64, helper: Helper)
    requires RegsOk(regs) && |insns| == 3 && insns[0].Dst() < 11
    requires insns[0].Class() == 4 || insns[0].Class() == 7
    requires SourceValue(insns[0], regs) == Ok(b)
    ensures
      var i := insns[0];
      Step(insns, State(regs, 0), 0, helper) ==
      if !IsAluOp(i.Op()) then Done(InvalidProg)
      else
        var v := Alu(i.Op(), regs[i.Dst()], b).value;
        Next(State(regs[i.Dst() := if i.Class() == 4 then v % 0x1_0000_0000 else v], 1))
  {
  }

  lemma AluRun(insns: seq<Insn>, cls: nat, op: nat, dst: nat, o: Operand, regs: seq<U64>, helper: Helper)
    requires (cls == 4 || cls == 7) && op % 16 == 0 && op < 256 && dst < 11 && OperandOk(o) && RegsOk(regs)
    requires |insns| == 3 && insns[0] == Encode(cls, op, dst, o, 0)
    ensures IsAluOp(op) ==>
              var v := Alu(op, regs[dst], ValueOf(o, regs)).value;
              Run(insns, State(regs, 0), 0, helper) ==
              Run(insns, State(regs[dst := if cls == 4 then v % 0x1_0000_0000 else v], 1), 1, helper)
    ensures !IsAluOp(op) ==> Run(insns, State(regs, 0), 0, helper) == InvalidProg
  {
    Decoded(cls, op, dst, o, 0, regs);
    AluNext(insns, regs, ValueOf(o, regs), helper);
    RunNext(insns, State(regs, 0), 0, helper);
  }

  /** Every arithmetic operation yields what it must, for all registers and operands, cut to 32 bits in the 32-bit class;
      an opcode that is none ends the program as invalid. */
  lemma ComputesExactly(cls: nat, op: nat, dst: nat, o: Operand, regs: seq<U64>, helper: Helper)
    requires (cls == 4 || cls == 7) && op % 16 == 0 && op < 256 && dst < 11 && OperandOk(o) && RegsOk(regs)
    ensures
      var outcome := Run(Compute(cls, op, dst, o), State(regs, 0), 0, helper);
      if op > 0xC0 then outcome == InvalidProg
      else
        exists v: U64 :: Yields(op, regs[dst], ValueOf(o, regs), v) &&
                         outcome == Exit(if cls == 4 then v % 0x1_0000_0000 else v)
  {
    var insns := Compute(cls, op, dst, o);
    AluRun(insns, cls, op, dst, o, regs, helper);
    if op <= 0xC0 {
      AluYields(op, regs[dst], ValueOf(o, regs));
      var v := Alu(op, regs[dst], ValueOf(o, regs)).value;
      var regs' := regs[dst := if cls == 4 then v % 0x1_0000_0000 else v];
      MoveThenExit(insns, State(regs', 1), dst, 1, helper);
    }
  }

  // ---- Calls, plain jumps and everything else ----

  lemma CallNext(insns: seq<Insn>, regs: seq<U64>, helper: Helper)
    requires RegsOk(regs) && |insns| >= 1 && insns[0].Class() == 5 && insns[0].Op() == 0x80 && insns[0].imm >= 0
    ensures Step(insns, State(regs, 0), 0, helper) == Next(State(regs[0 := helper(0, insns[0].imm, regs)], 1))
  {
  }

  /** A call puts the helper's result in r0. */
  lemma CallExactly(id: nat, regs: seq<U64>, helper: Helper)
    requires id < 0x8000_0000 && RegsOk(regs)
    ensures Run([Insn(0x85, 0, 0, id), EXIT], State(regs, 0), 0, helper) == Exit(helper(0, id, regs))
  {
    var insns := [Insn(0x85, 0, 0, id), EXIT];
    CallNext(insns, regs, helper);
    RunNext(insns, State(regs, 0), 0, helper);
    ExitStep(insns, State(regs[0 := helper(0, id, regs)], 1), 1, helper);
  }

  lemma JumpNext(insns: seq<Insn>, regs: seq<U64>, helper: Helper)
    requires RegsOk(regs) && |insns| == 5 && insns[0].Class() == 5 && insns[0].Op() == 0 && insns[0].off == 2
    ensures Step(insns, State(regs, 0), 0, helper) == Next(State(regs, 3))
  {
  }

  /** A plain jump always skips as many instructions as its offset says. */
  lemma JumpExactly(regs: seq<U64>, x: nat, y: nat, helper: Helper)
    requires RegsOk(regs) && x < 11 && y < 11
    ensures Run([Insn(0x05, 0, 2, 0), MoveTo0(x), EXIT, MoveTo0(y), EXIT], State(regs, 0), 0, helper) == Exit(regs[y])
  {
    var insns := [Insn(0x05, 0, 2, 0), MoveTo0(x), EXIT, MoveTo0(y), EXIT];
    JumpNext(insns, regs, helper);
    RunNext(insns, State(regs, 0), 0, helper);
    MoveThenExit(insns, State(regs, 3), y, 1, helper);
  }

  lemma SkipNext(insns: seq<Insn>, regs: seq<U64>, helper: Helper)
    requires RegsOk(regs) && |insns| >= 1 && insns[0].Class() !in {4, 5, 7}
    ensures Step(insns, State(regs, 0), 0, helper) == Next(State(regs, 1))
  {
  }

  /** Loads, stores and the other classes do nothing here. */
  lemma OthersSkip(insn: Insn, regs: seq<U64>, x: nat, helper: Helper)
    requires RegsOk(regs) && x < 11 && insn.code % 8 !in {4, 5, 7}
    ensures Run([insn, MoveTo0(x), EXIT], State(regs, 0), 0, helper) == Exit(regs[x])
  {
    var insns := [insn, MoveTo0(x), EXIT];
    SkipNext(insns, regs, helper);
    RunNext(insns, State(regs, 0), 0, helper);
    MoveThenExit(insns, State(regs, 1), x, 1, helper);
  }

  lemma UnusedNext(insns: seq<Insn>, regs: seq<U64>, helper: Helper)
    requires RegsOk(regs) && |insns| >= 1 && insns[0].Class() == 5 && insns[0].Op() >= 0xE0 && !insns[0].UsesRegister()
    ensures Step(insns, State(regs, 0), 0, helper) == Next(State(regs, 1))
  {
  }

  /** An unused jump opcode on an immediate changes nothing, whatever register and offset it names. */
  lemma UnusedSkips(op: nat, regsByte: U8, off: I16, imm: I32, regs: seq<U64>, x: nat, helper: Helper)
    requires op in {0xE0, 0xF0} && RegsOk(regs) && x < 11
    ensures Run([Insn(op + 5, regsByte, off, imm), MoveTo0(x), EXIT], State(regs, 0), 0, helper) == Exit(regs[x])
  {
    var insns := [Insn(op + 5, regsByte, off, imm), MoveTo0(x), EXIT];
    DecodedCode(insns[0], 5, op / 16, 0);
    UnusedNext(insns, regs, helper);
    RunNext(insns, State(regs, 0), 0, helper);
    MoveThenExit(insns, State(regs, 1), x, 1, helper);
  }
}
