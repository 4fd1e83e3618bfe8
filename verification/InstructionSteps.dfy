/** What single steps do to registers and memory, by the encoding of their instructions (cannon/mipsevm/mips.go; MIPS32
    Architecture For Programmers Volume II, chapter 3).  The statements are on register values and integers. */
module InstructionSteps {
  import opened Alu
  import opened AluMeaning
  import opened Bits
  import opened Bytes
  import opened ByteLanes
  import opened FlatMemory
  import opened Mips
  import opened FlatStep
  import opened Instrumented

  function IType(op: nat, rs: nat, rt: nat, imm: nat): Word
    requires op < 64 && rs < 32 && rt < 32 && imm < 0x1_0000
  {
    op * 0x400_0000 + rs * 0x20_0000 + rt * 0x1_0000 + imm
  }

  function RType(op: nat, rs: nat, rt: nat, rd: nat, shamt: nat, fun: nat): Word
    requires op < 64 && rs < 32 && rt < 32 && rd < 32 && shamt < 32 && fun < 64
  {
    op * 0x400_0000 + rs * 0x20_0000 + rt * 0x1_0000 + rd * 0x800 + shamt * 0x40 + fun
  }

  function JType(op: nat, index: nat): Word
    requires op < 64 && index < 0x400_0000
  {
    op * 0x400_0000 + index
  }

  lemma ITypeFields(op: nat, rs: nat, rt: nat, imm: nat)
    requires op < 64 && rs < 32 && rt < 32 && imm < 0x1_0000
    ensures var insn := IType(op, rs, rt, imm);
            Opcode(insn) == op && RsReg(insn) == rs && RtReg(insn) == rt && Imm(insn) == imm
  {
    var insn := IType(op, rs, rt, imm);
    assert insn / 0x1_0000 == op * 0x400 + rs * 0x20 + rt;
    assert insn / 0x20_0000 == op * 0x20 + rs;
  }

  lemma RTypeFields(op: nat, rs: nat, rt: nat, rd: nat, shamt: nat, fun: nat)
    requires op < 64 && rs < 32 && rt < 32 && rd < 32 && shamt < 32 && fun < 64
    ensures var insn := RType(op, rs, rt, rd, shamt, fun);
            && Opcode(insn) == op && RsReg(insn) == rs && RtReg(insn) == rt && RdReg(insn) == rd
            && Shamt(insn) == shamt && Fun(insn) == fun
  {
    var insn := RType(op, rs, rt, rd, shamt, fun);
    assert insn / 0x40 == op * 0x10_0000 + rs * 0x8000 + rt * 0x400 + rd * 0x20 + shamt;
    assert insn / 0x800 == op * 0x8000 + rs * 0x400 + rt * 0x20 + rd;
    assert insn / 0x1_0000 == op * 0x400 + rs * 0x20 + rt;
    assert insn / 0x20_0000 == op * 0x20 + rs;
  }

  lemma JTypeFields(op: nat, index: nat)
    requires op < 64 && index < 0x400_0000
    ensures Opcode(JType(op, index)) == op && JType(op, index) % 0x400_0000 == index
  {
  }

  /** The VM is about to execute insn. */
  predicate AtInsn(cpu: Cpu, c: Contents, insn: Word) {
    !cpu.exited && cpu.pc % 4 == 0 && WordAt(c, cpu.pc) == insn
  }

  function Counted(cpu: Cpu): Cpu {
    cpu.(step := (cpu.step + 1) % 0x1_0000_0000_0000_0000)
  }

  /** The registers after a step that falls through to the next instruction. */
  function FallThrough(cpu: Cpu): Cpu {
    Counted(cpu).(pc := cpu.nextPC, nextPC := (cpu.nextPC + 4) % 0x1_0000_0000)
  }

  /** Register r set to v; register 0 is never written. */
  function WithReg(cpu: Cpu, r: nat, v: Word): Cpu
    requires r < 32
  {
    if r == 0 then cpu else cpu.(registers := cpu.registers[r := v])
  }

  /** The value of a 16-bit immediate read as signed. */
  function SignedImm(imm: nat): int
    requires imm < 0x1_0000
  {
    if imm < 0x8000 then imm else imm - 0x1_0000
  }

  lemma ImmExtends(imm: nat)
    requires imm < 0x1_0000
    ensures SE(imm, 16) == SignedImm(imm) % 0x1_0000_0000
  {
    hide SE;
    SEValue(imm, 16);
    Pow2Values();
    assert Pow2(16) == 2 * Pow2(15);
  }

  /** A step is the transition on the word it touches. */
  lemma StepAt(cpu: Cpu, c: Contents, insn: Word, chunk: Outcome<seq<Byte>>)
    requires Paged(c) && AtInsn(cpu, c, insn)
    ensures var cpu1 := Counted(cpu);
            var access := DataAccess(cpu1, insn);
            FlatStep.Step(cpu, c, chunk)
            == match Transition(cpu1, insn, AccessedWord(c, access), chunk)
               case Ok(r) => Ok((r.0, Stored(c, access, r.1)))
               case Fault => Fault
  {
    hide Transition, DataAccess, WordAt, AccessedWord, Stored;
  }

  predicate InDelaySlot(cpu: Cpu) {
    cpu.nextPC != (cpu.pc + 4) % 0x1_0000_0000
  }

  /** beq, bne, blez, bgtz, bltz and bgez, the last two told apart by the rt field. */
  predicate IsBranch(op: nat, rt: nat) {
    4 <= op <= 7 || (op == 1 && rt <= 1)
  }

  /** Whether the branch is taken, x and y being the values of its two registers. */
  predicate Takes(op: nat, rt: nat, x: Word, y: Word) {
    match op
    case 4 => x == y
    case 5 => x != y
    case 6 => Signed(x) <= 0
    case 7 => Signed(x) > 0
    case _ => if rt == 0 then Signed(x) < 0 else Signed(x) >= 0
  }

  lemma BranchTarget(pc: Word, imm: nat)
    requires imm < 0x1_0000
    ensures Wrap(pc + 4 + Shl(SE(imm, 16), 2)) == ((pc as int) + 4 + 4 * SignedImm(imm)) % 0x1_0000_0000
  {
    hide SE, Shl;
    ImmExtends(imm);
    ShlIsProduct(SE(imm, 16), 2);
    assert Pow2(2) == 4;
  }

  /** A branch: the delay slot comes next, and then the target, counted in words from it, or the instruction behind it.
      Nothing else changes; in a delay slot it panics. */
  lemma BranchStep(cpu: Cpu, c: Contents, chunk: Outcome<seq<Byte>>, op: nat, rs: nat, rt: nat, imm: nat)
    requires rs < 32 && rt < 32 && imm < 0x1_0000 && IsBranch(op, rt)
    requires Paged(c) && AtInsn(cpu, c, IType(op, rs, rt, imm))
    ensures FlatStep.Step(cpu, c, chunk)
         == if InDelaySlot(cpu) then Fault
            else
              var taken := Takes(op, rt, cpu.registers[rs], cpu.registers[rt]);
              var after := if taken then (cpu.pc as int) + 4 + 4 * SignedImm(imm) else (cpu.pc as int) + 8;
              Ok((Counted(cpu).(pc := cpu.nextPC, nextPC := after % 0x1_0000_0000), c))
  {
    hide WordAt, Opcode, RsReg, RtReg, Imm, IType, SetWord, Transition, HandleBranch, AlignDown, Takes;
    var insn := IType(op, rs, rt, imm);
    ITypeFields(op, rs, rt, imm);
    StepAt(cpu, c, insn, chunk);
    BranchTransition(Counted(cpu), insn, AccessedWord(c, DataAccess(Counted(cpu), insn)), chunk);
    BranchMeans(Counted(cpu), op, insn, rt, imm, cpu.registers[rs]);
  }

  lemma BranchTransition(cpu: Cpu, insn: Word, mem: Word, chunk: Outcome<seq<Byte>>)
    requires 4 <= Opcode(insn) < 8 || Opcode(insn) == 1
    ensures Transition(cpu, insn, mem, chunk)
         == NoStoreOf(HandleBranch(cpu, Opcode(insn), insn, RtReg(insn), cpu.registers[RsReg(insn)]))
  {
    hide Opcode, Fun, RsReg, RtReg, HandleBranch, HandleSyscall, HandleAlu;
  }

  lemma BranchMeans(cpu: Cpu, op: nat, insn: Word, rt: nat, imm: nat, x: Word)
    requires rt < 32 && imm < 0x1_0000 && IsBranch(op, rt) && RtReg(insn) == rt && Imm(insn) == imm
    ensures HandleBranch(cpu, op, insn, rt, x)
         == if InDelaySlot(cpu) then Fault
            else
              var after := if Takes(op, rt, x, cpu.registers[rt]) then (cpu.pc as int) + 4 + 4 * SignedImm(imm)
                           else (cpu.pc as int) + 8;
              Ok(cpu.(pc := cpu.nextPC, nextPC := after % 0x1_0000_0000))
  {
    hide SE, Shl, Signed, RtReg, Imm;
    BranchTarget(cpu.pc, imm);
    PastDelaySlot(cpu.pc);
  }

  lemma PastDelaySlot(pc: Word)
    ensures Wrap(((pc as int) + 4) % 0x1_0000_0000 + 4) == ((pc as int) + 8) % 0x1_0000_0000
  {
  }

  /** j and jal: the index counts words in the 256 MB region of the delay slot; jal links behind the delay slot. */
  lemma JumpStep(cpu: Cpu, c: Contents, chunk: Outcome<seq<Byte>>, op: nat, index: nat)
    requires (op == 2 || op == 3) && index < 0x400_0000
    requires Paged(c) && AtInsn(cpu, c, JType(op, index))
    ensures FlatStep.Step(cpu, c, chunk)
         == if InDelaySlot(cpu) then Fault
            else
              var linked := if op == 3 then WithReg(cpu, 31, (cpu.pc + 8) % 0x1_0000_0000) else cpu;
              var dest := cpu.nextPC - cpu.nextPC % 0x1000_0000 + 4 * index;
              Ok((Counted(linked).(pc := cpu.nextPC, nextPC := dest), c))
  {
    hide WordAt, SE, Shl, Signed, Opcode, RsReg, RtReg, JType, SetWord, HandleSyscall, HandleAlu, AlignDown;
    JTypeFields(op, index);
    StepAt(cpu, c, JType(op, index), chunk);
  }

  /** jr and jalr; the target is read before the link register is written. */
  lemma JumpRegisterStep(cpu: Cpu, c: Contents, chunk: Outcome<seq<Byte>>, rs: nat, rt: nat, rd: nat, shamt: nat,
      fun: nat)
    requires rs < 32 && rt < 32 && rd < 32 && shamt < 32 && (fun == 8 || fun == 9)
    requires Paged(c) && AtInsn(cpu, c, RType(0, rs, rt, rd, shamt, fun))
    ensures FlatStep.Step(cpu, c, chunk)
         == if InDelaySlot(cpu) then Fault
            else
              var linked := if fun == 9 then WithReg(cpu, rd, (cpu.pc + 8) % 0x1_0000_0000) else cpu;
              Ok((Counted(linked).(pc := cpu.nextPC, nextPC := cpu.registers[rs]), c))
  {
    hide WordAt, SE, Shl, Signed, Opcode, Fun, RsReg, RtReg, RdReg, RType, SetWord, HandleSyscall, HandleAlu, AlignDown;
    RTypeFields(0, rs, rt, rd, shamt, fun);
    StepAt(cpu, c, RType(0, rs, rt, rd, shamt, fun), chunk);
  }

  /** movz and movn. */
  lemma MoveStep(cpu: Cpu, c: Contents, chunk: Outcome<seq<Byte>>, rs: nat, rt: nat, rd: nat, shamt: nat, fun: nat)
    requires rs < 32 && rt < 32 && rd < 32 && shamt < 32 && (fun == 0xa || fun == 0xb)
    requires Paged(c) && AtInsn(cpu, c, RType(0, rs, rt, rd, shamt, fun))
    ensures var moves := if fun == 0xa then cpu.registers[rt] == 0 else cpu.registers[rt] != 0;
            FlatStep.Step(cpu, c, chunk)
            == Ok((FallThrough(if moves then WithReg(cpu, rd, cpu.registers[rs]) else cpu), c))
  {
    hide WordAt, SE, Shl, Signed, Opcode, Fun, RsReg, RtReg, RdReg, RType, SetWord, HandleSyscall, HandleAlu, AlignDown;
    RTypeFields(0, rs, rt, rd, shamt, fun);
    StepAt(cpu, c, RType(0, rs, rt, rd, shamt, fun), chunk);
  }

  /** mfhi, mthi, mflo and mtlo.  The two that write HI or LO also clear the register in their rd field. */
  lemma HiLoMoveStep(cpu: Cpu, c: Contents, chunk: Outcome<seq<Byte>>, rs: nat, rt: nat, rd: nat, shamt: nat, fun: nat)
    requires rs < 32 && rt < 32 && rd < 32 && shamt < 32 && 0x10 <= fun <= 0x13
    requires Paged(c) && AtInsn(cpu, c, RType(0, rs, rt, rd, shamt, fun))
    ensures FlatStep.Step(cpu, c, chunk)
         == Ok((FallThrough(match fun
                            case 0x10 => WithReg(cpu, rd, cpu.hi)
                            case 0x11 => WithReg(cpu.(hi := cpu.registers[rs]), rd, 0)
                            case 0x12 => WithReg(cpu, rd, cpu.lo)
                            case _ => WithReg(cpu.(lo := cpu.registers[rs]), rd, 0)), c))
  {
    hide WordAt, SE, Shl, Signed, Opcode, Fun, RsReg, RtReg, RdReg, RType, SetWord, HandleSyscall, HandleAlu, AlignDown;
    RTypeFields(0, rs, rt, rd, shamt, fun);
    StepAt(cpu, c, RType(0, rs, rt, rd, shamt, fun), chunk);
  }

  /** What mult, multu, div and divu leave in HI and LO for the operands x and y: the exact product, or the quotient
      truncated toward zero and a remainder with the sign of the dividend, but for the one quotient that overflows. */
  predicate Arithmetic(fun: nat, x: Word, y: Word, hi: Word, lo: Word) {
    match fun
    case 0x18 => Signed(hi) * 0x1_0000_0000 + lo == Signed(x) * Signed(y)
    case 0x19 => (hi as int) * 0x1_0000_0000 + lo == (x as int) * (y as int)
    case 0x1a =>
      && (Signed(x) == Signed(lo) * Signed(y) + Signed(hi) <==> !(x == 0x8000_0000 && y == 0xFFFF_FFFF))
      && (if Signed(hi) < 0 then -Signed(hi) else Signed(hi)) < (if Signed(y) < 0 then -Signed(y) else Signed(y))
      && (Signed(hi) == 0 || (Signed(hi) < 0 <==> Signed(x) < 0))
      && ((lo as int) * (y as int) + hi) % 0x1_0000_0000 == x
    case _ => (x as int) == (lo as int) * (y as int) + hi && hi < y
  }

  lemma HiLoArithmetic(fun: nat, x: Word, y: Word, hi: Word, lo: Word)
    requires 0x18 <= fun <= 0x1b
    ensures HiLo(fun, x, y, hi, lo).Ok? <==> !(fun >= 0x1a && y == 0)
    ensures var r := HiLo(fun, x, y, hi, lo); r.Ok? ==> Arithmetic(fun, x, y, r.value.0, r.value.1) && r.value.2 == 0
  {
    hide Signed, TruncDiv;
    if fun < 0x1a {
      MultIsProduct(x, y, hi, lo);
    } else if y != 0 && fun == 0x1a {
      DivTruncates(x, y, hi, lo);
      DivRecomposes(x, y, hi, lo, fun);
    } else if y != 0 {
      UnsignedDivision(x, y);
    }
  }

  lemma UnsignedDivision(x: Word, y: Word)
    requires y != 0
    ensures (x as int) == ((x / y) as int) * (y as int) + x % y
  {
  }

  /** mult, multu, div and divu; division by zero panics. */
  lemma ArithmeticStep(cpu: Cpu, c: Contents, chunk: Outcome<seq<Byte>>, rs: nat, rt: nat, rd: nat, shamt: nat,
      fun: nat)
    requires rs < 32 && rt < 32 && rd < 32 && shamt < 32 && 0x18 <= fun <= 0x1b
    requires Paged(c) && AtInsn(cpu, c, RType(0, rs, rt, rd, shamt, fun))
    ensures var s := FlatStep.Step(cpu, c, chunk);
            && (s.Ok? <==> !(fun >= 0x1a && cpu.registers[rt] == 0))
            && (s.Ok? ==>
                  var hi, lo := s.value.0.hi, s.value.0.lo;
                  && s.value == (FallThrough(WithReg(cpu.(hi := hi, lo := lo), rd, 0)), c)
                  && Arithmetic(fun, cpu.registers[rs], cpu.registers[rt], hi, lo))
  {
    hide WordAt, SE, Shl, Signed, Opcode, Fun, RsReg, RtReg, RdReg, RType, SetWord, HandleSyscall, HandleAlu, AlignDown;
    hide HiLo, Arithmetic;
    RTypeFields(0, rs, rt, rd, shamt, fun);
    StepAt(cpu, c, RType(0, rs, rt, rd, shamt, fun), chunk);
    HiLoArithmetic(fun, cpu.registers[rs], cpu.registers[rt], cpu.hi, cpu.lo);
  }

  /** Instructions of opcode 0 that have no handler of their own, and those of opcode 0x1c: the ALU on the two registers
      goes to the third. */
  lemma RegisterStep(cpu: Cpu, c: Contents, chunk: Outcome<seq<Byte>>, op: nat, rs: nat, rt: nat, rd: nat, shamt: nat,
                     fun: nat)
    requires rs < 32 && rt < 32 && rd < 32 && shamt < 32 && fun < 64
    requires (op == 0 && !IsSpecial(fun)) || op == 0x1c
    requires Paged(c) && AtInsn(cpu, c, RType(op, rs, rt, rd, shamt, fun))
    ensures FlatStep.Step(cpu, c, chunk)
         == match Execute(RType(op, rs, rt, rd, shamt, fun), cpu.registers[rs], cpu.registers[rt], 0)
            case Ok(val) => Ok((FallThrough(WithReg(cpu, rd, val)), c))
            case Fault => Fault
  {
    hide WordAt, SE, Execute, Opcode, Fun, RsReg, RtReg, RdReg, RType, SetWord, Transition, AlignDown;
    var insn := RType(op, rs, rt, rd, shamt, fun);
    RTypeFields(op, rs, rt, rd, shamt, fun);
    StepAt(cpu, c, insn, chunk);
    AluTransition(Counted(cpu), insn, 0, chunk, cpu.registers[rs], rd);
  }

  /** Which opcodes take the immediate without its sign. */
  function Extended(op: nat, imm: nat): Word
    requires imm < 0x1_0000
  {
    if op == 0xC || op == 0xD || op == 0xE then imm else SignedImm(imm) % 0x1_0000_0000
  }

  /** Arithmetic with an immediate: andi, ori and xori take it as it is, the others extend its sign. */
  lemma ImmediateStep(cpu: Cpu, c: Contents, chunk: Outcome<seq<Byte>>, op: nat, rs: nat, rt: nat, imm: nat)
    requires rs < 32 && rt < 32 && imm < 0x1_0000 && 8 <= op <= 0xF
    requires Paged(c) && AtInsn(cpu, c, IType(op, rs, rt, imm))
    ensures FlatStep.Step(cpu, c, chunk)
         == match Execute(IType(op, rs, rt, imm), cpu.registers[rs], Extended(op, imm), 0)
            case Ok(val) => Ok((FallThrough(WithReg(cpu, rt, val)), c))
            case Fault => Fault
  {
    hide WordAt, SE, Execute, Opcode, Fun, RsReg, RtReg, Imm, IType, SetWord, Transition, AlignDown;
    var insn := IType(op, rs, rt, imm);
    ITypeFields(op, rs, rt, imm);
    ImmExtends(imm);
    StepAt(cpu, c, insn, chunk);
    AluTransition(Counted(cpu), insn, 0, chunk, cpu.registers[rs], rt);
  }

  /** addi, addiu and lui. */
  lemma AddImmediateStep(cpu: Cpu, c: Contents, chunk: Outcome<seq<Byte>>, op: nat, rs: nat, rt: nat, imm: nat)
    requires rs < 32 && rt < 32 && imm < 0x1_0000 && (op == 8 || op == 9 || op == 0xF)
    requires Paged(c) && AtInsn(cpu, c, IType(op, rs, rt, imm))
    ensures var val := if op == 0xF then imm * 0x1_0000 else (cpu.registers[rs] + SignedImm(imm)) % 0x1_0000_0000;
            FlatStep.Step(cpu, c, chunk) == Ok((FallThrough(WithReg(cpu, rt, val)), c))
  {
    hide WordAt, SE, Execute, Opcode, Fun, RsReg, RtReg, Imm, IType, SetWord, FlatStep.Step, AlignDown;
    ITypeFields(op, rs, rt, imm);
    ImmediateStep(cpu, c, chunk, op, rs, rt, imm);
    ImmediateResult(IType(op, rs, rt, imm), op, cpu.registers[rs], imm);
  }

  lemma ImmediateResult(insn: Word, op: nat, x: Word, imm: nat)
    requires imm < 0x1_0000 && Opcode(insn) == op && (op == 8 || op == 9 || op == 0xF)
    ensures Execute(insn, x, Extended(op, imm), 0)
         == Ok(if op == 0xF then imm * 0x1_0000 else (x + SignedImm(imm)) % 0x1_0000_0000)
  {
    hide Opcode, Fun, Execute, Signed, Extended, Wrap;
    if op == 0xF {
      LogicalShifts(insn, x, Extended(op, imm), 0);
      UpperHalf(imm);
    } else {
      AddSub(insn, x, Extended(op, imm), 0);
      SumExtended(x, imm, op);
    }
  }

  lemma UpperHalf(imm: nat)
    requires imm < 0x1_0000
    ensures Wrap(Extended(0xF, imm) * 0x1_0000) == imm * 0x1_0000
  {
    var e: int := Extended(0xF, imm);
    if imm < 0x8000 {
      assert e == imm;
    } else {
      assert e == imm + 0xFFFF_0000;
    }
    QuotientUnique(e * 0x1_0000, 0x1_0000_0000, if imm < 0x8000 then 0 else 0xFFFF, imm * 0x1_0000);
  }

  lemma SumExtended(x: Word, imm: nat, op: nat)
    requires imm < 0x1_0000 && (op == 8 || op == 9)
    ensures Wrap(Signed(x) + Signed(Extended(op, imm))) == (x + SignedImm(imm)) % 0x1_0000_0000
  {
  }

  /** The address of a load or store. */
  function Address(base: Word, imm: nat): Word
    requires imm < 0x1_0000
  {
    (base + SignedImm(imm)) % 0x1_0000_0000
  }

  predicate IsLoad(op: nat) {
    0x20 <= op <= 0x26 || op == 0x30
  }

  predicate IsStoreOp(op: nat) {
    op == 0x28 || op == 0x29 || op == 0x2a || op == 0x2b || op == 0x2e || op == 0x38
  }

  /** Loads and stores: the ALU gets the address, the register and the aligned word there; a load sets the register, a
      store the word, and sc also sets its register to 1.  No address panics. */
  lemma MemoryStep(cpu: Cpu, c: Contents, chunk: Outcome<seq<Byte>>, op: nat, rs: nat, rt: nat, imm: nat)
    requires rs < 32 && rt < 32 && imm < 0x1_0000 && (IsLoad(op) || IsStoreOp(op))
    requires Paged(c) && AtInsn(cpu, c, IType(op, rs, rt, imm))
    ensures var a := Address(cpu.registers[rs], imm);
            var w := AlignDown(a);
            var r := Execute(IType(op, rs, rt, imm), a, cpu.registers[rt], WordAt(c, w));
            && r.Ok?
            && FlatStep.Step(cpu, c, chunk)
               == Ok(if IsLoad(op) then (FallThrough(WithReg(cpu, rt, r.value)), c)
                     else (FallThrough(if op == 0x38 then WithReg(cpu, rt, 1) else cpu), SetWord(c, w, r.value)))
  {
    hide WordAt, SE, Execute, Opcode, Fun, RsReg, RtReg, Imm, IType, SetWord, Transition, Address, AlignDown;
    var insn := IType(op, rs, rt, imm);
    ITypeFields(op, rs, rt, imm);
    ImmExtends(imm);
    AddressSum(cpu.registers[rs], imm);
    var a := Address(cpu.registers[rs], imm);
    StepAt(cpu, c, insn, chunk);
    AluTransition(Counted(cpu), insn, WordAt(c, AlignDown(a)), chunk, a, if IsLoad(op) then rt else 0);
    MemoryResult(insn, op, a, Operand(Counted(cpu), insn), cpu.registers[rt], WordAt(c, AlignDown(a)));
  }

  lemma AddressSum(base: Word, imm: nat)
    requires imm < 0x1_0000
    ensures Wrap(base + SignedImm(imm) % 0x1_0000_0000) == Address(base, imm)
  {
  }

  /** Loads but lwl and lwr do not look at the register. */
  lemma MemoryResult(insn: Word, op: nat, a: Word, x: Word, y: Word, mem: Word)
    requires Opcode(insn) == op && (IsLoad(op) || IsStoreOp(op))
    requires x == y || (IsLoad(op) && op != 0x22 && op != 0x26)
    ensures Execute(insn, a, x, mem).Ok? && Execute(insn, a, x, mem) == Execute(insn, a, y, mem)
  {
    hide Opcode, SE, OrW, XorW, And, Shl, Shr, Not;
  }

  /** lw, ll, sw and sc: whole words at the aligned address. */
  lemma WordStep(cpu: Cpu, c: Contents, chunk: Outcome<seq<Byte>>, op: nat, rs: nat, rt: nat, imm: nat)
    requires rs < 32 && rt < 32 && imm < 0x1_0000 && (op == 0x23 || op == 0x30 || op == 0x2b || op == 0x38)
    requires Paged(c) && AtInsn(cpu, c, IType(op, rs, rt, imm))
    ensures var a := Address(cpu.registers[rs], imm);
            var w := AlignDown(a);
            FlatStep.Step(cpu, c, chunk)
            == Ok(if op == 0x23 || op == 0x30 then (FallThrough(WithReg(cpu, rt, WordAt(c, w))), c)
                  else (FallThrough(if op == 0x38 then WithReg(cpu, rt, 1) else cpu), SetWord(c, w, cpu.registers[rt])))
  {
    hide WordAt, SE, Execute, Opcode, Fun, RsReg, RtReg, Imm, IType, SetWord, FlatStep.Step, Address, AlignDown;
    var a := Address(cpu.registers[rs], imm);
    ITypeFields(op, rs, rt, imm);
    MemoryStep(cpu, c, chunk, op, rs, rt, imm);
    WordResult(IType(op, rs, rt, imm), op, a, cpu.registers[rt], WordAt(c, AlignDown(a)));
  }

  lemma WordResult(insn: Word, op: nat, a: Word, y: Word, mem: Word)
    requires Opcode(insn) == op && (op == 0x23 || op == 0x30 || op == 0x2b || op == 0x38)
    ensures Execute(insn, a, y, mem) == Ok(if op == 0x23 || op == 0x30 then mem else y)
  {
    hide Opcode;
  }
}
