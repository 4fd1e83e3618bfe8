/** Unaligned words in the VM: the instruction pairs that store and load them, step by step. */
module UnalignedSteps {
  import opened Alu
  import opened Bytes
  import opened FlatMemory
  import opened Mips
  import opened Instrumented
  import opened InstructionSteps
  import opened Unaligned

  predicate IsUnalignedAccess(insn: Word) {
    Opcode(insn) == 0x22 || Opcode(insn) == 0x26 || Opcode(insn) == 0x2a || Opcode(insn) == 0x2e
  }

  /** A step that executes swl, swr, lwl or lwr, in terms of the ALU's result. */
  lemma AccessStep(cpu: Cpu, c: Contents, insn: Word, chunk: Outcome<seq<Byte>>, a: Word, val: Word)
    requires Paged(c) && AtInsn(cpu, c, insn) && IsUnalignedAccess(insn) && a == EffectiveAddress(cpu, insn)
    requires Execute(insn, a, cpu.registers[RtReg(insn)], WordAt(c, AlignDown(a))) == Ok(val)
    ensures var rd := if IsStore(Opcode(insn)) then 0 else RtReg(insn);
            var s := FlatStep.Step(cpu, c, chunk);
            && s.Ok?
            && s.value.1 == (if IsStore(Opcode(insn)) then SetWord(c, AlignDown(a), val) else c)
            && s.value.0
               == FallThrough(if rd == 0 then cpu else cpu.(registers := cpu.registers[rd := val]))
  {
    hide Execute, SE, Transition, Opcode, RtReg, WordAt, SetWord, AlignDown;
    var cpu1 := cpu.(step := (cpu.step + 1) % 0x1_0000_0000_0000_0000);
    AlignDownAligned(a);
    AluTransition(cpu1, insn, WordAt(c, AlignDown(a)), chunk, a, if IsStore(Opcode(insn)) then 0 else RtReg(insn));
  }

  /** Two steps that execute swl at a and swr at a + 3 with one register store it in the four bytes from a, big-endian,
      and change nothing else but the program counters and the step counter. */
  lemma StorePair(cpu: Cpu, c: Contents, chunk: Outcome<seq<Byte>>, chunk': Outcome<seq<Byte>>, swl: Word, swr: Word,
                  a: Word)
    requires Paged(c) && a + 3 < 0x1_0000_0000
    requires AtInsn(cpu, c, swl) && Opcode(swl) == 0x2a && EffectiveAddress(cpu, swl) == a
    ensures FlatStep.Step(cpu, c, chunk).Ok?
    ensures var s := FlatStep.Step(cpu, c, chunk).value;
            AtInsn(s.0, s.1, swr) && Opcode(swr) == 0x2e && RtReg(swr) == RtReg(swl)
                && EffectiveAddress(s.0, swr) == a + 3 ==>
              var s' := FlatStep.Step(s.0, s.1, chunk');
              && s'.Ok? && s'.value.0 == FallThrough(FallThrough(cpu))
              && forall b: nat :: FlatByte(s'.value.1, b)
                             == if a <= b < a + 4 then WordBytes(cpu.registers[RtReg(swl)])[b - a] else FlatByte(c, b)
  {
    hide FlatStep.Step, EffectiveAddress, Execute, FlatByte, WordAt, WordBytes, SetWord, AlignDown, Opcode;
    var rt := cpu.registers[RtReg(swl)];
    AfterSwl(c, swl, a, rt, 0);
    AccessStep(cpu, c, swl, chunk, a, Execute(swl, a, rt, WordAt(c, AlignDown(a))).value);
    var s := FlatStep.Step(cpu, c, chunk).value;
    if AtInsn(s.0, s.1, swr) && Opcode(swr) == 0x2e && RtReg(swr) == RtReg(swl) && EffectiveAddress(s.0, swr) == a + 3 {
      StoreUnaligned(c, swl, swr, a, rt);
      AccessStep(s.0, s.1, swr, chunk', a + 3, Execute(swr, a + 3, rt, WordAt(s.1, AlignDown(a + 3))).value);
    }
  }

  lemma LwlSucceeds(lwl: Word, a: Word, rt: Word, mem: Word)
    requires Opcode(lwl) == 0x22
    ensures Execute(lwl, a, rt, mem).Ok?
  {
    hide ExecuteMemory;
    LoadLeft(a, rt, mem);
  }

  /** Two steps that execute lwl at a and lwr at a + 3 into one register load the four bytes from a into it, whatever it
      held, and change nothing else but the program counters and the step counter. */
  lemma LoadPair(cpu: Cpu, c: Contents, chunk: Outcome<seq<Byte>>, chunk': Outcome<seq<Byte>>, lwl: Word, lwr: Word,
                 a: Word)
    requires Paged(c) && a + 3 < 0x1_0000_0000
    requires AtInsn(cpu, c, lwl) && Opcode(lwl) == 0x22 && EffectiveAddress(cpu, lwl) == a && RtReg(lwl) != 0
    ensures FlatStep.Step(cpu, c, chunk).Ok? && FlatStep.Step(cpu, c, chunk).value.1 == c
    ensures var s := FlatStep.Step(cpu, c, chunk).value;
            AtInsn(s.0, c, lwr) && Opcode(lwr) == 0x26 && RtReg(lwr) == RtReg(lwl)
                && EffectiveAddress(s.0, lwr) == a + 3 ==>
              var s' := FlatStep.Step(s.0, c, chunk');
              && s'.Ok? && s'.value.1 == c
              && var loaded := cpu.registers[RtReg(lwl) := BytesWord(FlatBytes(c, a, 4))];
                 s'.value.0 == FallThrough(FallThrough(cpu.(registers := loaded)))
  {
    hide FlatStep.Step, EffectiveAddress, Execute, FlatByte, FlatBytes, WordAt, WordBytes, SetWord, AlignDown, Opcode;
    var rt := cpu.registers[RtReg(lwl)];
    LwlSucceeds(lwl, a, rt, WordAt(c, AlignDown(a)));
    var r := Execute(lwl, a, rt, WordAt(c, AlignDown(a))).value;
    AccessStep(cpu, c, lwl, chunk, a, r);
    var s := FlatStep.Step(cpu, c, chunk).value;
    if AtInsn(s.0, c, lwr) && Opcode(lwr) == 0x26 && RtReg(lwr) == RtReg(lwl) && EffectiveAddress(s.0, lwr) == a + 3 {
      LoadUnaligned(c, lwl, lwr, a, rt);
      var v := Execute(lwr, a + 3, r, WordAt(c, AlignDown(a + 3))).value;
      AccessStep(s.0, c, lwr, chunk', a + 3, v);
      BytesOfWord(v);
    }
  }
}
