/** One MIPS step as a function of the registers, the fetched instruction and one memory word
    (cannon/mipsevm/mips.go; the contract packages/contracts-bedrock/src/cannon/MIPS.sol has the same steps). */
module Mips {
  import opened Alu
  import opened Bits
  import opened Bytes

  type Registers = r: seq<Word> | |r| == 32
    witness [0, 0, 0, 0, 0, 0, 0, 0, 0, 0, 0, 0, 0, 0, 0, 0, 0, 0, 0, 0, 0, 0, 0, 0, 0, 0, 0, 0, 0, 0, 0, 0]

  /** The VM state without its memory. */
  datatype Cpu = Cpu(
    preimageKey: Digest, preimageOffset: Word,
    pc: Word, nextPC: Word, lo: Word, hi: Word, heap: Word,
    exitCode: Byte, exited: bool, step: DWord, registers: Registers)

  const SYS_MMAP := 4090
  const SYS_BRK := 4045
  const SYS_CLONE := 4120
  const SYS_EXIT_GROUP := 4246
  const SYS_READ := 4003
  const SYS_WRITE := 4004
  const SYS_FCNTL := 4055

  const FD_STDIN := 0
  const FD_STDOUT := 1
  const FD_STDERR := 2
  const FD_HINT_READ := 3
  const FD_HINT_WRITE := 4
  const FD_PREIMAGE_READ := 5
  const FD_PREIMAGE_WRITE := 6

  const EBADF: Word := 0x9
  const EINVAL: Word := 0x16
  const MINUS_ONE: Word := 0xFFFF_FFFF

  /** A store of the step: the new value of the one data word it touches. */
  datatype Store = NoStore | Store(word: Word)

  /** The address of the one data word a step touches, if any. */
  datatype Access = NoAccess | Access(addr: Word)

  function AlignDown(a: Word): (r: Word)
    ensures r % 4 == 0 && r <= a < r + 4
  {
    a - a % 4
  }

  /** The next instruction in sequence. */
  function Advance(cpu: Cpu): Cpu {
    cpu.(pc := cpu.nextPC, nextPC := Wrap(cpu.nextPC + 4))
  }

  function HandleBranch(cpu: Cpu, opcode: nat, insn: Word, rtReg: nat, rs: Word): Outcome<Cpu>
    requires rtReg < 32
  {
    if cpu.nextPC != Wrap(cpu.pc + 4) then Fault  // branch in delay slot
    else
      var shouldBranch :=
        if opcode == 4 then rs == cpu.registers[rtReg]
        else if opcode == 5 then rs != cpu.registers[rtReg]
        else if opcode == 6 then Signed(rs) <= 0
        else if opcode == 7 then Signed(rs) > 0
        else if opcode == 1 && RtReg(insn) == 0 then Signed(rs) < 0
        else opcode == 1 && RtReg(insn) == 1 && Signed(rs) >= 0;
      var target := Wrap(cpu.pc + 4 + Shl(SE(Imm(insn), 16), 2));
      Ok(cpu.(pc := cpu.nextPC, nextPC := if shouldBranch then target else Wrap(cpu.nextPC + 4)))
  }

  function HandleJump(cpu: Cpu, linkReg: nat, dest: Word): Outcome<Cpu>
    requires linkReg < 32
  {
    if cpu.nextPC != Wrap(cpu.pc + 4) then Fault  // jump in delay slot
    else
      var registers := if linkReg != 0 then cpu.registers[linkReg := Wrap(cpu.pc + 8)] else cpu.registers;
      Ok(cpu.(pc := cpu.nextPC, nextPC := dest, registers := registers))
  }

  function HandleRd(cpu: Cpu, storeReg: nat, val: Word, conditional: bool): Cpu
    requires storeReg < 32
  {
    Advance(if storeReg != 0 && conditional then cpu.(registers := cpu.registers[storeReg := val]) else cpu)
  }

  /** Division of int32 truncates toward zero; the smallest value divided by -1 wraps to itself. */
  function TruncDiv(a: int, b: int): int
    requires b != 0
  {
    var q := (if a < 0 then -a else a) / (if b < 0 then -b else b);
    if (a < 0) == (b < 0) then q else -q
  }

  /** The values of HI and LO after fun, and the value read from them. */
  function HiLo(fun: nat, rs: Word, rt: Word, hi: Word, lo: Word): Outcome<(Word, Word, Word)> {
    if fun == 0x10 then Ok((hi, lo, hi))
    else if fun == 0x11 then Ok((rs, lo, 0))
    else if fun == 0x12 then Ok((hi, lo, lo))
    else if fun == 0x13 then Ok((hi, rs, 0))
    else if fun == 0x18 then
      var acc := Signed(rs) * Signed(rt);
      Ok((Wrap(acc / 0x1_0000_0000), Wrap(acc), 0))
    else if fun == 0x19 then
      var acc := (rs as int) * rt;
      Ok((Wrap(acc / 0x1_0000_0000), Wrap(acc), 0))
    else if fun == 0x1a then
      if rt == 0 then Fault
      else
        var q := TruncDiv(Signed(rs), Signed(rt));
        Ok((Wrap(Signed(rs) - q * Signed(rt)), Wrap(q), 0))
    else if fun == 0x1b then
      if rt == 0 then Fault else Ok((rs % rt, rs / rt, 0))
    else Ok((hi, lo, 0))
  }

  function HandleHiLo(cpu: Cpu, fun: nat, rs: Word, rt: Word, storeReg: nat): Outcome<Cpu>
    requires storeReg < 32
  {
    var r :- HiLo(fun, rs, rt, cpu.hi, cpu.lo);
    var registers := if storeReg != 0 then cpu.registers[storeReg := r.2] else cpu.registers;
    Ok(Advance(cpu.(hi := r.0, lo := r.1, registers := registers)))
  }

  function Min(a: nat, b: nat): nat {
    if a < b then a else b
  }

  /** The first n bytes of dat written over the word mem from byte `at` on. */
  function MergeBytes(mem: Word, at: nat, dat: seq<Byte>, n: nat): Word
    requires at + n <= 4 && n <= |dat|
  {
    BytesWord(WordBytes(mem)[..at] + dat[..n] + WordBytes(mem)[at + n..])
  }

  /** The key after the n bytes of mem from byte `at` on are shifted in at its end. */
  function ShiftKey(key: Digest, mem: Word, at: nat, n: nat): Digest
    requires at + n <= 4
  {
    key[n..] + WordBytes(mem)[at..at + n]
  }

  /** How many bytes one read of the pre-image delivers. */
  function ReadLength(a1: Word, a2: Word, available: nat): nat {
    Min(a2, Min(4 - a1 % 4, available))
  }

  function WriteLength(a1: Word, a2: Word): nat {
    Min(a2, 4 - a1 % 4)
  }

  /** The syscall returns: registers 2 and 7 are set and the next instruction follows. */
  function SyscallReturn(cpu: Cpu, v0: Word, v1: Word): Cpu {
    Advance(cpu.(registers := cpu.registers[2 := v0][7 := v1]))
  }

  predicate IsPreimageRead(cpu: Cpu) {
    cpu.registers[2] == SYS_READ && cpu.registers[4] == FD_PREIMAGE_READ
  }

  predicate IsPreimageWrite(cpu: Cpu) {
    cpu.registers[2] == SYS_WRITE && cpu.registers[4] == FD_PREIMAGE_WRITE
  }

  /** chunk: up to 32 bytes of the length-prefixed pre-image at the current offset, or a fault past its end. */
  function HandleSyscall(cpu: Cpu, mem: Word, chunk: Outcome<seq<Byte>>): Outcome<(Cpu, Store)> {
    var num, a0, a1, a2 := cpu.registers[2], cpu.registers[4], cpu.registers[5], cpu.registers[6];
    if num == SYS_MMAP then
      var sz := if a1 % 4096 != 0 then Wrap((a1 as int) + (4096 - a1 % 4096)) else a1;
      if a0 == 0 then Ok((SyscallReturn(cpu.(heap := Wrap(cpu.heap + sz)), cpu.heap, 0), NoStore))
      else Ok((SyscallReturn(cpu, a0, 0), NoStore))
    else if num == SYS_BRK then Ok((SyscallReturn(cpu, 0x4000_0000, 0), NoStore))
    else if num == SYS_CLONE then Ok((SyscallReturn(cpu, 1, 0), NoStore))
    else if num == SYS_EXIT_GROUP then Ok((cpu.(exited := true, exitCode := a0 % 256), NoStore))
    else if num == SYS_READ then
      if a0 == FD_STDIN then Ok((SyscallReturn(cpu, 0, 0), NoStore))
      else if a0 == FD_PREIMAGE_READ then
        var dat :- chunk;
        var n := ReadLength(a1, a2, |dat|);
        Ok((SyscallReturn(cpu.(preimageOffset := Wrap(cpu.preimageOffset + n)), n, 0),
            Store(MergeBytes(mem, a1 % 4, dat, n))))
      else if a0 == FD_HINT_READ then Ok((SyscallReturn(cpu, a2, 0), NoStore))
      else Ok((SyscallReturn(cpu, MINUS_ONE, EBADF), NoStore))
    else if num == SYS_WRITE then
      if a0 == FD_STDOUT || a0 == FD_STDERR || a0 == FD_HINT_WRITE then Ok((SyscallReturn(cpu, a2, 0), NoStore))
      else if a0 == FD_PREIMAGE_WRITE then
        var n := WriteLength(a1, a2);
        var key := ShiftKey(cpu.preimageKey, mem, a1 % 4, n);
        Ok((SyscallReturn(cpu.(preimageKey := key, preimageOffset := 0), n, 0), NoStore))
      else Ok((SyscallReturn(cpu, MINUS_ONE, EBADF), NoStore))
    else if num == SYS_FCNTL then
      if a1 != 3 then Ok((SyscallReturn(cpu, MINUS_ONE, EINVAL), NoStore))
      else if a0 == FD_STDIN || a0 == FD_PREIMAGE_READ || a0 == FD_HINT_READ then
        Ok((SyscallReturn(cpu, 0, 0), NoStore))
      else if a0 == FD_STDOUT || a0 == FD_STDERR || a0 == FD_PREIMAGE_WRITE || a0 == FD_HINT_WRITE then
        Ok((SyscallReturn(cpu, 1, 0), NoStore))
      else Ok((SyscallReturn(cpu, MINUS_ONE, EBADF), NoStore))
    else Ok((SyscallReturn(cpu, 0, 0), NoStore))
  }

  /** The effective address of a load or store. */
  function EffectiveAddress(cpu: Cpu, insn: Word): Word {
    Wrap(cpu.registers[RsReg(insn)] + SE(Imm(insn), 16))
  }

  predicate IsSyscall(insn: Word) {
    Opcode(insn) == 0 && Fun(insn) == 0x0c
  }

  predicate IsStore(opcode: nat) {
    opcode >= 0x28 && opcode != 0x30
  }

  /** The two pre-image syscalls touch the word at their address argument. */
  function SyscallAccess(cpu: Cpu): Access {
    if IsPreimageRead(cpu) || IsPreimageWrite(cpu) then Access(AlignDown(cpu.registers[5])) else NoAccess
  }

  /** The one data word the instruction touches: loads, stores and the two pre-image syscalls. */
  function DataAccess(cpu: Cpu, insn: Word): Access {
    if Opcode(insn) >= 0x20 then Access(AlignDown(EffectiveAddress(cpu, insn)))
    else if IsSyscall(insn) then SyscallAccess(cpu)
    else NoAccess
  }

  /** The second operand: a register, or the immediate. */
  function Operand(cpu: Cpu, insn: Word): Word {
    var opcode := Opcode(insn);
    if opcode == 0 || opcode == 0x1c then cpu.registers[RtReg(insn)]
    else if opcode < 0x20 then
      if 0xC <= opcode <= 0xE then Imm(insn) else SE(Imm(insn), 16)
    else if opcode >= 0x28 || opcode == 0x22 || opcode == 0x26 then cpu.registers[RtReg(insn)]
    else 0
  }

  /** sc always succeeds: it sets its register to 1. */
  function ScFlag(cpu: Cpu, opcode: nat, rtReg: nat): Cpu
    requires rtReg < 32
  {
    if opcode == 0x38 && rtReg != 0 then cpu.(registers := cpu.registers[rtReg := 1]) else cpu
  }

  /** Loads, stores and ALU instructions: everything whose result is computed by Execute. */
  function HandleAlu(cpu: Cpu, insn: Word, mem: Word): Outcome<(Cpu, Store)> {
    var opcode := Opcode(insn);
    var rs := if opcode >= 0x20 then EffectiveAddress(cpu, insn) else cpu.registers[RsReg(insn)];
    var val :- Execute(insn, rs, Operand(cpu, insn), mem);
    var rdReg := if opcode == 0 || opcode == 0x1c then RdReg(insn) else if IsStore(opcode) then 0 else RtReg(insn);
    Ok((HandleRd(ScFlag(cpu, opcode, RtReg(insn)), rdReg, val, true), if IsStore(opcode) then Store(val) else NoStore))
  }

  function NoStoreOf(r: Outcome<Cpu>): Outcome<(Cpu, Store)> {
    var cpu :- r;
    Ok((cpu, NoStore))
  }

  /** The instruction, given the data word it touches.  The step counter is already advanced. */
  function Transition(cpu: Cpu, insn: Word, mem: Word, chunk: Outcome<seq<Byte>>): Outcome<(Cpu, Store)> {
    var opcode, fun := Opcode(insn), Fun(insn);
    var rs, rt := cpu.registers[RsReg(insn)], cpu.registers[RtReg(insn)];
    if opcode == 2 || opcode == 3 then
      var target := cpu.nextPC / 0x1000_0000 * 0x1000_0000 + insn % 0x400_0000 * 4;
      NoStoreOf(HandleJump(cpu, if opcode == 3 then 31 else 0, target))
    else if 4 <= opcode < 8 || opcode == 1 then NoStoreOf(HandleBranch(cpu, opcode, insn, RtReg(insn), rs))
    else if opcode == 0 && (fun == 8 || fun == 9) then
      NoStoreOf(HandleJump(cpu, if fun == 9 then RdReg(insn) else 0, rs))
    else if opcode == 0 && fun == 0xa then Ok((HandleRd(cpu, RdReg(insn), rs, rt == 0), NoStore))
    else if opcode == 0 && fun == 0xb then Ok((HandleRd(cpu, RdReg(insn), rs, rt != 0), NoStore))
    else if IsSyscall(insn) then HandleSyscall(cpu, mem, chunk)
    else if opcode == 0 && (0x10 <= fun <= 0x13 || 0x18 <= fun <= 0x1b) then
      NoStoreOf(HandleHiLo(cpu, fun, rs, rt, RdReg(insn)))
    else HandleAlu(cpu, insn, mem)
  }
}
