/** The pure part of the MIPS interpreter: sign extension and `execute` (cannon/mipsevm/mips.go). */
module Alu {
  import opened Bits
  import opened Bytes

  /** A Go panic, or a revert of the contract, as a value. */
  datatype Outcome<+T> = Ok(value: T) | Fault {
    predicate IsFailure() { Fault? }

    function PropagateFailure<U>(): Outcome<U>
      requires Fault?
    {
      Fault
    }

    function Extract(): T
      requires Ok?
    {
      value
    }
  }

  function OrW(x: Word, y: Word): Word {
    Pow2Values();
    BitwiseBound(x, y, 32);
    Or(x, y)
  }

  function XorW(x: Word, y: Word): Word {
    Pow2Values();
    BitwiseBound(x, y, 32);
    Xor(x, y)
  }

  /** The value of a word read as int32. */
  function Signed(x: Word): int {
    if x < 0x8000_0000 then x else x - 0x1_0000_0000
  }

  /** Sign extension from idx bits.  Every uint32 operation wraps, so any idx is accepted. */
  function SE(dat: Word, idx: Word): Word {
    var isSigned := Shr(dat, Wrap(idx - 1)) != 0;
    var signed := Shl(Wrap(Shl(1, Wrap(32 - idx)) - 1), idx);
    var mask := Wrap(Shl(1, idx) - 1);
    if isSigned then OrW(And(dat, mask), signed) else And(dat, mask)
  }

  function Opcode(insn: Word): nat {
    insn / 0x400_0000
  }

  function Fun(insn: Word): nat {
    insn % 64
  }

  function RsReg(insn: Word): nat {
    insn / 0x20_0000 % 32
  }

  function RtReg(insn: Word): nat {
    insn / 0x1_0000 % 32
  }

  function RdReg(insn: Word): nat {
    insn / 0x800 % 32
  }

  function Shamt(insn: Word): nat {
    insn / 0x40 % 32
  }

  function Imm(insn: Word): Word {
    insn % 0x1_0000
  }

  /** The number of leading one bits. */
  function LeadingOnes(x: Word): (n: nat)
    ensures n <= x
    decreases x
  {
    if x < 0x8000_0000 then 0 else 1 + LeadingOnes(Wrap(2 * x))
  }

  /** The loop of clz and clo. */
  method CountLeadingOnes(x: Word) returns (i: nat)
    ensures i == LeadingOnes(x)
  {
    var rs := x;
    i := 0;
    while rs >= 0x8000_0000
      invariant i + LeadingOnes(rs) == LeadingOnes(x)
      decreases rs
    {
      assert Shl(rs, 0) == rs;
      rs := Shl(rs, 1);
      i := i + 1;
    }
  }

  /** LeadingOnes(x) == n says that the n top bits are ones and the next one is not. */
  lemma {:induction false} LeadingOnesRange(x: Word)
    ensures LeadingOnes(x) <= 32
    ensures var n := LeadingOnes(x);
            0x1_0000_0000 - Pow2(32 - n) <= x && (n < 32 ==> x < 0x1_0000_0000 - Pow2(31 - n))
    decreases x
  {
    Pow2Values();
    if x >= 0x8000_0000 {
      LeadingOnesRange(Wrap(2 * x));
    }
  }

  /** Instructions of opcode 0, and the immediate forms mapped to them. */
  function ExecuteSpecial(insn: Word, fun: nat, rs: Word, rt: Word): Outcome<Word> {
    if fun == 0x00 then Ok(Shl(rt, Shamt(insn)))                        // sll
    else if fun == 0x02 then Ok(Shr(rt, Shamt(insn)))                   // srl
    else if fun == 0x03 then Ok(SE(Shr(rt, Shamt(insn)), 32 - Shamt(insn)))  // sra
    else if fun == 0x04 then Ok(Shl(rt, rs % 32))                       // sllv
    else if fun == 0x06 then Ok(Shr(rt, rs % 32))                       // srlv
    else if fun == 0x07 then Ok(SE(Shr(rt, rs), Wrap(32 - rs)))         // srav
    else if 0x08 <= fun <= 0x0c || fun == 0x0f then Ok(rs)              // jr, jalr, movz, movn, syscall, sync
    else if 0x10 <= fun <= 0x13 || 0x18 <= fun <= 0x1b then Ok(rs)      // hi and lo
    else if fun == 0x20 || fun == 0x21 then Ok(Wrap(rs + rt))           // add, addu
    else if fun == 0x22 || fun == 0x23 then Ok(Wrap(rs - rt))           // sub, subu
    else if fun == 0x24 then Ok(And(rs, rt))                            // and
    else if fun == 0x25 then Ok(OrW(rs, rt))                            // or
    else if fun == 0x26 then Ok(XorW(rs, rt))                           // xor
    else if fun == 0x27 then Ok(Not(OrW(rs, rt)))                       // nor
    else if fun == 0x2a then Ok(if Signed(rs) < Signed(rt) then 1 else 0)  // slt
    else if fun == 0x2b then Ok(if rs < rt then 1 else 0)               // sltu
    else Fault
  }

  /** Loads and stores: the value loaded, or the whole word to store back. */
  function ExecuteMemory(opcode: nat, rs: Word, rt: Word, mem: Word): Outcome<Word> {
    var up := rs % 4 * 8;             // (rs & 3) * 8
    var down := 24 - up;
    var half := 16 - rs / 2 % 2 * 16; // 16 - (rs & 2) * 8
    if opcode == 0x20 then Ok(SE(And(Shr(mem, down), 0xFF), 8))         // lb
    else if opcode == 0x21 then Ok(SE(And(Shr(mem, half), 0xFFFF), 16)) // lh
    else if opcode == 0x22 then                                         // lwl
      Ok(OrW(And(rt, Not(Shl(0xFFFF_FFFF, up))), Shl(mem, up)))
    else if opcode == 0x23 then Ok(mem)                                 // lw
    else if opcode == 0x24 then Ok(And(Shr(mem, down), 0xFF))           // lbu
    else if opcode == 0x25 then Ok(And(Shr(mem, half), 0xFFFF))         // lhu
    else if opcode == 0x26 then                                         // lwr
      Ok(OrW(And(rt, Not(Shr(0xFFFF_FFFF, down))), Shr(mem, down)))
    else if opcode == 0x28 then                                         // sb
      Ok(OrW(And(mem, XorW(0xFFFF_FFFF, Shl(0xFF, down))), Shl(And(rt, 0xFF), down)))
    else if opcode == 0x29 then                                         // sh
      Ok(OrW(And(mem, XorW(0xFFFF_FFFF, Shl(0xFFFF, half))), Shl(And(rt, 0xFFFF), half)))
    else if opcode == 0x2a then                                         // swl
      Ok(OrW(And(mem, Not(Shr(0xFFFF_FFFF, up))), Shr(rt, up)))
    else if opcode == 0x2b then Ok(rt)                                  // sw
    else if opcode == 0x2e then                                         // swr
      Ok(OrW(And(mem, Not(Shl(0xFFFF_FFFF, down))), Shl(rt, down)))
    else if opcode == 0x30 then Ok(mem)                                 // ll
    else if opcode == 0x38 then Ok(rt)                                  // sc
    else Fault
  }

  /** The SPECIAL function an arithmetic or logic immediate stands for. */
  function ImmediateFun(opcode: nat, fun: nat): nat {
    if opcode == 0x08 then 0x20 else if opcode == 0x09 then 0x21
    else if opcode == 0x0A then 0x2a else if opcode == 0x0B then 0x2b
    else if opcode == 0x0C then 0x24 else if opcode == 0x0D then 0x25
    else if opcode == 0x0E then 0x26 else fun
  }

  /** The result of one instruction; mem is the word loaded for it.  Faults on an invalid instruction. */
  function Execute(insn: Word, rs: Word, rt: Word, mem: Word): Outcome<Word> {
    var opcode, fun := Opcode(insn), Fun(insn);
    if opcode == 0 || 8 <= opcode < 0xF then ExecuteSpecial(insn, ImmediateFun(opcode, fun), rs, rt)
    else if opcode == 0x1C then
      if fun == 0x02 then Ok(Wrap(Signed(rs) * Signed(rt)))             // mul
      else if fun == 0x20 then Ok(LeadingOnes(Not(rs)))                 // clz
      else if fun == 0x21 then Ok(LeadingOnes(rs))                      // clo
      else Fault
    else if opcode == 0x0F then Ok(Shl(rt, 16))                         // lui
    else ExecuteMemory(opcode, rs, rt, mem)
  }

  /** execute: as Execute, with clz and clo counting in a loop. */
  method RunAlu(insn: Word, rs: Word, rt: Word, mem: Word) returns (r: Outcome<Word>)
    ensures r == Execute(insn, rs, rt, mem)
  {
    if Opcode(insn) == 0x1C && (Fun(insn) == 0x20 || Fun(insn) == 0x21) {
      var i := CountLeadingOnes(if Fun(insn) == 0x20 then Not(rs) else rs);
      LeadingOnesRange(if Fun(insn) == 0x20 then Not(rs) else rs);
      return Ok(i);
    }
    return Execute(insn, rs, rt, mem);
  }
}
