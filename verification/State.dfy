/** The VM state and its witness encoding (cannon/mipsevm/state.go). */
module State {
  import opened Bytes
  import opened FlatMemory
  import opened Contract
  import M = Memory

  class State {
    const memory: M.Memory
    var preimageKey: Digest
    var preimageOffset: Word  // the offset includes the 8-byte length prefix
    var pc: Word
    var nextPC: Word
    var lo: Word
    var hi: Word
    var heap: Word
    var exitCode: Byte
    var exited: bool
    var step: DWord
    const registers: array<Word>
    var lastHint: seq<Byte>   // not part of the witness

    /** The registers are there, and the state shares nothing with its memory. */
    ghost predicate Shape()
      reads memory
    {
      registers.Length == 32 && this as object !in memory.Repr() && registers as object !in memory.Repr()
    }

    ghost predicate Valid()
      reads memory, memory.pages.Values
    {
      Shape() && memory.Valid()
    }

    ghost function Cpu(): Mips.Cpu
      requires registers.Length == 32
      reads this, registers
    {
      Mips.Cpu(preimageKey, preimageOffset, pc, nextPC, lo, hi, heap, exitCode, exited, step, registers[..])
    }

    constructor (memory: M.Memory, cpu: Mips.Cpu, lastHint: seq<Byte>)
      requires memory.Valid()
      ensures Valid() && Cpu() == cpu && this.memory == memory && this.lastHint == lastHint
      ensures fresh(registers)
    {
      this.memory := memory;
      preimageKey, preimageOffset := cpu.preimageKey, cpu.preimageOffset;
      pc, nextPC, lo, hi, heap := cpu.pc, cpu.nextPC, cpu.lo, cpu.hi, cpu.heap;
      exitCode, exited, step := cpu.exitCode, cpu.exited, cpu.step;
      this.lastHint := lastHint;
      registers := new Word[32](i requires 0 <= i < 32 => cpu.registers[i]);
    }

    /** The 226-byte witness; hashing the memory fills its caches and changes nothing else. */
    method EncodeWitness() returns (out: seq<Byte>)
      requires Valid()
      modifies memory`nodes, memory`hashed, memory.pages.Values
      ensures Valid() && out == Encode(Root(memory.hash, memory.contents), Cpu())
    {
      hide M.Memory.Valid, Root, EncodeWords, DWordBytes;
      var memRoot := memory.MerkleRoot();
      out := memRoot + preimageKey;
      out := out + WordBytes(preimageOffset);
      out := out + WordBytes(pc);
      out := out + WordBytes(nextPC);
      out := out + WordBytes(lo);
      out := out + WordBytes(hi);
      out := out + WordBytes(heap);
      out := out + [exitCode];
      out := out + if exited then [1] else [0];
      out := out + DWordBytes(step);
      for i := 0 to 32
        invariant Valid() && out == EncodeHead(memRoot, Cpu()) + EncodeWords(registers[..i])
      {
        EncodeWordsStep(registers[..], i);
        out := out + WordBytes(registers[i]);
      }
      assert registers[..32] == registers[..];
    }
  }

  lemma EncodeWordsAppend(a: seq<Word>, b: seq<Word>)
    ensures EncodeWords(a + b) == EncodeWords(a) + EncodeWords(b)
  {
    if a == [] {
      assert a + b == b;
    } else {
      assert (a + b)[1..] == a[1..] + b;
      EncodeWordsAppend(a[1..], b);
    }
  }

  lemma EncodeWordsStep(ws: seq<Word>, i: nat)
    requires i < |ws|
    ensures EncodeWords(ws[..i + 1]) == EncodeWords(ws[..i]) + WordBytes(ws[i])
  {
    assert ws[..i + 1] == ws[..i] + [ws[i]];
    EncodeWordsAppend(ws[..i], [ws[i]]);
  }
}
