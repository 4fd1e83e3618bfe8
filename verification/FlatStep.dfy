/** A VM step over the flat memory: what InstrumentedState.Step does to the state, caches left out. */
module FlatStep {
  import opened Alu
  import opened Bytes
  import opened FlatMemory
  import opened Mips

  /** The next bytes, at most 32, of a length-prefixed pre-image; slicing past its end panics. */
  function Chunk(prefixed: seq<Byte>, offset: Word): Outcome<seq<Byte>> {
    if offset > |prefixed| then Fault else Ok(prefixed[offset..Min(offset + 32, |prefixed|)])
  }

  /** A pre-image; its length fits the 8-byte prefix. */
  type Preimage = s: seq<Byte> | |s| < 0x1_0000_0000_0000_0000 witness []

  function Prefixed(value: Preimage): seq<Byte> {
    DWordBytes(|value|) + value
  }

  function AccessedWord(c: Contents, access: Access): Word {
    if access.Access? then WordAt(c, access.addr) else 0
  }

  function Stored(c: Contents, access: Access, store: Store): Contents
    requires Paged(c) && (access.Access? ==> access.addr % 4 == 0)
  {
    if access.Access? && store.Store? then SetWord(c, access.addr, store.word) else c
  }

  /** chunk: the bytes of the pre-image at the current key and offset. */
  function Step(cpu: Cpu, c: Contents, chunk: Outcome<seq<Byte>>): (r: Outcome<(Cpu, Contents)>)
    requires Paged(c)
    ensures r.Ok? ==> Paged(r.value.1)
  {
    if cpu.exited then Ok((cpu, c))
    else if cpu.pc % 4 != 0 then Fault
    else
      var insn := WordAt(c, cpu.pc);
      var cpu1 := cpu.(step := (cpu.step + 1) % 0x1_0000_0000_0000_0000);
      var access := DataAccess(cpu1, insn);
      var result :- Transition(cpu1, insn, AccessedWord(c, access), chunk);
      Ok((result.0, Stored(c, access, result.1)))
  }

  /** Only loads-for-store and the pre-image read write back, and then to the word they touched. */
  lemma StoreNeedsAccess(cpu: Cpu, insn: Word, mem: Word, chunk: Outcome<seq<Byte>>)
    requires Transition(cpu, insn, mem, chunk).Ok? && Transition(cpu, insn, mem, chunk).value.1.Store?
    ensures DataAccess(cpu, insn).Access?
  {
  }

  predicate ReadsPreimage(cpu: Cpu, insn: Word) {
    IsSyscall(insn) && IsPreimageRead(cpu)
  }

  /** The pre-image matters only to the syscall that reads it. */
  lemma ChunkIrrelevant(cpu: Cpu, insn: Word, mem: Word, chunk: Outcome<seq<Byte>>, chunk': Outcome<seq<Byte>>)
    requires !ReadsPreimage(cpu, insn)
    ensures Transition(cpu, insn, mem, chunk) == Transition(cpu, insn, mem, chunk')
  {
  }
}
