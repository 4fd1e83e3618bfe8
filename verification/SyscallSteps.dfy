/** What the syscalls answer, as single steps, and what a run of them does to the heap (cannon/mipsevm/mips.go).
    Numbers, descriptors and results are given as integers. */
module SyscallSteps {
  import opened Alu
  import opened Bits
  import opened Bytes
  import opened FlatMemory
  import opened Mips
  import opened FlatStep
  import opened Hints
  import opened RangeLoad
  import opened Instrumented
  import opened InstructionSteps
  import opened OracleSyscalls
  import opened PreimageCache
  import opened VmRun

  /** The VM is about to execute a syscall: opcode 0, function 12. */
  predicate AtSyscall(cpu: Cpu, c: Contents) {
    !cpu.exited && cpu.pc % 4 == 0 && WordAt(c, cpu.pc) < 0x400_0000 && WordAt(c, cpu.pc) % 64 == 12
  }

  /** The syscall returned: register 2 has the result, register 7 the error. */
  function Returned(cpu: Cpu, result: Word, error: Word): Cpu {
    FallThrough(cpu.(registers := cpu.registers[2 := result][7 := error]))
  }

  /** A length rounded up to whole pages. */
  function PagesUp(length: nat): (size: nat)
    ensures size % 4096 == 0 && length <= size < length + 4096
  {
    (length + 4095) / 4096 * 4096
  }

  /** A syscall is its handler on the word it touches. */
  lemma SyscallAt(cpu: Cpu, c: Contents, chunk: Outcome<seq<Byte>>)
    requires Paged(c) && AtSyscall(cpu, c)
    ensures var access := SyscallAccess(cpu);
            FlatStep.Step(cpu, c, chunk)
            == match HandleSyscall(Counted(cpu), AccessedWord(c, access), chunk)
               case Ok(r) => Ok((r.0, Stored(c, access, r.1)))
               case Fault => Fault
  {
    hide WordAt, SetWord, HandleSyscall, HandleAlu, AlignDown;
    StepAt(cpu, c, WordAt(c, cpu.pc), chunk);
  }

  /** mmap: without an address hint the old heap is returned and the heap moves on by whole pages. */
  lemma MmapStep(cpu: Cpu, c: Contents, chunk: Outcome<seq<Byte>>)
    requires Paged(c) && AtSyscall(cpu, c) && cpu.registers[2] == 4090
    ensures var hint, heap := cpu.registers[4], (cpu.heap + PagesUp(cpu.registers[5])) % 0x1_0000_0000;
            FlatStep.Step(cpu, c, chunk)
            == Ok((if hint == 0 then Returned(cpu.(heap := heap), cpu.heap, 0) else Returned(cpu, hint, 0), c))
  {
    hide WordAt, SetWord, FlatStep.Step, AlignDown, PagesUp;
    SyscallAt(cpu, c, chunk);
    PageSizes(cpu.heap, cpu.registers[5]);
  }

  lemma PageSizes(heap: Word, length: Word)
    ensures var sz := if length % 4096 != 0 then Wrap((length as int) + (4096 - length % 4096)) else length;
            Wrap(heap + sz) == (heap + PagesUp(length)) % 0x1_0000_0000
  {
    hide PagesUp;
    PagesUpValue(length);
    WrapTwice(PagesUp(length), heap);
  }

  lemma PagesUpValue(length: nat)
    ensures PagesUp(length) == if length % 4096 != 0 then length + (4096 - length % 4096) else length
  {
    var q, r := length / 4096, length % 4096;
    if r != 0 {
      QuotientUnique(length + 4095, 4096, q + 1, r - 1);
    } else {
      QuotientUnique(length + 4095, 4096, q, 4095);
    }
  }

  /** brk, clone, and the numbers that are not supported. */
  lemma FixedStep(cpu: Cpu, c: Contents, chunk: Outcome<seq<Byte>>)
    requires Paged(c) && AtSyscall(cpu, c)
    requires cpu.registers[2] !in {4090, 4246, 4003, 4004, 4055}
    ensures var result := match cpu.registers[2] case 4045 => 0x4000_0000 case 4120 => 1 case _ => 0;
            FlatStep.Step(cpu, c, chunk) == Ok((Returned(cpu, result, 0), c))
  {
    hide WordAt, SetWord, FlatStep.Step, AlignDown;
    SyscallAt(cpu, c, chunk);
  }

  /** exit_group: the VM exits where it is, with the low byte of the argument. */
  lemma ExitStep(cpu: Cpu, c: Contents, chunk: Outcome<seq<Byte>>)
    requires Paged(c) && AtSyscall(cpu, c) && cpu.registers[2] == 4246
    ensures FlatStep.Step(cpu, c, chunk)
         == Ok((Counted(cpu).(exited := true, exitCode := cpu.registers[4] % 256), c))
  {
    hide WordAt, SetWord, FlatStep.Step, AlignDown;
    SyscallAt(cpu, c, chunk);
  }

  /** fcntl: the access mode of the seven descriptors, and errors for others and for other commands. */
  lemma FcntlStep(cpu: Cpu, c: Contents, chunk: Outcome<seq<Byte>>)
    requires Paged(c) && AtSyscall(cpu, c) && cpu.registers[2] == 4055
    ensures var fd, command := cpu.registers[4], cpu.registers[5];
            FlatStep.Step(cpu, c, chunk)
            == Ok((if command != 3 then Returned(cpu, 0xFFFF_FFFF, 0x16)
                   else if fd > 6 then Returned(cpu, 0xFFFF_FFFF, 9)
                   else Returned(cpu, if fd in {0, 3, 5} then 0 else 1, 0), c))
  {
    hide WordAt, SetWord, FlatStep.Step, AlignDown;
    SyscallAt(cpu, c, chunk);
  }

  /** read from anything but the pre-image oracle: nothing from standard input, everything from the hint channel. */
  lemma OtherReadStep(cpu: Cpu, c: Contents, chunk: Outcome<seq<Byte>>)
    requires Paged(c) && AtSyscall(cpu, c) && cpu.registers[2] == 4003 && cpu.registers[4] != 5
    ensures var fd := cpu.registers[4];
            FlatStep.Step(cpu, c, chunk)
            == Ok((if fd == 0 then Returned(cpu, 0, 0) else if fd == 3 then Returned(cpu, cpu.registers[6], 0)
                   else Returned(cpu, 0xFFFF_FFFF, 9), c))
  {
    hide WordAt, SetWord, FlatStep.Step, AlignDown;
    SyscallAt(cpu, c, chunk);
  }

  /** write to anything but the pre-image oracle: the two output streams and the hint channel take everything. */
  lemma OtherWriteStep(cpu: Cpu, c: Contents, chunk: Outcome<seq<Byte>>)
    requires Paged(c) && AtSyscall(cpu, c) && cpu.registers[2] == 4004 && cpu.registers[4] != 6
    ensures FlatStep.Step(cpu, c, chunk)
         == Ok((if cpu.registers[4] in {1, 2, 4} then Returned(cpu, cpu.registers[6], 0)
                else Returned(cpu, 0xFFFF_FFFF, 9), c))
  {
    hide WordAt, SetWord, FlatStep.Step, AlignDown;
    SyscallAt(cpu, c, chunk);
  }

  /** read from the pre-image oracle: as many of the next bytes as fit in the word at the address go there. */
  lemma PreimageReadStep(cpu: Cpu, c: Contents, dat: seq<Byte>)
    requires Paged(c) && AtSyscall(cpu, c) && cpu.registers[2] == 4003 && cpu.registers[4] == 5
    ensures FlatStep.Step(cpu, c, Fault).Fault?
    ensures var addr, count := cpu.registers[5], cpu.registers[6];
            var n := Least(count, 4 - addr % 4, |dat|);
            var s := FlatStep.Step(cpu, c, Ok(dat));
            && s.Ok? && s.value.0 == Returned(cpu.(preimageOffset := (cpu.preimageOffset + n) % 0x1_0000_0000), n, 0)
            && Loaded(c, s.value.1, addr, dat[..n])
  {
    hide WordAt, SetWord, FlatStep.Step, MergeBytes, AlignDown, Loaded;
    var addr, count := cpu.registers[5], cpu.registers[6];
    var n := Least(count, 4 - addr % 4, |dat|);
    SyscallAt(cpu, c, Fault);
    SyscallAt(cpu, c, Ok(dat));
    MergedBytes(c, addr, dat, n);
  }

  /** The least of three numbers. */
  function Least(x: nat, y: nat, z: nat): (n: nat)
    ensures n <= x && n <= y && n <= z && (n == x || n == y || n == z)
  {
    if x <= y && x <= z then x else if y <= z then y else z
  }

  /** write to the pre-image oracle: as many bytes as the word at the address has enter the key at its end. */
  lemma PreimageWriteStep(cpu: Cpu, c: Contents, chunk: Outcome<seq<Byte>>)
    requires Paged(c) && AtSyscall(cpu, c) && cpu.registers[2] == 4004 && cpu.registers[4] == 6
    ensures var addr, count := cpu.registers[5], cpu.registers[6];
            var n := Least(count, 4 - addr % 4, 4);
            var key: Digest := cpu.preimageKey[n..] + FlatBytes(c, addr, n);
            FlatStep.Step(cpu, c, chunk) == Ok((Returned(cpu.(preimageKey := key, preimageOffset := 0), n, 0), c))
  {
    hide WordAt, SetWord, FlatStep.Step, AlignDown, WordBytes, FlatBytes;
    var addr, count := cpu.registers[5], cpu.registers[6];
    SyscallAt(cpu, c, chunk);
    WordSlice(c, addr, Least(count, 4 - addr % 4, 4));
  }

  /** The step is an anonymous mmap. */
  predicate Maps(s: Machine) {
    AtSyscall(s.cpu, s.contents) && s.cpu.registers[2] == 4090 && s.cpu.registers[4] == 0
  }

  /** Where the region of an anonymous mmap ends, in whole pages. */
  function RegionEnd(s: Machine): nat {
    s.cpu.heap + PagesUp(s.cpu.registers[5])
  }

  lemma OtherInsnKeepsHeap(cpu: Cpu, insn: Word, mem: Word, chunk: Outcome<seq<Byte>>)
    requires !IsSyscall(insn) && Transition(cpu, insn, mem, chunk).Ok?
    ensures Transition(cpu, insn, mem, chunk).value.0.heap == cpu.heap
  {
    hide Execute, SE, HiLo, HandleSyscall, AlignDown;
  }

  lemma OtherSyscallKeepsHeap(cpu: Cpu, mem: Word, chunk: Outcome<seq<Byte>>)
    requires !(cpu.registers[2] == 4090 && cpu.registers[4] == 0) && HandleSyscall(cpu, mem, chunk).Ok?
    ensures HandleSyscall(cpu, mem, chunk).value.0.heap == cpu.heap
  {
    hide MergeBytes, ShiftKey;
  }

  /** Only anonymous mmaps move the heap. */
  lemma HeapStep(oracle: Oracle, s: Machine)
    requires Paged(s.contents) && Next(oracle, s).Ok?
    ensures Next(oracle, s).value.cpu.heap
         == if Maps(s) then RegionEnd(s) % 0x1_0000_0000 else s.cpu.heap
    ensures Maps(s) ==> Next(oracle, s).value.cpu.registers[2] == s.cpu.heap
  {
    hide Transition, WordAt, DataAccess, SetWord, StepOutput, StepCache, HandleSyscall, FlatStep.Step, PagesUp;
    hide IsSyscall, FallThrough, Chunk;
    var chunk := NextChunk(oracle, s.cache, s.cpu);
    if Maps(s) {
      MmapStep(s.cpu, s.contents, chunk);
      ReturnedKeeps(s.cpu.(heap := RegionEnd(s) % 0x1_0000_0000), s.cpu.heap);
    } else if !s.cpu.exited && s.cpu.pc % 4 == 0 {
      var insn := WordAt(s.contents, s.cpu.pc);
      StepAt(s.cpu, s.contents, insn, chunk);
      SyscallCode(insn);
      var mem := AccessedWord(s.contents, DataAccess(Counted(s.cpu), insn));
      if IsSyscall(insn) {
        SyscallTransition(Counted(s.cpu), insn, mem, chunk);
        OtherSyscallKeepsHeap(Counted(s.cpu), mem, chunk);
      } else {
        OtherInsnKeepsHeap(Counted(s.cpu), insn, mem, chunk);
      }
    } else {
      StaysPut(s.cpu, s.contents, chunk);
    }
  }

  lemma StaysPut(cpu: Cpu, c: Contents, chunk: Outcome<seq<Byte>>)
    requires Paged(c) && (cpu.exited || cpu.pc % 4 != 0) && FlatStep.Step(cpu, c, chunk).Ok?
    ensures FlatStep.Step(cpu, c, chunk) == Ok((cpu, c))
  {
  }

  lemma ReturnedKeeps(cpu: Cpu, result: Word)
    ensures Returned(cpu, result, 0).heap == cpu.heap && Returned(cpu, result, 0).registers[2] == result
  {
  }

  lemma SyscallCode(insn: Word)
    ensures IsSyscall(insn) <==> insn < 0x400_0000 && insn % 64 == 12
  {
  }

  /** No anonymous mmap of the run passes the end of the address space. */
  ghost predicate HeapFits(oracle: Oracle, s: Machine, n: nat)
    requires Paged(s.contents)
  {
    forall i: nat {:trigger After(oracle, s, i)} | i < n && After(oracle, s, i).Ok? ::
      Maps(After(oracle, s, i).value) ==> RegionEnd(After(oracle, s, i).value) < 0x1_0000_0000
  }

  /** The heap never goes back, stays aligned, and is past every region handed out. */
  lemma {:induction false} HeapOfRun(oracle: Oracle, s: Machine, i: nat, j: nat)
    requires Paged(s.contents) && i <= j && After(oracle, s, j).Ok? && HeapFits(oracle, s, j)
    ensures After(oracle, s, i).Ok?
    ensures var a, b := After(oracle, s, i).value, After(oracle, s, j).value;
            && a.cpu.heap <= b.cpu.heap && (a.cpu.heap % 4096 == 0 ==> b.cpu.heap % 4096 == 0)
            && (i < j && Maps(a) ==> RegionEnd(a) <= b.cpu.heap)
    decreases j - i
  {
    hide Next, Maps, RegionEnd;
    if i < j {
      HeapOfRun(oracle, s, i, j - 1);
      var before := After(oracle, s, j - 1).value;
      HeapStep(oracle, before);
      RegionPages(before);
    }
  }

  lemma RegionPages(s: Machine)
    ensures RegionEnd(s) >= s.cpu.heap && (s.cpu.heap % 4096 == 0 ==> RegionEnd(s) % 4096 == 0)
  {
  }

  /** Two anonymous mmaps of a run, from a to a' and from b to b', return page-aligned regions that have no byte in
      common. */
  lemma RegionsApart(oracle: Oracle, s: Machine, i: nat, j: nat, a: Machine, a': Machine, b: Machine, b': Machine)
    requires Paged(s.contents) && i < j && HeapFits(oracle, s, j) && s.cpu.heap % 4096 == 0
    requires After(oracle, s, i) == Ok(a) && Next(oracle, a) == Ok(a') && Maps(a)
    requires After(oracle, s, j) == Ok(b) && Next(oracle, b) == Ok(b') && Maps(b)
    ensures var p, q := a'.cpu.registers[2], b'.cpu.registers[2];
            p % 4096 == 0 && q % 4096 == 0 && p + a.cpu.registers[5] <= q
  {
    hide Next, Maps;
    HeapFitsShorter(oracle, s, i, j);
    HeapOfRun(oracle, s, 0, i);
    HeapOfRun(oracle, s, i, j);
    HeapStep(oracle, a);
    HeapStep(oracle, b);
  }

  lemma HeapFitsShorter(oracle: Oracle, s: Machine, i: nat, j: nat)
    requires Paged(s.contents) && i <= j && HeapFits(oracle, s, j)
    ensures HeapFits(oracle, s, i)
  {
  }

  /** What a step writes to descriptor fd: the range a write syscall names, around the end of the address space too. */
  function WrittenBy(s: Machine, fd: Word): seq<Byte> {
    if AtSyscall(s.cpu, s.contents) && s.cpu.registers[2] == 4004 && s.cpu.registers[4] == fd
    then RangeBytes(s.contents, s.cpu.registers[5], s.cpu.registers[6]) else []
  }

  /** What the first n steps of a run write to descriptor fd. */
  function WrittenTo(oracle: Oracle, s: Machine, n: nat, fd: Word): seq<Byte>
    requires Paged(s.contents) && After(oracle, s, n).Ok?
  {
    if n == 0 then [] else WrittenTo(oracle, s, n - 1, fd) + WrittenBy(After(oracle, s, n - 1).value, fd)
  }

  lemma OutputStep(oracle: Oracle, s: Machine)
    requires Paged(s.contents) && Next(oracle, s).Ok?
    ensures Next(oracle, s).value.out.stdOut == s.out.stdOut + WrittenBy(s, 1)
    ensures Next(oracle, s).value.out.stdErr == s.out.stdErr + WrittenBy(s, 2)
    ensures HintBytes(s) == WrittenBy(s, 4)
  {
    hide FlatStep.Step, WordAt, RangeBytes, Parse;
    SyscallCode(WordAt(s.contents, s.cpu.pc));
  }

  /** Standard output and standard error of a run are everything its writes to descriptors 1 and 2 name, in order. */
  lemma {:induction false} OutputOfRun(oracle: Oracle, s: Machine, n: nat)
    requires Paged(s.contents) && After(oracle, s, n).Ok?
    ensures After(oracle, s, n).value.out.stdOut == s.out.stdOut + WrittenTo(oracle, s, n, 1)
    ensures After(oracle, s, n).value.out.stdErr == s.out.stdErr + WrittenTo(oracle, s, n, 2)
    ensures HintStream(oracle, s, n) == WrittenTo(oracle, s, n, 4)
  {
    hide Next, WrittenBy, HintBytes;
    if n > 0 {
      var before := After(oracle, s, n - 1).value;
      OutputOfRun(oracle, s, n - 1);
      OutputStep(oracle, before);
      Appended(s.out.stdOut, WrittenTo(oracle, s, n - 1, 1), WrittenBy(before, 1));
      Appended(s.out.stdErr, WrittenTo(oracle, s, n - 1, 2), WrittenBy(before, 2));
    }
  }

  lemma Appended(a: seq<Byte>, b: seq<Byte>, c: seq<Byte>)
    ensures (a + b) + c == a + (b + c)
  {
  }
}
