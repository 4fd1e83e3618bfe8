/** The instrumented VM: handlers that update the state in place, and the step that emits a witness
    (cannon/mipsevm/mips.go, cannon/mipsevm/instrumented.go). */
module Instrumented {
  import opened Alu
  import opened Bits
  import opened Bytes
  import opened FlatMemory
  import opened Mips
  import opened FlatStep
  import opened Hints
  import opened PreimageCache
  import opened State
  import opened Sufficiency
  import opened Witness
  import R = MemoryRange
  import Contract
  import M = Memory

  /** What has left the VM: the two streams, the hints given to the oracle, and the hint bytes still incomplete. */
  datatype Output = Output(stdOut: seq<Byte>, stdErr: seq<Byte>, hints: seq<Hint>, pending: seq<Byte>)

  /** A range written to one of the three output descriptors. */
  function Emitted(out: Output, fd: Word, bytes: seq<Byte>): Output {
    if fd == FD_STDOUT then out.(stdOut := out.stdOut + bytes)
    else if fd == FD_STDERR then out.(stdErr := out.stdErr + bytes)
    else var p := Parse(out.pending + bytes); out.(hints := out.hints + p.hints, pending := p.rest)
  }

  predicate IsStreamWrite(cpu: Cpu) {
    && cpu.registers[2] == SYS_WRITE
    && (cpu.registers[4] == FD_STDOUT || cpu.registers[4] == FD_STDERR || cpu.registers[4] == FD_HINT_WRITE)
  }

  /** A written range does not come back to its first page, and buffered hint bytes stay below 4 GiB. */
  predicate StreamOk(cpu: Cpu, pending: seq<Byte>) {
    IsStreamWrite(cpu) ==>
      && R.RangeOk(cpu.registers[5], cpu.registers[6])
      && (cpu.registers[4] == FD_HINT_WRITE ==> |pending| + cpu.registers[6] < 0x1_0000_0000)
  }

  function SyscallOutput(out: Output, cpu: Cpu, c: Contents): Output {
    if IsStreamWrite(cpu) then Emitted(out, cpu.registers[4], RangeBytes(c, cpu.registers[5], cpu.registers[6]))
    else out
  }

  /** The functions of opcode 0 that have handlers of their own. */
  predicate IsSpecial(fun: nat) {
    8 <= fun <= 0xc || 0x10 <= fun <= 0x13 || 0x18 <= fun < 0x1c
  }

  /** The ALU lets the special functions through, and panics on the gaps between them. */
  lemma SpecialsExecute(insn: Word, rs: Word, rt: Word, mem: Word)
    ensures Opcode(insn) == 0 && 8 <= Fun(insn) < 0x1c ==>
              (Execute(insn, rs, rt, mem).Ok? <==> IsSpecial(Fun(insn)) || Fun(insn) == 0xf)
  {
  }

  /** What the model asks of a step: a range it writes out must not come back to its first page. */
  predicate StepOk(cpu: Cpu, c: Contents, pending: seq<Byte>) {
    Executes(cpu) && IsSyscall(WordAt(c, cpu.pc)) ==> StreamOk(cpu, pending)
  }

  /** The pre-image cache after a step. */
  function StepCache(oracle: Oracle, cache: Cache, cpu: Cpu, c: Contents): Cache {
    if StepReads(cpu, c) then Fetched(oracle, cache, cpu.preimageKey) else cache
  }

  function StepOutput(out: Output, cpu: Cpu, c: Contents): Output {
    if Executes(cpu) && IsSyscall(WordAt(c, cpu.pc)) then SyscallOutput(out, cpu, c) else out
  }

  /** What a step touches, reads and writes out does not depend on the step counter. */
  lemma StepCounterUnseen(cpu: Cpu, step: DWord, insn: Word, out: Output, c: Contents)
    ensures DataAccess(cpu.(step := step), insn) == DataAccess(cpu, insn)
    ensures ReadsPreimage(cpu.(step := step), insn) == ReadsPreimage(cpu, insn)
    ensures StreamOk(cpu.(step := step), out.pending) == StreamOk(cpu, out.pending)
    ensures SyscallOutput(out, cpu.(step := step), c) == SyscallOutput(out, cpu, c)
  {
    hide R.RangeOk, Emitted;
    SameAccess(cpu, step, insn);
  }

  function AfterAlu(cpu: Cpu, insn: Word, rdReg: nat, result: Outcome<Word>): Outcome<(Cpu, Store)>
    requires rdReg < 32
  {
    var val :- result;
    Ok((Mips.HandleRd(ScFlag(cpu, Opcode(insn), RtReg(insn)), rdReg, val, true),
        if IsStore(Opcode(insn)) then Store(val) else NoStore))
  }

  lemma AlignDownAligned(a: Word)
    ensures AlignDown(a) % 4 == 0
  {
  }

  lemma NextKey(key: Digest, mem: Word, at: nat, n: nat)
    requires at + n <= 4
    ensures var shifted: seq<Byte> := key[n..] + WordBytes(mem)[at..at + n];
            |shifted| == 32 && ShiftKey(key, mem, at, n) == shifted
  {
    hide WordBytes;
  }

  lemma ExitGroup(cpu: Cpu, mem: Word, chunk: Outcome<seq<Byte>>)
    requires cpu.registers[2] == SYS_EXIT_GROUP
    ensures Mips.HandleSyscall(cpu, mem, chunk)
         == Ok((cpu.(exited := true, exitCode := cpu.registers[4] % 256), NoStore))
  {
  }

  lemma ReadResult(cpu: Cpu, mem: Word, chunk: Outcome<seq<Byte>>)
    requires cpu.registers[2] == SYS_READ
    ensures var fd, a1, a2 := cpu.registers[4], cpu.registers[5], cpu.registers[6];
            var r := Mips.HandleSyscall(cpu, mem, chunk);
            && (fd == FD_STDIN ==> r == Ok((SyscallReturn(cpu, 0, 0), NoStore)))
            && (fd == FD_HINT_READ ==> r == Ok((SyscallReturn(cpu, a2, 0), NoStore)))
            && (fd == FD_PREIMAGE_READ ==> r.Ok? == chunk.Ok?)
            && (fd == FD_PREIMAGE_READ && chunk.Ok? ==>
                  var n := ReadLength(a1, a2, |chunk.value|);
                  r == Ok((SyscallReturn(cpu.(preimageOffset := Wrap(cpu.preimageOffset + n)), n, 0),
                           Store(MergeBytes(mem, a1 % 4, chunk.value, n)))))
            && (fd != FD_STDIN && fd != FD_HINT_READ && fd != FD_PREIMAGE_READ ==>
                  r == Ok((SyscallReturn(cpu, MINUS_ONE, EBADF), NoStore)))
  {
    hide SyscallReturn, MergeBytes, ReadLength, Wrap;
  }

  lemma WriteResult(cpu: Cpu, mem: Word, chunk: Outcome<seq<Byte>>)
    requires cpu.registers[2] == SYS_WRITE
    ensures var fd, a1, a2 := cpu.registers[4], cpu.registers[5], cpu.registers[6];
            var n := WriteLength(a1, a2);
            Mips.HandleSyscall(cpu, mem, chunk)
            == Ok((if IsStreamWrite(cpu) then SyscallReturn(cpu, a2, 0)
                   else if fd == FD_PREIMAGE_WRITE then
                     var key := ShiftKey(cpu.preimageKey, mem, a1 % 4, n);
                     SyscallReturn(cpu.(preimageKey := key, preimageOffset := 0), n, 0)
                   else SyscallReturn(cpu, MINUS_ONE, EBADF), NoStore))
  {
    hide SyscallReturn, ShiftKey, WriteLength;
  }

  /** What remains for the ALU once jumps, branches and the special functions are taken out. */
  lemma AluTransition(cpu: Cpu, insn: Word, mem: Word, chunk: Outcome<seq<Byte>>, rs: Word, rdReg: nat)
    requires Opcode(insn) != 1 && !(2 <= Opcode(insn) < 8)
    requires rs == if Opcode(insn) >= 0x20 then EffectiveAddress(cpu, insn) else cpu.registers[RsReg(insn)]
    requires rdReg == if Opcode(insn) == 0 || Opcode(insn) == 0x1c then RdReg(insn)
                      else if IsStore(Opcode(insn)) then 0 else RtReg(insn)
    ensures IsSyscall(insn) ==> Opcode(insn) == 0 && Fun(insn) == 0xc
    ensures Opcode(insn) >= 0x20 ==> DataAccess(cpu, insn) == Access(AlignDown(rs))
    ensures !IsSyscall(insn) && Opcode(insn) < 0x20 ==> DataAccess(cpu, insn).NoAccess?
    ensures !(Opcode(insn) == 0 && IsSpecial(Fun(insn))) ==>
              Transition(cpu, insn, mem, chunk)
                  == AfterAlu(cpu, insn, rdReg, Execute(insn, rs, Operand(cpu, insn), mem))
  {
    hide Execute, SE;
  }

  class InstrumentedState {
    const state: State
    const oracle: Oracle

    var stdOut: seq<Byte>
    var stdErr: seq<Byte>
    var hints: seq<Hint>             // the hints given to the oracle

    var lastMemAccess: Word
    var memProofEnabled: bool
    var memProof: seq<Byte>

    var lastPreimage: seq<Byte>      // with its 8-byte length prefix
    var lastPreimageKey: Digest
    var lastPreimageOffset: Word     // NONE if nothing is read this step

    ghost predicate Valid()
      reads state.memory, state.memory.pages.Values
    {
      && state.Valid() && this as object !in state.memory.Repr()
    }

    constructor (state: State, oracle: Oracle)
      requires state.Valid()
      ensures Valid() && this.state == state && this.oracle == oracle && Cached() == UNUSED
      ensures stdOut == [] && stdErr == [] && hints == [] && |memProof| == PROOF_LEN
    {
      this.state, this.oracle := state, oracle;
      stdOut, stdErr, hints := [], [], [];
      lastMemAccess, memProofEnabled, memProof := 0, false, seq<Byte>(PROOF_LEN, _ => 0);
      lastPreimage, lastPreimageKey, lastPreimageOffset := [], ZERO_DIGEST, 0;
    }

    ghost function Cached(): Cache
      reads this
    {
      Cache(lastPreimageKey, lastPreimage)
    }

    /** The length-prefixed pre-image the next read sees. */
    ghost function NextPreimage(): seq<Byte>
      reads this, state
    {
      Seen(oracle, Cached(), state.preimageKey)
    }

    ghost function NextChunk(): Outcome<seq<Byte>>
      reads this, state
    {
      Chunk(NextPreimage(), state.preimageOffset)
    }

    method HandleBranch(opcode: nat, insn: Word, rtReg: nat, rs: Word) returns (ok: bool)
      requires state.registers.Length == 32 && rtReg < 32
      modifies state`pc, state`nextPC
      ensures ok == Mips.HandleBranch(old(state.Cpu()), opcode, insn, rtReg, rs).Ok?
      ensures ok ==> state.Cpu() == Mips.HandleBranch(old(state.Cpu()), opcode, insn, rtReg, rs).value
    {
      if state.nextPC != Wrap(state.pc + 4) {
        return false;  // branch in delay slot
      }
      var shouldBranch := false;
      if opcode == 4 || opcode == 5 {         // beq, bne
        var rt := state.registers[rtReg];
        shouldBranch := (rs == rt && opcode == 4) || (rs != rt && opcode == 5);
      } else if opcode == 6 {
        shouldBranch := Signed(rs) <= 0;      // blez
      } else if opcode == 7 {
        shouldBranch := Signed(rs) > 0;       // bgtz
      } else if opcode == 1 {                 // regimm
        var rtv := RtReg(insn);
        if rtv == 0 {
          shouldBranch := Signed(rs) < 0;     // bltz
        }
        if rtv == 1 {
          shouldBranch := Signed(rs) >= 0;    // bgez
        }
      }
      var prevPC := state.pc;
      state.pc := state.nextPC;  // execute the delay slot first
      if shouldBranch {
        state.nextPC := Wrap(prevPC + 4 + Shl(SE(Imm(insn), 16), 2));
      } else {
        state.nextPC := Wrap(state.nextPC + 4);
      }
      ok := true;
    }

    method HandleHiLo(fun: nat, rs: Word, rt: Word, storeReg: nat) returns (ok: bool)
      requires state.registers.Length == 32 && storeReg < 32
      modifies state`pc, state`nextPC, state`hi, state`lo, state.registers
      ensures ok == Mips.HandleHiLo(old(state.Cpu()), fun, rs, rt, storeReg).Ok?
      ensures ok ==> state.Cpu() == Mips.HandleHiLo(old(state.Cpu()), fun, rs, rt, storeReg).value
    {
      var val: Word := 0;
      if fun == 0x10 {
        val := state.hi;
      } else if fun == 0x11 {
        state.hi := rs;
      } else if fun == 0x12 {
        val := state.lo;
      } else if fun == 0x13 {
        state.lo := rs;
      } else if fun == 0x18 {
        var acc := Signed(rs) * Signed(rt);
        state.hi := Wrap(acc / 0x1_0000_0000);
        state.lo := Wrap(acc);
      } else if fun == 0x19 {
        var acc := (rs as int) * rt;
        state.hi := Wrap(acc / 0x1_0000_0000);
        state.lo := Wrap(acc);
      } else if fun == 0x1a {
        if rt == 0 {
          return false;
        }
        state.hi := Wrap(Signed(rs) - TruncDiv(Signed(rs), Signed(rt)) * Signed(rt));
        state.lo := Wrap(TruncDiv(Signed(rs), Signed(rt)));
      } else if fun == 0x1b {
        if rt == 0 {
          return false;
        }
        state.hi := rs % rt;
        state.lo := rs / rt;
      }
      if storeReg != 0 {
        state.registers[storeReg] := val;
      }
      state.pc := state.nextPC;
      state.nextPC := Wrap(state.nextPC + 4);
      ok := true;
    }

    method HandleJump(linkReg: nat, dest: Word) returns (ok: bool)
      requires state.registers.Length == 32 && linkReg < 32
      modifies state`pc, state`nextPC, state.registers
      ensures ok == Mips.HandleJump(old(state.Cpu()), linkReg, dest).Ok?
      ensures ok ==> state.Cpu() == Mips.HandleJump(old(state.Cpu()), linkReg, dest).value
    {
      if state.nextPC != Wrap(state.pc + 4) {
        return false;  // jump in delay slot
      }
      var prevPC := state.pc;
      state.pc := state.nextPC;
      state.nextPC := dest;
      if linkReg != 0 {
        state.registers[linkReg] := Wrap((prevPC as int) + 8);
      }
      ok := true;
    }

    method HandleRd(storeReg: nat, val: Word, conditional: bool)
      requires state.registers.Length == 32 && storeReg < 32
      modifies state`pc, state`nextPC, state.registers
      ensures state.Cpu() == Mips.HandleRd(old(state.Cpu()), storeReg, val, conditional)
    {
      if storeReg != 0 && conditional {
        state.registers[storeReg] := val;
      }
      state.pc := state.nextPC;
      state.nextPC := Wrap(state.nextPC + 4);
    }

    /** The common end of every syscall that returns. */
    method ReturnFromSyscall(v0: Word, v1: Word)
      requires state.registers.Length == 32
      modifies state`pc, state`nextPC, state.registers
      ensures state.Cpu() == SyscallReturn(old(state.Cpu()), v0, v1)
    {
      state.registers[2] := v0;
      state.registers[7] := v1;
      state.pc := state.nextPC;
      state.nextPC := Wrap(state.nextPC + 4);
    }

    /** The memory proof that a step touching this word leaves behind. */
    ghost function ProofFor(access: Access): seq<Byte>
      reads this, state.memory
    {
      if memProofEnabled && access.Access? then ProofBytes(state.memory.hash, state.memory.contents, access.addr)
      else memProof
    }

    /** Records the proof of the one data word a step may touch.  A second, different word would be a panic. */
    method TrackMemAccess(effAddr: Word)
      requires Valid() && effAddr % 4 == 0
      requires memProofEnabled ==> lastMemAccess == NONE || lastMemAccess == effAddr
      modifies this`lastMemAccess, this`memProof
      modifies state.memory`nodes, state.memory`hashed, state.memory.pages.Values
      ensures Valid()
      ensures lastMemAccess == if memProofEnabled then effAddr else old(lastMemAccess)
      ensures memProof == if old(lastMemAccess) == effAddr then old(memProof) else old(ProofFor(Access(effAddr)))
    {
      hide M.Memory.Valid, ProofBytes;
      if memProofEnabled && lastMemAccess != effAddr {
        if lastMemAccess != NONE {
          assert false;  // unexpected different memory access
        }
        lastMemAccess := effAddr;
        memProof := state.memory.MerkleProof(effAddr);
      }
    }

    /** The pre-image of key from offset on, at most 32 bytes; asks the oracle only when the key changed. */
    method ReadPreimage(key: Digest, offset: Word) returns (chunk: Outcome<seq<Byte>>)
      modifies this`lastPreimage, this`lastPreimageKey, this`lastPreimageOffset
      ensures Cached() == Fetched(oracle, old(Cached()), key) && lastPreimageOffset == offset
      ensures chunk == Chunk(Seen(oracle, old(Cached()), key), offset)
    {
      if key != lastPreimageKey {
        lastPreimageKey := key;
        var data := oracle(key);
        lastPreimage := DWordBytes(|data|) + data;
      }
      lastPreimageOffset := offset;
      if offset > |lastPreimage| {
        return Fault;
      }
      var n := Min(32, |lastPreimage| - offset);
      chunk := Ok(lastPreimage[offset..offset + n]);
    }

    /** The read from the pre-image oracle: up to four bytes, within one word, at the current offset. */
    method PreimageRead(a1: Word, a2: Word) returns (r: Outcome<Word>)
      requires Valid() && (memProofEnabled ==> lastMemAccess == NONE)
      modifies this`lastMemAccess, this`memProof, this`lastPreimage, this`lastPreimageKey, this`lastPreimageOffset
      modifies state`preimageOffset, state.memory.Repr()
      ensures Valid() && fresh(state.memory.Repr() - old(state.memory.Repr()))
      ensures memProof == old(ProofFor(Access(AlignDown(a1))))
      ensures lastPreimageKey == old(state.preimageKey) && lastPreimageOffset == old(state.preimageOffset)
      ensures lastPreimage == old(NextPreimage())
      ensures r.Ok? == old(NextChunk()).Ok?
      ensures r.Ok? ==>
                var dat := old(NextChunk()).value;
                var n := ReadLength(a1, a2, |dat|);
                && r.value == n && state.preimageOffset == Wrap(old(state.preimageOffset) + n)
                && state.memory.contents
                   == SetWord(old(state.memory.contents), AlignDown(a1),
                              MergeBytes(WordAt(old(state.memory.contents), AlignDown(a1)), a1 % 4, dat, n))
    {
      hide M.Memory.Valid, ProofBytes, SetWord, WordAt, MergeBytes, Prefixed, Chunk;
      var effAddr := AlignDown(a1);
      TrackMemAccess(effAddr);
      var mem := state.memory.GetMemory(effAddr);
      var chunk := ReadPreimage(state.preimageKey, state.preimageOffset);
      if chunk.Fault? {
        return Fault;
      }
      var dat, alignment := chunk.value, a1 % 4;
      var datLen := |dat|;
      if 4 - alignment < datLen {
        datLen := 4 - alignment;
      }
      if a2 < datLen {
        datLen := a2;
      }
      state.memory.SetMemory(effAddr, MergeBytes(mem, alignment, dat, datLen));
      state.preimageOffset := Wrap(state.preimageOffset + datLen);
      return Ok(datLen);
    }

    /** The write to the pre-image oracle: up to four bytes, within one word, are shifted into the key. */
    method PreimageWrite(a1: Word, a2: Word) returns (n: Word)
      requires Valid() && (memProofEnabled ==> lastMemAccess == NONE)
      modifies this`lastMemAccess, this`memProof, state`preimageKey, state`preimageOffset, state.memory.Repr()
      ensures Valid() && state.memory.Repr() == old(state.memory.Repr())
      ensures state.memory.contents == old(state.memory.contents)
      ensures memProof == old(ProofFor(Access(AlignDown(a1))))
      ensures n == WriteLength(a1, a2) && state.preimageOffset == 0
      ensures state.preimageKey
           == ShiftKey(old(state.preimageKey), WordAt(state.memory.contents, AlignDown(a1)), a1 % 4, n)
    {
      hide M.Memory.Valid, ProofBytes, WordAt, WordBytes;
      NextKey(state.preimageKey, WordAt(state.memory.contents, AlignDown(a1)), a1 % 4, WriteLength(a1, a2));
      var effAddr := AlignDown(a1);
      TrackMemAccess(effAddr);
      var mem := state.memory.GetMemory(effAddr);
      var key, alignment := state.preimageKey, a1 % 4;
      n := a2;
      if 4 - alignment < n {
        n := 4 - alignment;
      }
      var shifted: seq<Byte> := key[n..] + WordBytes(mem)[alignment..alignment + n];
      state.preimageKey, state.preimageOffset := shifted, 0;
    }

    ghost function Out(): Output
      reads this, state
    {
      Output(stdOut, stdErr, hints, state.lastHint)
    }

    /** A write to standard output, standard error or the hint channel. */
    method WriteStream(fd: Word, addr: Word, count: Word)
      requires Valid() && R.RangeOk(addr, count) && (fd == FD_STDOUT || fd == FD_STDERR || fd == FD_HINT_WRITE)
      requires fd == FD_HINT_WRITE ==> |state.lastHint| + count < 0x1_0000_0000
      modifies this`stdOut, this`stdErr, this`hints, state`lastHint
      modifies state.memory`lastPageKeys, state.memory`lastPage
      ensures Valid() && Out() == Emitted(old(Out()), fd, RangeBytes(state.memory.contents, addr, count))
    {
      hide M.Memory.Valid, RangeBytes;
      var data := R.ReadAll(state.memory, addr, count);
      if fd == FD_STDOUT {
        stdOut := stdOut + data;
      } else if fd == FD_STDERR {
        stdErr := stdErr + data;
      } else {
        var delivered;
        delivered, state.lastHint := ProcessHints(state.lastHint, data);
        hints := hints + delivered;
      }
    }

    /** The pre-image data of the witness: set by the syscall that reads, kept by every other step. */
    twostate predicate PreimageSeen(reading: bool)
      reads this
    {
      if reading then
        && lastPreimageKey == old(state.preimageKey) && lastPreimageOffset == old(state.preimageOffset)
        && lastPreimage == old(NextPreimage())
      else
        lastPreimageKey == old(lastPreimageKey) && lastPreimageOffset == old(lastPreimageOffset)
        && lastPreimage == old(lastPreimage)
    }

    /** The state is ready to return from the syscall with these results. */
    twostate predicate Returns(new v: Outcome<(Word, Word)>)
      requires state.registers.Length == 32 && old(Paged(state.memory.contents))
      reads state, state.registers, state.memory
    {
      var access := SyscallAccess(old(state.Cpu()));
      var r := Mips.HandleSyscall(old(state.Cpu()), AccessedWord(old(state.memory.contents), access), old(NextChunk()));
      && v.Ok? == r.Ok?
      && (v.Ok? ==>
            && SyscallReturn(state.Cpu(), v.value.0, v.value.1) == r.value.0
            && state.memory.contents == Stored(old(state.memory.contents), access, r.value.1))
    }

    /** sysRead. */
    method ReadSyscall(a0: Word, a1: Word, a2: Word) returns (v: Outcome<(Word, Word)>)
      requires Valid() && (memProofEnabled ==> lastMemAccess == NONE) && Paged(state.memory.contents)
      requires state.registers[2] == SYS_READ && a0 == state.registers[4] && a1 == state.registers[5]
      requires a2 == state.registers[6]
      modifies this`lastMemAccess, this`memProof, this`lastPreimage, this`lastPreimageKey, this`lastPreimageOffset
      modifies state`preimageOffset, state.memory.Repr()
      ensures Valid() && fresh(state.memory.Repr() - old(state.memory.Repr()))
      ensures Returns(v) && memProof == old(ProofFor(SyscallAccess(state.Cpu())))
      ensures PreimageSeen(IsPreimageRead(old(state.Cpu())))
    {
      hide M.Memory.Valid, ProofBytes, SetWord, WordAt, MergeBytes, NextChunk, NextPreimage, ShiftKey, SyscallReturn;
      hide Mips.HandleSyscall, ReadLength;
      ReadResult(state.Cpu(), AccessedWord(state.memory.contents, SyscallAccess(state.Cpu())), NextChunk());
      if a0 == FD_STDIN {
        v := Ok((0, 0));  // read nothing, no error
      } else if a0 == FD_PREIMAGE_READ {
        var n := PreimageRead(a1, a2);
        v := if n.Ok? then Ok((n.value, 0)) else Fault;
      } else if a0 == FD_HINT_READ {
        v := Ok((a2, 0));  // say it was all read, the result is ignored anyway
      } else {
        v := Ok((MINUS_ONE, EBADF));
      }
    }

    /** sysWrite. */
    method WriteSyscall(a0: Word, a1: Word, a2: Word) returns (v: Outcome<(Word, Word)>)
      requires Valid() && (memProofEnabled ==> lastMemAccess == NONE) && Paged(state.memory.contents)
      requires state.registers[2] == SYS_WRITE && a0 == state.registers[4] && a1 == state.registers[5]
      requires a2 == state.registers[6]
      requires StreamOk(state.Cpu(), state.lastHint)
      modifies this`stdOut, this`stdErr, this`hints, this`lastMemAccess, this`memProof
      modifies state`preimageKey, state`preimageOffset, state`lastHint, state.memory.Repr()
      ensures Valid() && state.memory.Repr() == old(state.memory.Repr())
      ensures Returns(v) && memProof == old(ProofFor(SyscallAccess(state.Cpu())))
      ensures Out() == SyscallOutput(old(Out()), old(state.Cpu()), old(state.memory.contents))
    {
      hide M.Memory.Valid, ProofBytes, SetWord, WordAt, NextChunk, SyscallReturn, RangeBytes, Emitted, R.RangeOk;
      hide Mips.HandleSyscall, WriteLength, ShiftKey;
      WriteResult(state.Cpu(), AccessedWord(state.memory.contents, SyscallAccess(state.Cpu())), NextChunk());
      if a0 == FD_STDOUT || a0 == FD_STDERR || a0 == FD_HINT_WRITE {
        WriteStream(a0, a1, a2);
        v := Ok((a2, 0));
      } else if a0 == FD_PREIMAGE_WRITE {
        var n := PreimageWrite(a1, a2);
        v := Ok((n, 0));
      } else {
        v := Ok((MINUS_ONE, EBADF));
      }
    }

    /** The syscalls that transfer no data. */
    method OtherSyscall(num: Word, a0: Word, a1: Word) returns (v: Outcome<(Word, Word)>)
      requires state.registers.Length == 32 && Paged(state.memory.contents)
      requires num != SYS_READ && num != SYS_WRITE && num != SYS_EXIT_GROUP
      requires num == state.registers[2] && a0 == state.registers[4] && a1 == state.registers[5]
      modifies state`heap
      ensures Returns(v)
    {
      hide M.Memory.Valid;
      v := Ok((0, 0));
      if num == SYS_MMAP {
        var sz := a1;
        if sz % 4096 != 0 {  // adjust size to align with page size
          sz := Wrap((sz as int) + (4096 - sz % 4096));
        }
        if a0 == 0 {
          v := Ok((state.heap, 0));
          state.heap := Wrap(state.heap + sz);
        } else {
          v := Ok((a0, 0));
        }
      } else if num == SYS_BRK {
        v := Ok((0x4000_0000, 0));
      } else if num == SYS_CLONE {  // not supported
        v := Ok((1, 0));
      } else if num == SYS_FCNTL {
        if a1 != 3 {
          v := Ok((MINUS_ONE, EINVAL));  // cmd not recognized
        } else if a0 == FD_STDIN || a0 == FD_PREIMAGE_READ || a0 == FD_HINT_READ {
          v := Ok((0, 0));
        } else if a0 == FD_STDOUT || a0 == FD_STDERR || a0 == FD_PREIMAGE_WRITE || a0 == FD_HINT_WRITE {
          v := Ok((1, 0));
        } else {
          v := Ok((MINUS_ONE, EBADF));
        }
      }
    }

    /** The syscalls that return: one group after the other. */
    method ReturningSyscall() returns (v: Outcome<(Word, Word)>)
      requires Valid() && (memProofEnabled ==> lastMemAccess == NONE) && Paged(state.memory.contents)
      requires StreamOk(state.Cpu(), state.lastHint) && state.registers[2] != SYS_EXIT_GROUP
      modifies this`stdOut, this`stdErr, this`hints, this`lastMemAccess, this`memProof
      modifies this`lastPreimage, this`lastPreimageKey, this`lastPreimageOffset
      modifies state`preimageKey, state`preimageOffset, state`lastHint, state`heap, state.memory.Repr()
      ensures Valid() && fresh(state.memory.Repr() - old(state.memory.Repr()))
      ensures Returns(v) && memProof == old(ProofFor(SyscallAccess(state.Cpu())))
      ensures PreimageSeen(IsPreimageRead(old(state.Cpu())))
      ensures Out() == SyscallOutput(old(Out()), old(state.Cpu()), old(state.memory.contents))
    {
      hide M.Memory.Valid, ProofBytes, SetWord, WordAt, NextChunk, NextPreimage, SyscallReturn, RangeBytes, Emitted;
      hide Mips.HandleSyscall, StreamOk, Returns;
      var num, a0, a1, a2 := state.registers[2], state.registers[4], state.registers[5], state.registers[6];
      if num == SYS_READ {
        v := ReadSyscall(a0, a1, a2);
      } else if num == SYS_WRITE {
        v := WriteSyscall(a0, a1, a2);
      } else {
        v := OtherSyscall(num, a0, a1);
      }
    }

    /** syscall: exit, or a syscall that returns. */
    method HandleSyscall() returns (ok: bool)
      requires Valid() && (memProofEnabled ==> lastMemAccess == NONE) && Paged(state.memory.contents)
      requires StreamOk(state.Cpu(), state.lastHint)
      modifies this`stdOut, this`stdErr, this`hints, this`lastMemAccess, this`memProof
      modifies this`lastPreimage, this`lastPreimageKey, this`lastPreimageOffset
      modifies state, state.registers, state.memory.Repr()
      ensures Valid() && fresh(state.memory.Repr() - old(state.memory.Repr()))
      ensures var access := SyscallAccess(old(state.Cpu()));
              var r := Mips.HandleSyscall(old(state.Cpu()), AccessedWord(old(state.memory.contents), access),
                  old(NextChunk()));
              && ok == r.Ok? && memProof == old(ProofFor(access))
              && (ok ==> state.Cpu() == r.value.0
                         && state.memory.contents == Stored(old(state.memory.contents), access, r.value.1))
      ensures PreimageSeen(IsPreimageRead(old(state.Cpu())))
      ensures Out() == SyscallOutput(old(Out()), old(state.Cpu()), old(state.memory.contents))
    {
      hide M.Memory.Valid, ProofBytes, SetWord, WordAt, NextChunk, SyscallReturn, RangeBytes, Emitted, R.RangeOk;
      hide Mips.HandleSyscall, StreamOk;
      if state.registers[2] == SYS_EXIT_GROUP {
        ExitGroup(state.Cpu(), AccessedWord(state.memory.contents, SyscallAccess(state.Cpu())), NextChunk());
        state.exited := true;
        state.exitCode := state.registers[4] % 256;
        return true;
      }
      var v := ReturningSyscall();
      if v.Fault? {
        return false;
      }
      ReturnFromSyscall(v.value.0, v.value.1);
      ok := true;
    }

    /** The instruction has taken effect: registers, memory, the proof left behind and the output are those of
        the transition on the words it sees; a panic is a fault of the transition. */
    twostate predicate Steps(insn: Word, ok: bool)
      requires state.registers.Length == 32 && old(Paged(state.memory.contents))
      reads this, state, state.registers, state.memory
    {
      var access := DataAccess(old(state.Cpu()), insn);
      var r := Transition(old(state.Cpu()), insn, AccessedWord(old(state.memory.contents), access), old(NextChunk()));
      && ok == r.Ok?
      && (ok ==>
            && state.Cpu() == r.value.0
            && state.memory.contents == Stored(old(state.memory.contents), access, r.value.1)
            && memProof == old(ProofFor(access))
            && PreimageSeen(ReadsPreimage(old(state.Cpu()), insn))
            && Out() == if IsSyscall(insn) then SyscallOutput(old(Out()), old(state.Cpu()), old(state.memory.contents))
                        else old(Out()))
    }

    /** The load that every instruction of opcode 0x20 and above starts with, stores included. */
    method LoadWord(addr: Word) returns (mem: Word)
      requires Valid() && addr % 4 == 0 && (memProofEnabled ==> lastMemAccess == NONE)
      modifies this`lastMemAccess, this`memProof, state.memory.Repr()
      ensures Valid() && state.memory.Repr() == old(state.memory.Repr())
      ensures state.memory.contents == old(state.memory.contents) && mem == WordAt(state.memory.contents, addr)
      ensures memProof == old(ProofFor(Access(addr))) && (memProofEnabled ==> lastMemAccess == addr)
    {
      hide M.Memory.Valid, ProofBytes, WordAt;
      TrackMemAccess(addr);
      mem := state.memory.GetMemory(addr);
    }

    /** The store, to the word that was loaded. */
    method StoreWord(addr: Word, val: Word)
      requires Valid() && addr % 4 == 0 && (memProofEnabled ==> lastMemAccess == addr) && Paged(state.memory.contents)
      modifies this`lastMemAccess, this`memProof, state.memory.Repr()
      ensures Valid() && fresh(state.memory.Repr() - old(state.memory.Repr()))
      ensures state.memory.contents == SetWord(old(state.memory.contents), addr, val) && memProof == old(memProof)
    {
      hide M.Memory.Valid, ProofBytes, SetWord;
      TrackMemAccess(addr);
      state.memory.SetMemory(addr, val);
    }

    /** Opcode 0, functions 8 to 0x1b: jumps to registers, conditional moves, the syscall, HI and LO. */
    method HandleSpecial(insn: Word, fun: nat, rs: Word, rt: Word) returns (ok: bool)
      requires Valid() && (memProofEnabled ==> lastMemAccess == NONE) && Paged(state.memory.contents)
      requires IsSyscall(insn) ==> StreamOk(state.Cpu(), state.lastHint)
      requires Opcode(insn) == 0 && fun == Fun(insn) && IsSpecial(fun)
      requires rs == state.registers[RsReg(insn)] && rt == state.registers[RtReg(insn)]
      modifies this, state, state.registers, state.memory.Repr()
      ensures Valid() && fresh(state.memory.Repr() - old(state.memory.Repr()))
      ensures memProofEnabled == old(memProofEnabled) && Steps(insn, ok)
    {
      hide M.Memory.Valid, ProofBytes, SetWord, WordAt, NextChunk, NextPreimage, SyscallOutput;
      hide Mips.HandleJump, Mips.HandleRd, Mips.HandleHiLo, Mips.HandleSyscall;
      var rdReg := RdReg(insn);
      if fun == 8 || fun == 9 {
        ok := HandleJump(if fun == 9 then rdReg else 0, rs);
      } else if fun == 0xa {
        HandleRd(rdReg, rs, rt == 0);
        ok := true;
      } else if fun == 0xb {
        HandleRd(rdReg, rs, rt != 0);
        ok := true;
      } else if fun == 0xc {
        ok := HandleSyscall();
      } else {
        ok := HandleHiLo(fun, rs, rt, rdReg);
      }
    }

    /** The end of an instruction: sc's flag, the store, and the write to the destination register. */
    method WriteBack(opcode: nat, rtReg: nat, storing: bool, addr: Word, rdReg: nat, val: Word)
      requires Valid() && rtReg < 32 && rdReg < 32 && Paged(state.memory.contents)
      requires storing ==> addr % 4 == 0 && (memProofEnabled ==> lastMemAccess == addr)
      modifies this`lastMemAccess, this`memProof, state`pc, state`nextPC, state.registers, state.memory.Repr()
      ensures Valid() && fresh(state.memory.Repr() - old(state.memory.Repr())) && memProof == old(memProof)
      ensures state.Cpu() == Mips.HandleRd(ScFlag(old(state.Cpu()), opcode, rtReg), rdReg, val, true)
      ensures state.memory.contents == if storing then SetWord(old(state.memory.contents), addr, val)
                else old(state.memory.contents)
    {
      hide M.Memory.Valid, ProofBytes, SetWord, Mips.HandleRd;
      if opcode == 0x38 && rtReg != 0 {
        state.registers[rtReg] := 1;
      }
      if storing {
        StoreWord(addr, val);
      }
      HandleRd(rdReg, val, true);
    }

    /** Loads and stores, opcode 0x20 and above: the load, the ALU, the store and the write-back. */
    method OperateOnWord(insn: Word, opcode: nat, rs0: Word, rt: Word) returns (ok: bool)
      requires Valid() && (memProofEnabled ==> lastMemAccess == NONE) && Paged(state.memory.contents)
      requires opcode == Opcode(insn) && opcode >= 0x20 && rs0 == state.registers[RsReg(insn)]
      requires rt == Operand(state.Cpu(), insn)
      modifies this`lastMemAccess, this`memProof, state`pc, state`nextPC, state.registers, state.memory.Repr()
      ensures Valid() && fresh(state.memory.Repr() - old(state.memory.Repr()))
      ensures memProofEnabled == old(memProofEnabled) && Steps(insn, ok)
    {
      hide M.Memory.Valid, ProofBytes, SetWord, WordAt, NextChunk, NextPreimage, SyscallOutput, StreamOk;
      hide Transition, DataAccess, Mips.HandleRd, ScFlag, Execute, SE, Opcode, Fun, Imm, AlignDown, Operand;
      var rs := Wrap(rs0 + SE(Imm(insn), 16));
      var addr := AlignDown(rs);
      AlignDownAligned(rs);
      var mem := LoadWord(addr);
      var storing := opcode >= 0x28 && opcode != 0x30;
      var rdReg := if storing then 0 else RtReg(insn);  // store opcodes don't write back to a register
      AluTransition(old(state.Cpu()), insn, mem, old(NextChunk()), rs, rdReg);
      var val := RunAlu(insn, rs, rt, mem);
      if val.Fault? {
        return false;
      }
      WriteBack(opcode, RtReg(insn), storing, addr, rdReg, val.value);
      ok := true;
    }

    /** Everything after the jumps and branches: loads and stores, the ALU, the special functions and the write-back. */
    method Operate(insn: Word, opcode: nat, rs: Word) returns (ok: bool)
      requires Valid() && (memProofEnabled ==> lastMemAccess == NONE) && Paged(state.memory.contents)
      requires IsSyscall(insn) ==> StreamOk(state.Cpu(), state.lastHint)
      requires opcode == Opcode(insn) && opcode != 1 && !(2 <= opcode < 8) && rs == state.registers[RsReg(insn)]
      modifies this, state, state.registers, state.memory.Repr()
      ensures Valid() && fresh(state.memory.Repr() - old(state.memory.Repr()))
      ensures memProofEnabled == old(memProofEnabled) && Steps(insn, ok)
    {
      hide M.Memory.Valid, ProofBytes, SetWord, WordAt, NextChunk, NextPreimage, SyscallOutput, StreamOk;
      hide Transition, DataAccess, IsSyscall, Mips.HandleRd, ScFlag, Execute, SE, Opcode, Fun, Imm, AlignDown;
      var rt := FetchOperand(insn, opcode);
      if opcode >= 0x20 {
        ok := OperateOnWord(insn, opcode, rs, rt);
        return;
      }
      var fun, rdReg := Fun(insn), if opcode == 0 || opcode == 0x1c then RdReg(insn) else RtReg(insn);
      AluTransition(state.Cpu(), insn, 0, NextChunk(), rs, rdReg);
      SpecialsExecute(insn, rs, rt, 0);
      var val := RunAlu(insn, rs, rt, 0);
      if val.Fault? {
        return false;
      }
      if opcode == 0 && 8 <= fun < 0x1c && fun != 0xf {
        ok := HandleSpecial(insn, fun, rs, rt);
        return;
      }
      WriteBack(opcode, RtReg(insn), false, 0, rdReg, val.value);
      ok := true;
    }

    method FetchOperand(insn: Word, opcode: nat) returns (rt: Word)
      requires state.registers.Length == 32 && opcode == Opcode(insn)
      ensures rt == Operand(state.Cpu(), insn)
    {
      if opcode == 0 || opcode == 0x1c {
        rt := state.registers[RtReg(insn)];
      } else if opcode < 0x20 {
        if opcode == 0xC || opcode == 0xD || opcode == 0xE {
          rt := Imm(insn);
        } else {
          rt := SE(Imm(insn), 16);
        }
      } else if opcode >= 0x28 || opcode == 0x22 || opcode == 0x26 {
        rt := state.registers[RtReg(insn)];
      } else {
        rt := 0;
      }
    }

    /** Decodes the instruction; jumps and branches are handled first. */
    method Dispatch(insn: Word) returns (ok: bool)
      requires Valid() && (memProofEnabled ==> lastMemAccess == NONE) && Paged(state.memory.contents)
      requires IsSyscall(insn) ==> StreamOk(state.Cpu(), state.lastHint)
      modifies this, state, state.registers, state.memory.Repr()
      ensures Valid() && fresh(state.memory.Repr() - old(state.memory.Repr()))
      ensures memProofEnabled == old(memProofEnabled) && Steps(insn, ok)
    {
      hide M.Memory.Valid, ProofBytes, SetWord, WordAt, NextChunk, NextPreimage, SyscallOutput, StreamOk;
      hide Mips.HandleJump, Mips.HandleRd, Mips.HandleHiLo, Mips.HandleSyscall, Mips.HandleBranch, HandleAlu, Execute;
      hide SE;
      var opcode := Opcode(insn);
      if opcode == 2 || opcode == 3 {
        var target := state.nextPC / 0x1000_0000 * 0x1000_0000 + insn % 0x400_0000 * 4;
        ok := HandleJump(if opcode == 3 then 31 else 0, target);
        return;
      }
      var rs := state.registers[RsReg(insn)];
      if 4 <= opcode < 8 || opcode == 1 {
        ok := HandleBranch(opcode, insn, RtReg(insn), rs);
        return;
      }
      ok := Operate(insn, opcode, rs);
    }

    /** The effect of a whole step on registers and memory. */
    twostate predicate Stepped(ok: bool)
      requires state.registers.Length == 32 && old(Paged(state.memory.contents))
      reads state, state.registers, state.memory
    {
      var r := FlatStep.Step(old(state.Cpu()), old(state.memory.contents), old(NextChunk()));
      && ok == r.Ok?
      && (ok ==> state.Cpu() == r.value.0 && state.memory.contents == r.value.1)
    }

    /** mipsStep: an exited VM stays as it is; otherwise count, fetch and dispatch. */
    method MipsStep() returns (ok: bool)
      requires Valid() && (memProofEnabled ==> lastMemAccess == NONE) && Paged(state.memory.contents)
      requires StepOk(state.Cpu(), state.memory.contents, state.lastHint)
      modifies this, state, state.registers, state.memory.Repr()
      ensures Valid() && fresh(state.memory.Repr() - old(state.memory.Repr()))
      ensures memProofEnabled == old(memProofEnabled) && Stepped(ok)
      ensures ok ==>
                && memProof == old(ProofFor(StepAccess(state.Cpu(), state.memory.contents)))
                && PreimageSeen(StepReads(old(state.Cpu()), old(state.memory.contents)))
                && Out() == StepOutput(old(Out()), old(state.Cpu()), old(state.memory.contents))
    {
      hide M.Memory.Valid, ProofBytes, SetWord, WordAt, SyscallOutput, StreamOk, Transition;
      if state.exited {
        return true;
      }
      state.step := (state.step + 1) % 0x1_0000_0000_0000_0000;
      if state.pc % 4 != 0 {
        return false;  // unaligned memory access
      }
      var insn := state.memory.GetMemory(state.pc);
      StepCounterUnseen(old(state.Cpu()), state.step, insn, Out(), state.memory.contents);
      label fetched:
      ok := Dispatch(insn);
    }

    /** The witness parts taken before the instruction runs. */
    method StartWitness() returns (wit: StepWitness)
      requires Valid()
      modifies state.memory`nodes, state.memory`hashed, state.memory.pages.Values
      ensures Valid()
      ensures wit == StepWitness(Contract.Encode(Root(state.memory.hash, state.memory.contents), state.Cpu()),
                                 ProofBytes(state.memory.hash, state.memory.contents, state.pc), ZERO_DIGEST, [], 0)
    {
      hide M.Memory.Valid, ProofBytes, Root, Contract.Encode;
      var insnProof := state.memory.MerkleProof(state.pc);
      var encoded := state.EncodeWitness();
      wit := StepWitness(encoded, insnProof, ZERO_DIGEST, [], 0);
    }

    /** The parts known after the instruction has run. */
    method FinishWitness(start: StepWitness) returns (wit: StepWitness)
      ensures wit == Finished(start, memProof, lastPreimageKey, lastPreimage, lastPreimageOffset)
    {
      wit := start.(memProof := start.memProof + memProof);
      if lastPreimageOffset != NONE {
        wit := wit.(preimageOffset := lastPreimageOffset, preimageKey := lastPreimageKey,
            preimageValue := lastPreimage);
      }
    }

    /** One instruction; with proof, also the witness to replay it: the state and the instruction's branch from before
        the step, the branch of the data word it touched, and the pre-image it read. */
    method Step(proof: bool) returns (wit: StepWitness, ok: bool)
      requires Valid() && Paged(state.memory.contents) && |memProof| == PROOF_LEN
      requires StepOk(state.Cpu(), state.memory.contents, state.lastHint)
      modifies this, state, state.registers, state.memory.Repr()
      ensures Valid() && fresh(state.memory.Repr() - old(state.memory.Repr()))
      ensures Stepped(ok)
      ensures ok ==> |memProof| == PROOF_LEN
      ensures ok ==> Cached() == StepCache(oracle, old(Cached()), old(state.Cpu()), old(state.memory.contents))
      ensures ok ==> Out() == StepOutput(old(Out()), old(state.Cpu()), old(state.memory.contents))
      ensures ok && proof ==>
                WitnessFor(wit, state.memory.hash, old(state.Cpu()), old(state.memory.contents), old(NextPreimage()))
    {
      hide M.Memory.Valid, ProofBytes, Root, StepOk, Contract.Encode, FlatStep.Step, StepAccess, StepReads, StepOutput;
      hide WitnessFor, Finished;
      memProofEnabled := proof;
      lastMemAccess := NONE;
      lastPreimageOffset := NONE;
      wit := StepWitness([], [], ZERO_DIGEST, [], 0);
      ghost var cpu, c := state.Cpu(), state.memory.contents;
      if proof {
        wit := StartWitness();
      }
      label ready:
      ok := MipsStep();
      if !ok {
        return;
      }
      if StepAccess(cpu, c).Access? {
        ProofBytesLength(state.memory.hash, c, StepAccess(cpu, c).addr);
      }
      if proof {
        FinishedIsWitness(wit, state.memory.hash, cpu, c, old(NextPreimage()), memProof, lastPreimageKey, lastPreimage,
            lastPreimageOffset);
        wit := FinishWitness(wit);
      }
    }
  }
}
