/** Whole runs of the instrumented VM: every step of a run can be replayed on chain, each replay ending where the
    next one starts. */
module VmRun {
  import opened Alu
  import opened Bits
  import opened Bytes
  import opened Merkle
  import opened FlatMemory
  import opened Mips
  import opened FlatStep
  import opened Hints
  import opened Witness
  import opened Instrumented
  import opened PreimageCache
  import Contract
  import M = Memory
  import S = State

  /** Registers, flat memory, output and the pre-image cache: what a run does, the caches of the memory left out. */
  datatype Machine = Machine(cpu: Cpu, contents: Contents, out: Output, cache: Cache)

  function NextChunk(oracle: Oracle, cache: Cache, cpu: Cpu): Outcome<seq<Byte>> {
    Chunk(Seen(oracle, cache, cpu.preimageKey), cpu.preimageOffset)
  }

  function Next(oracle: Oracle, s: Machine): (r: Outcome<Machine>)
    requires Paged(s.contents)
    ensures r.Ok? ==> Paged(r.value.contents)
  {
    var r :- FlatStep.Step(s.cpu, s.contents, NextChunk(oracle, s.cache, s.cpu));
    Ok(Machine(r.0, r.1, StepOutput(s.out, s.cpu, s.contents), StepCache(oracle, s.cache, s.cpu, s.contents)))
  }

  /** The machine after n steps; a panic ends the run. */
  function After(oracle: Oracle, s: Machine, n: nat): (r: Outcome<Machine>)
    requires Paged(s.contents)
    ensures r.Ok? ==> Paged(r.value.contents)
  {
    if n == 0 then Ok(s)
    else
      var before :- After(oracle, s, n - 1);
      Next(oracle, before)
  }

  lemma {:induction false} StaysFaulted(oracle: Oracle, s: Machine, i: nat, n: nat)
    requires Paged(s.contents) && i <= n && After(oracle, s, i).Fault?
    ensures After(oracle, s, n).Fault?
  {
    hide Next;
    if i < n {
      StaysFaulted(oracle, s, i, n - 1);
    }
  }

  /** No step of the run writes out a range that comes back to its first page. */
  ghost predicate RunOk(oracle: Oracle, s: Machine, n: nat)
    requires Paged(s.contents)
  {
    forall i: nat {:trigger After(oracle, s, i)} | i < n && After(oracle, s, i).Ok? ::
      var s' := After(oracle, s, i).value;
      StepOk(s'.cpu, s'.contents, s'.out.pending)
  }

  /** The pre-image the step reads, if any, can be loaded on chain. */
  predicate OnChain(oracle: Oracle, s: Machine) {
    StepReads(s.cpu, s.contents) ==> Provable(s.cpu, Seen(oracle, s.cache, s.cpu.preimageKey))
  }

  ghost function MachineOf(m: InstrumentedState): Machine
    requires m.state.registers.Length == 32
    reads m, m.state, m.state.registers, m.state.memory
  {
    Machine(m.state.Cpu(), m.state.memory.contents, m.Out(), m.Cached())
  }

  ghost predicate ReplaysTo(h: Hash, wit: StepWitness, encoded: seq<Byte>) {
    |wit.state| == Contract.WITNESS_SIZE && Replay(h, wit) == Contract.StateHash(h, encoded)
  }

  /** Step i of the run starts from state i, and its witness replays to the hash of state i + 1 exactly when the chain
      can be given what the step reads. */
  ghost predicate WitnessOf(h: Hash, oracle: Oracle, s: Machine, i: nat, wit: StepWitness)
    requires Paged(s.contents)
  {
    && After(oracle, s, i).Ok? && After(oracle, s, i + 1).Ok?
    && wit.state == Encoded(h, After(oracle, s, i).value)
    && (ReplaysTo(h, wit, Encoded(h, After(oracle, s, i + 1).value)) <==> OnChain(oracle, After(oracle, s, i).value))
  }

  ghost predicate WitnessesOf(h: Hash, oracle: Oracle, s: Machine, wits: seq<StepWitness>)
    requires Paged(s.contents)
  {
    forall i: nat {:trigger wits[i]} | i < |wits| :: WitnessOf(h, oracle, s, i, wits[i])
  }

  /** The state that the witness after witness j starts from, or `last`. */
  function StartAfter(wits: seq<StepWitness>, j: nat, last: seq<Byte>): seq<Byte> {
    if j + 1 < |wits| then wits[j + 1].state else last
  }

  /** The witnesses chain: each replays to the hash of the state the next one starts from, the last one to `last`. */
  ghost predicate Chained(h: Hash, wits: seq<StepWitness>, last: seq<Byte>) {
    forall j: nat {:trigger wits[j]} | j < |wits| :: ReplaysTo(h, wits[j], StartAfter(wits, j, last))
  }

  /** Every pre-image the run reads can be loaded on chain. */
  ghost predicate RunOnChain(oracle: Oracle, s: Machine, n: nat)
    requires Paged(s.contents)
  {
    forall i: nat {:trigger After(oracle, s, i)} | i < n && After(oracle, s, i).Ok? ::
        OnChain(oracle, After(oracle, s, i).value)
  }

  lemma LinkOfRun(h: Hash, oracle: Oracle, s: Machine, wits: seq<StepWitness>, i: nat)
    requires Paged(s.contents) && WitnessesOf(h, oracle, s, wits) && After(oracle, s, |wits|).Ok? && i < |wits|
    ensures After(oracle, s, i).Ok?
    ensures ReplaysTo(h, wits[i], StartAfter(wits, i, Encoded(h, After(oracle, s, |wits|).value)))
       <==> OnChain(oracle, After(oracle, s, i).value)
  {
    hide ReplaysTo, Encoded, OnChain, After;
    assert WitnessOf(h, oracle, s, i, wits[i]);
    if i + 1 < |wits| {
      assert WitnessOf(h, oracle, s, i + 1, wits[i + 1]);
    }
  }

  /** The witnesses of a run chain exactly when every pre-image it reads can be loaded on chain. */
  lemma ChainOfRun(h: Hash, oracle: Oracle, s: Machine, wits: seq<StepWitness>)
    requires Paged(s.contents) && WitnessesOf(h, oracle, s, wits) && After(oracle, s, |wits|).Ok?
    ensures Chained(h, wits, Encoded(h, After(oracle, s, |wits|).value)) <==> RunOnChain(oracle, s, |wits|)
  {
    hide ReplaysTo, Encoded, OnChain, After, WitnessesOf, StartAfter;
    var last := Encoded(h, After(oracle, s, |wits|).value);
    if RunOnChain(oracle, s, |wits|) {
      forall j: nat | j < |wits| ensures ReplaysTo(h, wits[j], StartAfter(wits, j, last)) {
        LinkOfRun(h, oracle, s, wits, j);
      }
    }
    if Chained(h, wits, last) {
      forall i: nat | i < |wits| ensures After(oracle, s, i).Ok? && OnChain(oracle, After(oracle, s, i).value) {
        LinkOfRun(h, oracle, s, wits, i);
        assert ReplaysTo(h, wits[i], StartAfter(wits, i, last));
      }
    }
  }

  ghost function Encoded(h: Hash, s: Machine): seq<Byte> {
    Contract.Encode(Root(h, s.contents), s.cpu)
  }

  lemma SeenIsPrefixed(oracle: Oracle, cache: Cache, key: Digest)
    requires CacheOk(oracle, cache)
    ensures IsPrefixed(Seen(oracle, cache, key))
  {
    assert Prefixed(oracle(key))[8..] == oracle(key);
  }

  lemma StepCacheOk(oracle: Oracle, cache: Cache, cpu: Cpu, c: Contents)
    requires CacheOk(oracle, cache)
    ensures CacheOk(oracle, StepCache(oracle, cache, cpu, c))
  {
    hide StepReads;
    FetchedAgain(oracle, cache, cpu.preimageKey);
  }

  /** One step of a run, with its witness. */
  method StepReplayable(m: InstrumentedState) returns (wit: StepWitness, ok: bool)
    requires m.Valid() && |m.memProof| == PROOF_LEN && Paged(m.state.memory.contents) && CacheOk(m.oracle, m.Cached())
    requires StepOk(m.state.Cpu(), m.state.memory.contents, m.state.lastHint)
    modifies m, m.state, m.state.registers, m.state.memory.Repr()
    ensures m.Valid() && fresh(m.state.memory.Repr() - old(m.state.memory.Repr()))
    ensures ok == Next(m.oracle, old(MachineOf(m))).Ok?
    ensures ok ==>
              && |m.memProof| == PROOF_LEN && CacheOk(m.oracle, m.Cached())
              && MachineOf(m) == Next(m.oracle, old(MachineOf(m))).value
              && wit.state == Encoded(m.state.memory.hash, old(MachineOf(m)))
              && (ReplaysTo(m.state.memory.hash, wit, Encoded(m.state.memory.hash, MachineOf(m)))
                  <==> OnChain(m.oracle, old(MachineOf(m))))
  {
    hide M.Memory.Valid, FlatStep.Step, StepOk, StepReads, StepOutput, Contract.Encode, Contract.StateHash, Root;
    hide Seen, StepCache, Replay, Provable, CacheOk, IsPrefixed;
    ghost var s, prefixed := MachineOf(m), m.NextPreimage();
    SeenIsPrefixed(m.oracle, s.cache, s.cpu.preimageKey);
    StepCacheOk(m.oracle, s.cache, s.cpu, s.contents);
    wit, ok := m.Step(true);
    if ok {
      WitnessSuffices(wit, m.state.memory.hash, s.cpu, s.contents, prefixed);
    }
  }

  /** n steps: the machine is where n flat steps lead, and each step leaves its witness. */
  method Run(m: InstrumentedState, n: nat) returns (wits: seq<StepWitness>, ok: bool)
    requires m.Valid() && |m.memProof| == PROOF_LEN && Paged(m.state.memory.contents) && CacheOk(m.oracle, m.Cached())
    requires RunOk(m.oracle, MachineOf(m), n)
    modifies m, m.state, m.state.registers, m.state.memory.Repr()
    ensures ok == After(m.oracle, old(MachineOf(m)), n).Ok?
    ensures ok ==> m.Valid() && MachineOf(m) == After(m.oracle, old(MachineOf(m)), n).value
    ensures ok ==> |wits| == n && WitnessesOf(m.state.memory.hash, m.oracle, old(MachineOf(m)), wits)
    ensures ok ==> (Chained(m.state.memory.hash, wits, Encoded(m.state.memory.hash, MachineOf(m)))
                    <==> RunOnChain(m.oracle, old(MachineOf(m)), n))
  {
    hide M.Memory.Valid, Next, StepOk, CacheOk, Chained, ReplaysTo, Encoded, OnChain, RunOnChain;
    ghost var s := MachineOf(m);
    wits := [];
    for i := 0 to n
      invariant m.Valid() && |m.memProof| == PROOF_LEN && Paged(m.state.memory.contents)
      invariant CacheOk(m.oracle, m.Cached())
      invariant fresh(m.state.memory.Repr() - old(m.state.memory.Repr()))
      invariant After(m.oracle, s, i) == Ok(MachineOf(m))
      invariant |wits| == i && WitnessesOf(m.state.memory.hash, m.oracle, s, wits)
    {
      var wit;
      wit, ok := StepReplayable(m);
      if !ok {
        StaysFaulted(m.oracle, s, i + 1, n);
        return;
      }
      assert WitnessOf(m.state.memory.hash, m.oracle, s, i, wit);
      wits := wits + [wit];
    }
    ok := true;
    ChainOfRun(m.state.memory.hash, m.oracle, s, wits);
  }

  /** The bytes a step writes to the hint channel. */
  function HintBytes(s: Machine): seq<Byte> {
    if Executes(s.cpu) && IsSyscall(WordAt(s.contents, s.cpu.pc)) && IsStreamWrite(s.cpu)
        && s.cpu.registers[4] == FD_HINT_WRITE
    then RangeBytes(s.contents, s.cpu.registers[5], s.cpu.registers[6]) else []
  }

  function HintStream(oracle: Oracle, s: Machine, n: nat): seq<Byte>
    requires Paged(s.contents) && After(oracle, s, n).Ok?
  {
    if n == 0 then [] else HintStream(oracle, s, n - 1) + HintBytes(After(oracle, s, n - 1).value)
  }

  lemma HintsOfStep(oracle: Oracle, s: Machine)
    requires Paged(s.contents) && Next(oracle, s).Ok? && !Complete(s.out.pending)
    ensures var out := Next(oracle, s).value.out;
            var parsed := Parse(s.out.pending + HintBytes(s));
            out.hints == s.out.hints + parsed.hints && out.pending == parsed.rest && !Complete(out.pending)
  {
    hide FlatStep.Step, WordAt, RangeBytes, Parse, Complete;
    RestIncomplete(s.out.pending + HintBytes(s));
    if HintBytes(s) == [] {
      assert s.out.pending + HintBytes(s) == s.out.pending;
      ParseIncomplete(s.out.pending);
    }
  }

  /** The hints of a run are those in the concatenation of everything written to the hint channel, however the program
      splits its writes. */
  lemma {:induction false} HintsOfRun(oracle: Oracle, s: Machine, n: nat)
    requires Paged(s.contents) && After(oracle, s, n).Ok? && !Complete(s.out.pending)
    ensures var out := After(oracle, s, n).value.out;
            var parsed := Parse(s.out.pending + HintStream(oracle, s, n));
            out.hints == s.out.hints + parsed.hints && out.pending == parsed.rest && !Complete(out.pending)
  {
    hide Next, HintBytes, Parse, Complete;
    if n == 0 {
      assert s.out.pending + HintStream(oracle, s, n) == s.out.pending;
      ParseIncomplete(s.out.pending);
    } else {
      var before := After(oracle, s, n - 1).value;
      HintsOfRun(oracle, s, n - 1);
      HintsOfStep(oracle, before);
      ParseSplit(s.out.pending + HintStream(oracle, s, n - 1), HintBytes(before));
      assert s.out.pending + HintStream(oracle, s, n)
               == s.out.pending + HintStream(oracle, s, n - 1) + HintBytes(before);
    }
  }

  /** What an instruction leaves in the pre-image cache. */
  function CacheAfter(oracle: Oracle, cache: Cache, cpu: Cpu, insn: Word): Cache {
    if ReadsPreimage(cpu, insn) then Fetched(oracle, cache, cpu.preimageKey) else cache
  }

  /** The cache is consistent, and the offset lies within the length-prefixed pre-image of the current key. */
  predicate OffsetInBounds(oracle: Oracle, cache: Cache, cpu: Cpu) {
    CacheOk(oracle, cache) && cpu.preimageOffset <= |Prefixed(oracle(cpu.preimageKey))|
  }

  /** The next read is served by the oracle, or starts at offset 0. */
  predicate ReadSafe(cache: Cache, cpu: Cpu) {
    IsServed(cache, cpu.preimageKey) || cpu.preimageOffset == 0
  }

  lemma OffsetSyscall(oracle: Oracle, cache: Cache, cpu: Cpu, mem: Word)
    requires OffsetInBounds(oracle, cache, cpu)
    ensures IsPreimageRead(cpu) ==>
              (HandleSyscall(cpu, mem, NextChunk(oracle, cache, cpu)).Ok? <==> ReadSafe(cache, cpu))
    ensures var r := HandleSyscall(cpu, mem, NextChunk(oracle, cache, cpu));
            var cache' := if IsPreimageRead(cpu) then Fetched(oracle, cache, cpu.preimageKey) else cache;
            r.Ok? ==>
              OffsetInBounds(oracle, cache', r.value.0) && (ReadSafe(cache, cpu) ==> ReadSafe(cache', r.value.0))
  {
    hide Prefixed, MergeBytes, ShiftKey, Wrap, Seen, Fetched, CacheOk;
    SeenIsServed(oracle, cache, cpu.preimageKey);
    FetchedAgain(oracle, cache, cpu.preimageKey);
    if IsPreimageRead(cpu) && NextChunk(oracle, cache, cpu).Ok? {
      var dat := NextChunk(oracle, cache, cpu).value;
      WrapAtMost(cpu.preimageOffset + ReadLength(cpu.registers[5], cpu.registers[6], |dat|));
    }
  }

  lemma WrapAtMost(x: nat)
    ensures Wrap(x) <= x
  {
  }

  /** Only syscalls touch the pre-image registers. */
  lemma PreimageKept(cpu: Cpu, insn: Word, mem: Word, chunk: Outcome<seq<Byte>>)
    requires !IsSyscall(insn) && Transition(cpu, insn, mem, chunk).Ok?
    ensures Transition(cpu, insn, mem, chunk).value.0.preimageKey == cpu.preimageKey
    ensures Transition(cpu, insn, mem, chunk).value.0.preimageOffset == cpu.preimageOffset
  {
    hide Execute, SE, HiLo, HandleSyscall, AlignDown;
  }

  lemma SyscallTransition(cpu: Cpu, insn: Word, mem: Word, chunk: Outcome<seq<Byte>>)
    requires IsSyscall(insn)
    ensures Transition(cpu, insn, mem, chunk) == HandleSyscall(cpu, mem, chunk)
  {
    hide HandleSyscall;
  }

  lemma OffsetStep(oracle: Oracle, cache: Cache, cpu: Cpu, insn: Word, mem: Word)
    requires OffsetInBounds(oracle, cache, cpu)
    ensures ReadsPreimage(cpu, insn) ==>
              (Transition(cpu, insn, mem, NextChunk(oracle, cache, cpu)).Ok? <==> ReadSafe(cache, cpu))
    ensures var r := Transition(cpu, insn, mem, NextChunk(oracle, cache, cpu));
            var cache' := CacheAfter(oracle, cache, cpu, insn);
            r.Ok? ==>
              OffsetInBounds(oracle, cache', r.value.0) && (ReadSafe(cache, cpu) ==> ReadSafe(cache', r.value.0))
  {
    hide Transition, HandleSyscall, NextChunk, Prefixed, Fetched, CacheOk, IsServed;
    var chunk := NextChunk(oracle, cache, cpu);
    if IsSyscall(insn) {
      SyscallTransition(cpu, insn, mem, chunk);
      OffsetSyscall(oracle, cache, cpu, mem);
    } else if Transition(cpu, insn, mem, chunk).Ok? {
      PreimageKept(cpu, insn, mem, chunk);
    }
  }

  lemma OffsetOfStep(oracle: Oracle, s: Machine)
    requires Paged(s.contents) && OffsetInBounds(oracle, s.cache, s.cpu)
    ensures Next(oracle, s).Ok? ==>
              var s' := Next(oracle, s).value;
              OffsetInBounds(oracle, s'.cache, s'.cpu) && (ReadSafe(s.cache, s.cpu) ==> ReadSafe(s'.cache, s'.cpu))
    ensures StepReads(s.cpu, s.contents) ==> (Next(oracle, s).Ok? <==> ReadSafe(s.cache, s.cpu))
  {
    hide Transition, WordAt, DataAccess, SetWord, ReadsPreimage, Prefixed, Chunk, StepOutput, Fetched, CacheOk;
    hide IsServed;
    if Executes(s.cpu) {
      var cpu := s.cpu.(step := (s.cpu.step + 1) % 0x1_0000_0000_0000_0000);
      var insn := WordAt(s.contents, cpu.pc);
      OffsetStep(oracle, s.cache, cpu, insn, AccessedWord(s.contents, DataAccess(cpu, insn)));
      StepCounterUnseen(s.cpu, cpu.step, insn, s.out, s.contents);
    }
  }

  /** In a whole run the offset never passes the end of the pre-image.  A step that reads one panics exactly when it
      asks under the zero key at a positive offset before any pre-image was fetched; and once that is ruled out, it
      stays so. */
  lemma {:induction false} OffsetOfRun(oracle: Oracle, s: Machine, n: nat)
    requires Paged(s.contents) && OffsetInBounds(oracle, s.cache, s.cpu) && After(oracle, s, n).Ok?
    ensures var s' := After(oracle, s, n).value;
            && OffsetInBounds(oracle, s'.cache, s'.cpu)
            && (StepReads(s'.cpu, s'.contents) ==> (Next(oracle, s').Ok? <==> ReadSafe(s'.cache, s'.cpu)))
            && (ReadSafe(s.cache, s.cpu) ==> ReadSafe(s'.cache, s'.cpu))
  {
    hide Next, OffsetInBounds, ReadSafe, StepReads;
    if n > 0 {
      OffsetOfRun(oracle, s, n - 1);
      OffsetOfStep(oracle, After(oracle, s, n - 1).value);
    }
    OffsetOfStep(oracle, After(oracle, s, n).value);
  }

  /** A run from a new VM at offset 0, or from one that has fetched a pre-image, never panics on a pre-image read. */
  lemma ReadsNeverPanic(oracle: Oracle, s: Machine, n: nat)
    requires Paged(s.contents) && OffsetInBounds(oracle, s.cache, s.cpu) && ReadSafe(s.cache, s.cpu)
    requires After(oracle, s, n).Ok? && StepReads(After(oracle, s, n).value.cpu, After(oracle, s, n).value.contents)
    ensures After(oracle, s, n + 1).Ok?
  {
    hide Next, OffsetInBounds, ReadSafe, StepReads;
    OffsetOfRun(oracle, s, n);
  }

  /** The step of a VM that asks the oracle for every read. */
  function Asking(oracle: Oracle, s: Machine): (r: Outcome<Machine>)
    requires Paged(s.contents)
    ensures r.Ok? ==> Paged(r.value.contents)
  {
    var prefixed := Prefixed(oracle(s.cpu.preimageKey));
    var r :- FlatStep.Step(s.cpu, s.contents, Chunk(prefixed, s.cpu.preimageOffset));
    Ok(Machine(r.0, r.1, StepOutput(s.out, s.cpu, s.contents),
               if StepReads(s.cpu, s.contents) then Cache(s.cpu.preimageKey, prefixed) else s.cache))
  }

  function AfterAsking(oracle: Oracle, s: Machine, n: nat): (r: Outcome<Machine>)
    requires Paged(s.contents)
    ensures r.Ok? ==> Paged(r.value.contents)
  {
    if n == 0 then Ok(s)
    else
      var before :- AfterAsking(oracle, s, n - 1);
      Asking(oracle, before)
  }

  predicate StepServed(s: Machine) {
    StepReads(s.cpu, s.contents) ==> IsServed(s.cache, s.cpu.preimageKey)
  }

  /** The cache goes unnoticed in a step exactly when the step's read is served. */
  lemma CacheUnnoticed(oracle: Oracle, s: Machine)
    requires Paged(s.contents) && OffsetInBounds(oracle, s.cache, s.cpu)
    ensures Next(oracle, s) == Asking(oracle, s) <==> StepServed(s)
  {
    hide FlatStep.Step, StepReads, StepOutput, Prefixed, Chunk;
    var prefixed := Prefixed(oracle(s.cpu.preimageKey));
    SeenIsServed(oracle, s.cache, s.cpu.preimageKey);
    if !StepReads(s.cpu, s.contents) {
      ChunkOfStep(s.cpu, s.contents, NextChunk(oracle, s.cache, s.cpu));
      ChunkOfStep(s.cpu, s.contents, Chunk(prefixed, s.cpu.preimageOffset));
    } else if !StepServed(s) {
      ReadInBounds(s.cpu, s.contents, prefixed);
    }
  }

  /** A read within a pre-image succeeds. */
  lemma ReadInBounds(cpu: Cpu, c: Contents, prefixed: seq<Byte>)
    requires Paged(c) && StepReads(cpu, c) && cpu.preimageOffset <= |prefixed|
    ensures FlatStep.Step(cpu, c, Chunk(prefixed, cpu.preimageOffset)).Ok?
  {
    hide WordAt, SetWord, AlignDown, MergeBytes;
  }

  /** A run whose reads are served is the run of a VM without the cache; so is every run of a VM that has fetched a
      pre-image before. */
  lemma {:induction false} RunAsks(oracle: Oracle, s: Machine, n: nat)
    requires Paged(s.contents) && OffsetInBounds(oracle, s.cache, s.cpu)
    requires s.cache != UNUSED
          || forall i: nat {:trigger After(oracle, s, i)} | i < n && After(oracle, s, i).Ok? ::
               StepServed(After(oracle, s, i).value)
    ensures AfterAsking(oracle, s, n) == After(oracle, s, n)
    ensures s.cache != UNUSED && After(oracle, s, n).Ok? ==> After(oracle, s, n).value.cache != UNUSED
  {
    hide Next, Asking, OffsetInBounds, StepServed;
    if n > 0 {
      RunAsks(oracle, s, n - 1);
      if After(oracle, s, n - 1).Ok? {
        var before := After(oracle, s, n - 1).value;
        OffsetOfRun(oracle, s, n - 1);
        if s.cache != UNUSED {
          StaysFetched(oracle, before);
        }
        CacheUnnoticed(oracle, before);
      }
    }
  }

  lemma StaysFetched(oracle: Oracle, s: Machine)
    requires Paged(s.contents) && OffsetInBounds(oracle, s.cache, s.cpu) && s.cache != UNUSED
    ensures StepServed(s) && (Next(oracle, s).Ok? ==> Next(oracle, s).value.cache != UNUSED)
  {
    hide FlatStep.Step, StepReads, StepOutput, Fetched;
    FetchedAgain(oracle, s.cache, s.cpu.preimageKey);
  }

  /** The zero key on a new VM: at offset 0 a read delivers nothing where the oracle has bytes, and at offset 4, within
      the pre-image, it panics. */
  lemma FreshZeroKey(oracle: Oracle, out: Output)
    ensures var s := Machine(Reading(ZERO_DIGEST, 0), ReadingMemory(), out, UNUSED);
            && Paged(s.contents) && Next(oracle, s).Ok? && Next(oracle, s).value.cpu.registers[2] == 0
            && Asking(oracle, s).Ok? && Asking(oracle, s).value.cpu.registers[2] == 4
    ensures var s := Machine(Reading(ZERO_DIGEST, 4), ReadingMemory(), out, UNUSED);
            && OffsetInBounds(oracle, s.cache, s.cpu) && Next(oracle, s).Fault? && Asking(oracle, s).Ok?
  {
    hide FlatStep.Step, StepReads, StepOutput, ReadingMemory, Chunk;
    ReadingStep(ZERO_DIGEST, 0, []);
    ReadingStep(ZERO_DIGEST, 0, Prefixed(oracle(ZERO_DIGEST)));
    ReadingStep(ZERO_DIGEST, 4, []);
    ReadingStep(ZERO_DIGEST, 4, Prefixed(oracle(ZERO_DIGEST)));
  }

  /** The same on the VM itself: whatever the oracle has under the zero key, the first read of a new VM delivers
      nothing at offset 0 and panics at every other offset. */
  method FirstReadZeroKey(state: S.State, oracle: Oracle, offset: Word) returns (m: InstrumentedState, ok: bool)
    requires state.Valid() && state.Cpu() == Reading(ZERO_DIGEST, offset) && state.memory.contents == ReadingMemory()
    modifies state, state.registers, state.memory.Repr()
    ensures ok <==> offset == 0
    ensures ok ==> state.registers.Length == 32 && state.registers[2] == 0
  {
    hide M.Memory.Valid, FlatStep.Step, StepReads, StepOutput, ReadingMemory, Chunk, WordAt;
    ReadingStep(ZERO_DIGEST, offset, []);
    m := new InstrumentedState(state, oracle);
    var wit;
    wit, ok := m.Step(false);
    assert ok ==> state.Cpu().registers[2] == state.registers[2];
  }

  lemma SyscallKeepsZero(cpu: Cpu, mem: Word, chunk: Outcome<seq<Byte>>)
    requires cpu.registers[0] == 0 && HandleSyscall(cpu, mem, chunk).Ok?
    ensures var cpu' := HandleSyscall(cpu, mem, chunk).value.0; cpu'.registers[0] == 0 && cpu'.step == cpu.step
  {
    hide MergeBytes, ShiftKey;
  }

  /** One instruction leaves register 0 and the step counter alone. */
  lemma ZeroRegisterStep(cpu: Cpu, insn: Word, mem: Word, chunk: Outcome<seq<Byte>>)
    requires cpu.registers[0] == 0 && Transition(cpu, insn, mem, chunk).Ok?
    ensures Transition(cpu, insn, mem, chunk).value.0.registers[0] == 0
    ensures Transition(cpu, insn, mem, chunk).value.0.step == cpu.step
  {
    hide Execute, SE, HiLo, AlignDown, HandleSyscall;
    if IsSyscall(insn) {
      SyscallKeepsZero(cpu, mem, chunk);
    }
  }

  lemma ZeroRegisterNext(oracle: Oracle, s: Machine)
    requires Paged(s.contents) && s.cpu.registers[0] == 0 && Next(oracle, s).Ok?
    ensures var s' := Next(oracle, s).value;
            && s'.cpu.registers[0] == 0
            && (s.cpu.exited ==> s' == s)
            && (!s.cpu.exited ==> s'.cpu.step == (s.cpu.step + 1) % 0x1_0000_0000_0000_0000)
  {
    hide Transition, WordAt, DataAccess, SetWord, NextChunk, SyscallOutput;
    if Executes(s.cpu) {
      var cpu := s.cpu.(step := (s.cpu.step + 1) % 0x1_0000_0000_0000_0000);
      var insn := WordAt(s.contents, cpu.pc);
      ZeroRegisterStep(cpu, insn, AccessedWord(s.contents, DataAccess(cpu, insn)), NextChunk(oracle, s.cache, s.cpu));
    }
  }

  /** In every run register 0 stays zero, an exited machine does not change any more, and the step counter counts the
      steps that were taken before the exit. */
  lemma {:induction false} RunInvariants(oracle: Oracle, s: Machine, n: nat)
    requires Paged(s.contents) && s.cpu.registers[0] == 0 && After(oracle, s, n).Ok?
    ensures var s' := After(oracle, s, n).value;
            && s'.cpu.registers[0] == 0
            && (!s'.cpu.exited ==> s'.cpu.step == (s.cpu.step + n) % 0x1_0000_0000_0000_0000)
            && (n > 0 && After(oracle, s, n - 1).value.cpu.exited ==> s' == After(oracle, s, n - 1).value)
  {
    hide Next;
    if n > 0 {
      RunInvariants(oracle, s, n - 1);
      ZeroRegisterNext(oracle, After(oracle, s, n - 1).value);
      CountOn(s.cpu.step, n);
    } else {
      CountNone(s.cpu.step);
    }
  }

  lemma CountOn(step: DWord, n: nat)
    requires n > 0
    ensures ((step + (n - 1)) % 0x1_0000_0000_0000_0000 + 1) % 0x1_0000_0000_0000_0000
              == (step + n) % 0x1_0000_0000_0000_0000
  {
    var m, x := 0x1_0000_0000_0000_0000, step + (n - 1);
    var q, r := x / m, x % m;
    if r + 1 < m {
      QuotientUnique(x + 1, m, q, r + 1);
    } else {
      QuotientUnique(x + 1, m, q + 1, 0);
    }
  }

  lemma CountNone(step: DWord)
    ensures (step + 0) % 0x1_0000_0000_0000_0000 == step
  {
  }
}
