/** What a step hands over for its replay, and why that is enough (cannon/mipsevm/witness.go). */
module Witness {
  import opened Alu
  import opened Bytes
  import opened Merkle
  import opened FlatMemory
  import opened Mips
  import opened FlatStep
  import opened OnChainOracle
  import opened Sufficiency
  import Contract

  const NONE: Word := 0xFFFF_FFFF  // ^uint32(0): no memory access, no pre-image read

  datatype StepWitness = StepWitness(
    state: seq<Byte>, memProof: seq<Byte>,
    preimageKey: Digest,         // zero when no pre-image is read
    preimageValue: seq<Byte>,    // with its 8-byte length prefix
    preimageOffset: Word)
  {
    predicate HasPreimage() {
      preimageKey != ZERO_DIGEST
    }

    /** The on-chain oracle after the pre-image of the witness, if any, was loaded into it without its prefix; a
        reverted load leaves nothing. */
    function Loaded(): PartStore {
      if !HasPreimage() || !(8 <= |preimageValue| < 0x1_0000_0000_0000_0008) then NO_PARTS
      else
        match Load(NO_PARTS, preimageKey, preimageValue[8..], preimageOffset, [])
        case Ok(store) => store
        case Fault => NO_PARTS
    }

    function Oracle(): Contract.PreimageOracle {
      (key: Digest, offset: Word) => Delivered(ReadPreimage(Loaded(), key, offset))
    }
  }

  /** The step executes an instruction rather than staying put or faulting on the fetch. */
  predicate Executes(cpu: Cpu) {
    !cpu.exited && cpu.pc % 4 == 0
  }

  function StepAccess(cpu: Cpu, c: Contents): Access {
    if Executes(cpu) then DataAccess(cpu, WordAt(c, cpu.pc)) else NoAccess
  }

  predicate StepReads(cpu: Cpu, c: Contents) {
    Executes(cpu) && ReadsPreimage(cpu, WordAt(c, cpu.pc))
  }

  /** The witness of a step from this state, the length-prefixed pre-image at its key being `prefixed`. */
  ghost predicate WitnessFor(wit: StepWitness, h: Hash, cpu: Cpu, c: Contents, prefixed: seq<Byte>) {
    && wit.state == Contract.Encode(Root(h, c), cpu)
    && |wit.memProof| == 2 * PROOF_LEN
    && wit.memProof[..PROOF_LEN] == ProofBytes(h, c, cpu.pc)
    && ProvesAccess(h, c, StepAccess(cpu, c), wit.memProof[PROOF_LEN..])
    && if StepReads(cpu, c) && cpu.preimageOffset != NONE
       then wit.preimageKey == cpu.preimageKey && wit.preimageValue == prefixed
           && wit.preimageOffset == cpu.preimageOffset
       else wit.preimageKey == ZERO_DIGEST
  }

  /** The end of the assembly of a witness. */
  function Finished(start: StepWitness, memProof: seq<Byte>, key: Digest, value: seq<Byte>, offset: Word): StepWitness {
    if offset == NONE then start.(memProof := start.memProof + memProof)
    else StepWitness(start.state, start.memProof + memProof, key, value, offset)
  }

  lemma FinishedIsWitness(start: StepWitness, h: Hash, cpu: Cpu, c: Contents, prefixed: seq<Byte>,
                          memProof: seq<Byte>, key: Digest, value: seq<Byte>, offset: Word)
    requires start == StepWitness(Contract.Encode(Root(h, c), cpu), ProofBytes(h, c, cpu.pc), ZERO_DIGEST, [], 0)
    requires ProvesAccess(h, c, StepAccess(cpu, c), memProof)
    requires if StepReads(cpu, c) then key == cpu.preimageKey && value == prefixed && offset == cpu.preimageOffset
             else offset == NONE
    ensures WitnessFor(Finished(start, memProof, key, value, offset), h, cpu, c, prefixed)
  {
    hide Contract.Encode, Root, ProofBytes, StepAccess, StepReads;
    ProofBytesLength(h, c, cpu.pc);
    var wit := Finished(start, memProof, key, value, offset);
    assert wit.memProof[..PROOF_LEN] == start.memProof && wit.memProof[PROOF_LEN..] == memProof;
  }

  /** What the replay of a witness gives: the hash of a state, or a revert. */
  function Replay(h: Hash, wit: StepWitness): Outcome<Digest>
    requires |wit.state| == Contract.WITNESS_SIZE
  {
    Contract.Step(h, wit.state, wit.memProof, wit.Oracle())
  }

  /** The replay is the step over the flat memory, with the pre-image that the witness carries. */
  lemma ReplayIsStep(wit: StepWitness, h: Hash, cpu: Cpu, c: Contents, prefixed: seq<Byte>)
    requires Paged(c) && WitnessFor(wit, h, cpu, c, prefixed)
    ensures Replay(h, wit) == match FlatStep.Step(cpu, c, wit.Oracle()(cpu.preimageKey, cpu.preimageOffset))
                              case Ok(r) => Contract.StateHash(h, Contract.Encode(Root(h, r.1), r.0))
                              case Fault => Fault
  {
    hide Contract.Encode, Contract.StepState, Contract.StateHash, Contract.OutputState, Root, ProofBytes, FlatStep.Step;
    hide StepWitness.Oracle;
    Contract.DecodeEncoded(Root(h, c), cpu);
    assert wit.memProof == ProofBytes(h, c, cpu.pc) + wit.memProof[PROOF_LEN..];
    StepStateSufficient(h, c, cpu, wit.memProof[PROOF_LEN..], wit.Oracle());
    var result := FlatStep.Step(cpu, c, wit.Oracle()(cpu.preimageKey, cpu.preimageOffset));
    if result.Ok? {
      Contract.OutputIsStateHash(h, Root(h, result.value.1), result.value.0);
    }
  }

  /** A step that reads faults without a pre-image; one that does not read is the same with any. */
  lemma ChunkOfStep(cpu: Cpu, c: Contents, chunk: Outcome<seq<Byte>>)
    requires Paged(c)
    ensures StepReads(cpu, c) ==> FlatStep.Step(cpu, c, Fault).Fault?
    ensures !StepReads(cpu, c) ==> FlatStep.Step(cpu, c, chunk) == FlatStep.Step(cpu, c, Fault)
  {
    hide Transition, WordAt, SetWord, DataAccess;
    if Executes(cpu) {
      var cpu1 := cpu.(step := (cpu.step + 1) % 0x1_0000_0000_0000_0000);
      var insn := WordAt(c, cpu.pc);
      var mem := AccessedWord(c, DataAccess(cpu1, insn));
      if StepReads(cpu, c) {
        ReadFaults(cpu1, insn, mem);
      } else {
        ChunkIrrelevant(cpu1, insn, mem, chunk, Fault);
      }
    }
  }

  lemma ReadFaults(cpu: Cpu, insn: Word, mem: Word)
    requires ReadsPreimage(cpu, insn)
    ensures Transition(cpu, insn, mem, Fault).Fault?
  {
  }

  lemma WitnessSize(wit: StepWitness, h: Hash, cpu: Cpu, c: Contents, prefixed: seq<Byte>)
    requires WitnessFor(wit, h, cpu, c, prefixed)
    ensures |wit.state| == Contract.WITNESS_SIZE
  {
  }

  /** The chain can be given what the next pre-image read needs. */
  predicate Provable(cpu: Cpu, prefixed: seq<Byte>) {
    cpu.preimageOffset != NONE && Loadable(cpu.preimageKey, prefixed, cpu.preimageOffset)
  }

  /** A pre-image with its 8-byte length prefix, or nothing at all. */
  predicate IsPrefixed(prefixed: seq<Byte>) {
    prefixed == [] || (8 <= |prefixed| < 0x1_0000_0000_0000_0008 && prefixed == Prefixed(prefixed[8..]))
  }

  /** The oracle answers a reading step exactly when the witness carries its pre-image and the chain accepts it. */
  lemma OracleAnswers(wit: StepWitness, h: Hash, cpu: Cpu, c: Contents, prefixed: seq<Byte>)
    requires WitnessFor(wit, h, cpu, c, prefixed) && StepReads(cpu, c) && IsPrefixed(prefixed)
    ensures wit.Oracle()(cpu.preimageKey, cpu.preimageOffset)
         == if Provable(cpu, prefixed) then Chunk(prefixed, cpu.preimageOffset) else Fault
  {
    hide Contract.Encode, Root, ProofBytes, StepAccess, StepReads, Chunk, Load, ReadPreimage, Delivered, Prefixed;
    EmptyStore(cpu.preimageKey, cpu.preimageOffset);
    if wit.HasPreimage() && |prefixed| >= 8 {
      LoadsIff(NO_PARTS, cpu.preimageKey, prefixed[8..], cpu.preimageOffset, []);
      if Provable(cpu, prefixed) {
        LoadedReads(NO_PARTS, cpu.preimageKey, prefixed[8..], cpu.preimageOffset, []);
      }
    }
  }

  lemma EmptyStore(key: Digest, offset: nat)
    ensures Delivered(ReadPreimage(NO_PARTS, key, offset)).Fault?
  {
  }

  /** Witness sufficiency: a step that succeeds is replayed from its witness alone to the hash of the state after it,
      if and only if it reads no pre-image or one that the on-chain oracle can load there.  Otherwise the replay
      reverts. */
  lemma WitnessSuffices(wit: StepWitness, h: Hash, cpu: Cpu, c: Contents, prefixed: seq<Byte>)
    requires Paged(c) && WitnessFor(wit, h, cpu, c, prefixed) && IsPrefixed(prefixed)
    requires FlatStep.Step(cpu, c, Chunk(prefixed, cpu.preimageOffset)).Ok?
    ensures var r := FlatStep.Step(cpu, c, Chunk(prefixed, cpu.preimageOffset)).value;
            Replay(h, wit) == Contract.StateHash(h, Contract.Encode(Root(h, r.1), r.0))
            <==> (StepReads(cpu, c) ==> Provable(cpu, prefixed))
    ensures StepReads(cpu, c) && !Provable(cpu, prefixed) ==> Replay(h, wit).Fault?
  {
    hide WitnessFor, Replay, StepWitness.Oracle, Contract.Encode, Root, StepReads, FlatStep.Step, Chunk, Provable;
    hide IsPrefixed;
    WitnessSize(wit, h, cpu, c, prefixed);
    ReplayIsStep(wit, h, cpu, c, prefixed);
    ChunkOfStep(cpu, c, wit.Oracle()(cpu.preimageKey, cpu.preimageOffset));
    ChunkOfStep(cpu, c, Chunk(prefixed, cpu.preimageOffset));
    if StepReads(cpu, c) {
      OracleAnswers(wit, h, cpu, c, prefixed);
    }
  }

  const SYSCALL_INSN: Word := 0x0c

  /** About to read up to four bytes of the pre-image into address 4096. */
  function Reading(key: Digest, offset: Word): Cpu {
    var zeros: seq<Word> := ZERO_DIGEST;
    Cpu(key, offset, 0, 4, 0, 0, 0, 0, false, 0, zeros[2 := SYS_READ][4 := FD_PREIMAGE_READ][5 := 4096][6 := 4])
  }

  function ReadingMemory(): Contents {
    SetWord(map[], 0, SYSCALL_INSN)
  }

  ghost function ReadingWitness(h: Hash, key: Digest, offset: Word, prefixed: seq<Byte>): StepWitness {
    var cpu, c := Reading(key, offset), ReadingMemory();
    Finished(StepWitness(Contract.Encode(Root(h, c), cpu), ProofBytes(h, c, 0), ZERO_DIGEST, [], 0),
             ProofBytes(h, c, 4096), key, prefixed, offset)
  }

  /** This step reads a pre-image: the VM takes it exactly when the offset is within the pre-image, and delivers up to
      four bytes. */
  lemma ReadingStep(key: Digest, offset: Word, prefixed: seq<Byte>)
    ensures var cpu, c := Reading(key, offset), ReadingMemory();
            var r := FlatStep.Step(cpu, c, Chunk(prefixed, offset));
            && Paged(c) && StepReads(cpu, c) && (r.Ok? <==> offset <= |prefixed|)
            && (r.Ok? ==> r.value.0.registers[2] == Min(4, |prefixed| - offset))
  {
    hide SetWord, WordAt, MergeBytes;
    SetWordRead(map[], 0, SYSCALL_INSN, 0);
    SyscallDecodes();
  }

  lemma ReadingWitnessFor(h: Hash, key: Digest, offset: Word, prefixed: seq<Byte>)
    ensures var cpu, c := Reading(key, offset), ReadingMemory();
            WitnessFor(ReadingWitness(h, key, offset, prefixed), h, cpu, c, prefixed)
  {
    hide Contract.Encode, Root, ProofBytes, SetWord, WordAt;
    var cpu, c := Reading(key, offset), ReadingMemory();
    SetWordRead(map[], 0, SYSCALL_INSN, 0);
    SyscallDecodes();
    ProofBytesLength(h, c, 4096);
    FinishedIsWitness(StepWitness(Contract.Encode(Root(h, c), cpu), ProofBytes(h, c, 0), ZERO_DIGEST, [], 0),
                      h, cpu, c, prefixed, ProofBytes(h, c, 4096), key, prefixed, offset);
  }

  lemma SyscallDecodes()
    ensures IsSyscall(SYSCALL_INSN)
  {
  }

  /** Failing inputs: reading any keccak256 pre-image once more after its last byte. */
  lemma EndOfPreimageReverts(h: Hash, key: Digest, value: Preimage)
    requires key[0] == KECCAK256_KEY && |value| < NONE - 8
    ensures var prefixed, offset := Prefixed(value), 8 + |value|;
            var cpu, c := Reading(key, offset), ReadingMemory();
            && FlatStep.Step(cpu, c, Chunk(prefixed, offset)).Ok?
            && Replay(h, ReadingWitness(h, key, offset, prefixed)).Fault?
  {
    hide Contract.Encode, Root, ProofBytes, SetWord, WordAt, Replay, WitnessFor, StepReads, FlatStep.Step, Finished;
    var prefixed, offset := Prefixed(value), 8 + |value|;
    ReadingStep(key, offset, prefixed);
    ReadingWitnessFor(h, key, offset, prefixed);
    WitnessSuffices(ReadingWitness(h, key, offset, prefixed), h, Reading(key, offset), ReadingMemory(), prefixed);
  }

  /** A failing input: a pre-image read with the zero key, which the VM serves if its oracle does. */
  lemma ZeroKeyReverts(h: Hash, value: Preimage)
    ensures var cpu, c := Reading(ZERO_DIGEST, 0), ReadingMemory();
            && FlatStep.Step(cpu, c, Chunk(Prefixed(value), 0)).Ok?
            && Replay(h, ReadingWitness(h, ZERO_DIGEST, 0, Prefixed(value))).Fault?
  {
    hide Contract.Encode, Root, ProofBytes, SetWord, WordAt, Replay, WitnessFor, StepReads, FlatStep.Step, Finished;
    ReadingStep(ZERO_DIGEST, 0, Prefixed(value));
    ReadingWitnessFor(h, ZERO_DIGEST, 0, Prefixed(value));
    WitnessSuffices(ReadingWitness(h, ZERO_DIGEST, 0, Prefixed(value)), h, Reading(ZERO_DIGEST, 0), ReadingMemory(),
                    Prefixed(value));
  }
}
