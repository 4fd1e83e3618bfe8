/** The witness of a step is enough to replay it on chain. */
module Sufficiency {
  import opened Alu
  import opened Bits
  import opened Bytes
  import opened Merkle
  import opened FlatMemory
  import opened Mips
  import opened FlatStep
  import opened Contract
  import opened NodeCache
  import M = Memory

  /** Segment number index of the proof data is the branch of addr. */
  ghost predicate Proves(h: Hash, c: Contents, addr: Word, proof: seq<Byte>, index: nat) {
    && |proof| >= (index + 1) * PROOF_LEN
    && proof[index * PROOF_LEN..(index + 1) * PROOF_LEN] == ProofBytes(h, c, addr)
  }

  lemma {:induction false} ConcatField(proof: seq<Digest>, i: nat)
    requires i < |proof|
    ensures Concat(proof)[32 * i..32 * i + 32] == proof[i]
  {
    if i > 0 {
      ConcatField(proof[1..], i - 1);
    }
  }

  lemma SliceOfSlice(s: seq<Byte>, a: nat, b: nat, lo: nat, hi: nat)
    requires a <= b <= |s| && lo <= hi <= b - a
    ensures s[a..b][lo..hi] == s[a + lo..a + hi]
  {
    var t, u := s[a..b][lo..hi], s[a + lo..a + hi];
    assert |t| == |u| && forall j | 0 <= j < |t| :: t[j] == u[j];
  }

  lemma FieldIsSibling(h: Hash, c: Contents, addr: Word, proof: seq<Byte>, index: nat, i: nat)
    requires Proves(h, c, addr, proof, index) && i < 28
    ensures |Branch(h, c, addr)| == 28 && ProofField(proof, index, i) == Branch(h, c, addr)[i]
  {
    BranchRoot(h, c, addr);
    ConcatField(Branch(h, c, addr), i);
    SliceOfSlice(proof, index * PROOF_LEN, (index + 1) * PROOF_LEN, 32 * i, 32 * i + 32);
  }

  /** The contract's loop over the proof fields is the fold over the siblings. */
  lemma {:induction false} FoldProofIsFold(h: Hash, c: Contents, addr: Word, proof: seq<Byte>, index: nat, from: nat,
                                           path: nat, node: Digest)
    requires Proves(h, c, addr, proof, index) && from <= 28
    ensures |Branch(h, c, addr)| == 28
    ensures FoldProof(h, proof, index, from, path, node) == Fold(h, path, node, Branch(h, c, addr)[from..])
    decreases 28 - from
  {
    BranchRoot(h, c, addr);
    if from < 28 {
      FieldIsSibling(h, c, addr, proof, index, from);
      var branch := Branch(h, c, addr);
      assert branch[from..][1..] == branch[from + 1..];
      var parent := if path % 2 == 0 then HashPair(h, node, branch[from]) else HashPair(h, branch[from], node);
      FoldProofIsFold(h, c, addr, proof, index, from + 1, path / 2, parent);
    }
  }

  lemma LeafPath(addr: Word)
    ensures PathOf(LeafIndex(addr)) == addr / 32
  {
    Pow2Values();
    PathOfLevel(27, LeafIndex(addr));
  }

  lemma LeafWord(c: Contents, addr: Word)
    requires addr % 4 == 0
    ensures LeafBytes(c, LeafIndex(addr))[LeafOffset(addr)..LeafOffset(addr) + 4] == FlatBytes(c, addr, 4)
  {
  }

  /** Reading through a true proof gives the word of the flat memory. */
  lemma ReadMemTrue(h: Hash, c: Contents, addr: Word, proof: seq<Byte>, index: nat)
    requires Proves(h, c, addr, proof, index) && addr % 4 == 0
    ensures ReadMem(h, Root(h, c), addr, proof, index) == Ok(WordAt(c, addr))
  {
    FieldIsSibling(h, c, addr, proof, index, 0);
    var branch := Branch(h, c, addr);
    FoldProofIsFold(h, c, addr, proof, index, 1, addr / 32, branch[0]);
    assert branch[1..] == Siblings(h, MemLeaf(c), MEM_LEAVES, LeafIndex(addr));
    LeafPath(addr);
    FoldIsRoot(h, MemLeaf(c), MEM_LEAVES, LeafIndex(addr));
    LeafWord(c, addr);
  }

  /** Writing through a true proof gives the root of the updated flat memory. */
  lemma WriteMemTrue(h: Hash, c: Contents, addr: Word, proof: seq<Byte>, index: nat, v: Word)
    requires Paged(c) && Proves(h, c, addr, proof, index) && addr % 4 == 0
    ensures WriteMem(h, addr, proof, index, v) == Ok(Root(h, SetWord(c, addr, v)))
  {
    hide FlatByte, SetWord, Node, Fold, FoldProof;
    var c', k := SetWord(c, addr, v), LeafIndex(addr);
    LeafNode(h, c, k);
    LeafNode(h, c', k);
    FieldIsSibling(h, c, addr, proof, index, 0);
    var branch := Branch(h, c, addr);
    var leaf, at := LeafBytes(c, k), LeafOffset(addr);
    var leaf' := leaf[..at] + WordBytes(v) + leaf[at + 4..];
    assert leaf' == LeafBytes(c', k) by {
      forall j: nat | j < 32 ensures leaf'[j] == LeafBytes(c', k)[j] {
        SetWordBytes(c, addr, v, 32 * (addr / 32) + j);
      }
    }
    FoldProofIsFold(h, c, addr, proof, index, 1, addr / 32, leaf');
    assert branch[1..] == Siblings(h, MemLeaf(c), MEM_LEAVES, k);
    LeafPath(addr);
    SetWordChangesOneLeaf(c, addr, v);
    FoldIsUpdate(h, MemLeaf(c), MemLeaf(c'), MEM_LEAVES, k);
  }

  /** The memory proof of a step: the branch of the word it touches, or anything when it touches none. */
  ghost predicate ProvesAccess(h: Hash, c: Contents, access: Access, proof: seq<Byte>) {
    |proof| == PROOF_LEN && (access.Access? ==> proof == ProofBytes(h, c, access.addr))
  }

  lemma SameAccess(cpu: Cpu, step: DWord, insn: Word)
    ensures DataAccess(cpu.(step := step), insn) == DataAccess(cpu, insn)
    ensures DataAccess(cpu, insn).Access? ==> DataAccess(cpu, insn).addr % 4 == 0
  {
    hide SE, AlignDown, Opcode, Fun, RsReg;
  }

  lemma UnalignedFault(h: Hash, memRoot: Digest, addr: Word, proof: seq<Byte>)
    requires addr % 4 != 0
    ensures ReadMem(h, memRoot, addr, proof, 0).Fault?
  {
  }

  lemma ProofBytesLength(h: Hash, c: Contents, addr: Word)
    ensures |ProofBytes(h, c, addr)| == PROOF_LEN
  {
    BranchRoot(h, c, addr);
  }

  /** Replaying on the proofs agrees with stepping on the memory, for panics as well. */
  lemma StepStateSufficient(h: Hash, c: Contents, cpu: Cpu, memProof: seq<Byte>, oracle: PreimageOracle)
    requires Paged(c)
    requires !cpu.exited && cpu.pc % 4 == 0 ==> ProvesAccess(h, c, DataAccess(cpu, WordAt(c, cpu.pc)), memProof)
    ensures StepState(h, Root(h, c), cpu, ProofBytes(h, c, cpu.pc) + memProof, oracle)
         == match FlatStep.Step(cpu, c, oracle(cpu.preimageKey, cpu.preimageOffset))
            case Ok(r) => Ok((Root(h, r.1), r.0))
            case Fault => Fault
  {
    hide Transition, ReadMem, WriteMem, Root, ProofBytes, DataAccess, WordAt, SetWord;
    if !cpu.exited && cpu.pc % 4 != 0 {
      UnalignedFault(h, Root(h, c), cpu.pc, ProofBytes(h, c, cpu.pc) + memProof);
    } else if !cpu.exited {
      var proof := ProofBytes(h, c, cpu.pc) + memProof;
      var cpu1 := cpu.(step := (cpu.step + 1) % 0x1_0000_0000_0000_0000);
      ProofBytesLength(h, c, cpu.pc);
      assert Proves(h, c, cpu.pc, proof, 0) by {
        assert proof[0..PROOF_LEN] == ProofBytes(h, c, cpu.pc);
      }
      ReadMemTrue(h, c, cpu.pc, proof, 0);
      var insn := WordAt(c, cpu.pc);
      var access := DataAccess(cpu1, insn);
      SameAccess(cpu, cpu1.step, insn);
      var chunk := oracle(cpu.preimageKey, cpu.preimageOffset);
      var result := Transition(cpu1, insn, AccessedWord(c, access), chunk);
      if result.Ok? && result.value.1.Store? {
        StoreNeedsAccess(cpu1, insn, AccessedWord(c, access), chunk);
      }
      if access.Access? {
        assert Proves(h, c, access.addr, proof, 1) by {
          assert proof[PROOF_LEN..2 * PROOF_LEN] == memProof;
        }
        ReadMemTrue(h, c, access.addr, proof, 1);
        if result.Ok? && result.value.1.Store? {
          WriteMemTrue(h, c, access.addr, proof, 1, result.value.1.word);
        }
      }
    }
  }

  lemma OwnProof(h: Hash, c: Contents, addr: Word)
    ensures Proves(h, c, addr, ProofBytes(h, c, addr), 0)
  {
    hide ProofBytes;
    ProofBytesLength(h, c, addr);
    assert ProofBytes(h, c, addr)[0..PROOF_LEN] == ProofBytes(h, c, addr);
  }

  /** A proof made before a write opens the old root to the old word and leads to the root after the write. */
  method ProveThenWrite(m: M.Memory, addr: Word, v: Word) returns (proof: seq<Byte>, before: Digest, after: Digest)
    requires m.Valid() && addr % 4 == 0
    modifies m.Repr()
    ensures m.Valid() && m.contents == SetWord(old(m.contents), addr, v)
    ensures ReadMem(m.hash, before, addr, proof, 0) == Ok(WordAt(old(m.contents), addr))
    ensures WriteMem(m.hash, addr, proof, 0, v) == Ok(after)
  {
    hide M.Memory.Valid, ReadMem, WriteMem, ProofBytes, Root, SetWord;
    ghost var c := m.contents;
    PagedContents(m);
    before := m.MerkleRoot();
    proof := m.MerkleProof(addr);
    m.SetMemory(addr, v);
    after := m.MerkleRoot();
    OwnProof(m.hash, c, addr);
    ReadMemTrue(m.hash, c, addr, proof, 0);
    WriteMemTrue(m.hash, c, addr, proof, 0, v);
  }

  lemma PagedContents(m: M.Memory)
    requires m.Valid()
    ensures Paged(m.contents)
  {
    CoherentMeans(m.hash, m.nodes, m.contents, m.hashed);
  }
}
