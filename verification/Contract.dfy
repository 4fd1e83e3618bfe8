/** The on-chain step (packages/contracts-bedrock/src/cannon/MIPS.sol): it sees the encoded state and two
    memory proofs, never the memory. */
module Contract {
  import opened Alu
  import opened Bytes
  import opened Merkle
  import opened FlatMemory
  import opened Mips

  const WITNESS_SIZE := 226

  /** The tightly packed state: 32 + 32 + 6 * 4 + 1 + 1 + 8 + 32 * 4 bytes. */
  function Encode(memRoot: Digest, cpu: Cpu): (s: seq<Byte>)
    ensures |s| == WITNESS_SIZE
  {
    EncodeHead(memRoot, cpu) + EncodeWords(cpu.registers)
  }

  function EncodeHead(memRoot: Digest, cpu: Cpu): (s: seq<Byte>)
    ensures |s| == 98
  {
    EncodeRegs(memRoot, cpu) + [cpu.exitCode] + [if cpu.exited then 1 else 0] + DWordBytes(cpu.step)
  }

  function EncodeRegs(memRoot: Digest, cpu: Cpu): (s: seq<Byte>)
    ensures |s| == 88
  {
    memRoot + cpu.preimageKey + WordBytes(cpu.preimageOffset) + WordBytes(cpu.pc) + WordBytes(cpu.nextPC)
    + WordBytes(cpu.lo) + WordBytes(cpu.hi) + WordBytes(cpu.heap)
  }

  function EncodeWords(ws: seq<Word>): (s: seq<Byte>)
    ensures |s| == 4 * |ws|
  {
    if ws == [] then [] else WordBytes(ws[0]) + EncodeWords(ws[1..])
  }

  function WordField(s: seq<Byte>, at: nat): Word
    requires at + 4 <= |s|
  {
    BytesWord(s[at..at + 4])
  }

  function DecodeWords(s: seq<Byte>, at: nat, n: nat): (ws: seq<Word>)
    requires at + 4 * n <= |s|
    ensures |ws| == n
    decreases n
  {
    if n == 0 then [] else [WordField(s, at)] + DecodeWords(s, at + 4, n - 1)
  }

  function DecodeRoot(s: seq<Byte>): Digest
    requires |s| == WITNESS_SIZE
  {
    s[..32]
  }

  function DecodeCpu(s: seq<Byte>): Cpu
    requires |s| == WITNESS_SIZE
  {
    Cpu(s[32..64], WordField(s, 64), WordField(s, 68), WordField(s, 72), WordField(s, 76), WordField(s, 80),
        WordField(s, 84), s[88], s[89] != 0, BytesDWord(s[90..98]), DecodeWords(s, 98, 32))
  }

  lemma {:induction false} DecodeEncodedWords(prefix: seq<Byte>, ws: seq<Word>, suffix: seq<Byte>)
    ensures DecodeWords(prefix + EncodeWords(ws) + suffix, |prefix|, |ws|) == ws
    decreases |ws|
  {
    hide WordBytes, WordField;
    if ws != [] {
      var s, first := prefix + EncodeWords(ws) + suffix, prefix + WordBytes(ws[0]);
      Regrouped(prefix, WordBytes(ws[0]), EncodeWords(ws[1..]), suffix);
      WordFieldAt(s, prefix, ws[0]);
      DecodeEncodedWords(first, ws[1..], suffix);
    }
  }

  lemma Regrouped(a: seq<Byte>, b: seq<Byte>, c: seq<Byte>, d: seq<Byte>)
    ensures a + (b + c) + d == (a + b) + c + d && a + b <= a + (b + c) + d
  {
    assert a + (b + c) == (a + b) + c;
  }

  /** The field after a prefix. */
  lemma Field(s: seq<Byte>, prefix: seq<Byte>, part: seq<Byte>)
    requires prefix + part <= s
    ensures s[|prefix|..|prefix| + |part|] == part && prefix <= s
  {
    assert forall j | 0 <= j < |part| :: (prefix + part)[|prefix| + j] == part[j];
  }

  lemma WordFieldAt(s: seq<Byte>, prefix: seq<Byte>, w: Word)
    requires prefix + WordBytes(w) <= s
    ensures WordField(s, |prefix|) == w && prefix <= s
  {
    Field(s, prefix, WordBytes(w));
    BytesOfWord(w);
  }

  lemma DecodeRegs(memRoot: Digest, cpu: Cpu, s: seq<Byte>)
    requires |s| == WITNESS_SIZE && EncodeRegs(memRoot, cpu) <= s
    ensures s[..32] == memRoot && s[32..64] == cpu.preimageKey
    ensures WordField(s, 64) == cpu.preimageOffset && WordField(s, 68) == cpu.pc && WordField(s, 72) == cpu.nextPC
    ensures WordField(s, 76) == cpu.lo && WordField(s, 80) == cpu.hi && WordField(s, 84) == cpu.heap
  {
    hide WordField, WordBytes;
    var k := memRoot + cpu.preimageKey;
    var k1 := k + WordBytes(cpu.preimageOffset);
    var k2 := k1 + WordBytes(cpu.pc);
    var k3 := k2 + WordBytes(cpu.nextPC);
    var k4 := k3 + WordBytes(cpu.lo);
    var k5 := k4 + WordBytes(cpu.hi);
    WordFieldAt(s, k5, cpu.heap);
    WordFieldAt(s, k4, cpu.hi);
    WordFieldAt(s, k3, cpu.lo);
    WordFieldAt(s, k2, cpu.nextPC);
    WordFieldAt(s, k1, cpu.pc);
    WordFieldAt(s, k, cpu.preimageOffset);
    Field(s, memRoot, cpu.preimageKey);
  }

  lemma EncodedEnds(memRoot: Digest, cpu: Cpu)
    ensures var s := Encode(memRoot, cpu);
            && EncodeRegs(memRoot, cpu) <= s && s[90..98] == DWordBytes(cpu.step)
            && s[88] == cpu.exitCode && s[89] == if cpu.exited then 1 else 0
  {
    hide EncodeRegs, EncodeWords, DWordBytes;
    var s, r := Encode(memRoot, cpu), EncodeRegs(memRoot, cpu);
    var e := r + [cpu.exitCode];
    var x := e + [if cpu.exited then 1 else 0];
    assert EncodeHead(memRoot, cpu) <= s;
    Field(s, x, DWordBytes(cpu.step));
    Field(s, e, [if cpu.exited then 1 else 0]);
    Field(s, r, [cpu.exitCode]);
    assert s[88..89][0] == s[88] && s[89..90][0] == s[89];
  }

  /** The witness determines the root and the state. */
  lemma {:induction false} DecodedWord(s: seq<Byte>, at: nat, n: nat, i: nat)
    requires at + 4 * n <= |s| && i < n
    ensures DecodeWords(s, at, n)[i] == WordField(s, at + 4 * i)
    decreases n
  {
    hide WordField;
    if i > 0 {
      DecodedWord(s, at + 4, n - 1, i - 1);
    }
  }

  /** Where the parts of a state stand in its encoding. */
  lemma Layout(memRoot: Digest, cpu: Cpu, i: nat)
    requires i < 32
    ensures var s := Encode(memRoot, cpu);
            && s[..32] == memRoot && s[32..64] == cpu.preimageKey
            && WordField(s, 64) == cpu.preimageOffset && WordField(s, 68) == cpu.pc && WordField(s, 72) == cpu.nextPC
            && WordField(s, 76) == cpu.lo && WordField(s, 80) == cpu.hi && WordField(s, 84) == cpu.heap
            && s[88] == cpu.exitCode && s[89] == (if cpu.exited then 1 else 0) && s[90..98] == DWordBytes(cpu.step)
            && WordField(s, 98 + 4 * i) == cpu.registers[i]
  {
    hide EncodeRegs, EncodeHead, EncodeWords, DWordBytes, WordField, DecodeWords;
    var s := Encode(memRoot, cpu);
    assert s == EncodeHead(memRoot, cpu) + EncodeWords(cpu.registers) + [];
    DecodeEncodedWords(EncodeHead(memRoot, cpu), cpu.registers, []);
    EncodedEnds(memRoot, cpu);
    DecodeRegs(memRoot, cpu, s);
    DecodedWord(s, 98, 32, i);
  }

  lemma DecodeEncoded(memRoot: Digest, cpu: Cpu)
    ensures DecodeRoot(Encode(memRoot, cpu)) == memRoot
    ensures DecodeCpu(Encode(memRoot, cpu)) == cpu
  {
    hide EncodeRegs, EncodeHead, EncodeWords, DWordBytes, WordField, BytesDWord, DecodeWords;
    var s := Encode(memRoot, cpu);
    assert s == EncodeHead(memRoot, cpu) + EncodeWords(cpu.registers) + [];
    DecodeEncodedWords(EncodeHead(memRoot, cpu), cpu.registers, []);
    EncodedEnds(memRoot, cpu);
    BytesOfDWord(cpu.step);
    DecodeRegs(memRoot, cpu, s);
  }

  const STATUS_VALID: Byte := 0
  const STATUS_INVALID: Byte := 1
  const STATUS_PANIC: Byte := 2
  const STATUS_UNFINISHED: Byte := 3

  function VmStatus(exited: bool, exitCode: Byte): Byte {
    if !exited then STATUS_UNFINISHED
    else if exitCode == 0 then STATUS_VALID
    else if exitCode == 1 then STATUS_INVALID
    else STATUS_PANIC
  }

  /** The hash of an encoded state, its first byte replaced by the VM status; fails on a wrong length. */
  function StateHash(h: Hash, encoded: seq<Byte>): Outcome<Digest> {
    if |encoded| != WITNESS_SIZE then Fault
    else Ok(h(encoded)[0 := VmStatus(encoded[89] == 1, encoded[88])])
  }

  /** The contract's output for a state. */
  function OutputState(h: Hash, memRoot: Digest, cpu: Cpu): Digest {
    h(Encode(memRoot, cpu))[0 := VmStatus(cpu.exited, cpu.exitCode)]
  }

  /** The i-th 32-byte field of memory proof number index. */
  function ProofField(proof: seq<Byte>, index: nat, i: nat): Digest
    requires i < 28 && |proof| >= (index + 1) * PROOF_LEN
  {
    proof[index * PROOF_LEN + 32 * i..index * PROOF_LEN + 32 * i + 32]
  }

  /** Hashes `node` upwards with the fields from, from + 1, ... 27 of the proof; bit 0 of path goes with the first. */
  function FoldProof(h: Hash, proof: seq<Byte>, index: nat, from: nat, path: nat, node: Digest): Digest
    requires from <= 28 && |proof| >= (index + 1) * PROOF_LEN
    decreases 28 - from
  {
    if from == 28 then node
    else
      var sibling := ProofField(proof, index, from);
      var parent := if path % 2 == 0 then HashPair(h, node, sibling) else HashPair(h, sibling, node);
      FoldProof(h, proof, index, from + 1, path / 2, parent)
  }

  function ReadMem(h: Hash, memRoot: Digest, addr: Word, proof: seq<Byte>, index: nat): Outcome<Word> {
    if |proof| < (index + 1) * PROOF_LEN || addr % 4 != 0 then Fault
    else
      var leaf := ProofField(proof, index, 0);
      if FoldProof(h, proof, index, 1, addr / 32, leaf) != memRoot then Fault
      else Ok(BytesWord(leaf[LeafOffset(addr)..LeafOffset(addr) + 4]))
  }

  function WriteMem(h: Hash, addr: Word, proof: seq<Byte>, index: nat, val: Word): Outcome<Digest> {
    if |proof| < (index + 1) * PROOF_LEN || addr % 4 != 0 then Fault
    else
      var leaf := ProofField(proof, index, 0);
      var at := LeafOffset(addr);
      Ok(FoldProof(h, proof, index, 1, addr / 32, leaf[..at] + WordBytes(val) + leaf[at + 4..]))
  }

  /** The pre-image oracle: the chunk at a key and offset, or a fault when it was not loaded. */
  type PreimageOracle = (Digest, Word) -> Outcome<seq<Byte>>

  /** The step on root and registers. */
  function StepState(h: Hash, memRoot: Digest, cpu: Cpu, proof: seq<Byte>, oracle: PreimageOracle)
    : Outcome<(Digest, Cpu)>
  {
    if cpu.exited then Ok((memRoot, cpu))
    else
      var cpu1 := cpu.(step := (cpu.step + 1) % 0x1_0000_0000_0000_0000);
      var insn :- ReadMem(h, memRoot, cpu1.pc, proof, 0);
      match DataAccess(cpu1, insn)
      case NoAccess =>
        var result :- Transition(cpu1, insn, 0, oracle(cpu1.preimageKey, cpu1.preimageOffset));
        Ok((memRoot, result.0))
      case Access(addr) =>
        var mem :- ReadMem(h, memRoot, addr, proof, 1);
        var result :- Transition(cpu1, insn, mem, oracle(cpu1.preimageKey, cpu1.preimageOffset));
        if result.1.NoStore? then Ok((memRoot, result.0))
        else
          var root :- WriteMem(h, addr, proof, 1, result.1.word);
          Ok((root, result.0))
  }

  /** MIPS.step: from call data to the hash of the next state. */
  function Step(h: Hash, stateData: seq<Byte>, proof: seq<Byte>, oracle: PreimageOracle): Outcome<Digest>
    requires |stateData| == WITNESS_SIZE
  {
    var result :- StepState(h, DecodeRoot(stateData), DecodeCpu(stateData), proof, oracle);
    Ok(OutputState(h, result.0, result.1))
  }

  /** The two ways to hash a state agree. */
  lemma OutputIsStateHash(h: Hash, memRoot: Digest, cpu: Cpu)
    ensures StateHash(h, Encode(memRoot, cpu)) == Ok(OutputState(h, memRoot, cpu))
  {
    EncodedEnds(memRoot, cpu);
  }

  /** The first byte of a state hash tells how the program stands; the rest is the hash of the encoding. */
  lemma StatusByte(h: Hash, memRoot: Digest, cpu: Cpu)
    ensures StateHash(h, Encode(memRoot, cpu)).Ok?
    ensures var d := StateHash(h, Encode(memRoot, cpu)).value;
            && d[1..] == h(Encode(memRoot, cpu))[1..]
            && (d[0] == 0 <==> cpu.exited && cpu.exitCode == 0)
            && (d[0] == 1 <==> cpu.exited && cpu.exitCode == 1)
            && (d[0] == 2 <==> cpu.exited && cpu.exitCode > 1)
            && (d[0] == 3 <==> !cpu.exited)
  {
    hide Encode;
    OutputIsStateHash(h, memRoot, cpu);
  }
}
