# Verified models of the OP Stack monorepo

A Dafny 4.11 project with models and proofs for six parts of the repository.  Run `dafny verify dfyconfig.toml` here.

## What is modelled

**Cannon's memory** (`Merkle`, `Page`, `FlatMemory`, `NodeCache`, `Memory`, `RangeLoad`, `MemoryRange`).  The meaning of a
memory is a flat 32-bit byte space that reads zero outside the allocated pages; its root is the naive hash of all 2^27 leaves.
The incremental tree with its three lazy caches (upper nodes, per-page nodes, the last two pages looked up) is a class whose
methods keep an invariant tying the caches to that meaning.  keccak256 is a function parameter, and nothing is assumed of it.

**Cannon's VM and its witness** (`Bytes`, `Bits`, `Alu`, `Mips`, `FlatStep`, `PreimageCache`, `State`, `Instrumented`, `Witness`,
`Contract`, `ContractMasks`, `OnChainOracle`, `Sufficiency`, `VmRun`).  `Mips.Transition` is one instruction as a function of the registers, the
instruction and one data word.  The handlers of `Instrumented.InstrumentedState` update the state in place and are proved to have that effect.
`Contract.StepState` is the on-chain step: it decodes the 226-byte state, reads and writes words through two memory proofs, and
never sees the memory.  The main theorem says when the witness of a step is enough to replay it, and `VmRun.Run` chains it over
runs.  The instruction semantics is shared between the two sides; decoding, hashing, proofs and the oracle are not.  Where the
contract computes an instruction's effect in another way, on 256-bit or 64-bit words, `ContractMasks` proves that it agrees.

**What the instructions mean** (`ByteLanes`, `AluMeaning`, `Unaligned`, `UnalignedSteps`, `InstructionSteps`,
`SyscallSteps`).  Independent statements on signed integers and on
byte lanes for sign extension, shifts, products, division, leading bits and all partial and unaligned loads and stores; then
whole steps by the encoding of their instructions, branches, jumps and syscalls included, and the heap of a run.

**Pre-image oracle and hints** (`OracleChannel`, `OracleSyscalls`, `Hints`, `Streams`).  The stream protocols of `op-preimage`,
and the same protocols as a guest program sees them through syscalls.

**Plasma DA challenges** (`CommQueue`, `Challenges`, `ExpiryOrders`, `PlasmaState`, `DaManager`).  Two heaps and an index over shared mutable
commitments, with values (`Challenges.Ledger`) that say what each operation does.

**proxyd** (`Consensus`, `Multisets`, `RpcTypes`, `RpcBackend`, `RpcServer`).  The consensus walk-back over backends in any iteration order,
and batch demultiplexing from the client's list to backend batches and back.

## Results that differ from a first reading

- A step that reads a pre-image under the all-zero key, or at offset 2^32-1, emits a witness without that pre-image
  (`cannon/mipsevm/instrumented.go:94`, `cannon/mipsevm/witness.go:18-20`): the replay reverts.  So does the replay of a read
  that no loader of the on-chain oracle accepts: at the end of a global pre-image, of local data longer than 32 bytes, or
  under a key type without a loader (`packages/contracts-bedrock/src/cannon/PreimageOracle.sol:105`, lines 134, 169, 204 and
  425 there).  `Witness.WitnessSuffices` has this as its exact condition; `Witness.EndOfPreimageReverts` and
  `Witness.ZeroKeyReverts` are inputs.
- `readPreimage` takes its initial empty cache for the pre-image of the zero key (`cannon/mipsevm/mips.go:20-21`): such a read
  delivers nothing, or panics at a positive offset.  `PreimageCache.SeenIsServed` says exactly when,
  `OracleSyscalls.SyscallsRefineServer` and `VmRun.OffsetOfRun` carry the condition, and `VmRun.FreshZeroKey` and
  `VmRun.FirstReadZeroKey` are inputs.
- `SetMemoryRange` clears page caches but not the nodes above them (`cannon/mipsevm/memory.go:275`);
  `MemoryRange.SetMemoryRange` says exactly when the memory stays valid, `MemoryRange.LoadThenRoot` that the old root is reported
  when it does not, and `MemoryRange.StaleRoot` is an input.
- `srav` does not mask its amount (`cannon/mipsevm/mips.go:477`); `AluMeaning.SravExact` says exactly when that matters.
- Finalization of plasma commitments can stop for good when two canonical commitments share a block
  (`op-plasma/dastate.go:175`): `Challenges.ExpirySticks` says exactly when an expiry brings this about,
  `Challenges.StuckForGood` that only a clearing reset ends it, and `Challenges.SameBlockSticks` is a run.
  `ExpiryOrders.DueLeaveInAnyOrder` says exactly which queues get through.

## Parameters and abstractions

- keccak256 is a parameter of type `Merkle.Hash`; an oracle is a function from keys to pre-images; a backend is a function from
  requests to a reply; L1 is a pair of functions; parsing, rate limits, cache misses and deadlines in proxyd are arbitrary
  functions of the request or call; clocks and bans are booleans of a backend's state.
- Every machine word is an integer below 2^32 (or 2^64) and every operation that can leave that range wraps explicitly.
- A Go panic and a contract revert are the value `Fault`, or a false result of a method.
- Iteration over a Go map takes an arbitrary element each time.
- In `RpcServer` the responses a backend may give are constrained by `RpcBackend.Honest` (each request answered once, in any
  order, if the count is right), and what counts as an answer is the parameter `truth`.

## Model

| member | source | states |
|---|---|---|
| `Witness.WitnessSuffices` | cannon/mipsevm/instrumented.go:75-101 | a step that succeeds is replayed on chain from its witness alone to the hash of the state after it, if and only if it reads no pre-image or one that a loader of the on-chain oracle accepts at that offset (and the offset is not the reserved maximum); otherwise the replay reverts |
| `Witness.OracleAnswers` | packages/contracts-bedrock/src/cannon/PreimageOracle.sol:104-160 | after the load of its witness the on-chain oracle answers a reading step with the next bytes exactly when a loader accepts the pre-image at that offset |
| `OnChainOracle.LoadsIff` | packages/contracts-bedrock/src/cannon/PreimageOracle.sol:119-376 | when a loader accepts: local data of at most 32 bytes up to and at its end, keccak256 and sha256 data, 32-byte blob elements and precompile results before their end, no other key type |
| `OnChainOracle.LoadedReads` | packages/contracts-bedrock/src/cannon/PreimageOracle.sol:104-160 | the part stored by a load and the length arithmetic of readPreimage give the next bytes, at most 32, of the length-prefixed pre-image, whatever stood behind it in memory |
| `OnChainOracle.OtherReads` | packages/contracts-bedrock/src/cannon/PreimageOracle.sol:104-117 | a load changes no read under another key |
| `Witness.EndOfPreimageReverts` | packages/contracts-bedrock/src/cannon/PreimageOracle.sol:169-174 | failing inputs: for every keccak256 key and value, reading at the end is a step the VM takes and the replay reverts |
| `Witness.ZeroKeyReverts` | cannon/mipsevm/witness.go:18-20 | a failing input: the VM serves a read under the zero key, and the replay reverts |
| `VmRun.Run` | cannon/mipsevm/instrumented.go:75-101 | over a run of any length the machine, pre-image cache included, is where the same number of flat steps leads; witness i starts from state i and replays to the hash of state i+1 if and only if what the step reads can be loaded on chain; so the witnesses chain if and only if every read can |
| `VmRun.ChainOfRun` | cannon/mipsevm/instrumented.go:75-101 | the witnesses of a run chain, each replaying to where the next one starts, if and only if the chain can load every pre-image the run reads |
| `VmRun.RunAsks` | cannon/mipsevm/mips.go:19-33 | the cache of the last pre-image goes unnoticed: a run whose reads are served, and every run of a VM that has fetched a pre-image before, is the run of a VM that asks the oracle for each read |
| `VmRun.CacheUnnoticed` | cannon/mipsevm/mips.go:19-33 | for one step: the cache goes unnoticed if and only if a read has a nonzero key or a pre-image was fetched before |
| `VmRun.FreshZeroKey` | cannon/mipsevm/mips.go:19-33 | failing inputs: on a new VM a read under the zero key delivers nothing at offset 0, and panics at offset 4 although that is within the pre-image |
| `VmRun.FirstReadZeroKey` | cannon/mipsevm/mips.go:19-33 | the same on the VM itself: its first read under the zero key succeeds if and only if the offset is 0, and then delivers nothing |
| `Instrumented.InstrumentedState.Step` | cannon/mipsevm/instrumented.go:75-101 | a step has the effect of the flat step on registers, memory and output, keeps the caches coherent, and with proofs enabled emits a witness as WitnessFor describes it |
| `Sufficiency.StepStateSufficient` | packages/contracts-bedrock/src/cannon/MIPS.sol:640-800 | stepping on the root and two proofs gives the root and registers of the step on the memory, and fails exactly when that step panics |
| `Memory.Memory.MerkleizeSubtree` | cannon/mipsevm/memory.go:102-130 | for every valid index the cached hash is the naive hash of the flat zero-filled memory below it; every page below it ends up hashed; coherence is kept |
| `Memory.Memory.MerkleRoot` | cannon/mipsevm/memory.go:161-163 | the root equals the naive hash of the flat memory, whatever operations came before |
| `Memory.Memory.Invalidate` | cannon/mipsevm/memory.go:76-100 | after it the page, its cached block path and every node above it are stale, although the walk stops early at a page that was stale already; contents are unchanged |
| `NodeCache.StalePageHasStalePath` | cannon/mipsevm/memory.go:82-99 | early-return soundness: every node above a page that is not hashed is present and invalidated |
| `Memory.Memory.SetMemory` | cannon/mipsevm/memory.go:186-203 | writes exactly the aligned word in the flat memory, allocating the page when missing, and keeps all three caches coherent |
| `Memory.Memory.GetMemory` | cannon/mipsevm/memory.go:205-216 | reads the aligned word of the flat memory, zero where no page exists |
| `Memory.Memory.MerkleProof` | cannon/mipsevm/memory.go:132-139 | the 28 fields are the leaf of the address and its 27 siblings from the bottom up |
| `Sufficiency.ProveThenWrite` | cannon/mipsevm/memory.go:132-159 | a proof made before a write opens the root to the word, and with the leaf updated folds to the root after the write |
| `RangeLoad.CoherentAfterLoad` | cannon/mipsevm/memory.go:267-285 | after a range load the tree is coherent if and only if no cached node covers an existing page that was looked up, unless it also covers a page the load allocated |
| `MemoryRange.SetMemoryRange` | cannon/mipsevm/memory.go:267-285 | for any reader the bytes arrive at the address and nothing else changes; the pages looked up are those of the range, and the one after it when the end is told by a separate read; the memory stays valid if and only if no cached node covers one of these that existed, unless it covers one that did not |
| `MemoryRange.LoadThenRoot` | cannon/mipsevm/memory.go:161-163 | when the root was cached and no page was missing, the root reported after a load is that of the memory before it |
| `MemoryRange.StaleRoot` | cannon/mipsevm/memory.go:267-285 | a failing input: one page, hashed, then one byte loaded over it: the root does not change, and is the true one only if the two memories give a hash collision |
| `FlatMemory.RootCommits` | cannon/mipsevm/memory.go:161-163 | memories that differ in a byte have different roots, unless their trees hold a hash collision on the path to it |
| `MemoryRange.LoadThenRead` | cannon/mipsevm/memory.go:267-322 | range transfer: a load before the first hash, drained through buffers of any sizes, returns the bytes; no byte outside the range changes |
| `InstructionSteps.BranchStep` | cannon/mipsevm/mips.go:225-257 | a step on beq, bne, blez, bgtz, bltz or bgez: the delay slot comes next, then pc+4+4*(signed offset) exactly when the registers are equal, unequal, or the signed value is <= 0, > 0, < 0, >= 0, and pc+8 otherwise, modulo 2^32; nothing else but the step counter changes; in a delay slot it panics |
| `InstructionSteps.JumpStep` | cannon/mipsevm/mips.go:295-341 | j and jal: the word index in the 256 MB region of the delay slot; jal links to pc+8 |
| `InstructionSteps.JumpRegisterStep` | cannon/mipsevm/mips.go:397-404 | jr and jalr: the register is the target, read before the link register is written |
| `InstructionSteps.MoveStep` | cannon/mipsevm/mips.go:406-411 | movz and movn move exactly when the other register is zero, or not |
| `InstructionSteps.HiLoMoveStep` | cannon/mipsevm/mips.go:259-269 | mfhi, mthi, mflo and mtlo; the last two kinds also clear the register in their rd field |
| `InstructionSteps.ArithmeticStep` | cannon/mipsevm/mips.go:270-293 | mult, multu, div and divu on the two registers of the instruction: the exact product, or truncated quotient and remainder; division by zero panics |
| `InstructionSteps.RegisterStep` | cannon/mipsevm/mips.go:349-438 | register arithmetic: the ALU on the registers of the rs and rt fields goes to the rd field, never to register 0 |
| `InstructionSteps.ImmediateStep` | cannon/mipsevm/mips.go:353-362 | immediate arithmetic: andi, ori and xori take the immediate as it is, all others extend its sign |
| `InstructionSteps.AddImmediateStep` | cannon/mipsevm/mips.go:353-362 | addi and addiu add the signed immediate modulo 2^32; lui puts it in the upper half |
| `InstructionSteps.MemoryStep` | cannon/mipsevm/mips.go:375-438 | loads and stores at base plus signed offset modulo 2^32: a load sets the register, a store the aligned word, sc also sets its register to 1 |
| `InstructionSteps.WordStep` | cannon/mipsevm/mips.go:560-600 | lw, ll, sw and sc move whole words at the aligned address |
| `InstructionSteps.ITypeFields` | cannon/mipsevm/mips.go:341-357 | the fields of an immediate instruction are at bits 26, 21, 16 and 0 |
| `InstructionSteps.RTypeFields` | cannon/mipsevm/mips.go:341-352 | the fields of a register instruction are at bits 26, 21, 16, 11, 6 and 0 |
| `SyscallSteps.MmapStep` | cannon/mipsevm/mips.go:56-68 | an anonymous mmap returns the old heap and moves it by the least multiple of 4096 not below the length, modulo 2^32; any other returns its hint |
| `SyscallSteps.RegionsApart` | cannon/mipsevm/mips.go:56-68 | in a run whose heap does not wrap, two anonymous mmaps return page-aligned regions without a common byte |
| `SyscallSteps.HeapStep` | cannon/mipsevm/mips.go:56-180 | no other instruction moves the heap |
| `SyscallSteps.FixedStep` | cannon/mipsevm/mips.go:69-72 | brk gives 0x40000000, clone 1, and numbers that are not supported 0 |
| `SyscallSteps.ExitStep` | cannon/mipsevm/mips.go:73-76 | exit_group exits with the low byte of its argument |
| `SyscallSteps.FcntlStep` | cannon/mipsevm/mips.go:157-173 | fcntl: the access mode of the seven descriptors, EBADF for others, EINVAL for other commands |
| `SyscallSteps.OtherReadStep` | cannon/mipsevm/mips.go:77-110 | read by descriptor, but for the oracle |
| `SyscallSteps.OtherWriteStep` | cannon/mipsevm/mips.go:111-156 | write by descriptor, but for the oracle |
| `SyscallSteps.PreimageReadStep` | cannon/mipsevm/mips.go:83-103 | a read from the oracle puts the least of the count, the rest of the word and what there is of the delivered bytes at the address |
| `SyscallSteps.PreimageWriteStep` | cannon/mipsevm/mips.go:135-152 | a write to the oracle shifts the least of the count and the rest of the word into the key |
| `SyscallSteps.OutputOfRun` | cannon/mipsevm/mips.go:115-134 | standard output, standard error and the hint stream of a run are what its writes to descriptors 1, 2 and 4 name, in order |
| `AluMeaning.SravExact` | cannon/mipsevm/mips.go:476-477 | srav, which does not mask its amount, gives the architecture's arithmetic shift by the low five bits if and only if the amount is below 32 or the value is below two to that amount |
| `AluMeaning.SravCounterexample` | cannon/mipsevm/mips.go:476-477 | -1 shifted by 32 gives 0 where the architecture gives -1 |
| `UnalignedSteps.StorePair` | cannon/mipsevm/mips.go:584-593 | two VM steps that execute swl at a and swr at a+3 store the register in the four bytes from a, for every alignment without address wrap, and change nothing else but the program counters and the step counter |
| `UnalignedSteps.LoadPair` | cannon/mipsevm/mips.go:562-575 | two VM steps that execute lwl at a and lwr at a+3 load the four bytes from a, whatever the register held, and change nothing else but the program counters and the step counter |
| `Unaligned.StoreUnaligned` | cannon/mipsevm/mips.go:584-593 | the same for the two results of the ALU: exactly the four bytes from a change, to the big-endian register value |
| `Unaligned.LoadUnaligned` | cannon/mipsevm/mips.go:562-575 | lwl at a then lwr at a+3 reads exactly the four bytes from a, whatever the register held |
| `OracleSyscalls.SyscallsRefineServer` | cannon/mipsevm/mips.go:19-152 | oracle refinement: for every alignment and chunking, 32 key bytes written to descriptor 6 and reads from descriptor 5, through the VM's cache, deliver a prefix of the bytes the oracle server sends and change no other memory byte; enough reads deliver all that fits if and only if the key is nonzero or a pre-image was fetched before, and otherwise nothing |
| `OracleSyscalls.GetBySyscalls` | op-preimage/oracle.go:22-38 | the client protocol (key, length, payload) carried out with the syscalls gets the length if and only if its reads are served, and then leaves exactly the oracle's value in the buffer |
| `OracleSyscalls.GuestReadsSee` | cannon/mipsevm/mips.go:19-33 | all reads under one key see the same pre-image, and leave the cache consistent |
| `Hints.ChunkingIrrelevant` | cannon/mipsevm/mips.go:121-134 | however a stream is split into writes, the buffered parser delivers the hints and the leftover of one-shot parsing |
| `VmRun.HintsOfRun` | cannon/mipsevm/mips.go:121-134 | the hints a whole run gives to the oracle are those of the concatenation of all its hint writes |
| `Challenges.RunKeepsNoneBelow` | op-plasma/dastate.go:173-219 | in every run whose new commitments are not below the finalized head, no active commitment is ever below it, and only a clearing reset moves it back |
| `PlasmaState.State.ExpireChallenges` | op-plasma/dastate.go:173-200 | what moves from the active to the expired queue was due and above the finalized head and comes first in block order; active challenges among it become expired; the head becomes the highest canonical block moved; a reorg is asked for exactly when a canonical challenge expired; the loop ends where the first commitment holds it up |
| `PlasmaState.State.Prune` | op-plasma/dastate.go:208-219 | removes from queue and index exactly the expired commitments below max(bn-200, 0); active ones are untouched |
| `DaManager.ReorgHandshake` | op-plasma/damgr.go:152-166 | after a block requires a reorg, the next reset keeps the state, and processing that block again changes no commitment, requires no reorg and advances the origin, unless L1 fails to answer for the new finalized head |
| `DaManager.InputAfterHandshake` | op-plasma/damgr.go:170-208 | after it the input of a commitment whose challenge expired in that block is reported as expired, unless the storage fails |
| `DaManager.ResetAfterHandshake` | op-plasma/damgr.go:152-166 | and the reset after that clears the state again |
| `Consensus.ConsensusPoller.UpdateBackendGroupConsensus` | proxyd/consensus_poller.go:393-516 | for every iteration order the walk-back ends at the highest height, not above the lowest latest block, on which all candidates agree; listeners are told exactly when disagreement took the consensus below the tracked block; the group has no backend with a fault |
| `RpcServer.Server.HandleBatchRPC` | proxyd/server.go:411-584 | a successful batch has in slot i the response to request i, with repeated ids, several groups, cache hits, mini-batches and any permutation by the backends; an answer given on the spot, or an error, comes from a call made for that batch, the error only if that call fails with it; each slot is written once; the cache only learns true results; it fails only when the deadline has passed before a call or a group cannot forward a receipts request of the batch |
| `RpcServer.IntakeKeepsId` | proxyd/server.go:423-497 | what cannot be read is answered under the null id; a valid request is answered under its own, or sent on unchanged to the group of its method |
| `RpcBackend.BackendGroup.Forward` | proxyd/backend.go:737-854 | response i is for request i, whether it was forwarded, rewritten or answered on the spot, also when all were answered on the spot; the first backend that neither miscounts nor lets the next one try decides: its answers are relayed, or its error returned; no backends is reported exactly when there is none or all let the next one try |
| `RpcBackend.OneOfThree` | proxyd/backend.go:793-830 | a backend answers in full, stops the search with one error, or lets the next one try |
| `Page.CachedPage.Invalidate` | cannon/mipsevm/page.go:73-84 | exactly the cached nodes above the 64-byte block become invalid |
| `Page.CachedPage.InvalidateFull` | cannon/mipsevm/page.go:86-88 | no cached node is valid any more |
| `Page.CachedPage.MerkleRoot` | cannon/mipsevm/page.go:90-113 | the cache is filled and its root is the hash of the page data |
| `Page.CachedPage.MerkleizeSubtree` | cannon/mipsevm/page.go:115-126 | any node of the page, leaves included, is the hash computed from the data |
| `Page.CachedPage.PutWord` | cannon/mipsevm/memory.go:202-202 | overwriting a word whose block path is invalid keeps every valid cached node true |
| `Page.SpliceChangesOneLeaf` | cannon/mipsevm/memory.go:202-202 | writing inside an aligned word changes one 32-byte leaf of the page |
| `Memory.Memory.PageLookup` | cannon/mipsevm/memory.go:165-184 | the two-entry lookup cache never returns another page than the page map |
| `Memory.Memory.AllocPage` | cannon/mipsevm/memory.go:218-228 | adds a zero page and invalidates its path to the root |
| `Memory.Memory.InvalidatePath` | cannon/mipsevm/memory.go:96-99 | every node from the given one to the root becomes nil, no other changes |
| `Memory.Memory.InvalidateInPage` | cannon/mipsevm/memory.go:83-88 | tells whether the page was hashed before, and makes it not hashed |
| `Memory.Memory.MerkleizeDeep` | cannon/mipsevm/memory.go:107-116 | at or below page level: the node of the page, or the zero hash of its height when there is no page |
| `Memory.Memory.TraverseBranch` | cannon/mipsevm/memory.go:141-159 | collects the leaf and the siblings up to the given depth |
| `NodeCache.CoherentNilPath` | cannon/mipsevm/memory.go:94-99 | invalidating a page's path keeps the node cache coherent when the page stops being hashed |
| `NodeCache.CoherentWrite` | cannon/mipsevm/memory.go:186-203 | writing into a page with a stale path keeps the node cache coherent |
| `NodeCache.CoherentAlloc` | cannon/mipsevm/memory.go:218-228 | allocating a zero page keeps the node cache coherent and does not change the flat memory |
| `NodeCache.CoherentStore` | cannon/mipsevm/memory.go:125-129 | caching the hash of a node whose pages are all hashed keeps the node cache coherent |
| `NodeCache.AbsentNode` | cannon/mipsevm/memory.go:117-121 | a node absent from the map hashes to the zero hash of its height and has no page below it |
| `NodeCache.SplitIndex` | cannon/mipsevm/memory.go:103-111 | a deep index is the page index and the index within the page that the code extracts by shifts and masks |
| `NodeCache.UnallocatedPage` | cannon/mipsevm/memory.go:113-115 | a node inside a page that was never allocated hashes to the zero hash of its height |
| `FlatMemory.SetWordBytes` | cannon/mipsevm/memory.go:202-202 | setting a word changes exactly its four bytes of the flat memory, big-endian |
| `FlatMemory.SetWordRead` | cannon/mipsevm/memory.go:186-216 | a word read after a write is the written one at that address and the old one elsewhere |
| `FlatMemory.SetWordChangesOneLeaf` | cannon/mipsevm/memory.go:186-203 | writing an aligned word changes one leaf of the memory tree |
| `FlatMemory.PageSubtree` | cannon/mipsevm/memory.go:107-112 | the subtree of an allocated page in the memory tree is the page's own tree |
| `FlatMemory.UnallocatedSubtree` | cannon/mipsevm/memory.go:118-121 | a subtree without allocated pages hashes to the zero hash of its height |
| `FlatMemory.BranchTurn` | cannon/mipsevm/memory.go:150-154 | bit 31-depth of the address is the turn from the root towards its leaf |
| `Merkle.RootBinds` | cannon/mipsevm/memory.go:102-130 | trees that differ in a leaf have different roots, unless a node on the path to it is a hash collision |
| `Merkle.FoldIsRoot` | cannon/mipsevm/memory.go:141-159 | folding a node with its siblings gives the root |
| `Merkle.FoldIsUpdate` | cannon/mipsevm/memory.go:141-159 | folding a changed leaf with the old siblings gives the new root |
| `Merkle.ZeroSubtree` | cannon/mipsevm/memory.go:30-37 | an all-zero subtree hashes to the precomputed zero hash of its height |
| `MemoryRange.LoadPiece` | cannon/mipsevm/memory.go:268-284 | one round of the load: the page is allocated when missing, loses its cache, and takes the next bytes |
| `MemoryRange.MemReader.Read` | cannon/mipsevm/memory.go:293-318 | delivers the next bytes of the flat memory, around the end of the address space too, without crossing a page, never nothing while bytes remain and the buffer has room |
| `MemoryRange.ReadAll` | cannon/mipsevm/memory.go:293-322 | draining a range reader through buffers of any sizes gives the bytes of the flat memory, around the end of the address space too |
| `RangeLoad.LoadBeforeHashing` | cannon/mipsevm/memory.go:267-285 | a load before anything is hashed meets the condition for coherence |
| `RangeLoad.LoadedReadsBack` | cannon/mipsevm/memory.go:267-322 | loaded bytes read back |
| `Instrumented.InstrumentedState.TrackMemAccess` | cannon/mipsevm/mips.go:35-43 | records the proof of the touched word; with the one access a step makes the panic branch is dead |
| `Instrumented.InstrumentedState.ReadPreimage` | cannon/mipsevm/mips.go:19-33 | delivers the next up to 32 bytes of the length-prefixed pre-image, asking the oracle only for a new key, and panics past the end |
| `PreimageCache.SeenIsServed` | cannon/mipsevm/mips.go:19-29 | a read sees the oracle's pre-image of its key if and only if the key is nonzero or a pre-image was fetched before; otherwise it sees nothing |
| `PreimageCache.FetchedAgain` | cannon/mipsevm/mips.go:19-29 | reads under one key see the same; after a served read every read is served |
| `Instrumented.InstrumentedState.PreimageRead` | cannon/mipsevm/mips.go:83-103 | writes the delivered bytes into one word, moves the offset, leaves the proof of that word |
| `Instrumented.InstrumentedState.PreimageWrite` | cannon/mipsevm/mips.go:135-152 | shifts up to four bytes of one word into the key and resets the offset |
| `Instrumented.InstrumentedState.WriteStream` | cannon/mipsevm/mips.go:115-134 | appends the written range to the stream, or parses it as hints after the bytes still pending |
| `Instrumented.InstrumentedState.HandleSyscall` | cannon/mipsevm/mips.go:45-180 | the state, memory, proof, pre-image data and output after a syscall are those of the transition; it panics exactly when that faults |
| `Instrumented.InstrumentedState.ReadSyscall` | cannon/mipsevm/mips.go:77-110 | sysRead by descriptor |
| `Instrumented.InstrumentedState.WriteSyscall` | cannon/mipsevm/mips.go:111-156 | sysWrite by descriptor |
| `Instrumented.InstrumentedState.OtherSyscall` | cannon/mipsevm/mips.go:56-73 | mmap, brk, clone, fcntl and unknown numbers |
| `Instrumented.InstrumentedState.ReturningSyscall` | cannon/mipsevm/mips.go:56-173 | every syscall that returns, by number |
| `Instrumented.InstrumentedState.HandleBranch` | cannon/mipsevm/mips.go:225-257 | in-place branch equals the branch of the transition, panics in a delay slot included |
| `Instrumented.InstrumentedState.HandleHiLo` | cannon/mipsevm/mips.go:259-293 | in-place HI/LO handling equals that of the transition, division by zero being a panic |
| `Instrumented.InstrumentedState.HandleJump` | cannon/mipsevm/mips.go:295-306 | in-place jump equals the jump of the transition |
| `Instrumented.InstrumentedState.HandleRd` | cannon/mipsevm/mips.go:308-318 | in-place write-back equals that of the transition |
| `Instrumented.InstrumentedState.HandleSpecial` | cannon/mipsevm/mips.go:396-424 | jumps to registers, conditional moves, the syscall and HI/LO functions |
| `Instrumented.InstrumentedState.WriteBack` | cannon/mipsevm/mips.go:426-438 | sc flag, store and register write-back |
| `Instrumented.InstrumentedState.Operate` | cannon/mipsevm/mips.go:375-438 | loads, ALU, stores and special functions, in the order of the source |
| `Instrumented.InstrumentedState.OperateOnWord` | cannon/mipsevm/mips.go:375-438 | loads and stores: the word is read, the ALU runs, then store and write-back |
| `Instrumented.InstrumentedState.Dispatch` | cannon/mipsevm/mips.go:326-373 | decoding with jumps and branches first |
| `Instrumented.InstrumentedState.MipsStep` | cannon/mipsevm/mips.go:320-439 | an exited VM stays as it is; otherwise the step is the flat step; at most one data word is proved |
| `Instrumented.SpecialsExecute` | cannon/mipsevm/mips.go:395-424 | which functions of opcode 0 pass the ALU before their handlers run |
| `FlatStep.StoreNeedsAccess` | cannon/mipsevm/mips.go:375-435 | a step stores only to the one word it has touched |
| `FlatStep.ChunkIrrelevant` | cannon/mipsevm/mips.go:83-103 | only the pre-image read depends on the pre-image |
| `State.State.EncodeWitness` | cannon/mipsevm/state.go:51-73 | the encoding is the flat root and the registers; encoding changes nothing but caches |
| `Contract.DecodeEncoded` | packages/contracts-bedrock/src/cannon/MIPS.sol:640-720 | the 226-byte witness determines root and registers: decoding undoes encoding |
| `Contract.Layout` | cannon/mipsevm/state.go:51-73 | the offset of each field in the encoding |
| `Contract.OutputIsStateHash` | cannon/mipsevm/state.go:84-110 | the hash the contract returns is the state hash, VM status byte included |
| `Sufficiency.ReadMemTrue` | packages/contracts-bedrock/src/cannon/MIPS.sol:538-582 | reading through a true proof gives the word of the flat memory |
| `Sufficiency.WriteMemTrue` | packages/contracts-bedrock/src/cannon/MIPS.sol:592-633 | writing through a true proof gives the root of the updated flat memory |
| `Sufficiency.FoldProofIsFold` | packages/contracts-bedrock/src/cannon/MIPS.sol:551-575 | the loop over the proof fields is the fold over the siblings |
| `Witness.ReplayIsStep` | cannon/mipsevm/witness.go:7-20 | a replay is the flat step with the pre-image that the witness carries |
| `Witness.FinishedIsWitness` | cannon/mipsevm/instrumented.go:92-99 | the assembled parts form a witness |
| `Witness.ChunkOfStep` | cannon/mipsevm/mips.go:83-103 | a reading step fails without a pre-image, any other is the same with any |
| `VmRun.OffsetOfRun` | cannon/mipsevm/mips.go:83-103 | in every run the pre-image offset stays within the prefixed pre-image; a reading step panics if and only if it asks under the zero key at a positive offset before any pre-image was fetched; once that is ruled out it stays ruled out |
| `VmRun.ReadsNeverPanic` | cannon/mipsevm/mips.go:83-103 | a run that starts at offset 0, with a nonzero key or after a fetch never panics on a pre-image read |
| `VmRun.RunInvariants` | cannon/mipsevm/mips.go:320-439 | in every run register 0 stays zero, an exited machine does not change, and the step counter counts the steps taken |
| `VmRun.StepReplayable` | cannon/mipsevm/instrumented.go:75-101 | one step of a run with the exact condition for its replay |
| `ContractMasks.MergeAgrees` | packages/contracts-bedrock/src/cannon/MIPS.sol:217-230 | the contract's shifts and masks put the delivered bytes into the same word as the VM's copy |
| `ContractMasks.KeyAgrees` | packages/contracts-bedrock/src/cannon/MIPS.sol:261-269 | the contract's 256-bit key arithmetic gives the number whose bytes are the VM's key |
| `ContractMasks.MiddleMask` | packages/contracts-bedrock/src/cannon/MIPS.sol:223-228 | the mask covers exactly the bytes that are inserted |
| `ContractMasks.PrefixIsNat` | cannon/mipsevm/mips.go:25-26 | the 8-byte length prefix is the big-endian number |
| `ContractMasks.RightAligned` | packages/contracts-bedrock/src/cannon/MIPS.sol:217-222 | the 32-byte part shifted right by its unused bits is the word of its first bytes |
| `ContractMasks.SignExtensionAgrees` | packages/contracts-bedrock/src/cannon/MIPS.sol:75-82 | the contract's sign extension with 256-bit masks is the VM's on every value it is used for |
| `ContractMasks.SravAgrees` | packages/contracts-bedrock/src/cannon/MIPS.sol:856-857 | srav gives the same result in both for every amount, 32 and above included |
| `ContractMasks.ProductAgrees` | packages/contracts-bedrock/src/cannon/MIPS.sol:409-420 | HI and LO from the contract's 64-bit accumulator are those of the exact product |
| `ContractMasks.StatusAgrees` | packages/contracts-bedrock/src/cannon/MIPS.sol:144-145 | masking and or-ing 256-bit words replaces the first byte of the hash |
| `Contract.StatusByte` | cannon/mipsevm/state.go:84-110 | the first byte of a state hash tells unfinished, valid, invalid and panic apart; the rest is the hash of the encoding |
| `AluMeaning.AddSub` | cannon/mipsevm/mips.go:509-516 | add and subtract, immediate forms included, are those of the signed values modulo 2^32 |
| `AluMeaning.Logic` | cannon/mipsevm/mips.go:517-524 | and, or, xor, nor and their immediate forms act on each bit |
| `AluMeaning.Comparisons` | cannon/mipsevm/mips.go:525-535 | sltu: the highest bit in which the operands differ decides; slt: differing sign bits decide the other way round, any other bit as for sltu; immediate forms included |
| `AluMeaning.LessByBits` | cannon/mipsevm/mips.go:530-535 | comparing numbers is comparing their bits from the top |
| `AluMeaning.LogicalShifts` | cannon/mipsevm/mips.go:465-475 | logical shifts and lui multiply and divide by powers of two |
| `AluMeaning.MulIsLow` | cannon/mipsevm/mips.go:544-545 | mul is the low word of mult |
| `Alu.CountLeadingOnes` | cannon/mipsevm/mips.go:546-554 | the counting loop ends with the number of leading ones |
| `AluMeaning.CountsLeading` | cannon/mipsevm/mips.go:546-554 | clo and clz: exactly that many leading ones (zeros) are followed by a zero (one) |
| `AluMeaning.SignExtends` | cannon/mipsevm/mips.go:605-614 | SE on a value below 2^idx is two's-complement extension, for idx 1 to 32 |
| `AluMeaning.SraIsFloorDivision` | cannon/mipsevm/mips.go:469-471 | sra is floor division by the power of two |
| `AluMeaning.MultIsProduct` | cannon/mipsevm/mips.go:270-277 | HI:LO is the exact 64-bit product, signed for mult and unsigned for multu |
| `AluMeaning.DivTruncates` | cannon/mipsevm/mips.go:278-280 | div truncates toward zero with the remainder taking the dividend's sign; it is exact except for the smallest value divided by -1 |
| `AluMeaning.DivRecomposes` | cannon/mipsevm/mips.go:278-283 | LO*rt+HI = rs modulo 2^32 for div and divu |
| `Unaligned.StoreLeft` | cannon/mipsevm/mips.go:584-587 | swl puts the high register bytes at the address and after, within the word |
| `Unaligned.StoreRight` | cannon/mipsevm/mips.go:590-593 | swr puts the low register bytes up to the address, within the word |
| `Unaligned.LoadLeft` | cannon/mipsevm/mips.go:562-565 | lwl fills the high register bytes |
| `Unaligned.LoadRight` | cannon/mipsevm/mips.go:572-575 | lwr fills the low register bytes |
| `Unaligned.LoadByte` | cannon/mipsevm/mips.go:558-569 | lb and lbu give the addressed byte, sign- or zero-extended |
| `Unaligned.LoadHalf` | cannon/mipsevm/mips.go:560-571 | lh and lhu give the addressed halfword, sign- or zero-extended |
| `Unaligned.StoreByte` | cannon/mipsevm/mips.go:576-579 | sb changes one byte of the word |
| `Unaligned.StoreHalf` | cannon/mipsevm/mips.go:580-583 | sh changes one halfword of the word |
| `Bits.BitwiseBit` | cannon/mipsevm/mips.go:517-522 | the bitwise operators act on each bit separately |
| `Bits.NotBit` | cannon/mipsevm/mips.go:523-524 | the complement flips each bit |
| `OracleSyscalls.WriteEffect` | cannon/mipsevm/mips.go:135-152 | one write shifts the next bytes of the buffer into the key and makes progress |
| `OracleSyscalls.ReadEffect` | cannon/mipsevm/mips.go:83-103 | one read puts the next bytes of the pre-image at the address, changes no other byte and makes progress before the end |
| `OracleSyscalls.KeyShiftedIn` | cannon/mipsevm/mips.go:135-152 | whatever the alignment and counts, the key is the last 32 bytes of the old key and everything written |
| `OracleSyscalls.Delivered` | cannon/mipsevm/mips.go:83-103 | whatever the alignment and counts, the buffer receives the next bytes of the pre-image |
| `OracleChannel.OracleStream.NextPreimageRequest` | op-preimage/oracle.go:51-74 | answers one 32-byte key with the length-prefixed value, reports the end of the stream, consumes a key it cannot serve |
| `OracleChannel.OracleStream.ReadValue` | op-preimage/oracle.go:28-37 | reads the length and that many bytes, or panics when they are missing |
| `OracleChannel.Get` | op-preimage/oracle.go:22-74 | client and server together: the client gets exactly the value of its key |
| `OracleChannel.ResponseParses` | op-preimage/oracle.go:28-37 | a response determines its value and where it ends |
| `Hints.ProcessHints` | cannon/mipsevm/mips.go:121-134 | the loop terminates and delivers what one-shot parsing of the buffer delivers, with the same leftover |
| `Hints.ParseSplit` | cannon/mipsevm/mips.go:121-134 | parsing a stream in two writes is parsing their concatenation |
| `Hints.FramesRoundTrip` | op-preimage/hints.go:21-27 | a concatenation of written frames parses back to the hints with nothing left over |
| `Hints.FramesInPieces` | op-preimage/hints.go:21-27 | the same for frames written in any pieces |
| `Hints.HintChannel.WriteHint` | op-preimage/hints.go:21-31 | writes the length-prefixed hint |
| `Hints.HintChannel.AwaitAck` | op-preimage/hints.go:31-38 | consumes one acknowledgement byte |
| `Hints.HintChannel.NextHint` | op-preimage/hints.go:48-71 | delivers the next hint and acknowledges it whether or not the router accepts it; the end of the stream is told apart from a truncated frame, which is an error |
| `Hints.Exchange` | op-preimage/hints.go:21-71 | one exchange: the router sees exactly the hint and the writer is unblocked |
| `CommQueue.Up` | op-plasma/dastate.go:42-48 | a heap but for one item that is too low becomes a heap with the same items |
| `CommQueue.Down` | op-plasma/dastate.go:42-48 | a heap but for a first item that is too high becomes a heap with the same items |
| `CommQueue.Push` | op-plasma/dastate.go:50-52 | the queue stays a heap by block number and gains exactly the commitment |
| `CommQueue.Pop` | op-plasma/dastate.go:54-61 | takes out the first commitment; the rest stays a heap |
| `CommQueue.FirstIsLowest` | op-plasma/dastate.go:41-44 | the first commitment has the lowest block number |
| `PlasmaState.State.constructor` | op-plasma/dastate.go:73-81 | an empty state meets the index and heap invariants |
| `PlasmaState.State.IsTracking` | op-plasma/dastate.go:85-93 | tells whether a challenge is one to follow; an unknown key gets tracked |
| `PlasmaState.State.TrackDetachedCommitment` | op-plasma/dastate.go:99-109 | adds a detached commitment to queue and index; consistency is kept |
| `PlasmaState.State.SetActiveChallenge` | op-plasma/dastate.go:113-119 | updates the tracked commitment only |
| `PlasmaState.State.SetResolvedChallenge` | op-plasma/dastate.go:124-131 | updates the tracked commitment only, keeping the input |
| `PlasmaState.State.SetInputCommitment` | op-plasma/dastate.go:136-148 | adds a canonical commitment to queue and index; consistency is kept |
| `PlasmaState.State.GetOrTrackChallenge` | op-plasma/dastate.go:152-159 | the tracked commitment, made canonical, or a new one |
| `PlasmaState.State.GetResolvedInput` | op-plasma/dastate.go:162-167 | the input of a tracked commitment |
| `PlasmaState.State.Reset` | op-plasma/dastate.go:223-228 | clears queues, index and finalized head |
| `PlasmaState.State.LedgerQueued` | op-plasma/dastate.go:63-71 | by the invariants the active queue holds indexed commitments, each once, the lowest block first |
| `PlasmaState.State.ExpireFirst` | op-plasma/dastate.go:175-196 | one round of expiry moves the first commitment |
| `PlasmaState.State.PruneFirst` | op-plasma/dastate.go:214-218 | one round of pruning removes the first expired commitment from queue and index |
| `Challenges.ExpiringStep` | op-plasma/dastate.go:173-200 | each round of the expiry loop keeps what expiry promises |
| `Challenges.ExpiryKeepsNoneBelow` | op-plasma/dastate.go:173-200 | expiry never finalizes past a commitment that is still active |
| `Challenges.StuckAtFinalized` | op-plasma/dastate.go:175-175 | an active commitment at or below the finalized head makes an expiry change nothing |
| `Challenges.StuckForGood` | op-plasma/dastate.go:175-200 | finalization stops: in every run, a commitment that is stuck at or below the finalized head stays active and the head stays where it is until a clearing reset |
| `Challenges.BlockedForGood` | op-plasma/dastate.go:175-175 | nothing can expire at any block if and only if the queue is empty or holds a commitment at or below the finalized head |
| `Challenges.ExpirySticks` | op-plasma/dastate.go:173-200 | an expiry gets a queue stuck if and only if a commitment that stays shares its block with a canonical one that moved |
| `Challenges.DueLeave` | op-plasma/dastate.go:173-200 | every due commitment leaves if they are above the head, in lower blocks than what is not due, and each due canonical one has a block of its own |
| `Challenges.DueLeaveExactly` | op-plasma/dastate.go:173-200 | with one commitment per block, every due commitment leaves if and only if those due are above the head and in lower blocks than the others |
| `ExpiryOrders.DueLeaveInAnyOrder` | op-plasma/dastate.go:173-200 | for any queue: every due commitment leaves, in whatever order the queue holds commitments of one block, if and only if those due are above the head, in lower blocks than the others, and each due canonical one shares its block with no other due one |
| `ExpiryOrders.SomeOutcome` | op-plasma/dastate.go:175-196 | the expiry loop on a sorted queue ends, having moved a prefix in which nothing follows a canonical commitment of its block |
| `Challenges.SameBlockSticks` | op-plasma/dastate.go:173-182 | a failing run from the empty state: two commitments derived in one block, of which expiry moves the first and leaves the second stuck |
| `Challenges.EventsJudge` | op-plasma/damgr.go:296-344 | after the events of a block each commitment is what it was, or the detached one its first event introduced, as changed by its last events for the right block |
| `Challenges.ReprocessedBlock` | op-plasma/damgr.go:251-286 | with a positive resolve window, applying a block's events again after it made challenges expire changes no commitment |
| `Challenges.ZeroWindowRevives` | op-plasma/damgr.go:338-340 | with a zero resolve window re-processing revives an expired challenge |
| `DaManager.DA.ApplyOne` | op-plasma/damgr.go:388-396 | one event tracks its commitment, which joins the active queue when it is new, and updates it when challenged for the right block |
| `DaManager.DA.LoadChallengeEvents` | op-plasma/damgr.go:289-346 | the book after the events of a block; the active queue gains exactly the newly tracked keys; an error changes nothing |
| `DaManager.DA.AdvanceL1Origin` | op-plasma/damgr.go:251-286 | skips old blocks; otherwise events, then expiry; a required reorg leaves the origin and marks the reset; it fails if and only if L1 fails to answer; the origin moves only on success |
| `DaManager.DA.Reset` | op-plasma/damgr.go:152-166 | the first reset after a required reorg keeps the state, any other clears it |
| `DaManager.DA.Finalize` | op-plasma/damgr.go:120-137 | passes on the lower of the two finalized heads and prunes by it |
| `DaManager.DA.LookAhead` | op-plasma/damgr.go:142-149 | processes the block after the origin as AdvanceL1Origin does; changes nothing when L1 has no such block |
| `DaManager.DA.GetInput` | op-plasma/damgr.go:170-240 | data in storage is returned unless the challenge has lapsed; a lapsed challenge is skipped; without data a resolved one gives its input, an open one waits and the next block is processed, an unchallenged one past its window is missing; the commitment is tracked, and nothing else changes unless the answer has to wait |
| `DaManager.InputAfterResolution` | op-plasma/damgr.go:214-226 | after a resolution, a commitment whose data storage does not have gets the input of the resolution |
| `DaManager.InputAfterBlock` | op-plasma/damgr.go:214-346 | the same after a block whose last verdict on the commitment is a resolution |
| `DaManager.DerivedAs` | op-plasma/dastate.go:152-159 | a tracked commitment keeps all it has and becomes canonical; a new one starts with the challenge window |
| `DaManager.DA.EventsThatCount` | op-plasma/damgr.go:289-360 | generic commitments have no events; otherwise those of the block are applied, and nothing happens when L1 does not give them |
| `DaManager.DA.NextOrigin` | op-plasma/damgr.go:142-149 | a look-ahead that succeeds moves the origin to the block after it |
| `Challenges.ResolutionStands` | op-plasma/dastate.go:124-131 | over every run a resolution with its input stands until the next verdict on the commitment, as long as that is tracked |
| `Challenges.VerdictMeans` | op-plasma/dastate.go:113-131 | a challenge sets the deadline, a resolution the input, and nothing else changes |
| `Challenges.TrackMeans` | op-plasma/dastate.go:85-109 | a commitment first heard of in an event is not canonical and expires at its block |
| `Challenges.CanonicalOnlyIfDerived` | op-plasma/dastate.go:99-109 | over every run a commitment that derivation has not met is not canonical |
| `Challenges.DetachedIsHarmless` | op-plasma/dastate.go:173-200 | an expiry that moves only such commitments finalizes nothing and asks for no reorg |
| `Challenges.PrunedExactly` | op-plasma/dastate.go:204-219 | what is forgotten: expired commitments more than 200 blocks below the head |
| `DaManager.ExpiredIsSkipped` | op-plasma/damgr.go:206-208 | a commitment whose challenge expired counts as lapsed from then on |
| `Consensus.FindLowest` | proxyd/consensus_poller.go:403-418 | for every iteration order the minima of latest, safe and finalized heights, positive heights given |
| `Consensus.Round` | proxyd/consensus_poller.go:433-458 | for every iteration order one round tells whether all answering candidates agree on the block, and whether one broke consensus |
| `Consensus.WalkBack` | proxyd/consensus_poller.go:420-468 | terminates at the highest agreed height; broken exactly when disagreement goes below the tracked block |
| `Consensus.Resolve` | proxyd/consensus_poller.go:399-468 | minima and walk-back together, no candidates included |
| `Consensus.HighestAgreedUnique` | proxyd/consensus_poller.go:433-467 | there is one highest agreed height, so the order of asking does not matter |
| `Consensus.ConsensusPoller.Highest` | proxyd/consensus_poller.go:719-724 | the highest latest block of the candidates |
| `Consensus.ConsensusPoller.FilterCandidates` | proxyd/consensus_poller.go:688-741 | exactly the eligible backends that no eligible backend leads by more than the lag limit |
| `Consensus.ConsensusPoller.CandidateIff` | proxyd/consensus_poller.go:680-741 | a backend of the role is a candidate if and only if it is forced, or not banned, healthy, in sync, fresh and with enough peers, and no such backend leads it by more than the limit |
| `Consensus.ConsensusPoller.PrimariesFirst` | proxyd/consensus_poller.go:666-676 | when a primary is a candidate, all candidates are primaries |
| `Consensus.ConsensusPoller.CandidatesFaultless` | proxyd/consensus_poller.go:487-498 | no backend that is banned, unhealthy, out of sync, stale or short of peers is in the group, unless it is forced |
| `Consensus.FaultyHaveNoSay` | proxyd/consensus_poller.go:393-516 | two updates that differ in what faulty backends are thought to have and in what they answer track the same blocks and make up the same group |
| `Consensus.ConsensusPoller.GetConsensusCandidates` | proxyd/consensus_poller.go:666-676 | primaries take precedence over fallbacks |
| `Consensus.ConsensusPoller.GroupOf` | proxyd/consensus_poller.go:487-498 | the consensus group holds exactly the candidates |
| `RpcBackend.SortByPosition` | proxyd/backend.go:700-704 | a permutation of the responses, ordered by the position of their ids |
| `RpcBackend.SortBatchRPCResponse` | proxyd/backend.go:690-705 | panics exactly on duplicate ids; a permutation of the right ids ends up in request order |
| `RpcBackend.OrderedIsAligned` | proxyd/backend.go:690-705 | responses ordered by position stand where their requests stand |
| `RpcBackend.DoForward` | proxyd/backend.go:467-653 | a reply has one answer per request in request order; the sorter does not panic; a wrong count is an error; a receipts error comes exactly from a receipts request in a batch or from the backend |
| `RpcBackend.BackendGroup.Split` | proxyd/backend.go:744-789 | the overridden responses with their indices, and the rest in order |
| `RpcBackend.ReapplyOverrides` | proxyd/backend.go:839-847 | re-inserting by recorded index, always within bounds, gives each request its response |
| `RpcBackend.NextOverride` | proxyd/backend.go:759-788 | every request between two overrides was forwarded |
| `RpcBackend.MergedServes` | proxyd/backend.go:839-849 | the merged list has response i for request i |
| `RpcServer.FileRequests` | proxyd/server.go:423-505 | every request is answered at once or filed in exactly the batch of its id repetition and group |
| `RpcServer.BatchIdsDistinct` | proxyd/server.go:499-504 | the ids within a batch are distinct |
| `RpcServer.Cache.GetRPC` | proxyd/server.go:512-516 | a cache hit answers the request under its own id |
| `RpcServer.Cache.PutRPC` | proxyd/server.go:562-563 | the cache stays sound |
| `RpcServer.LookUp` | proxyd/server.go:510-520 | fills the cached slots and leaves the rest in order |
| `RpcServer.ForwardChunk` | proxyd/server.go:537-556 | what the group replied, or the error for each request; it fails only for a receipts request |
| `RpcServer.FillChunk` | proxyd/server.go:558-571 | fills exactly the slots of the mini-batch, each while empty |
| `RpcServer.ServeBatch` | proxyd/server.go:509-573 | cache and mini-batches fill exactly the slots of the batch; it stops only at a passed deadline or a receipts request that fails |
| `RpcServer.PieceBounds` | proxyd/server.go:523-537 | the mini-batches cover the misses without overlap |
| `RpcServer.BatchesApart` | proxyd/server.go:509-516 | different batches have no slots in common |
| `RpcServer.AllServed` | proxyd/server.go:507-583 | when all batches are served, every slot has its response |

## Left out

- MemoryRange.MemReader.Read: a range that wraps around and ends in the page it started in is excluded; the source panics there, or reads zeros when the page is missing.
- MemoryRange.ReadAll: the same ranges are excluded.
- MemoryRange.LoadThenRead: ranges past 2^32 are excluded.
- MemoryRange.SetMemoryRange: the reader is a value with the contract of io.Reader and does not fail midway; ranges past 2^32 are excluded.
- Hints.ProcessHints: buffers of 4 GiB and more are excluded, because the source compares lengths as uint32.
- Instrumented.InstrumentedState.WriteStream: a written range must not come back to its first page, and pending hint bytes stay below 4 GiB.
- Instrumented.InstrumentedState.Step: a stream write outside these bounds is excluded, and so it is from the handlers a step goes through and from the runs of VmRun.
- Witness.OracleAnswers: the pre-image handed to a loader is the one its key stands for; which bytes a hash, a blob commitment or a precompile call stands for is left to the oracle, and so are calldata and gas limits and the large-pre-image proposals.
- Page.CachedPage.MerkleRoot: data, hashes and flags of a page are sequence fields that the methods reassign, not Go arrays; sharing of a page's buffer outside the memory is not captured.
- Sufficiency.StepStateSufficient: the contract's instruction handlers are the same functions as the VM's; what `ContractMasks` proves equal (pre-image bytes, sign extension, products, status byte) is where the Solidity text computes differently; its stack layout and call data offsets are not modelled, nor is key localization.
- OracleSyscalls.GetBySyscalls: pre-images of 4 GiB and more are excluded, since the offset is a uint32 and the guest's buffer cannot hold them.
- Consensus.ConsensusPoller.UpdateBackendGroupConsensus: positive latest heights, chains that do not change during the update and a shared block 0 are preconditions; without the last one the walk-back would run below block 0.
- Consensus.FindLowest: positive latest heights are a precondition, since the source takes zero for none yet and the minimum then depends on the iteration order.
- Consensus.WalkBack: chains that change during the walk and disagreement on block 0 are excluded.
- Consensus.Resolve: the preconditions of both.
- PlasmaState.State.TrackDetachedCommitment: a key that is tracked already is excluded, as its only caller does; the source would queue it twice.
- PlasmaState.State.SetInputCommitment: a key that is tracked already is excluded, as its only caller does; the source would queue it twice.
- RpcBackend.BackendGroup.Forward: the backends are given in the order in which they are tried; how a consensus group shuffles them is not modelled.
- RpcBackend.DoForward: the receipts translation for single requests and the HTTP exchange, retries and health windows are not modelled.
- RpcServer.Server.HandleBatchRPC: requests are values; the rewriting in place of a request is modelled by the form in which it was sent.
- DaManager.DA.LoadChallengeEvents: events are given decoded, with the resolution input already checked, and carry the number of the block they are in.
- JSON encoding of memory, pages and state, the ELF loader and patcher, debug stack and symbols, and the command line runners.
- The candidates' health, peer count, sync and ban bookkeeping of UpdateBackend, the Redis tracker, rate limiters and string sets.
- Commitment encodings, the DA client and server, metrics and logging.
