/** The pre-image oracle contract: what its loaders store for reading at one offset, and what the read gives
    (packages/contracts-bedrock/src/cannon/PreimageOracle.sol). */
module OnChainOracle {
  import opened Alu
  import opened Bytes
  import opened FlatStep

  const LOCAL_KEY: Byte := 1
  const KECCAK256_KEY: Byte := 2
  const SHA256_KEY: Byte := 4
  const BLOB_KEY: Byte := 5
  const PRECOMPILE_KEY: Byte := 6

  const BLOB_ELEMENT := 32  // the length of a field element

  /** The parts that may be read, and the length of each pre-image without its prefix. */
  datatype PartStore = PartStore(parts: map<(Digest, nat), Digest>, lengths: map<Digest, nat>)

  const NO_PARTS := PartStore(map[], map[])

  /** The 32-byte word at `at`; memory that was never written is zero. */
  function MLoad(mem: seq<Byte>, at: nat): Digest {
    seq<Byte>(32, (i: nat) => if at + i < |mem| then mem[at + i] else 0)
  }

  /** The end of every loader: the prefixed value stands in memory, after it whatever was there before. */
  function WithPart(store: PartStore, key: Digest, value: Preimage, offset: nat, junk: seq<Byte>): PartStore {
    PartStore(store.parts[(key, offset) := MLoad(Prefixed(value) + junk, offset)], store.lengths[key := |value|])
  }

  function LoadLocalData(store: PartStore, key: Digest, value: Preimage, offset: nat,
                         junk: seq<Byte>): Outcome<PartStore> {
    if offset > |value| + 8 || |value| > 32 then Fault else Ok(WithPart(store, key, value, offset, junk))
  }

  /** keccak256 and sha256 data. */
  function LoadPreimagePart(store: PartStore, key: Digest, value: Preimage, offset: nat,
                            junk: seq<Byte>): Outcome<PartStore> {
    if offset < |value| + 8 then Ok(WithPart(store, key, value, offset, junk)) else Fault
  }

  /** The value is a field element. */
  function LoadBlobPart(store: PartStore, key: Digest, value: Preimage, offset: nat,
                        junk: seq<Byte>): Outcome<PartStore>
    requires |value| == BLOB_ELEMENT
  {
    if offset < 0x28 then Ok(WithPart(store, key, value, offset, junk)) else Fault
  }

  /** The value is the status of the call and what it returned. */
  function LoadPrecompilePart(store: PartStore, key: Digest, status: Byte, returned: seq<Byte>, offset: nat,
                              junk: seq<Byte>): Outcome<PartStore>
    requires 1 + |returned| < 0x1_0000_0000_0000_0000
  {
    var size := 1 + |returned|;
    if offset < size + 8 then Ok(WithPart(store, key, [status] + returned, offset, junk)) else Fault
  }

  /** The loader for the type of the key; there is none for other types, nor for a value that no field element and no
      precompile call has. */
  function Load(store: PartStore, key: Digest, value: Preimage, offset: nat, junk: seq<Byte>): Outcome<PartStore> {
    if key[0] == LOCAL_KEY then LoadLocalData(store, key, value, offset, junk)
    else if key[0] == KECCAK256_KEY || key[0] == SHA256_KEY then LoadPreimagePart(store, key, value, offset, junk)
    else if key[0] == BLOB_KEY then
      if |value| == BLOB_ELEMENT then LoadBlobPart(store, key, value, offset, junk) else Fault
    else if key[0] == PRECOMPILE_KEY then
      if value == [] then Fault else LoadPrecompilePart(store, key, value[0], value[1..], offset, junk)
    else Fault
  }

  /** readPreimage: the part and how many of its bytes count; the subtraction is checked. */
  function ReadPreimage(store: PartStore, key: Digest, offset: nat): Outcome<(Digest, nat)> {
    if (key, offset) !in store.parts then Fault
    else
      var length := if key in store.lengths then store.lengths[key] else 0;
      if offset + 32 < length + 8 then Ok((store.parts[(key, offset)], 32))
      else if length + 8 < offset then Fault
      else Ok((store.parts[(key, offset)], length + 8 - offset))
  }

  /** The bytes that count. */
  function Delivered(r: Outcome<(Digest, nat)>): Outcome<seq<Byte>> {
    match r
    case Ok(part) => if part.1 <= 32 then Ok(part.0[..part.1]) else Fault
    case Fault => Fault
  }

  /** Whether the chain can be given a pre-image under this key for reading at the offset: local data of at most 32
      bytes, also at its end, or global data before its end. */
  predicate Loadable(key: Digest, prefixed: seq<Byte>, offset: nat) {
    && 8 <= |prefixed|
    && offset <= |prefixed|
    && if key[0] == 1 then |prefixed| <= 8 + 32
       else
         && offset < |prefixed|
         && (key[0] in {2, 4} || (key[0] == 5 && |prefixed| == 8 + 32) || (key[0] == 6 && |prefixed| > 8))
  }

  lemma LoadsIff(store: PartStore, key: Digest, value: Preimage, offset: nat, junk: seq<Byte>)
    ensures Load(store, key, value, offset, junk).Ok? <==> Loadable(key, Prefixed(value), offset)
  {
    hide WithPart;
  }

  lemma LoadStores(store: PartStore, key: Digest, value: Preimage, offset: nat, junk: seq<Byte>)
    ensures var r := Load(store, key, value, offset, junk); r.Ok? ==>
              r.value == WithPart(store, key, value, offset, junk)
  {
    hide WithPart;
    if value != [] {
      assert [value[0]] + value[1..] == value;
    }
  }

  /** What was loaded reads back: the read gives the next bytes, at most 32, of the length-prefixed pre-image, whatever
      stood behind it in memory. */
  lemma LoadedReads(store: PartStore, key: Digest, value: Preimage, offset: Word, junk: seq<Byte>)
    requires Load(store, key, value, offset, junk).Ok?
    ensures Chunk(Prefixed(value), offset).Ok?
    ensures Delivered(ReadPreimage(Load(store, key, value, offset, junk).value, key, offset))
              == Chunk(Prefixed(value), offset)
  {
    hide Load;
    LoadsIff(store, key, value, offset, junk);
    LoadStores(store, key, value, offset, junk);
    var prefixed := Prefixed(value);
    var n := if offset + 32 < |prefixed| then 32 else |prefixed| - offset;
    var part := MLoad(prefixed + junk, offset);
    forall i: nat | i < n ensures part[..n][i] == prefixed[offset..offset + n][i] {
    }
    assert part[..n] == prefixed[offset..offset + n];
  }

  /** A load touches the reads under its key only. */
  lemma OtherReads(store: PartStore, key: Digest, value: Preimage, offset: nat, junk: seq<Byte>, key': Digest,
                   offset': nat)
    requires Load(store, key, value, offset, junk).Ok? && key' != key
    ensures ReadPreimage(Load(store, key, value, offset, junk).value, key', offset')
              == ReadPreimage(store, key', offset')
  {
    hide Load, MLoad;
    LoadStores(store, key, value, offset, junk);
  }
}
