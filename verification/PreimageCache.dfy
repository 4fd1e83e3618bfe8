/** The VM's cache of the last pre-image, as a value: what a read sees, and when that is the oracle's answer
    (cannon/mipsevm/instrumented.go, readPreimage in cannon/mipsevm/mips.go). */
module PreimageCache {
  import opened Bytes
  import opened FlatStep

  type Oracle = Digest -> Preimage

  /** The last key and its pre-image, with the 8-byte length prefix. */
  datatype Cache = Cache(key: Digest, prefixed: seq<Byte>)

  /** The cache of a new VM. */
  const UNUSED := Cache(ZERO_DIGEST, [])

  /** What a read under this key sees: the oracle is asked only when the key is not the last one. */
  function Seen(oracle: Oracle, cache: Cache, key: Digest): seq<Byte> {
    if key == cache.key then cache.prefixed else Prefixed(oracle(key))
  }

  /** The cache after the read. */
  function Fetched(oracle: Oracle, cache: Cache, key: Digest): Cache {
    Cache(key, Seen(oracle, cache, key))
  }

  /** The cached pre-image is the one of its key, if any was fetched. */
  predicate CacheOk(oracle: Oracle, cache: Cache) {
    cache == UNUSED || cache.prefixed == Prefixed(oracle(cache.key))
  }

  /** The key is not zero, or a pre-image was fetched before. */
  predicate IsServed(cache: Cache, key: Digest) {
    key != ZERO_DIGEST || cache != UNUSED
  }

  /** A read sees the oracle's pre-image of its key exactly when it is served; otherwise it sees nothing at all. */
  lemma SeenIsServed(oracle: Oracle, cache: Cache, key: Digest)
    requires CacheOk(oracle, cache)
    ensures Seen(oracle, cache, key) == Prefixed(oracle(key)) <==> IsServed(cache, key)
    ensures !IsServed(cache, key) ==> Seen(oracle, cache, key) == []
  {
    assert |Prefixed(oracle(key))| >= 8;
  }

  /** The next read under the same key sees the same; once served, every later read is served. */
  lemma FetchedAgain(oracle: Oracle, cache: Cache, key: Digest)
    requires CacheOk(oracle, cache)
    ensures CacheOk(oracle, Fetched(oracle, cache, key))
    ensures Seen(oracle, Fetched(oracle, cache, key), key) == Seen(oracle, cache, key)
    ensures if IsServed(cache, key) then Fetched(oracle, cache, key) != UNUSED
              else Fetched(oracle, cache, key) == UNUSED
  {
    assert |Prefixed(oracle(key))| >= 8;
  }
}
