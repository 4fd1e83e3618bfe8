/** The pre-image oracle seen by a guest program: writes of 32 key bytes to descriptor 6, reads from descriptor 5
    (cannon/mipsevm/mips.go), refining the oracle server of op-preimage/oracle.go. */
module OracleSyscalls {
  import opened Alu
  import opened Bytes
  import opened FlatMemory
  import opened Mips
  import opened FlatStep
  import opened OracleChannel
  import opened PreimageCache
  import opened RangeLoad

  /** The registers a guest sets up for a read or write. */
  function Call(cpu: Cpu, num: Word, fd: Word, addr: Word, count: Word): Cpu {
    cpu.(registers := cpu.registers[2 := num][4 := fd][5 := addr][6 := count])
  }

  function WriteCall(cpu: Cpu, c: Contents, addr: Word, count: Word): Outcome<(Cpu, Store)> {
    HandleSyscall(Call(cpu, SYS_WRITE, FD_PREIMAGE_WRITE, addr, count), WordAt(c, AlignDown(addr)), Fault)
  }

  function ReadCall(cpu: Cpu, c: Contents, prefixed: seq<Byte>, addr: Word, count: Word): Outcome<(Cpu, Store)> {
    HandleSyscall(Call(cpu, SYS_READ, FD_PREIMAGE_READ, addr, count), WordAt(c, AlignDown(addr)),
        Chunk(prefixed, cpu.preimageOffset))
  }

  lemma WordSlice(c: Contents, addr: Word, n: nat)
    requires addr % 4 + n <= 4
    ensures WordBytes(WordAt(c, AlignDown(addr)))[addr % 4..addr % 4 + n] == FlatBytes(c, addr, n)
  {
    hide FlatByte, WordBytes;
    WordOfBytes(FlatBytes(c, AlignDown(addr), 4));
  }

  /** Merging the first n bytes of dat into the word at addr writes them to the flat memory from addr on. */
  lemma MergedBytes(c: Contents, addr: Word, dat: seq<Byte>, n: nat)
    requires Paged(c) && n <= |dat| && addr % 4 + n <= 4
    ensures var merged := MergeBytes(WordAt(c, AlignDown(addr)), addr % 4, dat, n);
            Loaded(c, SetWord(c, AlignDown(addr), merged), addr, dat[..n])
  {
    hide SetWord, FlatByte, WordAt, WordBytes, BytesWord;
    var w: nat, at := AlignDown(addr), addr % 4;
    var mem := WordAt(c, w);
    var bytes := WordBytes(mem)[..at] + dat[..n] + WordBytes(mem)[at + n..];
    var v := MergeBytes(mem, at, dat, n);
    WordOfBytes(bytes);
    var c' := SetWord(c, w, v);
    forall b: nat ensures FlatByte(c', b) == if addr <= b < addr + n then dat[..n][b - addr] else FlatByte(c, b) {
      SetWordBytes(c, w, v, b);
      if w <= b < w + 4 {
        var j := b - w;
        ByteOfWord(c, w, j);
        assert bytes[j] == if at <= j < at + n then dat[j - at] else WordBytes(mem)[j];
      }
    }
  }

  /** The memory after a successful read. */
  function AfterRead(c: Contents, addr: Word, r: (Cpu, Store)): (c': Contents)
    requires Paged(c)
    ensures Paged(c')
  {
    Stored(c, Access(AlignDown(addr)), r.1)
  }

  /** The guest after one write, and how much it was told it wrote. */
  function WriteOnce(cpu: Cpu, c: Contents, addr: Word, count: Word): (Cpu, Word) {
    match WriteCall(cpu, c, addr, count)
    case Ok(r) => (r.0, r.0.registers[2])
    case Fault => (cpu, 0)
  }

  /** The guest and its memory after one read, and how much it was told it read. */
  function ReadOnce(cpu: Cpu, c: Contents, prefixed: seq<Byte>, addr: Word, count: Word): (r: (Cpu, Contents, Word))
    requires Paged(c)
    ensures Paged(r.1)
  {
    match ReadCall(cpu, c, prefixed, addr, count)
    case Ok(r) => (r.0, AfterRead(c, addr, r), r.0.registers[2])
    case Fault => (cpu, c, 0)
  }

  /** One write: the bytes at addr, as many as fit in the word, enter the key at its end. */
  lemma WriteEffect(cpu: Cpu, c: Contents, addr: Word, count: Word)
    ensures WriteCall(cpu, c, addr, count).Ok?
    ensures var r := WriteOnce(cpu, c, addr, count);
            var n := r.1;
            && n <= count && n <= 4 && (count > 0 ==> n > 0)
            && r.0.preimageKey == cpu.preimageKey[n..] + FlatBytes(c, addr, n) && r.0.preimageOffset == 0
  {
    hide FlatBytes, WordBytes, WordAt;
    WordSlice(c, addr, WriteLength(addr, count));
  }

  /** One read: the next bytes of the pre-image, as many as fit in the word, go to addr. */
  lemma ReadEffect(cpu: Cpu, c: Contents, prefixed: seq<Byte>, addr: Word, count: Word)
    requires Paged(c) && cpu.preimageOffset <= |prefixed|
    ensures ReadCall(cpu, c, prefixed, addr, count).Ok?
    ensures var r := ReadOnce(cpu, c, prefixed, addr, count);
            var n, o := r.2, cpu.preimageOffset;
            && n <= count && n <= 4 && o + n <= |prefixed| && (count > 0 && o < |prefixed| ==> n > 0)
            && r.0.preimageOffset == Wrap(o + n) && r.0.preimageKey == cpu.preimageKey
            && Loaded(c, r.1, addr, prefixed[o..o + n])
  {
    hide SetWord, WordAt, MergeBytes, Loaded;
    var o := cpu.preimageOffset;
    var dat := Chunk(prefixed, o).value;
    var n := ReadLength(addr, count, |dat|);
    MergedBytes(c, addr, dat, n);
    assert dat[..n] == prefixed[o..o + n];
  }

  predicate Positive(counts: seq<Word>) {
    forall i | 0 <= i < |counts| :: counts[i] > 0
  }

  /** Writes from a buffer of len bytes at addr until it is used up: each call asks for at most the given count. */
  function KeyWrites(cpu: Cpu, c: Contents, addr: nat, len: nat, counts: seq<Word>): (r: (Cpu, nat))
    requires addr + len <= 0x1_0000_0000
    ensures r.1 <= len
    decreases |counts|
  {
    if counts == [] || len == 0 then (cpu, len)
    else
      var r := WriteOnce(cpu, c, addr, Min(counts[0], len));
      var n := Min(r.1, len);
      KeyWrites(r.0, c, addr + n, len - n, counts[1..])
  }

  lemma KeyWritesDone(cpu: Cpu, c: Contents, addr: nat, len: nat, counts: seq<Word>)
    requires addr + len <= 0x1_0000_0000 && (counts == [] || len == 0)
    ensures KeyWrites(cpu, c, addr, len, counts) == (cpu, len)
    ensures cpu.preimageKey[0..] + FlatBytes(c, addr, 0) == cpu.preimageKey
  {
  }

  /** The first of several writes. */
  lemma KeyWritesStep(cpu: Cpu, c: Contents, addr: nat, len: nat, counts: seq<Word>)
    requires addr + len <= 0x1_0000_0000 && len <= 32 && counts != [] && len > 0
    ensures var r := WriteOnce(cpu, c, addr, Min(counts[0], len));
            && r.1 <= len && (counts[0] > 0 ==> r.1 > 0)
            && KeyWrites(cpu, c, addr, len, counts) == KeyWrites(r.0, c, addr + r.1, len - r.1, counts[1..])
            && r.0.preimageKey == cpu.preimageKey[r.1..] + FlatBytes(c, addr, r.1) && r.0.preimageOffset == 0
  {
    hide FlatBytes, WriteOnce, WriteCall;
    WriteEffect(cpu, c, addr, Min(counts[0], len));
  }

  /** Whatever the alignment and the counts, the key is the last 32 bytes of the old key and everything written. */
  lemma {:induction false} KeyShiftedIn(cpu: Cpu, c: Contents, addr: nat, len: nat, counts: seq<Word>)
    requires addr + len <= 0x1_0000_0000 && len <= 32
    ensures var r := KeyWrites(cpu, c, addr, len, counts);
            var m := len - r.1;
            && r.0.preimageKey == cpu.preimageKey[m..] + FlatBytes(c, addr, m)
            && (m > 0 || cpu.preimageOffset == 0 ==> r.0.preimageOffset == 0)
            && (Positive(counts) && |counts| >= len ==> m == len)
    decreases |counts|
  {
    hide FlatBytes, WriteOnce, KeyWrites, Positive;
    if counts == [] || len == 0 {
      KeyWritesDone(cpu, c, addr, len, counts);
    } else {
      PositiveTail(counts);
      KeyWritesStep(cpu, c, addr, len, counts);
      var r := WriteOnce(cpu, c, addr, Min(counts[0], len));
      var rest := KeyWrites(r.0, c, addr + r.1, len - r.1, counts[1..]);
      KeyShiftedIn(r.0, c, addr + r.1, len - r.1, counts[1..]);
      ShiftedTwice(cpu.preimageKey, c, addr, r.1, len - r.1 - rest.1);
    }
  }

  lemma ShiftedTwice(key: Digest, c: Contents, addr: nat, n: nat, m: nat)
    requires n + m <= 32
    ensures (key[n..] + FlatBytes(c, addr, n))[m..] + FlatBytes(c, addr + n, m)
              == key[n + m..] + FlatBytes(c, addr, n + m)
  {
    FlatBytesAppend(c, addr, n, m);
  }

  lemma PositiveTail(counts: seq<Word>)
    requires counts != []
    ensures Positive(counts) ==> counts[0] > 0 && Positive(counts[1..])
  {
  }

  /** Reads into a buffer of len bytes at addr, each call asking for at most the given count. */
  function Reads(cpu: Cpu, c: Contents, prefixed: seq<Byte>, addr: nat, len: nat,
                 counts: seq<Word>): (r: (Cpu, Contents, nat))
    requires Paged(c) && addr + len <= 0x1_0000_0000
    ensures r.2 <= len && Paged(r.1)
    decreases |counts|
  {
    if counts == [] || len == 0 then (cpu, c, len)
    else
      var r := ReadOnce(cpu, c, prefixed, addr, Min(counts[0], len));
      var n := Min(r.2, len);
      Reads(r.0, r.1, prefixed, addr + n, len - n, counts[1..])
  }

  /** Two loads in a row are one. */
  lemma LoadedTwice(c: Contents, c1: Contents, c2: Contents, addr: nat, a: seq<Byte>, b: seq<Byte>)
    requires Loaded(c, c1, addr, a) && Loaded(c1, c2, addr + |a|, b)
    ensures Loaded(c, c2, addr, a + b)
  {
    hide FlatByte;
    forall x: nat ensures FlatByte(c2, x) == if addr <= x < addr + |a + b| then (a + b)[x - addr] else FlatByte(c, x) {
      assert FlatByte(c1, x) == if addr <= x < addr + |a| then a[x - addr] else FlatByte(c, x);
    }
  }

  lemma LoadedNothing(c: Contents, addr: nat, s: seq<Byte>)
    requires s == []
    ensures Loaded(c, c, addr, s)
  {
  }

  lemma ReadsDone(cpu: Cpu, c: Contents, prefixed: seq<Byte>, addr: nat, len: nat, counts: seq<Word>)
    requires Paged(c) && addr + len <= 0x1_0000_0000 && (counts == [] || len == 0)
    ensures Reads(cpu, c, prefixed, addr, len, counts) == (cpu, c, len)
  {
  }

  /** The first of several reads. */
  lemma ReadsStep(cpu: Cpu, c: Contents, prefixed: seq<Byte>, addr: nat, len: nat, counts: seq<Word>)
    requires Paged(c) && addr + len <= 0x1_0000_0000 && cpu.preimageOffset <= |prefixed| && counts != [] && len > 0
    requires cpu.preimageOffset + len < 0x1_0000_0000
    ensures var r := ReadOnce(cpu, c, prefixed, addr, Min(counts[0], len));
            var o, n := cpu.preimageOffset, r.2;
            && n <= len && o + n <= |prefixed| && (counts[0] > 0 && o < |prefixed| ==> n > 0)
            && Reads(cpu, c, prefixed, addr, len, counts) == Reads(r.0, r.1, prefixed, addr + n, len - n, counts[1..])
            && r.0.preimageOffset == o + n && r.0.preimageKey == cpu.preimageKey
            && Loaded(c, r.1, addr, prefixed[o..o + n])
  {
    hide Loaded, ReadOnce, ReadCall;
    ReadEffect(cpu, c, prefixed, addr, Min(counts[0], len));
  }

  /** Whatever the alignment and the counts, the buffer receives the next bytes of the pre-image and no other byte of
      memory changes; the offset moves along and never passes the end.  Reads that ask for something make progress to
      the end. */
  lemma {:induction false} Delivered(cpu: Cpu, c: Contents, prefixed: seq<Byte>, addr: nat, len: nat, counts: seq<Word>)
    requires Paged(c) && addr + len <= 0x1_0000_0000 && cpu.preimageOffset <= |prefixed|
    requires cpu.preimageOffset + len < 0x1_0000_0000
    ensures var r := Reads(cpu, c, prefixed, addr, len, counts);
            var m, o := len - r.2, cpu.preimageOffset;
            && o + m <= |prefixed| && Loaded(c, r.1, addr, prefixed[o..o + m])
            && r.0.preimageOffset == o + m && r.0.preimageKey == cpu.preimageKey
            && (Positive(counts) && |counts| >= Min(len, |prefixed| - o) ==> m == Min(len, |prefixed| - o))
    decreases |counts|
  {
    hide Loaded, ReadOnce, Reads, Positive;
    var o: nat := cpu.preimageOffset;
    if counts == [] || len == 0 {
      ReadsDone(cpu, c, prefixed, addr, len, counts);
      LoadedNothing(c, addr, prefixed[o..o]);
    } else {
      PositiveTail(counts);
      ReadsStep(cpu, c, prefixed, addr, len, counts);
      var r := ReadOnce(cpu, c, prefixed, addr, Min(counts[0], len));
      var n: nat := r.2;
      Delivered(r.0, r.1, prefixed, addr + n, len - n, counts[1..]);
      var rest := Reads(r.0, r.1, prefixed, addr + n, len - n, counts[1..]);
      var m: nat := len - n - rest.2;
      assert prefixed[o..o + n] + prefixed[o + n..o + n + m] == prefixed[o..o + n + m];
      LoadedTwice(c, r.1, rest.1, addr, prefixed[o..o + n], prefixed[o + n..o + n + m]);
    }
  }

  /** The same reads on the VM, each seeing what its cache of the last pre-image lets it see. */
  function GuestReads(cpu: Cpu, c: Contents, oracle: Oracle, cache: Cache, addr: nat, len: nat,
                      counts: seq<Word>): (r: (Cpu, Contents, nat, Cache))
    requires Paged(c) && addr + len <= 0x1_0000_0000
    ensures r.2 <= len && Paged(r.1)
    decreases |counts|
  {
    if counts == [] || len == 0 then (cpu, c, len, cache)
    else
      var r := ReadOnce(cpu, c, Seen(oracle, cache, cpu.preimageKey), addr, Min(counts[0], len));
      var n := Min(r.2, len);
      GuestReads(r.0, r.1, oracle, Fetched(oracle, cache, cpu.preimageKey), addr + n, len - n, counts[1..])
  }

  lemma ReadKeepsKey(cpu: Cpu, c: Contents, prefixed: seq<Byte>, addr: Word, count: Word)
    requires Paged(c)
    ensures ReadOnce(cpu, c, prefixed, addr, count).0.preimageKey == cpu.preimageKey
  {
    hide SetWord, WordAt, MergeBytes;
  }

  /** All reads under one key see the same pre-image. */
  lemma {:induction false} GuestReadsSee(cpu: Cpu, c: Contents, oracle: Oracle, cache: Cache, addr: nat, len: nat,
                                         counts: seq<Word>)
    requires Paged(c) && addr + len <= 0x1_0000_0000 && CacheOk(oracle, cache)
    ensures var key := cpu.preimageKey;
            var r, g := Reads(cpu, c, Seen(oracle, cache, key), addr, len, counts),
                        GuestReads(cpu, c, oracle, cache, addr, len, counts);
            && g.0 == r.0 && g.1 == r.1 && g.2 == r.2
            && CacheOk(oracle, g.3) && Seen(oracle, g.3, key) == Seen(oracle, cache, key)
    decreases |counts|
  {
    hide ReadOnce, Seen, Fetched, CacheOk;
    if counts != [] && len != 0 {
      var r := ReadOnce(cpu, c, Seen(oracle, cache, cpu.preimageKey), addr, Min(counts[0], len));
      ReadKeepsKey(cpu, c, Seen(oracle, cache, cpu.preimageKey), addr, Min(counts[0], len));
      FetchedAgain(oracle, cache, cpu.preimageKey);
      var n := Min(r.2, len);
      GuestReadsSee(r.0, r.1, oracle, Fetched(oracle, cache, cpu.preimageKey), addr + n, len - n, counts[1..]);
    }
  }

  /** Oracle refinement: 32 key bytes written to descriptor 6 and then reads from descriptor 5, in any pieces, put into
      the buffer a prefix of what an oracle server sends for the key, and change nothing else.  Enough reads deliver all
      that fits exactly when the key is not zero or the VM has fetched a pre-image before; otherwise they deliver
      nothing. */
  lemma SyscallsRefineServer(cpu: Cpu, c: Contents, oracle: Oracle, cache: Cache, keyAddr: nat, keyCounts: seq<Word>,
                             dst: nat, len: Word, counts: seq<Word>)
    requires Paged(c) && keyAddr + 32 <= 0x1_0000_0000 && dst + len <= 0x1_0000_0000 && CacheOk(oracle, cache)
    requires Positive(keyCounts) && |keyCounts| >= 32
    ensures var key: Digest := FlatBytes(c, keyAddr, 32);
            var asked := KeyWrites(cpu, c, keyAddr, 32, keyCounts).0;
            var response := Response(oracle(key));
            && asked.preimageKey == key && asked.preimageOffset == 0
            && var r := GuestReads(asked, c, oracle, cache, dst, len, counts);
               var m := len - r.2;
               && m <= |response| && Loaded(c, r.1, dst, response[..m]) && r.0.preimageOffset == m
               && (!IsServed(cache, key) ==> m == 0)
               && (Positive(counts) && |counts| >= Min(len, |response|) && len > 0 ==>
                     (m == Min(len, |response|) <==> IsServed(cache, key)))
  {
    hide Loaded, Positive, FlatBytes, KeyWrites, Reads, GuestReads, Seen, CacheOk, IsServed;
    KeyShiftedIn(cpu, c, keyAddr, 32, keyCounts);
    var key: Digest := FlatBytes(c, keyAddr, 32);
    var asked := KeyWrites(cpu, c, keyAddr, 32, keyCounts).0;
    assert asked.preimageKey == key;
    GuestReadsSee(asked, c, oracle, cache, dst, len, counts);
    Delivered(asked, c, Seen(oracle, cache, key), dst, len, counts);
    SeenIsServed(oracle, cache, key);
    assert Response(oracle(key))[..0] == [];
  }

  /** OracleClient.Get over the syscalls: the key, 8 bytes of length, then that many bytes.  The guest gets the
      length, and then the value that the oracle has for the key, exactly when its reads are served. */
  lemma GetBySyscalls(cpu: Cpu, c: Contents, oracle: Oracle, cache: Cache, keyAddr: nat, keyCounts: seq<Word>,
                      lenAddr: nat, lenCounts: seq<Word>, dst: nat, counts: seq<Word>)
    requires Paged(c) && keyAddr + 32 <= 0x1_0000_0000 && lenAddr + 8 <= 0x1_0000_0000 && CacheOk(oracle, cache)
    requires Positive(keyCounts) && |keyCounts| >= 32 && Positive(lenCounts) && |lenCounts| >= 8
    requires var value := oracle(FlatBytes(c, keyAddr, 32));
             8 + |value| < 0x1_0000_0000 && dst + |value| <= 0x1_0000_0000 && Positive(counts) && |counts| >= |value|
    ensures var key: Digest := FlatBytes(c, keyAddr, 32);
            var value := oracle(key);
            var asked := KeyWrites(cpu, c, keyAddr, 32, keyCounts).0;
            var measured := GuestReads(asked, c, oracle, cache, lenAddr, 8, lenCounts);
            var got := GuestReads(measured.0, measured.1, oracle, measured.3, dst, |value|, counts);
            && (measured.2 == 0 <==> IsServed(cache, key))
            && (IsServed(cache, key) ==>
                  && BytesDWord(FlatBytes(measured.1, lenAddr, 8)) == |value|
                  && got.2 == 0 && FlatBytes(got.1, dst, |value|) == value)
  {
    hide Loaded, Positive, FlatBytes, KeyWrites, Reads, GuestReads, Seen, CacheOk, IsServed;
    var key: Digest := FlatBytes(c, keyAddr, 32);
    var value := oracle(key);
    KeyShiftedIn(cpu, c, keyAddr, 32, keyCounts);
    var asked := KeyWrites(cpu, c, keyAddr, 32, keyCounts).0;
    assert asked.preimageKey == key;
    SeenIsServed(oracle, cache, key);
    GuestReadsSee(asked, c, oracle, cache, lenAddr, 8, lenCounts);
    Delivered(asked, c, Seen(oracle, cache, key), lenAddr, 8, lenCounts);
    if IsServed(cache, key) {
      var measured := GuestReads(asked, c, oracle, cache, lenAddr, 8, lenCounts);
      LoadedReadsBack(c, measured.1, lenAddr, Response(value)[0..8]);
      ResponseParses(value, []);
      assert Response(value) + [] == Response(value);
      GuestReadsSee(measured.0, measured.1, oracle, measured.3, dst, |value|, counts);
      Delivered(measured.0, measured.1, Response(value), dst, |value|, counts);
      var got := GuestReads(measured.0, measured.1, oracle, measured.3, dst, |value|, counts);
      LoadedReadsBack(measured.1, got.1, dst, Response(value)[8..8 + |value|]);
    }
  }
}
