/** Loading and reading ranges of bytes (cannon/mipsevm/memory.go). */
module MemoryRange {
  import opened Bytes
  import opened Merkle
  import opened Page
  import opened FlatMemory
  import opened NodeCache
  import opened RangeLoad
  import opened Streams
  import M = Memory

  /** Overwrites part of page k and drops its cache. */
  method LoadIntoPage(m: M.Memory, k: nat, pageAddr: nat, bytes: seq<Byte>)
    requires m.PagesOk() && k in m.pages && pageAddr + |bytes| <= PAGE_SIZE
    modifies m.pages[k], m`contents, m`hashed
    ensures m.PagesOk() && m.hashed == old(m.hashed) - {k}
    ensures m.contents == old(m.contents)[k := Splice(old(m.contents)[k], pageAddr, bytes)]
  {
    var p := m.pages[k];
    p.InvalidateFull();
    p.data := Splice(p.data, pageAddr, bytes);
    m.contents, m.hashed := m.contents[k := p.data], m.hashed - {k};
  }

  ghost function SnapOf(m: M.Memory): Snap
    reads m
  {
    Snap(m.nodes, m.contents, m.hashed)
  }

  /** Looks page k up, allocating it when it is missing. */
  method EnsurePage(m: M.Memory, k: nat)
    requires m.PagesOk() && m.LookupOk() && k < MAX_PAGES
    modifies m
    ensures m.PagesOk() && m.LookupOk() && k in m.pages && fresh(m.pages.Values - old(m.pages.Values))
    ensures SnapOf(m) == Allocated(old(SnapOf(m)), k)
  {
    hide CachedPage.BlockStale, CachedPage.Holds, NilPath, EmptyPage;
    var p, found := m.PageLookup(k);
    if !found {
      p := m.AllocPage(k);
    }
  }

  /** One round of the load: the page at addr, allocated when missing, takes the next bytes of the source. */
  method LoadPiece(m: M.Memory, addr: Word, source: Source, pos: nat) returns (next: nat)
    requires m.PagesOk() && m.LookupOk() && Paged(m.contents) && pos <= |source.data|
    modifies m, m.pages.Values
    ensures m.PagesOk() && m.LookupOk() && fresh(m.pages.Values - old(m.pages.Values))
    ensures next == pos + source.Count(pos, PAGE_SIZE - addr % PAGE_SIZE)
    ensures SnapOf(m) == Piece(old(SnapOf(m)), addr, source.data[pos..next])
  {
    hide M.Memory.PagesOk, M.Memory.LookupOk, Splice, Piece, Allocated;
    var k := addr / PAGE_SIZE;
    ghost var s := SnapOf(m);
    EnsurePage(m, k);
    next := pos + source.Count(pos, PAGE_SIZE - addr % PAGE_SIZE);
    PieceInSteps(s, addr, source.data[pos..next]);
    LoadIntoPage(m, k, addr % PAGE_SIZE, source.data[pos..next]);
  }

  /** Loads everything the source delivers at addr.  Only page caches are dropped: the upper nodes are left alone,
      so the memory stays valid exactly when no cached node covers a page that existed and was looked up. */
  method SetMemoryRange(m: M.Memory, start: Word, source: Source)
    requires m.Valid() && start + |source.data| <= 0x1_0000_0000
    modifies m, m.pages.Values
    ensures m.PagesOk() && m.LookupOk() && fresh(m.pages.Values - old(m.pages.Values))
    ensures Loaded(old(m.contents), m.contents, start, source.data)
    ensures m.contents.Keys == old(m.contents.Keys) + TouchedPages(start, source)
    ensures Cleared(old(m.nodes), m.nodes, TouchedPages(start, source) - old(m.contents.Keys))
    ensures m.Valid() <==> NoStaleAncestor(old(m.nodes), old(m.contents.Keys), TouchedPages(start, source))
  {
    hide M.Memory.PagesOk, M.Memory.LookupOk, Coherent, Progress, NoStaleAncestor, Loaded, Piece, Cleared;
    hide PagesOf, TouchedPages;
    var addr, pos := start, 0;
    CoherentMeans(m.hash, m.nodes, m.contents, m.hashed);
    ghost var s0, data, touched := SnapOf(m), source.data, {};
    ProgressStart(s0, start, data);
    NoPages(start);
    TouchedHolds(start, source);
    while true
      invariant m.PagesOk() && m.LookupOk() && fresh(m.pages.Values - old(m.pages.Values))
      invariant pos <= |data| && addr == Wrap(start + pos)
      invariant touched == PagesOf(start, pos) && (pos == |data| ==> source.EofApart())
      invariant Paged(m.contents) && Progress(s0, SnapOf(m), touched, start, data, pos)
      decreases |data| - pos
    {
      ghost var s := SnapOf(m);
      var next := LoadPiece(m, addr, source, pos);
      ProgressStep(s0, s, touched, start, data, pos, next, addr);
      RoundPages(start, source, pos, next);
      touched := touched + {addr / PAGE_SIZE};
      addr := Wrap(addr + (next - pos));
      var eof := source.AtEof(pos, next);
      pos := next;
      if eof {
        break;
      }
    }
    ProgressEnd(m.hash, s0, SnapOf(m), touched, start, data);
  }

  /** How the failing side shows: with the root cached and every page already there, the root reported after the load is
      the root of the memory before it. */
  method LoadThenRoot(m: M.Memory, start: Word, source: Source) returns (root: Digest)
    requires m.Valid() && start + |source.data| <= 0x1_0000_0000
    requires m.HasCached(1) && TouchedPages(start, source) <= m.contents.Keys
    modifies m, m.pages.Values
    ensures Loaded(old(m.contents), m.contents, start, source.data)
    ensures root == Root(m.hash, old(m.contents))
  {
    hide M.Memory.PagesOk, M.Memory.LookupOk, NoStaleAncestor, Loaded, TouchedPages, Root;
    ghost var h, nodes, c, hashed := m.hash, m.nodes, m.contents, m.hashed;
    CachedRootTrue(h, nodes, c, hashed);
    SetMemoryRange(m, start, source);
    ClearedByNone(nodes, m.nodes, TouchedPages(start, source) - c.Keys);
    root := m.MerkleRoot();
  }

  lemma CachedRootTrue(h: Hash, nodes: Nodes, c: Contents, hashed: set<nat>)
    requires Coherent(h, nodes, c, hashed) && 1 in nodes && nodes[1].Cached?
    ensures nodes[1].digest == Root(h, c)
  {
    CachedNodeTrue(h, nodes, c, hashed, 1);
  }

  lemma RootPresent(m: M.Memory, k: nat)
    requires m.Valid() && k in m.contents
    ensures 1 in m.nodes
  {
    RootAbove(MAX_PAGES + k);
    assert Covers(1, k);
  }

  /** The failure on one page: a word is stored, the memory is hashed, a byte is loaded over the word.  The root does
      not change, so it is not that of the memory, short of a hash collision. */
  method StaleRoot(h: Hash) returns (m: M.Memory, before: Digest, after: Digest)
    ensures m.hash == h && FlatByte(m.contents, 0) == 1
    ensures before == after == Root(h, SetWord(map[], 0, 0))
    ensures after == Root(h, m.contents) ==> Collision(h, SetWord(map[], 0, 0), m.contents, 0)
  {
    hide M.Memory.Valid, TouchedPages, Root, FlatByte, SetWord;
    m := new M.Memory(h);
    m.SetMemory(0, 0);
    ghost var c := m.contents;
    SetWordPages(c);
    RootPresent(m, 0);
    before := m.MerkleRoot();
    var source := Source([1], (pos, max) => max, true);
    OnePageTouched(source);
    after := LoadThenRoot(m, 0, source);
    SetWordBytes(map[], 0, 0, 0);
    if after == Root(h, m.contents) {
      RootCommits(h, c, m.contents, 0);
    }
  }

  lemma SetWordPages(c: Contents)
    requires c == SetWord(map[], 0, 0)
    ensures c.Keys == {0}
  {
  }

  lemma OnePageTouched(source: Source)
    requires |source.data| == 1 && source.eofWithLast
    ensures TouchedPages(0, source) <= {0}
  {
  }

  /** The range, which may wrap around the address space, does not come back to the page it started in. */
  predicate RangeOk(addr: Word, count: nat) {
    && count < 0x1_0000_0000
    && (Wrap(addr + count) / PAGE_SIZE == addr / PAGE_SIZE ==> addr % PAGE_SIZE + count < PAGE_SIZE)
  }

  /** The rest of a range is one too. */
  lemma RangeRest(addr: Word, count: nat, n: nat)
    requires RangeOk(addr, count) && n <= count && addr % PAGE_SIZE + n <= PAGE_SIZE
    ensures RangeOk(Wrap(addr + n), count - n)
  {
    WrapTwice(addr + n, count - n);
    if addr % PAGE_SIZE + n < PAGE_SIZE {
      assert Wrap(addr + n) == addr + n && (addr + n) / PAGE_SIZE == addr / PAGE_SIZE;
    } else {
      assert Wrap(addr + n) % PAGE_SIZE == 0;
    }
  }

  /** How much of a range is in its first page. */
  lemma RangeInPage(addr: Word, count: nat)
    requires RangeOk(addr, count)
    ensures var endAddr := Wrap(addr + count);
            if endAddr / PAGE_SIZE == addr / PAGE_SIZE then endAddr % PAGE_SIZE == addr % PAGE_SIZE + count
            else PAGE_SIZE - addr % PAGE_SIZE <= count
  {
  }

  /** The n bytes at addr, all in one page. */
  method CopyFromPage(m: M.Memory, addr: Word, n: nat) returns (bytes: seq<Byte>)
    requires m.Valid() && addr % PAGE_SIZE + n <= PAGE_SIZE
    modifies m`lastPageKeys, m`lastPage
    ensures m.Valid() && bytes == FlatBytes(m.contents, addr, n)
  {
    hide Coherent, FlatByte, FlatBytes, Zeros;
    CoherentMeans(m.hash, m.nodes, m.contents, m.hashed);
    FlatBytesInPage(m.contents, addr, n);
    var p, found := m.PageLookup(addr / PAGE_SIZE);
    if found {
      bytes := p.data[addr % PAGE_SIZE..addr % PAGE_SIZE + n];
    } else {
      bytes := Zeros(n);
    }
  }

  class MemReader {
    const m: M.Memory
    var addr: Word
    var count: nat

    constructor (m: M.Memory, addr: Word, count: nat)
      ensures this.m == m && this.addr == addr && this.count == count
    {
      this.m, this.addr, this.count := m, addr, count;
    }

    /** Reads into a buffer of the given size; never crosses a page, and reads zeros where no page exists. */
    method Read(size: nat) returns (bytes: seq<Byte>, eof: bool)
      requires m.Valid() && RangeOk(addr, count)
      modifies this, m`lastPageKeys, m`lastPage
      ensures m.Valid() && RangeOk(addr, count)
      ensures eof == (old(count) == 0) && |bytes| <= size && |bytes| <= old(count)
      ensures bytes == RangeBytes(m.contents, old(addr), |bytes|)
      ensures addr == Wrap(old(addr) + |bytes|) && count == old(count) - |bytes|
      ensures size > 0 && old(count) > 0 ==> bytes != []
    {
      hide M.Memory.Valid, FlatBytes, FlatByte, RangeOk, Wrap;
      WrapStart(addr);
      if count == 0 {
        return [], true;
      }
      RangeInPage(addr, count);
      var endAddr := Wrap(addr + count);
      var pageIndex, start, end := addr / PAGE_SIZE, addr % PAGE_SIZE, PAGE_SIZE;
      if pageIndex == endAddr / PAGE_SIZE {
        end := endAddr % PAGE_SIZE;
      }
      var n := if size < end - start then size else end - start;
      RangeRest(addr, count, n);
      RangeIsFlat(m.contents, addr, n);
      bytes := CopyFromPage(m, addr, n);
      addr, count, eof := Wrap(addr + n), count - n, false;
    }
  }

  lemma WrapStart(addr: Word)
    ensures Wrap(addr + 0) == addr
  {
  }

  /** Drains a range reader through buffers of any sizes. */
  method ReadAll(m: M.Memory, addr: Word, count: nat) returns (out: seq<Byte>)
    requires m.Valid() && RangeOk(addr, count)
    modifies m`lastPageKeys, m`lastPage
    ensures m.Valid() && out == RangeBytes(m.contents, addr, count)
  {
    hide M.Memory.Valid, RangeBytes, RangeOk, Wrap;
    WrapStart(addr);
    var r := new MemReader(m, addr, count);
    out := [];
    var eof := false;
    while !eof
      invariant m.Valid() && RangeOk(r.addr, r.count) && r.m == m && fresh(r)
      invariant |out| + r.count == count && r.addr == Wrap(addr + |out|) && (eof ==> r.count == 0)
      invariant out == RangeBytes(m.contents, addr, |out|)
      decreases r.count, !eof
    {
      var size :| size > 0;
      var bytes;
      bytes, eof := r.Read(size);
      RangeBytesAppend(m.contents, addr, |out|, |bytes|);
      WrapTwice(addr + |out|, |bytes|);
      out := out + bytes;
    }
  }

  /** Range transfer: what is loaded before the first hash reads back, through buffers of any sizes, and nothing else
      changes. */
  method LoadThenRead(m: M.Memory, start: Word, source: Source) returns (out: seq<Byte>)
    requires m.Valid() && start + |source.data| <= 0x1_0000_0000 && RangeOk(start, |source.data|)
    requires forall g | g in m.nodes :: m.nodes[g].Nil?
    modifies m, m.pages.Values
    ensures m.Valid() && out == source.data && Loaded(old(m.contents), m.contents, start, source.data)
  {
    hide M.Memory.Valid, NoStaleAncestor, Loaded, TouchedPages, Cleared, FlatBytes;
    ghost var nodes0, keys := m.nodes, m.contents.Keys;
    SetMemoryRange(m, start, source);
    LoadBeforeHashing(nodes0, keys, TouchedPages(start, source));
    LoadedReadsBack(old(m.contents), m.contents, start, source.data);
    RangeIsFlat(m.contents, start, |source.data|);
    out := ReadAll(m, start, |source.data|);
  }
}
