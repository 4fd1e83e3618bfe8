/** The VM memory: pages allocated on demand and an incrementally cached hash tree (cannon/mipsevm/memory.go). */
module Memory {
  import opened Bits
  import opened Bytes
  import opened Merkle
  import opened Page
  import opened FlatMemory
  import opened NodeCache

  const NO_PAGE := 0xFFFF_FFFF  // ^uint32(0), matches no page index

  class Memory {
    const hash: Hash
    var nodes: Nodes                  // generalized index -> hash, or Nil if invalidated
    var pages: map<nat, CachedPage>   // page index -> cached page
    var lastPageKeys: seq<nat>        // the two pages looked up last
    var lastPage: seq<CachedPage?>

    ghost var contents: Contents      // the bytes of the allocated pages
    ghost var hashed: set<nat>        // the pages whose own cache is full

    ghost predicate PagesOk()
      reads this, pages.Values
    {
      && contents.Keys == pages.Keys && hashed <= pages.Keys
      && forall k {:trigger pages[k]} | k in pages ::
           k < MAX_PAGES && pages[k].index == k && pages[k].Holds(hash, contents[k], k in hashed)
    }

    ghost predicate LookupOk()
      reads this`pages, this`lastPageKeys, this`lastPage
    {
      && |lastPageKeys| == |lastPage| == 2
      && (lastPageKeys[0] == NO_PAGE || (lastPageKeys[0] in pages && pages[lastPageKeys[0]] == lastPage[0]))
      && (lastPageKeys[1] == NO_PAGE || (lastPageKeys[1] in pages && pages[lastPageKeys[1]] == lastPage[1]))
    }

    ghost predicate Valid()
      reads this, pages.Values
    {
      PagesOk() && LookupOk() && Coherent(hash, nodes, contents, hashed)
    }

    ghost function Repr(): set<object>
      reads this
    {
      {this} + pages.Values
    }

    constructor (h: Hash)
      ensures Valid() && pages == map[] && hash == h && contents == map[]
    {
      hash := h;
      nodes := map[];
      pages := map[];
      lastPageKeys := [NO_PAGE, NO_PAGE];
      lastPage := [null, null];
      contents, hashed := map[], {};
    }

    lemma KeysAgree()
      requires PagesOk()
      ensures contents.Keys == pages.Keys && hashed <= pages.Keys
    {
    }

    /** Finds a page, remembering the last two found. */
    method PageLookup(pageIndex: nat) returns (p: CachedPage?, found: bool)
      requires PagesOk() && LookupOk() && pageIndex < MAX_PAGES
      modifies this`lastPageKeys, this`lastPage
      ensures PagesOk() && LookupOk()
      ensures found == (pageIndex in pages) && (found ==> p == pages[pageIndex])
    {
      hide Coherent, CachedPage.Holds;
      if pageIndex == lastPageKeys[0] {
        return lastPage[0], true;
      }
      if pageIndex == lastPageKeys[1] {
        return lastPage[1], true;
      }
      found := pageIndex in pages;
      p := null;
      if found {
        p := pages[pageIndex];
        lastPageKeys := [pageIndex, lastPageKeys[0]];
        lastPage := [p, lastPage[0]];
      }
    }

    /** Marks every node from x up to the root as stale. */
    method InvalidatePath(x: nat)
      modifies this`nodes
      ensures nodes == NilPath(old(nodes), x)
    {
      var k := x;
      while k > 0
        invariant NilPath(nodes, k) == NilPath(old(nodes), x)
      {
        nodes := nodes[k := Nil];
        k := k / 2;
      }
    }

    /** Invalidates addr within its page; tells whether the page was valid before. */
    method InvalidateInPage(p: CachedPage, addr: Word) returns (prevValid: bool)
      requires PagesOk() && addr / PAGE_SIZE in pages && p == pages[addr / PAGE_SIZE]
      modifies p, this`hashed
      ensures PagesOk() && hashed == old(hashed) - {addr / PAGE_SIZE} && prevValid == (addr / PAGE_SIZE in old(hashed))
      ensures p.BlockStale(addr % PAGE_SIZE)
    {
      prevValid := p.ok[1];
      p.Invalidate(addr % PAGE_SIZE);
      hashed := hashed - {addr / PAGE_SIZE};
    }

    /** Makes the branch of addr stale.  A page that is already stale has a stale path, so the walk
        through the upper nodes is skipped. */
    method Invalidate(addr: Word)
      requires Valid() && addr % 4 == 0
      modifies Repr()
      ensures Valid() && pages == old(pages) && contents == old(contents)
      ensures addr / PAGE_SIZE in pages ==>
                && PathStale(nodes, addr / PAGE_SIZE) && addr / PAGE_SIZE !in hashed
                && pages[addr / PAGE_SIZE].BlockStale(addr % PAGE_SIZE)
    {
      hide Coherent, PathStale, CachedPage.Holds, CachedPage.BlockStale;
      var k := addr / PAGE_SIZE;
      var p, found := PageLookup(k);
      if !found {
        return;
      }
      CoherentNilPath(hash, nodes, contents, hashed, k);
      NilPathStale(nodes, k);
      if k !in hashed {
        StalePageHasStalePath(hash, nodes, contents, hashed, k);
        assert hashed - {k} == hashed;
      }
      var prevValid := InvalidateInPage(p, addr);
      if !prevValid {  // the page was already invalid, then the nodes above it are too
        return;
      }
      InvalidatePath((0x1_0000_0000 + addr) / PAGE_SIZE);
    }

    /** Adds a zero page. */
    method AllocPage(pageIndex: nat) returns (p: CachedPage)
      requires PagesOk() && LookupOk() && pageIndex < MAX_PAGES && pageIndex !in pages
      modifies this
      ensures PagesOk() && LookupOk() && fresh(p)
      ensures pages == old(pages)[pageIndex := p] && nodes == NilPath(old(nodes), MAX_PAGES + pageIndex)
      ensures contents == old(contents)[pageIndex := EmptyPage()] && hashed == old(hashed)
      ensures forall pageAddr: nat :: p.BlockStale(pageAddr)
    {
      hide CachedPage.Holds, CachedPage.BlockStale;
      p := new CachedPage(hash, pageIndex);
      InvalidatePath(MAX_PAGES + pageIndex);
      pages, contents := pages[pageIndex := p], contents[pageIndex := EmptyPage()];
    }

    /** Stores the bytes of v in a page whose branch is stale. */
    method PutWord(p: CachedPage, addr: Word, v: Word)
      requires PagesOk() && addr % 4 == 0 && addr / PAGE_SIZE in pages && p == pages[addr / PAGE_SIZE]
      requires addr / PAGE_SIZE !in hashed
      requires p.BlockStale(addr % PAGE_SIZE)
      modifies p, this`contents
      ensures PagesOk() && contents == SetWord(old(contents), addr, v)
    {
      hide CachedPage.BlockStale;
      p.PutWord(addr % PAGE_SIZE, v);
      contents := SetWord(contents, addr, v);
    }

    method SetMemory(addr: Word, v: Word)
      requires Valid() && addr % 4 == 0
      modifies Repr()
      ensures Valid() && fresh(Repr() - old(Repr()))
      ensures contents == SetWord(old(contents), addr, v)
    {
      hide PagesOk, Coherent, PathStale, CachedPage.BlockStale, SetWord;
      KeysAgree();
      CoherentMeans(hash, nodes, contents, hashed);
      var pageIndex := addr / PAGE_SIZE;
      var p, found := PageLookup(pageIndex);
      if !found {
        CoherentAlloc(hash, nodes, contents, hashed, pageIndex);
        SetWordAllocates(contents, addr, v);
        p := AllocPage(pageIndex);
      } else {
        Invalidate(addr);
      }
      CoherentWrite(hash, nodes, contents, hashed, addr, v);
      PutWord(p, addr, v);
    }

    method GetMemory(addr: Word) returns (v: Word)
      requires Valid() && addr % 4 == 0
      modifies this`lastPageKeys, this`lastPage
      ensures Valid() && v == WordAt(contents, addr)
    {
      hide Coherent, FlatByte, FlatBytes, Zeros;
      CoherentMeans(hash, nodes, contents, hashed);
      WordInPage(addr);
      FlatBytesInPage(contents, addr, 4);
      var p, found := PageLookup(addr / PAGE_SIZE);
      if !found {
        ZeroWord();
        return 0;
      }
      var pageAddr := addr % PAGE_SIZE;
      return BytesWord(p.data[pageAddr..pageAddr + 4]);
    }

    /** The hash of a node below page level, taken from the page. */
    method MerkleizeInPage(k: nat, pageGindex: nat) returns (r: Digest)
      requires PagesOk() && k in pages && 1 <= pageGindex < 2 * PAGE_LEAVES
      modifies pages[k], this`hashed
      ensures PagesOk() && hashed == old(hashed) + {k} && r == PageNode(hash, contents[k], pageGindex)
    {
      r := pages[k].MerkleizeSubtree(pageGindex);
      hashed := hashed + {k};
    }

    /** The hash of a node at or below page level: from the page, or zero when it does not exist. */
    method MerkleizeDeep(gindex: nat) returns (r: Digest)
      requires Valid() && MAX_PAGES <= gindex < 2 * MEM_LEAVES
      modifies this`hashed, pages.Values
      ensures Valid() && r == MemNode(hash, contents, gindex) && old(hashed) <= hashed
      ensures gindex < 2 * MAX_PAGES ==>
                forall k {:trigger Covers(gindex, k)} | k in pages && Covers(gindex, k) :: k in hashed
    {
      hide Coherent, CachedPage.Holds, MemNode;
      CoherentMeans(hash, nodes, contents, hashed);
      var l := BitLen(gindex);
      SplitIndex(gindex);
      var depthIntoPage := l - 21;
      var pageIndex := Shr(gindex, depthIntoPage) % MAX_PAGES;
      if gindex < 2 * MAX_PAGES {
        PageLevelCoversAll(gindex, contents);
      }
      if pageIndex in pages {
        var pageGindex := Pow2(depthIntoPage) + Low(gindex, depthIntoPage);
        CoherentMore(hash, nodes, contents, hashed, hashed + {pageIndex});
        PageSubtree(hash, contents, pageIndex, pageGindex);
        r := MerkleizeInPage(pageIndex, pageGindex);
      } else {
        UnallocatedPage(hash, contents, gindex);
        r := ZeroHash(hash, 28 - l);
      }
    }

    predicate HasCached(gindex: nat)
      reads this`nodes
    {
      gindex < MAX_PAGES && gindex in nodes && nodes[gindex].Cached?
    }

    /** Hashes the subtree under gindex, reusing and filling the caches.  A node that is cached is returned without a
        look at the memory, so its hash is that of the memory only as long as the caches are coherent. */
    method MerkleizeSubtree(gindex: nat) returns (r: Digest)
      requires (Valid() || HasCached(gindex)) && 1 <= gindex < 2 * MEM_LEAVES
      modifies this`nodes, this`hashed, pages.Values
      ensures old(HasCached(gindex)) ==> r == old(nodes)[gindex].digest && nodes == old(nodes)
      ensures old(Valid()) ==>
                && Valid() && r == MemNode(hash, contents, gindex)
                && old(hashed) <= hashed && nodes.Keys == old(nodes.Keys)
                && (gindex in nodes && gindex < MAX_PAGES ==> HasCached(gindex))
                && (gindex < 2 * MAX_PAGES ==>
                      forall k {:trigger Covers(gindex, k)} | k in pages && Covers(gindex, k) :: k in hashed)
      decreases 2 * MEM_LEAVES - gindex
    {
      hide Coherent, CachedPage.Holds, MemNode;
      var l := BitLen(gindex);
      SplitIndex(gindex);
      if l > 20 {
        r := MerkleizeDeep(gindex);
        return;
      }
      if gindex !in nodes {
        AbsentNode(hash, nodes, contents, hashed, gindex);
        return ZeroHash(hash, 28 - l);
      }
      if nodes[gindex].Cached? {
        if Valid() {
          CachedNodeTrue(hash, nodes, contents, hashed, gindex);
        }
        return nodes[gindex].digest;
      }
      var left := MerkleizeSubtree(2 * gindex);
      var right := MerkleizeSubtree(2 * gindex + 1);
      CoversChildren(gindex, contents.Keys);
      MemNodeChildren(hash, contents, gindex);
      r := HashPair(hash, left, right);
      CoherentStore(hash, nodes, contents, hashed, gindex);
      nodes := nodes[gindex := Cached(r)];
    }

    /** The hash of the whole memory: what a naive hash of the flat bytes gives. */
    method MerkleRoot() returns (r: Digest)
      requires Valid() || HasCached(1)
      modifies this`nodes, this`hashed, pages.Values
      ensures old(Valid()) ==>
                Valid() && r == Root(hash, contents) && nodes.Keys == old(nodes.Keys) && (1 in nodes ==> HasCached(1))
      ensures old(HasCached(1)) ==> r == old(nodes)[1].digest
    {
      r := MerkleizeSubtree(1);
    }

    /** Collects the leaf of addr and the siblings from the bottom up to the node `parent` at this depth. */
    method TraverseBranch(parent: nat, addr: Word, depth: nat) returns (proof: seq<Digest>)
      requires Valid() && depth <= 27 && parent == Shr(LeafIndex(addr), 27 - depth) >= 1
      modifies this`nodes, this`hashed, pages.Values
      ensures Valid()
      ensures proof == [MemNode(hash, contents, LeafIndex(addr))]
                       + SiblingsUpTo(hash, MemLeaf(contents), MEM_LEAVES, LeafIndex(addr), 27 - depth)
      decreases 27 - depth
    {
      hide Valid, HasCached, MemNode, LeafIndex, Shr, Bit, Pow2;
      BranchTurn(addr, depth);
      if depth == 27 {
        var leaf := MerkleizeSubtree(parent);
        return [leaf];
      }
      var self, sibling := 2 * parent, 2 * parent + 1;
      if Bit(addr, 31 - depth) {
        self, sibling := sibling, self;
      }
      proof := TraverseBranch(self, addr, depth + 1);
      var siblingNode := MerkleizeSubtree(sibling);
      BranchStep(hash, contents, addr, 26 - depth);
      proof := proof + [siblingNode];
    }

    /** The leaf of addr and its 27 siblings, as bytes. */
    method MerkleProof(addr: Word) returns (out: seq<Byte>)
      requires Valid()
      modifies this`nodes, this`hashed, pages.Values
      ensures Valid() && out == ProofBytes(hash, contents, addr)
    {
      hide PagesOk, LookupOk, Coherent;
      BranchRoot(hash, contents, addr);
      var proof := TraverseBranch(1, addr, 0);
      out := [];
      for i := 0 to 28
        invariant out == Concat(proof[..i])
        invariant Valid() && |proof| == 28
      {
        ConcatStep(proof, i);
        out := out + proof[i];
      }
      assert proof[..28] == proof;
    }
  }

  /** An aligned word lies in one page. */
  lemma WordInPage(addr: Word)
    requires addr % 4 == 0
    ensures addr % PAGE_SIZE + 4 <= PAGE_SIZE
  {
  }

  lemma ZeroWord()
    ensures BytesWord(Zeros(4)) == 0
  {
  }
}
