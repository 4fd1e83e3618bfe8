/** The lazy cache of upper tree nodes, as a value: what coherence means and which steps keep it. */
module NodeCache {
  import opened Bits
  import opened Bytes
  import opened Merkle
  import opened Page
  import opened FlatMemory

  /** An entry of the node map: Nil when invalidated. */
  datatype CachedNode = Nil | Cached(digest: Digest)

  type Nodes = map<nat, CachedNode>

  /** `hashed` are the pages whose own cache is full.  An absent node has no page below it; a cached node
      has the true hash of the flat memory and only hashed pages below it.  So every ancestor of a page
      that is not hashed is present and Nil. */
  ghost predicate Coherent(h: Hash, nodes: Nodes, c: Contents, hashed: set<nat>) {
    && Paged(c)
    && hashed <= c.Keys
    && (forall k, g: nat {:trigger Covers(g, k)} | k in c && g >= 1 && Covers(g, k) :: g in nodes)
    && (forall g: nat {:trigger TrueNode(h, nodes[g].digest, c, hashed, g)} |
         1 <= g < MAX_PAGES && g in nodes && nodes[g].Cached? :: TrueNode(h, nodes[g].digest, c, hashed, g))
  }

  ghost predicate TrueNode(h: Hash, d: Digest, c: Contents, hashed: set<nat>, g: nat)
    requires g >= 1
  {
    d == MemNode(h, c, g) && forall k {:trigger Covers(g, k)} | k in c && Covers(g, k) :: k in hashed
  }

  lemma CoherentMeans(h: Hash, nodes: Nodes, c: Contents, hashed: set<nat>)
    requires Coherent(h, nodes, c, hashed)
    ensures Paged(c) && hashed <= c.Keys
  {
  }

  /** Every node above page k is present and invalidated. */
  ghost predicate PathStale(nodes: Nodes, k: nat) {
    forall g: nat {:trigger Covers(g, k)} | 1 <= g < MAX_PAGES && Covers(g, k) :: g in nodes && nodes[g].Nil?
  }

  /** Early-return soundness: once a page is stale there is nothing above it left to invalidate. */
  lemma StalePageHasStalePath(h: Hash, nodes: Nodes, c: Contents, hashed: set<nat>, k: nat)
    requires Coherent(h, nodes, c, hashed) && k in c && k !in hashed
    ensures PathStale(nodes, k)
  {
    forall g: nat | 1 <= g < MAX_PAGES && Covers(g, k) ensures g in nodes && nodes[g].Nil? {
      assert nodes[g].Cached? ==> TrueNode(h, nodes[g].digest, c, hashed, g);
    }
  }

  /** The node map after the loop that walks from x to the root. */
  function NilPath(nodes: Nodes, x: nat): Nodes
    decreases x
  {
    if x == 0 then nodes else NilPath(nodes[x := Nil], x / 2)
  }

  lemma {:induction false} NilPathAt(nodes: Nodes, x: nat, g: nat)
    requires g >= 1
    ensures g in NilPath(nodes, x) <==> g in nodes || Above(g, x)
    ensures g in NilPath(nodes, x) ==> NilPath(nodes, x)[g] == if Above(g, x) then Nil else nodes[g]
    decreases x
  {
    if x > 0 {
      NilPathAt(nodes[x := Nil], x / 2, g);
      if Above(g, x / 2) {
        AboveBound(g, x / 2);
      }
    }
  }

  lemma NilPathStale(nodes: Nodes, k: nat)
    ensures PathStale(NilPath(nodes, MAX_PAGES + k), k)
  {
    var nodes' := NilPath(nodes, MAX_PAGES + k);
    forall g: nat | 1 <= g < MAX_PAGES && Covers(g, k) ensures g in nodes' && nodes'[g].Nil? {
      NilPathAt(nodes, MAX_PAGES + k, g);
    }
  }

  /** Invalidating the path of a page keeps coherence, even when that page stops being hashed. */
  lemma CoherentNilPath(h: Hash, nodes: Nodes, c: Contents, hashed: set<nat>, k: nat)
    requires Coherent(h, nodes, c, hashed)
    ensures Coherent(h, NilPath(nodes, MAX_PAGES + k), c, hashed - {k})
  {
    var nodes' := NilPath(nodes, MAX_PAGES + k);
    forall i, g: nat | i in c && g >= 1 && Covers(g, i) ensures g in nodes' {
      NilPathAt(nodes, MAX_PAGES + k, g);
    }
    forall g: nat | 1 <= g < MAX_PAGES && g in nodes' && nodes'[g].Cached?
      ensures TrueNode(h, nodes'[g].digest, c, hashed - {k}, g)
    {
      NilPathAt(nodes, MAX_PAGES + k, g);
      assert TrueNode(h, nodes[g].digest, c, hashed, g);
    }
  }

  /** Writing into a page with a stale path keeps coherence. */
  lemma CoherentWrite(h: Hash, nodes: Nodes, c: Contents, hashed: set<nat>, a: Word, v: Word)
    requires Coherent(h, nodes, c, hashed) && a % 4 == 0 && a / PAGE_SIZE in c && PathStale(nodes, a / PAGE_SIZE)
    ensures Coherent(h, nodes, SetWord(c, a, v), hashed)
  {
    var c' := SetWord(c, a, v);
    assert c'.Keys == c.Keys;
    SetWordChangesOneLeaf(c, a, v);
    forall g: nat | 1 <= g < MAX_PAGES && g in nodes && nodes[g].Cached?
      ensures TrueNode(h, nodes[g].digest, c', hashed, g)
    {
      assert TrueNode(h, nodes[g].digest, c, hashed, g);
      AbovePage(g, LeafIndex(a));
      assert LeafIndex(a) / PAGE_LEAVES == MAX_PAGES + a / PAGE_SIZE;
      assert !Covers(g, a / PAGE_SIZE);
      OffPath(h, MemLeaf(c), MemLeaf(c'), MEM_LEAVES, LeafIndex(a), g);
    }
  }

  /** Allocating a zero page keeps coherence: the flat memory does not change. */
  lemma CoherentAlloc(h: Hash, nodes: Nodes, c: Contents, hashed: set<nat>, k: nat)
    requires Coherent(h, nodes, c, hashed) && k !in c && k < MAX_PAGES
    ensures Coherent(h, NilPath(nodes, MAX_PAGES + k), c[k := EmptyPage()], hashed)
    ensures PathStale(NilPath(nodes, MAX_PAGES + k), k)
  {
    var nodes', c' := NilPath(nodes, MAX_PAGES + k), c[k := EmptyPage()];
    NilPathStale(nodes, k);
    forall i, g: nat | i in c' && g >= 1 && Covers(g, i) ensures g in nodes' {
      NilPathAt(nodes, MAX_PAGES + k, g);
    }
    forall g: nat | 1 <= g < MAX_PAGES && g in nodes' && nodes'[g].Cached?
      ensures TrueNode(h, nodes'[g].digest, c', hashed, g)
    {
      NilPathAt(nodes, MAX_PAGES + k, g);
      assert TrueNode(h, nodes[g].digest, c, hashed, g);
      SameFlatSameNode(h, c, c', g);
    }
  }

  lemma SameFlatSameNode(h: Hash, c: Contents, c': Contents, g: nat)
    requires g >= 1 && forall a: nat :: FlatByte(c, a) == FlatByte(c', a)
    ensures MemNode(h, c, g) == MemNode(h, c', g)
  {
    forall x: nat | x >= MEM_LEAVES ensures MemLeaf(c)(x) == MemLeaf(c')(x) {
      assert FlatBytes(c, 32 * (x - MEM_LEAVES), 32) == FlatBytes(c', 32 * (x - MEM_LEAVES), 32);
    }
    NodeLocal(h, MemLeaf(c), MemLeaf(c'), MEM_LEAVES, g);
  }

  /** Storing the hash of a node whose pages are all hashed keeps coherence. */
  lemma CoherentStore(h: Hash, nodes: Nodes, c: Contents, hashed: set<nat>, g: nat)
    requires Coherent(h, nodes, c, hashed) && g >= 1
    requires forall k {:trigger Covers(g, k)} | k in c && Covers(g, k) :: k in hashed
    ensures Coherent(h, nodes[g := Cached(MemNode(h, c, g))], c, hashed)
  {
    var nodes' := nodes[g := Cached(MemNode(h, c, g))];
    forall i: nat | 1 <= i < MAX_PAGES && i in nodes' && nodes'[i].Cached?
      ensures TrueNode(h, nodes'[i].digest, c, hashed, i)
    {
      if i != g {
        assert TrueNode(h, nodes[i].digest, c, hashed, i);
      }
    }
  }

  /** More pages may be hashed. */
  lemma CoherentMore(h: Hash, nodes: Nodes, c: Contents, hashed: set<nat>, hashed': set<nat>)
    requires Coherent(h, nodes, c, hashed) && hashed <= hashed' <= c.Keys
    ensures Coherent(h, nodes, c, hashed')
  {
    forall g: nat | 1 <= g < MAX_PAGES && g in nodes && nodes[g].Cached?
      ensures TrueNode(h, nodes[g].digest, c, hashed', g)
    {
      assert TrueNode(h, nodes[g].digest, c, hashed, g);
    }
  }

  /** Splitting a deep index into its page and the node within the page. */
  lemma SplitIndex(g: nat)
    requires 1 <= g < 2 * MEM_LEAVES
    ensures BitLen(g) <= 28
    ensures BitLen(g) <= 20 <==> g < MAX_PAGES
    ensures BitLen(g) > 20 ==>
              var j := BitLen(g) - 21;
              && 1 <= Pow2(j) + Low(g, j) < 2 * PAGE_LEAVES
              && MAX_PAGES <= Shr(g, j) < 2 * MAX_PAGES
              && PageNodeIndex(Shr(g, j) % MAX_PAGES, Pow2(j) + Low(g, j)) == g
              && (g < 2 * MAX_PAGES ==> j == 0)
  {
    Pow2Values();
    BitLenBounds(g);
    if BitLen(g) > 28 {
      Pow2Monotone(28, BitLen(g) - 1);
    }
    if BitLen(g) <= 20 {
      Pow2Monotone(BitLen(g), 20);
    } else {
      var j := BitLen(g) - 21;
      Pow2Monotone(20, BitLen(g) - 1);
      Pow2Monotone(j, 7);
      if j > 0 {
        Pow2Monotone(21, 20 + j);
      }
      SplitIndexAt(g, j);
    }
  }

  lemma {:induction false} SplitIndexAt(g: nat, j: nat)
    requires Pow2(20 + j) <= g < 2 * Pow2(20 + j)
    ensures MAX_PAGES <= Shr(g, j) < 2 * MAX_PAGES && Shr(g, j) == PageRoot(g)
    ensures PageNodeIndex(Shr(g, j) % MAX_PAGES, Pow2(j) + Low(g, j)) == g
  {
    hide Pow2, Low, Shr, PageNodeIndex, PageRoot;
    Pow2Values();
    PartsOfIndex(g, j);
    if j > 0 {
      Pow2Monotone(20, 20 + j - 1);
      HalfPower(20 + j);
      SplitIndexAt(g / 2, j - 1);
      PageNodeIndexStep(Shr(g, j) % MAX_PAGES, Pow2(j) + Low(g, j));
    } else {
      PageNodeIndexRoot(g % MAX_PAGES);
    }
  }

  /** Shifting and masking, one bit at a time. */
  lemma PartsOfIndex(g: nat, j: nat)
    ensures j == 0 ==> Shr(g, j) == g && Pow2(j) + Low(g, j) == 1 && (g < 2 * MAX_PAGES ==> PageRoot(g) == g)
    ensures j > 0 ==>
              && Shr(g, j) == Shr(g / 2, j - 1)
              && Pow2(j) + Low(g, j) == 2 * (Pow2(j - 1) + Low(g / 2, j - 1)) + g % 2
              && (g >= 2 * MAX_PAGES ==> PageRoot(g) == PageRoot(g / 2))
  {
  }

  lemma PageNodeIndexRoot(k: nat)
    ensures PageNodeIndex(k, 1) == MAX_PAGES + k
  {
  }

  lemma PageNodeIndexStep(k: nat, pg: nat)
    requires pg >= 2
    ensures PageNodeIndex(k, pg) == 2 * PageNodeIndex(k, pg / 2) + pg % 2
  {
  }

  /** An absent node hashes to the zero hash of its height. */
  lemma AbsentNode(h: Hash, nodes: Nodes, c: Contents, hashed: set<nat>, g: nat)
    requires Coherent(h, nodes, c, hashed) && 1 <= g < MAX_PAGES && g !in nodes
    ensures BitLen(g) <= 28 && MemNode(h, c, g) == ZeroHash(h, 28 - BitLen(g))
    ensures forall k {:trigger Covers(g, k)} | k in c :: !Covers(g, k)
  {
    UnallocatedSubtree(h, c, g);
  }

  lemma CachedNodeTrue(h: Hash, nodes: Nodes, c: Contents, hashed: set<nat>, g: nat)
    requires Coherent(h, nodes, c, hashed) && 1 <= g < MAX_PAGES && g in nodes && nodes[g].Cached?
    ensures TrueNode(h, nodes[g].digest, c, hashed, g)
  {
  }

  lemma CoversChildren(g: nat, keys: set<nat>)
    requires 1 <= g < MAX_PAGES
    ensures forall k {:trigger Covers(g, k)} | k in keys && Covers(g, k) :: Covers(2 * g, k) || Covers(2 * g + 1, k)
  {
    forall k | k in keys && Covers(g, k) ensures Covers(2 * g, k) || Covers(2 * g + 1, k) {
      AboveSteps(g, MAX_PAGES + k);
    }
  }

  lemma MemNodeChildren(h: Hash, c: Contents, g: nat)
    requires 1 <= g < MEM_LEAVES
    ensures MemNode(h, c, g) == HashPair(h, MemNode(h, c, 2 * g), MemNode(h, c, 2 * g + 1))
  {
  }

  /** The page-level ancestor of a node at or below page level. */
  function PageRoot(g: nat): nat {
    if g < 2 * MAX_PAGES then g else PageRoot(g / 2)
  }

  lemma {:induction false} PageRootAbove(g: nat, x: nat)
    requires g >= MAX_PAGES && Above(g, x)
    ensures PageRoot(g) == PageRoot(x)
  {
    if x != g {
      AboveBound(g, x / 2);
      PageRootAbove(g, x / 2);
    }
  }

  lemma PageOfLeaf(x: nat)
    requires MEM_LEAVES <= x < 2 * MEM_LEAVES
    ensures PageRoot(x) == x / PAGE_LEAVES
  {
    Pow2Values();
    SplitIndexAt(x, 7);
    ShrValues(x);
  }

  lemma PageLevelCovers(g: nat, k: nat)
    requires MAX_PAGES <= g && k < MAX_PAGES && Covers(g, k)
    ensures g == MAX_PAGES + k
  {
    if g != MAX_PAGES + k {
      AboveBound(g, (MAX_PAGES + k) / 2);
    }
  }

  lemma PageLevelCoversAll(g: nat, c: Contents)
    requires Paged(c) && MAX_PAGES <= g < 2 * MAX_PAGES
    ensures forall k {:trigger Covers(g, k)} | k in c && Covers(g, k) :: k == g % MAX_PAGES
  {
    forall k | k in c && Covers(g, k) ensures k == g % MAX_PAGES {
      PageLevelCovers(g, k);
    }
  }

  lemma UnallocatedLeaf(c: Contents, g: nat, x: nat)
    requires Paged(c) && MAX_PAGES <= g && x >= MEM_LEAVES && Above(g, x) && PageRoot(g) - MAX_PAGES !in c
    ensures LeafBytes(c, x) == ZERO_DIGEST
  {
    hide FlatBytes;
    if x < 2 * MEM_LEAVES {
      PageRootAbove(g, x);
      PageOfLeaf(x);
      ZeroLeaf(c, x);
    } else {
      BeyondLastPage(c, x);
    }
  }

  /** A node inside a page that was never allocated hashes to the zero hash of its height. */
  lemma UnallocatedPage(h: Hash, c: Contents, g: nat)
    requires Paged(c) && MAX_PAGES <= g < 2 * MEM_LEAVES && BitLen(g) >= 21
    requires Shr(g, BitLen(g) - 21) % MAX_PAGES !in c
    ensures BitLen(g) <= 28 && MemNode(h, c, g) == ZeroHash(h, 28 - BitLen(g))
  {
    hide LeafBytes, Node, ZeroHash, Shr, BitLen, Pow2, PageRoot;
    Pow2Values();
    BitLenBounds(g);
    HalfPower(BitLen(g));
    SplitIndexAt(g, BitLen(g) - 21);
    forall x: nat | x >= MEM_LEAVES && Above(g, x) ensures MemLeaf(c)(x) == ZERO_DIGEST {
      UnallocatedLeaf(c, g, x);
    }
    ZeroSubtree(h, MemLeaf(c), 27, g);
  }
}
