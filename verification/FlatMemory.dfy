/** The meaning of a sparse memory: a flat 32-bit byte space that reads zero outside the allocated pages,
    hashed naively.  The cached tree in module Memory is proved equal to this. */
module FlatMemory {
  import opened Bits
  import opened Bytes
  import opened Merkle
  import opened Page

  const MAX_PAGES := 0x10_0000          // 2**20
  const MEM_LEAVES := 0x800_0000        // 2**27 leaves of 32 bytes
  const PROOF_LEN := 28 * 32

  /** Page index -> the PAGE_SIZE bytes of that page. */
  type Contents = map<nat, seq<Byte>>

  ghost predicate Paged(c: Contents) {
    forall k | k in c :: k < MAX_PAGES && |c[k]| == PAGE_SIZE
  }

  function FlatByte(c: Contents, a: nat): Byte {
    if a / PAGE_SIZE in c && |c[a / PAGE_SIZE]| == PAGE_SIZE then c[a / PAGE_SIZE][a % PAGE_SIZE] else 0
  }

  function FlatBytes(c: Contents, a: nat, n: nat): (s: seq<Byte>)
    ensures |s| == n
    ensures forall j: nat | j < n :: s[j] == FlatByte(c, a + j)
  {
    seq<Byte>(n, (j: nat) => FlatByte(c, a + j))
  }

  lemma FlatBytesAppend(c: Contents, a: nat, n: nat, m: nat)
    ensures FlatBytes(c, a, n) + FlatBytes(c, a + n, m) == FlatBytes(c, a, n + m)
  {
  }

  /** The n bytes from a on, going on at address 0 after the last address. */
  function RangeBytes(c: Contents, a: nat, n: nat): (s: seq<Byte>)
    ensures |s| == n && forall j: nat | j < n :: s[j] == FlatByte(c, Wrap(a + j))
  {
    seq<Byte>(n, j requires 0 <= j < n => FlatByte(c, Wrap(a + j)))
  }

  lemma RangeBytesAppend(c: Contents, a: nat, n: nat, m: nat)
    ensures RangeBytes(c, a, n) + RangeBytes(c, Wrap(a + n), m) == RangeBytes(c, a, n + m)
  {
    hide FlatByte, Wrap;
    var s, all := RangeBytes(c, a, n) + RangeBytes(c, Wrap(a + n), m), RangeBytes(c, a, n + m);
    forall j: nat | j < n + m ensures s[j] == all[j] {
      if j >= n {
        WrapTwice(a + n, j - n);
      }
    }
  }

  lemma WrapTwice(x: nat, y: nat)
    ensures Wrap(Wrap(x) + y) == Wrap(x + y)
  {
  }

  /** A range that does not wrap. */
  lemma RangeIsFlat(c: Contents, a: nat, n: nat)
    requires a + n <= 0x1_0000_0000
    ensures RangeBytes(c, a, n) == FlatBytes(c, a, n)
  {
    hide FlatByte;
    var s, flat := RangeBytes(c, a, n), FlatBytes(c, a, n);
    forall j: nat | j < n ensures s[j] == flat[j] {
      assert Wrap(a + j) == a + j;
    }
  }

  /** Bytes within one page. */
  lemma FlatBytesInPage(c: Contents, a: nat, n: nat)
    requires Paged(c) && a % PAGE_SIZE + n <= PAGE_SIZE
    ensures a / PAGE_SIZE in c ==> FlatBytes(c, a, n) == c[a / PAGE_SIZE][a % PAGE_SIZE..a % PAGE_SIZE + n]
    ensures a / PAGE_SIZE !in c ==> FlatBytes(c, a, n) == Zeros(n)
  {
    var s, k, at := FlatBytes(c, a, n), a / PAGE_SIZE, a % PAGE_SIZE;
    forall j: nat | j < n ensures s[j] == if k in c then c[k][at + j] else 0 {
      assert (a + j) / PAGE_SIZE == k && (a + j) % PAGE_SIZE == at + j;
    }
  }

  function Zeros(n: nat): (s: seq<Byte>)
    ensures |s| == n && forall j | 0 <= j < n :: s[j] == 0
  {
    seq<Byte>(n, _ => 0)
  }

  function WordAt(c: Contents, a: nat): Word {
    BytesWord(FlatBytes(c, a, 4))
  }

  lemma ByteOfWord(c: Contents, a: nat, j: nat)
    requires j < 4
    ensures WordBytes(WordAt(c, a))[j] == FlatByte(c, a + j)
  {
    WordOfBytes(FlatBytes(c, a, 4));
  }

  /** The word at aligned address a set to v, allocating the page when it is missing. */
  function SetWord(c: Contents, a: nat, v: Word): (r: Contents)
    requires Paged(c) && a % 4 == 0 && a < 0x1_0000_0000
    ensures Paged(r)
  {
    var page := if a / PAGE_SIZE in c then c[a / PAGE_SIZE] else EmptyPage();
    c[a / PAGE_SIZE := Splice(page, a % PAGE_SIZE, WordBytes(v))]
  }

  lemma SetWordAllocates(c: Contents, a: nat, v: Word)
    requires Paged(c) && a % 4 == 0 && a < 0x1_0000_0000 && a / PAGE_SIZE !in c
    ensures SetWord(c[a / PAGE_SIZE := EmptyPage()], a, v) == SetWord(c, a, v)
  {
  }

  /** SetWord changes exactly the four bytes at a, to the big-endian encoding of v. */
  lemma SetWordBytes(c: Contents, a: nat, v: Word, b: nat)
    requires Paged(c) && a % 4 == 0 && a < 0x1_0000_0000
    ensures FlatByte(SetWord(c, a, v), b) == if a <= b < a + 4 then WordBytes(v)[b - a] else FlatByte(c, b)
  {
    hide Splice, WordBytes;
    SamePage(a, b);
    if b / PAGE_SIZE == a / PAGE_SIZE {
      var page := if a / PAGE_SIZE in c then c[a / PAGE_SIZE] else EmptyPage();
      SpliceAt(page, a % PAGE_SIZE, WordBytes(v), b % PAGE_SIZE);
    }
  }

  /** The page and the offset of b, seen from the aligned word at a. */
  lemma SamePage(a: nat, b: nat)
    requires a % 4 == 0
    ensures a <= b < a + 4 ==> b / PAGE_SIZE == a / PAGE_SIZE
    ensures b / PAGE_SIZE == a / PAGE_SIZE ==> b % PAGE_SIZE == a % PAGE_SIZE + (b - a)
    ensures a % PAGE_SIZE + 4 <= PAGE_SIZE
  {
  }

  lemma SpliceAt(data: seq<Byte>, at: nat, bytes: seq<Byte>, i: nat)
    requires at + |bytes| <= |data| && i < |data|
    ensures Splice(data, at, bytes)[i] == if at <= i < at + |bytes| then bytes[i - at] else data[i]
  {
  }

  /** Bytes apart from the word stay. */
  lemma SetWordOutside(c: Contents, a: nat, v: Word, b: nat, n: nat)
    requires Paged(c) && a % 4 == 0 && a < 0x1_0000_0000 && (b + n <= a || a + 4 <= b)
    ensures FlatBytes(SetWord(c, a, v), b, n) == FlatBytes(c, b, n)
  {
    hide FlatByte, SetWord;
    forall j: nat | j < n ensures FlatBytes(c, b, n)[j] == FlatBytes(SetWord(c, a, v), b, n)[j] {
      SetWordBytes(c, a, v, b + j);
    }
  }

  lemma SetWordItself(c: Contents, a: nat, v: Word)
    requires Paged(c) && a % 4 == 0 && a < 0x1_0000_0000
    ensures FlatBytes(SetWord(c, a, v), a, 4) == WordBytes(v)
  {
    hide FlatByte, SetWord, WordBytes;
    forall j: nat | j < 4 ensures FlatBytes(SetWord(c, a, v), a, 4)[j] == WordBytes(v)[j] {
      SetWordBytes(c, a, v, a + j);
    }
  }

  lemma WordsApart(a: nat, b: nat)
    requires a % 4 == 0 && b % 4 == 0 && a != b
    ensures b + 4 <= a || a + 4 <= b
  {
  }

  lemma SetWordRead(c: Contents, a: nat, v: Word, b: nat)
    requires Paged(c) && a % 4 == 0 && a < 0x1_0000_0000 && b % 4 == 0
    ensures WordAt(SetWord(c, a, v), b) == if a == b then v else WordAt(c, b)
  {
    hide FlatBytes, SetWord, WordBytes;
    if a == b {
      SetWordItself(c, a, v);
      BytesOfWord(v);
    } else {
      WordsApart(a, b);
      SetWordOutside(c, a, v, b, 4);
    }
  }

  /** The 32-byte leaves of the whole address space, at generalized indices 2**27 .. 2**28 - 1. */
  function MemLeaf(c: Contents): Leaves {
    (g: nat) => LeafBytes(c, g)
  }

  function LeafBytes(c: Contents, g: nat): Digest {
    if g >= MEM_LEAVES then FlatBytes(c, 32 * (g - MEM_LEAVES), 32) else ZERO_DIGEST
  }

  function MemNode(h: Hash, c: Contents, g: nat): Digest
    requires g >= 1
  {
    Node(h, MemLeaf(c), MEM_LEAVES, g)
  }

  lemma LeafNode(h: Hash, c: Contents, g: nat)
    requires g >= MEM_LEAVES
    ensures MemNode(h, c, g) == LeafBytes(c, g) == MemLeaf(c)(g)
  {
  }

  /** The naive hash of the flat, zero-extended memory. */
  function Root(h: Hash, c: Contents): Digest {
    MemNode(h, c, 1)
  }

  function LeafIndex(a: nat): nat {
    MEM_LEAVES + a / 32
  }

  /** On the path to the byte at a, the hash trees of the two memories hash different bytes to the same value. */
  ghost predicate Collision(h: Hash, c: Contents, c': Contents, a: Word) {
    exists g: nat ::
      1 <= g < LeafIndex(a) && Above(g, LeafIndex(a)) && CollideAt(h, MemLeaf(c), MemLeaf(c'), MEM_LEAVES, g)
  }

  /** The root commits to the memory: memories that differ in a byte have different roots, unless their trees hold a
      hash collision. */
  lemma RootCommits(h: Hash, c: Contents, c': Contents, a: Word)
    requires FlatByte(c, a) != FlatByte(c', a) && Root(h, c) == Root(h, c')
    ensures Collision(h, c, c', a)
  {
    hide FlatByte;
    var x := LeafIndex(a);
    RootAbove(x);
    assert FlatBytes(c, 32 * (a / 32), 32)[a % 32] != FlatBytes(c', 32 * (a / 32), 32)[a % 32];
    RootBinds(h, MemLeaf(c), MemLeaf(c'), MEM_LEAVES, 1, x);
  }

  /** Where an aligned word lies in its leaf. */
  function LeafOffset(a: Word): (o: nat)
    requires a % 4 == 0
    ensures o + 4 <= 32 && 32 * (a / 32) + o == a
  {
    assert a == 4 * (a / 4);
    a % 32
  }

  /** Node pg of page k, as a node of the whole tree. */
  function PageNodeIndex(k: nat, pg: nat): nat
    requires pg >= 1
  {
    if pg == 1 then MAX_PAGES + k else 2 * PageNodeIndex(k, pg / 2) + pg % 2
  }

  lemma PageLeafIndex(k: nat, pg: nat)
    requires PAGE_LEAVES <= pg < 2 * PAGE_LEAVES
    ensures PageNodeIndex(k, pg) == MEM_LEAVES + PAGE_LEAVES * k + (pg - PAGE_LEAVES)
  {
    PageNodeIndexLevel(k, pg, 7);
  }

  lemma {:induction false} PageNodeIndexLevel(k: nat, pg: nat, n: nat)
    requires Pow2(n) <= pg < 2 * Pow2(n)
    ensures PageNodeIndex(k, pg) == (MAX_PAGES + k) * Pow2(n) + (pg - Pow2(n))
  {
    if n > 0 {
      PageNodeIndexLevel(k, pg / 2, n - 1);
      assert (MAX_PAGES + k) * Pow2(n) == 2 * ((MAX_PAGES + k) * Pow2(n - 1));
    }
  }

  lemma {:induction false} PageNodeIndexBounds(k: nat, pg: nat)
    requires 1 <= pg < 2 * PAGE_LEAVES
    ensures PageNodeIndex(k, pg) >= 1
    ensures k < MAX_PAGES ==> PageNodeIndex(k, pg) < if pg < PAGE_LEAVES then MEM_LEAVES else 2 * MEM_LEAVES
    decreases 2 * PAGE_LEAVES - pg
  {
    if pg >= PAGE_LEAVES {
      PageLeafIndex(k, pg);
    } else {
      PageNodeIndexBounds(k, 2 * pg);
      assert PageNodeIndex(k, 2 * pg) == 2 * PageNodeIndex(k, pg);
    }
  }

  /** The subtree of an allocated page inside the whole tree is the page's own tree. */
  lemma {:induction false} PageSubtree(h: Hash, c: Contents, k: nat, pg: nat)
    requires Paged(c) && k in c && 1 <= pg < 2 * PAGE_LEAVES
    ensures PageNodeIndex(k, pg) >= 1
    ensures MemNode(h, c, PageNodeIndex(k, pg)) == PageNode(h, c[k], pg)
    decreases 2 * PAGE_LEAVES - pg
  {
    PageNodeIndexBounds(k, pg);
    if pg >= PAGE_LEAVES {
      PageLeafIndex(k, pg);
      PageNodeUnfold(h, c[k], pg);
      var a := 32 * (PAGE_LEAVES * k + (pg - PAGE_LEAVES));
      forall j: nat | j < 32 ensures FlatBytes(c, a, 32)[j] == c[k][32 * (pg - PAGE_LEAVES) + j] {
        assert (a + j) / PAGE_SIZE == k && (a + j) % PAGE_SIZE == 32 * (pg - PAGE_LEAVES) + j;
      }
      assert FlatBytes(c, a, 32) == c[k][32 * (pg - PAGE_LEAVES)..32 * (pg - PAGE_LEAVES) + 32];
    } else {
      PageSubtree(h, c, k, 2 * pg);
      PageSubtree(h, c, k, 2 * pg + 1);
      PageNodeUnfold(h, c[k], pg);
      assert PageNodeIndex(k, 2 * pg) == 2 * PageNodeIndex(k, pg);
      assert PageNodeIndex(k, 2 * pg + 1) == 2 * PageNodeIndex(k, pg) + 1;
    }
  }

  /** An ancestor at or above page level of a leaf is an ancestor of the leaf's page. */
  lemma AbovePage(g: nat, x: nat)
    requires 1 <= g < 2 * MAX_PAGES && MEM_LEAVES <= x < 2 * MEM_LEAVES
    ensures Above(g, x) == Above(g, x / PAGE_LEAVES)
  {
    assert Above(g, x) == Above(g, x / 2) == Above(g, x / 2 / 2) == Above(g, x / 2 / 2 / 2);
    var y := x / 2 / 2 / 2;
    assert Above(g, y) == Above(g, y / 2) == Above(g, y / 2 / 2) == Above(g, y / 2 / 2 / 2);
    var z := y / 2 / 2 / 2;
    assert Above(g, z) == Above(g, z / 2);
    assert z / 2 == x / PAGE_LEAVES;
  }

  /** Page k lies below node g. */
  ghost predicate Covers(g: nat, k: nat)
    requires g >= 1
  {
    Above(g, MAX_PAGES + k)
  }

  /** A node at or above page level with no allocated page below it hashes to the zero hash of its height. */
  lemma UnallocatedSubtree(h: Hash, c: Contents, g: nat)
    requires Paged(c) && 1 <= g < 2 * MAX_PAGES
    requires forall k | k in c :: !Covers(g, k)
    ensures BitLen(g) <= 28 && MemNode(h, c, g) == ZeroHash(h, 28 - BitLen(g))
  {
    hide Above, Node, ZeroHash, BitLen, FlatBytes;
    forall x: nat | x >= MEM_LEAVES && Above(g, x) ensures MemLeaf(c)(x) == ZERO_DIGEST {
      if x < 2 * MEM_LEAVES {
        AbovePage(g, x);
        ZeroLeaf(c, x);
      } else {
        BeyondLastPage(c, x);
      }
    }
    Pow2Values();
    ZeroSubtree(h, MemLeaf(c), 27, g);
  }

  /** A leaf outside the allocated pages is zero. */
  lemma ZeroLeaf(c: Contents, x: nat)
    requires Paged(c) && MEM_LEAVES <= x && x / PAGE_LEAVES - MAX_PAGES !in c
    ensures MemLeaf(c)(x) == ZERO_DIGEST
  {
    var a := 32 * (x - MEM_LEAVES);
    forall j: nat | j < 32 ensures FlatBytes(c, a, 32)[j] == 0 {
      assert (a + j) / PAGE_SIZE == x / PAGE_LEAVES - MAX_PAGES;
    }
    assert FlatBytes(c, a, 32) == ZERO_DIGEST;
  }

  lemma BeyondLastPage(c: Contents, x: nat)
    requires Paged(c) && x >= 2 * MEM_LEAVES
    ensures MemLeaf(c)(x) == ZERO_DIGEST
  {
    assert x / PAGE_LEAVES >= 2 * MAX_PAGES;
    ZeroLeaf(c, x);
  }

  /** Writing an aligned word changes one leaf of the memory. */
  lemma SetWordChangesOneLeaf(c: Contents, a: nat, v: Word)
    requires Paged(c) && a % 4 == 0 && a < 0x1_0000_0000
    ensures SameExceptAt(MemLeaf(c), MemLeaf(SetWord(c, a, v)), MEM_LEAVES, LeafIndex(a))
  {
    hide FlatByte, FlatBytes, SetWord;
    var c' := SetWord(c, a, v);
    forall x: nat | x >= MEM_LEAVES && x != LeafIndex(a) ensures MemLeaf(c)(x) == MemLeaf(c')(x) {
      WordOutsideLeaf(a, x - MEM_LEAVES);
      SetWordOutside(c, a, v, 32 * (x - MEM_LEAVES), 32);
    }
  }

  lemma WordOutsideLeaf(a: nat, i: nat)
    requires a % 4 == 0 && i != a / 32
    ensures 32 * i + 32 <= a || a + 4 <= 32 * i
  {
  }

  /** Bit n of y is the turn taken below the n+1-st ancestor of 2**m + y. */
  lemma {:induction false} ShrTurn(m: nat, y: nat, n: nat)
    requires n < m && y < Pow2(m)
    ensures Shr(Pow2(m) + y, n) >= 2
    ensures Shr(Pow2(m) + y, n) % 2 == 1 <==> Bit(y, n)
  {
    if n > 0 {
      assert (Pow2(m) + y) / 2 == Pow2(m - 1) + y / 2;
      ShrTurn(m - 1, y / 2, n - 1);
    }
  }

  /** The siblings of the n lowest ancestors of g, from the bottom up. */
  function SiblingsUpTo(h: Hash, leaf: Leaves, bottom: nat, g: nat, n: nat): seq<Digest>
    requires Shr(g, n) >= 1
  {
    if n == 0 || g < 2 then [] else [Node(h, leaf, bottom, Sibling(g))] + SiblingsUpTo(h, leaf, bottom, g / 2, n - 1)
  }

  lemma {:induction false} SiblingsUpToStep(h: Hash, leaf: Leaves, bottom: nat, g: nat, n: nat)
    requires Shr(g, n) >= 2
    ensures Shr(g, n + 1) >= 1
    ensures SiblingsUpTo(h, leaf, bottom, g, n + 1)
         == SiblingsUpTo(h, leaf, bottom, g, n) + [Node(h, leaf, bottom, Sibling(Shr(g, n)))]
  {
    ShrStep(g, n);
    if n > 0 {
      SiblingsUpToStep(h, leaf, bottom, g / 2, n - 1);
    }
  }

  /** The branch one node longer, in terms of the memory. */
  lemma BranchStep(h: Hash, c: Contents, addr: Word, n: nat)
    requires n < 27 && Shr(LeafIndex(addr), n) >= 2 && Shr(LeafIndex(addr), n + 1) >= 1
    ensures SiblingsUpTo(h, MemLeaf(c), MEM_LEAVES, LeafIndex(addr), n + 1)
         == SiblingsUpTo(h, MemLeaf(c), MEM_LEAVES, LeafIndex(addr), n)
            + [MemNode(h, c, Sibling(Shr(LeafIndex(addr), n)))]
  {
    SiblingsUpToStep(h, MemLeaf(c), MEM_LEAVES, LeafIndex(addr), n);
  }

  lemma {:induction false} SiblingsUpToRoot(h: Hash, leaf: Leaves, bottom: nat, g: nat, n: nat)
    requires g >= 1 && Shr(g, n) == 1
    ensures SiblingsUpTo(h, leaf, bottom, g, n) == Siblings(h, leaf, bottom, g)
    ensures |Siblings(h, leaf, bottom, g)| <= n
  {
    if n > 0 && g >= 2 {
      SiblingsUpToRoot(h, leaf, bottom, g / 2, n - 1);
    }
  }

  /** The leaf holding a, and its 27 siblings from the bottom up. */
  function Branch(h: Hash, c: Contents, a: nat): seq<Digest> {
    [MemNode(h, c, LeafIndex(a))] + Siblings(h, MemLeaf(c), MEM_LEAVES, LeafIndex(a))
  }

  function Concat(proof: seq<Digest>): (s: seq<Byte>)
    ensures |s| == 32 * |proof|
  {
    if proof == [] then [] else proof[0] + Concat(proof[1..])
  }

  lemma {:induction false} ConcatStep(proof: seq<Digest>, i: nat)
    requires i < |proof|
    ensures Concat(proof[..i + 1]) == Concat(proof[..i]) + proof[i]
  {
    assert proof[..i + 1] == proof[..i] + [proof[i]];
    ConcatAppend(proof[..i], [proof[i]]);
    assert Concat([proof[i]]) == proof[i];
  }

  lemma {:induction false} ConcatAppend(p: seq<Digest>, q: seq<Digest>)
    ensures Concat(p + q) == Concat(p) + Concat(q)
  {
    if p == [] {
      assert p + q == q;
    } else {
      assert (p + q)[1..] == p[1..] + q;
      ConcatAppend(p[1..], q);
    }
  }

  function ProofBytes(h: Hash, c: Contents, a: nat): seq<Byte> {
    Concat(Branch(h, c, a))
  }

  /** The turn the walk from the root takes at `depth` on its way to the leaf of addr. */
  lemma BranchTurn(addr: Word, depth: nat)
    requires depth <= 27
    ensures 1 <= Shr(LeafIndex(addr), 27 - depth) < 2 * MEM_LEAVES
    ensures Shr(LeafIndex(addr), 0) == LeafIndex(addr)
    ensures depth < 27 ==>
              var node := Shr(LeafIndex(addr), 26 - depth);
              && node / 2 == Shr(LeafIndex(addr), 27 - depth) && node >= 2 && node < 2 * MEM_LEAVES
              && (node % 2 == 1 <==> Bit(addr, 31 - depth))
  {
    Pow2Values();
    assert LeafIndex(addr) == Pow2(27) + addr / 32;
    if depth < 27 {
      ShrTurn(27, addr / 32, 26 - depth);
      ShrStep(LeafIndex(addr), 26 - depth);
      BitSkip5(addr, 26 - depth);
    }
  }

  lemma BitSkip5(x: nat, n: nat)
    ensures Bit(x, n + 5) == Bit(x / 32, n)
  {
    assert Bit(x, n + 5) == Bit(x / 2, n + 4) == Bit(x / 2 / 2, n + 3) == Bit(x / 2 / 2 / 2, n + 2);
    var y := x / 2 / 2 / 2;
    assert Bit(y, n + 2) == Bit(y / 2, n + 1) == Bit(y / 2 / 2, n);
    assert y / 2 / 2 == x / 32;
  }

  lemma BranchRoot(h: Hash, c: Contents, addr: Word)
    ensures Shr(LeafIndex(addr), 27) == 1
    ensures SiblingsUpTo(h, MemLeaf(c), MEM_LEAVES, LeafIndex(addr), 27)
              == Siblings(h, MemLeaf(c), MEM_LEAVES, LeafIndex(addr))
    ensures |Branch(h, c, addr)| == 28
  {
    Pow2Values();
    ShrLeading(27, addr / 32);
    SiblingsUpToRoot(h, MemLeaf(c), MEM_LEAVES, LeafIndex(addr), 27);
    SiblingsLength(h, MemLeaf(c), MEM_LEAVES, LeafIndex(addr));
    BitLenUnique(LeafIndex(addr), 28);
  }

  lemma {:induction false} ShrLeading(m: nat, y: nat)
    requires y < Pow2(m)
    ensures Shr(Pow2(m) + y, m) == 1
  {
    if m > 0 {
      assert (Pow2(m) + y) / 2 == Pow2(m - 1) + y / 2;
      ShrLeading(m - 1, y / 2);
    }
  }

  lemma {:induction false} SiblingsLength(h: Hash, leaf: Leaves, bottom: nat, g: nat)
    requires g >= 1
    ensures |Siblings(h, leaf, bottom, g)| == BitLen(g) - 1
  {
    if g > 1 {
      SiblingsLength(h, leaf, bottom, g / 2);
    }
  }
}
