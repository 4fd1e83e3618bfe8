/** A 4 KiB page with its cache of intermediate hashes (cannon/mipsevm/page.go). */
module Page {
  import opened Bytes
  import opened Merkle

  const PAGE_SIZE := 4096
  const PAGE_LEAVES := 128  // PAGE_SIZE / 32

  function EmptyPage(): (s: seq<Byte>)
    ensures |s| == PAGE_SIZE
  {
    seq<Byte>(PAGE_SIZE, _ => 0)
  }

  /** The 32-byte leaves of a page, at generalized indices 128..255. */
  function PageLeaf(data: seq<Byte>): Leaves {
    (g: nat) =>
      if |data| == PAGE_SIZE && PAGE_LEAVES <= g < 2 * PAGE_LEAVES
      then data[32 * (g - PAGE_LEAVES)..32 * (g - PAGE_LEAVES) + 32]
      else ZERO_DIGEST
  }

  /** The hash of the subtree of a page under g, computed from the data alone. */
  function PageNode(h: Hash, data: seq<Byte>, g: nat): Digest
    requires g >= 1
  {
    Node(h, PageLeaf(data), PAGE_LEAVES, g)
  }

  lemma PageNodeUnfold(h: Hash, data: seq<Byte>, g: nat)
    requires |data| == PAGE_SIZE && 1 <= g < 2 * PAGE_LEAVES
    ensures g >= PAGE_LEAVES ==> PageNode(h, data, g) == data[32 * (g - PAGE_LEAVES)..32 * (g - PAGE_LEAVES) + 32]
    ensures PAGE_LEAVES / 2 <= g < PAGE_LEAVES ==> PageNode(h, data, g) == h(data[64 * (g - 64)..64 * (g - 64) + 64])
    ensures g < PAGE_LEAVES ==>
              PageNode(h, data, g) == HashPair(h, PageNode(h, data, 2 * g), PageNode(h, data, 2 * g + 1))
    decreases 2 * PAGE_LEAVES - g
  {
    if PAGE_LEAVES / 2 <= g < PAGE_LEAVES {
      var i := 64 * (g - 64);
      assert data[i..i + 64] == data[i..i + 32] + data[i + 32..i + 64];
      PageNodeUnfold(h, data, 2 * g);
      PageNodeUnfold(h, data, 2 * g + 1);
    }
  }

  /** Bytes [at, at + |bytes|) replaced. */
  function Splice(data: seq<Byte>, at: nat, bytes: seq<Byte>): (r: seq<Byte>)
    requires at + |bytes| <= |data|
    ensures |r| == |data|
  {
    data[..at] + bytes + data[at + |bytes|..]
  }

  /** Writing inside one aligned word changes one leaf of the page. */
  lemma SpliceChangesOneLeaf(data: seq<Byte>, at: nat, bytes: seq<Byte>)
    requires |data| == PAGE_SIZE && at % 4 == 0 && |bytes| == 4 && at < PAGE_SIZE
    ensures SameExceptAt(PageLeaf(data), PageLeaf(Splice(data, at, bytes)), PAGE_LEAVES, PAGE_LEAVES + at / 32)
  {
    var data' := Splice(data, at, bytes);
    forall x: nat | x >= PAGE_LEAVES && x != PAGE_LEAVES + at / 32 ensures PageLeaf(data)(x) == PageLeaf(data')(x) {
      if x < 2 * PAGE_LEAVES {
        var lo := 32 * (x - PAGE_LEAVES);
        assert lo + 32 <= at || at + 4 <= lo;
        assert forall j: nat | lo <= j < lo + 32 :: data'[j] == data[j];
        assert data[lo..lo + 32] == data'[lo..lo + 32];
      }
    }
  }

  class CachedPage {
    const hash: Hash
    ghost const index: nat    // the page index it is allocated for
    var data: seq<Byte>
    var cache: seq<Digest>    // intermediate nodes only
    var ok: seq<bool>         // whether the intermediate node is valid

    ghost predicate Valid()
      reads this
    {
      && |data| == PAGE_SIZE && |cache| == PAGE_LEAVES && |ok| == PAGE_LEAVES
      && forall g: nat {:trigger PageNode(hash, data, g)} | 1 <= g < PAGE_LEAVES && ok[g] ::
           cache[g] == PageNode(hash, data, g)
    }

    /** The page holds these bytes, and its cache is full or not. */
    ghost predicate Holds(h: Hash, bytes: seq<Byte>, hashed: bool)
      reads this
    {
      hash == h && Valid() && bytes == data && (hashed <==> ok[1])
    }

    /** Every cached node above the 64-byte block of pageAddr is marked stale. */
    ghost predicate BlockStale(pageAddr: nat)
      reads this
    {
      |ok| == PAGE_LEAVES && forall g: nat | 1 <= g < PAGE_LEAVES && Above(g, (PAGE_SIZE + pageAddr) / 64) :: !ok[g]
    }

    constructor (h: Hash, ghost k: nat)
      ensures index == k && Holds(h, EmptyPage(), false)
      ensures forall pageAddr: nat :: BlockStale(pageAddr)
    {
      hash := h;
      index := k;
      data := EmptyPage();
      cache := seq<Digest>(PAGE_LEAVES, _ => ZERO_DIGEST);
      ok := seq(PAGE_LEAVES, _ => false);
    }

    /** Marks every node above the 64-byte block of pageAddr as stale, and no other. */
    method Invalidate(pageAddr: nat)
      requires Valid() && pageAddr < PAGE_SIZE
      modifies this`ok
      ensures Holds(hash, data, false)
      ensures forall g: nat | 1 <= g < PAGE_LEAVES :: ok[g] == (old(ok)[g] && !Above(g, (PAGE_SIZE + pageAddr) / 64))
    {
      var k := (PAGE_SIZE + pageAddr) / 64;
      ghost var k0 := k;
      RootAbove(k0);
      while k > 0
        invariant k <= k0 < PAGE_LEAVES == |ok|
        invariant forall g: nat | 1 <= g < PAGE_LEAVES && g <= k :: Above(g, k) == Above(g, k0)
        invariant forall g: nat | 1 <= g && k < g < PAGE_LEAVES :: ok[g] == (old(ok)[g] && !Above(g, k0))
        invariant forall g: nat | 1 <= g <= k :: ok[g] == old(ok)[g]
      {
        ok := ok[k := false];
        k := k / 2;
      }
    }

    method InvalidateFull()
      requires Valid()
      modifies this`ok
      ensures Holds(hash, data, false) && forall g: nat | g < PAGE_LEAVES :: !ok[g]
    {
      ok := seq(PAGE_LEAVES, _ => false);
    }

    /** Overwrites one aligned word whose path has been invalidated. */
    method PutWord(pageAddr: nat, v: Word)
      requires Valid() && pageAddr % 4 == 0 && pageAddr < PAGE_SIZE
      requires BlockStale(pageAddr)
      modifies this`data
      ensures Valid() && data == Splice(old(data), pageAddr, WordBytes(v))
    {
      ghost var before := data;
      data := Splice(data, pageAddr, WordBytes(v));
      SpliceChangesOneLeaf(before, pageAddr, WordBytes(v));
      forall g: nat | 1 <= g < PAGE_LEAVES && ok[g] ensures PageNode(hash, before, g) == PageNode(hash, data, g) {
        var leaf := PAGE_LEAVES + pageAddr / 32;
        assert leaf / 2 == (PAGE_SIZE + pageAddr) / 64;
        OffPath(hash, PageLeaf(before), PageLeaf(data), PAGE_LEAVES, leaf, g);
      }
    }

    /** Fills the cache bottom-up and returns the page hash. */
    method MerkleRoot() returns (root: Digest)
      requires Valid()
      modifies this`cache, this`ok
      ensures Holds(hash, data, true) && root == PageNode(hash, data, 1)
      ensures forall g: nat | 1 <= g < PAGE_LEAVES :: ok[g]
    {
      var i := 0;
      while i < PAGE_SIZE
        invariant 0 <= i <= PAGE_SIZE && i % 64 == 0 && Valid()
        invariant forall g: nat | 64 <= g < 64 + i / 64 :: ok[g]
      {
        var j := PAGE_LEAVES / 2 + i / 64;
        if !ok[j] {
          PageNodeUnfold(hash, data, j);
          cache := cache[j := hash(data[i..i + 64])];
          ok := ok[j := true];
        }
        i := i + 64;
      }
      i := PAGE_LEAVES - 2;
      while i > 0
        invariant 0 <= i <= 126 && i % 2 == 0 && Valid()
        invariant forall g: nat | i / 2 < g < PAGE_LEAVES :: ok[g]
      {
        var j := i / 2;
        if !ok[j] {
          PageNodeUnfold(hash, data, j);
          cache := cache[j := HashPair(hash, cache[i], cache[i + 1])];
          ok := ok[j := true];
        }
        i := i - 2;
      }
      root := cache[1];
    }

    /** The hash of any node of the page; bottom nodes are the data itself. */
    method MerkleizeSubtree(gindex: nat) returns (r: Digest)
      requires Valid() && 1 <= gindex < 2 * PAGE_LEAVES
      modifies this`cache, this`ok
      ensures Holds(hash, data, true) && r == PageNode(hash, data, gindex)
      ensures forall g: nat | 1 <= g < PAGE_LEAVES :: ok[g]
    {
      var _ := MerkleRoot();
      PageNodeUnfold(hash, data, gindex);
      if gindex >= PAGE_LEAVES {
        var nodeIndex := gindex % PAGE_LEAVES;
        return data[nodeIndex * 32..nodeIndex * 32 + 32];
      }
      return cache[gindex];
    }
  }
}
