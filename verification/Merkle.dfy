/** Binary hash trees addressed by generalized index: the root is 1, the children of g are 2g and 2g+1,
    and the nodes at or beyond `bottom` are leaves.  The hash is left uninterpreted. */
module Merkle {
  import opened Bits
  import opened Bytes

  /** keccak256 over a byte string; every definition below takes it as a parameter. */
  type Hash = seq<Byte> -> Digest

  type Leaves = nat -> Digest

  function HashPair(h: Hash, left: Digest, right: Digest): Digest {
    h(left + right)
  }

  /** The naive hash of the subtree under g: no caching, no sharing. */
  function Node(h: Hash, leaf: Leaves, bottom: nat, g: nat): Digest
    requires g >= 1
    decreases bottom - g, h([])  // naming h keeps the verifier from unfolding whole trees of constant size
  {
    if g >= bottom then leaf(g)
    else HashPair(h, Node(h, leaf, bottom, 2 * g), Node(h, leaf, bottom, 2 * g + 1))
  }

  /** g lies on the path from x to the root. */
  predicate Above(g: nat, x: nat)
    requires g >= 1
  {
    x == g || (x > g && Above(g, x / 2))
  }

  function Sibling(g: nat): nat
    requires g >= 2
  {
    if g % 2 == 0 then g + 1 else g - 1
  }

  /** The siblings met on the way from g up to the root. */
  function Siblings(h: Hash, leaf: Leaves, bottom: nat, g: nat): seq<Digest>
    requires g >= 1
  {
    if g == 1 then [] else [Node(h, leaf, bottom, Sibling(g))] + Siblings(h, leaf, bottom, g / 2)
  }

  /** Hashes a node with its siblings; the bits of `path`, lowest first, tell on which side the node is. */
  function Fold(h: Hash, path: nat, node: Digest, siblings: seq<Digest>): Digest
    decreases |siblings|
  {
    if siblings == [] then node
    else
      var parent := if path % 2 == 0 then HashPair(h, node, siblings[0]) else HashPair(h, siblings[0], node);
      Fold(h, path / 2, parent, siblings[1..])
  }

  /** g without its leading bit: the left/right turns from the root down to g. */
  function PathOf(g: nat): nat
    requires g >= 1
  {
    if g == 1 then 0 else 2 * PathOf(g / 2) + g % 2
  }

  lemma {:induction false} PathOfLevel(n: nat, g: nat)
    requires Pow2(n) <= g < 2 * Pow2(n)
    ensures PathOf(g) == g - Pow2(n)
  {
    if n > 0 {
      PathOfLevel(n - 1, g / 2);
    }
  }

  lemma {:induction false} AboveSteps(g: nat, x: nat)
    requires g >= 1 && Above(g, x) && x != g
    ensures Above(2 * g, x) || Above(2 * g + 1, x)
  {
    if x / 2 != g {
      AboveSteps(g, x / 2);
    }
  }

  lemma {:induction false} AboveChild(g: nat, x: nat)
    requires g >= 1 && (Above(2 * g, x) || Above(2 * g + 1, x))
    ensures Above(g, x)
  {
    if x != 2 * g && x != 2 * g + 1 {
      AboveChild(g, x / 2);
    } else {
      assert Above(g, x / 2);
    }
  }

  lemma {:induction false} RootAbove(x: nat)
    requires x >= 1
    ensures Above(1, x)
  {
    if x > 1 {
      RootAbove(x / 2);
    }
  }

  lemma {:induction false} AboveBound(g: nat, x: nat)
    requires g >= 1 && Above(g, x)
    ensures g <= x
  {
    if x > g {
      AboveBound(g, x / 2);
    }
  }

  /** A node is not above its neighbour. */
  lemma NotAboveNeighbour(a: nat)
    requires a >= 2
    ensures !Above(a, a + 1) && (a >= 3 ==> !Above(a, a - 1) && !Above(a - 1, a))
  {
    if Above(a, (a + 1) / 2) {
      AboveBound(a, (a + 1) / 2);
    }
    if a >= 3 && Above(a - 1, a / 2) {
      AboveBound(a - 1, a / 2);
    }
  }

  lemma {:induction false} SiblingNotAbove(a: nat, x: nat)
    requires a >= 2 && Above(a, x)
    ensures !Above(Sibling(a), x)
  {
    NotAboveNeighbour(a);
    NotAboveNeighbour(a + 1);
    if x > a {
      SiblingNotAbove(a, x / 2);
    }
  }

  /** A subtree depends only on the leaves below it. */
  lemma {:induction false} NodeLocal(h: Hash, leaf: Leaves, leaf': Leaves, bottom: nat, g: nat)
    requires g >= 1
    requires forall x: nat | x >= bottom && Above(g, x) :: leaf(x) == leaf'(x)
    ensures Node(h, leaf, bottom, g) == Node(h, leaf', bottom, g)
    decreases bottom - g
  {
    if g >= bottom {
      assert Above(g, g);
    } else {
      forall x: nat | x >= bottom && (Above(2 * g, x) || Above(2 * g + 1, x)) ensures leaf(x) == leaf'(x) {
        AboveChild(g, x);
      }
      NodeLocal(h, leaf, leaf', bottom, 2 * g);
      NodeLocal(h, leaf, leaf', bottom, 2 * g + 1);
    }
  }

  /** The two leaf functions differ at most in leaf k. */
  ghost predicate SameExceptAt(leaf: Leaves, leaf': Leaves, bottom: nat, k: nat) {
    forall x: nat | x >= bottom && x != k :: leaf(x) == leaf'(x)
  }

  lemma OffPath(h: Hash, leaf: Leaves, leaf': Leaves, bottom: nat, k: nat, g: nat)
    requires g >= 1 && SameExceptAt(leaf, leaf', bottom, k) && !Above(g, k)
    ensures Node(h, leaf, bottom, g) == Node(h, leaf', bottom, g)
  {
    NodeLocal(h, leaf, leaf', bottom, g);
  }

  /** Folding a node with its siblings gives the root. */
  lemma {:induction false} FoldIsRoot(h: Hash, leaf: Leaves, bottom: nat, g: nat)
    requires 1 <= g < 2 * bottom
    ensures Fold(h, PathOf(g), Node(h, leaf, bottom, g), Siblings(h, leaf, bottom, g)) == Node(h, leaf, bottom, 1)
  {
    if g > 1 {
      var sibs := Siblings(h, leaf, bottom, g);
      assert sibs[1..] == Siblings(h, leaf, bottom, g / 2);
      assert PathOf(g) % 2 == g % 2 && PathOf(g) / 2 == PathOf(g / 2);
      assert Node(h, leaf, bottom, g / 2)
          == HashPair(h, Node(h, leaf, bottom, 2 * (g / 2)), Node(h, leaf, bottom, 2 * (g / 2) + 1));
      FoldIsRoot(h, leaf, bottom, g / 2);
    }
  }

  /** Changing leaf k leaves the siblings along its path as they were. */
  lemma {:induction false} SiblingsStable(h: Hash, leaf: Leaves, leaf': Leaves, bottom: nat, k: nat, g: nat)
    requires g >= 1 && Above(g, k) && SameExceptAt(leaf, leaf', bottom, k)
    ensures Siblings(h, leaf, bottom, g) == Siblings(h, leaf', bottom, g)
  {
    if g > 1 {
      SiblingNotAbove(g, k);
      OffPath(h, leaf, leaf', bottom, k, Sibling(g));
      AboveChild(g / 2, k);
      SiblingsStable(h, leaf, leaf', bottom, k, g / 2);
    }
  }

  /** Old siblings and the new leaf fold to the new root: a membership proof is also an update proof. */
  lemma FoldIsUpdate(h: Hash, leaf: Leaves, leaf': Leaves, bottom: nat, k: nat)
    requires bottom <= k < 2 * bottom && SameExceptAt(leaf, leaf', bottom, k)
    ensures Fold(h, PathOf(k), leaf'(k), Siblings(h, leaf, bottom, k)) == Node(h, leaf', bottom, 1)
  {
    SiblingsStable(h, leaf, leaf', bottom, k, k);
    FoldIsRoot(h, leaf', bottom, k);
  }

  /** The hash of a full-zero subtree with n levels above its leaves. */
  function ZeroHash(h: Hash, n: nat): Digest {
    if n == 0 then ZERO_DIGEST else HashPair(h, ZeroHash(h, n - 1), ZeroHash(h, n - 1))
  }

  /** The number of bits needed to write g. */
  function BitLen(g: nat): nat {
    if g == 0 then 0 else 1 + BitLen(g / 2)
  }

  lemma {:induction false} BitLenBounds(g: nat)
    requires g >= 1
    ensures BitLen(g) >= 1 && Pow2(BitLen(g) - 1) <= g < Pow2(BitLen(g))
  {
    if g > 1 {
      BitLenBounds(g / 2);
    }
  }

  lemma BitLenUnique(g: nat, n: nat)
    requires n >= 1 && Pow2(n - 1) <= g < Pow2(n)
    ensures BitLen(g) == n
  {
    BitLenBounds(g);
    if BitLen(g) < n {
      Pow2Monotone(BitLen(g), n - 1);
    } else if BitLen(g) > n {
      Pow2Monotone(n, BitLen(g) - 1);
    }
  }

  lemma BitLenDouble(g: nat)
    requires g >= 1
    ensures BitLen(2 * g) == BitLen(2 * g + 1) == 1 + BitLen(g)
  {
  }

  lemma NodeUnfold(h: Hash, leaf: Leaves, bottom: nat, g: nat)
    requires g >= 1
    ensures Node(h, leaf, bottom, g) == if g >= bottom then leaf(g)
                                        else HashPair(h, Node(h, leaf, bottom, 2 * g), Node(h, leaf, bottom, 2 * g + 1))
  {
  }

  lemma ZeroHashUnfold(h: Hash, n: nat)
    ensures ZeroHash(h, n) == if n == 0 then ZERO_DIGEST else HashPair(h, ZeroHash(h, n - 1), ZeroHash(h, n - 1))
  {
  }

  lemma {:induction false} ZeroSubtree(h: Hash, leaf: Leaves, levels: nat, g: nat)
    requires 1 <= g < 2 * Pow2(levels)
    requires forall x: nat | x >= Pow2(levels) && Above(g, x) :: leaf(x) == ZERO_DIGEST
    ensures BitLen(g) <= levels + 1
    ensures Node(h, leaf, Pow2(levels), g) == ZeroHash(h, levels + 1 - BitLen(g))
    decreases Pow2(levels) - g
  {
    hide Node, ZeroHash, BitLen, Pow2, HashPair;
    NodeUnfold(h, leaf, Pow2(levels), g);
    if g >= Pow2(levels) {
      HalfPower(levels + 1);
      BitLenUnique(g, levels + 1);
      ZeroHashUnfold(h, 0);
      assert Above(g, g);
    } else {
      forall x: nat | x >= Pow2(levels) && (Above(2 * g, x) || Above(2 * g + 1, x)) ensures leaf(x) == ZERO_DIGEST {
        AboveChild(g, x);
      }
      ZeroSubtree(h, leaf, levels, 2 * g);
      ZeroSubtree(h, leaf, levels, 2 * g + 1);
      BitLenDouble(g);
      ZeroHashUnfold(h, levels + 1 - BitLen(g));
    }
  }

  /** What is hashed into node g. */
  function Children(h: Hash, leaf: Leaves, bottom: nat, g: nat): seq<Byte>
    requires g >= 1
  {
    Node(h, leaf, bottom, 2 * g) + Node(h, leaf, bottom, 2 * g + 1)
  }

  /** The two trees hash different bytes into node g, and get the same hash. */
  ghost predicate CollideAt(h: Hash, leaf: Leaves, leaf': Leaves, bottom: nat, g: nat)
    requires g >= 1
  {
    && Children(h, leaf, bottom, g) != Children(h, leaf', bottom, g)
    && h(Children(h, leaf, bottom, g)) == h(Children(h, leaf', bottom, g))
  }

  /** Trees that differ in a leaf have different roots, unless the hash collides on the path to it. */
  lemma {:induction false} RootBinds(h: Hash, leaf: Leaves, leaf': Leaves, bottom: nat, g: nat, x: nat)
    requires 1 <= g && Above(g, x) && x / 2 < bottom <= x && leaf(x) != leaf'(x)
    requires Node(h, leaf, bottom, g) == Node(h, leaf', bottom, g)
    ensures exists i: nat :: 1 <= i < x && Above(i, x) && CollideAt(h, leaf, leaf', bottom, i)
    decreases x - g
  {
    if x != g {
      AboveBound(g, x / 2);
    }
    if g < bottom && !CollideAt(h, leaf, leaf', bottom, g) {
      AboveSteps(g, x);
      SameChildren(h, leaf, leaf', bottom, g);
      var child := if Above(2 * g, x) then 2 * g else 2 * g + 1;
      AboveBound(child, x);
      RootBinds(h, leaf, leaf', bottom, child, x);
    }
  }

  lemma SameChildren(h: Hash, leaf: Leaves, leaf': Leaves, bottom: nat, g: nat)
    requires g >= 1 && Children(h, leaf, bottom, g) == Children(h, leaf', bottom, g)
    ensures Node(h, leaf, bottom, 2 * g) == Node(h, leaf', bottom, 2 * g)
    ensures Node(h, leaf, bottom, 2 * g + 1) == Node(h, leaf', bottom, 2 * g + 1)
  {
    hide Node;
    var s, s' := Children(h, leaf, bottom, g), Children(h, leaf', bottom, g);
    assert s[..32] == Node(h, leaf, bottom, 2 * g) && s[32..] == Node(h, leaf, bottom, 2 * g + 1);
    assert s'[..32] == Node(h, leaf', bottom, 2 * g) && s'[32..] == Node(h, leaf', bottom, 2 * g + 1);
  }
}
