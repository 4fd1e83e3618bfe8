/** Loading a range of bytes, as a value: what SetMemoryRange does to the contents and to the node cache. */
module RangeLoad {
  import opened Bytes
  import opened Merkle
  import opened Page
  import opened FlatMemory
  import opened NodeCache
  import opened Streams

  /** c is c0 with the bytes written at start. */
  ghost predicate Loaded(c0: Contents, c: Contents, start: nat, bytes: seq<Byte>) {
    forall a: nat {:trigger FlatByte(c, a)} ::
      FlatByte(c, a) == if start <= a < start + |bytes| then bytes[a - start] else FlatByte(c0, a)
  }

  /** What was loaded reads back. */
  lemma LoadedReadsBack(c0: Contents, c: Contents, start: nat, bytes: seq<Byte>)
    requires Loaded(c0, c, start, bytes)
    ensures FlatBytes(c, start, |bytes|) == bytes
  {
    var s := FlatBytes(c, start, |bytes|);
    forall j: nat | j < |bytes| ensures s[j] == bytes[j] {
      assert FlatByte(c, start + j) == bytes[j];
    }
  }

  ghost predicate CoversSome(g: nat, ks: set<nat>)
    requires g >= 1
  {
    exists k | k in ks :: Covers(g, k)
  }

  /** The nodes above the given pages are invalidated, the others as before. */
  ghost predicate Cleared(nodes0: Nodes, nodes: Nodes, ks: set<nat>) {
    forall g: nat {:trigger CoversSome(g, ks)} | g >= 1 ::
      && (g in nodes <==> g in nodes0 || CoversSome(g, ks))
      && (g in nodes ==> nodes[g] == if CoversSome(g, ks) then Nil else nodes0[g])
  }

  lemma ClearedByNone(nodes0: Nodes, nodes: Nodes, ks: set<nat>)
    requires Cleared(nodes0, nodes, ks) && ks == {}
    ensures forall g | g in nodes0 && g >= 1 :: g in nodes && nodes[g] == nodes0[g]
  {
    forall g: nat | g in nodes0 && g >= 1 ensures g in nodes && nodes[g] == nodes0[g] {
      assert !CoversSome(g, ks);
    }
  }

  /** The pages in `touched` were looked up and written to: existing ones lost only their own cache, new ones were
      allocated. */
  ghost predicate Touched(nodes0: Nodes, c0: Contents, hashed0: set<nat>, nodes: Nodes, c: Contents, hashed: set<nat>,
                          touched: set<nat>) {
    && Paged(c) && c.Keys == c0.Keys + touched && hashed == hashed0 - touched
    && Cleared(nodes0, nodes, touched - c0.Keys)
  }

  /** No cached node covers an existing page that is touched, unless it also covers a page that gets allocated. */
  ghost predicate NoStaleAncestor(nodes0: Nodes, keys: set<nat>, touched: set<nat>) {
    forall k, g: nat {:trigger Covers(g, k)} |
      k in touched && k in keys && 1 <= g < MAX_PAGES && Covers(g, k) && g in nodes0 && nodes0[g].Cached? ::
      CoversSome(g, touched - keys)
  }

  /** Before anything is hashed, every load is safe. */
  lemma LoadBeforeHashing(nodes0: Nodes, keys: set<nat>, touched: set<nat>)
    requires forall g | g in nodes0 :: nodes0[g].Nil?
    ensures NoStaleAncestor(nodes0, keys, touched)
  {
  }

  /** Writing a page that exists. */
  lemma TouchExisting(nodes0: Nodes, c0: Contents, hashed0: set<nat>, nodes: Nodes, c: Contents, hashed: set<nat>,
                      touched: set<nat>, k: nat, page: seq<Byte>)
    requires Touched(nodes0, c0, hashed0, nodes, c, hashed, touched) && k in c && |page| == PAGE_SIZE
    ensures Touched(nodes0, c0, hashed0, nodes, c[k := page], hashed - {k}, touched + {k})
  {
    assert touched + {k} - c0.Keys == touched - c0.Keys;
  }

  /** Writing a page that is allocated for it. */
  lemma TouchNew(nodes0: Nodes, c0: Contents, hashed0: set<nat>, nodes: Nodes, c: Contents, hashed: set<nat>,
                 touched: set<nat>, k: nat, page: seq<Byte>)
    requires Touched(nodes0, c0, hashed0, nodes, c, hashed, touched) && k !in c && k < MAX_PAGES && |page| == PAGE_SIZE
    requires hashed0 <= c0.Keys
    ensures Touched(nodes0, c0, hashed0, NilPath(nodes, MAX_PAGES + k), c[k := page], hashed - {k}, touched + {k})
  {
    var nodes' := NilPath(nodes, MAX_PAGES + k);
    var ks, ks' := touched - c0.Keys, touched + {k} - c0.Keys;
    assert ks' == ks + {k};
    forall g: nat | g >= 1
      ensures g in nodes' <==> g in nodes0 || CoversSome(g, ks')
      ensures g in nodes' ==> nodes'[g] == if CoversSome(g, ks') then Nil else nodes0[g]
    {
      NilPathAt(nodes, MAX_PAGES + k, g);
      assert CoversSome(g, ks') == (CoversSome(g, ks) || Covers(g, k)) by {
        if Covers(g, k) {
          assert k in ks';
        }
      }
    }
  }

  /** One piece written at the end of what was loaded so far. */
  lemma LoadedStep(c0: Contents, c: Contents, start: nat, sofar: seq<Byte>, piece: seq<Byte>, k: nat, at: nat)
    requires Paged(c) && Loaded(c0, c, start, sofar)
    requires at + |piece| <= PAGE_SIZE && (piece != [] ==> PAGE_SIZE * k + at == start + |sofar|)
    requires k < MAX_PAGES
    ensures var page := if k in c then c[k] else EmptyPage();
            Loaded(c0, c[k := Splice(page, at, piece)], start, sofar + piece)
  {
    var page := if k in c then c[k] else EmptyPage();
    var c' := c[k := Splice(page, at, piece)];
    forall a: nat
      ensures FlatByte(c', a) == if start <= a < start + |sofar + piece| then (sofar + piece)[a - start]
                else FlatByte(c0, a)
    {
      assert FlatByte(c, a) == if start <= a < start + |sofar| then sofar[a - start] else FlatByte(c0, a);
      if a / PAGE_SIZE == k {
        assert FlatByte(c', a) == if at <= a % PAGE_SIZE < at + |piece| then piece[a % PAGE_SIZE - at]
                 else FlatByte(c, a);
      }
    }
  }

  /** The parts of a memory that a load changes. */
  datatype Snap = Snap(nodes: Nodes, contents: Contents, hashed: set<nat>)

  /** The memory after a piece is written at addr, the page being allocated when it is missing. */
  function Piece(s: Snap, addr: Word, bytes: seq<Byte>): Snap
    requires Paged(s.contents) && addr % PAGE_SIZE + |bytes| <= PAGE_SIZE
  {
    var k := addr / PAGE_SIZE;
    var page := if k in s.contents then s.contents[k] else EmptyPage();
    Snap(if k in s.contents then s.nodes else NilPath(s.nodes, MAX_PAGES + k),
         s.contents[k := Splice(page, addr % PAGE_SIZE, bytes)],
         s.hashed - {k})
  }

  /** The same in two steps: allocate when missing, then overwrite. */
  function Allocated(s: Snap, k: nat): Snap {
    if k in s.contents then s
    else Snap(NilPath(s.nodes, MAX_PAGES + k), s.contents[k := EmptyPage()], s.hashed)
  }

  lemma PieceInSteps(s: Snap, addr: Word, bytes: seq<Byte>)
    requires Paged(s.contents) && addr % PAGE_SIZE + |bytes| <= PAGE_SIZE
    ensures var k, s1 := addr / PAGE_SIZE, Allocated(s, addr / PAGE_SIZE);
            Piece(s, addr, bytes) ==
              Snap(s1.nodes, s1.contents[k := Splice(s1.contents[k], addr % PAGE_SIZE, bytes)], s1.hashed - {k})
  {
  }

  function PageOf(a: nat): nat {
    a / PAGE_SIZE
  }

  /** The pages that hold the n bytes from start. */
  function PagesOf(start: nat, n: nat): set<nat> {
    set a: nat | start <= a < start + n :: PageOf(a)
  }

  /** The pages a load looks up: those of the loaded bytes, and the one after them when the end is told apart. */
  function TouchedPages(start: nat, source: Source): set<nat> {
    PagesOf(start, |source.data|) + if source.EofApart() then {PageOf(Wrap(start + |source.data|))} else {}
  }

  /** The page of a round is the next of the pages, or the last one. */
  lemma RoundPages(start: nat, source: Source, pos: nat, next: nat)
    requires pos <= next <= |source.data| && start + next <= 0x1_0000_0000 && (pos < |source.data| ==> pos < next)
    requires Wrap(start + pos) % PAGE_SIZE + (next - pos) <= PAGE_SIZE && (pos == |source.data| ==> source.EofApart())
    ensures PagesOf(start, pos) + {PageOf(Wrap(start + pos))}
         == if source.AtEof(pos, next) then TouchedPages(start, source) else PagesOf(start, next)
  {
    if pos < next {
      PagesOfMore(start, pos, next, PageOf(start + pos));
    }
  }

  lemma NoPages(start: nat)
    ensures PagesOf(start, 0) == {}
  {
  }

  lemma TouchedHolds(start: nat, source: Source)
    ensures PagesOf(start, |source.data|) <= TouchedPages(start, source)
  {
  }

  lemma PagesOfMore(start: nat, pos: nat, next: nat, k: nat)
    requires pos < next && (start + pos) % PAGE_SIZE + (next - pos) <= PAGE_SIZE && k == PageOf(start + pos)
    ensures PagesOf(start, next) == PagesOf(start, pos) + {k}
  {
    forall a: nat | start + pos <= a < start + next ensures PageOf(a) == k {
    }
    assert PageOf(start + pos) in PagesOf(start, next);
  }

  /** How far a load has come: its first pos bytes are in place and only their pages were touched. */
  ghost predicate Progress(s0: Snap, s: Snap, touched: set<nat>, start: nat, data: seq<Byte>, pos: nat) {
    && pos <= |data| && Paged(s.contents) && s0.hashed <= s0.contents.Keys
    && Loaded(s0.contents, s.contents, start, data[..pos])
    && Touched(s0.nodes, s0.contents, s0.hashed, s.nodes, s.contents, s.hashed, touched)
  }

  lemma ProgressStep(s0: Snap, s: Snap, touched: set<nat>, start: nat, data: seq<Byte>, pos: nat, next: nat, addr: Word)
    requires Paged(s.contents) && Progress(s0, s, touched, start, data, pos) && pos <= next <= |data|
    requires addr == Wrap(start + pos) && start + next <= 0x1_0000_0000 && addr % PAGE_SIZE + (next - pos) <= PAGE_SIZE
    ensures Progress(s0, Piece(s, addr, data[pos..next]), touched + {addr / PAGE_SIZE}, start, data, next)
    ensures Paged(Piece(s, addr, data[pos..next]).contents)
  {
    var k, s' := addr / PAGE_SIZE, Piece(s, addr, data[pos..next]);
    assert data[..pos] + data[pos..next] == data[..next];
    LoadedStep(s0.contents, s.contents, start, data[..pos], data[pos..next], k, addr % PAGE_SIZE);
    if k in s.contents {
      TouchExisting(s0.nodes, s0.contents, s0.hashed, s.nodes, s.contents, s.hashed, touched, k, s'.contents[k]);
    } else {
      TouchNew(s0.nodes, s0.contents, s0.hashed, s.nodes, s.contents, s.hashed, touched, k, s'.contents[k]);
    }
  }

  lemma ProgressStart(s0: Snap, start: nat, data: seq<Byte>)
    requires Paged(s0.contents) && s0.hashed <= s0.contents.Keys
    ensures Progress(s0, s0, {}, start, data, 0)
  {
  }

  /** What a finished load amounts to. */
  lemma ProgressEnd(h: Hash, s0: Snap, s: Snap, touched: set<nat>, start: nat, data: seq<Byte>)
    requires Coherent(h, s0.nodes, s0.contents, s0.hashed) && Progress(s0, s, touched, start, data, |data|)
    requires PagesOf(start, |data|) <= touched
    ensures Loaded(s0.contents, s.contents, start, data)
    ensures s.contents.Keys == s0.contents.Keys + touched
    ensures Cleared(s0.nodes, s.nodes, touched - s0.contents.Keys)
    ensures Coherent(h, s.nodes, s.contents, s.hashed) <==> NoStaleAncestor(s0.nodes, s0.contents.Keys, touched)
  {
    hide Coherent, NoStaleAncestor, Cleared;
    assert data[..|data|] == data;
    forall a: nat | a / PAGE_SIZE !in touched ensures FlatByte(s.contents, a) == FlatByte(s0.contents, a) {
      assert PageOf(a) !in PagesOf(start, |data|);
    }
    CoherentAfterLoad(h, s0.nodes, s0.contents, s0.hashed, s.nodes, s.contents, s.hashed, touched);
  }

  /** After the load the tree is coherent exactly when no cached node covers a page that existed and was written. */
  lemma CoherentAfterLoad(h: Hash, nodes0: Nodes, c0: Contents, hashed0: set<nat>, nodes: Nodes, c: Contents,
                          hashed: set<nat>, touched: set<nat>)
    requires Coherent(h, nodes0, c0, hashed0) && Touched(nodes0, c0, hashed0, nodes, c, hashed, touched)
    requires forall a: nat | a / PAGE_SIZE !in touched :: FlatByte(c, a) == FlatByte(c0, a)
    ensures Coherent(h, nodes, c, hashed) <==> NoStaleAncestor(nodes0, c0.Keys, touched)
  {
    var ks := touched - c0.Keys;
    if NoStaleAncestor(nodes0, c0.Keys, touched) {
      forall k, g: nat | k in c && g >= 1 && Covers(g, k) ensures g in nodes {
        assert k !in c0 ==> CoversSome(g, ks);
        assert Cleared(nodes0, nodes, ks) && (CoversSome(g, ks) || !CoversSome(g, ks));
      }
      forall g: nat | 1 <= g < MAX_PAGES && g in nodes && nodes[g].Cached?
        ensures TrueNode(h, nodes[g].digest, c, hashed, g)
      {
        assert !CoversSome(g, ks);
        assert TrueNode(h, nodes0[g].digest, c0, hashed0, g);
        forall k | k in c && Covers(g, k) ensures k in hashed {
          assert k in touched ==> k in c0;
        }
        UntouchedNode(h, c0, c, touched, g);
      }
    } else {
      var k, g: nat :| k in touched && k in c0.Keys && 1 <= g < MAX_PAGES && Covers(g, k)
        && g in nodes0 && nodes0[g].Cached? && !CoversSome(g, ks);
      assert nodes[g] == nodes0[g];
      assert Coherent(h, nodes, c, hashed) ==> TrueNode(h, nodes[g].digest, c, hashed, g);
    }
  }

  /** A node above no written page keeps its hash. */
  lemma UntouchedNode(h: Hash, c0: Contents, c: Contents, touched: set<nat>, g: nat)
    requires Paged(c0) && Paged(c) && 1 <= g < MAX_PAGES && forall k | k in touched :: !Covers(g, k)
    requires forall a: nat | a / PAGE_SIZE !in touched :: FlatByte(c, a) == FlatByte(c0, a)
    ensures MemNode(h, c, g) == MemNode(h, c0, g)
  {
    forall x: nat | x >= MEM_LEAVES && Above(g, x) ensures MemLeaf(c)(x) == MemLeaf(c0)(x) {
      if x < 2 * MEM_LEAVES {
        AbovePage(g, x);
        var a := 32 * (x - MEM_LEAVES);
        assert Covers(g, x / PAGE_LEAVES - MAX_PAGES);
        forall j: nat | j < 32 ensures FlatBytes(c, a, 32)[j] == FlatBytes(c0, a, 32)[j] {
          assert (a + j) / PAGE_SIZE == x / PAGE_LEAVES - MAX_PAGES;
        }
        assert FlatBytes(c, a, 32) == FlatBytes(c0, a, 32);
      } else {
        BeyondLastPage(c, x);
        BeyondLastPage(c0, x);
      }
    }
    NodeLocal(h, MemLeaf(c), MemLeaf(c0), MEM_LEAVES, g);
  }
}
