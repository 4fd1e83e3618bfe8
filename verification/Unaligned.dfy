/** What the loads and stores of bytes, halfwords and unaligned words do to byte lanes and to the flat memory
    (cannon/mipsevm/mips.go, execute; MIPS32 Architecture For Programmers Volume II, chapter 3). */
module Unaligned {
  import opened Alu
  import opened AluMeaning
  import opened Bits
  import opened Bytes
  import opened ByteLanes
  import opened FlatMemory
  import opened Mips

  /** The masks: all ones, shifted by k bytes either way. */
  lemma Masks(k: nat)
    requires k < 4
    ensures WordBytes(Shl(0xFFFF_FFFF, 8 * k)) == OneLanes(4 - k) + ZeroLanes(k)
    ensures WordBytes(Shr(0xFFFF_FFFF, 8 * k)) == ZeroLanes(k) + OneLanes(4 - k)
  {
    assert WordBytes(0xFFFF_FFFF) == OneLanes(4);
    ShlLanes(0xFFFF_FFFF, k);
    ShrLanes(0xFFFF_FFFF, k);
  }

  /** swl: the high bytes of the register go to the bytes from the address to the end of its word. */
  lemma StoreLeft(a: Word, rt: Word, mem: Word)
    ensures ExecuteMemory(0x2a, a, rt, mem).Ok?
    ensures var k := a % 4;
            WordBytes(ExecuteMemory(0x2a, a, rt, mem).value) == WordBytes(mem)[..k] + WordBytes(rt)[..4 - k]
  {
    hide Shl, Shr, And, Or, Not, OrW, WordBytes;
    var k: nat := a % 4;
    Masks(k);
    ShrLanes(rt, k);
    MergeLanes(mem, Shr(0xFFFF_FFFF, 8 * k), Shr(rt, 8 * k), k, 4);
    assert (ZeroLanes(k) + WordBytes(rt)[..4 - k])[k..4] == WordBytes(rt)[..4 - k];
    assert WordBytes(mem)[4..] == [];
  }

  /** swr: the low bytes of the register go to the bytes from the start of the word up to the address. */
  lemma StoreRight(a: Word, rt: Word, mem: Word)
    ensures ExecuteMemory(0x2e, a, rt, mem).Ok?
    ensures var k := a % 4;
            WordBytes(ExecuteMemory(0x2e, a, rt, mem).value) == WordBytes(rt)[3 - k..] + WordBytes(mem)[k + 1..]
  {
    hide Shl, Shr, And, Or, Not, OrW, WordBytes;
    var k: nat := a % 4;
    Masks(3 - k);
    ShlLanes(rt, 3 - k);
    MergeLanes(mem, Shl(0xFFFF_FFFF, 8 * (3 - k)), Shl(rt, 8 * (3 - k)), 0, k + 1);
    assert (WordBytes(rt)[3 - k..] + ZeroLanes(3 - k))[0..k + 1] == WordBytes(rt)[3 - k..];
    assert WordBytes(mem)[..0] == [];
  }

  /** lwl: the bytes from the address to the end of its word become the high bytes of the register. */
  lemma LoadLeft(a: Word, rt: Word, mem: Word)
    ensures ExecuteMemory(0x22, a, rt, mem).Ok?
    ensures var k := a % 4;
            WordBytes(ExecuteMemory(0x22, a, rt, mem).value) == WordBytes(mem)[k..] + WordBytes(rt)[4 - k..]
  {
    hide Shl, Shr, And, Or, Not, OrW, WordBytes;
    var k: nat := a % 4;
    Masks(k);
    ShlLanes(mem, k);
    MergeLanes(rt, Shl(0xFFFF_FFFF, 8 * k), Shl(mem, 8 * k), 0, 4 - k);
    assert (WordBytes(mem)[k..] + ZeroLanes(k))[0..4 - k] == WordBytes(mem)[k..];
    assert WordBytes(rt)[..0] == [];
  }

  /** lwr: the bytes from the start of the word up to the address become the low bytes of the register. */
  lemma LoadRight(a: Word, rt: Word, mem: Word)
    ensures ExecuteMemory(0x26, a, rt, mem).Ok?
    ensures var k := a % 4;
            WordBytes(ExecuteMemory(0x26, a, rt, mem).value) == WordBytes(rt)[..3 - k] + WordBytes(mem)[..k + 1]
  {
    hide Shl, Shr, And, Or, Not, OrW, WordBytes;
    var k: nat := a % 4;
    Masks(3 - k);
    ShrLanes(mem, 3 - k);
    MergeLanes(rt, Shr(0xFFFF_FFFF, 8 * (3 - k)), Shr(mem, 8 * (3 - k)), 3 - k, 4);
    assert (ZeroLanes(3 - k) + WordBytes(mem)[..k + 1])[3 - k..4] == WordBytes(mem)[..k + 1];
    assert WordBytes(rt)[4..] == [];
  }

  /** The n low lanes of a word, as a number. */
  lemma MaskLanes(x: Word)
    ensures And(x, 0xFF) == Lane(x, 3) && And(x, 0xFFFF) == (Lane(x, 2) as int) * 256 + Lane(x, 3)
  {
    hide And, Shr, Low, Pow2, WordBytes;
    var s := WordBytes(x);
    var a: int, b: int, c: int, d: int := s[0], s[1], s[2], s[3];
    BytesOfWord(x);
    Pow2Values();
    AndOnes(x, 8);
    AndOnes(x, 16);
    ShrIsQuotient(x, 8);
    ShrIsQuotient(x, 16);
    QuotientUnique(x, 0x100, (a * 256 + b) * 256 + c, d);
    QuotientUnique(x, 0x1_0000, a * 256 + b, c * 256 + d);
  }

  /** lb and lbu: the addressed byte, sign- or zero-extended. */
  lemma LoadByte(a: Word, rt: Word, mem: Word)
    ensures ExecuteMemory(0x24, a, rt, mem) == Ok(Lane(mem, a % 4)) && ExecuteMemory(0x20, a, rt, mem).Ok?
    ensures var b := Lane(mem, a % 4);
            Signed(ExecuteMemory(0x20, a, rt, mem).value) == if b < 128 then b else (b as int) - 256
  {
    hide Shr, And, SE, Pow2;
    var k: nat := a % 4;
    ShrLanes(mem, 3 - k);
    MaskLanes(Shr(mem, 8 * (3 - k)));
    Pow2Values();
    SignExtends(Lane(mem, k), 8);
  }

  /** lh and lhu: the addressed halfword, sign- or zero-extended; the lowest address bit is ignored. */
  lemma LoadHalf(a: Word, rt: Word, mem: Word)
    ensures ExecuteMemory(0x21, a, rt, mem).Ok? && ExecuteMemory(0x25, a, rt, mem).Ok?
    ensures var k := a / 2 % 2 * 2;
            var v := (Lane(mem, k) as int) * 256 + Lane(mem, k + 1);
            && ExecuteMemory(0x25, a, rt, mem).value == v
            && Signed(ExecuteMemory(0x21, a, rt, mem).value) == if v < 0x8000 then v else v - 0x1_0000
  {
    hide Shr, And, SE, Pow2;
    var k: nat := a / 2 % 2 * 2;
    ShrLanes(mem, 2 - k);
    MaskLanes(Shr(mem, 8 * (2 - k)));
    Pow2Values();
    HalfPower(16);
    SignExtends((Lane(mem, k) as int) * 256 + Lane(mem, k + 1), 16);
  }

  lemma XorMask(m: Word)
    ensures XorW(0xFFFF_FFFF, m) == Not(m)
  {
    Pow2Values();
    XorOnes(m, 32);
  }

  /** sb: one byte of the word changes, to the low byte of the register. */
  lemma StoreByte(a: Word, rt: Word, mem: Word)
    ensures ExecuteMemory(0x28, a, rt, mem).Ok?
    ensures WordBytes(ExecuteMemory(0x28, a, rt, mem).value) == WordBytes(mem)[a % 4 := Lane(rt, 3)]
  {
    hide Shl, Shr, And, Or, Not, OrW, XorW, WordBytes;
    var k: nat := a % 4;
    LowLanes(rt);
    XorMask(Shl(0xFF, 8 * (3 - k)));
    ShlLanes(0xFF, 3 - k);
    ShlLanes(Lane(rt, 3), 3 - k);
    MergeLanes(mem, Shl(0xFF, 8 * (3 - k)), Shl(Lane(rt, 3), 8 * (3 - k)), k, k + 1);
  }

  /** sh: two bytes of the word change, to the low half of the register; the lowest address bit is ignored. */
  lemma StoreHalf(a: Word, rt: Word, mem: Word)
    ensures ExecuteMemory(0x29, a, rt, mem).Ok?
    ensures var k := a / 2 % 2 * 2;
            WordBytes(ExecuteMemory(0x29, a, rt, mem).value) == WordBytes(mem)[k := Lane(rt, 2)][k + 1 := Lane(rt, 3)]
  {
    hide Shl, Shr, And, Or, Not, OrW, XorW, WordBytes;
    var k: nat := a / 2 % 2 * 2;
    LowLanes(rt);
    var v: Word := (Lane(rt, 2) as int) * 256 + Lane(rt, 3);
    XorMask(Shl(0xFFFF, 8 * (2 - k)));
    ShlLanes(0xFFFF, 2 - k);
    ShlLanes(v, 2 - k);
    MergeLanes(mem, Shl(0xFFFF, 8 * (2 - k)), Shl(v, 8 * (2 - k)), k, k + 2);
  }

  /** The lanes of the masks and of the masked register. */
  lemma LowLanes(rt: Word)
    ensures And(rt, 0xFF) == Lane(rt, 3) && WordBytes(Lane(rt, 3)) == ZeroLanes(3) + [Lane(rt, 3)]
    ensures And(rt, 0xFFFF) == (Lane(rt, 2) as int) * 256 + Lane(rt, 3)
    ensures WordBytes((Lane(rt, 2) as int) * 256 + Lane(rt, 3)) == ZeroLanes(2) + [Lane(rt, 2), Lane(rt, 3)]
    ensures WordBytes(0xFF) == ZeroLanes(3) + OneLanes(1) && WordBytes(0xFFFF) == ZeroLanes(2) + OneLanes(2)
  {
    hide And;
    MaskLanes(rt);
  }

  /** The memory after a store instruction at address a. */
  function AfterStore(c: Contents, insn: Word, a: Word, rt: Word): (r: Contents)
    requires Paged(c) && Execute(insn, a, rt, WordAt(c, AlignDown(a))).Ok?
    ensures Paged(r)
  {
    SetWord(c, AlignDown(a), Execute(insn, a, rt, WordAt(c, AlignDown(a))).value)
  }

  lemma AfterSwl(c: Contents, insn: Word, a: Word, rt: Word, b: nat)
    requires Paged(c) && Opcode(insn) == 0x2a
    ensures Execute(insn, a, rt, WordAt(c, AlignDown(a))).Ok?
    ensures FlatByte(AfterStore(c, insn, a, rt), b)
         == if a <= b < AlignDown(a) + 4 then WordBytes(rt)[b - a] else FlatByte(c, b)
  {
    hide FlatByte, WordAt, WordBytes, SetWord, ExecuteMemory, FlatBytes;
    var w := AlignDown(a);
    StoreLeft(a, rt, WordAt(c, w));
    SetWordBytes(c, w, Execute(insn, a, rt, WordAt(c, w)).value, b);
    if w <= b < w + 4 {
      ByteOfWord(c, w, b - w);
    }
  }

  lemma AfterSwr(c: Contents, insn: Word, a: Word, rt: Word, b: nat)
    requires Paged(c) && Opcode(insn) == 0x2e
    ensures Execute(insn, a, rt, WordAt(c, AlignDown(a))).Ok?
    ensures FlatByte(AfterStore(c, insn, a, rt), b)
         == if AlignDown(a) <= b <= a then WordBytes(rt)[3 - (a - b)] else FlatByte(c, b)
  {
    hide FlatByte, WordAt, WordBytes, SetWord, ExecuteMemory, FlatBytes;
    var w := AlignDown(a);
    StoreRight(a, rt, WordAt(c, w));
    SetWordBytes(c, w, Execute(insn, a, rt, WordAt(c, w)).value, b);
    if w <= b < w + 4 {
      ByteOfWord(c, w, b - w);
    }
  }

  /** swl at a, then swr at a + 3: exactly the four bytes from a change, to the big-endian register value. */
  lemma StoreUnaligned(c: Contents, swl: Word, swr: Word, a: Word, rt: Word)
    requires Paged(c) && Opcode(swl) == 0x2a && Opcode(swr) == 0x2e && a + 3 < 0x1_0000_0000
    ensures Execute(swl, a, rt, WordAt(c, AlignDown(a))).Ok?
    ensures Execute(swr, a + 3, rt, WordAt(AfterStore(c, swl, a, rt), AlignDown(a + 3))).Ok?
    ensures var c' := AfterStore(AfterStore(c, swl, a, rt), swr, a + 3, rt);
            forall b: nat :: FlatByte(c', b) == if a <= b < a + 4 then WordBytes(rt)[b - a] else FlatByte(c, b)
  {
    hide FlatByte, Execute, AfterStore, AlignDown, WordAt, WordBytes;
    StoreUnalignedAt(c, swl, swr, a, rt, 0);
    forall b: nat {
      StoreUnalignedAt(c, swl, swr, a, rt, b);
    }
  }

  lemma TwoWords(a: Word)
    requires a + 3 < 0x1_0000_0000
    ensures AlignDown(a + 3) == if AlignDown(a) == a then a else (AlignDown(a) as int) + 4
  {
  }

  lemma StoreUnalignedAt(c: Contents, swl: Word, swr: Word, a: Word, rt: Word, b: nat)
    requires Paged(c) && Opcode(swl) == 0x2a && Opcode(swr) == 0x2e && a + 3 < 0x1_0000_0000
    ensures Execute(swl, a, rt, WordAt(c, AlignDown(a))).Ok?
    ensures Execute(swr, a + 3, rt, WordAt(AfterStore(c, swl, a, rt), AlignDown(a + 3))).Ok?
    ensures FlatByte(AfterStore(AfterStore(c, swl, a, rt), swr, a + 3, rt), b)
         == if a <= b < a + 4 then WordBytes(rt)[b - a] else FlatByte(c, b)
  {
    hide FlatByte, WordAt, WordBytes, Execute, AlignDown, AfterStore;
    TwoWords(a);
    AfterSwl(c, swl, a, rt, b);
    AfterSwr(AfterStore(c, swl, a, rt), swr, a + 3, rt, b);
  }

  /** lwl at a, then lwr at a + 3: the register holds the four bytes from a, whatever it held before. */
  lemma LoadUnaligned(c: Contents, lwl: Word, lwr: Word, a: Word, rt: Word)
    requires Opcode(lwl) == 0x22 && Opcode(lwr) == 0x26 && a + 3 < 0x1_0000_0000
    ensures Execute(lwl, a, rt, WordAt(c, AlignDown(a))).Ok?
    ensures var r := Execute(lwl, a, rt, WordAt(c, AlignDown(a))).value;
            && Execute(lwr, a + 3, r, WordAt(c, AlignDown(a + 3))).Ok?
            && WordBytes(Execute(lwr, a + 3, r, WordAt(c, AlignDown(a + 3))).value) == FlatBytes(c, a, 4)
  {
    hide FlatByte, WordAt, WordBytes, ExecuteMemory;
    var w: nat, w': nat := AlignDown(a), AlignDown(a + 3);
    LoadLeft(a, rt, WordAt(c, w));
    var r := Execute(lwl, a, rt, WordAt(c, w)).value;
    LoadRight(a + 3, r, WordAt(c, w'));
    var result := WordBytes(Execute(lwr, a + 3, r, WordAt(c, w')).value);
    forall j: nat | j < 4 ensures result[j] == FlatBytes(c, a, 4)[j] {
      if a + j < w + 4 {
        ByteOfWord(c, w, a + j - w);
      }
      if a + j >= w' {
        ByteOfWord(c, w', a + j - w');
      }
    }
  }
}
