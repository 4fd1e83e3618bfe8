/** The contract moves pre-image bytes with shifts and masks on 256-bit words, the VM by copying bytes; both give the
    same word and the same key (packages/contracts-bedrock/src/cannon/MIPS.sol). */
module ContractMasks {
  import opened Alu
  import opened AluMeaning
  import opened Bits
  import opened Bytes
  import opened ByteLanes
  import opened Mips

  /** The number whose big-endian digits are these bytes. */
  function BytesNat(s: seq<Byte>): nat {
    if s == [] then 0 else BytesNat(s[..|s| - 1]) * 256 + s[|s| - 1]
  }

  lemma {:induction false} BytesNatBound(s: seq<Byte>)
    ensures BytesNat(s) < Pow2(8 * |s|)
  {
    if s != [] {
      BytesNatBound(s[..|s| - 1]);
      NextByte(|s| - 1);
    }
  }

  lemma NextByte(n: nat)
    ensures Pow2(8 * (n + 1)) == Pow2(8 * n) * 256
  {
    PowProduct(8 * n, 8);
    Pow2Values();
  }

  lemma {:induction false} BytesNatAppend(a: seq<Byte>, b: seq<Byte>)
    ensures BytesNat(a + b) == BytesNat(a) * Pow2(8 * |b|) + BytesNat(b)
  {
    if b == [] {
      assert a + b == a;
    } else {
      var b' := b[..|b| - 1];
      assert (a + b)[..|a + b| - 1] == a + b';
      BytesNatAppend(a, b');
      NextByte(|b'|);
      Regroup(BytesNat(a), Pow2(8 * |b'|), BytesNat(b'));
    }
  }

  lemma Regroup(x: int, p: int, y: int)
    ensures (x * p + y) * 256 == x * (p * 256) + y * 256
  {
  }

  lemma WordIsNat(s: seq<Byte>)
    requires |s| == 4
    ensures BytesNat(s) == BytesWord(s)
  {
    assert s[..3][..2] == s[..2] && s[..2][..1] == s[..1] && s[..1][..0] == [];
    assert BytesNat(s[..1]) == BytesNat([]) * 256 + s[0];
    assert BytesNat(s[..2]) == BytesNat(s[..1]) * 256 + s[1];
    assert BytesNat(s[..3]) == BytesNat(s[..2]) * 256 + s[2];
  }

  /** A length prefix is the big-endian number. */
  lemma PrefixIsNat(d: DWord)
    ensures BytesNat(DWordBytes(d)) == d
  {
    hide BytesNat, WordBytes, Pow2;
    var high, low := d / 0x1_0000_0000, d % 0x1_0000_0000;
    BytesNatAppend(WordBytes(high), WordBytes(low));
    WordIsNat(WordBytes(high));
    WordIsNat(WordBytes(low));
    BytesOfWord(high);
    BytesOfWord(low);
    Pow2Values();
  }

  /** The word after a pre-image read: d holds the n delivered bytes, right-aligned, and goes to byte `at` of mem. */
  function MaskedMerge(mem: Word, at: nat, d: Word, n: nat): Word
    requires at + n <= 4
  {
    var suffixMask := Wrap(Shl(1, 8 * (4 - at - n)) - 1);
    var mask := And(Wrap(Shl(1, 8 * (4 - at)) - 1), Not(suffixMask));
    OrW(And(mem, Not(mask)), Shl(d, 8 * (4 - n - at)))
  }

  /** A mask of the k lowest bytes. */
  lemma LowMask(k: nat)
    requires k <= 4
    ensures WordBytes(Wrap(Shl(1, 8 * k) - 1)) == ZeroLanes(4 - k) + OneLanes(k)
  {
    hide Shl, Pow2, WordBytes, Wrap;
    OnesMask(8 * k);
    Pow2Values();
    PowZero();
    LowMaskBytes();
    assert ZeroLanes(4) + OneLanes(0) == ZeroLanes(4) && ZeroLanes(0) + OneLanes(4) == OneLanes(4);
  }

  lemma LowMaskBytes()
    ensures WordBytes(0) == ZeroLanes(4) && WordBytes(0xFF) == ZeroLanes(3) + OneLanes(1)
    ensures WordBytes(0xFFFF) == ZeroLanes(2) + OneLanes(2) && WordBytes(0xFF_FFFF) == ZeroLanes(1) + OneLanes(3)
    ensures WordBytes(0xFFFF_FFFF) == OneLanes(4)
  {
  }

  lemma PowZero()
    ensures Pow2(0) == 1
  {
  }

  lemma MiddleMask(at: nat, n: nat)
    requires at + n <= 4
    ensures var mask := And(Wrap(Shl(1, 8 * (4 - at)) - 1), Not(Wrap(Shl(1, 8 * (4 - at - n)) - 1)));
            WordBytes(mask) == ZeroLanes(at) + OneLanes(n) + ZeroLanes(4 - at - n)
  {
    hide And, Shl, Not, WordBytes;
    var high, low := Wrap(Shl(1, 8 * (4 - at)) - 1), Wrap(Shl(1, 8 * (4 - at - n)) - 1);
    LowMask(4 - at);
    LowMask(4 - at - n);
    var m := ZeroLanes(at) + OneLanes(n) + ZeroLanes(4 - at - n);
    forall i: nat | i < 4 ensures WordBytes(And(high, Not(low)))[i] == m[i] {
      LanesOfBitwise(high, Not(low), i);
      NotLanes(low, i);
      MaskByte();
    }
  }

  lemma MaskByte()
    ensures And(0, 255) == 0 && And(0, 0) == 0 && And(255, 255) == 255 && And(255, 0) == 0
  {
    AndByte(0);
    AndByte(255);
  }

  /** Shifting right-aligned bytes into place. */
  lemma PlacedLanes(dat: seq<Byte>, at: nat, n: nat)
    requires at + n <= 4 && |dat| == n
    ensures WordBytes(Shl(BytesWord(ZeroLanes(4 - n) + dat), 8 * (4 - n - at)))
              == ZeroLanes(at) + dat + ZeroLanes(4 - at - n)
  {
    hide Shl, WordBytes, BytesWord;
    var s := ZeroLanes(4 - n) + dat;
    WordOfBytes(s);
    if 4 - n - at < 4 {
      ShlLanes(BytesWord(s), 4 - n - at);
      assert s[4 - n - at..] == ZeroLanes(at) + dat;
    } else {
      ZeroShifted(s);
    }
  }

  lemma ZeroShifted(s: seq<Byte>)
    requires s == ZeroLanes(4)
    ensures WordBytes(Shl(BytesWord(s), 32)) == ZeroLanes(4)
  {
    hide Shl, WordBytes, BytesWord, Pow2, Wrap;
    ZeroWordOfLanes();
    ShlIsProduct(0, 32);
    WrapNothing();
  }

  lemma ZeroWordOfLanes()
    ensures BytesWord(ZeroLanes(4)) == 0 && WordBytes(0) == ZeroLanes(4)
  {
  }

  lemma WrapNothing()
    ensures Wrap(0) == 0
  {
  }

  /** The contract's masks and the VM's copy give the same word. */
  lemma MergeAgrees(mem: Word, at: nat, dat: seq<Byte>, n: nat)
    requires at + n <= 4 && n <= |dat|
    ensures MaskedMerge(mem, at, BytesWord(ZeroLanes(4 - n) + dat[..n]), n) == MergeBytes(mem, at, dat, n)
  {
    hide And, Or, OrW, Shl, Not, WordBytes, BytesWord;
    var d := BytesWord(ZeroLanes(4 - n) + dat[..n]);
    var mask := And(Wrap(Shl(1, 8 * (4 - at)) - 1), Not(Wrap(Shl(1, 8 * (4 - at - n)) - 1)));
    var val := Shl(d, 8 * (4 - n - at));
    MiddleMask(at, n);
    PlacedLanes(dat[..n], at, n);
    forall i: nat | i < 4 && !(at <= i < at + n) ensures Lane(val, i) == 0 {
      assert WordBytes(val)[i] == (ZeroLanes(at) + dat[..n] + ZeroLanes(4 - at - n))[i];
    }
    MergeLanes(mem, mask, val, at, at + n);
    assert WordBytes(val)[at..at + n] == dat[..n];
    BytesOfWord(MaskedMerge(mem, at, d, n));
  }

  /** The 256-bit key after a pre-image write: shifted by n bytes, the n bytes of mem from `at` on put in at the end. */
  function MaskedKey(key: nat, mem: Word, at: nat, n: nat): nat
    requires at + n <= 4
  {
    Or(And(Shr(mem, 8 * (4 - at - n)), Pow2(8 * n) - 1), key * Pow2(8 * n) % Pow2(256))
  }

  /** Bytes [at, at + n) of a word, right-aligned. */
  lemma ExtractedBytes(mem: Word, at: nat, n: nat)
    requires at + n <= 4
    ensures And(Shr(mem, 8 * (4 - at - n)), Pow2(8 * n) - 1) == BytesNat(WordBytes(mem)[at..at + n])
  {
    hide And, Shr, Low, Pow2, BytesNat, WordBytes;
    var s, k := WordBytes(mem), 4 - at - n;
    BytesOfWord(mem);
    WordIsNat(s);
    assert s[..at + n] + s[at + n..] == s && s[..at] + s[at..at + n] == s[..at + n];
    BytesNatAppend(s[..at + n], s[at + n..]);
    BytesNatAppend(s[..at], s[at..at + n]);
    BytesNatBound(s[at + n..]);
    BytesNatBound(s[at..at + n]);
    ShrIsQuotient(mem, 8 * k);
    QuotientUnique(mem, Pow2(8 * k), BytesNat(s[..at + n]), BytesNat(s[at + n..]));
    AndOnes(Shr(mem, 8 * k), 8 * n);
    ShrIsQuotient(Shr(mem, 8 * k), 8 * n);
    QuotientUnique(BytesNat(s[..at + n]), Pow2(8 * n), BytesNat(s[..at]), BytesNat(s[at..at + n]));
  }

  lemma ShiftedKey(key: Digest, n: nat)
    requires n <= 4
    ensures BytesNat(key) * Pow2(8 * n) % Pow2(256) == BytesNat(key[n..]) * Pow2(8 * n)
    ensures BytesNat(key[n..]) * Pow2(8 * n) < Pow2(256)
  {
    hide Pow2, BytesNat;
    var head, tail := BytesNat(key[..n]), BytesNat(key[n..]);
    assert key[..n] + key[n..] == key;
    BytesNatAppend(key[..n], key[n..]);
    BytesNatBound(key[n..]);
    PowProduct(8 * (32 - n), 8 * n);
    var p, q := Pow2(8 * (32 - n)), Pow2(8 * n);
    Distribute3(head, p, q, tail);
    MulMonotone(tail + 1, p, q);
    Distribute3(1, 1, q, tail);
    QuotientUnique(BytesNat(key) * q, Pow2(256), head, tail * q);
  }

  lemma Distribute3(x: int, p: int, q: int, y: int)
    ensures (x * p + y) * q == x * (p * q) + y * q
  {
  }

  /** The contract's key arithmetic and the VM's copy give the same key. */
  lemma KeyAgrees(key: Digest, mem: Word, at: nat, n: nat)
    requires at + n <= 4
    ensures MaskedKey(BytesNat(key), mem, at, n) == BytesNat(ShiftKey(key, mem, at, n))
  {
    hide Or, And, Shr, Pow2, BytesNat, WordBytes;
    var part := WordBytes(mem)[at..at + n];
    ExtractedBytes(mem, at, n);
    ShiftedKey(key, n);
    BytesNatBound(part);
    OrDisjoint(BytesNat(part), BytesNat(key[n..]), 8 * n);
    BytesNatAppend(key[n..], part);
  }

  /** 1 << n on uint256. */
  function Bit256(n: nat): nat {
    if n < 256 then Pow2(n) else 0
  }

  /** SE as the contract computes it, its masks on 256 bits. */
  function SE256(dat: Word, idx: Word): Word {
    var isSigned := Shr(dat, Wrap(idx - 1)) != 0;
    var signed := if idx < 256 then (Bit256(Wrap(32 - idx)) - 1) % Pow2(256) * Pow2(idx) % Pow2(256) else 0;
    var mask := (Bit256(idx) - 1) % Pow2(256);
    Wrap(Or(And(dat, mask), if isSigned then signed else 0))
  }

  lemma PowBelow256(n: nat)
    requires n < 256
    ensures Pow2(n) < Pow2(256) && (Pow2(n) - 1) % Pow2(256) == Pow2(n) - 1
  {
    hide Pow2;
    HalfPower(256);
    Pow2Monotone(n, 255);
    QuotientUnique(Pow2(n) - 1, Pow2(256), 0, Pow2(n) - 1);
  }

  lemma SignMask(idx: Word)
    requires 1 <= idx <= 32
    ensures (Bit256(Wrap(32 - idx)) - 1) % Pow2(256) * Pow2(idx) % Pow2(256) == 0x1_0000_0000 - Pow2(idx)
  {
    hide Pow2, Wrap;
    WrapSame(32 - idx);
    HighProduct(idx);
    Pow2Values();
    PowBelow256(32);
    PowBelow256(32 - idx);
    QuotientUnique(0x1_0000_0000 - Pow2(idx), Pow2(256), 0, 0x1_0000_0000 - Pow2(idx));
  }

  lemma DataMask(dat: Word, idx: Word)
    requires 1 <= idx <= 32 && dat < Pow2(idx)
    ensures And(dat, (Bit256(idx) - 1) % Pow2(256)) == dat
  {
    hide And, Pow2, Low;
    PowBelow256(idx);
    AndOnes(dat, idx);
    LowSmall(dat, idx);
  }

  lemma SE256Value(dat: Word, idx: Word)
    requires 1 <= idx <= 32 && dat < Pow2(idx)
    ensures SE256(dat, idx) == if dat < Pow2(idx - 1) then dat else 0x1_0000_0000 - Pow2(idx) + dat
  {
    hide Or, And, Shr, Pow2, Wrap, Bit256;
    WrapSame(idx - 1);
    SignTest(dat, idx - 1);
    SignMask(idx);
    DataMask(dat, idx);
    if dat < Pow2(idx - 1) {
      OrZero(dat);
      WrapSame(dat);
    } else {
      Pow2Values();
      Pow2Monotone(idx, 32);
      OrHigh(dat, 0x1_0000_0000 - Pow2(idx), idx);
      WrapSame(0x1_0000_0000 - Pow2(idx) + dat);
    }
  }

  lemma OrZero(x: nat)
    ensures Or(x, 0) == x && And(0, x) == 0
  {
  }

  /** The contract's sign extension is the VM's, on every value the two use it for: one below two to the width, or zero
      with any width, which is what srav leaves of an amount of 32 and more. */
  lemma SignExtensionAgrees(dat: Word, idx: Word)
    requires (1 <= idx <= 32 && dat < Pow2(idx)) || dat == 0
    ensures SE256(dat, idx) == SE(dat, idx)
  {
    hide SE, SE256, Pow2;
    if dat == 0 {
      ZeroExtends(idx);
    } else {
      SEValue(dat, idx);
      SE256Value(dat, idx);
    }
  }

  lemma ZeroExtends(idx: Word)
    ensures SE256(0, idx) == 0 && SE(0, idx) == 0
  {
    hide Or, And, Shl, Pow2;
    OrZero(0);
    OrZero(Wrap(Shl(1, idx) - 1));
    OrZero((Bit256(idx) - 1) % Pow2(256));
    ShrZero(Wrap(idx - 1));
  }

  lemma {:induction false} ShrZero(n: nat)
    ensures Shr(0, n) == 0
  {
    if n > 0 {
      ShrZero(n - 1);
    }
  }

  /** srav: the contract's result is the VM's for every amount. */
  lemma SravAgrees(rt: Word, rs: Word)
    ensures SE256(Shr(rt, rs), Wrap(32 - rs)) == SE(Shr(rt, rs), Wrap(32 - rs))
  {
    hide SE256, SE, Shr, Pow2;
    ShrBelow(rt, rs);
    SignExtensionAgrees(Shr(rt, rs), Wrap(32 - rs));
  }

  lemma ShrBelow(x: Word, n: nat)
    ensures if n < 32 then Shr(x, n) < Pow2(32 - n) else Shr(x, n) == 0
  {
    hide Shr, Pow2, Low;
    Pow2Values();
    if n < 32 {
      SignTest(x, 32);
      ShrIsQuotient(x, n);
      PowProduct(32 - n, n);
      QuotientBelow(x, Pow2(32 - n), Pow2(n));
    } else {
      Pow2Monotone(32, n);
      SignTest(x, n);
    }
  }

  lemma QuotientBelow(x: nat, p: nat, q: nat)
    requires q > 0 && x < p * q
    ensures x / q < p
  {
    var d := x / q;
    assert x == d * q + x % q;
    AtLeastTimes(p, d, q);
  }

  lemma AtLeastTimes(p: nat, d: nat, q: nat)
    ensures d >= p ==> d * q >= p * q
  {
    if d >= p {
      MulMonotone(p, d, q);
    }
  }

  /** mult and multu: HI and LO from a 64-bit accumulator are those of the exact product. */
  lemma ProductAgrees(fun: nat, rs: Word, rt: Word, hi: Word, lo: Word)
    requires fun == 0x18 || fun == 0x19
    ensures var product := if fun == 0x18 then Signed(rs) * Signed(rt) else (rs as int) * rt;
            var acc := product % 0x1_0000_0000_0000_0000;
            HiLo(fun, rs, rt, hi, lo) == Ok((acc / 0x1_0000_0000, acc % 0x1_0000_0000, 0))
  {
    hide Signed;
    Accumulated(if fun == 0x18 then Signed(rs) * Signed(rt) else (rs as int) * rt);
  }

  lemma Accumulated(x: int)
    ensures var acc := x % 0x1_0000_0000_0000_0000;
            Wrap(x / 0x1_0000_0000) == acc / 0x1_0000_0000 && Wrap(x) == acc % 0x1_0000_0000
  {
  }

  /** The read's 32-byte part, shifted right to keep its first n bytes, is the word that is merged. */
  lemma RightAligned(dat: Digest, n: nat)
    requires n <= 4
    ensures (if n == 0 then 0 else BytesNat(dat) / Pow2(256 - 8 * n)) == BytesWord(ZeroLanes(4 - n) + dat[..n])
  {
    hide Pow2, BytesNat, BytesWord;
    var lanes := ZeroLanes(4 - n) + dat[..n];
    WordIsNat(lanes);
    LeadingZeros(4 - n, dat[..n]);
    if n == 0 {
      NoBytes(dat[..0]);
    } else {
      assert dat[..n] + dat[n..] == dat;
      BytesNatAppend(dat[..n], dat[n..]);
      BytesNatBound(dat[n..]);
      QuotientUnique(BytesNat(dat), Pow2(256 - 8 * n), BytesNat(dat[..n]), BytesNat(dat[n..]));
    }
  }

  lemma NoBytes(s: seq<Byte>)
    requires s == []
    ensures BytesNat(s) == 0
  {
  }

  lemma LeadingZeros(k: nat, s: seq<Byte>)
    requires k <= 4
    ensures BytesNat(ZeroLanes(k) + s) == BytesNat(s)
  {
    hide BytesNat, Pow2;
    BytesNatAppend(ZeroLanes(k), s);
    ZeroBytes(k);
  }

  lemma {:induction false} ZeroBytes(k: nat)
    requires k <= 4
    ensures BytesNat(ZeroLanes(k)) == 0
  {
    if k > 0 {
      assert ZeroLanes(k)[..k - 1] == ZeroLanes(k - 1);
      ZeroBytes(k - 1);
    }
  }

  /** The status byte: masking the hash and or-ing the status in at the top replaces its first byte. */
  lemma StatusAgrees(d: Digest, status: Byte)
    ensures Or(And(BytesNat(d), Pow2(248) - 1), status * Pow2(248)) == BytesNat(d[0 := status])
  {
    hide Or, And, Low, Shr, Pow2, BytesNat;
    var rest := d[1..];
    assert d == [d[0]] + rest && d[0 := status] == [status] + rest;
    BytesNatAppend([d[0]], rest);
    BytesNatAppend([status], rest);
    OneByte(d[0]);
    OneByte(status);
    BytesNatBound(rest);
    AndOnes(BytesNat(d), 248);
    ShrIsQuotient(BytesNat(d), 248);
    QuotientUnique(BytesNat(d), Pow2(248), d[0], BytesNat(rest));
    OrDisjoint(BytesNat(rest), status, 248);
  }

  lemma OneByte(b: Byte)
    ensures BytesNat([b]) == b
  {
    assert [b][..0] == [];
  }
}
