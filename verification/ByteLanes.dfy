/** Words as four byte lanes: shifts by whole bytes move lanes, bitwise operators act on each lane. */
module ByteLanes {
  import opened Alu
  import opened Bits
  import opened Bytes

  lemma {:induction false} ShlIsProduct(x: Word, n: nat)
    ensures Shl(x, n) == Wrap(x * Pow2(n))
  {
    if n > 0 {
      ShlIsProduct(x, n - 1);
      WrapDouble(x * Pow2(n - 1));
      DoubleProduct(x, Pow2(n - 1));
    }
  }

  lemma WrapDouble(y: int)
    ensures Wrap(2 * Wrap(y)) == Wrap(2 * y)
  {
    var m, q, r := 0x1_0000_0000, y / 0x1_0000_0000, y % 0x1_0000_0000;
    if 2 * r < m {
      QuotientUnique(2 * y, m, 2 * q, 2 * r);
    } else {
      QuotientUnique(2 * y, m, 2 * q + 1, 2 * r - m);
      QuotientUnique(2 * r, m, 1, 2 * r - m);
    }
  }

  lemma DoubleProduct(x: int, p: int)
    ensures x * (2 * p) == 2 * (x * p)
  {
  }

  /** x is made of its n lowest bits and the rest. */
  lemma {:induction false} ShrLow(x: nat, n: nat)
    ensures x == Shr(x, n) * Pow2(n) + Low(x, n)
  {
    if n > 0 {
      ShrLow(x / 2, n - 1);
      DoubleProduct(Shr(x, n), Pow2(n - 1));
    }
  }

  lemma ShrIsQuotient(x: nat, n: nat)
    ensures Shr(x, n) == x / Pow2(n) && Low(x, n) == x % Pow2(n)
  {
    ShrLow(x, n);
    QuotientUnique(x, Pow2(n), Shr(x, n), Low(x, n));
  }

  lemma ShrLowStep(x: nat, n: nat)
    requires n > 0
    ensures Shr(x, n) == Shr(x / 2, n - 1) && Low(x, n) / 2 == Low(x / 2, n - 1) && Low(x, n) % 2 == x % 2
  {
  }

  /** And and or act separately on the n lowest bits and on the rest. */
  lemma {:induction false} BitwiseSplit(x: nat, y: nat, n: nat)
    ensures Shr(And(x, y), n) == And(Shr(x, n), Shr(y, n)) && Low(And(x, y), n) == And(Low(x, n), Low(y, n))
    ensures Shr(Or(x, y), n) == Or(Shr(x, n), Shr(y, n)) && Low(Or(x, y), n) == Or(Low(x, n), Low(y, n))
  {
    hide And, Or, Shr, Low;
    ShrLowZero(x);
    ShrLowZero(y);
    ShrLowZero(And(x, y));
    ShrLowZero(Or(x, y));
    BitwiseZero();
    if n > 0 {
      BitwiseSplit(x / 2, y / 2, n - 1);
      ShrLowStep(x, n);
      ShrLowStep(y, n);
      ShrLowStep(And(x, y), n);
      ShrLowStep(Or(x, y), n);
      BitwiseHalf(x, y);
      BitwiseHalf(Low(x, n), Low(y, n));
      SameHalves(Low(And(x, y), n), And(Low(x, n), Low(y, n)));
      SameHalves(Low(Or(x, y), n), Or(Low(x, n), Low(y, n)));
    }
  }

  lemma ShrLowZero(x: nat)
    ensures Shr(x, 0) == x && Low(x, 0) == 0
  {
  }

  lemma SameHalves(a: nat, b: nat)
    requires a / 2 == b / 2 && (a % 2 == 1 <==> b % 2 == 1)
    ensures a == b
  {
  }

  lemma BitwiseZero()
    ensures And(0, 0) == 0 && Or(0, 0) == 0 && Xor(0, 0) == 0
  {
  }

  function Lane(x: Word, i: nat): Byte
    requires i < 4
  {
    WordBytes(x)[i]
  }

  lemma LaneSplit(x: Word)
    ensures Shr(x, 8) == x / 256 && Low(x, 8) == x % 256
    ensures Lane(x, 3) == x % 256 && Lane(x, 2) == x / 256 % 256
    ensures Lane(x, 1) == x / 256 / 256 % 256 && Lane(x, 0) == x / 256 / 256 / 256
  {
    ShrIsQuotient(x, 8);
    Pow2Values();
  }

  /** The bitwise operators on the low byte and the rest. */
  lemma ByteSplit(x: nat, y: nat)
    ensures And(x, y) / 256 == And(x / 256, y / 256) && And(x, y) % 256 == And(x % 256, y % 256)
    ensures Or(x, y) / 256 == Or(x / 256, y / 256) && Or(x, y) % 256 == Or(x % 256, y % 256)
  {
    hide And, Or;
    Pow2Values();
    BitwiseSplit(x, y, 8);
    ShrIsQuotient(x, 8);
    ShrIsQuotient(y, 8);
    ShrIsQuotient(And(x, y), 8);
    ShrIsQuotient(Or(x, y), 8);
  }

  lemma LanesOfBitwise(x: Word, y: Word, i: nat)
    requires i < 4
    ensures Lane(And(x, y), i) == And(Lane(x, i), Lane(y, i))
    ensures Lane(OrW(x, y), i) == Or(Lane(x, i), Lane(y, i))
  {
    hide And, Or;
    LaneSplit(x);
    LaneSplit(y);
    LaneSplit(And(x, y));
    LaneSplit(OrW(x, y));
    ByteSplit(x, y);
    ByteSplit(x / 256, y / 256);
    ByteSplit(x / 256 / 256, y / 256 / 256);
  }

  function ZeroLanes(k: nat): (s: seq<Byte>)
    ensures |s| == k
  {
    seq<Byte>(k, _ => 0)
  }

  function OneLanes(k: nat): (s: seq<Byte>)
    ensures |s| == k
  {
    seq<Byte>(k, _ => 0xFF)
  }

  lemma EightTimes(k: nat)
    requires k < 4
    ensures Pow2(8 * k) == [1, 0x100, 0x1_0000, 0x100_0000][k]
  {
    Pow2Values();
  }

  /** Shifting left by k bytes moves every lane k places up. */
  lemma ShlLanes(x: Word, k: nat)
    requires k < 4
    ensures WordBytes(Shl(x, 8 * k)) == WordBytes(x)[k..] + ZeroLanes(k)
  {
    hide WordBytes, Shl;
    var b := WordBytes(x)[k..] + ZeroLanes(k);
    WordOfBytes(b);
    BytesOfWord(x);
    ShlIsProduct(x, 8 * k);
    EightTimes(k);
    ShiftedLanes(WordBytes(x), k);
  }

  /** The value of four bytes moved up by k places. */
  lemma ShiftedLanes(s: seq<Byte>, k: nat)
    requires |s| == 4 && k < 4
    ensures BytesWord(s[k..] + ZeroLanes(k)) == Wrap(BytesWord(s) * [1, 0x100, 0x1_0000, 0x100_0000][k])
  {
    var a: int, b: int, c: int, d: int := s[0], s[1], s[2], s[3];
    if k == 1 {
      DropHigh(a, ((b * 256 + c) * 256 + d) * 256);
    } else if k == 2 {
      DropHigh(a * 256 + b, (c * 256 + d) * 0x1_0000);
    } else if k == 3 {
      DropHigh((a * 256 + b) * 256 + c, d * 0x100_0000);
    }
  }

  lemma DropHigh(high: int, low: int)
    requires 0 <= low < 0x1_0000_0000
    ensures Wrap(high * 0x1_0000_0000 + low) == low
  {
  }

  /** Shifting right by k bytes moves every lane k places down. */
  lemma ShrLanes(x: Word, k: nat)
    requires k < 4
    ensures WordBytes(Shr(x, 8 * k)) == ZeroLanes(k) + WordBytes(x)[..4 - k]
  {
    hide WordBytes, Shr;
    var b := ZeroLanes(k) + WordBytes(x)[..4 - k];
    WordOfBytes(b);
    BytesOfWord(x);
    ShrIsQuotient(x, 8 * k);
    EightTimes(k);
    UnshiftedLanes(WordBytes(x), k);
  }

  lemma UnshiftedLanes(s: seq<Byte>, k: nat)
    requires |s| == 4 && k < 4
    ensures BytesWord(ZeroLanes(k) + s[..4 - k]) == BytesWord(s) / [1, 0x100, 0x1_0000, 0x100_0000][k]
  {
  }

  /** Or-ing with the complement of an or is subtraction from all ones. */
  lemma {:induction false} XorOnes(x: nat, w: nat)
    requires x < Pow2(w)
    ensures Xor(Pow2(w) - 1, x) == Pow2(w) - 1 - x
  {
    hide And, Or, Xor;
    if w == 0 {
      BitwiseZero();
    } else {
      XorOnes(x / 2, w - 1);
      BitwiseHalf(Pow2(w) - 1, x);
    }
  }

  lemma {:induction false} AndOnes(x: nat, w: nat)
    ensures And(x, Pow2(w) - 1) == Low(x, w)
  {
    if w > 0 && x > 0 {
      AndOnes(x / 2, w - 1);
    } else if x == 0 {
      LowZero(w);
    }
  }

  lemma {:induction false} LowZero(w: nat)
    ensures Low(0, w) == 0
  {
    if w > 0 {
      LowZero(w - 1);
    }
  }

  /** The bytes of `keep` where the mask is clear, those of `val` where it is set. */
  lemma MergeLanes(keep: Word, mask: Word, val: Word, lo: nat, hi: nat)
    requires lo <= hi <= 4
    requires WordBytes(mask) == ZeroLanes(lo) + OneLanes(hi - lo) + ZeroLanes(4 - hi)
    requires forall i: nat | i < 4 && !(lo <= i < hi) :: Lane(val, i) == 0
    ensures WordBytes(OrW(And(keep, Not(mask)), val))
              == WordBytes(keep)[..lo] + WordBytes(val)[lo..hi] + WordBytes(keep)[hi..]
  {
    hide And, Or, Not, OrW, WordBytes;
    var r := OrW(And(keep, Not(mask)), val);
    var s := WordBytes(keep)[..lo] + WordBytes(val)[lo..hi] + WordBytes(keep)[hi..];
    forall i: nat | i < 4 ensures WordBytes(r)[i] == s[i] {
      assert Lane(mask, i) == if lo <= i < hi then 255 else 0;
      MergeLane(keep, mask, val, i);
    }
  }

  lemma MergeLane(keep: Word, mask: Word, val: Word, i: nat)
    requires i < 4 && (Lane(mask, i) == 0 || Lane(mask, i) == 255)
    requires Lane(mask, i) == 0 ==> Lane(val, i) == 0
    ensures Lane(OrW(And(keep, Not(mask)), val), i) == if Lane(mask, i) == 0 then Lane(keep, i) else Lane(val, i)
  {
    hide And, Or, Not, OrW, Lane;
    LanesOfBitwise(And(keep, Not(mask)), val, i);
    LanesOfBitwise(keep, Not(mask), i);
    NotLanes(mask, i);
    AndByte(Lane(keep, i));
    AndByte(Lane(val, i));
  }

  lemma NotLanes(x: Word, i: nat)
    requires i < 4
    ensures Lane(Not(x), i) == 255 - Lane(x, i)
  {
    hide WordBytes;
    var s := WordBytes(x);
    var t: seq<Byte> := [255 - s[0], 255 - s[1], 255 - s[2], 255 - s[3]];
    BytesOfWord(x);
    WordOfBytes(t);
  }

  lemma AndByte(b: Byte)
    ensures And(b, 255) == b && And(b, 0) == 0 && Or(b, 0) == b && Or(0, b) == b
  {
    hide And, Or, Low, Shr, Pow2;
    Pow2Values();
    AndOnes(b, 8);
    ShrIsQuotient(b, 8);
    WithZero(b);
  }

  lemma WithZero(x: nat)
    ensures And(x, 0) == 0 && Or(x, 0) == x && Or(0, x) == x
  {
  }
}
