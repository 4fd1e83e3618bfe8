/** What the ALU's arithmetic means on signed integers (cannon/mipsevm/mips.go; MIPS32 Architecture For Programmers
    Volume II, chapter 3). */
module AluMeaning {
  import opened Alu
  import opened Bits
  import opened Bytes
  import opened ByteLanes
  import opened Mips

  /** Or of disjoint parts is their sum. */
  lemma {:induction false} OrDisjoint(low: nat, high: nat, n: nat)
    requires low < Pow2(n)
    ensures Or(low, high * Pow2(n)) == low + high * Pow2(n)
  {
    if n == 0 {
      assert high * Pow2(0) == high;
    } else if low > 0 && high > 0 {
      var y := high * Pow2(n);
      DoubleProduct(high, Pow2(n - 1));
      OrDisjoint(low / 2, high, n - 1);
      BitwiseHalf(low, y);
    }
  }

  lemma {:induction false} LowSmall(x: nat, n: nat)
    requires x < Pow2(n)
    ensures Low(x, n) == x
  {
    if n > 0 {
      LowSmall(x / 2, n - 1);
    }
  }

  lemma {:induction false} PowProduct(a: nat, b: nat)
    ensures Pow2(a) * Pow2(b) == Pow2(a + b)
  {
    if a > 0 {
      PowProduct(a - 1, b);
      assert Pow2(a) * Pow2(b) == 2 * (Pow2(a - 1) * Pow2(b));
    }
  }

  lemma SignTest(dat: nat, n: nat)
    ensures Shr(dat, n) != 0 <==> dat >= Pow2(n)
  {
    hide Shr, Low, Pow2;
    ShrLow(dat, n);
    if Shr(dat, n) != 0 {
      AtLeastOnce(Shr(dat, n), Pow2(n));
    }
  }

  /** (1 << n) - 1 on uint32, for n up to 32. */
  lemma OnesMask(n: nat)
    requires n <= 32
    ensures Wrap(Shl(1, n) - 1) == Pow2(n) - 1
  {
    hide Shl, Pow2;
    Pow2Values();
    Pow2Monotone(n, 32);
    if n < 32 {
      Pow2Monotone(n, 31);
    }
    ShlIsProduct(1, n);
  }

  lemma LowBits(dat: Word, n: nat)
    requires n <= 32 && dat < Pow2(n)
    ensures And(dat, Wrap(Shl(1, n) - 1)) == dat
  {
    hide Shl, Pow2, And, Low;
    OnesMask(n);
    AndOnes(dat, n);
    LowSmall(dat, n);
  }

  lemma HighProduct(n: nat)
    requires n <= 32
    ensures (Pow2(32 - n) - 1) * Pow2(n) == 0x1_0000_0000 - Pow2(n)
  {
    hide Pow2;
    Pow2Values();
    PowProduct(32 - n, n);
    Distribute(Pow2(32 - n), Pow2(n));
  }

  lemma HighBits(n: nat)
    requires n <= 32
    ensures Shl(Wrap(Shl(1, 32 - n) - 1), n) == 0x1_0000_0000 - Pow2(n)
  {
    hide Shl, Pow2;
    HighProduct(n);
    OnesMask(32 - n);
    ShlIsProduct(Wrap(Shl(1, 32 - n) - 1), n);
  }

  lemma Distribute(a: int, b: int)
    ensures (a - 1) * b == a * b - b
  {
  }

  lemma OrHigh(dat: Word, high: Word, n: nat)
    requires n <= 32 && dat < Pow2(n) && high == 0x1_0000_0000 - Pow2(n)
    ensures OrW(dat, high) == (dat as int) + high
  {
    hide Or, Pow2;
    HighProduct(n);
    OrDisjoint(dat, Pow2(32 - n) - 1, n);
  }

  lemma WrapSame(x: Word)
    ensures Wrap(x) == x
  {
  }

  lemma SEValue(dat: Word, idx: Word)
    requires 1 <= idx <= 32 && dat < Pow2(idx)
    ensures SE(dat, idx) == if dat < Pow2(idx - 1) then dat else 0x1_0000_0000 - Pow2(idx) + dat
  {
    hide And, OrW, Shl, Shr, Pow2, Wrap;
    WrapSame(idx - 1);
    WrapSame(32 - idx);
    SignTest(dat, idx - 1);
    LowBits(dat, idx);
    HighBits(idx);
    if dat >= Pow2(idx - 1) {
      OrHigh(dat, Shl(Wrap(Shl(1, 32 - idx) - 1), idx), idx);
    }
  }

  /** SE is two's-complement sign extension. */
  lemma SignExtends(dat: Word, idx: Word)
    requires 1 <= idx <= 32 && dat < Pow2(idx)
    ensures Signed(SE(dat, idx)) == if dat < Pow2(idx - 1) then dat else dat - Pow2(idx)
  {
    hide SE, Pow2;
    SEValue(dat, idx);
    Pow2Values();
    Pow2Monotone(idx - 1, 31);
    HalfPower(idx);
  }

  /** sra: floor division by the power of two. */
  lemma ShiftRightArithmetic(rt: Word, shamt: nat)
    requires shamt < 32
    ensures Signed(SE(Shr(rt, shamt), 32 - shamt)) == Signed(rt) / Pow2(shamt)
  {
    hide SE, Shr, Low, Pow2;
    var p, x, r := Pow2(shamt), Shr(rt, shamt), Low(rt, shamt);
    var half := Pow2(31 - shamt);
    ShrLow(rt, shamt);
    Pow2Values();
    HalfPower(32 - shamt);
    PowProduct(31 - shamt, shamt);
    DoubleProduct(p, half);
    BelowFactor(x, p, r, 2 * half);
    SignExtends(x, 32 - shamt);
    if rt < 0x8000_0000 {
      BelowFactor(x, p, r, half);
      QuotientUnique(rt, p, x, r);
    } else {
      AtLeastFactor(x, p, r, half);
      Minus(x, 2 * half, p);
      QuotientUnique(Signed(rt), p, (x as int) - 2 * half, r);
    }
  }

  lemma Minus(a: int, b: int, d: int)
    ensures (a - b) * d == a * d - b * d
  {
  }

  lemma AtLeastFactor(q: nat, d: nat, r: nat, n: nat)
    requires r < d && q * d + r >= n * d
    ensures q >= n
  {
    if q + 1 <= n {
      MulMonotone(q + 1, n, d);
    }
  }

  lemma BelowFactor(q: nat, d: nat, r: nat, n: nat)
    requires d > 0 && q * d + r < n * d
    ensures q < n
  {
    if q >= n {
      MulMonotone(n, q, d);
    }
  }

  lemma MulMonotone(a: int, b: int, d: nat)
    requires a <= b
    ensures a * d <= b * d
  {
  }

  /** The value of srav: no masking of the amount. */
  function Srav(rt: Word, rs: Word): Word {
    SE(Shr(rt, rs), Wrap(32 - rs))
  }

  lemma {:induction false} ShrBeyond(x: nat, n: nat, w: nat)
    requires w <= n && x < Pow2(w)
    ensures Shr(x, n) == 0
  {
    if n > 0 {
      ShrBeyond(x / 2, n - 1, if w == 0 then 0 else w - 1);
    }
  }

  lemma AndZero(y: nat)
    ensures And(0, y) == 0
  {
  }

  /** With an amount of 32 or more, srav gives zero. */
  lemma SravBeyond(rt: Word, rs: Word)
    requires rs >= 32
    ensures Srav(rt, rs) == 0
  {
    hide Shr, Shl, And, Or;
    Pow2Values();
    ShrBeyond(rt, rs, 32);
    ShrBeyond(0, Wrap(Wrap(32 - rs) - 1), 0);
    AndZero(Wrap(Shl(1, Wrap(32 - rs)) - 1));
  }

  lemma SravWhen(rt: Word, rs: Word)
    ensures Signed(Srav(rt, rs)) == Signed(rt) / Pow2(rs % 32) <==> rs < 32 || rt < Pow2(rs % 32)
  {
    hide SE, Shr, Pow2;
    if rs < 32 {
      ShiftRightArithmetic(rt, rs);
    } else {
      SravBeyond(rt, rs);
      Pow2Values();
      Pow2Monotone(rs % 32, 31);
      ZeroQuotient(Signed(rt), Pow2(rs % 32));
    }
  }

  /** sra is floor division by a power of two. */
  lemma SraIsFloorDivision(insn: Word, rs: Word, rt: Word, mem: Word)
    requires Opcode(insn) == 0 && Fun(insn) == 0x03
    ensures Execute(insn, rs, rt, mem).Ok?
    ensures Signed(Execute(insn, rs, rt, mem).value) == Signed(rt) / Pow2(Shamt(insn))
  {
    hide SE, Shr, Pow2;
    ShiftRightArithmetic(rt, Shamt(insn));
  }

  /** srav: the architecture shifts by the low five bits of the amount.  The code, which does not mask, gives that
      result exactly when the amount is below 32 or the result is zero anyway. */
  lemma SravExact(insn: Word, rs: Word, rt: Word, mem: Word)
    requires Opcode(insn) == 0 && Fun(insn) == 0x07
    ensures Execute(insn, rs, rt, mem).Ok?
    ensures Signed(Execute(insn, rs, rt, mem).value) == Signed(rt) / Pow2(rs % 32) <==> rs < 32 || rt < Pow2(rs % 32)
  {
    hide Execute, Srav, Pow2;
    SravOf(insn, rs, rt, mem);
    SravWhen(rt, rs);
  }

  lemma ZeroQuotient(x: int, d: int)
    requires d > 0
    ensures x / d == 0 <==> 0 <= x < d
  {
    if 0 <= x < d {
      QuotientUnique(x, d, 0, x);
    }
  }

  lemma SravOf(insn: Word, rs: Word, rt: Word, mem: Word)
    requires Opcode(insn) == 0 && Fun(insn) == 0x07
    ensures Execute(insn, rs, rt, mem) == Ok(Srav(rt, rs))
  {
    hide SE, Shr;
  }

  /** -1 shifted by 32 (instruction 7): the code gives 0 where the architecture gives -1. */
  lemma SravCounterexample()
    ensures Execute(0x07, 32, 0xFFFF_FFFF, 0) == Ok(0) && Signed(0xFFFF_FFFF) / Pow2(32 % 32) == -1
  {
    hide Execute, SE, Shr, Srav;
    SravOf(0x07, 32, 0xFFFF_FFFF, 0);
    SravBeyond(0xFFFF_FFFF, 32);
  }

  /** A number is its upper and lower word, when the upper one fits. */
  lemma WordsOf(acc: int)
    ensures -0x8000_0000_0000_0000 <= acc < 0x8000_0000_0000_0000 ==>
              Signed(Wrap(acc / 0x1_0000_0000)) * 0x1_0000_0000 + Wrap(acc) == acc
    ensures 0 <= acc < 0x1_0000_0000_0000_0000 ==>
              (Wrap(acc / 0x1_0000_0000) as int) * 0x1_0000_0000 + Wrap(acc) == acc
  {
  }

  /** mult: HI and LO together are the exact signed product; multu likewise for the unsigned one. */
  lemma MultIsProduct(rs: Word, rt: Word, hi: Word, lo: Word)
    ensures HiLo(0x18, rs, rt, hi, lo).Ok? && HiLo(0x19, rs, rt, hi, lo).Ok?
    ensures var r := HiLo(0x18, rs, rt, hi, lo).value;
            Signed(r.0) * 0x1_0000_0000 + r.1 == Signed(rs) * Signed(rt)
    ensures var r := HiLo(0x19, rs, rt, hi, lo).value;
            (r.0 as int) * 0x1_0000_0000 + r.1 == (rs as int) * (rt as int)
  {
    hide Wrap, Signed;
    SignedRange(rs);
    SignedRange(rt);
    SignedProductBounds(Signed(rs), Signed(rt));
    UnsignedProductBounds(rs, rt);
    WordsOf(Signed(rs) * Signed(rt));
    WordsOf((rs as int) * (rt as int));
  }

  lemma SignedRange(x: Word)
    ensures -0x8000_0000 <= Signed(x) < 0x8000_0000 && (Signed(x) == x || Signed(x) == x - 0x1_0000_0000)
    ensures Wrap(Signed(x)) == x
  {
  }

  lemma SignedProductBounds(a: int, b: int)
    requires -0x8000_0000 <= a < 0x8000_0000 && -0x8000_0000 <= b < 0x8000_0000
    ensures -0x4000_0000_0000_0000 <= a * b <= 0x4000_0000_0000_0000
  {
    var c, d := if a < 0 then -a else a, if b < 0 then -b else b;
    MulMonotone(c, 0x8000_0000, d);
    assert 0 <= c * d;
    assert a * b == c * d || a * b == -(c * d);
  }

  lemma UnsignedProductBounds(a: Word, b: Word)
    ensures 0 <= (a as int) * (b as int) < 0x1_0000_0000 * 0x1_0000_0000
  {
    MulMonotone(a, 0x1_0000_0000, b);
  }

  /** The law of truncating division: the remainder is smaller than the divisor and has the sign of the dividend. */
  lemma TruncDivLaw(a: int, b: int)
    requires b != 0
    ensures var r := a - TruncDiv(a, b) * b;
            (if r < 0 then -r else r) < (if b < 0 then -b else b) && (r == 0 || (r < 0 <==> a < 0))
  {
    var m, d := if a < 0 then -a else a, if b < 0 then -b else b;
    var q := m / d;
    assert m == q * d + m % d;
    assert TruncDiv(a, b) * b == if a < 0 then -(q * d) else q * d;
  }

  lemma QuotientAtMost(m: nat, d: nat)
    requires d >= 1
    ensures m / d <= m && (d >= 2 && m > 0 ==> m / d < m)
  {
    var q := m / d;
    assert m == q * d + m % d;
    MulMonotone(1, d, q);
    if d >= 2 {
      MulMonotone(2, d, q);
    }
  }

  /** A truncated quotient is, up to its sign, the quotient of the magnitudes. */
  lemma QuotientSigns(a: int, b: int, m: nat, d: nat)
    requires b != 0 && m == (if a < 0 then -a else a) && d == (if b < 0 then -b else b)
    ensures TruncDiv(a, b) == if (a < 0) == (b < 0) then m / d else -(m / d)
  {
  }

  lemma QuotientSmall(a: int, b: int)
    requires b != 0 && -0x8000_0000 <= a < 0x8000_0000
    ensures -0x8000_0000 <= TruncDiv(a, b) <= 0x8000_0000
    ensures TruncDiv(a, b) == 0x8000_0000 ==> a == -0x8000_0000 && b == -1
  {
    hide TruncDiv;
    var m, d := if a < 0 then -a else a, if b < 0 then -b else b;
    QuotientSigns(a, b, m, d);
    QuotientAtMost(m, d);
  }

  /** div truncates toward zero; only the smallest value divided by -1 overflows, to itself. */
  lemma DivTruncates(rs: Word, rt: Word, hi: Word, lo: Word)
    requires rt != 0
    ensures HiLo(0x1a, rs, rt, hi, lo).Ok?
    ensures var r := HiLo(0x1a, rs, rt, hi, lo).value;
            var q, m, a, b := Signed(r.1), Signed(r.0), Signed(rs), Signed(rt);
            && (a == q * b + m <==> !(rs == 0x8000_0000 && rt == 0xFFFF_FFFF))
            && (if m < 0 then -m else m) < (if b < 0 then -b else b)
            && (m == 0 || (m < 0 <==> a < 0))
  {
    hide Wrap, Signed, TruncDiv;
    var a, b := Signed(rs), Signed(rt);
    SignedRange(rs);
    SignedRange(rt);
    TruncDivLaw(a, b);
    QuotientSmall(a, b);
    SignedOfWrap(TruncDiv(a, b));
    SignedOfWrap(a - TruncDiv(a, b) * b);
    if TruncDiv(a, b) == 0x8000_0000 {
      assert TruncDiv(a, b) * b == -0x8000_0000;
    }
  }

  lemma SignedOfWrap(x: int)
    requires -0x8000_0000 <= x <= 0x8000_0000
    ensures Signed(Wrap(x)) == if x == 0x8000_0000 then -0x8000_0000 else x
  {
  }

  /** div and divu: the quotient times the divisor plus the remainder is the dividend, modulo 2**32. */
  lemma DivRecomposes(rs: Word, rt: Word, hi: Word, lo: Word, fun: nat)
    requires rt != 0 && (fun == 0x1a || fun == 0x1b)
    ensures HiLo(fun, rs, rt, hi, lo).Ok?
    ensures var r := HiLo(fun, rs, rt, hi, lo).value; Wrap((r.1 as int) * (rt as int) + r.0) == rs
  {
    if fun == 0x1a {
      hide Wrap, Signed, TruncDiv;
      SignedRange(rs);
      SignedRange(rt);
      var q := TruncDiv(Signed(rs), Signed(rt));
      var m := Signed(rs) - q * Signed(rt);
      WrapProduct(q, Signed(rt), m, if Signed(rt) == rt then 0 else 1);
    } else {
      assert (rs as int) == rs / rt * rt + rs % rt;
    }
  }

  /** Products of wrapped numbers wrap to the same value. */
  lemma WrapProduct(q: int, b: int, m: int, j: int)
    requires 0 <= b + j * 0x1_0000_0000 < 0x1_0000_0000
    ensures Wrap((Wrap(q) as int) * (b + j * 0x1_0000_0000) + Wrap(m)) == Wrap(q * b + m)
  {
    var k, l := q / 0x1_0000_0000, m / 0x1_0000_0000;
    var lo: int, hi: int := Wrap(q), Wrap(m);
    assert q == lo + k * 0x1_0000_0000 && m == hi + l * 0x1_0000_0000;
    var n := k * b - lo * j + l;
    assert q * b + m == lo * (b + j * 0x1_0000_0000) + hi + n * 0x1_0000_0000;
    WrapMultiple(lo * (b + j * 0x1_0000_0000) + hi, n);
  }

  lemma WrapMultiple(x: int, n: int)
    ensures Wrap(x + n * 0x1_0000_0000) == Wrap(x)
  {
    var q := (x + n * 0x1_0000_0000) / 0x1_0000_0000;
    QuotientUnique(x + n * 0x1_0000_0000, 0x1_0000_0000, x / 0x1_0000_0000 + n, Wrap(x));
  }

  /** clz and clo count: clo(x) leading ones are followed by a zero, clz(x) leading zeros by a one. */
  lemma CountsLeading(x: Word)
    ensures LeadingOnes(x) <= 32 && LeadingOnes(Not(x)) <= 32
    ensures var n := LeadingOnes(x);
            0x1_0000_0000 - Pow2(32 - n) <= x && (n < 32 ==> x < 0x1_0000_0000 - Pow2(31 - n))
    ensures var n := LeadingOnes(Not(x));
            x < Pow2(32 - n) && (n < 32 ==> x >= Pow2(31 - n))
  {
    LeadingOnesRange(x);
    LeadingOnesRange(Not(x));
  }

  /** The instruction is this function of opcode 0, or one of its immediate forms. */
  predicate IsForm(insn: Word, fun: nat, immediate: nat) {
    (Opcode(insn) == 0 && Fun(insn) == fun) || (immediate != 0 && Opcode(insn) == immediate)
  }

  /** Sums and differences are those of the signed values, modulo 2**32: add, addu, addi, addiu, sub, subu. */
  lemma AddSub(insn: Word, rs: Word, rt: Word, mem: Word)
    ensures IsForm(insn, 0x20, 8) || IsForm(insn, 0x21, 9) ==>
              Execute(insn, rs, rt, mem) == Ok(Wrap(Signed(rs) + Signed(rt)))
    ensures IsForm(insn, 0x22, 0) || IsForm(insn, 0x23, 0) ==>
              Execute(insn, rs, rt, mem) == Ok(Wrap(Signed(rs) - Signed(rt)))
  {
    var i, j := (rs - Signed(rs)) / 0x1_0000_0000, (rt - Signed(rt)) / 0x1_0000_0000;
    WrapMultiple(Signed(rs) + Signed(rt), i + j);
    WrapMultiple(Signed(rs) - Signed(rt), i - j);
  }

  /** The logical instructions act on each bit: and, or, xor, nor and the immediate forms of the first three. */
  lemma Logic(insn: Word, rs: Word, rt: Word, mem: Word, n: nat)
    requires n < 32
    requires IsForm(insn, 0x24, 0xC) || IsForm(insn, 0x25, 0xD) || IsForm(insn, 0x26, 0xE) || IsForm(insn, 0x27, 0)
    ensures Execute(insn, rs, rt, mem).Ok?
    ensures Bit(Execute(insn, rs, rt, mem).value, n)
         == if IsForm(insn, 0x24, 0xC) then Bit(rs, n) && Bit(rt, n)
            else if IsForm(insn, 0x25, 0xD) then Bit(rs, n) || Bit(rt, n)
            else if IsForm(insn, 0x26, 0xE) then Bit(rs, n) != Bit(rt, n)
            else !(Bit(rs, n) || Bit(rt, n))
  {
    hide And, Or, Xor, Bit;
    BitwiseBit(rs, rt, n);
    Pow2Values();
    NotBit(OrW(rs, rt), n, 32);
  }

  /** Of the n lowest bits, the highest one in which x and y differ is set in y. */
  predicate BitsBelow(x: nat, y: nat, n: nat) {
    n > 0 && if Bit(x, n - 1) != Bit(y, n - 1) then Bit(y, n - 1) else BitsBelow(x, y, n - 1)
  }

  lemma {:induction false} LowTop(x: nat, n: nat)
    ensures Low(x, n + 1) == Low(x, n) + if Bit(x, n) then Pow2(n) else 0
  {
    if n > 0 {
      LowTop(x / 2, n - 1);
    }
  }

  lemma {:induction false} LessByBits(x: nat, y: nat, n: nat)
    ensures Low(x, n) < Low(y, n) <==> BitsBelow(x, y, n)
  {
    hide Bit, Low, Pow2;
    if n > 0 {
      LowTop(x, n - 1);
      LowTop(y, n - 1);
      LessByBits(x, y, n - 1);
    } else {
      LowNone(x);
      LowNone(y);
    }
  }

  lemma LowNone(x: nat)
    ensures Low(x, 0) == 0
  {
  }

  lemma SignBit(x: Word)
    ensures Bit(x, 31) <==> x >= 0x8000_0000
  {
    hide Bit, Low, Pow2;
    Pow2Values();
    LowTop(x, 31);
    LowSmall(x, 32);
  }

  /** Comparisons give 1 or 0.  sltu and sltiu: the highest differing bit decides.  slt and slti: a sign bit that
      differs decides the other way round, any other bit as for sltu. */
  lemma Comparisons(insn: Word, rs: Word, rt: Word, mem: Word)
    ensures IsForm(insn, 0x2a, 0xA) ==>
              var r := Execute(insn, rs, rt, mem);
              && r.Ok? && r.value <= 1
              && (r.value == 1 <==> if Bit(rs, 31) != Bit(rt, 31) then Bit(rs, 31) else BitsBelow(rs, rt, 32))
    ensures IsForm(insn, 0x2b, 0xB) ==>
              var r := Execute(insn, rs, rt, mem);
              && r.Ok? && r.value <= 1 && (r.value == 1 <==> BitsBelow(rs, rt, 32))
  {
    hide BitsBelow, Bit, Low, Pow2, SE;
    Pow2Values();
    LowSmall(rs, 32);
    LowSmall(rt, 32);
    LessByBits(rs, rt, 32);
    SignBit(rs);
    SignBit(rt);
  }

  /** Logical shifts multiply and divide by powers of two: sll, sllv, srl, srlv and lui. */
  lemma LogicalShifts(insn: Word, rs: Word, rt: Word, mem: Word)
    ensures IsForm(insn, 0x00, 0) ==> Execute(insn, rs, rt, mem) == Ok(Wrap(rt * Pow2(Shamt(insn))))
    ensures IsForm(insn, 0x04, 0) ==> Execute(insn, rs, rt, mem) == Ok(Wrap(rt * Pow2(rs % 32)))
    ensures IsForm(insn, 0x02, 0) ==> Execute(insn, rs, rt, mem) == Ok(rt / Pow2(Shamt(insn)))
    ensures IsForm(insn, 0x06, 0) ==> Execute(insn, rs, rt, mem) == Ok(rt / Pow2(rs % 32))
    ensures Opcode(insn) == 0x0F ==> Execute(insn, rs, rt, mem) == Ok(Wrap(rt * 0x1_0000))
  {
    hide Shl, Shr, Pow2, SE;
    Pow2Values();
    ShlIsProduct(rt, Shamt(insn));
    ShlIsProduct(rt, rs % 32);
    ShlIsProduct(rt, 16);
    ShrIsQuotient(rt, Shamt(insn));
    ShrIsQuotient(rt, rs % 32);
  }

  /** mul is the low word of mult. */
  lemma MulIsLow(insn: Word, rs: Word, rt: Word, mem: Word, hi: Word, lo: Word)
    requires Opcode(insn) == 0x1C && Fun(insn) == 0x02
    ensures HiLo(0x18, rs, rt, hi, lo).Ok? && Execute(insn, rs, rt, mem) == Ok(HiLo(0x18, rs, rt, hi, lo).value.1)
  {
  }
}
