/** What the base integer operations mean, bit by bit and through each other: chapters 2 and 5 of the
    RISC-V Unprivileged ISA (20191213). */
module BaseIsa {
  import opened Words
  import opened Bits
  import opened Pages
  import opened Isa
  import opened Compressed

  // ---------------------------------------------------------------- bits of a number

  function Bit(a: nat, k: nat): bool {
    if k == 0 then a % 2 == 1 else Bit(a / 2, k - 1)
  }

  lemma {:induction false} LogicIsBitwise(a: nat, b: nat, k: nat)
    ensures Bit(BitAnd(a, b), k) == (Bit(a, k) && Bit(b, k))
    ensures Bit(BitOr(a, b), k) == (Bit(a, k) || Bit(b, k))
    ensures Bit(BitXor(a, b), k) == (Bit(a, k) != Bit(b, k))
    decreases k
  {
    if a == 0 && b == 0 {
      ZeroBits(k);
    } else {
      Halves(a, b);
      if a == 0 || b == 0 {
        ZeroBits(k);
      }
      if k > 0 {
        LogicIsBitwise(a / 2, b / 2, k - 1);
      }
    }
  }

  lemma {:induction false} ZeroBits(k: nat)
    ensures !Bit(0, k)
  {
    if k > 0 {
      ZeroBits(k - 1);
    }
  }

  /** Peeling one bit off each operator. */
  lemma {:induction false} Halves(a: nat, b: nat)
    ensures BitAnd(a, b) / 2 == BitAnd(a / 2, b / 2) && (BitAnd(a, b) % 2 == 1 <==> a % 2 == 1 && b % 2 == 1)
    ensures BitOr(a, b) / 2 == BitOr(a / 2, b / 2) && (BitOr(a, b) % 2 == 1 <==> a % 2 == 1 || b % 2 == 1)
    ensures BitXor(a, b) / 2 == BitXor(a / 2, b / 2) && (BitXor(a, b) % 2 == 1 <==> a % 2 != b % 2)
  {
  }

  lemma HalfOfQuotient(a: nat, p: nat)
    requires p > 0
    ensures a / (2 * p) == a / 2 / p
  {
    var q, r := a / 2 / p, a / 2 % p;
    assert a / 2 == p * q + r;
    assert a == 2 * (p * q + r) + a % 2;
    Associate(p, q);
    ModUnique(a, 2 * p, q, 2 * r + a % 2);
  }

  lemma Associate(p: int, q: int)
    ensures 2 * (p * q) == (2 * p) * q
  {
  }

  function Quotient(a: nat, p: nat): nat
    requires p > 0
  {
    DivideShrinks(a, p);
    a / p
  }

  /** A right shift moves bit k + s to k. */
  lemma {:induction false} QuotientBits(a: nat, s: nat, k: nat)
    ensures Bit(Quotient(a, Pow2(s)), k) == Bit(a, k + s)
    decreases s
  {
    if s > 0 {
      HalfOfQuotient(a, Pow2(s - 1));
      QuotientBits(a / 2, s - 1, k);
    }
  }

  /** x + y * 2^n, with x below 2^n, has the bits of x below n and those of y above. */
  lemma {:induction false} JoinedBits(x: nat, y: nat, n: nat, k: nat)
    requires x < Pow2(n)
    ensures Bit(x + y * Pow2(n), k) == if k < n then Bit(x, k) else Bit(y, k - n)
    decreases n
  {
    if n > 0 {
      var p := Pow2(n - 1);
      assert y * Pow2(n) == 2 * (y * p) by { Associate(p, y); }
      assert (x + y * Pow2(n)) / 2 == x / 2 + y * p;
      if k > 0 {
        JoinedBits(x / 2, y, n - 1, k - 1);
      }
    } else {
      assert Pow2(0) == 1;
    }
  }

  lemma {:induction false} AllOnes(s: nat, k: nat)
    ensures Bit(Pow2(s) - 1, k) == (k < s)
    decreases s
  {
    if s == 0 {
      ZeroBits(k);
    } else if k > 0 {
      assert (Pow2(s) - 1) / 2 == Pow2(s - 1) - 1;
      AllOnes(s - 1, k - 1);
    }
  }

  lemma {:induction false} Pow2Splits(s: nat, t: nat)
    ensures Pow2(s + t) == Pow2(s) * Pow2(t)
    decreases t
  {
    if t > 0 {
      Pow2Splits(s, t - 1);
      assert Pow2(s + t) == 2 * Pow2(s + t - 1);
      Associate(Pow2(s), Pow2(t - 1));
      assert Pow2(s) * Pow2(t) == 2 * (Pow2(s) * Pow2(t - 1)) by { Doubled(Pow2(s), Pow2(t - 1)); }
    }
  }

  lemma Doubled(p: int, q: int)
    ensures p * (2 * q) == 2 * (p * q)
  {
  }

  // ---------------------------------------------------------------- shifts

  lemma {:induction false} ShrIsBitwise(a: u64, s: nat, k: nat)
    ensures Bit(Shr(a, s), k) == Bit(a, k + s)
  {
    QuotientBits(a, s, k);
  }

  /** A left shift fills with zeros and drops what leaves the word. */
  lemma {:induction false} ShlIsBitwise(a: u64, s: nat, k: nat)
    requires k < 64
    ensures Bit(Shl(a, s), k) == (k >= s && Bit(a, k - s))
  {
    var p := a * Pow2(s);
    Pow2Of64();
    assert p >= 0;
    JoinedBits(0, a, s, k);
    ZeroBits(k);
    var q, r := p / TWO64, p % TWO64;
    assert p == r + q * Pow2(64);
    JoinedBits(r, q, 64, k);
  }

  /** An arithmetic right shift fills with copies of the sign bit. */
  lemma {:induction false} SraIsBitwise(a: u64, s: nat, k: nat)
    requires s < 64 && k < 64
    ensures Bit(Sra(a, s), k) == if k + s < 64 then Bit(a, k + s) else a >= I64_MIN
  {
    if a < I64_MIN {
      SraOfPositive(a, s);
      QuotientBits(a, s, k);
      if k + s >= 64 {
        HighBits(a, k + s);
      }
    } else {
      SraOfNegative(a, s);
      JoinedBits(Quotient(a, Pow2(s)), Pow2(s) - 1, 64 - s, k);
      QuotientBits(a, s, k);
      if k + s >= 64 {
        AllOnes(s, k - (64 - s));
      }
    }
  }

  lemma {:induction false} SraOfPositive(a: u64, s: nat)
    requires a < I64_MIN
    ensures Sra(a, s) == Quotient(a, Pow2(s))
  {
    hide Pow2;
    var q := Quotient(a, Pow2(s));
    DivideShrinks(a, Pow2(s));
    ModUnique(q, TWO64, 0, q);
  }

  /** Bits above the word are zero. */
  lemma {:induction false} HighBits(a: u64, k: nat)
    requires k >= 64
    ensures !Bit(a, k)
  {
    Pow2Of64();
    JoinedBits(a, 0, 64, k);
    ZeroBits(k - 64);
  }

  /** The shifted word below s leading ones. */
  lemma SraOfNegative(a: u64, s: nat)
    requires a >= I64_MIN && s < 64
    ensures Quotient(a, Pow2(s)) < Pow2(64 - s)
    ensures Sra(a, s) == Quotient(a, Pow2(s)) + (Pow2(s) - 1) * Pow2(64 - s)
  {
    Pow2Of64();
    Pow2Splits(s, 64 - s);
    hide Pow2;
    FloorBelow(a, Pow2(s), Pow2(64 - s));
    var q := Quotient(a, Pow2(s));
    OnesFit(Pow2(s), Pow2(64 - s), q);
    Factor1(Pow2(s), Pow2(64 - s));
    ModUnique(q - Pow2(64 - s), TWO64, -1, q - Pow2(64 - s) + TWO64);
  }

  /** Dividing the signed value of a negative word. */
  lemma FloorBelow(a: u64, p: nat, t: nat)
    requires p > 0 && p * t == TWO64
    ensures (a - TWO64) / p == Quotient(a, p) - t
    ensures Quotient(a, p) < t
  {
    var q, r := a / p, a % p;
    assert a == p * q + r;
    QuotientBelow(p, q, t, r);
    Factor(p, q, t);
    ModUnique(a - TWO64, p, q - t, r);
  }

  lemma QuotientBelow(p: int, q: int, t: int, r: int)
    requires p > 0 && 0 <= r && p * q + r < p * t
    ensures q < t
  {
    if q >= t {
      MulAtMost(p, t, q);
    }
  }

  lemma MulAtMost(p: int, t: int, q: int)
    requires p > 0 && t <= q
    ensures p * t <= p * q
  {
  }

  lemma Factor(p: int, q: int, t: int)
    ensures p * (q - t) == p * q - p * t
  {
  }

  lemma Factor1(p: int, t: int)
    ensures (p - 1) * t == p * t - t
  {
  }

  lemma OnesFit(p: int, t: int, q: int)
    requires p >= 1 && t >= 1 && p * t == TWO64 && 0 <= q < t
    ensures 0 <= q - t + TWO64 < TWO64
  {
    MulAtLeast(t, p);
  }

  // ---------------------------------------------------------------- the operation groups

  /** The logical and shift operations of OP, each bit of the result from bits of the operands; a shift
      amount is taken modulo 64. */
  lemma RegisterOpsAreBitwise(a: u64, b: u64, k: nat)
    requires k < 64
    ensures OpValue(0, 7, a, b).Value? && Bit(OpValue(0, 7, a, b).v, k) == (Bit(a, k) && Bit(b, k))
    ensures OpValue(0, 6, a, b).Value? && Bit(OpValue(0, 6, a, b).v, k) == (Bit(a, k) || Bit(b, k))
    ensures OpValue(0, 4, a, b).Value? && Bit(OpValue(0, 4, a, b).v, k) == (Bit(a, k) != Bit(b, k))
    ensures OpValue(0, 1, a, b).Value? && Bit(OpValue(0, 1, a, b).v, k) == (k >= b % 64 && Bit(a, k - b % 64))
    ensures OpValue(0, 5, a, b).Value? && Bit(OpValue(0, 5, a, b).v, k) == Bit(a, k + b % 64)
    ensures OpValue(0x20, 5, a, b).Value?
    ensures Bit(OpValue(0x20, 5, a, b).v, k) == if k + b % 64 < 64 then Bit(a, k + b % 64) else a >= I64_MIN
  {
    LogicIsBitwise(a, b, k);
    ShlIsBitwise(a, b % 64, k);
    ShrIsBitwise(a, b % 64, k);
    SraIsBitwise(a, b % 64, k);
    hide Bit, BitAnd, BitOr, BitXor, Shl, Shr, Sra;
  }

  /** Every OP-IMM operation is the OP operation with the sign-extended immediate as second operand. */
  lemma ImmediateOps(imm: bv12, rs1: bv5, f3: bv3, rd: bv5, a: u64)
    requires f3 != 1 && f3 != 5
    ensures OpImmValue(EncodeI(imm, rs1, f3, rd, 0x13), a) == OpValue(0, f3, a, Offset(Sext12(imm)))
  {
    hide EncodeI, Offset, Sext12, Opcode, F3, ImmI, Rd, Rs1, F6, Shamt6;
    FieldsI(imm, rs1, f3, rd, 0x13);
  }

  /** And every shift by an immediate is the shift by a register holding it. */
  lemma ImmediateShifts(sh: bv6, rs1: bv5, rd: bv5, a: u64)
    ensures OpImmValue(EncodeI(sh as bv12, rs1, 1, rd, 0x13), a) == OpValue(0, 1, a, sh as nat)
    ensures OpImmValue(EncodeI(sh as bv12, rs1, 5, rd, 0x13), a) == OpValue(0, 5, a, sh as nat)
    ensures OpImmValue(EncodeI(0x400 | (sh as bv12), rs1, 5, rd, 0x13), a) == OpValue(0x20, 5, a, sh as nat)
  {
    hide EncodeI, Opcode, F3, ImmI, Rd, Rs1, F6, Shamt6, Shl, Shr, Sra, Offset;
    FieldsI(sh as bv12, rs1, 1, rd, 0x13);
    FieldsI(sh as bv12, rs1, 5, rd, 0x13);
    FieldsI(0x400 | (sh as bv12), rs1, 5, rd, 0x13);
    ShiftFields(sh);
  }

  lemma ShiftFields(sh: bv6)
    ensures ((sh as bv12) & 0x3f) as bv6 == sh && ((sh as bv12) >> 6) as bv6 == 0
    ensures ((0x400 | (sh as bv12)) & 0x3f) as bv6 == sh && ((0x400 | (sh as bv12)) >> 6) as bv6 == 0x10
  {
  }

  lemma {:induction false} NotBits(a: nat, n: nat, k: nat)
    requires a < Pow2(n) && k < n
    ensures Bit(Pow2(n) - 1 - a, k) == !Bit(a, k)
    decreases n
  {
    assert (Pow2(n) - 1 - a) / 2 == Pow2(n - 1) - 1 - a / 2;
    if k > 0 {
      NotBits(a / 2, n - 1, k - 1);
    }
  }

  /** CSRRW replaces, CSRRS sets and CSRRC clears the named bits; the immediate forms likewise. */
  lemma {:induction false} CsrOpsAreBitwise(prior: u64, src: u64, f3: bv3, k: nat)
    requires f3 & 3 != 0 && k < 64
    ensures Bit(CsrNew(f3, prior, src), k)
         == if f3 & 3 == 1 then Bit(src, k)
            else if f3 & 3 == 2 then Bit(prior, k) || Bit(src, k)
            else Bit(prior, k) && !Bit(src, k)
  {
    Pow2Of64();
    LogicIsBitwise(prior, src, k);
    NotBits(src, 64, k);
    LogicIsBitwise(prior, Not64(src), k);
    hide Bit, BitAnd, BitOr, BitXor, Pow2;
  }

  /** The 5-bit immediate of the CSR forms, zero-extended as chapter 9 of the ISA has it, and sign-extended. */
  function CsrZext(inst: bv32): u64 { Rs1(inst) as nat }
  function CsrSext(inst: bv32): u64 {
    Wrap(if Rs1(inst) as nat >= 16 then Rs1(inst) as int - 32 else Rs1(inst) as int)
  }

  /** The operand of CSRRWI, CSRRSI and CSRRCI is the one the ISA prescribes if and only if bit 4 of the field
      is clear; otherwise it is neither the zero-extended nor the sign-extended field. */
  lemma CsrImmediateIff(inst: bv32, a: u64)
    requires F3(inst) >= 5
    ensures CsrSource(inst, a) == CsrZext(inst) <==> Rs1(inst) < 16
    ensures CsrSource(inst, a) == CsrSext(inst) <==> Rs1(inst) < 16
  {
  }

  /** csrrwi x0, mtvec, 16 writes zero. */
  lemma CsrImmediateLost()
    ensures F3(0x3058_5073) == 5 && CsrNum(0x3058_5073) == 0x305 && Rs1(0x3058_5073) == 16
    ensures CsrSource(0x3058_5073, 0) == 0
  {
  }

  // ---------------------------------------------------------------- comparisons

  /** The word with its sign bit flipped. */
  function Flip(a: u64): u64 { Wrap(a + I64_MIN) }

  /** Signed order is unsigned order with the sign bits flipped. */
  lemma SignedOrder(a: u64, b: u64)
    ensures BranchTaken(4, a, b) == BranchTaken(6, Flip(a), Flip(b))
    ensures BranchTaken(5, a, b) == BranchTaken(7, Flip(a), Flip(b))
  {
  }

  // ---------------------------------------------------------------- word forms

  /** The operation sees only the low halves of its operands and answers a sign-extended word. */
  ghost predicate IsWordForm(f7: bv7, f3: bv3, a: u64, b: u64) {
    var r := Op32Value(f7, f3, a, b);
    r == Op32Value(f7, f3, Low32(a), Low32(b)) && (r.Value? ==> -0x8000_0000 <= Signed(r.v) < 0x8000_0000)
  }

  /** Every OP-32 operation outside the M extension is a word form. */
  lemma WordFormsAreWords(f7: bv7, f3: bv3, a: u64, b: u64)
    requires f7 != 1
    ensures IsWordForm(f7, f3, a, b)
  {
    if f7 == 0 && f3 == 0 {
      AddwIsWord(a, b);
    } else if f7 == 0x20 && f3 == 0 {
      SubwIsWord(a, b);
    } else if f7 == 0 && f3 == 1 {
      SllwIsWord(a, b);
    } else if f7 == 0 && f3 == 5 {
      SrlwIsWord(a, b);
    } else if f7 == 0x20 && f3 == 5 {
      SrawIsWord(a, b);
    } else {
      hide Low32, Signed, Sext32, Pow2;
      assert Op32Value(f7, f3, a, b) == Value.Reserved;
    }
  }

  lemma AddwIsWord(a: u64, b: u64)
    ensures IsWordForm(0, 0, a, b)
  {
    hide Low32, Signed, Wrap;
    LowOfSum(a, b);
    SextRange(a + b);
  }

  lemma SubwIsWord(a: u64, b: u64)
    ensures IsWordForm(0x20, 0, a, b)
  {
    hide Low32, Signed, Wrap;
    LowOfSum(a, b);
    SextRange(a - b);
  }

  lemma SllwIsWord(a: u64, b: u64)
    ensures IsWordForm(0, 1, a, b)
  {
    hide Low32, Signed, Sext32, Pow2;
    LowOfLow(a);
    LowModulo32(b);
    SextRange(Low32(a) * Pow2(b % 32));
  }

  lemma SrlwIsWord(a: u64, b: u64)
    ensures IsWordForm(0, 5, a, b)
  {
    hide Low32, Signed, Sext32, Pow2;
    LowOfLow(a);
    LowModulo32(b);
    SextRange(Low32(a) / Pow2(b % 32));
  }

  lemma SrawIsWord(a: u64, b: u64)
    ensures IsWordForm(0x20, 5, a, b)
  {
    LowOfLow(a);
    LowModulo32(b);
    WordShiftFits(Signed32(a), Pow2(b % 32));
    SmallSigned(Signed32(a) / Pow2(b % 32));
    hide Low32, Signed, Wrap, Pow2;
  }

  lemma LowModulo32(b: u64)
    ensures Low32(b) % 32 == b % 32
  {
  }

  lemma SextRange(x: int)
    ensures -0x8000_0000 <= Signed(Sext32(x)) < 0x8000_0000
  {
    SmallSigned(Signed32(x));
  }

  lemma SmallSigned(i: int)
    requires -0x8000_0000 <= i < 0x8000_0000
    ensures Signed(Wrap(i)) == i
  {
  }

  /** They are the 64-bit operations on words, sign-extended. */
  lemma WordFormsAreNarrowed(a: u64, b: u64)
    ensures OpValue(0, 0, a, b).Value? && Op32Value(0, 0, a, b) == Value(Sext32(OpValue(0, 0, a, b).v))
    ensures OpValue(0x20, 0, a, b).Value? && Op32Value(0x20, 0, a, b) == Value(Sext32(OpValue(0x20, 0, a, b).v))
    ensures OpValue(0, 1, Low32(a), b % 32).Value?
    ensures Op32Value(0, 1, a, b) == Value(Sext32(OpValue(0, 1, Low32(a), b % 32).v))
    ensures OpValue(0, 5, Low32(a), b % 32).Value?
    ensures Op32Value(0, 5, a, b) == Value(Sext32(OpValue(0, 5, Low32(a), b % 32).v))
    ensures Op32Value(0x20, 5, a, b) == OpValue(0x20, 5, Sext32(a), b % 32)
  {
    var s := b % 32;
    assert s % 64 == s;
    LowOfWrapped(a + b);
    LowOfWrapped(a - b);
    LowOfWrapped(Low32(a) * Pow2(s));
    SmallSigned(Signed32(a));
    hide Pow2, Low32, Signed, Wrap;
  }

  lemma LowOfWrapped(i: int)
    ensures Sext32(Wrap(i)) == Sext32(i)
  {
    var q, r := i / TWO64, Wrap(i);
    assert i == TWO64 * q + r;
    ModUnique(i, TWO32, TWO32 * q + r / TWO32, r % TWO32);
  }

  /** OP-IMM-32 is OP-32 with the immediate, or with the shift amount, as second operand. */
  lemma WordImmediates(imm: bv12, sh: bv5, rs1: bv5, rd: bv5, a: u64)
    ensures OpImm32Value(EncodeI(imm, rs1, 0, rd, 0x1b), a) == Op32Value(0, 0, a, Offset(Sext12(imm)))
    ensures OpImm32Value(EncodeR(0, sh, rs1, 1, rd, 0x1b), a) == Op32Value(0, 1, a, sh as nat)
    ensures OpImm32Value(EncodeR(0, sh, rs1, 5, rd, 0x1b), a) == Op32Value(0, 5, a, sh as nat)
    ensures OpImm32Value(EncodeR(0x20, sh, rs1, 5, rd, 0x1b), a) == Op32Value(0x20, 5, a, sh as nat)
  {
    FieldsI(imm, rs1, 0, rd, 0x1b);
    FieldsR(0, sh, rs1, 1, rd, 0x1b);
    FieldsR(0, sh, rs1, 5, rd, 0x1b);
    FieldsR(0x20, sh, rs1, 5, rd, 0x1b);
    ShamtIsRs2(EncodeR(0, sh, rs1, 1, rd, 0x1b));
    ShamtIsRs2(EncodeR(0, sh, rs1, 5, rd, 0x1b));
    ShamtIsRs2(EncodeR(0x20, sh, rs1, 5, rd, 0x1b));
    hide EncodeI, EncodeR, Opcode, F3, F7, ImmI, Rd, Rs1, Rs2, Shamt5, Sext32, Pow2, Low32, Signed32, Offset, Sext12,
         Wrap;
  }

  lemma ShamtIsRs2(inst: bv32)
    ensures Shamt5(inst) == Rs2(inst)
  {
  }

  lemma LowOfLow(a: u64)
    ensures Low32(Low32(a)) == Low32(a)
  {
  }

  lemma LowOfSum(a: int, b: int)
    ensures Low32(a + b) == Low32(Low32(a) + Low32(b)) && Low32(a - b) == Low32(Low32(a) - Low32(b))
  {
    var p, q := a / TWO32, b / TWO32;
    assert a == TWO32 * p + Low32(a) && b == TWO32 * q + Low32(b);
    var s, d := Low32(a) + Low32(b), Low32(a) - Low32(b);
    ModUnique(a + b, TWO32, p + q + s / TWO32, s % TWO32);
    ModUnique(a - b, TWO32, p - q + d / TWO32, d % TWO32);
  }

  lemma WordShiftFits(i: int, p: int)
    requires -0x8000_0000 <= i < 0x8000_0000 && p > 0
    ensures -0x8000_0000 <= i / p < 0x8000_0000
  {
    if i >= 0 {
      DivideShrinks(i, p);
    } else {
      NegativeShift(i, p, i / p, i % p);
    }
  }

  lemma NegativeShift(i: int, p: int, q: int, r: int)
    requires i < 0 && p > 0 && i == p * q + r && 0 <= r < p
    ensures i <= q < 0
  {
    if q >= 0 {
      MulAtMost(p, 0, q);
    } else {
      NegativeGrows(p, q);
      if q < i {
        assert p * q <= p * (i - 1) by { MulAtMost(p, q, i - 1); }
        Factor(p, i, 1);
        NegativeGrows(p, i);
      }
    }
  }

  lemma NegativeGrows(p: int, q: int)
    requires p >= 1 && q < 0
    ensures p * q <= q
  {
  }

  // ---------------------------------------------------------------- loads and stores

  /** Two to the number of bits of a load. */
  function Width(f3: bv3): nat {
    match f3
    case 0 => 0x100
    case 1 => 0x1_0000
    case 2 => TWO32
    case 3 => TWO64
    case 4 => 0x100
    case 5 => 0x1_0000
    case _ => TWO32
  }

  /** A signed load keeps the value modulo its width and lies in the signed range of that width; an
      unsigned one is the value itself. */
  lemma LoadsExtend(v: u64, f3: bv3)
    requires LoadShape(f3).Some? && v < Width(f3)
    ensures var (len, signed) := LoadShape(f3).value;
            var w: int, r: u64 := Width(f3), Extend(v, len, signed);
            && Pow256(len) == w
            && (f3 > 3 ==> r == v)
            && (f3 <= 3 ==> -w <= 2 * Signed(r) < w && (Signed(r) == v || Signed(r) + w == v))
  {
    Pow256Values();
    match f3 {
      case 0 => Narrow(v, 0x100);
      case 1 => Narrow(v, 0x1_0000);
      case 2 => Narrow(v, TWO32);
      case _ =>
    }
  }

  /** Sign extension from a width w to 64 bits. */
  lemma Narrow(v: u64, w: int)
    requires 0 < w <= TWO32 && w % 2 == 0 && v < w
    ensures v % w == v
    ensures var i: int := if v >= w / 2 then v - w else v; Signed(Wrap(i)) == i
  {
    ModUnique(v, w, 0, v);
    SmallSigned(if v >= w / 2 then v - w else v);
  }

  /** A load of the width just stored finds the low bytes of the stored register. */
  lemma LoadFindsStore(m: Machine, v: u64, addr: u64, len: nat, signed: bool, rd: bv5, next: u64, after: u64)
    requires len in {1, 2, 4, 8} && addr + len <= ADDR_SPACE
    ensures var s := Store(m, v, addr, len, next);
            && s.out == Ok(false)
            && Load(s.m, rd, addr, len, signed, after)
            == Retire(s.m, s.m.hart.Set(rd, Extend(Word64(Bytes64(v)[..len]), len, signed)).At(after))
  {
    hide Bytes64, Words.Word64, Extend, WriteBytes;
    ReadBack(m.pages, addr, Bytes64(v)[..len]);
  }

  // ---------------------------------------------------------------- immediates of every format

  /** Encoding a branch, jump or upper immediate and decoding it again. */
  lemma ImmediatesRoundTrip(half: bv12, half20: bv20, rs2: bv5, rs1: bv5, f3: bv3, rd: bv5, op: bv7)
    ensures ImmB(EncodeB(half, rs2, rs1, f3, op)) == Sext12(half) << 1
    ensures ImmJ(EncodeJ(half20, rd, op)) == (half20 as bv21) << 1 && Rd(EncodeJ(half20, rd, op)) == rd
    ensures ImmU(EncodeU(half20, rd, op)) == (half20 as bv32) << 12 && Rd(EncodeU(half20, rd, op)) == rd
    ensures Opcode(EncodeJ(half20, rd, op)) == op && Opcode(EncodeU(half20, rd, op)) == op
  {
    BranchRoundTrip(half, rs2, rs1, f3, op);
    JumpRoundTrip(half20, rd, op);
  }

  lemma BranchRoundTrip(half: bv12, rs2: bv5, rs1: bv5, f3: bv3, op: bv7)
    ensures ImmB(EncodeB(half, rs2, rs1, f3, op)) == Sext12(half) << 1
  {
    hide ImmB, EncodeB, Sext12;
    if half & 0x800 == 0 {
      ForwardRoundTrip(half, rs2, rs1, f3, op);
    } else {
      BackwardRoundTrip(half, rs2, rs1, f3, op);
    }
  }

  lemma ForwardRoundTrip(half: bv12, rs2: bv5, rs1: bv5, f3: bv3, op: bv7)
    requires half & 0x800 == 0
    ensures ImmB(EncodeB(half, rs2, rs1, f3, op)) == Sext12(half) << 1
  {
  }

  lemma BackwardRoundTrip(half: bv12, rs2: bv5, rs1: bv5, f3: bv3, op: bv7)
    requires half & 0x800 != 0
    ensures ImmB(EncodeB(half, rs2, rs1, f3, op)) == Sext12(half) << 1
  {
  }

  lemma JumpRoundTrip(half20: bv20, rd: bv5, op: bv7)
    ensures ImmJ(EncodeJ(half20, rd, op)) == (half20 as bv21) << 1
  {
  }
}
