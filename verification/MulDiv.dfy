/** The M extension computes exact products, quotients and remainders.

    Sections 7.1 and 7.2 of the RISC-V Unprivileged ISA (20191213). */
module MulDiv {
  import opened Words
  import opened Bits
  import opened Isa

  /** The M-extension result of OP with this funct3. */
  function M(f3: bv3, a: u64, b: u64): u64 {
    var r := OpValue(1, f3, a, b);
    if r.Value? then r.v else 0
  }

  /** The operations in funct3 order. */
  lemma Group(a: u64, b: u64)
    ensures forall f3: bv3 :: OpValue(1, f3, a, b).Value?
    ensures M(0, a, b) == Mul(a, b) && M(1, a, b) == Mulh(a, b)
    ensures M(2, a, b) == Mulhsu(a, b) && M(3, a, b) == Mulhu(a, b)
    ensures M(4, a, b) == Div(a, b) && M(5, a, b) == Divu(a, b) && M(6, a, b) == Rem(a, b) && M(7, a, b) == Remu(a, b)
  {
    hide Mul, Mulh, Mulhsu, Mulhu, Div, Divu, Rem, Remu;
  }

  // ---------------------------------------------------------------- products

  lemma WrapShift(i: int, k: int)
    ensures Wrap(i + k * TWO64) == Wrap(i)
  {
    var q := i / TWO64;
    assert i == TWO64 * q + Wrap(i);
    assert i + k * TWO64 == TWO64 * (q + k) + Wrap(i);
    ModUnique(i + k * TWO64, TWO64, q + k, Wrap(i));
  }

  /** A signed word is its unsigned value, minus 2^64 when negative. */
  lemma SignedIs(a: u64)
    ensures Signed(a) == a - (if a >= I64_MIN then 1 else 0) * TWO64
    ensures Wrap(Signed(a)) == a
  {
  }

  /** Low halves of products do not depend on the sign interpretation of the factors. */
  lemma LowProduct(a: u64, b: u64, i: int, j: int)
    requires i == a || i == Signed(a)
    requires j == b || j == Signed(b)
    ensures Wrap(i * j) == Mul(a, b)
  {
    var s, t := if i == a then 0 else 1, if j == b then 0 else 1;
    SignedIs(a);
    SignedIs(b);
    assert i == a - s * TWO64 && j == b - t * TWO64;
    ExpandProduct(a, b, s, t);
    WrapShift(a * b, s * t * TWO64 - s * b - t * a);
  }

  lemma ExpandProduct(a: int, b: int, s: int, t: int)
    ensures (a - s * TWO64) * (b - t * TWO64) == a * b + (s * t * TWO64 - s * b - t * a) * TWO64
  {
  }

  /** A number is its high part times 2^64 plus its low 64 bits. */
  lemma HighLow(p: int)
    ensures p == (p / TWO64) * TWO64 + Wrap(p)
  {
  }

  /** MUL with MULHU, MULH or MULHSU is the full 128-bit product. */
  lemma ProductsAreExact(a: u64, b: u64)
    ensures M(3, a, b) * TWO64 + M(0, a, b) == a * b
    ensures Signed(M(1, a, b)) * TWO64 + M(0, a, b) == Signed(a) * Signed(b)
    ensures Signed(M(2, a, b)) * TWO64 + M(0, a, b) == Signed(a) * b
  {
    hide M, Mulhu, Mulh, Mulhsu, Mul, Signed;
    Group(a, b);
    UnsignedProduct(a, b);
    SignedProduct(a, b);
    MixedProduct(a, b);
  }

  lemma UnsignedProduct(a: u64, b: u64)
    ensures Mulhu(a, b) * TWO64 + Mul(a, b) == a * b
  {
    UnsignedHigh(a, b);
    JoinHalves(a * b);
  }

  lemma JoinHalves(p: int)
    requires 0 <= p / TWO64 < TWO64
    ensures Wrap(p / TWO64) * TWO64 + Wrap(p) == p
  {
    HighLow(p);
    ModUnique(p / TWO64, TWO64, 0, p / TWO64);
  }

  lemma SignedProduct(a: u64, b: u64)
    ensures Signed(Mulh(a, b)) * TWO64 + Mul(a, b) == Signed(a) * Signed(b)
  {
    HighLow(Signed(a) * Signed(b));
    LowProduct(a, b, Signed(a), Signed(b));
    SignedHigh(Signed(a), Signed(b));
  }

  lemma MixedProduct(a: u64, b: u64)
    ensures Signed(Mulhsu(a, b)) * TWO64 + Mul(a, b) == Signed(a) * b
  {
    HighLow(Signed(a) * b);
    LowProduct(a, b, Signed(a), b);
    SignedHigh(Signed(a), b);
  }

  lemma UnsignedHigh(a: u64, b: u64)
    ensures 0 <= a * b / TWO64 < TWO64
  {
    assert 0 <= a * b;
    assert a * b <= (TWO64 - 1) * b <= (TWO64 - 1) * (TWO64 - 1);
  }

  /** The high part of a product with a signed factor fits a signed word. */
  lemma SignedHigh(i: int, j: int)
    requires -0x8000_0000_0000_0000 <= i < 0x8000_0000_0000_0000
    requires -0x8000_0000_0000_0000 <= j < TWO64
    ensures Signed(Wrap(i * j / TWO64)) == i * j / TWO64
  {
    ProductRange(i, j);
  }

  lemma ProductRange(i: int, j: int)
    requires -0x8000_0000_0000_0000 <= i < 0x8000_0000_0000_0000
    requires -0x8000_0000_0000_0000 <= j < TWO64
    ensures -0x8000_0000_0000_0000 * TWO64 <= i * j < 0x8000_0000_0000_0000 * TWO64
  {
    if j >= 0 {
      MulMonotone(-0x8000_0000_0000_0000, i, j);
      MulMonotone(i, 0x7fff_ffff_ffff_ffff, j);
    } else {
      MulMonotone(-0x8000_0000_0000_0000, i, -j);
      MulMonotone(i, 0x7fff_ffff_ffff_ffff, -j);
      NegateFactor(i, j);
    }
  }

  // ---------------------------------------------------------------- 64-bit division

  function Abs(i: int): int { if i < 0 then -i else i }

  /** Truncating division: dividend = divisor * quotient + remainder, the remainder smaller than
      the divisor and of the dividend's sign. */
  lemma TruncLaw(a: int, b: int)
    requires b != 0
    ensures a == b * TruncDiv(a, b) + TruncRem(a, b)
    ensures -Abs(b) < TruncRem(a, b) < Abs(b)
    ensures a >= 0 ==> TruncRem(a, b) >= 0
    ensures a <= 0 ==> TruncRem(a, b) <= 0
  {
    var d, n := Abs(b), Abs(a);
    var q: int := n / d;
    assert n == d * q + n % d;
    NegateFactor(b, q);
  }

  lemma NegateFactor(b: int, q: int)
    ensures b * (-q) == -(b * q) == (-b) * q
  {
  }


  lemma TruncDivRange(a: int, b: int, bound: int)
    requires b != 0 && -bound <= a < bound && !(a == -bound && b == -1)
    ensures -bound <= TruncDiv(a, b) < bound
  {
    var n, d := Abs(a), Abs(b);
    DivideShrinks(n, d);
    if n == bound && d >= 2 {
      HalfDivide(n, d);
    }
  }

  lemma HalfDivide(n: nat, d: nat)
    requires d >= 2 && n > 0
    ensures n / d < n
  {
    var q := n / d;
    assert n == d * q + n % d;
    assert d * q >= 2 * q by { MulMonotone(2, d, q); }
  }

  lemma MulMonotone(a: int, b: int, c: int)
    requires a <= b && c >= 0
    ensures a * c <= b * c
  {
  }

  /** DIV and REM on a nonzero divisor without overflow are truncating signed division. */
  lemma SignedDivisionIsExact(a: u64, b: u64)
    requires b != 0 && !(a == I64_MIN && b == U64_MAX)
    ensures Signed(a) == Signed(b) * Signed(M(4, a, b)) + Signed(M(6, a, b))
    ensures -Abs(Signed(b)) < Signed(M(6, a, b)) < Abs(Signed(b))
    ensures Signed(a) >= 0 ==> Signed(M(6, a, b)) >= 0
    ensures Signed(a) <= 0 ==> Signed(M(6, a, b)) <= 0
  {
    hide M;
    Group(a, b);
    TruncLaw(Signed(a), Signed(b));
    TruncDivRange(Signed(a), Signed(b), 0x8000_0000_0000_0000);
    WrapFits(TruncDiv(Signed(a), Signed(b)));
    WrapFits(TruncRem(Signed(a), Signed(b)));
  }

  lemma WrapFits(i: int)
    requires -0x8000_0000_0000_0000 <= i < 0x8000_0000_0000_0000
    ensures Signed(Wrap(i)) == i
  {
  }

  /** DIVU and REMU on a nonzero divisor are exact unsigned division. */
  lemma UnsignedDivisionIsExact(a: u64, b: u64)
    requires b != 0
    ensures a == b * M(5, a, b) + M(7, a, b)
    ensures M(7, a, b) < b
  {
    hide M, Divu, Remu;
    Group(a, b);
    UnsignedQuotient(a, b);
  }

  lemma UnsignedQuotient(a: u64, b: u64)
    requires b != 0
    ensures a == b * Divu(a, b) + Remu(a, b) && Remu(a, b) < b
  {
    DivideShrinks(a, b);
    assert a == b * (a / b) + a % b;
    ModUnique(a / b, TWO64, 0, a / b);
    ModUnique(a % b, TWO64, 0, a % b);
  }

  /** The exceptional cases of the ISA: all ones and the dividend for a zero divisor, the
      dividend and zero for signed overflow. */
  lemma ExceptionalDivisions(a: u64)
    ensures M(4, a, 0) == U64_MAX && M(6, a, 0) == a
    ensures M(5, a, 0) == U64_MAX && M(7, a, 0) == a
    ensures M(4, I64_MIN, U64_MAX) == I64_MIN && M(6, I64_MIN, U64_MAX) == 0
  {
    Group(a, 0);
    Group(I64_MIN, U64_MAX);
    hide M;
  }

  lemma SignedLaw(a: u64, b: u64)
    ensures Wrap(Signed(b) * Signed(M(4, a, b)) + Signed(M(6, a, b))) == a
  {
    hide M;
    SignedIs(a);
    if b == 0 {
      ExceptionalDivisions(a);
      assert Signed(0) == 0;
    } else if a == I64_MIN && b == U64_MAX {
      ExceptionalDivisions(a);
      assert Signed(U64_MAX) == -1;
    } else {
      SignedDivisionIsExact(a, b);
    }
  }

  lemma UnsignedLaw(a: u64, b: u64)
    ensures Wrap(b * M(5, a, b) + M(7, a, b)) == a
  {
    hide M;
    if b == 0 {
      ExceptionalDivisions(a);
    } else {
      UnsignedDivisionIsExact(a, b);
    }
  }

  /** For all operands, with no exception: a = q * b + r modulo 2^64, signed and unsigned. */
  lemma DivisionLawModulo64(a: u64, b: u64)
    ensures Wrap(Signed(b) * Signed(M(4, a, b)) + Signed(M(6, a, b))) == a
    ensures Wrap(b * M(5, a, b) + M(7, a, b)) == a
  {
    hide M;
    SignedLaw(a, b);
    UnsignedLaw(a, b);
  }

  // ---------------------------------------------------------------- 32-bit division

  /** What the ISA prescribes for DIVW: the low words alone decide. */
  function IsaDivw(a: u64, b: u64): u64 {
    if Low32(b) == 0 then U64_MAX
    else if Signed32(a) == -0x8000_0000 && Signed32(b) == -1 then I32_MIN_SEXT
    else Wrap(TruncDiv(Signed32(a), Signed32(b)))
  }

  function IsaRemw(a: u64, b: u64): u64 {
    if Low32(b) == 0 then Sext32(a)
    else if Signed32(a) == -0x8000_0000 && Signed32(b) == -1 then 0
    else Wrap(TruncRem(Signed32(a), Signed32(b)))
  }

  function IsaDivuw(a: u64, b: u64): u64 {
    if Low32(b) == 0 then U64_MAX else Sext32(Low32(a) / Low32(b))
  }

  function IsaRemuw(a: u64, b: u64): u64 {
    if Low32(b) == 0 then Sext32(a) else Sext32(Low32(a) % Low32(b))
  }

  /** The interpreter agrees with the ISA exactly when rs2 is zero or has a nonzero low word
      (REMW also when the dividend's low word is zero). */
  lemma WordDivisionAgreesIff(a: u64, b: u64)
    ensures Op32Value(1, 4, a, b) == Value(IsaDivw(a, b)) <==> b == 0 || Low32(b) != 0
    ensures Op32Value(1, 5, a, b) == Value(IsaDivuw(a, b)) <==> b == 0 || Low32(b) != 0
    ensures Op32Value(1, 6, a, b) == Value(IsaRemw(a, b)) <==> b == 0 || Low32(b) != 0 || Low32(a) == 0
    ensures Op32Value(1, 7, a, b) == Value(IsaRemuw(a, b)) <==> b == 0 || Low32(b) != 0
  {
    assert Signed32(b) == 0 <==> Low32(b) == 0;
    assert Sext32(a) == 0 <==> Low32(a) == 0;
  }

  /** A nonzero rs2 with a zero low word: DIVUW and REMUW abort, DIVW answers the most negative word. */
  lemma WordDivisionFailure()
    ensures Op32Value(1, 5, 1, TWO32) == Panics && Op32Value(1, 7, 1, TWO32) == Panics
    ensures Op32Value(1, 4, 1, TWO32) == Value(I32_MIN_SEXT) && IsaDivw(1, TWO32) == U64_MAX
  {
  }

  lemma Low32OfWrap(i: int)
    ensures Low32(Wrap(i)) == Low32(i)
  {
    var q := i / TWO64;
    assert i == TWO64 * q + Wrap(i);
    var r := Wrap(i);
    ModUnique(i, TWO32, TWO32 * q + r / TWO32, r % TWO32);
  }

  /** MULW is the sign-extended low word of the product, whatever the upper operand halves hold. */
  lemma WordProductIsExact(a: u64, b: u64)
    ensures Op32Value(1, 0, a, b) == Value(Sext32(a * b))
  {
    hide Low32, Signed32, Wrap;
    LowWordProduct(a, b);
    SameLowSameSext(Signed32(a) * Signed32(b), a * b);
  }

  lemma SameLowSameSext(i: int, j: int)
    requires Low32(i) == Low32(j)
    ensures Sext32(i) == Sext32(j)
  {
  }

  /** A number and its signed low word differ by a multiple of 2^32. */
  lemma SignedWordIs(a: int) returns (s: int)
    ensures a == Signed32(a) + s * TWO32
  {
    s := (a - Signed32(a)) / TWO32;
  }

  lemma LowWordProduct(a: int, b: int)
    ensures Low32(a * b) == Low32(Signed32(a) * Signed32(b))
  {
    hide Low32, Signed32;
    var s := SignedWordIs(a);
    var t := SignedWordIs(b);
    var i, j := Signed32(a), Signed32(b);
    ExpandWord(i, j, s, t);
    Low32Shift(i * j, s * j + t * i + s * t * TWO32);
  }

  lemma ExpandWord(i: int, j: int, s: int, t: int)
    ensures (i + s * TWO32) * (j + t * TWO32) == i * j + (s * j + t * i + s * t * TWO32) * TWO32
  {
  }

  lemma Low32Shift(i: int, k: int)
    ensures Low32(i + k * TWO32) == Low32(i)
  {
    var q := i / TWO32;
    assert i + k * TWO32 == TWO32 * (q + k) + Low32(i);
    ModUnique(i + k * TWO32, TWO32, q + k, Low32(i));
  }

  lemma Low32OfSigned(i: int)
    ensures Low32(Signed32(i)) == Low32(i)
  {
  }

  /** The ISA's own word divisions satisfy the law on all operands. */
  lemma SignedWordLaw(a: u64, b: u64)
    ensures Low32(Signed32(b) * Signed32(IsaDivw(a, b)) + Signed32(IsaRemw(a, b))) == Low32(a)
  {
    var i, j := Signed32(a), Signed32(b);
    Low32OfSigned(a);
    if Low32(b) == 0 {
      SextRoundTrip(a);
    } else if i == -0x8000_0000 && j == -1 {
    } else {
      TruncLaw(i, j);
      TruncDivRange(i, j, 0x8000_0000);
      Word32Fits(TruncDiv(i, j));
      Word32Fits(TruncRem(i, j));
    }
  }

  lemma Word32Fits(i: int)
    requires -0x8000_0000 <= i < 0x8000_0000
    ensures Signed32(Wrap(i)) == i
  {
  }

  lemma SextRoundTrip(a: int)
    ensures Signed32(Sext32(a)) == Signed32(a) && Low32(Sext32(a)) == Low32(a)
  {
    Low32OfWrap(Signed32(a));
    Low32OfSigned(a);
  }

  lemma UnsignedWordLaw(a: u64, b: u64)
    ensures Low32(Low32(b) * Low32(IsaDivuw(a, b)) + Low32(IsaRemuw(a, b))) == Low32(a)
  {
    var i, j := Low32(a), Low32(b);
    if j == 0 {
      SextRoundTrip(a);
    } else {
      QuotientLaw(i, j);
      SextRoundTrip(i / j);
      SextRoundTrip(i % j);
    }
  }

  lemma QuotientLaw(i: nat, j: nat)
    requires 0 < j && i < TWO32 && j < TWO32
    ensures i == j * (i / j) + i % j
    ensures Low32(i / j) == i / j && Low32(i % j) == i % j
  {
    DivideShrinks(i, j);
  }

  /** The word division law a = q * b + r modulo 2^32, on the values the interpreter computes. */
  predicate SignedWordLawHolds(q: Value, r: Value, a: u64, b: u64) {
    q.Value? && r.Value? && Low32(Signed32(b) * Signed32(q.v) + Signed32(r.v)) == Low32(a)
  }

  predicate UnsignedWordLawHolds(q: Value, r: Value, a: u64, b: u64) {
    q.Value? && r.Value? && Low32(Low32(b) * Low32(q.v) + Low32(r.v)) == Low32(a)
  }

  /** It holds if and only if rs2 is zero or has a nonzero low word (for DIVW and REMW also when the
      dividend's low word is zero). */
  lemma WordDivisionLaw(a: u64, b: u64)
    ensures SignedWordLawHolds(Op32Value(1, 4, a, b), Op32Value(1, 6, a, b), a, b)
        <==> b == 0 || Low32(b) != 0 || Low32(a) == 0
    ensures UnsignedWordLawHolds(Op32Value(1, 5, a, b), Op32Value(1, 7, a, b), a, b)
        <==> b == 0 || Low32(b) != 0
  {
    WordDivisionAgreesIff(a, b);
    if b == 0 || Low32(b) != 0 {
      hide Op32Value, IsaDivw, IsaRemw, IsaDivuw, IsaRemuw;
      SignedWordLaw(a, b);
      UnsignedWordLaw(a, b);
    }
  }
}
