/** Every 32-bit instruction word against a reference of its own: assembly instructions, their encodings and their
    meaning over integers, single bits and flat memory, after chapters 2, 5, 7 and 9 of the RISC-V Unprivileged
    ISA (20191213) and section 3.3 of its Privileged volume. Encodings and meanings are written without reading a
    field out of a word. */
module Reference {
  import opened Words
  import opened Bits
  import opened Pages
  import opened Isa
  import opened Compressed
  import opened BaseIsa
  import opened MulDiv
  import opened IsaLaws

  // ---------------------------------------------------------------- instructions

  datatype Alu =
    | ADD | SUB | SLL | SLT | SLTU | XOR | SRL | SRA | OR | AND
    | MUL | MULH | MULHSU | MULHU | DIV | DIVU | REM | REMU

  datatype Cond = BEQ | BNE | BLT | BGE | BLTU | BGEU

  datatype Access = LB | LH | LW | LD | LBU | LHU | LWU

  datatype CsrOp = CSRRW | CSRRS | CSRRC

  /** `half` is an offset in units of two bytes, `upper` one of 4096; the ignored fields of FENCE and of the
      system instructions may hold anything. */
  datatype Inst =
    | LUI(rd: bv5, upper: bv20)
    | AUIPC(rd: bv5, upper: bv20)
    | JAL(rd: bv5, half20: bv20)
    | JALR(rd: bv5, rs1: bv5, imm: bv12)
    | Branch(cond: Cond, rs1: bv5, rs2: bv5, half: bv12)
    | LoadFrom(access: Access, rd: bv5, rs1: bv5, imm: bv12)
    | StoreTo(access: Access, rs2: bv5, rs1: bv5, imm: bv12)
    | Immediate(op: Alu, rd: bv5, rs1: bv5, imm: bv12)
    | ShiftBy(op: Alu, rd: bv5, rs1: bv5, shamt: bv6)
    | Register(op: Alu, rd: bv5, rs1: bv5, rs2: bv5)
    | WordImmediate(rd: bv5, rs1: bv5, imm: bv12)
    | WordShiftBy(op: Alu, rd: bv5, rs1: bv5, shamt5: bv5)
    | WordRegister(op: Alu, rd: bv5, rs1: bv5, rs2: bv5)
    | FENCE(instructions: bool, ignored: bv12, rs1: bv5, rd: bv5)
    | ECALL(rs1: bv5, rd: bv5)
    | EBREAK(rs1: bv5, rd: bv5)
    | MRET(rs1: bv5, rd: bv5)
    | CsrFrom(csrOp: CsrOp, csr: bv12, rd: bv5, rs1: bv5)
    | CsrImmediate(csrOp: CsrOp, csr: bv12, rd: bv5, field: bv5)

  /** Stores have the four widths; not every operation has an immediate or a word form. */
  predicate Exists(i: Inst) {
    match i
    case StoreTo(access, _, _, _) => access in {LB, LH, LW, LD}
    case Immediate(op, _, _, _) => op in {ADD, SLT, SLTU, XOR, OR, AND}
    case ShiftBy(op, _, _, _) => op in {SLL, SRL, SRA}
    case WordShiftBy(op, _, _, _) => op in {SLL, SRL, SRA}
    case WordRegister(op, _, _, _) => op in {ADD, SUB, SLL, SRL, SRA, MUL, DIV, DIVU, REM, REMU}
    case _ => true
  }

  // ---------------------------------------------------------------- encodings

  function AluF7(op: Alu): bv7 {
    match op
    case SUB => 0x20
    case SRA => 0x20
    case MUL => 1
    case MULH => 1
    case MULHSU => 1
    case MULHU => 1
    case DIV => 1
    case DIVU => 1
    case REM => 1
    case REMU => 1
    case _ => 0
  }

  function AluF3(op: Alu): bv3 {
    match op
    case ADD => 0
    case SUB => 0
    case SLL => 1
    case SLT => 2
    case SLTU => 3
    case XOR => 4
    case SRL => 5
    case SRA => 5
    case OR => 6
    case AND => 7
    case MUL => 0
    case MULH => 1
    case MULHSU => 2
    case MULHU => 3
    case DIV => 4
    case DIVU => 5
    case REM => 6
    case REMU => 7
  }

  function CondF3(c: Cond): bv3 {
    match c
    case BEQ => 0
    case BNE => 1
    case BLT => 4
    case BGE => 5
    case BLTU => 6
    case BGEU => 7
  }

  function AccessF3(s: Access): bv3 {
    match s
    case LB => 0
    case LH => 1
    case LW => 2
    case LD => 3
    case LBU => 4
    case LHU => 5
    case LWU => 6
  }

  function CsrF3(op: CsrOp): bv3 {
    match op
    case CSRRW => 1
    case CSRRS => 2
    case CSRRC => 3
  }

  /** Bit 10 of the immediate tells SRAI from SRLI. */
  function ShiftField(op: Alu, sh: bv6): bv12 { (if op == SRA then 0x400 else 0) | (sh as bv12) }

  function CsrImmediateF3(op: CsrOp): bv3 { 4 | CsrF3(op) }

  function Encode(i: Inst): bv32 {
    match i
    case LUI(rd, upper) => EncodeU(upper, rd, 0x37)
    case AUIPC(rd, upper) => EncodeU(upper, rd, 0x17)
    case JAL(rd, half) => EncodeJ(half, rd, 0x6f)
    case JALR(rd, rs1, imm) => EncodeI(imm, rs1, 0, rd, 0x67)
    case Branch(c, rs1, rs2, half) => EncodeB(half, rs2, rs1, CondF3(c), 0x63)
    case LoadFrom(access, rd, rs1, imm) => EncodeI(imm, rs1, AccessF3(access), rd, 0x03)
    case StoreTo(access, rs2, rs1, imm) => EncodeS(imm, rs2, rs1, AccessF3(access), 0x23)
    case Immediate(op, rd, rs1, imm) => EncodeI(imm, rs1, AluF3(op), rd, 0x13)
    case ShiftBy(op, rd, rs1, sh) => EncodeI(ShiftField(op, sh), rs1, AluF3(op), rd, 0x13)
    case Register(op, rd, rs1, rs2) => EncodeR(AluF7(op), rs2, rs1, AluF3(op), rd, 0x33)
    case WordImmediate(rd, rs1, imm) => EncodeI(imm, rs1, 0, rd, 0x1b)
    case WordShiftBy(op, rd, rs1, sh) => EncodeR(AluF7(op), sh, rs1, AluF3(op), rd, 0x1b)
    case WordRegister(op, rd, rs1, rs2) => EncodeR(AluF7(op), rs2, rs1, AluF3(op), rd, 0x3b)
    case FENCE(instructions, ignored, rs1, rd) => EncodeI(ignored, rs1, if instructions then 1 else 0, rd, 0x0f)
    case ECALL(rs1, rd) => EncodeI(0, rs1, 0, rd, 0x73)
    case EBREAK(rs1, rd) => EncodeI(1, rs1, 0, rd, 0x73)
    case MRET(rs1, rd) => EncodeI(0x302, rs1, 0, rd, 0x73)
    case CsrFrom(op, csr, rd, rs1) => EncodeI(csr, rs1, CsrF3(op), rd, 0x73)
    case CsrImmediate(op, csr, rd, field) => EncodeI(csr, field, CsrImmediateF3(op), rd, 0x73)
  }

  // ---------------------------------------------------------------- values

  /** Two's complement. */
  function Complement(n: nat, size: nat): int { if 2 * n >= size then n - size else n }
  function Int12(v: bv12): int { Complement(v as nat, 0x1000) }
  function Int20(v: bv20): int { Complement(v as nat, 0x10_0000) }

  predicate Holds(c: Cond, a: u64, b: u64) {
    match c
    case BEQ => a == b
    case BNE => a != b
    case BLT => Signed(a) < Signed(b)
    case BGE => Signed(a) >= Signed(b)
    case BLTU => a < b
    case BGEU => a >= b
  }

  /** Signed division: minus one and the dividend for a zero divisor, the dividend and zero on overflow, else
      rounded towards zero. */
  predicate SignedQuotient(n: int, d: int, q: int, r: int, least: int) {
    if d == 0 then q == -1 && r == n
    else if n == least && d == -1 then q == n && r == 0
    else n == d * q + r && -Abs(d) < r < Abs(d) && (n >= 0 ==> r >= 0) && (n <= 0 ==> r <= 0)
  }

  /** Unsigned division: the greatest number and the dividend for a zero divisor. */
  predicate UnsignedQuotient(n: int, d: int, q: int, r: int, greatest: int) {
    if d == 0 then q == greatest && r == n else n == d * q + r && 0 <= r < d
  }

  /** Bit k of a shift or logical operation. */
  predicate ResultBit(op: Alu, a: u64, b: u64, k: nat) {
    match op
    case SLL => k >= b % 64 && Bit(a, k - b % 64)
    case SRL => Bit(a, k + b % 64)
    case SRA => if k + b % 64 < 64 then Bit(a, k + b % 64) else Signed(a) < 0
    case XOR => Bit(a, k) != Bit(b, k)
    case OR => Bit(a, k) || Bit(b, k)
    case _ => Bit(a, k) && Bit(b, k)
  }

  /** v is the result of the operation on a and b. */
  ghost predicate Computes(op: Alu, a: u64, b: u64, v: u64) {
    match op
    case ADD => v == (a + b) % TWO64
    case SUB => (v + b) % TWO64 == a
    case SLT => v == if Signed(a) < Signed(b) then 1 else 0
    case SLTU => v == if a < b then 1 else 0
    case MUL => v == a * b % TWO64
    case MULH => Signed(v) * TWO64 <= Signed(a) * Signed(b) < (Signed(v) + 1) * TWO64
    case MULHSU => Signed(v) * TWO64 <= Signed(a) * b < (Signed(v) + 1) * TWO64
    case MULHU => v * TWO64 <= a * b < (v + 1) * TWO64
    case DIV => exists r :: SignedQuotient(Signed(a), Signed(b), Signed(v), r, -0x8000_0000_0000_0000)
    case DIVU => exists r :: UnsignedQuotient(a, b, v, r, 0xffff_ffff_ffff_ffff)
    case REM => exists q :: SignedQuotient(Signed(a), Signed(b), q, Signed(v), -0x8000_0000_0000_0000)
    case REMU => exists q :: UnsignedQuotient(a, b, q, v, 0xffff_ffff_ffff_ffff)
    case _ => forall k: nat | k < 64 :: Bit(v, k) == ResultBit(op, a, b, k)
  }

  /** v is the sign-extended 32-bit result on the low words. */
  ghost predicate ComputesWord(op: Alu, a: u64, b: u64, v: u64) {
    var x, y, w := a % TWO32, b % TWO32, v % TWO32;
    && -0x8000_0000 <= Signed(v) < 0x8000_0000
    && match op
       case ADD => w == (x + y) % TWO32
       case SUB => (w + y) % TWO32 == x
       case SLL => w == x * Pow2(b % 32) % TWO32
       case SRL => w == x / Pow2(b % 32) % TWO32
       case SRA => Signed(v) == Signed32(a) / Pow2(b % 32)
       case MUL => w == x * y % TWO32
       case DIV => exists r :: SignedQuotient(Signed32(a), Signed32(b), Signed(v), r, -0x8000_0000)
       case DIVU => exists r :: UnsignedQuotient(x, y, w, r, 0xffff_ffff)
       case REM => exists q :: SignedQuotient(Signed32(a), Signed32(b), q, Signed(v), -0x8000_0000)
       case REMU => exists q :: UnsignedQuotient(x, y, q, w, 0xffff_ffff)
       case _ => false
  }

  // ---------------------------------------------------------------- effects

  function Bytes(a: Access): nat {
    match a
    case LB => 1
    case LH => 2
    case LW => 4
    case LD => 8
    case LBU => 1
    case LHU => 2
    case LWU => 4
  }

  /** The register value of a loaded number. */
  function Loaded(a: Access, w: nat): u64 {
    match a
    case LB => (if w >= 0x80 then w - 0x100 else w) % TWO64
    case LH => (if w >= 0x8000 then w - 0x1_0000 else w) % TWO64
    case LW => (if w >= 0x8000_0000 then w - 0x1_0000_0000 else w) % TWO64
    case _ => w % TWO64
  }

  /** The little-endian number in n bytes of flat memory. */
  function Flat(pages: PageMap, a: nat, n: nat): nat
    decreases n
  {
    if n == 0 then 0 else ByteAt(pages, a) + 256 * Flat(pages, a + 1, n - 1)
  }

  ghost predicate SameCsrs(g: Hart, h: Hart) {
    g.mtvec == h.mtvec && g.mepc == h.mepc && g.mcause == h.mcause && g.mstatus == h.mstatus && g.tohost == h.tohost
  }

  /** rd receives v unless it is x0; no other register changes. */
  ghost predicate Sets(g: Hart, h: Hart, rd: bv5, v: u64) {
    forall r: nat | r < 32 :: h.x[r] == if r == rd as nat && r != 0 then v else g.x[r]
  }

  /** The step retires with v in rd, continues at pc, and changes nothing else. */
  ghost predicate Goes(m: Machine, s: Stepped, rd: bv5, v: u64, pc: u64) {
    && s.out == Ok(false) && s.m.pages == m.pages && s.m.hart.pc == pc
    && Sets(m.hart, s.m.hart, rd, v) && SameCsrs(m.hart, s.m.hart)
  }

  ghost predicate Loads(m: Machine, s: Stepped, access: Access, rd: bv5, addr: u64, next: u64) {
    var n := Bytes(access);
    if addr + n > 0x1_0000_0000 then s == Stepped(Err(LoadOutOfRange(addr)), m)
    else Goes(m, s, rd, Loaded(access, Flat(m.pages, addr, n)), next)
  }

  /** Word and double stores to the tohost address are latched, even when they trap. */
  function Latched(h: Hart, v: u64, addr: u64, n: nat, tohost: Option<u64>): Option<u64> {
    if tohost == Some(addr) && n == 8 then Some(v)
    else if tohost == Some(addr) && n == 4 then Some(v % TWO32)
    else h.tohost
  }

  ghost predicate Stores(m: Machine, s: Stepped, n: nat, v: u64, addr: u64, next: u64, tohost: Option<u64>) {
    var latch := Latched(m.hart, v, addr, n, tohost);
    if addr + n > 0x1_0000_0000 then
      s == Stepped(Err(StoreOutOfRange(addr)), m.(hart := m.hart.(tohost := latch)))
    else
      && s.out == Ok(false) && s.m.hart == m.hart.(pc := next, tohost := latch)
      && forall a: nat :: ByteAt(s.m.pages, a) ==
           if addr <= a < addr + n then v / Pow256(a - addr) % 256 else ByteAt(m.pages, a)
  }

  /** Bit k of a CSR written with src over prior. */
  predicate CsrBit(op: CsrOp, prior: u64, src: u64, k: nat) {
    match op
    case CSRRW => Bit(src, k)
    case CSRRS => Bit(prior, k) || Bit(src, k)
    case CSRRC => Bit(prior, k) && !Bit(src, k)
  }

  ghost predicate Updates(op: CsrOp, prior: u64, src: u64, updated: u64) {
    forall k: nat | k < 64 :: Bit(updated, k) == CsrBit(op, prior, src, k)
  }

  /** Four machine CSRs exist; the others read zero. */
  function CsrValue(h: Hart, csr: nat): u64 {
    if csr == 0x300 then h.mstatus
    else if csr == 0x305 then h.mtvec
    else if csr == 0x341 then h.mepc
    else if csr == 0x342 then h.mcause
    else 0
  }

  /** The old value goes to rd and the updated one into the CSR, the low two bits of mtvec staying clear. */
  ghost predicate Exchanges(m: Machine, s: Stepped, op: CsrOp, csr: nat, rd: bv5, src: u64, next: u64) {
    var g, h := m.hart, s.m.hart;
    var prior := CsrValue(g, csr);
    && s.out == Ok(false) && s.m.pages == m.pages && h.pc == next && h.tohost == g.tohost && Sets(g, h, rd, prior)
    && exists v: u64 :: Updates(op, prior, src, v)
         && h.mstatus == (if csr == 0x300 then v else g.mstatus)
         && h.mtvec == (if csr == 0x305 then v - v % 4 else g.mtvec)
         && h.mepc == (if csr == 0x341 then v else g.mepc)
         && h.mcause == (if csr == 0x342 then v else g.mcause)
  }

  /** Back to mepc, the previous-privilege field (bits 11 and 12 of mstatus) cleared. */
  ghost predicate Returns(m: Machine, s: Stepped) {
    && s == Stepped(Ok(false), m.(hart := m.hart.(pc := m.hart.mepc, mstatus := s.m.hart.mstatus)))
    && forall k: nat | k < 64 :: Bit(s.m.hart.mstatus, k) == (Bit(m.hart.mstatus, k) && k != 11 && k != 12)
  }

  /** What the instruction does to the machine, `next` being the address after it. */
  ghost predicate Means(i: Inst, m: Machine, next: u64, tohost: Option<u64>, s: Stepped) {
    var (x, pc) := (m.hart.x, m.hart.pc);
    match i
    case LUI(rd, upper) => Goes(m, s, rd, 4096 * Int20(upper) % TWO64, next)
    case AUIPC(rd, upper) => Goes(m, s, rd, (pc + 4096 * Int20(upper)) % TWO64, next)
    case JAL(rd, half) => Goes(m, s, rd, next, (pc + 2 * Int20(half)) % TWO64)
    case JALR(rd, rs1, imm) =>
      var target := (x[rs1 as nat] + Int12(imm)) % TWO64;
      Goes(m, s, rd, next, target - target % 2)
    case Branch(c, rs1, rs2, half) =>
      Goes(m, s, 0, 0, if Holds(c, x[rs1 as nat], x[rs2 as nat]) then (pc + 2 * Int12(half)) % TWO64 else next)
    case LoadFrom(access, rd, rs1, imm) => Loads(m, s, access, rd, (x[rs1 as nat] + Int12(imm)) % TWO64, next)
    case StoreTo(access, rs2, rs1, imm) =>
      Stores(m, s, Bytes(access), x[rs2 as nat], (x[rs1 as nat] + Int12(imm)) % TWO64, next, tohost)
    case Immediate(op, rd, rs1, imm) =>
      exists v: u64 :: Goes(m, s, rd, v, next) && Computes(op, x[rs1 as nat], Int12(imm) % TWO64, v)
    case ShiftBy(op, rd, rs1, sh) =>
      exists v: u64 :: Goes(m, s, rd, v, next) && Computes(op, x[rs1 as nat], sh as nat, v)
    case Register(op, rd, rs1, rs2) =>
      exists v: u64 :: Goes(m, s, rd, v, next) && Computes(op, x[rs1 as nat], x[rs2 as nat], v)
    case WordImmediate(rd, rs1, imm) =>
      exists v: u64 :: Goes(m, s, rd, v, next) && ComputesWord(ADD, x[rs1 as nat], Int12(imm) % TWO64, v)
    case WordShiftBy(op, rd, rs1, sh) =>
      exists v: u64 :: Goes(m, s, rd, v, next) && ComputesWord(op, x[rs1 as nat], sh as nat, v)
    case WordRegister(op, rd, rs1, rs2) =>
      exists v: u64 :: Goes(m, s, rd, v, next) && ComputesWord(op, x[rs1 as nat], x[rs2 as nat], v)
    case FENCE(_, _, _, _) => Goes(m, s, 0, 0, next)
    case ECALL(_, _) => s == Stepped(Err(Ecall), m)
    case EBREAK(_, _) => s == Stepped(Ok(true), m)
    case MRET(_, _) => Returns(m, s)
    case CsrFrom(op, csr, rd, rs1) => Exchanges(m, s, op, csr as nat, rd, x[rs1 as nat], next)
    case CsrImmediate(op, csr, rd, field) => Exchanges(m, s, op, csr as nat, rd, field as nat, next)
  }

  /** The operands on which the interpreter follows the ISA: word divisions whose divisor is zero or has a nonzero
      low word, and CSR immediates below 16. */
  predicate Conforms(i: Inst, m: Machine) {
    match i
    case WordRegister(op, _, rs1, rs2) => Divides(op, m.hart.x[rs1 as nat], m.hart.x[rs2 as nat])
    case CsrImmediate(_, _, _, field) => field < 16
    case _ => true
  }

  // ---------------------------------------------------------------- the 64-bit operations compute them

  lemma Sums(a: u64, b: u64)
    ensures OpValue(0, 0, a, b).Value? && Computes(ADD, a, b, OpValue(0, 0, a, b).v)
    ensures OpValue(0x20, 0, a, b).Value? && Computes(SUB, a, b, OpValue(0x20, 0, a, b).v)
  {
    ModUnique(a - b, TWO64, if a >= b then 0 else -1, if a >= b then a - b else a - b + TWO64);
    ModUnique(Wrap(a - b) + b, TWO64, if a >= b then 0 else 1, a);
  }

  lemma Comparisons(a: u64, b: u64)
    ensures OpValue(0, 2, a, b).Value? && Computes(SLT, a, b, OpValue(0, 2, a, b).v)
    ensures OpValue(0, 3, a, b).Value? && Computes(SLTU, a, b, OpValue(0, 3, a, b).v)
  {
  }

  lemma Bitwise(op: Alu, a: u64, b: u64)
    requires op in {SLL, XOR, SRL, SRA, OR, AND}
    ensures var r := OpValue(AluF7(op), AluF3(op), a, b); r.Value? && Computes(op, a, b, r.v)
  {
    hide Bit, OpValue;
    RegisterOpsAreBitwise(a, b, 0);
    var v := OpValue(AluF7(op), AluF3(op), a, b).v;
    forall k: nat | k < 64
      ensures Bit(v, k) == ResultBit(op, a, b, k)
    {
      RegisterOpsAreBitwise(a, b, k);
    }
  }

  lemma Products(a: u64, b: u64)
    ensures Computes(MUL, a, b, M(0, a, b)) && Computes(MULH, a, b, M(1, a, b))
    ensures Computes(MULHSU, a, b, M(2, a, b)) && Computes(MULHU, a, b, M(3, a, b))
  {
    hide M, Signed;
    Group(a, b);
    ProductsAreExact(a, b);
  }

  lemma SignedDivisions(a: u64, b: u64)
    ensures SignedQuotient(Signed(a), Signed(b), Signed(M(4, a, b)), Signed(M(6, a, b)), -0x8000_0000_0000_0000)
  {
    hide M;
    if b == 0 || (a == I64_MIN && b == U64_MAX) {
      ExceptionalDivisions(a);
    } else {
      SignedDivisionIsExact(a, b);
    }
  }

  lemma UnsignedDivisions(a: u64, b: u64)
    ensures UnsignedQuotient(a, b, M(5, a, b), M(7, a, b), 0xffff_ffff_ffff_ffff)
  {
    hide M;
    if b == 0 {
      ExceptionalDivisions(a);
    } else {
      UnsignedDivisionIsExact(a, b);
    }
  }

  lemma Divisions(a: u64, b: u64)
    ensures Computes(DIV, a, b, M(4, a, b)) && Computes(DIVU, a, b, M(5, a, b))
    ensures Computes(REM, a, b, M(6, a, b)) && Computes(REMU, a, b, M(7, a, b))
  {
    hide M, Signed, SignedQuotient, UnsignedQuotient;
    SignedDivisions(a, b);
    UnsignedDivisions(a, b);
  }

  /** Each of the eighteen. */
  lemma RegisterComputes(op: Alu, a: u64, b: u64)
    ensures var r := OpValue(AluF7(op), AluF3(op), a, b); r.Value? && Computes(op, a, b, r.v)
  {
    hide Computes, OpValue;
    Group(a, b);
    if op in {SLL, XOR, SRL, SRA, OR, AND} {
      Bitwise(op, a, b);
    } else if op in {ADD, SUB} {
      Sums(a, b);
    } else if op in {SLT, SLTU} {
      Comparisons(a, b);
    } else if op in {MUL, MULH, MULHSU, MULHU} {
      Products(a, b);
    } else {
      Divisions(a, b);
    }
  }

  // ---------------------------------------------------------------- the word operations

  /** The sign-extended low word of i. */
  lemma SextIs(i: int)
    ensures -0x8000_0000 <= Signed(Sext32(i)) < 0x8000_0000 && Sext32(i) % TWO32 == i % TWO32
  {
    SextRange(i);
    SextRoundTrip(i);
  }

  lemma WordSums(a: u64, b: u64)
    ensures Op32Value(0, 0, a, b).Value? && ComputesWord(ADD, a, b, Op32Value(0, 0, a, b).v)
    ensures Op32Value(0x20, 0, a, b).Value? && ComputesWord(SUB, a, b, Op32Value(0x20, 0, a, b).v)
  {
    SextIs(a + b);
    SextIs(a - b);
    LowOfSum(a, b);
    LowOfSum(a - b, b);
    hide Sext32, Signed;
  }

  lemma WordShifts(a: u64, b: u64)
    ensures Op32Value(0, 1, a, b).Value? && ComputesWord(SLL, a, b, Op32Value(0, 1, a, b).v)
    ensures Op32Value(0, 5, a, b).Value? && ComputesWord(SRL, a, b, Op32Value(0, 5, a, b).v)
    ensures Op32Value(0x20, 5, a, b).Value? && ComputesWord(SRA, a, b, Op32Value(0x20, 5, a, b).v)
  {
    var p := Pow2(b % 32);
    SextIs(Low32(a) * p);
    SextIs(Low32(a) / p);
    WordShiftFits(Signed32(a), p);
    SmallSigned(Signed32(a) / p);
    hide Sext32, Signed, Signed32, Pow2, Wrap;
  }

  lemma WordProduct(a: u64, b: u64)
    ensures Op32Value(1, 0, a, b).Value? && ComputesWord(MUL, a, b, Op32Value(1, 0, a, b).v)
  {
    WordProductIsExact(a, b);
    SextIs(a * b);
    LowFactors(a, b);
    hide Sext32, Signed, Op32Value;
  }

  lemma LowFactors(a: int, b: int)
    ensures a * b % TWO32 == (a % TWO32) * (b % TWO32) % TWO32
  {
    var (s, t, i, j) := (a / TWO32, b / TWO32, a % TWO32, b % TWO32);
    assert a == i + s * TWO32 && b == j + t * TWO32;
    ExpandWord(i, j, s, t);
    Low32Shift(i * j, s * j + t * i + s * t * TWO32);
  }

  /** Division by the low word, where the interpreter does divide by it. */
  predicate Divides(op: Alu, a: u64, b: u64) {
    match op
    case REM => b == 0 || b % TWO32 != 0 || a % TWO32 == 0
    case DIV => b == 0 || b % TWO32 != 0
    case DIVU => b == 0 || b % TWO32 != 0
    case REMU => b == 0 || b % TWO32 != 0
    case _ => true
  }

  lemma SignedWordDivisions(a: u64, b: u64)
    ensures var (q, r) := (IsaDivw(a, b), IsaRemw(a, b));
            && -0x8000_0000 <= Signed(q) < 0x8000_0000 && -0x8000_0000 <= Signed(r) < 0x8000_0000
            && SignedQuotient(Signed32(a), Signed32(b), Signed(q), Signed(r), -0x8000_0000)
  {
    var i, j := Signed32(a), Signed32(b);
    assert j == 0 <==> Low32(b) == 0;
    if j == 0 {
      SmallSigned(i);
    } else if i == -0x8000_0000 && j == -1 {
    } else {
      TruncLaw(i, j);
      TruncDivRange(i, j, 0x8000_0000);
      SmallSigned(TruncDiv(i, j));
      SmallSigned(TruncRem(i, j));
      hide TruncDiv, TruncRem, Signed32, Signed, Wrap;
    }
  }

  lemma UnsignedWordDivisions(a: u64, b: u64)
    ensures var (q, r) := (IsaDivuw(a, b), IsaRemuw(a, b));
            && -0x8000_0000 <= Signed(q) < 0x8000_0000 && -0x8000_0000 <= Signed(r) < 0x8000_0000
            && UnsignedQuotient(a % TWO32, b % TWO32, q % TWO32, r % TWO32, 0xffff_ffff)
  {
    var i, j := Low32(a), Low32(b);
    SextIs(a);
    if j != 0 {
      QuotientLaw(i, j);
      SextIs(i / j);
      SextIs(i % j);
    }
    hide Sext32;
  }

  lemma WordDivisions(op: Alu, a: u64, b: u64)
    requires op in {DIV, DIVU, REM, REMU} && Divides(op, a, b)
    ensures var r := Op32Value(1, AluF3(op), a, b); r.Value? && ComputesWord(op, a, b, r.v)
  {
    hide IsaDivw, IsaRemw, IsaDivuw, IsaRemuw, SignedQuotient, UnsignedQuotient, Signed, Signed32, Op32Value;
    WordDivisionAgreesIff(a, b);
    if op in {DIV, REM} {
      SignedWordDivisions(a, b);
    } else {
      UnsignedWordDivisions(a, b);
    }
  }

  /** Each word operation, the divisions outside the failing operands. */
  lemma WordComputes(op: Alu, a: u64, b: u64)
    requires op in {ADD, SUB, SLL, SRL, SRA, MUL, DIV, DIVU, REM, REMU} && Divides(op, a, b)
    ensures var r := Op32Value(AluF7(op), AluF3(op), a, b); r.Value? && ComputesWord(op, a, b, r.v)
  {
    hide Op32Value, ComputesWord, Divides;
    if op in {ADD, SUB} {
      WordSums(a, b);
    } else if op in {SLL, SRL, SRA} {
      WordShifts(a, b);
    } else if op == MUL {
      WordProduct(a, b);
    } else {
      WordDivisions(op, a, b);
    }
  }

  // ---------------------------------------------------------------- immediates as integers

  lemma Negative12(v: bv12)
    requires v & 0x800 != 0
    ensures v as nat >= 0x800
    ensures ((v as bv21) | 0x1f_f000) as nat == v as nat + 0x1f_f000
    ensures (((v as bv21) | 0x1f_f000) << 1) as nat == 2 * (v as nat) + 0x1f_e000
  {
  }

  lemma Positive12(v: bv12)
    requires v & 0x800 == 0
    ensures v as nat < 0x800
    ensures (v as bv21) as nat == v as nat
    ensures ((v as bv21) << 1) as nat == 2 * (v as nat)
  {
  }

  lemma Widened12(v: bv12)
    ensures Sext12(v) as nat == if v as nat >= 0x800 then v as nat + 0x1f_f000 else v as nat
  {
    if v & 0x800 != 0 {
      Negative12(v);
    } else {
      Positive12(v);
    }
  }

  lemma Doubled12(v: bv12)
    ensures (Sext12(v) << 1) as nat == if v as nat >= 0x800 then 2 * (v as nat) + 0x1f_e000 else 2 * (v as nat)
  {
    if v & 0x800 != 0 {
      Negative12(v);
    } else {
      Positive12(v);
    }
  }

  lemma Twice20(v: bv20)
    ensures ((v as bv21) << 1) as nat == 2 * (v as nat)
  {
  }

  lemma Upper20(v: bv20)
    ensures ((v as bv32) << 12) as nat == 4096 * (v as nat)
  {
  }

  /** The value of an offset whose 21 bits are the number n. */
  lemma OffsetIs(v: bv21, n: nat)
    requires v as nat == n
    ensures Offset(v) == if n >= 0x10_0000 then n + (TWO64 - 0x20_0000) else n
  {
  }

  lemma Int12Once(imm: bv12)
    ensures Offset(Sext12(imm)) == Int12(imm) % TWO64
  {
    hide Offset, Sext12, Complement;
    Widened12(imm);
    Offset12(Sext12(imm), imm as nat);
  }

  lemma Offset12(v: bv21, n: nat)
    requires n < 0x1000 && v as nat == if n >= 0x800 then n + 0x1f_f000 else n
    ensures Offset(v) == Complement(n, 0x1000) % TWO64
  {
    hide Offset, Complement;
    OffsetIs(v, if n >= 0x800 then n + 0x1f_f000 else n);
    Int12Of(n);
  }

  lemma Int12Twice(imm: bv12)
    ensures Offset(Sext12(imm) << 1) == 2 * Int12(imm) % TWO64
  {
    hide Offset, Sext12, Complement;
    Doubled12(imm);
    Offset13(Sext12(imm) << 1, imm as nat);
  }

  lemma Offset13(v: bv21, n: nat)
    requires n < 0x1000 && v as nat == if n >= 0x800 then 2 * n + 0x1f_e000 else 2 * n
    ensures Offset(v) == 2 * Complement(n, 0x1000) % TWO64
  {
    hide Offset, Complement;
    OffsetIs(v, if n >= 0x800 then 2 * n + 0x1f_e000 else 2 * n);
    Int12Of(n);
  }

  lemma Int12Of(n: nat)
    requires n < 0x1000
    ensures var v: nat := if n >= 0x800 then n + 0x1f_f000 else n;
            v < 0x20_0000 && Complement(n, 0x1000) % TWO64 == if v >= 0x10_0000 then v + (TWO64 - 0x20_0000) else v
    ensures var w: nat := if n >= 0x800 then 2 * n + 0x1f_e000 else 2 * n;
            w < 0x20_0000 && 2 * Complement(n, 0x1000) % TWO64 == if w >= 0x10_0000 then w + (TWO64 - 0x20_0000) else w
  {
  }

  lemma JumpIs(half: bv20)
    ensures Offset((half as bv21) << 1) == 2 * Int20(half) % TWO64
  {
    hide Offset, Complement;
    Twice20(half);
    Offset21((half as bv21) << 1, half as nat);
  }

  lemma Offset21(v: bv21, n: nat)
    requires n < 0x10_0000 && v as nat == 2 * n
    ensures Offset(v) == 2 * Complement(n, 0x10_0000) % TWO64
  {
    hide Offset, Complement;
    OffsetIs(v, 2 * n);
    JumpOf(n);
  }

  lemma JumpOf(n: nat)
    requires n < 0x10_0000
    ensures 2 * Complement(n, 0x10_0000) % TWO64 == if 2 * n >= 0x10_0000 then 2 * n + (TWO64 - 0x20_0000) else 2 * n
  {
  }

  lemma JumpTarget(pc: u64, half: bv20, rd: bv5)
    ensures var inst := EncodeJ(half, rd, 0x6f);
            Opcode(inst) == 0x6f && Rd(inst) == rd && Wrap(pc + Offset(ImmJ(inst))) == (pc + 2 * Int20(half)) % TWO64
  {
    hide EncodeJ, Opcode, Rd, ImmJ, Offset, Int20, Wrap;
    ImmediatesRoundTrip(0, half, 0, 0, 0, rd, 0x6f);
    JumpIs(half);
    AddReduced(pc, 2 * Int20(half));
  }

  lemma UpperValue(upper: bv20, rd: bv5, op: bv7)
    ensures var inst := EncodeU(upper, rd, op);
            Opcode(inst) == op && Rd(inst) == rd && Sext32(ImmU(inst) as nat) == 4096 * Int20(upper) % TWO64
  {
    hide EncodeU, Opcode, Rd, ImmU, Sext32, Int20;
    ImmediatesRoundTrip(0, upper, 0, 0, 0, rd, op);
    UpperIs(upper);
  }

  lemma UpperIs(upper: bv20)
    ensures Sext32(((upper as bv32) << 12) as nat) == 4096 * Int20(upper) % TWO64
  {
    hide Sext32, Complement;
    Upper20(upper);
    var n: nat := upper as nat;
    UpperOf(n);
  }

  lemma UpperOf(n: nat)
    requires n < 0x10_0000
    ensures Sext32(4096 * n) == 4096 * Complement(n, 0x10_0000) % TWO64
  {
  }

  /** Adding an offset reduced modulo 2^64 or not is the same. */
  lemma AddReduced(a: int, i: int)
    ensures Wrap(a + i % TWO64) == (a + i) % TWO64
  {
    var q, r := i / TWO64, i % TWO64;
    assert i == TWO64 * q + r;
    ModUnique(a + i, TWO64, q + (a + r) / TWO64, (a + r) % TWO64);
  }

  // ---------------------------------------------------------------- execution

  lemma Retired(m: Machine, rd: bv5, v: u64, pc: u64)
    ensures Goes(m, Retire(m, m.hart.Set(rd, v).At(pc)), rd, v, pc)
  {
  }

  lemma UpperMeans(m: Machine, i: Inst, next: u64, tohost: Option<u64>)
    requires i.LUI? || i.AUIPC?
    ensures Means(i, m, next, tohost, Exec32(m, Encode(i), next, tohost))
  {
    hide EncodeU, Goes, Int20, Opcode, Rd, ImmU, Sext32;
    UpperValue(i.upper, i.rd, if i.LUI? then 0x37 else 0x17);
    AddReduced(m.hart.pc, 4096 * Int20(i.upper));
    var v := 4096 * Int20(i.upper);
    Retired(m, i.rd, if i.LUI? then v % TWO64 else (m.hart.pc + v) % TWO64, next);
  }

  lemma JalMeans(m: Machine, i: Inst, next: u64, tohost: Option<u64>)
    requires i.JAL?
    ensures Means(i, m, next, tohost, Exec32(m, Encode(i), next, tohost))
  {
    hide EncodeJ, Goes, Int20, Opcode, Rd, ImmJ, Offset, Wrap;
    JumpTarget(m.hart.pc, i.half20, i.rd);
    Retired(m, i.rd, next, (m.hart.pc + 2 * Int20(i.half20)) % TWO64);
  }

  lemma JalrMeans(m: Machine, i: Inst, next: u64, tohost: Option<u64>)
    requires i.JALR?
    ensures Means(i, m, next, tohost, Exec32(m, Encode(i), next, tohost))
  {
    hide EncodeI, Goes, Int12, Opcode, Rd, F3, Rs1, ImmI, Offset, Sext12, ShiftField, CsrImmediateF3;
    FieldsI(i.imm, i.rs1, 0, i.rd, 0x67);
    Int12Once(i.imm);
    AddReduced(m.hart.Get(i.rs1), Int12(i.imm));
    var target := (m.hart.Get(i.rs1) + Int12(i.imm)) % TWO64;
    Retired(m, i.rd, next, target - target % 2);
  }

  lemma BranchMeans(m: Machine, i: Inst, next: u64, tohost: Option<u64>)
    requires i.Branch?
    ensures Means(i, m, next, tohost, Exec32(m, Encode(i), next, tohost))
  {
    hide EncodeB, Goes, Int12, Opcode, Rd, F3, Rs1, Rs2, ImmB, Offset, Sext12, Signed;
    FieldsB(i.half, i.rs2, i.rs1, CondF3(i.cond), 0x63);
    ImmediatesRoundTrip(i.half, 0, i.rs2, i.rs1, CondF3(i.cond), 0, 0x63);
    Int12Twice(i.half);
    AddReduced(m.hart.pc, 2 * Int12(i.half));
    Retired(m, 0, 0, next);
    Retired(m, 0, 0, (m.hart.pc + 2 * Int12(i.half)) % TWO64);
  }

  /** Where each opcode leads. */
  lemma ExecAlu(m: Machine, inst: bv32, next: u64, tohost: Option<u64>, v: u64)
    requires var (a, b) := (m.hart.Get(Rs1(inst)), m.hart.Get(Rs2(inst)));
             || (Opcode(inst) == 0x13 && OpImmValue(inst, a) == Value(v))
             || (Opcode(inst) == 0x1b && OpImm32Value(inst, a) == Value(v))
             || (Opcode(inst) == 0x33 && OpValue(F7(inst), F3(inst), a, b) == Value(v))
             || (Opcode(inst) == 0x3b && Op32Value(F7(inst), F3(inst), a, b) == Value(v))
    ensures Exec32(m, inst, next, tohost) == Retire(m, m.hart.Set(Rd(inst), v).At(next))
    ensures Goes(m, Exec32(m, inst, next, tohost), Rd(inst), v, next)
  {
    hide Opcode, Rd, F3, F7, Rs1, Rs2, OpImmValue, OpImm32Value, OpValue, Op32Value, Goes;
    Retired(m, Rd(inst), v, next);
  }

  lemma ExecMemory(m: Machine, inst: bv32, next: u64, tohost: Option<u64>)
    ensures Opcode(inst) == 0x03 ==> Exec32(m, inst, next, tohost) == ExecLoad(m, inst, next)
    ensures Opcode(inst) == 0x23 ==> Exec32(m, inst, next, tohost) == ExecStore(m, inst, next, tohost)
    ensures Opcode(inst) == 0x73 ==> Exec32(m, inst, next, tohost) == ExecSystem(m, inst, next)
  {
    hide Opcode, ExecLoad, ExecStore, ExecSystem;
  }

  // ---------------------------------------------------------------- loads and stores

  lemma {:induction false} FlatIsValue(pages: PageMap, a: nat, n: nat)
    ensures Flat(pages, a, n) == FromLE(Region(pages, a, n))
    decreases n
  {
    if n > 0 {
      FlatIsValue(pages, a + 1, n - 1);
      var r := Region(pages, a, n);
      assert r[0] == ByteAt(pages, a + 0);
      assert r[1..] == Region(pages, a + 1, n - 1);
    }
  }

  lemma LoadedIs(access: Access, w: u64)
    requires w < Pow256(Bytes(access))
    ensures LoadShape(AccessF3(access)).Some?
    ensures var (n, signed) := LoadShape(AccessF3(access)).value;
            n == Bytes(access) && Extend(w, n, signed) == Loaded(access, w)
  {
    Pow256Values();
    match access {
      case LB => ModUnique(w, 0x100, 0, w);
      case LH => ModUnique(w, 0x1_0000, 0, w);
      case LW => ModUnique(w, TWO32, 0, w);
      case _ =>
    }
  }

  lemma LoadMeans(m: Machine, i: Inst, next: u64, tohost: Option<u64>)
    requires i.LoadFrom?
    ensures Means(i, m, next, tohost, Exec32(m, Encode(i), next, tohost))
  {
    hide EncodeI, Goes, Opcode, Rd, F3, Rs1, ImmI, Offset, Sext12, Int12, Flat, Extend, Loaded, FromLE, Region,
         LoadShape, Wrap, Exec32, ShiftField, CsrImmediateF3;
    ExecMemory(m, Encode(i), next, tohost);
    var f3, n, addr := AccessF3(i.access), Bytes(i.access), (m.hart.Get(i.rs1) + Int12(i.imm)) % TWO64;
    FieldsI(i.imm, i.rs1, f3, i.rd, 0x03);
    Int12Once(i.imm);
    AddReduced(m.hart.Get(i.rs1), Int12(i.imm));
    FlatIsValue(m.pages, addr, n);
    Pow256Monotone(n, 8);
    Pow256Values();
    LoadedIs(i.access, Flat(m.pages, addr, n));
    Retired(m, i.rd, Loaded(i.access, Flat(m.pages, addr, n)), next);
  }

  /** The flat effect of a store of n bytes. */
  lemma {:induction false} StoredBytes(pages: PageMap, addr: nat, v: u64, n: nat, a: nat)
    requires n <= 8
    ensures ByteAt(WriteBytes(pages, addr, Bytes64(v)[..n]), a) ==
            if addr <= a < addr + n then v / Pow256(a - addr) % 256 else ByteAt(pages, a)
  {
    hide WriteBytes, ByteAt;
    ByteAtWriteBytes(pages, addr, Bytes64(v)[..n], a);
  }

  lemma StoreMeans(m: Machine, i: Inst, next: u64, tohost: Option<u64>)
    requires i.StoreTo? && Exists(i)
    ensures Means(i, m, next, tohost, Exec32(m, Encode(i), next, tohost))
  {
    hide EncodeS, Opcode, Rd, F3, Rs1, Rs2, ImmS, Offset, Sext12, Int12, WriteBytes, Bytes64, ByteAt, Wrap, Pow256,
         Exec32;
    ExecMemory(m, Encode(i), next, tohost);
    var f3, n, v := AccessF3(i.access), Bytes(i.access), m.hart.Get(i.rs2);
    var addr := (m.hart.Get(i.rs1) + Int12(i.imm)) % TWO64;
    FieldsS(i.imm, i.rs2, i.rs1, f3, 0x23);
    Int12Once(i.imm);
    AddReduced(m.hart.Get(i.rs1), Int12(i.imm));
    assert StoreLen(f3) == Some(n);
    forall a: nat
      ensures ByteAt(WriteBytes(m.pages, addr, Bytes64(v)[..n]), a) ==
              if addr <= a < addr + n then v / Pow256(a - addr) % 256 else ByteAt(m.pages, a)
    {
      StoredBytes(m.pages, addr, v, n, a);
    }
  }

  // ---------------------------------------------------------------- arithmetic

  lemma ImmediateMeans(m: Machine, i: Inst, next: u64, tohost: Option<u64>)
    requires i.Immediate? && Exists(i)
    ensures Means(i, m, next, tohost, Exec32(m, Encode(i), next, tohost))
  {
    hide Exec32, EncodeI, Goes, Opcode, Rd, F3, Rs1, ImmI, Offset, Sext12, Int12, OpImmValue, OpValue, Computes,
         ShiftField, CsrImmediateF3;
    var a, b := m.hart.Get(i.rs1), Int12(i.imm) % TWO64;
    FieldsI(i.imm, i.rs1, AluF3(i.op), i.rd, 0x13);
    Int12Once(i.imm);
    ImmediateOps(i.imm, i.rs1, AluF3(i.op), i.rd, a);
    RegisterComputes(i.op, a, b);
    ExecAlu(m, Encode(i), next, tohost, OpValue(0, AluF3(i.op), a, b).v);
  }

  /** The word of an immediate shift and the register shift it stands for. */
  lemma ShiftValue(op: Alu, sh: bv6, rs1: bv5, rd: bv5, a: u64)
    requires op in {SLL, SRL, SRA}
    ensures var inst := EncodeI(ShiftField(op, sh), rs1, AluF3(op), rd, 0x13);
            && Opcode(inst) == 0x13 && Rd(inst) == rd && Rs1(inst) == rs1
            && OpImmValue(inst, a) == OpValue(AluF7(op), AluF3(op), a, sh as nat)
  {
    hide EncodeI, Opcode, Rd, F3, Rs1, ImmI, OpImmValue, OpValue;
    assert op != SRA ==> ShiftField(op, sh) == sh as bv12;
    FieldsI(ShiftField(op, sh), rs1, AluF3(op), rd, 0x13);
    ImmediateShifts(sh, rs1, rd, a);
  }

  lemma ShiftMeans(m: Machine, i: Inst, next: u64, tohost: Option<u64>)
    requires i.ShiftBy? && Exists(i)
    ensures Means(i, m, next, tohost, Exec32(m, Encode(i), next, tohost))
  {
    hide Exec32, EncodeI, Goes, Opcode, Rd, F3, Rs1, ImmI, OpImmValue, OpValue, Computes, AluF7, AluF3,
         ShiftField, CsrImmediateF3;
    var a, b := m.hart.Get(i.rs1), i.shamt as nat;
    ShiftValue(i.op, i.shamt, i.rs1, i.rd, a);
    RegisterComputes(i.op, a, b);
    ExecAlu(m, Encode(i), next, tohost, OpValue(AluF7(i.op), AluF3(i.op), a, b).v);
  }

  lemma RegisterMeans(m: Machine, i: Inst, next: u64, tohost: Option<u64>)
    requires i.Register?
    ensures Means(i, m, next, tohost, Exec32(m, Encode(i), next, tohost))
  {
    hide Exec32, EncodeR, Goes, Opcode, Rd, F3, F7, Rs1, Rs2, OpValue, Computes;
    var a, b := m.hart.Get(i.rs1), m.hart.Get(i.rs2);
    FieldsR(AluF7(i.op), i.rs2, i.rs1, AluF3(i.op), i.rd, 0x33);
    RegisterComputes(i.op, a, b);
    ExecAlu(m, Encode(i), next, tohost, OpValue(AluF7(i.op), AluF3(i.op), a, b).v);
  }

  lemma WordImmediateMeans(m: Machine, i: Inst, next: u64, tohost: Option<u64>)
    requires i.WordImmediate?
    ensures Means(i, m, next, tohost, Exec32(m, Encode(i), next, tohost))
  {
    hide Exec32, EncodeI, EncodeR, Goes, Opcode, Rd, F3, Rs1, ImmI, Offset, Sext12, Int12, OpImm32Value, Op32Value,
         ComputesWord, ShiftField, CsrImmediateF3;
    var a, b := m.hart.Get(i.rs1), Int12(i.imm) % TWO64;
    FieldsI(i.imm, i.rs1, 0, i.rd, 0x1b);
    Int12Once(i.imm);
    WordImmediates(i.imm, 0, i.rs1, i.rd, a);
    WordComputes(ADD, a, b);
    ExecAlu(m, Encode(i), next, tohost, Op32Value(0, 0, a, b).v);
  }

  lemma WordShiftMeans(m: Machine, i: Inst, next: u64, tohost: Option<u64>)
    requires i.WordShiftBy? && Exists(i)
    ensures Means(i, m, next, tohost, Exec32(m, Encode(i), next, tohost))
  {
    hide Exec32, EncodeI, EncodeR, Goes, Opcode, Rd, F3, F7, Rs1, OpImm32Value, Op32Value, ComputesWord,
         Offset, Sext12, ShiftField, CsrImmediateF3;
    var a, b := m.hart.Get(i.rs1), i.shamt5 as nat;
    FieldsR(AluF7(i.op), i.shamt5, i.rs1, AluF3(i.op), i.rd, 0x1b);
    WordImmediates(0, i.shamt5, i.rs1, i.rd, a);
    WordComputes(i.op, a, b);
    ExecAlu(m, Encode(i), next, tohost, Op32Value(AluF7(i.op), AluF3(i.op), a, b).v);
  }

  lemma WordRegisterMeans(m: Machine, i: Inst, next: u64, tohost: Option<u64>)
    requires i.WordRegister? && Exists(i) && Conforms(i, m)
    ensures Means(i, m, next, tohost, Exec32(m, Encode(i), next, tohost))
  {
    hide Exec32, EncodeR, Goes, Opcode, Rd, F3, F7, Rs1, Rs2, Op32Value, ComputesWord, Divides;
    var a, b := m.hart.Get(i.rs1), m.hart.Get(i.rs2);
    FieldsR(AluF7(i.op), i.rs2, i.rs1, AluF3(i.op), i.rd, 0x3b);
    WordComputes(i.op, a, b);
    ExecAlu(m, Encode(i), next, tohost, Op32Value(AluF7(i.op), AluF3(i.op), a, b).v);
  }

  // ---------------------------------------------------------------- system instructions

  lemma {:induction false} TwoBits(n: nat, k: nat)
    ensures Bit(3 * Pow2(n), k) == (k == n || k == n + 1)
  {
    if n > 0 {
      assert 3 * Pow2(n) == 2 * (3 * Pow2(n - 1));
      if k > 0 {
        TwoBits(n - 1, k - 1);
      }
    } else if k > 1 {
      assert 3 * Pow2(0) == 3;
      assert Bit(3, k) == Bit(1, k - 1) == Bit(0, k - 2);
      ZeroBits(k - 2);
    }
  }

  lemma PreviousPrivilege()
    ensures 3 * Pow2(11) == 0x1800
  {
    assert Pow2(2) == 4;
    assert Pow2(5) == 2 * Pow2(4) == 4 * Pow2(3) == 32;
    assert Pow2(8) == 2 * Pow2(7) == 4 * Pow2(6) == 256;
    assert Pow2(11) == 2 * Pow2(10) == 4 * Pow2(9) == 2048;
  }

  lemma ReturnMeans(m: Machine, i: Inst, next: u64, tohost: Option<u64>)
    requires i.MRET?
    ensures Means(i, m, next, tohost, Exec32(m, Encode(i), next, tohost))
  {
    hide EncodeI, Opcode, Rd, F3, Rs1, CsrNum, ImmI, Bit, BitAnd, Pow2, Exec32, ShiftField, CsrImmediateF3;
    ExecMemory(m, Encode(i), next, tohost);
    FieldsI(0x302, i.rs1, 0, i.rd, 0x73);
    PreviousPrivilege();
    Pow2Of64();
    var status := m.hart.mstatus;
    forall k: nat | k < 64
      ensures Bit(BitAnd(status, Not64(0x1800)), k) == (Bit(status, k) && k != 11 && k != 12)
    {
      TwoBits(11, k);
      NotBits(0x1800, 64, k);
      LogicIsBitwise(status, Not64(0x1800), k);
    }
  }

  lemma CsrOperand(inst: bv32, a: u64)
    ensures F3(inst) <= 3 ==> CsrSource(inst, a) == a
    ensures F3(inst) >= 5 && Rs1(inst) < 16 ==> CsrSource(inst, a) == Rs1(inst) as nat
  {
  }

  lemma CsrNumber(csr: bv12)
    ensures csr as nat == 0x300 <==> csr == 0x300
    ensures csr as nat == 0x305 <==> csr == 0x305
    ensures csr as nat == 0x341 <==> csr == 0x341
    ensures csr as nat == 0x342 <==> csr == 0x342
  {
  }

  lemma CsrNames(h: Hart, csr: bv12)
    ensures CsrRead(h, csr) == CsrValue(h, csr as nat)
  {
    CsrNumber(csr);
  }

  /** The effect of a write, by CSR number. */
  ghost predicate CsrWritten(g: Hart, h: Hart, n: nat, v: u64) {
    && h.x == g.x && h.pc == g.pc && h.tohost == g.tohost
    && h.mstatus == (if n == 0x300 then v else g.mstatus)
    && h.mtvec == (if n == 0x305 then v - v % 4 else g.mtvec)
    && h.mepc == (if n == 0x341 then v else g.mepc)
    && h.mcause == (if n == 0x342 then v else g.mcause)
  }

  lemma CsrCases(h: Hart, v: u64)
    ensures CsrWritten(h, h.(mstatus := v), 0x300, v) && CsrWritten(h, h.(mtvec := v - v % 4), 0x305, v)
    ensures CsrWritten(h, h.(mepc := v), 0x341, v) && CsrWritten(h, h.(mcause := v), 0x342, v)
    ensures forall n: nat :: n !in {0x300, 0x305, 0x341, 0x342} ==> CsrWritten(h, h, n, v)
  {
  }

  /** Which CSR a number names when written. */
  lemma CsrNamed(h: Hart, csr: bv12, v: u64)
    ensures CsrWritten(h, CsrWrite(h, csr, v), csr as nat, v)
  {
    hide CsrWritten;
    CsrNumber(csr);
    CsrCases(h, v);
  }

  lemma CsrUpdates(op: CsrOp, f3: bv3, prior: u64, src: u64)
    requires f3 == CsrF3(op) || f3 == CsrImmediateF3(op)
    ensures Updates(op, prior, src, CsrNew(f3, prior, src))
  {
    hide Bit, CsrNew;
    forall k: nat | k < 64
      ensures Bit(CsrNew(f3, prior, src), k) == CsrBit(op, prior, src, k)
    {
      CsrOpsAreBitwise(prior, src, f3, k);
    }
  }

  lemma Placed(g: Hart, h: Hart, rd: bv5, v: u64, next: u64)
    requires g.x == h.x
    ensures var h' := g.Set(rd, v).At(next);
            Sets(h, h', rd, v) && SameCsrs(g, h') && h'.pc == next
  {
  }

  /** Exchanging a CSR, once the operand is known. */
  lemma CsrExchanges(m: Machine, inst: bv32, op: CsrOp, src: u64, next: u64)
    requires F3(inst) == CsrF3(op) || F3(inst) == CsrImmediateF3(op)
    requires CsrSource(inst, m.hart.Get(Rs1(inst))) == src
    ensures Exchanges(m, ExecCsr(m, inst, next), op, CsrNum(inst) as nat, Rd(inst), src, next)
  {
    hide Rd, F3, Rs1, CsrNum, CsrNew, CsrSource, CsrRead, CsrWrite, CsrValue, Updates, Sets, CsrF3;
    var csr := CsrNum(inst);
    var prior := CsrRead(m.hart, csr);
    var v := CsrNew(F3(inst), prior, src);
    CsrNames(m.hart, csr);
    CsrNamed(m.hart, csr, v);
    CsrUpdates(op, F3(inst), prior, src);
    Placed(CsrWrite(m.hart, csr, v), m.hart, Rd(inst), prior, next);
  }

  lemma CsrMeans(m: Machine, i: Inst, next: u64, tohost: Option<u64>)
    requires (i.CsrFrom? || i.CsrImmediate?) && Conforms(i, m)
    ensures Means(i, m, next, tohost, Exec32(m, Encode(i), next, tohost))
  {
    hide EncodeI, Opcode, Rd, F3, Rs1, CsrNum, ImmI, CsrSource, ExecCsr, Exchanges, Exec32;
    ExecMemory(m, Encode(i), next, tohost);
    var rs1 := if i.CsrFrom? then i.rs1 else i.field;
    var f3 := if i.CsrFrom? then CsrF3(i.csrOp) else CsrImmediateF3(i.csrOp);
    FieldsI(i.csr, rs1, f3, i.rd, 0x73);
    var inst := EncodeI(i.csr, rs1, f3, i.rd, 0x73);
    CsrOperand(inst, m.hart.Get(rs1));
    CsrExchanges(m, inst, i.csrOp, if i.CsrFrom? then m.hart.Get(i.rs1) else i.field as nat, next);
  }

  lemma PlainMeans(m: Machine, i: Inst, next: u64, tohost: Option<u64>)
    requires i.FENCE? || i.ECALL? || i.EBREAK?
    ensures Means(i, m, next, tohost, Exec32(m, Encode(i), next, tohost))
  {
    hide EncodeI, Goes, Opcode, Rd, F3, Rs1, CsrNum, ImmI, ShiftField, CsrImmediateF3;
    if i.FENCE? {
      FieldsI(i.ignored, i.rs1, if i.instructions then 1 else 0, i.rd, 0x0f);
      Retired(m, 0, 0, next);
    } else {
      FieldsI(if i.ECALL? then 0 else 1, i.rs1, 0, i.rd, 0x73);
    }
  }

  // ---------------------------------------------------------------- the theorem

  lemma ControlMeans(m: Machine, i: Inst, next: u64, tohost: Option<u64>)
    requires Exists(i)
    requires i.LUI? || i.AUIPC? || i.JAL? || i.JALR? || i.Branch? || i.LoadFrom? || i.StoreTo?
    ensures Means(i, m, next, tohost, Exec32(m, Encode(i), next, tohost))
  {
    hide Means, Exec32, Encode, Exists;
    match i {
      case LUI(_, _) => UpperMeans(m, i, next, tohost);
      case AUIPC(_, _) => UpperMeans(m, i, next, tohost);
      case JAL(_, _) => JalMeans(m, i, next, tohost);
      case JALR(_, _, _) => JalrMeans(m, i, next, tohost);
      case Branch(_, _, _, _) => BranchMeans(m, i, next, tohost);
      case LoadFrom(_, _, _, _) => LoadMeans(m, i, next, tohost);
      case StoreTo(_, _, _, _) => StoreMeans(m, i, next, tohost);
    }
  }

  lemma ArithmeticMeans(m: Machine, i: Inst, next: u64, tohost: Option<u64>)
    requires Exists(i) && Conforms(i, m)
    requires i.Immediate? || i.ShiftBy? || i.Register? || i.WordImmediate? || i.WordShiftBy? || i.WordRegister?
    ensures Means(i, m, next, tohost, Exec32(m, Encode(i), next, tohost))
  {
    hide Means, Exec32, Encode, Exists, Conforms;
    match i {
      case Immediate(_, _, _, _) => ImmediateMeans(m, i, next, tohost);
      case ShiftBy(_, _, _, _) => ShiftMeans(m, i, next, tohost);
      case Register(_, _, _, _) => RegisterMeans(m, i, next, tohost);
      case WordImmediate(_, _, _) => WordImmediateMeans(m, i, next, tohost);
      case WordShiftBy(_, _, _, _) => WordShiftMeans(m, i, next, tohost);
      case WordRegister(_, _, _, _) => WordRegisterMeans(m, i, next, tohost);
    }
  }

  /** Executing an encoded instruction does what the reference says, on every state and for every operand outside
      the two deviations. */
  lemma InstructionMeans(m: Machine, i: Inst, next: u64, tohost: Option<u64>)
    requires Exists(i) && Conforms(i, m)
    ensures Means(i, m, next, tohost, Exec32(m, Encode(i), next, tohost))
  {
    hide Means, Exec32, Encode, Exists, Conforms;
    if i.FENCE? || i.ECALL? || i.EBREAK? {
      PlainMeans(m, i, next, tohost);
    } else if i.MRET? {
      ReturnMeans(m, i, next, tohost);
    } else if i.CsrFrom? || i.CsrImmediate? {
      CsrMeans(m, i, next, tohost);
    } else if i.LUI? || i.AUIPC? || i.JAL? || i.JALR? || i.Branch? || i.LoadFrom? || i.StoreTo? {
      ControlMeans(m, i, next, tohost);
    } else {
      ArithmeticMeans(m, i, next, tohost);
    }
  }

  lemma EncodedIsWide(i: Inst)
    ensures Encode(i) & 0x3 == 0x3
  {
  }

  function LowHalf(w: bv32): bv16 { (w & 0xffff) as bv16 }
  function HighHalf(w: bv32): bv16 { (w >> 16) as bv16 }

  /** A word is its two halves put together again. */
  lemma Joined(w: bv32)
    ensures w == ((HighHalf(w) as bv32) << 16) | (LowHalf(w) as bv32)
    ensures w & 0x3 == 0x3 ==> LowHalf(w) & 0x3 == 0x3
  {
  }

  lemma HalvesValue(lo: bv16, hi: bv16)
    ensures (((hi as bv32) << 16) | (lo as bv32)) as nat == lo as nat + 0x1_0000 * (hi as nat)
  {
  }

  lemma HalvesFetched(pages: PageMap, pc: u64, lo: bv16, hi: bv16)
    requires pc + 4 <= 0x1_0000_0000 && Flat(pages, pc, 4) == lo as nat + 0x1_0000 * (hi as nat)
    ensures Fetch16(pages, pc) == Some(lo) && Fetch16(pages, pc + 2) == Some(hi)
  {
    hide Fetch16, ByteAt, Flat;
    FlatOfFour(pages, pc);
    SplitHalves(Flat(pages, pc, 2), Flat(pages, pc + 2, 2), lo as nat, hi as nat);
    FetchBytes(pages, pc, lo);
    FetchBytes(pages, pc + 2, hi);
  }

  lemma WordFetched(pages: PageMap, pc: u64, w: bv32)
    requires pc + 4 <= 0x1_0000_0000 && Flat(pages, pc, 4) == w as nat
    ensures Fetch16(pages, pc) == Some(LowHalf(w)) && Fetch16(pages, pc + 2) == Some(HighHalf(w))
  {
    hide Fetch16, Flat, LowHalf, HighHalf;
    Joined(w);
    HalvesValue(LowHalf(w), HighHalf(w));
    HalvesFetched(pages, pc, LowHalf(w), HighHalf(w));
  }

  lemma FlatOfFour(pages: PageMap, a: nat)
    ensures Flat(pages, a, 2) == ByteAt(pages, a) + 256 * ByteAt(pages, a + 1)
    ensures Flat(pages, a + 2, 2) == ByteAt(pages, a + 2) + 256 * ByteAt(pages, a + 3)
    ensures Flat(pages, a, 4) == Flat(pages, a, 2) + 0x1_0000 * Flat(pages, a + 2, 2)
  {
    hide ByteAt;
    assert Flat(pages, a + 1, 1) == ByteAt(pages, a + 1);
    assert Flat(pages, a + 3, 1) == ByteAt(pages, a + 3);
    assert Flat(pages, a + 1, 3) == ByteAt(pages, a + 1) + 256 * Flat(pages, a + 2, 2);
  }

  lemma SplitHalves(a: nat, b: nat, c: nat, d: nat)
    requires a < 0x1_0000 && c < 0x1_0000 && a + 0x1_0000 * b == c + 0x1_0000 * d
    ensures a == c && b == d
  {
  }

  /** A step on the four bytes of an encoded instruction, wherever they lie. */
  lemma StepMeans(m: Machine, i: Inst, tohost: Option<u64>)
    requires Exists(i) && Conforms(i, m)
    requires m.hart.pc % 2 == 0 && m.hart.pc + 4 <= 0x1_0000_0000 && Flat(m.pages, m.hart.pc, 4) == Encode(i) as nat
    ensures Means(i, m, m.hart.pc + 4, tohost, Isa.Step(m, tohost))
  {
    hide Means, Encode, Exec32, Fetch16, Flat, Exists, Conforms, Isa.Step, LowHalf, HighHalf;
    var w := Encode(i);
    WordFetched(m.pages, m.hart.pc, w);
    EncodedIsWide(i);
    Joined(w);
    StepIs32(m, LowHalf(w), HighHalf(w), tohost);
    InstructionMeans(m, i, m.hart.pc + 4, tohost);
  }

  /** Calling and returning: `jal rd` and, at its target, `jalr x0, 0(rd)` lead to the instruction after the call
      with the return address in rd and nothing else changed. */
  lemma CallReturns(m: Machine, rd: bv5, half: bv20)
    requires rd != 0 && m.hart.pc % 2 == 0 && m.hart.pc + 4 <= 0x1_0000_0000
    requires Flat(m.pages, m.hart.pc, 4) == Encode(JAL(rd, half)) as nat
    requires var target := m.hart.pc + 2 * Int20(half);
             0 <= target <= 0xffff_fffc && Flat(m.pages, target, 4) == Encode(JALR(0, rd, 0)) as nat
    ensures var called := Isa.Step(m, None);
            && called.out == Ok(false)
            && called.m.hart.pc == m.hart.pc + 2 * Int20(half)
            && Isa.Step(called.m, None) == Stepped(Ok(false),
                 m.(hart := m.hart.(x := m.hart.x[rd as nat := m.hart.pc + 4], pc := m.hart.pc + 4)))
  {
    hide Encode, Isa.Step, Flat, Int20;
    StepMeans(m, JAL(rd, half), None);
    var called := Isa.Step(m, None).m;
    assert called.hart.x == m.hart.x[rd as nat := m.hart.pc + 4];
    assert Int12(0) == 0;
    StepMeans(called, JALR(0, rd, 0), None);
    var back := Isa.Step(called, None).m;
    assert back.hart.x == called.hart.x;
  }

  // ---------------------------------------------------------------- nothing else executes

  /** The word encodes some instruction of the reference. */
  ghost predicate Legal(w: bv32) {
    exists i :: Exists(i) && Encode(i) == w
  }

  lemma RebuiltI(w: bv32)
    ensures w == EncodeI(CsrNum(w), Rs1(w), F3(w), Rd(w), Opcode(w))
  {
  }

  lemma RebuiltR(w: bv32)
    ensures w == EncodeR(F7(w), Rs2(w), Rs1(w), F3(w), Rd(w), Opcode(w))
  {
  }

  lemma RebuiltS(w: bv32) returns (imm: bv12)
    ensures w == EncodeS(imm, Rs2(w), Rs1(w), F3(w), Opcode(w))
  {
    imm := ((F7(w) as bv12) << 5) | (Rd(w) as bv12);
  }

  lemma RebuiltB(w: bv32) returns (half: bv12)
    ensures w == EncodeB(half, Rs2(w), Rs1(w), F3(w), Opcode(w))
  {
    half := ((((w >> 31) & 1) as bv12) << 11) | ((((w >> 7) & 1) as bv12) << 10)
          | ((((w >> 25) & 0x3f) as bv12) << 4) | (((w >> 8) & 0xf) as bv12);
  }

  lemma RebuiltU(w: bv32)
    ensures w == EncodeU((w >> 12) as bv20, Rd(w), Opcode(w))
  {
  }

  lemma RebuiltJ(w: bv32) returns (half: bv20)
    ensures w == EncodeJ(half, Rd(w), Opcode(w))
  {
    half := ((((w >> 31) & 1) as bv20) << 19) | ((((w >> 12) & 0xff) as bv20) << 11)
          | ((((w >> 20) & 1) as bv20) << 10) | (((w >> 21) & 0x3ff) as bv20);
  }

  /** The immediate of a shift word. */
  lemma ShiftFieldOf(w: bv32)
    ensures F6(w) == 0 ==> CsrNum(w) == ShiftField(SLL, Shamt6(w)) == ShiftField(SRL, Shamt6(w))
    ensures F6(w) == 0x10 ==> CsrNum(w) == ShiftField(SRA, Shamt6(w))
  {
  }

  /** The field tests the interpreter makes. */
  predicate Accepts(w: bv32) {
    var f3, f7 := F3(w), F7(w);
    match Opcode(w)
    case 0x37 => true
    case 0x17 => true
    case 0x6f => true
    case 0x67 => f3 == 0
    case 0x63 => f3 != 2 && f3 != 3
    case 0x03 => f3 != 7
    case 0x23 => f3 <= 3
    case 0x13 => if f3 == 1 then F6(w) == 0 else f3 == 5 ==> F6(w) == 0 || F6(w) == 0x10
    case 0x1b => f3 == 0 || (f3 == 1 && f7 == 0) || (f3 == 5 && (f7 == 0 || f7 == 0x20))
    case 0x33 => f7 == 0 || f7 == 1 || (f7 == 0x20 && (f3 == 0 || f3 == 5))
    case 0x3b =>
      || (f7 == 0 && (f3 == 0 || f3 == 1 || f3 == 5))
      || (f7 == 0x20 && (f3 == 0 || f3 == 5))
      || (f7 == 1 && (f3 == 0 || f3 >= 4))
    case 0x0f => f3 <= 1
    case 0x73 => if f3 == 0 then CsrNum(w) == 0 || CsrNum(w) == 1 || CsrNum(w) == 0x302 else f3 != 4
    case _ => false
  }

  lemma AcceptsIff(m: Machine, w: bv32, next: u64, tohost: Option<u64>)
    ensures Exec32(m, w, next, tohost).out == Err(IllegalInstruction(m.hart.pc, w)) <==> !Accepts(w)
    ensures !Accepts(w) ==> Exec32(m, w, next, tohost).m == m
  {
    hide Opcode, Rd, F3, F6, F7, Rs1, Rs2, CsrNum, ImmI, ImmS, ImmB, ImmU, ImmJ, Offset, Wrap, Sext32, Shl, Shr, Sra,
         Mul, Mulh, Mulhsu, Mulhu, Div, Divu, Rem, Remu, Mulw, Divw, Remw, Pow2, Low32, Signed32, Signed, Or64, Xor64,
         BitAnd, Extend, Latch, CsrRead, CsrWrite, CsrNew, CsrSource;
  }

  lemma LegalUpper(w: bv32)
    requires Opcode(w) == 0x37 || Opcode(w) == 0x17 || Opcode(w) == 0x6f
    ensures Legal(w)
  {
    hide EncodeU, EncodeJ, Opcode, Rd;
    if Opcode(w) == 0x6f {
      var half := RebuiltJ(w);
      assert Encode(JAL(Rd(w), half)) == w;
    } else {
      RebuiltU(w);
      assert Encode(if Opcode(w) == 0x37 then LUI(Rd(w), (w >> 12) as bv20) else AUIPC(Rd(w), (w >> 12) as bv20)) == w;
    }
  }

  function CondOf(f3: bv3): Cond {
    if f3 == 0 then BEQ else if f3 == 1 then BNE else if f3 == 4 then BLT
    else if f3 == 5 then BGE else if f3 == 6 then BLTU else BGEU
  }

  function AccessOf(f3: bv3): Access {
    if f3 == 0 then LB else if f3 == 1 then LH else if f3 == 2 then LW else if f3 == 3 then LD
    else if f3 == 4 then LBU else if f3 == 5 then LHU else LWU
  }

  function AluOf(f7: bv7, f3: bv3): Alu {
    if f7 == 1 then
      if f3 == 0 then MUL else if f3 == 1 then MULH else if f3 == 2 then MULHSU else if f3 == 3 then MULHU
      else if f3 == 4 then DIV else if f3 == 5 then DIVU else if f3 == 6 then REM else REMU
    else if f3 == 0 then if f7 == 0 then ADD else SUB
    else if f3 == 1 then SLL
    else if f3 == 2 then SLT
    else if f3 == 3 then SLTU
    else if f3 == 4 then XOR
    else if f3 == 5 then if f7 == 0 then SRL else SRA
    else if f3 == 6 then OR
    else AND
  }

  lemma AluOfIs(f7: bv7, f3: bv3)
    requires f7 == 0 || f7 == 1 || (f7 == 0x20 && (f3 == 0 || f3 == 5))
    ensures AluF7(AluOf(f7, f3)) == f7 && AluF3(AluOf(f7, f3)) == f3
  {
  }

  lemma LegalJumps(w: bv32)
    requires Accepts(w) && (Opcode(w) == 0x67 || Opcode(w) == 0x63 || Opcode(w) == 0x03 || Opcode(w) == 0x23)
    ensures Legal(w)
  {
    hide EncodeI, EncodeB, EncodeS, Opcode, Rd, F3, F6, F7, Rs1, Rs2, CsrNum, ShiftField, CsrImmediateF3;
    if Opcode(w) == 0x63 {
      var half := RebuiltB(w);
      assert Encode(Branch(CondOf(F3(w)), Rs1(w), Rs2(w), half)) == w;
    } else if Opcode(w) == 0x23 {
      var imm := RebuiltS(w);
      assert Encode(StoreTo(AccessOf(F3(w)), Rs2(w), Rs1(w), imm)) == w;
    } else {
      RebuiltI(w);
      assert Encode(if Opcode(w) == 0x67 then JALR(Rd(w), Rs1(w), CsrNum(w))
                    else LoadFrom(AccessOf(F3(w)), Rd(w), Rs1(w), CsrNum(w))) == w;
    }
  }

  lemma LegalImmediates(w: bv32)
    requires Accepts(w) && Opcode(w) == 0x13
    ensures Legal(w)
  {
    hide EncodeI, Opcode, Rd, F3, F6, F7, Rs1, Rs2, CsrNum, Shamt6, ShiftField;
    var f3 := F3(w);
    RebuiltI(w);
    if f3 == 1 || f3 == 5 {
      ShiftFieldOf(w);
      var i := ShiftBy(if f3 == 1 then SLL else if F6(w) == 0 then SRL else SRA, Rd(w), Rs1(w), Shamt6(w));
      assert Encode(i) == w;
    } else {
      AluOfIs(0, f3);
      assert Encode(Immediate(AluOf(0, f3), Rd(w), Rs1(w), CsrNum(w))) == w;
    }
  }

  lemma LegalRegisters(w: bv32)
    requires Accepts(w) && (Opcode(w) == 0x33 || Opcode(w) == 0x3b || Opcode(w) == 0x1b)
    ensures Legal(w)
  {
    hide EncodeI, EncodeR, Opcode, Rd, F3, F6, F7, Rs1, Rs2, CsrNum, ShiftField, CsrImmediateF3;
    var f3, f7 := F3(w), F7(w);
    if Opcode(w) == 0x1b && f3 == 0 {
      RebuiltI(w);
      assert Encode(WordImmediate(Rd(w), Rs1(w), CsrNum(w))) == w;
    } else {
      RebuiltR(w);
      AluOfIs(f7, f3);
      var op := AluOf(f7, f3);
      assert Encode(if Opcode(w) == 0x33 then Register(op, Rd(w), Rs1(w), Rs2(w))
                    else if Opcode(w) == 0x3b then WordRegister(op, Rd(w), Rs1(w), Rs2(w))
                    else WordShiftBy(op, Rd(w), Rs1(w), Rs2(w))) == w;
    }
  }

  lemma LegalSystem(w: bv32)
    requires Accepts(w) && (Opcode(w) == 0x0f || (Opcode(w) == 0x73 && F3(w) == 0))
    ensures Legal(w)
  {
    hide EncodeI, Opcode, Rd, F3, F6, F7, Rs1, Rs2, CsrNum, ShiftField, CsrImmediateF3;
    RebuiltI(w);
    var f3, csr, rs1, rd := F3(w), CsrNum(w), Rs1(w), Rd(w);
    assert Encode(if Opcode(w) == 0x0f then FENCE(f3 == 1, csr, rs1, rd)
                  else if csr == 0 then ECALL(rs1, rd)
                  else if csr == 1 then EBREAK(rs1, rd)
                  else MRET(rs1, rd)) == w;
  }

  function CsrOf(f3: bv3): CsrOp { if f3 & 3 == 1 then CSRRW else if f3 & 3 == 2 then CSRRS else CSRRC }

  lemma CsrOfIs(f3: bv3)
    requires f3 != 0 && f3 != 4
    ensures f3 == if f3 > 4 then CsrImmediateF3(CsrOf(f3)) else CsrF3(CsrOf(f3))
  {
  }

  lemma LegalCsrs(w: bv32)
    requires Opcode(w) == 0x73 && F3(w) != 0 && F3(w) != 4
    ensures Legal(w)
  {
    hide EncodeI, Opcode, Rd, F3, F6, F7, Rs1, Rs2, CsrNum, CsrOf, CsrF3, ShiftField, CsrImmediateF3;
    RebuiltI(w);
    CsrOfIs(F3(w));
    var op, csr, rs1, rd := CsrOf(F3(w)), CsrNum(w), Rs1(w), Rd(w);
    assert Encode(if F3(w) > 4 then CsrImmediate(op, csr, rd, rs1) else CsrFrom(op, csr, rd, rs1)) == w;
  }

  lemma JumpsAccepted(i: Inst)
    requires Exists(i)
    requires i.LUI? || i.AUIPC? || i.JAL? || i.JALR? || i.Branch? || i.LoadFrom? || i.StoreTo?
    ensures Accepts(Encode(i))
  {
    hide EncodeI, EncodeS, EncodeB, EncodeU, EncodeJ, Opcode, Rd, F3, F6, F7, Rs1, Rs2, CsrNum, ImmI, ImmS, ImmB, ImmU,
         ImmJ, Shamt6, ShiftField, CsrImmediateF3;
    match i {
      case LUI(rd, upper) => ImmediatesRoundTrip(0, upper, 0, 0, 0, rd, 0x37);
      case AUIPC(rd, upper) => ImmediatesRoundTrip(0, upper, 0, 0, 0, rd, 0x17);
      case JAL(rd, half) => ImmediatesRoundTrip(0, half, 0, 0, 0, rd, 0x6f);
      case JALR(rd, rs1, imm) => FieldsI(imm, rs1, 0, rd, 0x67);
      case Branch(c, rs1, rs2, half) => FieldsB(half, rs2, rs1, CondF3(c), 0x63);
      case LoadFrom(access, rd, rs1, imm) => FieldsI(imm, rs1, AccessF3(access), rd, 0x03);
      case StoreTo(access, rs2, rs1, imm) => FieldsS(imm, rs2, rs1, AccessF3(access), 0x23);
    }
  }

  lemma ShiftFieldIs(op: Alu, sh: bv6)
    ensures (ShiftField(op, sh) >> 6) as bv6 == if op == SRA then 0x10 else 0
  {
  }

  lemma ShiftAccepted(op: Alu, rd: bv5, rs1: bv5, sh: bv6)
    requires op in {SLL, SRL, SRA}
    ensures Accepts(Encode(ShiftBy(op, rd, rs1, sh)))
  {
    hide EncodeI, Opcode, Rd, F3, F6, F7, Rs1, Rs2, CsrNum, ImmI, Shamt6, ShiftField;
    FieldsI(ShiftField(op, sh), rs1, AluF3(op), rd, 0x13);
    ShiftFieldIs(op, sh);
  }

  lemma ArithmeticAccepted(i: Inst)
    requires Exists(i)
    requires i.Immediate? || i.Register? || i.WordImmediate? || i.WordShiftBy? || i.WordRegister?
    ensures Accepts(Encode(i))
  {
    hide EncodeI, EncodeR, Opcode, Rd, F3, F6, F7, Rs1, Rs2, CsrNum, ImmI, Shamt6, ShiftField, CsrImmediateF3;
    match i {
      case Immediate(op, rd, rs1, imm) => FieldsI(imm, rs1, AluF3(op), rd, 0x13);
      case Register(op, rd, rs1, rs2) => FieldsR(AluF7(op), rs2, rs1, AluF3(op), rd, 0x33);
      case WordImmediate(rd, rs1, imm) => FieldsI(imm, rs1, 0, rd, 0x1b);
      case WordShiftBy(op, rd, rs1, sh) => FieldsR(AluF7(op), sh, rs1, AluF3(op), rd, 0x1b);
      case WordRegister(op, rd, rs1, rs2) => FieldsR(AluF7(op), rs2, rs1, AluF3(op), rd, 0x3b);
    }
  }

  lemma SystemAccepted(i: Inst)
    requires i.FENCE? || i.ECALL? || i.EBREAK? || i.MRET? || i.CsrFrom? || i.CsrImmediate?
    ensures Accepts(Encode(i))
  {
    hide EncodeI, Opcode, Rd, F3, F6, F7, Rs1, Rs2, CsrNum, ImmI, Shamt6;
    match i {
      case FENCE(instructions, ignored, rs1, rd) =>
        FieldsI(ignored, rs1, if instructions then 1 else 0, rd, 0x0f);
      case ECALL(rs1, rd) => FieldsI(0, rs1, 0, rd, 0x73);
      case EBREAK(rs1, rd) => FieldsI(1, rs1, 0, rd, 0x73);
      case MRET(rs1, rd) => FieldsI(0x302, rs1, 0, rd, 0x73);
      case CsrFrom(op, csr, rd, rs1) => FieldsI(csr, rs1, CsrF3(op), rd, 0x73);
      case CsrImmediate(op, csr, rd, field) => FieldsI(csr, field, CsrImmediateF3(op), rd, 0x73);
    }
  }

  lemma EncodedIsAccepted(i: Inst)
    requires Exists(i)
    ensures Accepts(Encode(i))
  {
    hide Accepts, Encode;
    if i.ShiftBy? {
      ShiftAccepted(i.op, i.rd, i.rs1, i.shamt);
    } else if i.Immediate? || i.Register? || i.WordImmediate? || i.WordShiftBy? || i.WordRegister? {
      ArithmeticAccepted(i);
    } else if i.FENCE? || i.ECALL? || i.EBREAK? || i.MRET? || i.CsrFrom? || i.CsrImmediate? {
      SystemAccepted(i);
    } else {
      JumpsAccepted(i);
    }
  }

  lemma LegalIff(w: bv32)
    ensures Legal(w) <==> Accepts(w)
  {
    if Accepts(w) {
      hide Legal;
      if Opcode(w) in {0x37, 0x17, 0x6f} {
        LegalUpper(w);
      } else if Opcode(w) in {0x67, 0x63, 0x03, 0x23} {
        LegalJumps(w);
      } else if Opcode(w) == 0x13 {
        LegalImmediates(w);
      } else if Opcode(w) in {0x33, 0x3b, 0x1b} {
        LegalRegisters(w);
      } else if Opcode(w) == 0x73 && F3(w) != 0 {
        LegalCsrs(w);
      } else {
        LegalSystem(w);
      }
    }
    if i :| Exists(i) && Encode(i) == w {
      EncodedIsAccepted(i);
    }
  }

  /** Of all 2^32 words exactly those that encode no instruction are rejected, and rejection changes nothing. */
  lemma RejectedIff(m: Machine, w: bv32, next: u64, tohost: Option<u64>)
    ensures Exec32(m, w, next, tohost).out == Err(IllegalInstruction(m.hart.pc, w)) <==> !Legal(w)
    ensures !Legal(w) ==> Exec32(m, w, next, tohost).m == m
  {
    hide Exec32, Legal, Accepts;
    AcceptsIff(m, w, next, tohost);
    LegalIff(w);
  }

  // ---------------------------------------------------------------- fetching

  lemma {:induction false} HalfFetched(pages: PageMap, pc: u64, hw: bv16)
    requires pc + 2 <= 0x1_0000_0000 && Flat(pages, pc, 2) == hw as nat
    ensures Fetch16(pages, pc) == Some(hw)
  {
    hide Fetch16, ByteAt;
    FlatOfFour(pages, pc);
    FetchBytes(pages, pc, hw);
  }

  /** Every step: a pc past the address space or an odd one faults, the two bytes at an even pc are executed as they
      are unless their low bits are both set, and then the four bytes are, unless they leave the address space. */
  lemma StepFetches(m: Machine, tohost: Option<u64>, hw: bv16, w: bv32)
    requires m.hart.pc % 2 == 0 && m.hart.pc < 0x1_0000_0000 ==> Flat(m.pages, m.hart.pc, 2) == hw as nat
    requires m.hart.pc + 4 <= 0x1_0000_0000 ==> Flat(m.pages, m.hart.pc, 4) == w as nat
    ensures var (pc, s) := (m.hart.pc, Isa.Step(m, tohost));
            && (pc >= 0x1_0000_0000 ==> s == Stepped(Err(FetchOutOfRange), m))
            && (pc < 0x1_0000_0000 && pc % 2 == 1 ==> s == Stepped(Err(FetchUnaligned), m))
            && (pc < 0x1_0000_0000 && pc % 2 == 0 ==>
                  && (hw & 3 != 3 ==> s == Exec16(m, hw))
                  && (hw & 3 == 3 && pc + 4 > 0x1_0000_0000 ==> s == Stepped(Err(FetchOutOfRange), m))
                  && (hw & 3 == 3 && pc + 4 <= 0x1_0000_0000 ==> s == Exec32(m, w, pc + 4, tohost)))
  {
    hide Exec16, Exec32, Fetch16, Flat, LowHalf, HighHalf;
    var pc := m.hart.pc;
    if pc < 0x1_0000_0000 && pc % 2 == 0 {
      HalfFetched(m.pages, pc, hw);
      if pc + 4 <= 0x1_0000_0000 {
        WordFetched(m.pages, pc, w);
        Joined(w);
      } else {
        NoFetch(m.pages, pc + 2);
      }
    }
  }

  lemma NoFetch(pages: PageMap, a: u64)
    requires a + 2 > 0x1_0000_0000
    ensures Fetch16(pages, a) == None
  {
  }
}
