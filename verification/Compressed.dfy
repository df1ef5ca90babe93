/** Compressed instructions mean their 32-bit expansions.

    `Meaning` is the RV64 column of the tables of chapter 16 of the RISC-V Unprivileged ISA
    (20191213), written bit by bit and independently of the shift-and-mask decoder in
    `Isa.Exec16`. The machine follows it except on two families of halfwords: `TrapsHint`, hints
    it rejects, and `RunsReserved`, reserved encodings it runs as no-ops. */
module Compressed {
  import opened Words
  import opened Bits
  import opened Pages
  import opened Isa

  /** Bit i of the halfword, placed at bit j of a 12-bit immediate. */
  function B(hw: bv16, i: bv4, j: bv4): bv12
    requires j < 12
  {
    (((hw >> i) & 1) as bv12) << j
  }

  function EncodeR(f7: bv7, rs2: bv5, rs1: bv5, f3: bv3, rd: bv5, op: bv7): bv32 {
    ((f7 as bv32) << 25) | ((rs2 as bv32) << 20) | ((rs1 as bv32) << 15) | ((f3 as bv32) << 12)
    | ((rd as bv32) << 7) | (op as bv32)
  }

  function EncodeI(imm: bv12, rs1: bv5, f3: bv3, rd: bv5, op: bv7): bv32 {
    ((imm as bv32) << 20) | ((rs1 as bv32) << 15) | ((f3 as bv32) << 12) | ((rd as bv32) << 7) | (op as bv32)
  }

  function EncodeS(imm: bv12, rs2: bv5, rs1: bv5, f3: bv3, op: bv7): bv32 {
    (((imm >> 5) as bv32) << 25) | ((rs2 as bv32) << 20) | ((rs1 as bv32) << 15) | ((f3 as bv32) << 12)
    | (((imm & 0x1f) as bv32) << 7) | (op as bv32)
  }

  /** The offset is given without its zero bit: bits 12..1. */
  function EncodeB(offset: bv12, rs2: bv5, rs1: bv5, f3: bv3, op: bv7): bv32 {
    (((offset >> 11) as bv32) << 31) | ((((offset >> 4) & 0x3f) as bv32) << 25) | ((rs2 as bv32) << 20)
    | ((rs1 as bv32) << 15) | ((f3 as bv32) << 12) | (((offset & 0xf) as bv32) << 8)
    | ((((offset >> 10) & 1) as bv32) << 7) | (op as bv32)
  }

  function EncodeU(imm: bv20, rd: bv5, op: bv7): bv32 {
    ((imm as bv32) << 12) | ((rd as bv32) << 7) | (op as bv32)
  }

  /** The offset is given without its zero bit: bits 20..1. */
  function EncodeJ(offset: bv20, rd: bv5, op: bv7): bv32 {
    (((offset >> 19) as bv32) << 31) | (((offset & 0x3ff) as bv32) << 21) | ((((offset >> 10) & 1) as bv32) << 20)
    | ((((offset >> 11) & 0xff) as bv32) << 12) | ((rd as bv32) << 7) | (op as bv32)
  }

  /** Registers x8..x15 from bits 4..2 and from bits 9..7. */
  function RegLow(hw: bv16): bv5 { 0x8 | (((hw >> 2) & 0x7) as bv5) }
  function RegHigh(hw: bv16): bv5 { 0x8 | (((hw >> 7) & 0x7) as bv5) }
  function RegFull(hw: bv16): bv5 { ((hw >> 7) & 0x1f) as bv5 }
  function RegTwo(hw: bv16): bv5 { ((hw >> 2) & 0x1f) as bv5 }

  /** imm[11:5 sign | 4:0] of the six-bit immediates. */
  function NzImm(hw: bv16): bv12 {
    (if B(hw, 12, 0) == 1 then 0xfe0 else 0)
    | B(hw, 6, 4) | B(hw, 5, 3) | B(hw, 4, 2) | B(hw, 3, 1) | B(hw, 2, 0)
  }

  function ShiftAmount(hw: bv16): bv12 {
    B(hw, 12, 5) | B(hw, 6, 4) | B(hw, 5, 3) | B(hw, 4, 2) | B(hw, 3, 1) | B(hw, 2, 0)
  }

  /** uimm[5:3|2|6] of c.lw and c.sw. */
  function OffsetW(hw: bv16): bv12 {
    B(hw, 12, 5) | B(hw, 11, 4) | B(hw, 10, 3) | B(hw, 6, 2) | B(hw, 5, 6)
  }

  /** uimm[5:3|7:6] of c.ld and c.sd. */
  function OffsetD(hw: bv16): bv12 {
    B(hw, 12, 5) | B(hw, 11, 4) | B(hw, 10, 3) | B(hw, 6, 7) | B(hw, 5, 6)
  }

  /** nzuimm[5:4|9:6|2|3] of c.addi4spn. */
  function Offset4spn(hw: bv16): bv12 {
    B(hw, 12, 5) | B(hw, 11, 4) | B(hw, 10, 9) | B(hw, 9, 8) | B(hw, 8, 7) | B(hw, 7, 6) | B(hw, 6, 2) | B(hw, 5, 3)
  }

  /** What the chapter says of a halfword: an instruction and its 32-bit expansion, a hint (an
      expansion without effect), an encoding it reserves, or one of the floating-point extensions. */
  datatype Listed = Expands(inst: bv32) | Hint(inst: bv32) | Reserved | FloatingPoint

  function HintIf(hint: bool, inst: bv32): Listed { if hint then Hint(inst) else Expands(inst) }
  function ReservedIf(reserved: bool, inst: bv32): Listed { if reserved then Listed.Reserved else Expands(inst) }

  function MeaningQ0(hw: bv16): Listed {
    match CF3(hw)
    case 0 =>                                                                           // addi rd', x2, uimm
      ReservedIf(Offset4spn(hw) == 0, EncodeI(Offset4spn(hw), 2, 0, RegLow(hw), 0x13))
    case 1 => FloatingPoint                                                             // c.fld
    case 2 => Expands(EncodeI(OffsetW(hw), RegHigh(hw), 2, RegLow(hw), 0x03))           // lw rd', uimm(rs1')
    case 3 => Expands(EncodeI(OffsetD(hw), RegHigh(hw), 3, RegLow(hw), 0x03))           // ld rd', uimm(rs1')
    case 4 => Listed.Reserved
    case 5 => FloatingPoint                                                             // c.fsd
    case 6 => Expands(EncodeS(OffsetW(hw), RegLow(hw), RegHigh(hw), 2, 0x23))           // sw rs2', uimm(rs1')
    case _ => Expands(EncodeS(OffsetD(hw), RegLow(hw), RegHigh(hw), 3, 0x23))           // sd rs2', uimm(rs1')
  }

  /** A shift by zero is C.SRLI64 or C.SRAI64 of RV128, a hint on RV64. */
  function MeaningArith(hw: bv16): Listed {
    var rd, rs2 := RegHigh(hw), RegLow(hw);
    var kind := B(hw, 11, 1) | B(hw, 10, 0);
    var sub := B(hw, 12, 2) | B(hw, 6, 1) | B(hw, 5, 0);
    if kind == 0 then                                                                   // srli rd', rd', shamt
      HintIf(ShiftAmount(hw) == 0, EncodeI(ShiftAmount(hw), rd, 5, rd, 0x13))
    else if kind == 1 then                                                              // srai rd', rd', shamt
      HintIf(ShiftAmount(hw) == 0, EncodeI(0x400 | ShiftAmount(hw), rd, 5, rd, 0x13))
    else if kind == 2 then Expands(EncodeI(NzImm(hw), rd, 7, rd, 0x13))                 // andi rd', rd', imm
    else if sub == 0 then Expands(EncodeR(0x20, rs2, rd, 0, rd, 0x33))                  // sub
    else if sub == 1 then Expands(EncodeR(0, rs2, rd, 4, rd, 0x33))                     // xor
    else if sub == 2 then Expands(EncodeR(0, rs2, rd, 6, rd, 0x33))                     // or
    else if sub == 3 then Expands(EncodeR(0, rs2, rd, 7, rd, 0x33))                     // and
    else if sub == 4 then Expands(EncodeR(0x20, rs2, rd, 0, rd, 0x3b))                  // subw
    else if sub == 5 then Expands(EncodeR(0, rs2, rd, 0, rd, 0x3b))                     // addw
    else Listed.Reserved
  }

  /** nzimm[9|4|6|8:7|5] of c.addi16sp, sign-extended to 12 bits. */
  function ImmSp(hw: bv16): bv12 {
    (if B(hw, 12, 0) == 1 then 0xe00 else 0)
    | B(hw, 6, 4) | B(hw, 5, 6) | B(hw, 4, 8) | B(hw, 3, 7) | B(hw, 2, 5)
  }

  /** nzimm[17|16:12] of c.lui as imm[31:12], sign-extended to 20 bits. */
  function ImmUpper(hw: bv16): bv20 {
    (if B(hw, 12, 0) == 1 then 0xf_ffe0 else 0)
    | ((B(hw, 6, 4) | B(hw, 5, 3) | B(hw, 4, 2) | B(hw, 3, 1) | B(hw, 2, 0)) as bv20)
  }

  /** offset[11|4|9:8|10|6|7|3:1|5] of c.j, sign-extended to bits 20..1. */
  function OffsetJ(hw: bv16): bv20 {
    (if B(hw, 12, 0) == 1 then 0xf_fc00 else 0)
    | ((B(hw, 11, 3) | B(hw, 10, 8) | B(hw, 9, 7) | B(hw, 8, 9) | B(hw, 7, 5) | B(hw, 6, 6)
        | B(hw, 5, 2) | B(hw, 4, 1) | B(hw, 3, 0) | B(hw, 2, 4)) as bv20)
  }

  /** offset[8|4:3|7:6|2:1|5] of c.beqz and c.bnez, sign-extended to bits 12..1. */
  function OffsetB(hw: bv16): bv12 {
    (if B(hw, 12, 0) == 1 then 0xf80 else 0)
    | B(hw, 11, 3) | B(hw, 10, 2) | B(hw, 6, 6) | B(hw, 5, 5) | B(hw, 4, 1) | B(hw, 3, 0) | B(hw, 2, 4)
  }

  /** c.nop is addi x0, x0, 0; with another immediate, or a zero one on another register, a hint. */
  function MeaningQ1(hw: bv16): Listed {
    var rd := RegFull(hw);
    match CF3(hw)
    case 0 => HintIf((rd == 0) != (NzImm(hw) == 0), EncodeI(NzImm(hw), rd, 0, rd, 0x13)) // addi rd, rd, imm
    case 1 => ReservedIf(rd == 0, EncodeI(NzImm(hw), rd, 0, rd, 0x1b))                  // addiw rd, rd, imm
    case 2 => HintIf(rd == 0, EncodeI(NzImm(hw), 0, 0, rd, 0x13))                       // addi rd, x0, imm
    case 3 =>
      if rd == 2 then ReservedIf(ImmSp(hw) == 0, EncodeI(ImmSp(hw), 2, 0, 2, 0x13))     // addi x2, x2, imm
      else if ImmUpper(hw) == 0 then Listed.Reserved
      else HintIf(rd == 0, EncodeU(ImmUpper(hw), rd, 0x37))                             // lui rd, imm
    case 4 => MeaningArith(hw)
    case 5 => Expands(EncodeJ(OffsetJ(hw), 0, 0x6f))                                    // jal x0, offset
    case 6 => Expands(EncodeB(OffsetB(hw), 0, RegHigh(hw), 0, 0x63))                    // beq rs1', x0, offset
    case _ => Expands(EncodeB(OffsetB(hw), 0, RegHigh(hw), 1, 0x63))                    // bne rs1', x0, offset
  }

  /** uimm[5|4:2|7:6] of c.lwsp. */
  function OffsetLwsp(hw: bv16): bv12 {
    B(hw, 12, 5) | B(hw, 6, 4) | B(hw, 5, 3) | B(hw, 4, 2) | B(hw, 3, 7) | B(hw, 2, 6)
  }

  /** uimm[5|4:3|8:6] of c.ldsp. */
  function OffsetLdsp(hw: bv16): bv12 {
    B(hw, 12, 5) | B(hw, 6, 4) | B(hw, 5, 3) | B(hw, 4, 8) | B(hw, 3, 7) | B(hw, 2, 6)
  }

  /** uimm[5:2|7:6] of c.swsp. */
  function OffsetSwsp(hw: bv16): bv12 {
    B(hw, 12, 5) | B(hw, 11, 4) | B(hw, 10, 3) | B(hw, 9, 2) | B(hw, 8, 7) | B(hw, 7, 6)
  }

  /** uimm[5:3|8:6] of c.sdsp. */
  function OffsetSdsp(hw: bv16): bv12 {
    B(hw, 12, 5) | B(hw, 11, 4) | B(hw, 10, 3) | B(hw, 9, 8) | B(hw, 8, 7) | B(hw, 7, 6)
  }

  function MeaningQ2(hw: bv16): Listed {
    var rd, rs2 := RegFull(hw), RegTwo(hw);
    match CF3(hw)
    case 0 =>                                                                           // slli rd, rd, shamt
      HintIf(rd == 0 || ShiftAmount(hw) == 0, EncodeI(ShiftAmount(hw), rd, 1, rd, 0x13))
    case 1 => FloatingPoint                                                             // c.fldsp
    case 2 => ReservedIf(rd == 0, EncodeI(OffsetLwsp(hw), 2, 2, rd, 0x03))              // lw rd, uimm(x2)
    case 3 => ReservedIf(rd == 0, EncodeI(OffsetLdsp(hw), 2, 3, rd, 0x03))              // ld rd, uimm(x2)
    case 4 =>
      if B(hw, 12, 0) == 0 then
        if rs2 == 0 then ReservedIf(rd == 0, EncodeI(0, rd, 0, 0, 0x67))                // jalr x0, 0(rs1)
        else HintIf(rd == 0, EncodeR(0, rs2, 0, 0, rd, 0x33))                           // add rd, x0, rs2
      else if rs2 == 0 then
        if rd == 0 then Expands(0x0010_0073)                                            // ebreak
        else Expands(EncodeI(0, rd, 0, 1, 0x67))                                        // jalr x1, 0(rs1)
      else HintIf(rd == 0, EncodeR(0, rs2, rd, 0, rd, 0x33))                            // add rd, rd, rs2
    case 5 => FloatingPoint                                                             // c.fsdsp
    case 6 => Expands(EncodeS(OffsetSwsp(hw), rs2, 2, 2, 0x23))                         // sw rs2, uimm(x2)
    case _ => Expands(EncodeS(OffsetSdsp(hw), rs2, 2, 3, 0x23))                         // sd rs2, uimm(x2)
  }

  function Meaning(hw: bv16): Listed {
    if hw & 0x3 == 0 then MeaningQ0(hw)
    else if hw & 0x3 == 1 then MeaningQ1(hw)
    else MeaningQ2(hw)
  }

  /** What the compressed step must do: the expansion, continuing (and linking) two bytes on, or
      the illegal-instruction trap where there is none. */
  ghost predicate Agrees(m: Machine, hw: bv16, e: Listed, s: Stepped) {
    if e.Expands? || e.Hint? then s == Exec32(m, e.inst, Wrap(m.hart.pc + 2), None)
    else s == Bad(m, hw)
  }

  /** c.srli and c.srai by zero. */
  predicate TrapsHint(hw: bv16) { hw & 0xf87f == 0x8001 }

  /** c.addiw to x0, and c.lui of a zero immediate to x0. */
  predicate RunsReserved(hw: bv16) { hw & 0xef83 == 0x2001 || hw == 0x6001 }

  // ---------------------------------------------------------------- decoding an encoded instruction

  function Sext12(imm: bv12): bv21 {
    if imm & 0x800 == 0 then imm as bv21 else (imm as bv21) | 0x1f_f000
  }

  lemma FieldsI(imm: bv12, rs1: bv5, f3: bv3, rd: bv5, op: bv7)
    ensures var i := EncodeI(imm, rs1, f3, rd, op);
            && Opcode(i) == op && Rd(i) == rd && F3(i) == f3 && Rs1(i) == rs1 && ImmI(i) == Sext12(imm)
            && F6(i) == (imm >> 6) as bv6 && Shamt6(i) == (imm & 0x3f) as bv6
            && CsrNum(i) == imm
  {
  }

  lemma FieldsS(imm: bv12, rs2: bv5, rs1: bv5, f3: bv3, op: bv7)
    ensures var i := EncodeS(imm, rs2, rs1, f3, op);
            && Opcode(i) == op && Rs2(i) == rs2 && F3(i) == f3 && Rs1(i) == rs1 && ImmS(i) == Sext12(imm)
  {
  }

  lemma FieldsR(f7: bv7, rs2: bv5, rs1: bv5, f3: bv3, rd: bv5, op: bv7)
    ensures var i := EncodeR(f7, rs2, rs1, f3, rd, op);
            && Opcode(i) == op && Rd(i) == rd && F3(i) == f3 && Rs1(i) == rs1 && Rs2(i) == rs2 && F7(i) == f7
  {
  }

  lemma FieldsB(offset: bv12, rs2: bv5, rs1: bv5, f3: bv3, op: bv7)
    ensures var i := EncodeB(offset, rs2, rs1, f3, op);
            && Opcode(i) == op && Rs2(i) == rs2 && F3(i) == f3 && Rs1(i) == rs1
  {
  }

  // ---------------------------------------------------------------- immediates agree

  lemma Immediate4spn(hw: bv16)
    ensures Sext12(Offset4spn(hw)) == ImmAddi4spn(hw) && (Offset4spn(hw) == 0 <==> ImmAddi4spn(hw) == 0)
  {
  }

  lemma ImmediateW(hw: bv16)
    ensures Sext12(OffsetW(hw)) == ImmLw(hw)
  {
  }

  lemma ImmediateD(hw: bv16)
    ensures Sext12(OffsetD(hw)) == ImmLd(hw)
  {
  }

  lemma ImmediateLwsp(hw: bv16)
    ensures Sext12(OffsetLwsp(hw)) == ImmLwsp(hw)
  {
  }

  lemma ImmediateLdsp(hw: bv16)
    ensures Sext12(OffsetLdsp(hw)) == ImmLdsp(hw)
  {
  }

  lemma ImmediateSwsp(hw: bv16)
    ensures Sext12(OffsetSwsp(hw)) == ImmSwsp(hw)
  {
  }

  lemma ImmediateSdsp(hw: bv16)
    ensures Sext12(OffsetSdsp(hw)) == ImmSdsp(hw)
  {
  }

  lemma Immediate6(hw: bv16)
    ensures Sext12(NzImm(hw)) == Imm6(hw)
  {
  }

  lemma ImmediateSp(hw: bv16)
    ensures Sext12(ImmSp(hw)) == ImmAddi16sp(hw) && (ImmSp(hw) == 0 <==> ImmAddi16sp(hw) == 0)
  {
  }

  lemma ImmediateShift(hw: bv16)
    ensures (ShiftAmount(hw) & 0x3f) as bv6 == CShamt(hw) && ShiftAmount(hw) >> 6 == 0
    ensures ShiftAmount(hw) == 0 <==> CShamt(hw) == 0
  {
  }

  lemma ImmediateSrai(hw: bv16)
    ensures ((0x400 | ShiftAmount(hw)) & 0x3f) as bv6 == CShamt(hw) && (0x400 | ShiftAmount(hw)) >> 6 == 0x10
  {
  }

  lemma ImmediateUpper(hw: bv16, rd: bv5)
    ensures var i := EncodeU(ImmUpper(hw), rd, 0x37);
            Opcode(i) == 0x37 && Rd(i) == rd && ImmU(i) == ImmCLui(hw)
    ensures ImmUpper(hw) == 0 <==> ImmCLui(hw) == 0
  {
    if CNegative(hw) {
    } else {
    }
  }

  lemma ImmediateJ(hw: bv16)
    ensures var i := EncodeJ(OffsetJ(hw), 0, 0x6f);
            Opcode(i) == 0x6f && Rd(i) == 0 && ImmJ(i) == ImmCJ(hw)
  {
    if CNegative(hw) {
    } else {
    }
  }

  lemma ImmediateB(hw: bv16, rs1: bv5, f3: bv3)
    ensures ImmB(EncodeB(OffsetB(hw), 0, rs1, f3, 0x63)) == ImmCB(hw)
  {
    if CNegative(hw) {
    } else {
    }
  }

  // ---------------------------------------------------------------- executing an encoded instruction

  lemma ExecIsLoad(m: Machine, inst: bv32, next: u64, len: nat, signed: bool)
    requires Opcode(inst) == 0x03 && LoadShape(F3(inst)) == Some((len, signed))
    ensures Exec32(m, inst, next, None)
         == Load(m, Rd(inst), Wrap(m.hart.Get(Rs1(inst)) + Offset(ImmI(inst))), len, signed, next)
  {
  }

  lemma ExecIsStore(m: Machine, inst: bv32, next: u64, len: nat)
    requires Opcode(inst) == 0x23 && StoreLen(F3(inst)) == Some(len)
    ensures Exec32(m, inst, next, None)
         == Store(m, m.hart.Get(Rs2(inst)), Wrap(m.hart.Get(Rs1(inst)) + Offset(ImmS(inst))), len, next)
  {
  }

  /** Writing v to the destination and continuing, the effect of every ALU instruction. */
  function Result(m: Machine, rd: bv5, v: u64, next: u64): Stepped {
    Retire(m, m.hart.Set(rd, v).At(next))
  }

  lemma ExecIsAddi(m: Machine, inst: bv32, next: u64)
    requires Opcode(inst) == 0x13 && F3(inst) == 0
    ensures Exec32(m, inst, next, None)
         == Result(m, Rd(inst), Wrap(m.hart.Get(Rs1(inst)) + Offset(ImmI(inst))), next)
  {
  }

  lemma ExecIsLi(m: Machine, inst: bv32, next: u64)
    requires Opcode(inst) == 0x13 && F3(inst) == 0 && m.hart.Get(Rs1(inst)) == 0
    ensures Exec32(m, inst, next, None) == Result(m, Rd(inst), Offset(ImmI(inst)), next)
  {
    ExecIsAddi(m, inst, next);
    WrapSmall(Offset(ImmI(inst)));
  }

  lemma WrapSmall(v: u64)
    ensures Wrap(0 + v) == v
  {
  }

  lemma GetZero(h: Hart)
    requires h.x[0] == 0
    ensures h.Get(0) == 0
  {
  }

  lemma ExecIsAndi(m: Machine, inst: bv32, next: u64)
    requires Opcode(inst) == 0x13 && F3(inst) == 7
    ensures Exec32(m, inst, next, None)
         == Result(m, Rd(inst), BitAnd(m.hart.Get(Rs1(inst)), Offset(ImmI(inst))), next)
  {
  }

  lemma ExecIsShiftImm(m: Machine, inst: bv32, next: u64, v: u64)
    requires Opcode(inst) == 0x13 && (F3(inst) == 1 || F3(inst) == 5)
    requires OpImmValue(inst, m.hart.Get(Rs1(inst))) == Value(v)
    ensures Exec32(m, inst, next, None) == Result(m, Rd(inst), v, next)
  {
  }

  lemma ExecIsBranch(m: Machine, inst: bv32, next: u64)
    requires Opcode(inst) == 0x63 && F3(inst) <= 1
    ensures Exec32(m, inst, next, None)
         == Retire(m, m.hart.At(if (m.hart.Get(Rs1(inst)) == m.hart.Get(Rs2(inst))) == (F3(inst) == 0)
                                then Wrap(m.hart.pc + Offset(ImmB(inst))) else next))
  {
  }

  lemma ExecIsAddiw(m: Machine, inst: bv32, next: u64)
    requires Opcode(inst) == 0x1b && F3(inst) == 0
    ensures Exec32(m, inst, next, None)
         == Result(m, Rd(inst), Sext32(m.hart.Get(Rs1(inst)) + Offset(ImmI(inst))), next)
  {
  }

  lemma ExecIsOp(m: Machine, inst: bv32, next: u64, v: u64)
    requires Opcode(inst) == 0x33
    requires OpValue(F7(inst), F3(inst), m.hart.Get(Rs1(inst)), m.hart.Get(Rs2(inst))) == Value(v)
    ensures Exec32(m, inst, next, None) == Result(m, Rd(inst), v, next)
  {
  }

  lemma ExecIsOp32(m: Machine, inst: bv32, next: u64, v: u64)
    requires Opcode(inst) == 0x3b
    requires Op32Value(F7(inst), F3(inst), m.hart.Get(Rs1(inst)), m.hart.Get(Rs2(inst))) == Value(v)
    ensures Exec32(m, inst, next, None) == Result(m, Rd(inst), v, next)
  {
  }

  // ---------------------------------------------------------------- quadrant 0

  lemma AgreesQ0(m: Machine, hw: bv16)
    ensures Agrees(m, hw, MeaningQ0(hw), ExecQ0(m, hw))
  {
    match CF3(hw) {
      case 0 => AgreesAddi4spn(m, hw);
      case 2 => AgreesLw(m, hw);
      case 3 => AgreesLd(m, hw);
      case 6 => AgreesSw(m, hw);
      case 7 => AgreesSd(m, hw);
      case _ =>
    }
  }

  lemma AgreesAddi4spn(m: Machine, hw: bv16)
    requires CF3(hw) == 0
    ensures Agrees(m, hw, MeaningQ0(hw), ExecQ0(m, hw))
  {
    hide Exec32, EncodeI, Opcode, F3, F7, Rd, Rs1, Rs2, ImmI, ImmS, ImmB;
    Immediate4spn(hw);
    FieldsI(Offset4spn(hw), 2, 0, RegLow(hw), 0x13);
    ExecIsAddi(m, EncodeI(Offset4spn(hw), 2, 0, RegLow(hw), 0x13), Wrap(m.hart.pc + 2));
  }

  lemma AgreesLw(m: Machine, hw: bv16)
    requires CF3(hw) == 2
    ensures Agrees(m, hw, MeaningQ0(hw), ExecQ0(m, hw))
  {
    hide Exec32, EncodeI, Opcode, F3, F7, Rd, Rs1, Rs2, ImmI, ImmS, ImmB;
    FieldsI(OffsetW(hw), RegHigh(hw), 2, RegLow(hw), 0x03);
    ImmediateW(hw);
    ExecIsLoad(m, EncodeI(OffsetW(hw), RegHigh(hw), 2, RegLow(hw), 0x03), Wrap(m.hart.pc + 2), 4, true);
  }

  lemma AgreesLd(m: Machine, hw: bv16)
    requires CF3(hw) == 3
    ensures Agrees(m, hw, MeaningQ0(hw), ExecQ0(m, hw))
  {
    hide Exec32, EncodeI, Opcode, F3, F7, Rd, Rs1, Rs2, ImmI, ImmS, ImmB;
    FieldsI(OffsetD(hw), RegHigh(hw), 3, RegLow(hw), 0x03);
    ImmediateD(hw);
    ExecIsLoad(m, EncodeI(OffsetD(hw), RegHigh(hw), 3, RegLow(hw), 0x03), Wrap(m.hart.pc + 2), 8, false);
  }

  lemma AgreesSw(m: Machine, hw: bv16)
    requires CF3(hw) == 6
    ensures Agrees(m, hw, MeaningQ0(hw), ExecQ0(m, hw))
  {
    hide Exec32, EncodeS, Opcode, F3, F7, Rd, Rs1, Rs2, ImmI, ImmS, ImmB;
    FieldsS(OffsetW(hw), RegLow(hw), RegHigh(hw), 2, 0x23);
    ImmediateW(hw);
    ExecIsStore(m, EncodeS(OffsetW(hw), RegLow(hw), RegHigh(hw), 2, 0x23), Wrap(m.hart.pc + 2), 4);
  }

  lemma AgreesSd(m: Machine, hw: bv16)
    requires CF3(hw) == 7
    ensures Agrees(m, hw, MeaningQ0(hw), ExecQ0(m, hw))
  {
    hide Exec32, EncodeS, Opcode, F3, F7, Rd, Rs1, Rs2, ImmI, ImmS, ImmB;
    FieldsS(OffsetD(hw), RegLow(hw), RegHigh(hw), 3, 0x23);
    ImmediateD(hw);
    ExecIsStore(m, EncodeS(OffsetD(hw), RegLow(hw), RegHigh(hw), 3, 0x23), Wrap(m.hart.pc + 2), 8);
  }

  // ---------------------------------------------------------------- quadrant 1

  lemma AgreesAddi(m: Machine, hw: bv16)
    requires CF3(hw) == 0
    ensures Agrees(m, hw, MeaningQ1(hw), ExecQ1(m, hw))
  {
    hide Exec32, EncodeI, Opcode, F3, F7, Rd, Rs1, Rs2, ImmI, ImmS, ImmB;
    FieldsI(NzImm(hw), RegFull(hw), 0, RegFull(hw), 0x13);
    Immediate6(hw);
    ExecIsAddi(m, EncodeI(NzImm(hw), RegFull(hw), 0, RegFull(hw), 0x13), Wrap(m.hart.pc + 2));
  }

  lemma AgreesAddiw(m: Machine, hw: bv16)
    requires CF3(hw) == 1 && RegFull(hw) != 0
    ensures Agrees(m, hw, MeaningQ1(hw), ExecQ1(m, hw))
  {
    hide Exec32, EncodeI, Opcode, F3, F7, Rd, Rs1, Rs2, ImmI, ImmS, ImmB;
    FieldsI(NzImm(hw), RegFull(hw), 0, RegFull(hw), 0x1b);
    Immediate6(hw);
    ExecIsAddiw(m, EncodeI(NzImm(hw), RegFull(hw), 0, RegFull(hw), 0x1b), Wrap(m.hart.pc + 2));
  }

  lemma AgreesLi(m: Machine, hw: bv16)
    requires CF3(hw) == 2 && m.hart.x[0] == 0
    ensures Agrees(m, hw, MeaningQ1(hw), ExecQ1(m, hw))
  {
    hide Exec32, EncodeI, Opcode, F3, F7, Rd, Rs1, Rs2, ImmI, ImmS, ImmB;
    FieldsI(NzImm(hw), 0, 0, RegFull(hw), 0x13);
    Immediate6(hw);
    GetZero(m.hart);
    ExecIsLi(m, EncodeI(NzImm(hw), 0, 0, RegFull(hw), 0x13), Wrap(m.hart.pc + 2));
  }

  lemma AgreesAddi16sp(m: Machine, hw: bv16)
    requires CF3(hw) == 3 && RegFull(hw) == 2
    ensures Agrees(m, hw, MeaningQ1(hw), ExecQ1(m, hw))
  {
    hide Exec32, EncodeI, Opcode, F3, F7, Rd, Rs1, Rs2, ImmI, ImmS, ImmB;
    FieldsI(ImmSp(hw), 2, 0, 2, 0x13);
    ImmediateSp(hw);
    ExecIsAddi(m, EncodeI(ImmSp(hw), 2, 0, 2, 0x13), Wrap(m.hart.pc + 2));
  }

  lemma AgreesLui(m: Machine, hw: bv16)
    requires CF3(hw) == 3 && RegFull(hw) != 2 && (RegFull(hw) != 0 || ImmUpper(hw) != 0)
    ensures Agrees(m, hw, MeaningQ1(hw), ExecQ1(m, hw))
  {
    ImmediateUpper(hw, RegFull(hw));
  }

  lemma AgreesJ(m: Machine, hw: bv16)
    requires CF3(hw) == 5
    ensures Agrees(m, hw, MeaningQ1(hw), ExecQ1(m, hw))
  {
    ImmediateJ(hw);
  }

  lemma AgreesBeqz(m: Machine, hw: bv16)
    requires CF3(hw) == 6
    requires m.hart.x[0] == 0
    ensures Agrees(m, hw, MeaningQ1(hw), ExecQ1(m, hw))
  {
    hide Exec32, EncodeB, Opcode, F3, F7, Rd, Rs1, Rs2, ImmI, ImmS, ImmB;
    FieldsB(OffsetB(hw), 0, RegHigh(hw), 0, 0x63);
    ImmediateB(hw, RegHigh(hw), 0);
    ExecIsBranch(m, EncodeB(OffsetB(hw), 0, RegHigh(hw), 0, 0x63), Wrap(m.hart.pc + 2));
  }

  lemma AgreesBnez(m: Machine, hw: bv16)
    requires CF3(hw) == 7
    requires m.hart.x[0] == 0
    ensures Agrees(m, hw, MeaningQ1(hw), ExecQ1(m, hw))
  {
    hide Exec32, EncodeB, Opcode, F3, F7, Rd, Rs1, Rs2, ImmI, ImmS, ImmB;
    FieldsB(OffsetB(hw), 0, RegHigh(hw), 1, 0x63);
    ImmediateB(hw, RegHigh(hw), 1);
    ExecIsBranch(m, EncodeB(OffsetB(hw), 0, RegHigh(hw), 1, 0x63), Wrap(m.hart.pc + 2));
  }

  lemma AgreesSrli(m: Machine, hw: bv16)
    requires (hw >> 10) & 0x3 == 0 && ShiftAmount(hw) != 0
    ensures Agrees(m, hw, MeaningArith(hw), ExecQ1Arith(m, hw))
  {
    hide Exec32, EncodeI, Opcode, F3, F7, Rd, Rs1, Rs2, ImmI, ImmS, ImmB;
    var rd := RegHigh(hw);
    FieldsI(ShiftAmount(hw), rd, 5, rd, 0x13);
    ImmediateShift(hw);
    ExecIsShiftImm(m, EncodeI(ShiftAmount(hw), rd, 5, rd, 0x13), Wrap(m.hart.pc + 2),
                   Shr(m.hart.Get(rd), CShamt(hw) as nat));
  }

  lemma AgreesSrai(m: Machine, hw: bv16)
    requires (hw >> 10) & 0x3 == 1 && ShiftAmount(hw) != 0
    ensures Agrees(m, hw, MeaningArith(hw), ExecQ1Arith(m, hw))
  {
    hide Exec32, EncodeI, Opcode, F3, F7, Rd, Rs1, Rs2, ImmI, ImmS, ImmB;
    var rd := RegHigh(hw);
    FieldsI(0x400 | ShiftAmount(hw), rd, 5, rd, 0x13);
    ImmediateShift(hw);
    ImmediateSrai(hw);
    ExecIsShiftImm(m, EncodeI(0x400 | ShiftAmount(hw), rd, 5, rd, 0x13), Wrap(m.hart.pc + 2),
                   Sra(m.hart.Get(rd), CShamt(hw) as nat));
  }

  lemma AgreesAndi(m: Machine, hw: bv16)
    requires (hw >> 10) & 0x3 == 2
    ensures Agrees(m, hw, MeaningArith(hw), ExecQ1Arith(m, hw))
  {
    hide Exec32, EncodeI, Opcode, F3, F7, Rd, Rs1, Rs2, ImmI, ImmS, ImmB;
    FieldsI(NzImm(hw), RegHigh(hw), 7, RegHigh(hw), 0x13);
    Immediate6(hw);
    ExecIsAndi(m, EncodeI(NzImm(hw), RegHigh(hw), 7, RegHigh(hw), 0x13), Wrap(m.hart.pc + 2));
  }

  lemma AgreesRegister(m: Machine, hw: bv16)
    requires (hw >> 10) & 0x3 == 3
    ensures Agrees(m, hw, MeaningArith(hw), ExecQ1Arith(m, hw))
  {
    hide Exec32, EncodeR, Opcode, F3, F7, Rd, Rs1, Rs2, ImmI, ImmS, ImmB;
    var rd, rs2, next := RegHigh(hw), RegLow(hw), Wrap(m.hart.pc + 2);
    var a: int, b: int := m.hart.Get(rd), m.hart.Get(rs2);
    var sub := B(hw, 12, 2) | B(hw, 6, 1) | B(hw, 5, 0);
    if sub == 0 {
      FieldsR(0x20, rs2, rd, 0, rd, 0x33);
      ExecIsOp(m, EncodeR(0x20, rs2, rd, 0, rd, 0x33), next, Wrap(a - b));
    } else if sub == 1 {
      FieldsR(0, rs2, rd, 4, rd, 0x33);
      ExecIsOp(m, EncodeR(0, rs2, rd, 4, rd, 0x33), next, Xor64(a, b));
    } else if sub == 2 {
      FieldsR(0, rs2, rd, 6, rd, 0x33);
      ExecIsOp(m, EncodeR(0, rs2, rd, 6, rd, 0x33), next, Or64(a, b));
    } else if sub == 3 {
      FieldsR(0, rs2, rd, 7, rd, 0x33);
      ExecIsOp(m, EncodeR(0, rs2, rd, 7, rd, 0x33), next, BitAnd(a, b));
    } else if sub == 4 {
      FieldsR(0x20, rs2, rd, 0, rd, 0x3b);
      ExecIsOp32(m, EncodeR(0x20, rs2, rd, 0, rd, 0x3b), next, Sext32(a - b));
    } else if sub == 5 {
      FieldsR(0, rs2, rd, 0, rd, 0x3b);
      ExecIsOp32(m, EncodeR(0, rs2, rd, 0, rd, 0x3b), next, Sext32(a + b));
    }
  }

  lemma AgreesArith(m: Machine, hw: bv16)
    requires (hw >> 11) & 0x1 == 0 ==> ShiftAmount(hw) != 0
    ensures Agrees(m, hw, MeaningArith(hw), ExecQ1Arith(m, hw))
  {
    if (hw >> 10) & 0x3 == 0 {
      AgreesSrli(m, hw);
    } else if (hw >> 10) & 0x3 == 1 {
      AgreesSrai(m, hw);
    } else if (hw >> 10) & 0x3 == 2 {
      AgreesAndi(m, hw);
    } else {
      AgreesRegister(m, hw);
    }
  }

  /** The two exceptions, by field. */
  lemma ExceptionsByField(hw: bv16)
    requires hw & 0x3 == 1
    ensures TrapsHint(hw) <==> CF3(hw) == 4 && (hw >> 11) & 0x1 == 0 && ShiftAmount(hw) == 0
    ensures RunsReserved(hw) <==> RegFull(hw) == 0 && (CF3(hw) == 1 || (CF3(hw) == 3 && ImmUpper(hw) == 0))
  {
  }

  lemma AgreesQ1(m: Machine, hw: bv16)
    requires m.hart.x[0] == 0 && hw & 0x3 == 1 && !TrapsHint(hw) && !RunsReserved(hw)
    ensures Agrees(m, hw, MeaningQ1(hw), ExecQ1(m, hw))
  {
    ExceptionsByField(hw);
    match CF3(hw) {
      case 0 => AgreesAddi(m, hw);
      case 1 => AgreesAddiw(m, hw);
      case 2 => AgreesLi(m, hw);
      case 3 =>
        if RegFull(hw) == 2 {
          AgreesAddi16sp(m, hw);
        } else {
          AgreesLui(m, hw);
        }
      case 4 => AgreesArith(m, hw);
      case 5 => AgreesJ(m, hw);
      case 6 => AgreesBeqz(m, hw);
      case _ => AgreesBnez(m, hw);
    }
  }

  // ---------------------------------------------------------------- quadrant 2

  lemma AgreesSlli(m: Machine, hw: bv16)
    requires CF3(hw) == 0
    ensures Agrees(m, hw, MeaningQ2(hw), ExecQ2(m, hw))
  {
    hide Exec32, EncodeI, Opcode, F3, F7, Rd, Rs1, Rs2, ImmI, ImmS, ImmB;
    var rd := RegFull(hw);
    FieldsI(ShiftAmount(hw), rd, 1, rd, 0x13);
    ImmediateShift(hw);
    ExecIsShiftImm(m, EncodeI(ShiftAmount(hw), rd, 1, rd, 0x13), Wrap(m.hart.pc + 2),
                   Shl(m.hart.Get(rd), CShamt(hw) as nat));
  }

  lemma AgreesLwsp(m: Machine, hw: bv16)
    requires CF3(hw) == 2
    ensures Agrees(m, hw, MeaningQ2(hw), ExecQ2(m, hw))
  {
    hide Exec32, EncodeI, Opcode, F3, F7, Rd, Rs1, Rs2, ImmI, ImmS, ImmB;
    ImmediateLwsp(hw);
    FieldsI(OffsetLwsp(hw), 2, 2, RegFull(hw), 0x03);
    ExecIsLoad(m, EncodeI(OffsetLwsp(hw), 2, 2, RegFull(hw), 0x03), Wrap(m.hart.pc + 2), 4, true);
  }

  lemma AgreesLdsp(m: Machine, hw: bv16)
    requires CF3(hw) == 3
    ensures Agrees(m, hw, MeaningQ2(hw), ExecQ2(m, hw))
  {
    hide Exec32, EncodeI, Opcode, F3, F7, Rd, Rs1, Rs2, ImmI, ImmS, ImmB;
    ImmediateLdsp(hw);
    FieldsI(OffsetLdsp(hw), 2, 3, RegFull(hw), 0x03);
    ExecIsLoad(m, EncodeI(OffsetLdsp(hw), 2, 3, RegFull(hw), 0x03), Wrap(m.hart.pc + 2), 8, false);
  }

  lemma AgreesSwsp(m: Machine, hw: bv16)
    requires CF3(hw) == 6
    ensures Agrees(m, hw, MeaningQ2(hw), ExecQ2(m, hw))
  {
    hide Exec32, EncodeS, Opcode, F3, F7, Rd, Rs1, Rs2, ImmI, ImmS, ImmB;
    ImmediateSwsp(hw);
    FieldsS(OffsetSwsp(hw), RegTwo(hw), 2, 2, 0x23);
    ExecIsStore(m, EncodeS(OffsetSwsp(hw), RegTwo(hw), 2, 2, 0x23), Wrap(m.hart.pc + 2), 4);
  }

  lemma AgreesSdsp(m: Machine, hw: bv16)
    requires CF3(hw) == 7
    ensures Agrees(m, hw, MeaningQ2(hw), ExecQ2(m, hw))
  {
    hide Exec32, EncodeS, Opcode, F3, F7, Rd, Rs1, Rs2, ImmI, ImmS, ImmB;
    ImmediateSdsp(hw);
    FieldsS(OffsetSdsp(hw), RegTwo(hw), 2, 3, 0x23);
    ExecIsStore(m, EncodeS(OffsetSdsp(hw), RegTwo(hw), 2, 3, 0x23), Wrap(m.hart.pc + 2), 8);
  }

  lemma ExecIsJalr(m: Machine, inst: bv32, next: u64)
    requires Opcode(inst) == 0x67 && F3(inst) == 0 && ImmI(inst) == 0
    ensures Exec32(m, inst, next, None)
         == Retire(m, m.hart.Set(Rd(inst), next).At(m.hart.Get(Rs1(inst)) - m.hart.Get(Rs1(inst)) % 2))
  {
    assert Offset(ImmI(inst)) == 0;
  }

  lemma AgreesJr(m: Machine, hw: bv16)
    requires CF3(hw) == 4 && RegTwo(hw) == 0 && RegFull(hw) != 0
    ensures Agrees(m, hw, MeaningQ2(hw), ExecQ2(m, hw))
  {
    hide Exec32, EncodeI, EncodeR, Opcode, F3, F7, Rd, Rs1, Rs2, ImmI, ImmS, ImmB;
    var link: bv5 := if CBit12(hw) == 0 then 0 else 1;
    FieldsI(0, RegFull(hw), 0, link, 0x67);
    ExecIsJalr(m, EncodeI(0, RegFull(hw), 0, link, 0x67), Wrap(m.hart.pc + 2));
  }

  lemma AgreesMv(m: Machine, hw: bv16)
    requires CF3(hw) == 4 && RegTwo(hw) != 0 && CBit12(hw) == 0 && m.hart.x[0] == 0
    ensures Agrees(m, hw, MeaningQ2(hw), ExecQ2(m, hw))
  {
    hide Exec32, EncodeI, EncodeR, Opcode, F3, F7, Rd, Rs1, Rs2, ImmI, ImmS, ImmB;
    var rd, rs2 := RegFull(hw), RegTwo(hw);
    FieldsR(0, rs2, 0, 0, rd, 0x33);
    ExecIsOp(m, EncodeR(0, rs2, 0, 0, rd, 0x33), Wrap(m.hart.pc + 2), m.hart.Get(rs2));
  }

  lemma AgreesAdd(m: Machine, hw: bv16)
    requires CF3(hw) == 4 && RegTwo(hw) != 0 && CBit12(hw) != 0
    ensures Agrees(m, hw, MeaningQ2(hw), ExecQ2(m, hw))
  {
    hide Exec32, EncodeI, EncodeR, Opcode, F3, F7, Rd, Rs1, Rs2, ImmI, ImmS, ImmB;
    var rd, rs2 := RegFull(hw), RegTwo(hw);
    FieldsR(0, rs2, rd, 0, rd, 0x33);
    ExecIsOp(m, EncodeR(0, rs2, rd, 0, rd, 0x33), Wrap(m.hart.pc + 2), Wrap(m.hart.Get(rd) + m.hart.Get(rs2)));
  }

  /** Neither register: c.ebreak, or nothing at all. */
  lemma AgreesNoRegister(m: Machine, hw: bv16)
    requires CF3(hw) == 4 && RegTwo(hw) == 0 && RegFull(hw) == 0
    ensures Agrees(m, hw, MeaningQ2(hw), ExecQ2(m, hw))
  {
  }

  lemma AgreesJump(m: Machine, hw: bv16)
    requires CF3(hw) == 4 && m.hart.x[0] == 0
    ensures Agrees(m, hw, MeaningQ2(hw), ExecQ2(m, hw))
  {
    hide Agrees, MeaningQ2, ExecQ2;
    if RegTwo(hw) != 0 {
      if CBit12(hw) == 0 {
        AgreesMv(m, hw);
      } else {
        AgreesAdd(m, hw);
      }
    } else if RegFull(hw) != 0 {
      AgreesJr(m, hw);
    } else {
      AgreesNoRegister(m, hw);
    }
  }

  lemma AgreesQ2(m: Machine, hw: bv16)
    requires m.hart.x[0] == 0
    ensures Agrees(m, hw, MeaningQ2(hw), ExecQ2(m, hw))
  {
    match CF3(hw) {
      case 0 => AgreesSlli(m, hw);
      case 2 => AgreesLwsp(m, hw);
      case 3 => AgreesLdsp(m, hw);
      case 4 => AgreesJump(m, hw);
      case 6 => AgreesSwsp(m, hw);
      case 7 => AgreesSdsp(m, hw);
      case _ =>
    }
  }

  // ---------------------------------------------------------------- the theorem

  lemma AgreesExec16(m: Machine, hw: bv16)
    requires m.hart.x[0] == 0 && hw & 0x3 != 0x3 && !TrapsHint(hw) && !RunsReserved(hw)
    ensures Agrees(m, hw, Meaning(hw), Exec16(m, hw))
  {
    if hw & 0x3 == 0 {
      AgreesQ0(m, hw);
    } else if hw & 0x3 == 1 {
      AgreesQ1(m, hw);
    } else {
      AgreesQ2(m, hw);
    }
  }

  /** An expansion is a 32-bit encoding, so it differs from every zero-extended halfword rejected. */
  lemma ExpansionIsWide(hw: bv16)
    requires hw & 0x3 != 0x3
    ensures Meaning(hw).Expands? || Meaning(hw).Hint? ==> Meaning(hw).inst != hw as bv32
  {
  }

  lemma IllegalNamesTheInstruction(m: Machine, inst: bv32, next: u64)
    ensures Exec32(m, inst, next, None).out.Err? && Exec32(m, inst, next, None).out.trap.IllegalInstruction?
            ==> Exec32(m, inst, next, None).out.trap.inst == inst
  {
  }

  /** The machine obeys the table and rejects exactly what has no expansion. */
  ghost predicate Obeys(m: Machine, hw: bv16) {
    && Agrees(m, hw, Meaning(hw), Exec16(m, hw))
    && (Meaning(hw).Reserved? || Meaning(hw).FloatingPoint?
        <==> Exec16(m, hw).out == Err(IllegalInstruction(m.hart.pc, hw as bv32)))
  }

  lemma ObeysTable(m: Machine, hw: bv16)
    requires m.hart.x[0] == 0 && hw & 0x3 != 0x3 && !TrapsHint(hw) && !RunsReserved(hw)
    ensures Obeys(m, hw)
  {
    hide Exec16, Exec32, Meaning;
    AgreesExec16(m, hw);
    ExpansionIsWide(hw);
    if Meaning(hw).Expands? || Meaning(hw).Hint? {
      IllegalNamesTheInstruction(m, Meaning(hw).inst, Wrap(m.hart.pc + 2));
    }
  }

  lemma TrappedHint(m: Machine, hw: bv16)
    requires TrapsHint(hw)
    ensures Meaning(hw).Hint? && Exec16(m, hw) == Bad(m, hw)
  {
    ExceptionsByField(hw);
    ImmediateShift(hw);
  }

  lemma RunReserved(m: Machine, hw: bv16)
    requires RunsReserved(hw)
    ensures Meaning(hw).Reserved? && Exec16(m, hw) == Retire(m, m.hart.At(Wrap(m.hart.pc + 2)))
  {
    ExceptionsByField(hw);
    ImmediateUpper(hw, 0);
  }

  /** With x0 zero and no tohost device, a halfword has exactly the effect the chapter gives it (its
      expansion on registers, memory, trap and jump target, with pc + 2 as the following address
      and link; or rejection if and only if it is reserved or floating-point), if and only if it is
      in neither exceptional family. In the first a hint is rejected; in the second a reserved
      encoding retires. */
  lemma CompressedMeansExpansion(m: Machine, hw: bv16)
    requires m.hart.x[0] == 0 && hw & 0x3 != 0x3
    ensures Obeys(m, hw) <==> !TrapsHint(hw) && !RunsReserved(hw)
    ensures TrapsHint(hw) ==> Meaning(hw).Hint? && Exec16(m, hw) == Bad(m, hw)
    ensures RunsReserved(hw)
            ==> Meaning(hw).Reserved? && Exec16(m, hw) == Retire(m, m.hart.At(Wrap(m.hart.pc + 2)))
  {
    hide Exec16, Exec32, Meaning;
    if TrapsHint(hw) {
      TrappedHint(m, hw);
    } else if RunsReserved(hw) {
      RunReserved(m, hw);
    } else {
      ObeysTable(m, hw);
    }
  }

  // ---------------------------------------------------------------- hints

  /** Executing inst only moves on to next. */
  ghost predicate Idle(m: Machine, inst: bv32, next: u64) {
    Exec32(m, inst, next, None) == Retire(m, m.hart.At(next))
  }

  /** Writing x0, or a register's own value, changes no register. */
  lemma IdleResult(m: Machine, rd: bv5, v: u64, next: u64)
    requires rd == 0 || v == m.hart.Get(rd)
    ensures Result(m, rd, v, next) == Retire(m, m.hart.At(next))
  {
    if rd != 0 {
      assert m.hart.Set(rd, v).x == m.hart.x;
    }
  }

  lemma IdleAddi(m: Machine, imm: bv12, rs1: bv5, rd: bv5, next: u64)
    requires rd == 0 || (rs1 == rd && imm == 0)
    ensures Idle(m, EncodeI(imm, rs1, 0, rd, 0x13), next)
  {
    hide Exec32, EncodeI, Opcode, F3, Rd, Rs1, ImmI, Result;
    var inst := EncodeI(imm, rs1, 0, rd, 0x13);
    FieldsI(imm, rs1, 0, rd, 0x13);
    ExecIsAddi(m, inst, next);
    assert imm == 0 ==> Offset(ImmI(inst)) == 0;
    IdleResult(m, rd, Wrap(m.hart.Get(rs1) + Offset(ImmI(inst))), next);
  }

  lemma ShiftByZero(a: u64)
    ensures Shl(a, 0) == a && Shr(a, 0) == a && Sra(a, 0) == a
  {
  }

  /** Immediate shifts: f3 = 1 is SLLI, f3 = 5 is SRLI, or SRAI with bit 10 of the immediate. */
  lemma IdleShift(m: Machine, imm: bv12, f3: bv3, rd: bv5, next: u64)
    requires (f3 == 1 && imm & 0xfc0 == 0 && (rd == 0 || imm == 0)) || (f3 == 5 && (imm == 0 || imm == 0x400))
    ensures Idle(m, EncodeI(imm, rd, f3, rd, 0x13), next)
  {
    hide Exec32, EncodeI, Opcode, F3, F6, Rd, Rs1, ImmI, Shamt6, Result, Shl, Shr, Sra;
    var inst := EncodeI(imm, rd, f3, rd, 0x13);
    FieldsI(imm, rd, f3, rd, 0x13);
    ShiftByZero(m.hart.Get(rd));
    var v := OpImmValue(inst, m.hart.Get(rd)).v;
    ExecIsShiftImm(m, inst, next, v);
    IdleResult(m, rd, v, next);
  }

  lemma IdleAdd(m: Machine, rs2: bv5, rs1: bv5, next: u64)
    ensures Idle(m, EncodeR(0, rs2, rs1, 0, 0, 0x33), next)
  {
    hide Exec32, EncodeR, Opcode, F3, F7, Rd, Rs1, Rs2, Result;
    FieldsR(0, rs2, rs1, 0, 0, 0x33);
    var v := Wrap(m.hart.Get(rs1) + m.hart.Get(rs2));
    ExecIsOp(m, EncodeR(0, rs2, rs1, 0, 0, 0x33), next, v);
    IdleResult(m, 0, v, next);
  }

  lemma IdleLui(m: Machine, hw: bv16, next: u64)
    ensures Idle(m, EncodeU(ImmUpper(hw), 0, 0x37), next)
  {
    ImmediateUpper(hw, 0);
  }

  /** Every hint of the table is one: its expansion has no effect beyond the next pc. */
  lemma HintsDoNothing(m: Machine, hw: bv16)
    requires hw & 0x3 != 0x3 && Meaning(hw).Hint?
    ensures Idle(m, Meaning(hw).inst, Wrap(m.hart.pc + 2))
  {
    hide Idle, EncodeI, EncodeR, EncodeU;
    var rd, next := RegFull(hw), Wrap(m.hart.pc + 2);
    if hw & 0x3 == 1 {
      match CF3(hw) {
        case 0 => IdleAddi(m, NzImm(hw), rd, rd, next);
        case 2 => IdleAddi(m, NzImm(hw), 0, rd, next);
        case 3 => IdleLui(m, hw, next);
        case _ =>
          IdleShift(m, 0, 5, RegHigh(hw), next);
          IdleShift(m, 0x400, 5, RegHigh(hw), next);
      }
    } else if CF3(hw) == 0 {
      ImmediateShift(hw);
      IdleShift(m, ShiftAmount(hw), 1, rd, next);
    } else {
      IdleAdd(m, RegTwo(hw), 0, next);
    }
  }

  /** c.srli x8, 0 is a hint that leaves the machine alone but for the pc; the machine rejects it. */
  lemma ShiftByZeroTraps(m: Machine)
    ensures Meaning(0x8001) == Hint(0x0004_5413)
    ensures Exec32(m, 0x0004_5413, Wrap(m.hart.pc + 2), None) == Retire(m, m.hart.At(Wrap(m.hart.pc + 2)))
    ensures Exec16(m, 0x8001) == Bad(m, 0x8001)
  {
    TrappedHint(m, 0x8001);
    HintsDoNothing(m, 0x8001);
  }
}
