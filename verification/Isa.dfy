/** The instruction step of the RV64IMC machine as a function on machine states.

    Instruction words are bit vectors, so that every field and immediate is cut out of the
    word with the masks and shifts the interpreter uses. Register values are unsigned
    64-bit integers with explicit wrap-around. */
module Isa {
  import opened Words
  import opened Bits
  import opened Pages

  // ---------------------------------------------------------------- machine state

  type RegFile = x: seq<u64> | |x| == 32 witness seq(32, _ => 0)

  /** Registers, program counter, machine CSRs and the (unhashed) tohost latch. */
  datatype Hart = Hart(x: RegFile, pc: u64, mtvec: u64, mepc: u64, mcause: u64, mstatus: u64,
                       tohost: Option<u64>)
  {
    function Get(r: bv5): u64 {
      x[r as nat]
    }

    /** Writes to x0 are dropped. */
    function Set(r: bv5, v: u64): Hart {
      if r == 0 then this else this.(x := x[r as nat := v])
    }

    function At(target: u64): Hart {
      this.(pc := target)
    }
  }

  datatype Machine = Machine(hart: Hart, pages: PageMap)

  datatype Trap =
    | FetchUnaligned
    | FetchOutOfRange
    | IllegalInstruction(pc: u64, inst: bv32)
    | LoadOutOfRange(addr: u64)
    | StoreOutOfRange(addr: u64)
    | Ecall
    | OutputTooLarge

  /** What one step reports; `Panic` is the host process aborting. */
  datatype StepOut = Ok(halted: bool) | Err(trap: Trap) | Panic

  datatype Stepped = Stepped(out: StepOut, m: Machine)

  function Retire(m: Machine, hart: Hart): Stepped {
    Stepped(Ok(false), m.(hart := hart))
  }

  function Fail(m: Machine, t: Trap): Stepped {
    Stepped(Err(t), m)
  }

  // ---------------------------------------------------------------- instruction fields

  function Opcode(inst: bv32): bv7 { (inst & 0x7f) as bv7 }
  function Rd(inst: bv32): bv5 { ((inst >> 7) & 0x1f) as bv5 }
  function F3(inst: bv32): bv3 { ((inst >> 12) & 0x7) as bv3 }
  function Rs1(inst: bv32): bv5 { ((inst >> 15) & 0x1f) as bv5 }
  function Rs2(inst: bv32): bv5 { ((inst >> 20) & 0x1f) as bv5 }
  function F7(inst: bv32): bv7 { ((inst >> 25) & 0x7f) as bv7 }
  /** Shift function code of the 64-bit immediate shifts, bits 31..26. */
  function F6(inst: bv32): bv6 { ((inst >> 26) & 0x3f) as bv6 }
  function Shamt6(inst: bv32): bv6 { ((inst >> 20) & 0x3f) as bv6 }
  function Shamt5(inst: bv32): bv5 { ((inst >> 20) & 0x1f) as bv5 }
  function CsrNum(inst: bv32): bv12 { (inst >> 20) as bv12 }

  /** Sign extension inside the 21 bits that hold every offset. */
  function Extended(negative: bool, above: bv21, v: bv21): bv21 {
    if negative then v | above else v
  }

  /** The 64-bit value of a signed 21-bit offset. */
  function Offset(v: bv21): u64 {
    if v as nat >= 0x10_0000 then v as nat + (TWO64 - 0x20_0000) else v as nat
  }

  function Negative(inst: bv32): bool { inst & 0x8000_0000 != 0 }

  function ImmI(inst: bv32): bv21 {
    Extended(Negative(inst), 0x1f_f000, (inst >> 20) as bv21)
  }

  function ImmS(inst: bv32): bv21 {
    Extended(Negative(inst), 0x1f_f000, (((inst >> 20) & 0xfe0) | ((inst >> 7) & 0x1f)) as bv21)
  }

  function ImmB(inst: bv32): bv21 {
    var v := (((inst >> 31) & 1) << 12) | (((inst >> 7) & 1) << 11)
           | (((inst >> 25) & 0x3f) << 5) | (((inst >> 8) & 0xf) << 1);
    Extended(Negative(inst), 0x1f_e000, v as bv21)
  }

  /** The upper immediate, already shifted into place. */
  function ImmU(inst: bv32): bv32 {
    inst & 0xffff_f000
  }

  function ImmJ(inst: bv32): bv21 {
    var v := (((inst >> 31) & 1) << 20) | (((inst >> 12) & 0xff) << 12)
           | (((inst >> 20) & 1) << 11) | (((inst >> 21) & 0x3ff) << 1);
    v as bv21
  }

  // ---------------------------------------------------------------- arithmetic results

  /** Result of an ALU group: a value, an encoding the interpreter rejects, or a host panic. */
  datatype Value = Value(v: u64) | Reserved | Panics

  function Flag(c: bool): u64 { if c then 1 else 0 }

  function Mul(a: u64, b: u64): u64 { Wrap(a * b) }
  function Mulh(a: u64, b: u64): u64 { Wrap(Signed(a) * Signed(b) / TWO64) }
  function Mulhsu(a: u64, b: u64): u64 { Wrap(Signed(a) * b / TWO64) }
  function Mulhu(a: u64, b: u64): u64 { Wrap(a * b / TWO64) }

  const I64_MIN: u64 := 0x8000_0000_0000_0000
  const U64_MAX: u64 := 0xffff_ffff_ffff_ffff
  const I32_MIN_SEXT: u64 := 0xffff_ffff_8000_0000

  function Div(a: u64, b: u64): u64 {
    if b == 0 then U64_MAX
    else if a == I64_MIN && b == U64_MAX then I64_MIN
    else Wrap(TruncDiv(Signed(a), Signed(b)))
  }

  function Divu(a: u64, b: u64): u64 {
    if b == 0 then U64_MAX else Wrap(a / b)
  }

  function Rem(a: u64, b: u64): u64 {
    if b == 0 then a
    else if a == I64_MIN && b == U64_MAX then 0
    else Wrap(TruncRem(Signed(a), Signed(b)))
  }

  function Remu(a: u64, b: u64): u64 {
    if b == 0 then a else Wrap(a % b)
  }

  function Mulw(a: u64, b: u64): u64 { Sext32(Signed32(a) * Signed32(b)) }

  /** `checked_div` fails on a zero low word and on overflow; only a zero 64-bit rs2 is
      answered with all ones, every other failure with the most negative word. */
  function Divw(a: u64, b: u64): u64 {
    if Signed32(b) == 0 || (Signed32(a) == -0x8000_0000 && Signed32(b) == -1) then
      if b == 0 then U64_MAX else I32_MIN_SEXT
    else Wrap(TruncDiv(Signed32(a), Signed32(b)))
  }

  /** The unsigned forms test the 64-bit rs2 but divide by its low word: a nonzero rs2 with
      a zero low word is a division by zero, which aborts the process. */
  function Divuw(a: u64, b: u64): Value {
    if b == 0 then Value(U64_MAX)
    else if Low32(b) == 0 then Panics
    else Value(Sext32(Low32(a) / Low32(b)))
  }

  function Remw(a: u64, b: u64): u64 {
    if Signed32(b) == 0 || (Signed32(a) == -0x8000_0000 && Signed32(b) == -1) then
      if b == 0 then Sext32(a) else 0
    else Wrap(TruncRem(Signed32(a), Signed32(b)))
  }

  function Remuw(a: u64, b: u64): Value {
    if b == 0 then Value(Sext32(a))
    else if Low32(b) == 0 then Panics
    else Value(Sext32(Low32(a) % Low32(b)))
  }

  /** OP-IMM: arithmetic with an immediate. */
  function OpImmValue(inst: bv32, a: u64): Value {
    var imm := Offset(ImmI(inst));
    match F3(inst)
    case 0 => Value(Wrap(a + imm))
    case 2 => Value(Flag(Signed(a) < Signed(imm)))
    case 3 => Value(Flag(a < imm))
    case 4 => Value(Xor64(a, imm))
    case 6 => Value(Or64(a, imm))
    case 7 => Value(BitAnd(a, imm))
    case 1 => if F6(inst) != 0 then Reserved else Value(Shl(a, Shamt6(inst) as nat))
    case _ =>
      if F6(inst) == 0 then Value(Shr(a, Shamt6(inst) as nat))
      else if F6(inst) == 0x10 then Value(Sra(a, Shamt6(inst) as nat))
      else Reserved
  }

  /** OP-IMM-32: 32-bit arithmetic with an immediate, result sign-extended. */
  function OpImm32Value(inst: bv32, a: u64): Value {
    var imm := Offset(ImmI(inst));
    match F3(inst)
    case 0 => Value(Sext32(a + imm))
    case 1 => if F7(inst) != 0 then Reserved else Value(Sext32(Low32(a) * Pow2(Shamt5(inst) as nat)))
    case 5 =>
      if F7(inst) == 0 then Value(Sext32(Low32(a) / Pow2(Shamt5(inst) as nat)))
      else if F7(inst) == 0x20 then Value(Wrap(Signed32(a) / Pow2(Shamt5(inst) as nat)))
      else Reserved
    case _ => Reserved
  }

  /** OP with funct7 = 1: multiplication and division. */
  function MulDivValue(f3: bv3, a: u64, b: u64): u64 {
    match f3
    case 0 => Mul(a, b)
    case 1 => Mulh(a, b)
    case 2 => Mulhsu(a, b)
    case 3 => Mulhu(a, b)
    case 4 => Div(a, b)
    case 5 => Divu(a, b)
    case 6 => Rem(a, b)
    case _ => Remu(a, b)
  }

  /** OP: register-register arithmetic. */
  function OpValue(f7: bv7, f3: bv3, a: u64, b: u64): Value {
    if f7 == 0 then
      match f3
      case 0 => Value(Wrap(a + b))
      case 1 => Value(Shl(a, b % 64))
      case 2 => Value(Flag(Signed(a) < Signed(b)))
      case 3 => Value(Flag(a < b))
      case 4 => Value(Xor64(a, b))
      case 5 => Value(Shr(a, b % 64))
      case 6 => Value(Or64(a, b))
      case _ => Value(BitAnd(a, b))
    else if f7 == 0x20 then
      match f3
      case 0 => Value(Wrap(a - b))
      case 5 => Value(Sra(a, b % 64))
      case _ => Reserved
    else if f7 == 1 then Value(MulDivValue(f3, a, b))
    else Reserved
  }

  /** OP-32: 32-bit register-register arithmetic, result sign-extended. */
  function Op32Value(f7: bv7, f3: bv3, a: u64, b: u64): Value {
    if f7 == 0 then
      match f3
      case 0 => Value(Sext32(a + b))
      case 1 => Value(Sext32(Low32(a) * Pow2(b % 32)))
      case 5 => Value(Sext32(Low32(a) / Pow2(b % 32)))
      case _ => Reserved
    else if f7 == 0x20 then
      match f3
      case 0 => Value(Sext32(a - b))
      case 5 => Value(Wrap(Signed32(a) / Pow2(b % 32)))
      case _ => Reserved
    else if f7 == 1 then
      match f3
      case 0 => Value(Mulw(a, b))
      case 4 => Value(Divw(a, b))
      case 5 => Divuw(a, b)
      case 6 => Value(Remw(a, b))
      case 7 => Remuw(a, b)
      case _ => Reserved
    else Reserved
  }

  function BranchTaken(f3: bv3, a: u64, b: u64): Option<bool> {
    match f3
    case 0 => Some(a == b)
    case 1 => Some(a != b)
    case 4 => Some(Signed(a) < Signed(b))
    case 5 => Some(Signed(a) >= Signed(b))
    case 6 => Some(a < b)
    case 7 => Some(a >= b)
    case _ => None
  }

  /** Width of a load and whether its value is sign-extended. */
  function LoadShape(f3: bv3): Option<(nat, bool)> {
    match f3
    case 0 => Some((1, true))
    case 1 => Some((2, true))
    case 2 => Some((4, true))
    case 3 => Some((8, false))
    case 4 => Some((1, false))
    case 5 => Some((2, false))
    case 6 => Some((4, false))
    case _ => None
  }

  /** The register value of a loaded `len`-byte quantity. */
  function Extend(v: u64, len: nat, signed: bool): u64 {
    if !signed then v
    else if len == 1 then (var w := v % 0x100; Wrap(if w >= 0x80 then w - 0x100 else w))
    else if len == 2 then (var w := v % 0x1_0000; Wrap(if w >= 0x8000 then w - 0x1_0000 else w))
    else Sext32(v)
  }

  function StoreLen(f3: bv3): (r: Option<nat>)
    ensures r.Some? ==> r.value in {1, 2, 4, 8}
  {
    match f3
    case 0 => Some(1)
    case 1 => Some(2)
    case 2 => Some(4)
    case 3 => Some(8)
    case _ => None
  }

  // ---------------------------------------------------------------- loads and stores

  /** Load `len` bytes at `addr` into rd and continue at `next`. */
  function Load(m: Machine, rd: bv5, addr: u64, len: nat, signed: bool, next: u64): Stepped {
    match Read(m.pages, addr, len)
    case None => Fail(m, LoadOutOfRange(addr))
    case Some(v) => Retire(m, m.hart.Set(rd, Extend(v, len, signed)).At(next))
  }

  /** Store the low `len` bytes of `v` at `addr` and continue at `next`. */
  function Store(m: Machine, v: u64, addr: u64, len: nat, next: u64): Stepped
    requires len <= 8
  {
    match Write(m.pages, addr, Bytes64(v)[..len])
    case None => Fail(m, StoreOutOfRange(addr))
    case Some(pages) => Stepped(Ok(false), Machine(m.hart.At(next), pages))
  }

  /** The tohost device latches 4 and 8 byte stores to its address, even ones that then trap. */
  function Latch(m: Machine, v: u64, addr: u64, len: nat, tohost: Option<u64>): Machine {
    if tohost == Some(addr) && (len == 8 || len == 4) then
      m.(hart := m.hart.(tohost := Some(if len == 8 then v else Low32(v))))
    else m
  }

  /** Write an ALU result to rd and continue at `next`, or reject the encoding. */
  function Finish(m: Machine, inst: bv32, value: Value, next: u64): Stepped {
    match value
    case Value(v) => Retire(m, m.hart.Set(Rd(inst), v).At(next))
    case Reserved => Fail(m, IllegalInstruction(m.hart.pc, inst))
    case Panics => Stepped(Panic, m)
  }

  // ---------------------------------------------------------------- CSRs

  function CsrRead(h: Hart, n: bv12): u64 {
    match n
    case 0x300 => h.mstatus
    case 0x305 => h.mtvec
    case 0x341 => h.mepc
    case 0x342 => h.mcause
    case _ => 0
  }

  function CsrWrite(h: Hart, n: bv12, v: u64): Hart {
    match n
    case 0x300 => h.(mstatus := v)
    case 0x305 => h.(mtvec := v - v % 4)
    case 0x341 => h.(mepc := v)
    case 0x342 => h.(mcause := v)
    case _ => h
  }

  /** Source operand of a CSR instruction; the immediate forms drop bit 4 of the 5-bit field. */
  function CsrSource(inst: bv32, a: u64): u64 {
    if F3(inst) <= 3 then a
    else
      var z := Rs1(inst);
      if z & 0x10 != 0 then (z - 0x10) as nat else z as nat
  }

  function CsrNew(f3: bv3, prior: u64, src: u64): u64 {
    match f3 & 3
    case 1 => src
    case 2 => Or64(prior, src)
    case _ => BitAnd(prior, Not64(src))
  }

  function ExecCsr(m: Machine, inst: bv32, next: u64): Stepped {
    var h := m.hart;
    var prior := CsrRead(h, CsrNum(inst));
    var updated := CsrNew(F3(inst), prior, CsrSource(inst, h.Get(Rs1(inst))));
    Retire(m, CsrWrite(h, CsrNum(inst), updated).Set(Rd(inst), prior).At(next))
  }

  function ExecSystem(m: Machine, inst: bv32, next: u64): Stepped {
    var h := m.hart;
    if F3(inst) == 0 then
      match CsrNum(inst)
      case 0 => Fail(m, Ecall)
      case 1 => Stepped(Ok(true), m)
      case 0x302 => Retire(m, h.At(h.mepc).(mstatus := BitAnd(h.mstatus, Not64(0x1800))))
      case _ => Fail(m, IllegalInstruction(h.pc, inst))
    else if F3(inst) == 4 then Fail(m, IllegalInstruction(h.pc, inst))
    else ExecCsr(m, inst, next)
  }

  // ---------------------------------------------------------------- 32-bit instructions

  function ExecJalr(m: Machine, inst: bv32, next: u64): Stepped {
    var h := m.hart;
    if F3(inst) != 0 then Fail(m, IllegalInstruction(h.pc, inst))
    else
      var t := Wrap(h.Get(Rs1(inst)) + Offset(ImmI(inst)));
      Retire(m, h.Set(Rd(inst), next).At(t - t % 2))
  }

  function ExecBranch(m: Machine, inst: bv32, next: u64): Stepped {
    var h := m.hart;
    match BranchTaken(F3(inst), h.Get(Rs1(inst)), h.Get(Rs2(inst)))
    case None => Fail(m, IllegalInstruction(h.pc, inst))
    case Some(taken) => Retire(m, h.At(if taken then Wrap(h.pc + Offset(ImmB(inst))) else next))
  }

  function ExecLoad(m: Machine, inst: bv32, next: u64): Stepped {
    match LoadShape(F3(inst))
    case None => Fail(m, IllegalInstruction(m.hart.pc, inst))
    case Some((len, signed)) =>
      Load(m, Rd(inst), Wrap(m.hart.Get(Rs1(inst)) + Offset(ImmI(inst))), len, signed, next)
  }

  function ExecStore(m: Machine, inst: bv32, next: u64, tohost: Option<u64>): Stepped {
    match StoreLen(F3(inst))
    case None => Fail(m, IllegalInstruction(m.hart.pc, inst))
    case Some(len) =>
      var addr := Wrap(m.hart.Get(Rs1(inst)) + Offset(ImmS(inst)));
      var v := m.hart.Get(Rs2(inst));
      Store(Latch(m, v, addr, len, tohost), v, addr, len, next)
  }

  /** Executes one 32-bit instruction; `next` is the address of the instruction after it. */
  function Exec32(m: Machine, inst: bv32, next: u64, tohost: Option<u64>): Stepped {
    var h := m.hart;
    match Opcode(inst)
    case 0x37 => Retire(m, h.Set(Rd(inst), Sext32(ImmU(inst) as nat)).At(next))
    case 0x17 => Retire(m, h.Set(Rd(inst), Wrap(h.pc + Sext32(ImmU(inst) as nat))).At(next))
    case 0x6f => Retire(m, h.Set(Rd(inst), next).At(Wrap(h.pc + Offset(ImmJ(inst)))))
    case 0x67 => ExecJalr(m, inst, next)
    case 0x63 => ExecBranch(m, inst, next)
    case 0x03 => ExecLoad(m, inst, next)
    case 0x23 => ExecStore(m, inst, next, tohost)
    case 0x13 => Finish(m, inst, OpImmValue(inst, h.Get(Rs1(inst))), next)
    case 0x1b => Finish(m, inst, OpImm32Value(inst, h.Get(Rs1(inst))), next)
    case 0x33 => Finish(m, inst, OpValue(F7(inst), F3(inst), h.Get(Rs1(inst)), h.Get(Rs2(inst))), next)
    case 0x3b => Finish(m, inst, Op32Value(F7(inst), F3(inst), h.Get(Rs1(inst)), h.Get(Rs2(inst))), next)
    case 0x0f => if F3(inst) <= 1 then Retire(m, h.At(next)) else Fail(m, IllegalInstruction(h.pc, inst))
    case 0x73 => ExecSystem(m, inst, next)
    case _ => Fail(m, IllegalInstruction(h.pc, inst))
  }

  // ---------------------------------------------------------------- 16-bit instructions

  function CF3(hw: bv16): bv3 { ((hw >> 13) & 0x7) as bv3 }
  /** Three-bit register fields name x8..x15. */
  function CRegLow(hw: bv16): bv5 { 8 + (((hw >> 2) & 0x7) as bv5) }
  function CRegHigh(hw: bv16): bv5 { 8 + (((hw >> 7) & 0x7) as bv5) }
  function CRd(hw: bv16): bv5 { ((hw >> 7) & 0x1f) as bv5 }
  function CRs2(hw: bv16): bv5 { ((hw >> 2) & 0x1f) as bv5 }
  function CBit12(hw: bv16): bv1 { ((hw >> 12) & 0x1) as bv1 }
  function CShamt(hw: bv16): bv6 { ((((hw >> 12) & 0x1) << 5) | ((hw >> 2) & 0x1f)) as bv6 }

  function ImmAddi4spn(hw: bv16): bv21 {
    ((((hw >> 11) & 0x3) << 4) | (((hw >> 7) & 0xf) << 6) | (((hw >> 6) & 0x1) << 2) | (((hw >> 5) & 0x1) << 3)) as bv21
  }

  function ImmLw(hw: bv16): bv21 {
    ((((hw >> 10) & 0x7) << 3) | (((hw >> 6) & 0x1) << 2) | (((hw >> 5) & 0x1) << 6)) as bv21
  }

  function ImmLd(hw: bv16): bv21 {
    ((((hw >> 10) & 0x7) << 3) | (((hw >> 5) & 0x3) << 6)) as bv21
  }

  function ImmLwsp(hw: bv16): bv21 {
    ((((hw >> 12) & 0x1) << 5) | (((hw >> 4) & 0x7) << 2) | (((hw >> 2) & 0x3) << 6)) as bv21
  }

  function ImmLdsp(hw: bv16): bv21 {
    ((((hw >> 12) & 0x1) << 5) | (((hw >> 5) & 0x3) << 3) | (((hw >> 2) & 0x7) << 6)) as bv21
  }

  function ImmSwsp(hw: bv16): bv21 {
    ((((hw >> 9) & 0xf) << 2) | (((hw >> 7) & 0x3) << 6)) as bv21
  }

  function ImmSdsp(hw: bv16): bv21 {
    ((((hw >> 10) & 0x7) << 3) | (((hw >> 7) & 0x7) << 6)) as bv21
  }

  function CNegative(hw: bv16): bool { hw & 0x1000 != 0 }

  /** 6-bit signed immediate: minus 32 times bit 12 plus bits 6..2. */
  function Imm6(hw: bv16): bv21 {
    Extended(CNegative(hw), 0x1f_ffe0, ((hw >> 2) & 0x1f) as bv21)
  }

  function ImmAddi16sp(hw: bv16): bv21 {
    var v := (((hw >> 12) & 0x1) << 9) | (((hw >> 6) & 0x1) << 4) | (((hw >> 5) & 0x1) << 6)
           | (((hw >> 3) & 0x3) << 7) | (((hw >> 2) & 0x1) << 5);
    Extended(CNegative(hw), 0x1f_fc00, v as bv21)
  }

  function ImmCLui(hw: bv16): bv32 {
    var v := ((((hw >> 12) & 0x1) as bv32) << 17) | ((((hw >> 2) & 0x1f) as bv32) << 12);
    if CNegative(hw) then v | 0xfffc_0000 else v
  }

  /** `cj_imm`. */
  function ImmCJ(hw: bv16): bv21 {
    var v := (((hw >> 12) & 0x1) << 11) | (((hw >> 8) & 0x1) << 10) | (((hw >> 9) & 0x3) << 8)
           | (((hw >> 6) & 0x1) << 7) | (((hw >> 7) & 0x1) << 6) | (((hw >> 2) & 0x1) << 5)
           | (((hw >> 11) & 0x1) << 4) | (((hw >> 3) & 0x7) << 1);
    Extended(CNegative(hw), 0x1f_f000, v as bv21)
  }

  /** `cb_imm`. */
  function ImmCB(hw: bv16): bv21 {
    var v := (((hw >> 12) & 0x1) << 8) | (((hw >> 5) & 0x3) << 6) | (((hw >> 2) & 0x1) << 5)
           | (((hw >> 10) & 0x3) << 3) | (((hw >> 3) & 0x3) << 1);
    Extended(CNegative(hw), 0x1f_fe00, v as bv21)
  }

  function Bad(m: Machine, hw: bv16): Stepped {
    Fail(m, IllegalInstruction(m.hart.pc, hw as bv32))
  }

  /** Set rd to v (unless it is x0) and continue. */
  function CSet(m: Machine, rd: bv5, v: u64): Stepped {
    Retire(m, m.hart.Set(rd, v).At(Wrap(m.hart.pc + 2)))
  }

  /** Quadrant 0: stack-pointer arithmetic, loads and stores on x8..x15. */
  function ExecQ0(m: Machine, hw: bv16): Stepped {
    var h, next := m.hart, Wrap(m.hart.pc + 2);
    var base := h.Get(CRegHigh(hw));
    match CF3(hw)
    case 0 =>
      if ImmAddi4spn(hw) == 0 then Bad(m, hw)
      else CSet(m, CRegLow(hw), Wrap(h.Get(2) + Offset(ImmAddi4spn(hw))))
    case 2 => Load(m, CRegLow(hw), Wrap(base + Offset(ImmLw(hw))), 4, true, next)
    case 3 => Load(m, CRegLow(hw), Wrap(base + Offset(ImmLd(hw))), 8, false, next)
    case 6 => Store(m, h.Get(CRegLow(hw)), Wrap(base + Offset(ImmLw(hw))), 4, next)
    case 7 => Store(m, h.Get(CRegLow(hw)), Wrap(base + Offset(ImmLd(hw))), 8, next)
    case _ => Bad(m, hw)
  }

  /** Quadrant 1, funct3 = 4: shifts, c.andi and the register-register group. */
  function CArith(hw: bv16, a: u64, b: u64): Option<u64> {
    var kind := (hw >> 10) & 0x3;
    var sub := (hw >> 5) & 0x3;
    if kind == 0 then
      if CShamt(hw) == 0 then None else Some(Shr(a, CShamt(hw) as nat))
    else if kind == 1 then
      if CShamt(hw) == 0 then None else Some(Sra(a, CShamt(hw) as nat))
    else if kind == 2 then Some(BitAnd(a, Offset(Imm6(hw))))
    else if CBit12(hw) == 0 then
      if sub == 0 then Some(Wrap(a - b))
      else if sub == 1 then Some(Xor64(a, b))
      else if sub == 2 then Some(Or64(a, b))
      else Some(BitAnd(a, b))
    else if sub == 0 then Some(Sext32(a - b))
    else if sub == 1 then Some(Sext32(a + b))
    else None
  }

  /** The destination of that group is the high register field, its second operand the low one. */
  function ExecQ1Arith(m: Machine, hw: bv16): Stepped {
    var dest := CRegHigh(hw);
    match CArith(hw, m.hart.Get(dest), m.hart.Get(CRegLow(hw)))
    case None => Bad(m, hw)
    case Some(v) => CSet(m, dest, v)
  }

  /** Quadrant 1, funct3 = 3: c.addi16sp and c.lui. */
  function ExecQ1Lui(m: Machine, hw: bv16): Stepped {
    var h, rd := m.hart, CRd(hw);
    if rd == 2 then
      if ImmAddi16sp(hw) == 0 then Bad(m, hw) else CSet(m, 2, Wrap(h.Get(2) + Offset(ImmAddi16sp(hw))))
    else if rd == 0 then Retire(m, h.At(Wrap(h.pc + 2)))
    else if ImmCLui(hw) == 0 then Bad(m, hw)
    else CSet(m, rd, Sext32(ImmCLui(hw) as nat))
  }

  /** Quadrant 1: immediates, arithmetic, jumps and branches. */
  function ExecQ1(m: Machine, hw: bv16): Stepped {
    var h, rd, next := m.hart, CRd(hw), Wrap(m.hart.pc + 2);
    match CF3(hw)
    case 0 => CSet(m, rd, Wrap(h.Get(rd) + Offset(Imm6(hw))))
    case 1 => CSet(m, rd, Sext32(h.Get(rd) + Offset(Imm6(hw))))
    case 2 => CSet(m, rd, Offset(Imm6(hw)))
    case 3 => ExecQ1Lui(m, hw)
    case 4 => ExecQ1Arith(m, hw)
    case 5 => Retire(m, h.At(Wrap(h.pc + Offset(ImmCJ(hw)))))
    case 6 => Retire(m, h.At(if h.Get(CRegHigh(hw)) == 0 then Wrap(h.pc + Offset(ImmCB(hw))) else next))
    case _ => Retire(m, h.At(if h.Get(CRegHigh(hw)) != 0 then Wrap(h.pc + Offset(ImmCB(hw))) else next))
  }

  /** Quadrant 2, funct3 = 4: register jumps, moves, adds and c.ebreak. */
  function ExecQ2Jump(m: Machine, hw: bv16): Stepped {
    var h, rd, rs2 := m.hart, CRd(hw), CRs2(hw);
    var target := h.Get(rd) - h.Get(rd) % 2;
    if CBit12(hw) == 0 then
      if rs2 == 0 then if rd == 0 then Bad(m, hw) else Retire(m, h.At(target))
      else CSet(m, rd, h.Get(rs2))
    else if rs2 == 0 then
      if rd == 0 then Stepped(Ok(true), m)
      else Retire(m, h.Set(1, Wrap(h.pc + 2)).At(target))
    else CSet(m, rd, Wrap(h.Get(rd) + h.Get(rs2)))
  }

  /** Quadrant 2: shifts, stack-relative loads and stores, register operations. */
  function ExecQ2(m: Machine, hw: bv16): Stepped {
    var h, rd, next := m.hart, CRd(hw), Wrap(m.hart.pc + 2);
    var sp := h.Get(2);
    match CF3(hw)
    case 0 => CSet(m, rd, Shl(h.Get(rd), CShamt(hw) as nat))
    case 2 => if rd == 0 then Bad(m, hw) else Load(m, rd, Wrap(sp + Offset(ImmLwsp(hw))), 4, true, next)
    case 3 => if rd == 0 then Bad(m, hw) else Load(m, rd, Wrap(sp + Offset(ImmLdsp(hw))), 8, false, next)
    case 4 => ExecQ2Jump(m, hw)
    case 6 => Store(m, h.Get(CRs2(hw)), Wrap(sp + Offset(ImmSwsp(hw))), 4, next)
    case 7 => Store(m, h.Get(CRs2(hw)), Wrap(sp + Offset(ImmSdsp(hw))), 8, next)
    case _ => Bad(m, hw)
  }

  /** Executes one compressed instruction (`step_c`). */
  function Exec16(m: Machine, hw: bv16): Stepped {
    if hw & 0x3 == 0 then ExecQ0(m, hw)
    else if hw & 0x3 == 1 then ExecQ1(m, hw)
    else ExecQ2(m, hw)
  }

  // ---------------------------------------------------------------- fetch and step

  /** The 16 bits at an address, if they lie inside the address space. */
  function Fetch16(pages: PageMap, a: u64): Option<bv16> {
    if a + 2 > ADDR_SPACE then None
    else
      Pow256Values();
      Some(FromLE(Region(pages, a, 2)) as bv16)
  }

  /** One instruction (`step_mode` without the syscall environment). */
  function Step(m: Machine, tohost: Option<u64>): Stepped {
    var pc := m.hart.pc;
    if pc >= ADDR_SPACE then Fail(m, FetchOutOfRange)
    else if pc % 2 != 0 then Fail(m, FetchUnaligned)
    else
      match Fetch16(m.pages, pc)
      case None => Fail(m, FetchOutOfRange)
      case Some(hw) =>
        if hw & 0x3 != 0x3 then Exec16(m, hw)
        else
          match Fetch16(m.pages, pc + 2)
          case None => Fail(m, FetchOutOfRange)
          case Some(hi) => Exec32(m, ((hi as bv32) << 16) | (hw as bv32), Wrap(pc + 4), tohost)
  }

  /** Past the two fetches, a wide step is its 32-bit execution. */
  lemma StepIs32(m: Machine, lo: bv16, hi: bv16, tohost: Option<u64>)
    requires m.hart.pc < ADDR_SPACE && m.hart.pc % 2 == 0
    requires Fetch16(m.pages, m.hart.pc) == Some(lo) && lo & 0x3 == 0x3
    requires Fetch16(m.pages, m.hart.pc + 2) == Some(hi)
    ensures Step(m, tohost) == Exec32(m, ((hi as bv32) << 16) | (lo as bv32), Wrap(m.hart.pc + 4), tohost)
  {
    hide Exec32, Exec16, Fetch16, Wrap;
  }
}
