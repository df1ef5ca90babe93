/** The interpreter in its own form: methods that update a processor and a memory object,
    each proved to perform the transition `Isa` specifies. */
module Interp {
  import opened Words
  import opened Bits
  import opened Pages
  import opened Isa
  import opened Memory
  import opened CpuState

  ghost function Abs(cpu: Cpu, mem: Mem): Machine
    requires cpu.Valid() && mem.Valid()
    reads cpu, cpu.x, mem
  {
    Machine(cpu.State(), mem.Contents())
  }

  /** `cpu.set(rd, v); cpu.pc = target`, the tail of most instructions. */
  method SetAndGo(cpu: Cpu, mem: Mem, rd: bv5, v: u64, target: u64)
    requires cpu.Valid() && mem.Valid()
    modifies cpu, cpu.x
    ensures Stepped(Ok(false), Abs(cpu, mem)) == Retire(old(Abs(cpu, mem)), old(cpu.State()).Set(rd, v).At(target))
  {
    cpu.Set(rd, v);
    cpu.pc := target;
  }

  method DoLoad(cpu: Cpu, mem: Mem, rd: bv5, addr: u64, len: nat, signed: bool, next: u64) returns (out: StepOut)
    requires cpu.Valid() && mem.Valid()
    modifies cpu, cpu.x, mem
    ensures mem.Valid()
    ensures Stepped(out, Abs(cpu, mem)) == Load(old(Abs(cpu, mem)), rd, addr, len, signed, next)
  {
    hide Extend, Pages.Read;
    var r := mem.Read(addr, len);
    match r {
      case None => return Err(LoadOutOfRange(addr));
      case Some(v) =>
        SetAndGo(cpu, mem, rd, Extend(v, len, signed), next);
        return Ok(false);
    }
  }

  method DoStore(cpu: Cpu, mem: Mem, v: u64, addr: u64, len: nat, next: u64) returns (out: StepOut)
    requires cpu.Valid() && mem.Valid() && len <= 8
    modifies cpu, mem
    ensures mem.Valid()
    ensures Stepped(out, Abs(cpu, mem)) == Store(old(Abs(cpu, mem)), v, addr, len, next)
  {
    hide Bytes64, WriteBytes;
    var ok := mem.Write(addr, Bytes64(v)[..len]);
    if !ok {
      return Err(StoreOutOfRange(addr));
    }
    cpu.pc := next;
    out := Ok(false);
  }

  method DoFinish(cpu: Cpu, mem: Mem, inst: bv32, value: Value, next: u64) returns (out: StepOut)
    requires cpu.Valid() && mem.Valid()
    modifies cpu, cpu.x
    ensures Stepped(out, Abs(cpu, mem)) == Finish(old(Abs(cpu, mem)), inst, value, next)
  {
    match value {
      case Value(v) =>
        SetAndGo(cpu, mem, Rd(inst), v, next);
        out := Ok(false);
      case Reserved => out := Err(IllegalInstruction(cpu.pc, inst));
      case Panics => out := Panic;
    }
  }

  // ---------------------------------------------------------------- 32-bit instructions

  method DoJalr(cpu: Cpu, mem: Mem, inst: bv32, next: u64) returns (out: StepOut)
    requires cpu.Valid() && mem.Valid()
    modifies cpu, cpu.x, mem
    ensures mem.Valid()
    ensures Stepped(out, Abs(cpu, mem)) == ExecJalr(old(Abs(cpu, mem)), inst, next)
  {
    hide Offset, Wrap, ImmI;
    if F3(inst) != 0 {
      return Err(IllegalInstruction(cpu.pc, inst));
    }
    var t := Wrap(cpu.Get(Rs1(inst)) + Offset(ImmI(inst)));
    SetAndGo(cpu, mem, Rd(inst), next, t - t % 2);
    out := Ok(false);
  }

  method DoBranch(cpu: Cpu, mem: Mem, inst: bv32, next: u64) returns (out: StepOut)
    requires cpu.Valid() && mem.Valid()
    modifies cpu, cpu.x, mem
    ensures mem.Valid()
    ensures Stepped(out, Abs(cpu, mem)) == ExecBranch(old(Abs(cpu, mem)), inst, next)
  {
    hide Offset, Wrap, ImmB, BranchTaken;
    match BranchTaken(F3(inst), cpu.Get(Rs1(inst)), cpu.Get(Rs2(inst))) {
      case None => return Err(IllegalInstruction(cpu.pc, inst));
      case Some(taken) => cpu.pc := if taken then Wrap(cpu.pc + Offset(ImmB(inst))) else next;
    }
    out := Ok(false);
  }

  method DoLoad32(cpu: Cpu, mem: Mem, inst: bv32, next: u64) returns (out: StepOut)
    requires cpu.Valid() && mem.Valid()
    modifies cpu, cpu.x, mem
    ensures mem.Valid()
    ensures Stepped(out, Abs(cpu, mem)) == ExecLoad(old(Abs(cpu, mem)), inst, next)
  {
    hide Offset, Wrap, ImmI, Load;
    var addr := Wrap(cpu.Get(Rs1(inst)) + Offset(ImmI(inst)));
    match LoadShape(F3(inst)) {
      case None => out := Err(IllegalInstruction(cpu.pc, inst));
      case Some((len, signed)) => out := DoLoad(cpu, mem, Rd(inst), addr, len, signed, next);
    }
  }

  method DoStore32(cpu: Cpu, mem: Mem, inst: bv32, next: u64, tohost: Option<u64>) returns (out: StepOut)
    requires cpu.Valid() && mem.Valid()
    modifies cpu, cpu.x, mem
    ensures mem.Valid()
    ensures Stepped(out, Abs(cpu, mem)) == ExecStore(old(Abs(cpu, mem)), inst, next, tohost)
  {
    hide Offset, Wrap, ImmS, Store, Low32;
    var addr := Wrap(cpu.Get(Rs1(inst)) + Offset(ImmS(inst)));
    var v := cpu.Get(Rs2(inst));
    match StoreLen(F3(inst)) {
      case None => out := Err(IllegalInstruction(cpu.pc, inst));
      case Some(len) =>
        if tohost == Some(addr) && (len == 8 || len == 4) {
          cpu.tohost := Some(if len == 8 then v else Low32(v));
        }
        out := DoStore(cpu, mem, v, addr, len, next);
    }
  }

  method DoCsr(cpu: Cpu, mem: Mem, inst: bv32, next: u64) returns (out: StepOut)
    requires cpu.Valid() && mem.Valid()
    modifies cpu, cpu.x, mem
    ensures mem.Valid()
    ensures Stepped(out, Abs(cpu, mem)) == ExecCsr(old(Abs(cpu, mem)), inst, next)
  {
    hide CsrNew, CsrSource, CsrWrite;
    var prior := match CsrNum(inst)
      case 0x300 => cpu.mstatus
      case 0x305 => cpu.mtvec
      case 0x341 => cpu.mepc
      case 0x342 => cpu.mcause
      case _ => 0;
    var updated := CsrNew(F3(inst), prior, CsrSource(inst, cpu.Get(Rs1(inst))));
    DoCsrWrite(cpu, CsrNum(inst), updated);
    SetAndGo(cpu, mem, Rd(inst), prior, next);
    out := Ok(false);
  }

  method DoCsrWrite(cpu: Cpu, n: bv12, v: u64)
    requires cpu.Valid()
    modifies cpu
    ensures cpu.State() == CsrWrite(old(cpu.State()), n, v)
  {
    match n {
      case 0x300 => cpu.mstatus := v;
      case 0x305 => cpu.mtvec := v - v % 4;
      case 0x341 => cpu.mepc := v;
      case 0x342 => cpu.mcause := v;
      case _ =>
    }
  }

  method DoSystem(cpu: Cpu, mem: Mem, inst: bv32, next: u64) returns (out: StepOut)
    requires cpu.Valid() && mem.Valid()
    modifies cpu, cpu.x, mem
    ensures mem.Valid()
    ensures Stepped(out, Abs(cpu, mem)) == ExecSystem(old(Abs(cpu, mem)), inst, next)
  {
    if F3(inst) == 0 {
      match CsrNum(inst) {
        case 0 => return Err(Ecall);
        case 1 => return Ok(true);
        case 0x302 =>
          cpu.pc := cpu.mepc;
          cpu.mstatus := BitAnd(cpu.mstatus, Not64(0x1800));
          return Ok(false);
        case _ => return Err(IllegalInstruction(cpu.pc, inst));
      }
    }
    if F3(inst) == 4 {
      return Err(IllegalInstruction(cpu.pc, inst));
    }
    out := DoCsr(cpu, mem, inst, next);
  }

  method Do32(cpu: Cpu, mem: Mem, inst: bv32, next: u64, tohost: Option<u64>) returns (out: StepOut)
    requires cpu.Valid() && mem.Valid()
    modifies cpu, cpu.x, mem
    ensures mem.Valid()
    ensures Stepped(out, Abs(cpu, mem)) == Exec32(old(Abs(cpu, mem)), inst, next, tohost)
  {
    hide Offset, Wrap, Sext32, ImmU, ImmJ, OpImmValue, OpImm32Value, OpValue, Op32Value;
    hide ExecJalr, ExecBranch, ExecLoad, ExecStore, ExecSystem;
    var a, b := cpu.Get(Rs1(inst)), cpu.Get(Rs2(inst));
    match Opcode(inst) {
      case 0x37 => out := DoFinish(cpu, mem, inst, Value(Sext32(ImmU(inst) as nat)), next);
      case 0x17 => out := DoFinish(cpu, mem, inst, Value(Wrap(cpu.pc + Sext32(ImmU(inst) as nat))), next);
      case 0x6f =>
        SetAndGo(cpu, mem, Rd(inst), next, Wrap(cpu.pc + Offset(ImmJ(inst))));
        out := Ok(false);
      case 0x67 => out := DoJalr(cpu, mem, inst, next);
      case 0x63 => out := DoBranch(cpu, mem, inst, next);
      case 0x03 => out := DoLoad32(cpu, mem, inst, next);
      case 0x23 => out := DoStore32(cpu, mem, inst, next, tohost);
      case 0x13 => out := DoFinish(cpu, mem, inst, OpImmValue(inst, a), next);
      case 0x1b => out := DoFinish(cpu, mem, inst, OpImm32Value(inst, a), next);
      case 0x33 => out := DoFinish(cpu, mem, inst, OpValue(F7(inst), F3(inst), a, b), next);
      case 0x3b => out := DoFinish(cpu, mem, inst, Op32Value(F7(inst), F3(inst), a, b), next);
      case 0x0f =>
        if F3(inst) > 1 {
          return Err(IllegalInstruction(cpu.pc, inst));
        }
        cpu.pc := next;
        out := Ok(false);
      case 0x73 => out := DoSystem(cpu, mem, inst, next);
      case _ => out := Err(IllegalInstruction(cpu.pc, inst));
    }
  }

  // ---------------------------------------------------------------- 16-bit instructions

  method DoCSet(cpu: Cpu, mem: Mem, rd: bv5, v: u64) returns (out: StepOut)
    requires cpu.Valid() && mem.Valid()
    modifies cpu, cpu.x
    ensures mem.Valid()
    ensures Stepped(out, Abs(cpu, mem)) == CSet(old(Abs(cpu, mem)), rd, v)
  {
    SetAndGo(cpu, mem, rd, v, Wrap(cpu.pc + 2));
    out := Ok(false);
  }

  method DoQ0(cpu: Cpu, mem: Mem, hw: bv16) returns (out: StepOut)
    requires cpu.Valid() && mem.Valid()
    modifies cpu, cpu.x, mem
    ensures mem.Valid()
    ensures Stepped(out, Abs(cpu, mem)) == ExecQ0(old(Abs(cpu, mem)), hw)
  {
    hide Offset, Wrap, ImmAddi4spn;
    match CF3(hw) {
      case 0 =>
        if ImmAddi4spn(hw) == 0 {
          return Err(IllegalInstruction(cpu.pc, hw as bv32));
        }
        out := DoCSet(cpu, mem, CRegLow(hw), Wrap(cpu.Get(2) + Offset(ImmAddi4spn(hw))));
      case 2 => out := DoQ0Load(cpu, mem, hw);
      case 3 => out := DoQ0Load(cpu, mem, hw);
      case 6 => out := DoQ0Store(cpu, mem, hw);
      case 7 => out := DoQ0Store(cpu, mem, hw);
      case _ => out := Err(IllegalInstruction(cpu.pc, hw as bv32));
    }
  }

  /** c.lw and c.ld. */
  method DoQ0Load(cpu: Cpu, mem: Mem, hw: bv16) returns (out: StepOut)
    requires cpu.Valid() && mem.Valid() && (CF3(hw) == 2 || CF3(hw) == 3)
    modifies cpu, cpu.x, mem
    ensures mem.Valid()
    ensures Stepped(out, Abs(cpu, mem)) == ExecQ0(old(Abs(cpu, mem)), hw)
  {
    hide Offset, Wrap, ImmLw, ImmLd, Load;
    var base, next := cpu.Get(CRegHigh(hw)), Wrap(cpu.pc + 2);
    var w := CF3(hw) == 2;
    var addr := Wrap(base + Offset(if w then ImmLw(hw) else ImmLd(hw)));
    out := DoLoad(cpu, mem, CRegLow(hw), addr, if w then 4 else 8, w, next);
  }

  /** c.sw and c.sd. */
  method DoQ0Store(cpu: Cpu, mem: Mem, hw: bv16) returns (out: StepOut)
    requires cpu.Valid() && mem.Valid() && (CF3(hw) == 6 || CF3(hw) == 7)
    modifies cpu, cpu.x, mem
    ensures mem.Valid()
    ensures Stepped(out, Abs(cpu, mem)) == ExecQ0(old(Abs(cpu, mem)), hw)
  {
    hide Offset, Wrap, ImmLw, ImmLd, Store;
    var base, v, next := cpu.Get(CRegHigh(hw)), cpu.Get(CRegLow(hw)), Wrap(cpu.pc + 2);
    var w := CF3(hw) == 6;
    var addr := Wrap(base + Offset(if w then ImmLw(hw) else ImmLd(hw)));
    out := DoStore(cpu, mem, v, addr, if w then 4 else 8, next);
  }

  method DoQ1Arith(cpu: Cpu, mem: Mem, hw: bv16) returns (out: StepOut)
    requires cpu.Valid() && mem.Valid()
    modifies cpu, cpu.x, mem
    ensures mem.Valid()
    ensures Stepped(out, Abs(cpu, mem)) == ExecQ1Arith(old(Abs(cpu, mem)), hw)
  {
    hide CArith;
    var dest := CRegHigh(hw);
    match CArith(hw, cpu.Get(dest), cpu.Get(CRegLow(hw))) {
      case None => out := Err(IllegalInstruction(cpu.pc, hw as bv32));
      case Some(v) => out := DoCSet(cpu, mem, dest, v);
    }
  }

  method DoQ1Lui(cpu: Cpu, mem: Mem, hw: bv16) returns (out: StepOut)
    requires cpu.Valid() && mem.Valid()
    modifies cpu, cpu.x, mem
    ensures mem.Valid()
    ensures Stepped(out, Abs(cpu, mem)) == ExecQ1Lui(old(Abs(cpu, mem)), hw)
  {
    hide Offset, Wrap, Sext32, ImmAddi16sp, ImmCLui;
    var rd := CRd(hw);
    if rd == 2 {
      if ImmAddi16sp(hw) == 0 {
        return Err(IllegalInstruction(cpu.pc, hw as bv32));
      }
      out := DoCSet(cpu, mem, 2, Wrap(cpu.Get(2) + Offset(ImmAddi16sp(hw))));
    } else if rd == 0 {
      cpu.pc := Wrap(cpu.pc + 2);
      out := Ok(false);
    } else {
      if ImmCLui(hw) == 0 {
        return Err(IllegalInstruction(cpu.pc, hw as bv32));
      }
      out := DoCSet(cpu, mem, rd, Sext32(ImmCLui(hw) as nat));
    }
  }

  method DoQ1(cpu: Cpu, mem: Mem, hw: bv16) returns (out: StepOut)
    requires cpu.Valid() && mem.Valid()
    modifies cpu, cpu.x, mem
    ensures mem.Valid()
    ensures Stepped(out, Abs(cpu, mem)) == ExecQ1(old(Abs(cpu, mem)), hw)
  {
    hide Offset, Wrap, Sext32, Imm6, ImmCJ, ImmCB, ExecQ1Lui, ExecQ1Arith;
    var rd := CRd(hw);
    match CF3(hw) {
      case 0 => out := DoCSet(cpu, mem, rd, Wrap(cpu.Get(rd) + Offset(Imm6(hw))));
      case 1 => out := DoCSet(cpu, mem, rd, Sext32(cpu.Get(rd) + Offset(Imm6(hw))));
      case 2 => out := DoCSet(cpu, mem, rd, Offset(Imm6(hw)));
      case 3 => out := DoQ1Lui(cpu, mem, hw);
      case 4 => out := DoQ1Arith(cpu, mem, hw);
      case 5 =>
        cpu.pc := Wrap(cpu.pc + Offset(ImmCJ(hw)));
        out := Ok(false);
      case _ =>
        var taken := (cpu.Get(CRegHigh(hw)) == 0) == (CF3(hw) == 6);
        cpu.pc := if taken then Wrap(cpu.pc + Offset(ImmCB(hw))) else Wrap(cpu.pc + 2);
        out := Ok(false);
    }
  }

  method DoQ2Jump(cpu: Cpu, mem: Mem, hw: bv16) returns (out: StepOut)
    requires cpu.Valid() && mem.Valid()
    modifies cpu, cpu.x, mem
    ensures mem.Valid()
    ensures Stepped(out, Abs(cpu, mem)) == ExecQ2Jump(old(Abs(cpu, mem)), hw)
  {
    hide Wrap;
    var rd, rs2 := CRd(hw), CRs2(hw);
    if rs2 == 0 {
      var target := cpu.Get(rd) - cpu.Get(rd) % 2;
      if CBit12(hw) == 0 {
        if rd == 0 {
          return Err(IllegalInstruction(cpu.pc, hw as bv32));
        }
        cpu.pc := target;
        return Ok(false);
      }
      if rd == 0 {
        return Ok(true);
      }
      SetAndGo(cpu, mem, 1, Wrap(cpu.pc + 2), target);
      return Ok(false);
    }
    var v := if CBit12(hw) == 0 then cpu.Get(rs2) else Wrap(cpu.Get(rd) + cpu.Get(rs2));
    out := DoCSet(cpu, mem, rd, v);
  }

  /** c.lwsp and c.ldsp. */
  method DoQ2Load(cpu: Cpu, mem: Mem, hw: bv16) returns (out: StepOut)
    requires cpu.Valid() && mem.Valid() && (CF3(hw) == 2 || CF3(hw) == 3)
    modifies cpu, cpu.x, mem
    ensures mem.Valid()
    ensures Stepped(out, Abs(cpu, mem)) == ExecQ2(old(Abs(cpu, mem)), hw)
  {
    hide Offset, Wrap, ImmLwsp, ImmLdsp, Load;
    var rd, sp, next := CRd(hw), cpu.Get(2), Wrap(cpu.pc + 2);
    if rd == 0 {
      return Err(IllegalInstruction(cpu.pc, hw as bv32));
    }
    var w := CF3(hw) == 2;
    var addr := Wrap(sp + Offset(if w then ImmLwsp(hw) else ImmLdsp(hw)));
    out := DoLoad(cpu, mem, rd, addr, if w then 4 else 8, w, next);
  }

  /** c.swsp and c.sdsp. */
  method DoQ2Store(cpu: Cpu, mem: Mem, hw: bv16) returns (out: StepOut)
    requires cpu.Valid() && mem.Valid() && (CF3(hw) == 6 || CF3(hw) == 7)
    modifies cpu, cpu.x, mem
    ensures mem.Valid()
    ensures Stepped(out, Abs(cpu, mem)) == ExecQ2(old(Abs(cpu, mem)), hw)
  {
    hide Offset, Wrap, ImmSwsp, ImmSdsp, Store;
    var v, sp, next := cpu.Get(CRs2(hw)), cpu.Get(2), Wrap(cpu.pc + 2);
    var w := CF3(hw) == 6;
    var addr := Wrap(sp + Offset(if w then ImmSwsp(hw) else ImmSdsp(hw)));
    out := DoStore(cpu, mem, v, addr, if w then 4 else 8, next);
  }

  method DoQ2(cpu: Cpu, mem: Mem, hw: bv16) returns (out: StepOut)
    requires cpu.Valid() && mem.Valid()
    modifies cpu, cpu.x, mem
    ensures mem.Valid()
    ensures Stepped(out, Abs(cpu, mem)) == ExecQ2(old(Abs(cpu, mem)), hw)
  {
    hide Shl, CShamt, ExecQ2Jump;
    match CF3(hw) {
      case 0 => out := DoCSet(cpu, mem, CRd(hw), Shl(cpu.Get(CRd(hw)), CShamt(hw) as nat));
      case 2 => out := DoQ2Load(cpu, mem, hw);
      case 3 => out := DoQ2Load(cpu, mem, hw);
      case 4 => out := DoQ2Jump(cpu, mem, hw);
      case 6 => out := DoQ2Store(cpu, mem, hw);
      case 7 => out := DoQ2Store(cpu, mem, hw);
      case _ => out := Err(IllegalInstruction(cpu.pc, hw as bv32));
    }
  }

  method Do16(cpu: Cpu, mem: Mem, hw: bv16) returns (out: StepOut)
    requires cpu.Valid() && mem.Valid()
    modifies cpu, cpu.x, mem
    ensures mem.Valid()
    ensures Stepped(out, Abs(cpu, mem)) == Exec16(old(Abs(cpu, mem)), hw)
  {
    hide ExecQ0, ExecQ1, ExecQ2;
    if hw & 0x3 == 0 {
      out := DoQ0(cpu, mem, hw);
    } else if hw & 0x3 == 1 {
      out := DoQ1(cpu, mem, hw);
    } else {
      out := DoQ2(cpu, mem, hw);
    }
  }

  // ---------------------------------------------------------------- fetch and step

  method Fetch(mem: Mem, a: u64) returns (hw: Option<bv16>)
    requires mem.Valid()
    modifies mem
    ensures mem.Valid() && mem.Contents() == old(mem.Contents())
    ensures hw == Fetch16(mem.Contents(), a)
  {
    var r := mem.Read(a, 2);
    Pow256Values();
    hw := if r.Some? then Some(r.value as bv16) else None;
  }

  /** One instruction (`step_mode`), both widths. */
  method StepMode(cpu: Cpu, mem: Mem, tohost: Option<u64>) returns (out: StepOut)
    requires cpu.Valid() && mem.Valid()
    modifies cpu, cpu.x, mem
    ensures mem.Valid()
    ensures Stepped(out, Abs(cpu, mem)) == Step(old(Abs(cpu, mem)), tohost)
  {
    hide Exec16, Exec32, Wrap;
    var pc := cpu.pc;
    if pc >= ADDR_SPACE {
      return Err(FetchOutOfRange);
    }
    if pc % 2 != 0 {
      return Err(FetchUnaligned);
    }
    var lo := Fetch(mem, pc);
    if lo.None? {
      return Err(FetchOutOfRange);
    }
    if lo.value & 0x3 != 0x3 {
      out := Do16(cpu, mem, lo.value);
    } else {
      out := StepWide(cpu, mem, lo.value, tohost);
    }
  }

  /** The second half of a 32-bit fetch, then the instruction. */
  method StepWide(cpu: Cpu, mem: Mem, lo: bv16, tohost: Option<u64>) returns (out: StepOut)
    requires cpu.Valid() && mem.Valid()
    requires cpu.pc < ADDR_SPACE && cpu.pc % 2 == 0
    requires Fetch16(mem.Contents(), cpu.pc) == Some(lo) && lo & 0x3 == 0x3
    modifies cpu, cpu.x, mem
    ensures mem.Valid()
    ensures Stepped(out, Abs(cpu, mem)) == Step(old(Abs(cpu, mem)), tohost)
  {
    hide Exec16, Exec32, Fetch16;
    var pc := cpu.pc;
    var hi := Fetch(mem, pc + 2);
    if hi.None? {
      return Err(FetchOutOfRange);
    }
    StepIs32(Abs(cpu, mem), lo, hi.value, tohost);
    var inst := ((hi.value as bv32) << 16) | (lo as bv32);
    out := Do32(cpu, mem, inst, Wrap(pc + 4), tohost);
  }
}
