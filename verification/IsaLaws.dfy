/** Laws of the single step: precise traps, a constant zero register, bounded page growth. */
module IsaLaws {
  import opened Words
  import opened Bits
  import opened Pages
  import opened Isa

  /** Pages whose index fits the 32 bits it is hashed and captured in. */
  ghost predicate WellIndexed(pages: PageMap) {
    forall k :: k in pages ==> k < TWO32
  }

  /** What every step owes its caller, whatever its outcome. */
  ghost predicate Lawful(m: Machine, tohost: Option<u64>, s: Stepped) {
    // a trap, a halt or an abort leaves registers, pc, CSRs and pages as they were
    && (s.out != Ok(false) ==> s.m.pages == m.pages && s.m.hart.(tohost := m.hart.tohost) == m.hart)
    // no instruction raises the trap reserved for an over-long output
    && s.out != Err(OutputTooLarge)
    // x0 is never written
    && s.m.hart.x[0] == m.hart.x[0]
    // pages are only added, and only addressable ones
    && m.pages.Keys <= s.m.pages.Keys
    && (forall k :: k in s.m.pages && k !in m.pages ==> k < LOW_PAGES)
    // without a tohost device nothing latches
    && (tohost.None? ==> s.m.hart.tohost == m.hart.tohost)
  }

  lemma LoadLawful(m: Machine, rd: bv5, addr: u64, len: nat, signed: bool, next: u64)
    ensures Lawful(m, None, Load(m, rd, addr, len, signed, next))
  {
    hide Extend, Pages.Read;
  }

  lemma StoreLawful(m: Machine, v: u64, addr: u64, len: nat, next: u64)
    requires len <= 8
    ensures Lawful(m, None, Store(m, v, addr, len, next))
  {
    hide Bytes64;
    if addr + len <= ADDR_SPACE {
      WriteBytesKeys(m.pages, addr, Bytes64(v)[..len]);
    }
  }

  lemma SystemLawful(m: Machine, inst: bv32, next: u64)
    ensures Lawful(m, None, ExecSystem(m, inst, next))
  {
    hide CsrNew, CsrSource, CsrRead, BitAnd, Not64;
  }

  lemma Exec32Lawful(m: Machine, inst: bv32, next: u64, tohost: Option<u64>)
    ensures Lawful(m, tohost, Exec32(m, inst, next, tohost))
  {
    hide Lawful, Exec32, ExecStore, ExecSystem, Opcode;
    if Opcode(inst) == 0x03 {
      LoadsLawful(m, inst, next, tohost);
    } else {
      ExecStoreLawful(m, inst, next, tohost);
      SystemLawful(m, inst, next);
      OthersLawful(m, inst, next, tohost);
    }
  }

  lemma LoadsLawful(m: Machine, inst: bv32, next: u64, tohost: Option<u64>)
    requires Opcode(inst) == 0x03
    ensures Lawful(m, tohost, Exec32(m, inst, next, tohost))
  {
    hide Offset, Wrap, Sext32, ImmU, ImmJ, OpImmValue, OpImm32Value, OpValue, Op32Value, Load, ExecStore, ExecSystem,
      BranchTaken, ImmI, ImmB, LoadShape;
    match LoadShape(F3(inst)) {
      case None =>
      case Some((len, signed)) =>
        LoadLawful(m, Rd(inst), Wrap(m.hart.Get(Rs1(inst)) + Offset(ImmI(inst))), len, signed, next);
    }
  }

  lemma OthersLawful(m: Machine, inst: bv32, next: u64, tohost: Option<u64>)
    requires Opcode(inst) != 0x03
    requires Lawful(m, tohost, ExecStore(m, inst, next, tohost)) && Lawful(m, None, ExecSystem(m, inst, next))
    ensures Lawful(m, tohost, Exec32(m, inst, next, tohost))
  {
    hide Lawful, Opcode, Offset, Wrap, Sext32, ImmU, ImmJ, OpImmValue, OpImm32Value, OpValue, Op32Value, Load,
         ExecStore, ExecSystem, ExecJalr, ExecBranch, Finish, Fail, Retire;
    var h := m.hart;
    FailLawful(m, IllegalInstruction(h.pc, inst), tohost);
    match Opcode(inst) {
      case 0x37 => SetLawful(m, Rd(inst), Sext32(ImmU(inst) as nat), next, tohost);
      case 0x17 => SetLawful(m, Rd(inst), Wrap(h.pc + Sext32(ImmU(inst) as nat)), next, tohost);
      case 0x6f => SetLawful(m, Rd(inst), next, Wrap(h.pc + Offset(ImmJ(inst))), tohost);
      case 0x67 => JalrLawful(m, inst, next, tohost);
      case 0x63 => BranchLawful(m, inst, next, tohost);
      case 0x13 => FinishLawful(m, inst, OpImmValue(inst, h.Get(Rs1(inst))), next, tohost);
      case 0x1b => FinishLawful(m, inst, OpImm32Value(inst, h.Get(Rs1(inst))), next, tohost);
      case 0x33 => FinishLawful(m, inst, OpValue(F7(inst), F3(inst), h.Get(Rs1(inst)), h.Get(Rs2(inst))), next, tohost);
      case 0x3b =>
        FinishLawful(m, inst, Op32Value(F7(inst), F3(inst), h.Get(Rs1(inst)), h.Get(Rs2(inst))), next, tohost);
      case 0x0f => GoLawful(m, next, tohost);
      case 0x73 => WithDevice(m, ExecSystem(m, inst, next), tohost);
      case _ =>
    }
  }

  lemma SetLawful(m: Machine, rd: bv5, v: u64, target: u64, tohost: Option<u64>)
    ensures Lawful(m, tohost, Retire(m, m.hart.Set(rd, v).At(target)))
  {
  }

  lemma GoLawful(m: Machine, target: u64, tohost: Option<u64>)
    ensures Lawful(m, tohost, Retire(m, m.hart.At(target)))
  {
  }

  lemma FailLawful(m: Machine, t: Trap, tohost: Option<u64>)
    requires t != OutputTooLarge
    ensures Lawful(m, tohost, Fail(m, t))
  {
  }

  lemma FinishLawful(m: Machine, inst: bv32, value: Value, next: u64, tohost: Option<u64>)
    ensures Lawful(m, tohost, Finish(m, inst, value, next))
  {
    hide Rd;
  }

  lemma JalrLawful(m: Machine, inst: bv32, next: u64, tohost: Option<u64>)
    ensures Lawful(m, tohost, ExecJalr(m, inst, next))
  {
    hide Offset, Wrap, ImmI, Rd, Rs1, F3;
  }

  lemma BranchLawful(m: Machine, inst: bv32, next: u64, tohost: Option<u64>)
    ensures Lawful(m, tohost, ExecBranch(m, inst, next))
  {
    hide Offset, Wrap, ImmB, BranchTaken, Rs1, Rs2, F3;
  }

  /** What is lawful without a device is lawful with one. */
  lemma WithDevice(m: Machine, s: Stepped, tohost: Option<u64>)
    requires Lawful(m, None, s)
    ensures Lawful(m, tohost, s)
  {
  }

  lemma ExecStoreLawful(m: Machine, inst: bv32, next: u64, tohost: Option<u64>)
    ensures Lawful(m, tohost, ExecStore(m, inst, next, tohost))
  {
    hide Offset, Wrap, ImmS, Store, Low32;
    match StoreLen(F3(inst)) {
      case None =>
      case Some(len) =>
        var v := m.hart.Get(Rs2(inst));
        var addr := Wrap(m.hart.Get(Rs1(inst)) + Offset(ImmS(inst)));
        StoreLawful(Latch(m, v, addr, len, tohost), v, addr, len, next);
    }
  }

  lemma Q0Lawful(m: Machine, hw: bv16)
    ensures Lawful(m, None, ExecQ0(m, hw))
  {
    hide Offset, Wrap, ImmAddi4spn, ImmLw, ImmLd, Load, Store;
    var base, v, next := m.hart.Get(CRegHigh(hw)), m.hart.Get(CRegLow(hw)), Wrap(m.hart.pc + 2);
    LoadLawful(m, CRegLow(hw), Wrap(base + Offset(ImmLw(hw))), 4, true, next);
    LoadLawful(m, CRegLow(hw), Wrap(base + Offset(ImmLd(hw))), 8, false, next);
    StoreLawful(m, v, Wrap(base + Offset(ImmLw(hw))), 4, next);
    StoreLawful(m, v, Wrap(base + Offset(ImmLd(hw))), 8, next);
  }

  lemma Q1Lawful(m: Machine, hw: bv16)
    ensures Lawful(m, None, ExecQ1(m, hw))
  {
    hide Offset, Wrap, Sext32, Imm6, ImmCJ, ImmCB, ExecQ1Lui, ExecQ1Arith;
    Q1LuiLawful(m, hw);
    Q1ArithLawful(m, hw);
  }

  lemma Q1LuiLawful(m: Machine, hw: bv16)
    ensures Lawful(m, None, ExecQ1Lui(m, hw))
  {
    hide Offset, Wrap, Sext32, ImmAddi16sp, ImmCLui;
  }

  lemma Q1ArithLawful(m: Machine, hw: bv16)
    ensures Lawful(m, None, ExecQ1Arith(m, hw))
  {
    hide Offset, Wrap, Sext32, Imm6, CArith;
  }

  lemma Q2Lawful(m: Machine, hw: bv16)
    ensures Lawful(m, None, ExecQ2(m, hw))
  {
    hide Offset, Wrap, Shl, ImmLwsp, ImmLdsp, ImmSwsp, ImmSdsp, Load, Store;
    var sp, v, next := m.hart.Get(2), m.hart.Get(CRs2(hw)), Wrap(m.hart.pc + 2);
    LoadLawful(m, CRd(hw), Wrap(sp + Offset(ImmLwsp(hw))), 4, true, next);
    LoadLawful(m, CRd(hw), Wrap(sp + Offset(ImmLdsp(hw))), 8, false, next);
    StoreLawful(m, v, Wrap(sp + Offset(ImmSwsp(hw))), 4, next);
    StoreLawful(m, v, Wrap(sp + Offset(ImmSdsp(hw))), 8, next);
  }

  lemma Exec16Lawful(m: Machine, hw: bv16)
    ensures Lawful(m, None, Exec16(m, hw))
  {
    hide ExecQ0, ExecQ1, ExecQ2;
    Q0Lawful(m, hw);
    Q1Lawful(m, hw);
    Q2Lawful(m, hw);
  }

  /** Every step, of either width and with any outcome, is lawful. */
  lemma StepLawful(m: Machine, tohost: Option<u64>)
    ensures Lawful(m, tohost, Step(m, tohost))
  {
    hide Exec16, Exec32, Fetch16, Wrap, Lawful, Fail;
    FailLawful(m, FetchOutOfRange, tohost);
    FailLawful(m, FetchUnaligned, tohost);
    if m.hart.pc < ADDR_SPACE {
      match Fetch16(m.pages, m.hart.pc) {
        case None =>
        case Some(hw) =>
          Exec16Lawful(m, hw);
          WithDevice(m, Exec16(m, hw), tohost);
          match Fetch16(m.pages, m.hart.pc + 2) {
            case None =>
            case Some(hi) =>
              Exec32Lawful(m, ((hi as bv32) << 16) | (hw as bv32), Wrap(m.hart.pc + 4), tohost);
          }
      }
    }
  }

  /** Traps are precise: registers, pc, CSRs and pages are exactly as before the step. Without a
      tohost device the whole machine is, and the same holds for a halt. */
  lemma TrapsArePrecise(m: Machine, tohost: Option<u64>)
    ensures var s := Step(m, tohost);
            s.out.Err? ==> s.m.pages == m.pages && s.m.hart.(tohost := m.hart.tohost) == m.hart
    ensures Step(m, None).out != Ok(false) ==> Step(m, None).m == m
  {
    hide Step;
    StepLawful(m, tohost);
    StepLawful(m, None);
  }

  // ---------------------------------------------------------------- fetching

  lemma FetchOfValue(pages: PageMap, pc: u64, hw: bv16)
    requires pc + 2 <= ADDR_SPACE && FromLE(Region(pages, pc, 2)) == hw as nat
    ensures Fetch16(pages, pc) == Some(hw)
  {
    hide FromLE, Region;
    assert (hw as nat) as bv16 == hw;
  }

  lemma TwoBytes(x: byte, y: byte)
    ensures FromLE([x, y]) == x as int + 256 * (y as int)
  {
    assert [x, y][1..] == [y] && [y][1..] == [];
    assert FromLE([x, y]) == x + 256 * FromLE([y]);
    assert FromLE([y]) == y + 256 * FromLE([]);
  }

  /** The halfword whose bytes stand at an address. */
  lemma FetchBytes(pages: PageMap, pc: u64, hw: bv16)
    requires pc + 2 <= ADDR_SPACE && ByteAt(pages, pc) as int + 256 * (ByteAt(pages, pc + 1) as int) == hw as int
    ensures Fetch16(pages, pc) == Some(hw)
  {
    hide Fetch16, FromLE, ByteAt;
    var r := Region(pages, pc, 2);
    assert r[0] == ByteAt(pages, pc + 0) && r[1] == ByteAt(pages, pc + 1);
    assert r == [ByteAt(pages, pc), ByteAt(pages, pc + 1)];
    TwoBytes(ByteAt(pages, pc), ByteAt(pages, pc + 1));
    FetchOfValue(pages, pc, hw);
  }
}
