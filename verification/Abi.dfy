/** What host and guest agree on: where the input is found, where the output is read, what a trap handler sees. The
    addresses are those of the layout in `crates/abi`, written out. */
module Abi {
  import opened Words
  import opened Bits
  import opened Pages
  import opened Isa
  import opened IsaLaws
  import opened CpuState
  import opened Run
  import opened RunLaws
  import opened BaseIsa
  import opened Reference

  // ---------------------------------------------------------------- the start state

  lemma {:induction false} FlatAgrees(p: PageMap, q: PageMap, a: nat, n: nat)
    requires forall k :: a <= k < a + n ==> ByteAt(p, k) == ByteAt(q, k)
    ensures Flat(p, a, n) == Flat(q, a, n)
    decreases n
  {
    if n > 0 {
      FlatAgrees(p, q, a + 1, n - 1);
    }
  }

  /** A 64-bit number written as bytes reads back. */
  lemma {:induction false} FlatOfWritten(pages: PageMap, addr: u64, v: u64)
    requires addr + 8 <= ADDR_SPACE
    ensures Flat(WriteBytes(pages, addr, ToLE(v, 8)), addr, 8) == v
  {
    hide WriteBytes, ToLE, FromLE, Flat, Region;
    ReadBack(pages, addr, ToLE(v, 8));
    FlatIsValue(WriteBytes(pages, addr, ToLE(v, 8)), addr, 8);
    Pow256Values();
    FromToLE(v, 8);
  }

  /** A job starts unless its input reaches past the address space: at its entry point, every register zero but the
      stack pointer, the input length at 0x1000_0000, the input from 0x1000_0008 on, and the image elsewhere. */
  lemma StartIs(pages: PageMap, entry: u64, input: seq<byte>)
    ensures Start(pages, entry, input).Some? <==> 0x1000_0008 + |input| <= 0x1_0000_0000
    ensures Start(pages, entry, input).Some? ==>
              var m := Start(pages, entry, input).value;
              && m.hart.pc == entry && (forall r: nat | r < 32 :: m.hart.x[r] == if r == 2 then 0x83f0_0000 else 0)
              && m.hart.mtvec == m.hart.mepc == m.hart.mcause == m.hart.mstatus == 0 && m.hart.tohost == None
              && Flat(m.pages, 0x1000_0000, 8) == |input|
              && forall a: nat | !(0x1000_0000 <= a < 0x1000_0008) :: ByteAt(m.pages, a) ==
                   if 0x1000_0008 <= a < 0x1000_0008 + |input| then input[a - 0x1000_0008] else ByteAt(pages, a)
  {
    if Start(pages, entry, input).Some? {
      hide WriteBytes, ByteAt, ToLE, Flat;
      var p := WriteBytes(pages, 0x1000_0000, ToLE(|input|, 8));
      var q := WriteBytes(p, 0x1000_0008, input);
      FlatOfWritten(pages, 0x1000_0000, |input|);
      forall a: nat
        ensures ByteAt(q, a) ==
                if 0x1000_0008 <= a < 0x1000_0008 + |input| then input[a - 0x1000_0008] else ByteAt(p, a)
        ensures !(0x1000_0000 <= a < 0x1000_0008) ==> ByteAt(p, a) == ByteAt(pages, a)
      {
        ByteAtWriteBytes(pages, 0x1000_0000, ToLE(|input|, 8), a);
        ByteAtWriteBytes(p, 0x1000_0008, input, a);
      }
      FlatAgrees(q, p, 0x1000_0000, 8);
    }
  }

  // ---------------------------------------------------------------- the output

  lemma {:induction false} ReadIsFlat(pages: PageMap, a: u64)
    requires a + 8 <= ADDR_SPACE
    ensures Read(pages, a, 8).Some? && Read(pages, a, 8).value == Flat(pages, a, 8)
  {
    hide FromLE, Region, Flat;
    FlatIsValue(pages, a, 8);
  }

  /** The output of a halting state: as many bytes from 0x2000_0008 on as the number at 0x2000_0000 says, if that is
      at most 2^20. */
  ghost predicate Reports(exit: Machine, o: Outcome) {
    var len := Flat(exit.pages, 0x2000_0000, 8);
    if len > 0x10_0000 then o.status == Trapped(OutputTooLarge) && o.output == None
    else
      && o.status == Halted && o.output.Some? && |o.output.value| == len
      && forall i: nat | i < len :: o.output.value[i] == ByteAt(exit.pages, 0x2000_0008 + i)
  }

  lemma ConcludeReports(e: End)
    requires |e.l.states| > 0
    ensures e.status == Halted ==> Reports(e.l.m, Conclude(e))
    ensures e.status != Halted ==> Conclude(e).status == e.status && Conclude(e).output == None
  {
    hide Read, Flat, ByteAt;
    ReadIsFlat(e.l.m.pages, 0x2000_0000);
  }

  /** Every run that ends where iterating meets a clean halt reports the output of the state it halts in, and no
      other run has an output. */
  lemma OutputIs(pages: PageMap, entry: u64, input: seq<byte>, cfg: Config)
    requires RunJob(pages, entry, input, cfg).Some?
    ensures var o := RunJob(pages, entry, input, cfg).value;
            && (o.status == Halted <==> o.output.Some?)
            && (o.status == Halted || o.status == Trapped(OutputTooLarge) ==>
                  && Start(pages, entry, input).Some? && Completed(o) >= 0
                  && var last := TickN(Start(pages, entry, input).value, cfg.tohost, Completed(o));
                     && last.Some?
                     && var t := TickOf(last.value, cfg.tohost);
                        t.Stop? && t.status == Halted && Reports(t.m, o))
  {
    hide Iterate, Start, TickOf, Conclude, Flat, ByteAt;
    RunIsIterate(pages, entry, input, cfg);
    var m := Start(pages, entry, input).value;
    var e := Iterate(Begin(m), cfg).value;
    RunEnd(m, Begin(m), cfg);
    IterateEndsWithLast(Begin(m), cfg);
    EndIsNoOutputTrap(m, cfg);
    ConcludeStates(e);
    ConcludeReports(e);
  }

  // ---------------------------------------------------------------- trap handlers

  /** The cause a handler reads: illegal instruction, load and store faults and environment calls (from user mode) as
      the Privileged ISA numbers them, and zero for both fetch faults, where the ISA has one for an access fault. */
  function CauseCode(t: Trap): nat {
    match t
    case IllegalInstruction(_, _) => 2
    case LoadOutOfRange(_) => 5
    case StoreOutOfRange(_) => 7
    case Ecall => 8
    case FetchUnaligned => 0
    case FetchOutOfRange => 0
    case OutputTooLarge => 0
  }

  /** A trap without a tohost device is handed to the guest if and only if it installed a handler: the handler runs at
      mtvec rounded down to four bytes with the trapping pc in mepc and the cause in mcause, everything else as it
      was; otherwise the run stops on the trap. */
  lemma TrapIsHandledIff(m: Machine)
    requires Isa.Step(m, None).out.Err?
    ensures var (t, h) := (Isa.Step(m, None).out.trap, m.hart);
            TickOf(m, None) ==
            if h.mtvec == 0 then Stop(Trapped(t), m)
            else Routed(m.(hart := h.(mepc := h.pc, mcause := CauseCode(t), pc := h.mtvec - h.mtvec % 4)))
  {
    hide Isa.Step;
    TrapsArePrecise(m, None);
  }

  lemma RoundedDown(v: nat)
    requires v <= 0xffff_ffff
    ensures (v - v % 4) % 2 == 0 && v - v % 4 <= 0xffff_fffc
  {
    var q := v / 4;
    assert v - v % 4 == 4 * q == 2 * (2 * q);
  }

  /** A handler that is a single mret brings the guest back to the trapping instruction with its registers and
      memory. */
  lemma HandlerReturns(m: Machine)
    requires Isa.Step(m, None).out.Err? && 0 < m.hart.mtvec <= 0xffff_ffff
    requires var base := m.hart.mtvec - m.hart.mtvec % 4; Flat(m.pages, base, 4) == Encode(MRET(0, 0)) as nat
    ensures TickOf(m, None).Routed?
    ensures var s := Isa.Step(TickOf(m, None).m, None);
            && s.out == Ok(false) && s.m.pages == m.pages
            && s.m.hart.x == m.hart.x && s.m.hart.pc == m.hart.pc && s.m.hart.mtvec == m.hart.mtvec
  {
    hide Isa.Step, TickOf, Encode, Flat, Bit;
    TrapIsHandledIff(m);
    RoundedDown(m.hart.mtvec);
    StepMeans(TickOf(m, None).m, MRET(0, 0), None);
  }

  // ---------------------------------------------------------------- the tohost device

  /** A word or double store to the tohost address ends the run with the stored value, whether or not the store itself
      is in range. */
  lemma TohostStops(m: Machine, access: Access, rs2: bv5, rs1: bv5, imm: bv12)
    requires access == LW || access == LD
    requires m.hart.pc % 2 == 0 && m.hart.pc + 4 <= 0x1_0000_0000
    requires Flat(m.pages, m.hart.pc, 4) == Encode(StoreTo(access, rs2, rs1, imm)) as nat
    ensures var (addr, v) := ((m.hart.x[rs1 as nat] + Int12(imm)) % TWO64, m.hart.x[rs2 as nat]);
            var t := TickOf(m, Some(addr));
            t.Stop? && t.status == Tohost(if access == LD then v else v % TWO32)
  {
    hide Isa.Step, Encode, Flat, Int12, ByteAt, Pow256;
    var addr := (m.hart.x[rs1 as nat] + Int12(imm)) % TWO64;
    StepMeans(m, StoreTo(access, rs2, rs1, imm), Some(addr));
  }
}
