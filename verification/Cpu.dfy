/** The register file, program counter and machine CSRs, updated in place. */
module CpuState {
  import opened Words
  import opened Isa

  /** The state a run starts in: all zero but the program counter and the stack pointer x2. */
  function InitialHart(pc: u64, sp: u64): Hart {
    Hart(seq(32, i => if i == 2 then sp else 0), pc, 0, 0, 0, 0, None)
  }

  class Cpu {
    const x: array<u64>
    var pc: u64
    var mtvec: u64
    var mepc: u64
    var mcause: u64
    var mstatus: u64
    var tohost: Option<u64>

    ghost predicate Valid() {
      x.Length == 32
    }

    /** The abstract state of this object. */
    ghost function State(): Hart
      requires Valid()
      reads this, x
    {
      Hart(x[..], pc, mtvec, mepc, mcause, mstatus, tohost)
    }

    constructor (pc: u64, sp: u64)
      ensures Valid() && fresh(x)
      ensures State() == InitialHart(pc, sp)
    {
      this.x := new u64[32](i => if i == 2 then sp else 0);
      this.pc := pc;
      mtvec, mepc, mcause, mstatus, tohost := 0, 0, 0, 0, None;
      new;
      assert x[..] == InitialHart(pc, sp).x;
    }

    /** Rebuilds a processor from stored registers, with the tohost latch cleared. */
    constructor FromParts(regs: seq<u64>, pc: u64, csr: seq<u64>)
      requires |regs| == 32 && |csr| == 4
      ensures Valid() && fresh(x)
      ensures State() == Hart(regs, pc, csr[0], csr[1], csr[2], csr[3], None)
    {
      this.x := new u64[32](i requires 0 <= i < 32 => regs[i]);
      this.pc := pc;
      mtvec, mepc, mcause, mstatus, tohost := csr[0], csr[1], csr[2], csr[3], None;
      new;
      assert x[..] == regs;
    }

    function Get(r: bv5): (v: u64)
      requires Valid()
      reads this, x
      ensures v == State().Get(r)
    {
      x[r as nat]
    }

    /** Writes a register; x0 ignores writes. */
    method Set(r: bv5, v: u64)
      requires Valid()
      modifies x
      ensures State() == old(State()).Set(r, v)
    {
      if r != 0 {
        x[r as nat] := v;
      }
    }
  }
}
