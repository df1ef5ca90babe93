/** The run loop and the one-chunk loop in their own form, on a processor and a memory object. */
module Runner {
  import opened Words
  import opened Pages
  import opened Isa
  import opened Memory
  import opened CpuState
  import opened Hashing
  import opened Snapshot
  import opened Interp
  import opened Run

  /** What a run reports to its caller. */
  datatype RunOutcome = RunOutcome(status: Status, chunkHashes: seq<Hash>, instructions: nat,
                                   output: Option<seq<byte>>, snaps: map<nat, seq<byte>>)

  datatype TickKind = KGo | KRouted | KStop(status: Status) | KAbort

  /** A tick as the kind reported and the machine left behind. */
  ghost predicate Ticked(t: Tick, kind: TickKind, m: Machine) {
    match kind
    case KGo => t == Go(m)
    case KRouted => t == Routed(m)
    case KStop(status) => t == Stop(status, m)
    case KAbort => t == Abort
  }

  /** One iteration past the limit test: step, tohost test, trap routing. */
  method DoTick(cpu: Cpu, mem: Mem, tohost: Option<u64>) returns (kind: TickKind)
    requires cpu.Valid() && mem.Valid()
    modifies cpu, cpu.x, mem
    ensures mem.Valid()
    ensures Ticked(TickOf(old(Abs(cpu, mem)), tohost), kind, Abs(cpu, mem))
  {
    hide Step, DirValid, Coherent, Gather;
    var out := StepMode(cpu, mem, tohost);
    if out.Panic? {
      return KAbort;
    }
    if tohost.Some? && cpu.tohost.Some? {
      return KStop(Tohost(cpu.tohost.value));
    }
    match out {
      case Ok(halted) => kind := if halted then KStop(Halted) else KGo;
      case Err(t) =>
        if cpu.mtvec == 0 {
          return KStop(Trapped(t));
        }
        cpu.mcause := match t
          case IllegalInstruction(_, _) => 2
          case LoadOutOfRange(_) => 5
          case StoreOutOfRange(_) => 7
          case Ecall => 8
          case _ => 0;
        cpu.mepc := cpu.pc;
        cpu.pc := cpu.mtvec - cpu.mtvec % 4;
        kind := KRouted;
    }
  }

  /** The loop of `run`: hashes at every boundary and at the exit. */
  method RunLoop(cpu: Cpu, mem: Mem, cfg: Config, H: Hasher)
    returns (ok: bool, status: Status, n: nat, chain: seq<Hash>, snaps: map<nat, seq<byte>>)
    requires cpu.Valid() && mem.Valid()
    modifies cpu, cpu.x, mem
    ensures mem.Valid()
    ensures var r := Iterate(Begin(old(Abs(cpu, mem))), cfg);
            && ok == r.Some?
            && (ok ==> var e := r.value;
                       && status == e.status && n == e.l.n && chain == Chain(H, e.l.states) && snaps == e.l.snaps
                       && e.l.m == Abs(cpu, mem))
  {
    hide TickOf, Capture, DirValid, Coherent, Gather, Chain, Iterate;
    ghost var goal := Iterate(Begin(Abs(cpu, mem)), cfg);
    ghost var states: seq<Machine> := [];
    var inChunk := 0;
    n, chain, snaps, status := 0, [], map[], InstructionLimit;
    assert Chain(H, states) == [];
    while n < cfg.maxInstructions
      invariant mem.Valid()
      invariant chain == Chain(H, states)
      invariant goal == Iterate(Loop(Abs(cpu, mem), n, inChunk, states, snaps), cfg)
      decreases cfg.maxInstructions - n
    {
      Unrolled(Loop(Abs(cpu, mem), n, inChunk, states, snaps), cfg);
      var kind := DoTick(cpu, mem, cfg.tohost);
      if kind.KAbort? {
        return false, status, n, chain, snaps;
      }
      if kind.KStop? && kind.status.Tohost? {
        chain := PushHash(cpu, mem, chain, states, H);
        return true, kind.status, n, chain, snaps;
      }
      if kind.KStop? {
        snaps := WriteSnapshot(cpu, mem, cfg, |chain|, snaps);
        chain := PushHash(cpu, mem, chain, states, H);
        return true, kind.status, if kind.status == Halted then n + 1 else n, chain, snaps;
      }
      n, inChunk := n + 1, inChunk + 1;
      if kind.KGo? && inChunk == cfg.chunkSize {
        snaps := WriteSnapshot(cpu, mem, cfg, |chain|, snaps);
        chain := PushHash(cpu, mem, chain, states, H);
        states := states + [Abs(cpu, mem)];
        inChunk := 0;
      }
    }
    LimitReached(Loop(Abs(cpu, mem), n, inChunk, states, snaps), cfg);
    chain := PushHash(cpu, mem, chain, states, H);
    ok := true;
  }

  /** `push_hash`: chains the current state onto the last entry. */
  method PushHash(cpu: Cpu, mem: Mem, chain: seq<Hash>, ghost states: seq<Machine>, H: Hasher)
    returns (chain': seq<Hash>)
    requires cpu.Valid() && mem.Valid()
    requires chain == Chain(H, states)
    ensures chain' == Chain(H, states + [Abs(cpu, mem)])
  {
    hide Hashing.StateHash, DirValid, Coherent, Gather;
    var prev := if |chain| == 0 then Genesis() else chain[|chain| - 1];
    var h := HashState(prev, cpu, mem, H);
    assert (states + [Abs(cpu, mem)])[..|states|] == states;
    chain' := chain + [h];
  }

  /** `write_snapshot`: the file for a chain index, when snapshots are configured. */
  method WriteSnapshot(cpu: Cpu, mem: Mem, cfg: Config, index: nat, snaps: map<nat, seq<byte>>)
    returns (snaps': map<nat, seq<byte>>)
    requires cpu.Valid() && mem.Valid()
    ensures snaps' == if cfg.snapshots then snaps[index := Capture(Abs(cpu, mem))] else snaps
  {
    hide DirValid, Coherent, Gather, Capture;
    snaps' := snaps;
    if cfg.snapshots {
      var bytes := CaptureState(cpu, mem);
      snaps' := snaps[index := bytes];
    }
  }

  /** `run`: install the input, loop, read the output. None is a host panic. */
  method RunGuest(mem: Mem, entry: u64, input: seq<byte>, cfg: Config, H: Hasher) returns (o: Option<RunOutcome>)
    requires mem.Valid()
    modifies mem
    ensures mem.Valid()
    ensures match RunJob(old(mem.Contents()), entry, input, cfg)
            case None => o == None
            case Some(x) => o == Some(RunOutcome(x.status, Chain(H, x.states), x.instructions, x.output, x.snaps))
  {
    hide Iterate, Begin, DirValid, Coherent, Gather, Chain, ToLE, Region, WriteBytes;
    ghost var start := Start(mem.Contents(), entry, input);
    var cpu := new Cpu(entry, STACK_TOP);
    var ok := mem.Write(INPUT_LEN_ADDR, ToLE(|input|, 8));
    ok := mem.Write(INPUT_DATA_ADDR, input);
    if !ok {
      return None;
    }
    assert start == Some(Abs(cpu, mem));
    ghost var r := Iterate(Begin(Abs(cpu, mem)), cfg);
    IterateEndsWithLast(Begin(Abs(cpu, mem)), cfg);
    var done, status, n, chain, snaps := RunLoop(cpu, mem, cfg, H);
    if !done {
      return None;
    }
    o := ConcludeRun(mem, status, n, chain, snaps, r.value, H);
  }

  /** The tail of `run`: output of a clean halt, or the over-long output rewrite. */
  method ConcludeRun(mem: Mem, status: Status, n: nat, chain: seq<Hash>, snaps: map<nat, seq<byte>>, ghost e: End,
                     H: Hasher) returns (o: Option<RunOutcome>)
    requires mem.Valid()
    requires |e.l.states| > 0 && e.l.m.pages == mem.Contents()
    requires status == e.status && n == e.l.n && chain == Chain(H, e.l.states) && snaps == e.l.snaps
    modifies mem
    ensures mem.Valid()
    ensures var x := Conclude(e);
            o == Some(RunOutcome(x.status, Chain(H, x.states), x.instructions, x.output, x.snaps))
  {
    hide DirValid, Coherent, Gather, Region, Hashing.StateHash;
    if status != Halted {
      return Some(RunOutcome(status, chain, n, None, snaps));
    }
    var len := mem.Read(OUTPUT_LEN_ADDR, 8);
    if len.value > OUTPUT_MAX {
      assert Chain(H, e.l.states)[..|e.l.states| - 1] == Chain(H, e.l.states[..|e.l.states| - 1]);
      return Some(RunOutcome(Trapped(OutputTooLarge), chain[..|chain| - 1], n, None, snaps));
    }
    var output := mem.ReadRegion(OUTPUT_DATA_ADDR, len.value);
    o := Some(RunOutcome(Halted, chain, n, output, snaps));
  }

  /** `execute_chunk_from` after the restore: one chunk, hashed onto `prev`. */
  method ExecuteChunk(cpu: Cpu, mem: Mem, prev: Hash, chunkSize: u64, H: Hasher)
    returns (ok: bool, h: Hash, end: ChunkEnd)
    requires cpu.Valid() && mem.Valid()
    modifies cpu, cpu.x, mem
    ensures mem.Valid()
    ensures match ChunkFrom(old(Abs(cpu, mem)), chunkSize, 0)
            case ChunkAborted => !ok
            case ChunkOut(e, m) => ok && end == e && h == Hashing.StateHash(H, prev, m)
  {
    hide Step, DirValid, Coherent, Gather, Hashing.StateHash;
    ghost var goal := ChunkFrom(Abs(cpu, mem), chunkSize, 0);
    var inChunk: u64 := 0;
    h, end := Genesis(), Boundary;
    while true
      invariant mem.Valid()
      invariant goal == ChunkFrom(Abs(cpu, mem), chunkSize, inChunk)
      decreases (chunkSize - inChunk - 1) % TWO64
    {
      var out := StepMode(cpu, mem, None);
      match out {
        case Panic => return false, h, end;
        case Ok(halted) =>
          if halted {
            h := HashState(prev, cpu, mem, H);
            return true, h, ChunkHalted;
          }
          ghost var i := inChunk;
          inChunk := (inChunk + 1) % TWO64;
          if inChunk == chunkSize {
            h := HashState(prev, cpu, mem, H);
            return true, h, Boundary;
          }
          CounterApproaches(chunkSize, i);
        case Err(t) =>
          h := HashState(prev, cpu, mem, H);
          return true, h, ChunkTrapped(t);
      }
    }
  }
}
