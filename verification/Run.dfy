/** Running a guest to completion and the chunk-hash chain the run commits to. */
module Run {
  import opened Words
  import opened Bits
  import opened Pages
  import opened Isa
  import opened IsaLaws
  import opened Memory
  import opened CpuState
  import opened Hashing
  import opened Snapshot
  import opened Interp

  const INPUT_LEN_ADDR: u64 := 0x1000_0000
  const INPUT_DATA_ADDR: u64 := 0x1000_0008
  const OUTPUT_LEN_ADDR: u64 := 0x2000_0000
  const OUTPUT_DATA_ADDR: u64 := 0x2000_0008
  const OUTPUT_MAX: nat := 0x10_0000
  const STACK_TOP: u64 := 0x83f0_0000

  datatype Config = Config(chunkSize: u64, maxInstructions: u64, tohost: Option<u64>, snapshots: bool)

  datatype Status = Halted | Tohost(value: u64) | InstructionLimit | Trapped(trap: Trap)

  // ---------------------------------------------------------------- one iteration

  /** What one iteration of the run loop does past the instruction limit test. */
  datatype Tick =
    | Go(m: Machine)
    | Routed(m: Machine)
    | Stop(status: Status, m: Machine)
    | Abort

  function Cause(t: Trap): u64 {
    match t
    case IllegalInstruction(_, _) => 2
    case LoadOutOfRange(_) => 5
    case StoreOutOfRange(_) => 7
    case Ecall => 8
    case _ => 0
  }

  /** Enters the guest's trap handler. */
  function Route(m: Machine, t: Trap): Machine {
    var h := m.hart;
    m.(hart := h.(mcause := Cause(t), mepc := h.pc, pc := h.mtvec - h.mtvec % 4))
  }

  function TickOf(m: Machine, tohost: Option<u64>): Tick {
    var s := Step(m, tohost);
    if s.out.Panic? then Abort
    else if tohost.Some? && s.m.hart.tohost.Some? then Stop(Tohost(s.m.hart.tohost.value), s.m)
    else
      match s.out
      case Ok(true) => Stop(Halted, s.m)
      case Ok(false) => Go(s.m)
      case Err(t) => if s.m.hart.mtvec != 0 then Routed(Route(s.m, t)) else Stop(Trapped(t), s.m)
  }

  // ---------------------------------------------------------------- the loop

  /** Loop variables; `states` are the states hashed so far, `snaps` the snapshot files by index. */
  datatype Loop = Loop(m: Machine, n: nat, inChunk: nat, states: seq<Machine>, snaps: map<nat, seq<byte>>)
  {
    function Push(m': Machine, cfg: Config): Loop {
      this.(m := m', states := states + [m'],
            snaps := if cfg.snapshots then snaps[|states| := Capture(m')] else snaps)
    }
  }

  datatype End = End(status: Status, l: Loop)

  /** Runs the loop to its end; None when the host process aborts. */
  function Iterate(l: Loop, cfg: Config): Option<End>
    decreases cfg.maxInstructions - l.n
  {
    if l.n >= cfg.maxInstructions then
      Some(End(InstructionLimit, l.(states := l.states + [l.m])))
    else
      match TickOf(l.m, cfg.tohost)
      case Abort => None
      case Stop(Tohost(v), m') => Some(End(Tohost(v), l.(m := m', states := l.states + [m'])))
      case Stop(status, m') =>
        var l' := l.Push(m', cfg);
        Some(End(status, if status == Halted then l'.(n := l.n + 1) else l'))
      case Go(m') =>
        if l.inChunk + 1 == cfg.chunkSize then Iterate(l.Push(m', cfg).(n := l.n + 1, inChunk := 0), cfg)
        else Iterate(l.(m := m', n := l.n + 1, inChunk := l.inChunk + 1), cfg)
      case Routed(m') => Iterate(l.(m := m', n := l.n + 1, inChunk := l.inChunk + 1), cfg)
  }

  /** The loop function, one tick at a time. */
  lemma Unrolled(l: Loop, cfg: Config)
    requires l.n < cfg.maxInstructions
    ensures Iterate(l, cfg)
         == match TickOf(l.m, cfg.tohost)
            case Abort => None
            case Stop(status, m') =>
              if status.Tohost? then Some(End(status, l.(m := m', states := l.states + [m'])))
              else Some(End(status, l.Push(m', cfg).(n := if status == Halted then l.n + 1 else l.n)))
            case Go(m') =>
              if l.inChunk + 1 == cfg.chunkSize then Iterate(l.Push(m', cfg).(n := l.n + 1, inChunk := 0), cfg)
              else Iterate(l.(m := m', n := l.n + 1, inChunk := l.inChunk + 1), cfg)
            case Routed(m') => Iterate(l.(m := m', n := l.n + 1, inChunk := l.inChunk + 1), cfg)
  {
    hide TickOf, Capture;
  }

  lemma {:induction false} LimitReached(l: Loop, cfg: Config)
    requires l.n >= cfg.maxInstructions
    ensures Iterate(l, cfg) == Some(End(InstructionLimit, l.(states := l.states + [l.m])))
  {
    hide TickOf, Capture;
  }

  function Begin(m: Machine): Loop {
    Loop(m, 0, 0, [], map[])
  }

  // ---------------------------------------------------------------- the whole run

  datatype Outcome = Outcome(status: Status, states: seq<Machine>, instructions: nat, output: Option<seq<byte>>,
                             snaps: map<nat, seq<byte>>)

  /** The machine with the input installed; None when it does not fit (the host panics). */
  function Start(pages: PageMap, entry: u64, input: seq<byte>): Option<Machine> {
    if INPUT_DATA_ADDR + |input| > ADDR_SPACE then None
    else
      var pages' := WriteBytes(pages, INPUT_LEN_ADDR, ToLE(|input|, 8));
      Some(Machine(InitialHart(entry, STACK_TOP), WriteBytes(pages', INPUT_DATA_ADDR, input)))
  }

  /** Reads the output of a clean halt; an over-long one rewrites the status and drops the exit hash. */
  function Conclude(e: End): Outcome
    requires |e.l.states| > 0
  {
    if e.status != Halted then Outcome(e.status, e.l.states, e.l.n, None, e.l.snaps)
    else
      var len := Read(e.l.m.pages, OUTPUT_LEN_ADDR, 8).value;
      if len > OUTPUT_MAX then
        Outcome(Trapped(OutputTooLarge), e.l.states[..|e.l.states| - 1], e.l.n, None, e.l.snaps)
      else Outcome(Halted, e.l.states, e.l.n, Some(Region(e.l.m.pages, OUTPUT_DATA_ADDR, len)), e.l.snaps)
  }

  /** `run` as a function of the memory contents, entry point, input and configuration. */
  function RunJob(pages: PageMap, entry: u64, input: seq<byte>, cfg: Config): Option<Outcome> {
    match Start(pages, entry, input)
    case None => None
    case Some(m) =>
      match Iterate(Begin(m), cfg)
      case None => None
      case Some(e) =>
        IterateEndsWithLast(Begin(m), cfg);
        Some(Conclude(e))
  }

  /** The run ends on the state it hashed last. */
  lemma {:induction false} IterateEndsWithLast(l: Loop, cfg: Config)
    ensures var e := Iterate(l, cfg);
            e.Some? ==>
              && |e.value.l.states| > |l.states|
              && e.value.l.states[..|l.states|] == l.states
              && e.value.l.states[|e.value.l.states| - 1] == e.value.l.m
    decreases cfg.maxInstructions - l.n
  {
    hide TickOf, Capture, Iterate;
    if l.n < cfg.maxInstructions {
      Unrolled(l, cfg);
      match TickOf(l.m, cfg.tohost) {
        case Go(m') =>
          if l.inChunk + 1 == cfg.chunkSize {
            IterateEndsWithLast(l.Push(m', cfg).(n := l.n + 1, inChunk := 0), cfg);
            assert l.Push(m', cfg).states[..|l.states|] == l.states;
          } else {
            IterateEndsWithLast(l.(m := m', n := l.n + 1, inChunk := l.inChunk + 1), cfg);
          }
        case Routed(m') => IterateEndsWithLast(l.(m := m', n := l.n + 1, inChunk := l.inChunk + 1), cfg);
        case _ =>
      }
    } else {
      LimitReached(l, cfg);
    }
  }

  // ---------------------------------------------------------------- one judged chunk

  datatype ChunkEnd = Boundary | ChunkHalted | ChunkTrapped(trap: Trap)

  /** The state a chunk ends in; None when the host process aborts. */
  datatype ChunkOut = ChunkOut(end: ChunkEnd, m: Machine) | ChunkAborted

  /** Steps until the counter meets the chunk size, or the guest halts or traps. There is no
      instruction limit and no trap routing, and the 64-bit counter wraps around. */
  function ChunkFrom(m: Machine, chunkSize: u64, inChunk: u64): ChunkOut
    decreases (chunkSize - inChunk - 1) % TWO64
  {
    var s := Step(m, None);
    match s.out
    case Panic => ChunkAborted
    case Ok(true) => ChunkOut(ChunkHalted, s.m)
    case Err(t) => ChunkOut(ChunkTrapped(t), s.m)
    case Ok(false) =>
      var k := (inChunk + 1) % TWO64;
      if k == chunkSize then ChunkOut(Boundary, s.m)
      else
        CounterApproaches(chunkSize, inChunk);
        ChunkFrom(s.m, chunkSize, k)
  }

  lemma CounterApproaches(c: u64, i: u64)
    requires (i + 1) % TWO64 != c
    ensures (c - (i + 1) % TWO64 - 1) % TWO64 < (c - i - 1) % TWO64
  {
  }
}
