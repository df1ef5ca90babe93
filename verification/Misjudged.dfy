/** Concrete guests on which properties fail: a genuine snapshot leads the one-chunk judge to a different
    hash than the replay, and a routed trap makes a run lose its chunk boundaries. */
module Misjudged {
  import opened Words
  import opened Bits
  import opened Pages
  import opened Isa
  import opened IsaLaws
  import opened CpuState
  import opened Hashing
  import opened Snapshot
  import opened Run
  import opened RunLaws
  import opened Judge

  lemma FetchFromPageZero(pages: PageMap, pc: nat, hw: bv16)
    requires 0 in pages && pc + 2 <= PAGE_SIZE
    requires pages[0][pc] as int + 256 * (pages[0][pc + 1] as int) == hw as int
    ensures Fetch16(pages, pc) == Some(hw)
  {
    hide Fetch16;
    assert pc / PAGE_SIZE == 0 && (pc + 1) / PAGE_SIZE == 0;
    FetchBytes(pages, pc, hw);
  }

  /** c.nop at the program counter: the step only advances it. */
  lemma NopStep(m: Machine)
    requires 0 in m.pages && m.hart.pc % 2 == 0 && m.hart.pc + 2 <= PAGE_SIZE
    requires m.pages[0][m.hart.pc] == 1 && m.pages[0][m.hart.pc + 1] == 0
    ensures Step(m, None) == Retire(m, m.hart.At(m.hart.pc + 2))
  {
    hide Fetch16;
    FetchFromPageZero(m.pages, m.hart.pc, 1);
    NopExec(m);
  }

  lemma NopExec(m: Machine)
    requires m.hart.pc < ADDR_SPACE
    ensures Exec16(m, 1) == Retire(m, m.hart.At(m.hart.pc + 2))
  {
    hide Offset, Imm6;
    assert CRd(1) == 0 && CF3(1) == 0;
  }

  lemma NopTick(m: Machine)
    requires 0 in m.pages && m.hart.pc % 2 == 0 && m.hart.pc + 2 <= PAGE_SIZE
    requires m.pages[0][m.hart.pc] == 1 && m.pages[0][m.hart.pc + 1] == 0
    ensures TickOf(m, None) == Go(m.(hart := m.hart.At(m.hart.pc + 2)))
  {
    hide Step;
    NopStep(m);
  }

  /** Installing an empty input leaves page 0 alone. */
  lemma {:induction false} PageZeroUntouched(pages: PageMap, addr: nat, bytes: seq<byte>)
    requires 0 in pages && addr >= PAGE_SIZE
    ensures 0 in WriteBytes(pages, addr, bytes) && WriteBytes(pages, addr, bytes)[0] == pages[0]
    decreases |bytes|
  {
    if bytes != [] {
      PageZeroUntouched(pages, addr, bytes[..|bytes| - 1]);
      assert (addr + |bytes| - 1) / PAGE_SIZE != 0;
    }
  }

  lemma StartOnPageZero(page: Page)
    ensures var m := Start(map[0 := page], 0, []);
            m.Some? && m.value.hart == InitialHart(0, STACK_TOP) && 0 in m.value.pages && m.value.pages[0] == page
  {
    hide WriteBytes, ToLE;
    PageZeroUntouched(map[0 := page], INPUT_LEN_ADDR, ToLE(0, 8));
    PageZeroUntouched(WriteBytes(map[0 := page], INPUT_LEN_ADDR, ToLE(0, 8)), INPUT_DATA_ADDR, []);
  }

  // ---------------------------------------------------------------- the instruction limit

  /** A page of c.nop. */
  function NopPage(): Page {
    seq<byte>(PAGE_SIZE, i => if i % 2 == 0 then 1 else 0)
  }

  function At(m: Machine, pc: u64): Machine {
    m.(hart := m.hart.At(pc))
  }

  /** Chunks of two instructions with a budget of three: the second entry is the limit's. */
  lemma NopRun(m: Machine)
    requires 0 in m.pages && m.pages[0] == NopPage() && m.hart.pc == 0
    ensures var e := Iterate(Begin(m), Config(2, 3, None, true));
            && e.Some? && e.value.status == InstructionLimit && e.value.l.states == [At(m, 4), At(m, 6)]
            && 0 in e.value.l.snaps
  {
    hide TickOf, Capture;
    var cfg := Config(2, 3, None, true);
    NopTick(m);
    NopTick(At(m, 2));
    NopTick(At(m, 4));
    var l1 := Begin(m).(m := At(m, 2), n := 1, inChunk := 1);
    var l2 := l1.Push(At(m, 4), cfg).(n := 2, inChunk := 0);
    var l3 := l2.(m := At(m, 6), n := 3, inChunk := 1);
    assert Iterate(Begin(m), cfg) == Iterate(l1, cfg);
    assert Iterate(l1, cfg) == Iterate(l2, cfg);
    assert Iterate(l2, cfg) == Iterate(l3, cfg);
    assert l2.states == [At(m, 4)];
  }

  lemma {:induction false} NopChunk(m: Machine)
    requires 0 in m.pages && m.pages[0] == NopPage() && m.hart.pc == 4
    ensures ChunkFrom(m, 2, 0) == ChunkOut(Boundary, At(m, 8))
  {
    hide Step;
    NopStep(m);
    NopStep(At(m, 6));
    assert ChunkFrom(m, 2, 0) == ChunkFrom(At(m, 6), 2, 1);
  }

  /** The run's own snapshot before the limit entry: the judge accepts it and executes past the budget, so
      it answers the hash of another state than the replay hashed. The two agree only on a collision. */
  lemma LimitEntryIsMisjudged(H: Hasher)
    ensures var o := RunJob(map[0 := NopPage()], 0, [], Config(2, 3, None, true));
            && o.Some? && o.value.status == InstructionLimit && |o.value.states| == 2
            && Misjudges(H, o.value, 2)
  {
    hide Iterate, Start, TickOf, ChunkFrom, StateBytes, Chain, Misjudges, Capture, Conclude;
    var (pages, cfg) := (map[0 := NopPage()], Config(2, 3, None, true));
    StartOnPageZero(NopPage());
    var m := Start(pages, 0, []).value;
    NopRun(m);
    NopChunk(At(m, 4));
    ConcludeKeepsLimit(Iterate(Begin(m), cfg).value);
    ConcludeKeepsStates(Iterate(Begin(m), cfg).value);
    JudgeOnOwnSnapshot(H, pages, cfg);
  }

  /** The judge accepts the file the run wrote at its first boundary and answers the hash of another state
      than entry 1; if the hashes agree all the same, the two named byte strings collide. */
  ghost predicate Misjudges(H: Hasher, o: Outcome, chunkSize: u64)
    requires |o.states| > 1
  {
    && 0 in o.snaps
    && var (s, chain) := (o.states, Chain(H, o.states));
       var (j, c) := (JudgeSnapshot(H, Some(o.snaps[0]), 1, chain, chunkSize), ChunkFrom(s[0], chunkSize, 0));
       && c.ChunkOut? && !SameState(c.m, s[1])
       && j == Truth(StateHash(H, chain[0], c.m))
       && (j == Truth(chain[1]) ==> Collides(H, StateBytes(H, chain[0], c.m), StateBytes(H, chain[0], s[1])))
  }

  lemma JudgeOnOwnSnapshot(H: Hasher, pages: PageMap, cfg: Config)
    requires forall k :: k in pages ==> k < LOW_PAGES
    requires RunJob(pages, 0, [], cfg).Some?
    requires var o := RunJob(pages, 0, [], cfg).value;
             && 0 in o.snaps && |o.states| > 1
             && var c := ChunkFrom(o.states[0], cfg.chunkSize, 0);
                c.ChunkOut? && c.m.hart.pc != o.states[1].hart.pc
    ensures Misjudges(H, RunJob(pages, 0, [], cfg).value, cfg.chunkSize)
  {
    hide RunJob, Restore, ChunkFrom, StateBytes, Chain;
    var o := RunJob(pages, 0, [], cfg).value;
    var c := ChunkFrom(o.states[0], cfg.chunkSize, 0);
    HonestSnapshotsVerify(H, pages, 0, [], cfg, 0);
    DifferentPcDifferentBytes(H, Chain(H, o.states)[0], c.m, o.states[1]);
    ChainAt(H, o.states, 1);
  }

  lemma DifferentPcDifferentBytes(H: Hasher, prev: Hash, m: Machine, n: Machine)
    requires m.hart.pc != n.hart.pc
    ensures StateBytes(H, prev, m) != StateBytes(H, prev, n)
  {
    hide HartBytes, Root;
    if StateBytes(H, prev, m) == StateBytes(H, prev, n) {
      AppendInjective(prev + HartBytes(m.hart), Root(H, m.pages), prev + HartBytes(n.hart), Root(H, n.pages));
      AppendInjective(prev, HartBytes(m.hart), prev, HartBytes(n.hart));
      HartBytesInjective(m.hart, n.hart);
    }
  }

  // ---------------------------------------------------------------- a routed trap

  /** csrrwi x0, mtvec, 8; c.nop; an all-zero (illegal) halfword; c.nop from address 8 on. */
  function RoutePage(): Page {
    seq<byte>(PAGE_SIZE, i =>
      if i == 0 then 0x73 else if i == 1 then 0x50 else if i == 2 then 0x54 else if i == 3 then 0x30
      else if i == 6 then 0 else if i % 2 == 0 then 1 else 0)
  }

  lemma CsrExec(m: Machine)
    ensures Exec32(m, 0x3054_5073, 4, None) == Retire(m, m.hart.(mtvec := 8, pc := 4))
  {
    var inst: bv32 := 0x3054_5073;
    assert Opcode(inst) == 0x73 && F3(inst) == 5 && CsrNum(inst) == 0x305 && Rd(inst) == 0 && Rs1(inst) == 8;
    assert CsrSource(inst, m.hart.Get(8)) == 8;
    assert CsrNew(5, m.hart.mtvec, 8) == 8;
  }

  lemma CsrFetch(pages: PageMap)
    requires 0 in pages && pages[0] == RoutePage()
    ensures Fetch16(pages, 0) == Some(0x5073) && Fetch16(pages, 2) == Some(0x3054)
  {
    hide Fetch16;
    FetchFromPageZero(pages, 0, 0x5073);
    FetchFromPageZero(pages, 2, 0x3054);
  }

  lemma CsrStep(m: Machine)
    requires 0 in m.pages && m.pages[0] == RoutePage() && m.hart.pc == 0
    ensures Step(m, None) == Retire(m, m.hart.(mtvec := 8, pc := 4))
  {
    hide Fetch16, Exec32, Exec16, Step;
    CsrFetch(m.pages);
    StepIs32(m, 0x5073, 0x3054, None);
    CsrExec(m);
  }

  lemma CsrTick(m: Machine)
    requires 0 in m.pages && m.pages[0] == RoutePage() && m.hart.pc == 0
    ensures TickOf(m, None) == Go(m.(hart := m.hart.(mtvec := 8, pc := 4)))
  {
    hide Step;
    CsrStep(m);
  }

  lemma IllegalStep(m: Machine)
    requires 0 in m.pages && m.pages[0] == RoutePage() && m.hart.pc == 6
    ensures Step(m, None) == Fail(m, IllegalInstruction(6, 0))
  {
    hide Fetch16;
    FetchFromPageZero(m.pages, 6, 0);
    assert CF3(0) == 0 && ImmAddi4spn(0) == 0;
    assert Exec16(m, 0) == Bad(m, 0);
  }

  /** At the handler's first instruction, two bytes on. */
  function Handled(m: Machine, pc: u64): Machine {
    m.(hart := m.hart.(mtvec := 8, mepc := 6, mcause := 2, pc := pc))
  }

  lemma RouteRun(m: Machine)
    requires 0 in m.pages && m.pages[0] == RoutePage() && m.hart.pc == 0
    ensures var a := m.(hart := m.hart.(mtvec := 8, pc := 6));
            var e := Iterate(Begin(m), Config(2, 4, None, true));
            && e.Some? && e.value.status == InstructionLimit
            && e.value.l.states == [a, Handled(m, 10), Handled(m, 10)]
            && 0 in e.value.l.snaps
  {
    hide Step, Capture;
    var cfg := Config(2, 4, None, true);
    var b := m.(hart := m.hart.(mtvec := 8, pc := 4));
    var a := At(b, 6);
    CsrTick(m);
    NopTick(b);
    IllegalStep(a);
    assert TickOf(a, None) == Routed(Handled(m, 8));
    NopTick(Handled(m, 8));
    var l1 := Begin(m).(m := b, n := 1, inChunk := 1);
    var l2 := l1.Push(a, cfg).(n := 2, inChunk := 0);
    var l3 := l2.(m := Handled(m, 8), n := 3, inChunk := 1);
    var l4 := l3.Push(Handled(m, 10), cfg).(n := 4, inChunk := 0);
    assert Iterate(Begin(m), cfg) == Iterate(l1, cfg);
    assert Iterate(l1, cfg) == Iterate(l2, cfg);
    assert Iterate(l2, cfg) == Iterate(l3, cfg);
    assert Iterate(l3, cfg) == Iterate(l4, cfg);
    assert l4.states == [a, Handled(m, 10)];
  }

  /** The run's own snapshot before a chunk whose trap the guest handles: the judge accepts it and stops at
      the trap while the replay went on in the handler. The answers agree only on a collision. */
  lemma RoutedTrapIsMisjudged(H: Hasher)
    ensures var o := RunJob(map[0 := RoutePage()], 0, [], Config(2, 4, None, true));
            o.Some? && |o.value.states| == 3 && Misjudges(H, o.value, 2)
  {
    hide Iterate, Start, TickOf, StateBytes, Chain, Step, Misjudges, Capture, Conclude;
    var (pages, cfg) := (map[0 := RoutePage()], Config(2, 4, None, true));
    StartOnPageZero(RoutePage());
    var m := Start(pages, 0, []).value;
    RouteRun(m);
    IllegalStep(m.(hart := m.hart.(mtvec := 8, pc := 6)));
    ConcludeKeepsLimit(Iterate(Begin(m), cfg).value);
    ConcludeKeepsStates(Iterate(Begin(m), cfg).value);
    JudgeOnOwnSnapshot(H, pages, cfg);
  }

  // ---------------------------------------------------------------- a lost boundary

  /** The same guest in chunks of three: its trap takes the last slot of the first chunk. */
  lemma LateRun(m: Machine)
    requires 0 in m.pages && m.pages[0] == RoutePage() && m.hart.pc == 0
    ensures var e := Iterate(Begin(m), Config(3, 6, None, false));
            && e.Some? && e.value.status == InstructionLimit && e.value.l.n == 6
            && e.value.l.states == [Handled(m, 14)]
    ensures LateAt(m, Config(3, 6, None, false), 2)
  {
    hide Step, Capture;
    var cfg := Config(3, 6, None, false);
    var b := m.(hart := m.hart.(mtvec := 8, pc := 4));
    var a := At(b, 6);
    CsrTick(m);
    NopTick(b);
    IllegalStep(a);
    assert TickOf(a, None) == Routed(Handled(m, 8));
    NopTick(Handled(m, 8));
    NopTick(Handled(m, 10));
    NopTick(Handled(m, 12));
    hide TickOf;
    assert TickN(m, None, 1) == Some(b);
    assert TickN(m, None, 2) == Some(a);
    var l1 := Begin(m).(m := b, n := 1, inChunk := 1);
    var l2 := l1.(m := a, n := 2, inChunk := 2);
    var l3 := l2.(m := Handled(m, 8), n := 3, inChunk := 3);
    var l4 := l3.(m := Handled(m, 10), n := 4, inChunk := 4);
    var l5 := l4.(m := Handled(m, 12), n := 5, inChunk := 5);
    var l6 := l5.(m := Handled(m, 14), n := 6, inChunk := 6);
    assert Iterate(Begin(m), cfg) == Iterate(l1, cfg);
    assert Iterate(l1, cfg) == Iterate(l2, cfg);
    assert Iterate(l2, cfg) == Iterate(l3, cfg);
    assert Iterate(l3, cfg) == Iterate(l4, cfg);
    assert Iterate(l4, cfg) == Iterate(l5, cfg);
    assert Iterate(l5, cfg) == Iterate(l6, cfg);
  }

  /** A run of six iterations in chunks of three with a one-entry chain where three are due. */
  lemma LateRouteSilencesChain()
    ensures var (m, cfg) := (Start(map[0 := RoutePage()], 0, []), Config(3, 6, None, false));
            var o := RunJob(map[0 := RoutePage()], 0, [], cfg);
            && m.Some? && o.Some? && Completed(o.value) == 6 && LateRoute(m.value, cfg, 6)
            && |o.value.states| == 1 < Completed(o.value) / cfg.chunkSize + 1
  {
    hide Iterate, Start, TickOf, LateAt, Conclude, Capture;
    var cfg := Config(3, 6, None, false);
    StartOnPageZero(RoutePage());
    var m := Start(map[0 := RoutePage()], 0, []).value;
    LateRun(m);
    var e := Iterate(Begin(m), cfg).value;
    ConcludeKeepsLimit(e);
    ConcludeStates(e);
  }
}
