/** Concrete guests: one whose output is over-long, and a 122-byte ELF file that loads, halts, and whose
    honest chain loses to an extension. */
module Witness {
  import opened Words
  import opened Pages
  import opened Isa
  import opened IsaLaws
  import opened CpuState
  import opened Hashing
  import opened Snapshot
  import opened Run
  import opened Judge
  import opened Misjudged
  import opened Dispute
  import Elf

  // ---------------------------------------------------------------- a guest that halts at once

  /** c.ebreak at address 0. */
  predicate Halts(pages: PageMap) {
    ByteAt(pages, 0) == 0x02 && ByteAt(pages, 1) == 0x90
  }

  lemma HaltStep(m: Machine)
    requires Halts(m.pages) && m.hart.pc == 0
    ensures Step(m, None) == Stepped(Ok(true), m)
  {
    hide Fetch16;
    FetchBytes(m.pages, 0, 0x9002);
    assert CF3(0x9002) == 4 && CRd(0x9002) == 0 && CRs2(0x9002) == 0 && CBit12(0x9002) == 1;
  }

  lemma {:induction false} HaltRun(m: Machine, cfg: Config)
    requires Halts(m.pages) && m.hart.pc == 0 && cfg.tohost.None? && !cfg.snapshots && cfg.maxInstructions > 0
    ensures Iterate(Begin(m), cfg) == Some(End(Halted, Loop(m, 1, 0, [m], map[])))
  {
    hide Step, Iterate;
    HaltStep(m);
    Unrolled(Begin(m), cfg);
    assert [] + [m] == [m];
  }

  /** Installing an empty input only writes its length. */
  lemma StartBytes(pages: PageMap, a: nat)
    ensures var m := Start(pages, 0, []);
            && m.Some? && m.value.hart == InitialHart(0, STACK_TOP)
            && (!(INPUT_LEN_ADDR <= a < INPUT_LEN_ADDR + 8) ==> ByteAt(m.value.pages, a) == ByteAt(pages, a))
  {
    hide WriteBytes, ToLE, ByteAt;
    ByteAtWriteBytes(pages, INPUT_LEN_ADDR, ToLE(0, 8), a);
    ByteAtWriteBytes(WriteBytes(pages, INPUT_LEN_ADDR, ToLE(0, 8)), INPUT_DATA_ADDR, [], a);
  }

  /** The run of such a guest: the state it starts in is the one it halts in. */
  lemma HaltingJob(pages: PageMap, cfg: Config)
    requires Halts(pages) && cfg.tohost.None? && !cfg.snapshots && cfg.maxInstructions > 0
    ensures var m := Start(pages, 0, []);
            m.Some? && RunJob(pages, 0, [], cfg) == Some(Conclude(End(Halted, Loop(m.value, 1, 0, [m.value], map[]))))
  {
    hide Iterate, Start, Conclude;
    StartBytes(pages, 0);
    StartBytes(pages, 1);
    HaltRun(Start(pages, 0, []).value, cfg);
  }

  // ---------------------------------------------------------------- an over-long output

  /** A most significant byte of one is a length of 2^56. */
  lemma TopByte(b: seq<byte>)
    requires |b| == 8 && b[7] == 1
    ensures Word64(b) > OUTPUT_MAX
  {
    assert b == b[..7] + [b[7]];
    FromLEAppend(b[..7], b[7]);
    Pow256Values();
  }

  function LongPages(): PageMap {
    map[0 := ZeroPage()[0 := 0x02][1 := 0x90], 0x2_0000 := ZeroPage()[7 := 1]]
  }

  /** The guest halts cleanly, but the run reports a trap and commits to no state at all: the exit hash is
      dropped. */
  lemma OverLongOutput()
    ensures RunJob(LongPages(), 0, [], Config(2, 1, None, false))
         == Some(Outcome(Trapped(OutputTooLarge), [], 1, None, map[]))
  {
    var pages := LongPages();
    assert Halts(pages) && ByteAt(pages, OUTPUT_LEN_ADDR + 7) == 1;
    hide Start, ByteAt, Halts, LongPages, RunJob;
    HaltingJob(pages, Config(2, 1, None, false));
    StartBytes(pages, OUTPUT_LEN_ADDR + 7);
    var m := Start(pages, 0, []).value;
    TopByte(Region(m.pages, OUTPUT_LEN_ADDR, 8));
    assert [m][..0] == [];
  }

  // ---------------------------------------------------------------- a file that loads

  lemma {:induction false} ZerosAreZero(b: seq<byte>)
    requires forall i :: 0 <= i < |b| ==> b[i] == 0
    ensures FromLE(b) == 0
  {
    if b != [] {
      ZerosAreZero(b[1..]);
    }
  }

  lemma {:induction false} LowByte(b: seq<byte>)
    requires |b| > 0 && forall i :: 0 < i < |b| ==> b[i] == 0
    ensures FromLE(b) == b[0]
  {
    ZerosAreZero(b[1..]);
  }

  /** The bytes that are not zero: identification, type, machine, header sizes, one program header that loads
      the last two bytes at address 0, and those bytes, c.ebreak. */
  function TinyByte(i: nat): byte {
    match i
    case 0 => 0x7f case 1 => 0x45 case 2 => 0x4c case 3 => 0x46 case 4 => 2 case 5 => 1
    case 0x10 => 2 case 0x12 => 243 case 0x20 => 64 case 0x36 => 56 case 0x38 => 1
    case 64 => 1 case 72 => 120 case 96 => 2 case 104 => 2
    case 120 => 0x02 case 121 => 0x90
    case _ => 0
  }

  function TinyElf(): (b: seq<byte>)
    ensures |b| == 122
  {
    seq<byte>(122, i requires 0 <= i => TinyByte(i))
  }

  /** A field of n bytes of which only the first may be nonzero. */
  lemma TinyField(o: nat, n: nat)
    requires n in {2, 4, 8} && o + n <= 122 && forall i :: o < i < o + n ==> TinyByte(i) == 0
    ensures n == 2 ==> Elf.U16(TinyElf(), o) == TinyByte(o)
    ensures n == 4 ==> Elf.U32(TinyElf(), o) == TinyByte(o)
    ensures n == 8 ==> Elf.U64(TinyElf(), o) == TinyByte(o)
  {
    hide TinyByte, FromLE;
    var b := TinyElf()[o..o + n];
    assert forall i :: 0 <= i < n ==> b[i] == TinyByte(o + i);
    LowByte(b);
  }

  lemma TinySizes()
    ensures var b := TinyElf();
            Elf.U16(b, 0x12) == 243 && Elf.U16(b, 0x10) == 2 && Elf.U16(b, 0x36) == 56 && Elf.U16(b, 0x38) == 1
  {
    hide TinyElf, Elf.U16, Elf.U32, Elf.U64;
    TinyField(0x12, 2);
    TinyField(0x10, 2);
    TinyField(0x36, 2);
    TinyField(0x38, 2);
  }

  lemma TinyAddresses()
    ensures var b := TinyElf(); Elf.U64(b, 0x18) == 0 && Elf.U64(b, 0x20) == 64 && Elf.U32(b, 64) == 1
  {
    hide TinyElf, Elf.U16, Elf.U32, Elf.U64;
    TinyField(0x18, 8);
    TinyField(0x20, 8);
    TinyField(64, 4);
  }

  lemma TinyExtent()
    ensures var b := TinyElf(); Elf.U64(b, 72) == 120 && Elf.U64(b, 80) == 0 && Elf.U64(b, 96) == Elf.U64(b, 104) == 2
  {
    hide TinyElf, Elf.U16, Elf.U32, Elf.U64;
    TinyField(72, 8);
    TinyField(80, 8);
    TinyField(96, 8);
    TinyField(104, 8);
  }

  lemma TinyHeader()
    ensures Elf.HeaderOk(TinyElf())
  {
    TinySizes();
    assert TinyElf()[..4] == Elf.ElfMagic();
  }

  lemma TinyCode()
    ensures TinyElf()[120..122] == [0x02, 0x90]
  {
  }

  lemma TinySegment()
    ensures var b := TinyElf();
            && Elf.EntryInside(b, 0) && Elf.IsLoad(b, 0) && Elf.SegmentOk(b, 0) && Elf.EntryOk(b, 0)
            && Elf.Segment(b, 0) == (0, [0x02, 0x90])
  {
    hide TinyElf, TinyByte, Elf.U64, Elf.U32;
    TinyCode();
    TinyAddresses();
    TinyExtent();
  }

  /** The file is accepted, with entry point 0, and its image is its code on zeroed memory. */
  lemma TinyLoads() returns (pages: PageMap)
    ensures var b := TinyElf();
            && Elf.Acceptable(b) && Elf.U64(b, 0x18) == 0
            && Elf.LoadSegments(map[], Elf.Segments(b, Elf.U16(b, 0x38))) == Some(pages)
    ensures Halts(pages) && forall a: nat :: a >= 2 ==> ByteAt(pages, a) == 0
  {
    hide TinyElf, TinyByte, Elf.HeaderOk, Elf.EntryOk, Elf.IsLoad, Elf.SegmentOk, Elf.Segment, Elf.U64, Elf.U16,
         Elf.EntryInside, ByteAt, Elf.LoadSegments;
    TinyHeader();
    TinySizes();
    TinyAddresses();
    TinySegment();
    var b := TinyElf();
    assert Elf.Segments(b, 1) == Elf.Segments(b, 0) + [Elf.Segment(b, 0)] == [Elf.Segment(b, 0)];
    Elf.ParseImpliesLoad(b, 0);
    pages := Elf.LoadSegments(map[], Elf.Segments(b, 1)).value;
    forall a: nat
      ensures ByteAt(pages, a) == if a == 0 then 0x02 else if a == 1 then 0x90 else 0
    {
      Elf.ParseImpliesLoad(b, a);
    }
  }

  /** With no other byte set the output is empty. */
  lemma SilentHalt(pages: PageMap, cfg: Config)
    requires Halts(pages) && cfg.tohost.None? && !cfg.snapshots && cfg.maxInstructions > 0
    requires forall a: nat :: a >= 2 ==> ByteAt(pages, a) == 0
    ensures var o := RunJob(pages, 0, [], cfg);
            && o.Some? && o.value.status == Halted && |o.value.states| == 1
            && o.value.instructions == 1 && o.value.output == Some([])
  {
    hide Start, RunJob, Halts, ByteAt;
    HaltingJob(pages, cfg);
    var m := Start(pages, 0, []).value;
    var len := Region(m.pages, OUTPUT_LEN_ADDR, 8);
    forall i | 0 <= i < 8
      ensures len[i] == 0
    {
      StartBytes(pages, OUTPUT_LEN_ADDR + i);
    }
    ZerosAreZero(len);
  }

  /** It replays to a clean halt with one state, one instruction and an empty output. */
  lemma TinyReplays(chunkSize: u64, max: u64)
    requires max > 0
    ensures var r := ReplayJob(TinyElf(), 0, [], chunkSize, max);
            && r.Replayed? && r.o.status == Halted && |r.o.states| == 1
            && r.o.instructions == 1 && r.o.output == Some([])
  {
    hide TinyElf, RunJob, Halts, ByteAt, Elf.Acceptable, Elf.LoadSegments, Elf.Segments, Elf.U16;
    var pages := TinyLoads();
    SilentHalt(pages, Config(chunkSize, max, None, false));
  }

  /** The dispute over that file: the honest one-entry chain against the same chain with the halted state
      hashed once more, given the honest run's own snapshot or none. */
  ghost function TinyDispute(H: Hasher, snapshot: bool): Input {
    var s := ReplayJob(TinyElf(), 0, [], 2, 1);
    var states := if s.Replayed? then s.o.states else [];
    var a := Chain(H, states);
    var b := if a == [] then a else a + [StateHash(H, a[|a| - 1], states[|a| - 1])];
    Input(HexChain(a), HexChain(b), TinyElf(), 0, [], 2, 1,
          if snapshot && a != [] then map[|a| - 1 := Capture(states[|a| - 1])] else map[])
  }

  /** The honest claim is overruled on the snapshot, and gets no verdict without it. */
  lemma ExtensionBeatsTinyChain(H: Hasher)
    ensures Resolving(H, TinyDispute(H, true)) == Resolved(CounterHonest(1))
    ensures Resolving(H, TinyDispute(H, false)) == Resolved(Malformed)
  {
    hide ReplayJob, Chain, StateHash, TinyElf, Settle, DecodeChain, HexChain, Capture, ChunkFrom;
    TinyReplays(2, 1);
    var states := ReplayJob(TinyElf(), 0, [], 2, 1).o.states;
    var a := Chain(H, states);
    var b := a + [StateHash(H, a[0], states[0])];
    HexChainDecodes(a);
    HexChainDecodes(b);
    SomeExtensionWinsIff(H, TinyDispute(H, true));
    ExtensionUpheldIff(H, TinyDispute(H, true), b);
    DivergenceUnique(a, b, 1, Divergence(a, b));
    assert TinyDispute(H, false).file == map[];
    assert TinyDispute(H, true).(file := map[]) == TinyDispute(H, false);
  }
}
