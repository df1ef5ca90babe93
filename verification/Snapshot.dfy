/** Machine-state snapshots: the byte format, its parser and their round trip. */
module Snapshot {
  import opened Words
  import opened Pages
  import opened Isa
  import opened IsaLaws
  import opened Memory
  import opened CpuState
  import opened Hashing

  /** "RVS1". */
  function Magic(): (s: seq<byte>)
    ensures |s| == 4
  {
    [0x52, 0x56, 0x53, 0x31]
  }

  const HEADER: nat := 304
  const RECORD: nat := 4 + PAGE_SIZE

  /** Magic, page count truncated to 32 bits, registers and CSRs, page records. */
  function Capture(m: Machine): seq<byte> {
    Magic() + ToLE(|m.pages|, 4) + HartBytes(m.hart) + PageBytes(m.pages)
  }

  datatype RestoreError = TooShort | BadMagic | TruncatedPages | TrailingBytes

  datatype Restored = State(m: Machine) | Failed(error: RestoreError)

  datatype PagesRead = PagesRead(pages: PageMap) | Short | Trailing

  /** Reads n page records from `off`; a repeated index overwrites, and nothing may follow. */
  function ReadPages(bytes: seq<byte>, off: nat, n: nat, pages: PageMap): PagesRead
    requires off <= |bytes|
    decreases n
  {
    if n == 0 then
      if off == |bytes| then PagesRead(pages) else Trailing
    else if off + RECORD > |bytes| then Short
    else ReadPages(bytes, off + RECORD, n - 1, pages[FromLE(bytes[off..off + 4]) := bytes[off + 4..off + RECORD]])
  }

  function WordAt(bytes: seq<byte>, off: nat): u64
    requires off + 8 <= |bytes|
  {
    Word64(bytes[off..off + 8])
  }

  function WordsAt(bytes: seq<byte>, off: nat, n: nat): (ws: seq<u64>)
    requires off + 8 * n <= |bytes|
    ensures |ws| == n
  {
    seq<u64>(n, i requires 0 <= i < n => WordAt(bytes, off + 8 * i))
  }

  function Restore(bytes: seq<byte>): Restored {
    if |bytes| < HEADER then Failed(TooShort)
    else if bytes[..4] != Magic() then Failed(BadMagic)
    else
      var w := WordsAt(bytes, 8, 37);
      match ReadPages(bytes, HEADER, FromLE(bytes[4..8]), map[])
      case Short => Failed(TruncatedPages)
      case Trailing => Failed(TrailingBytes)
      case PagesRead(pages) => State(Machine(Hart(w[..32], w[32], w[33], w[34], w[35], w[36], None), pages))
  }

  // ---------------------------------------------------------------- the round trip

  lemma {:induction false} RegBytesAt(x: seq<u64>, i: nat)
    requires i < |x|
    ensures RegBytes(x)[8 * i..8 * i + 8] == Bytes64(x[i])
  {
    hide Bytes64;
    var rest := RegBytes(x[1..]);
    assert RegBytes(x) == Bytes64(x[0]) + rest;
    if i == 0 {
      assert (Bytes64(x[0]) + rest)[0..8] == Bytes64(x[0]);
    } else {
      RegBytesAt(x[1..], i - 1);
      assert (Bytes64(x[0]) + rest)[8 * i..8 * i + 8] == rest[8 * (i - 1)..8 * (i - 1) + 8];
    }
  }

  lemma SliceOfSlice(s: seq<byte>, a: nat, b: nat, c: nat, d: nat)
    requires a <= b <= |s| && c <= d <= b - a
    ensures s[a..b][c..d] == s[a + c..a + d]
  {
    assert |s[a..b][c..d]| == |s[a + c..a + d]|;
    assert forall i :: 0 <= i < d - c ==> s[a..b][c..d][i] == s[a + c..a + d][i];
  }

  lemma {:induction false} WordBack(bytes: seq<byte>, off: nat, x: seq<u64>, i: nat)
    requires i < |x| && off + 8 * |x| <= |bytes|
    requires bytes[off..off + 8 * |x|] == RegBytes(x)
    ensures WordAt(bytes, off + 8 * i) == x[i]
  {
    hide Word64, Bytes64, RegBytes;
    RegBytesAt(x, i);
    SliceOfSlice(bytes, off, off + 8 * |x|, 8 * i, 8 * i + 8);
    Word64Bytes64(x[i]);
  }

  /** Words read back where registers were written. */
  lemma {:induction false} WordsBack(bytes: seq<byte>, off: nat, x: seq<u64>)
    requires off + 8 * |x| <= |bytes|
    requires bytes[off..off + 8 * |x|] == RegBytes(x)
    ensures WordsAt(bytes, off, |x|) == x
  {
    hide WordAt, RegBytes;
    forall i | 0 <= i < |x|
      ensures WordAt(bytes, off + 8 * i) == x[i]
    {
      WordBack(bytes, off, x, i);
    }
  }

  /** The map with the listed pages inserted in order. */
  function AddAll(acc: PageMap, ks: seq<nat>, pages: PageMap): PageMap
    requires forall k :: k in ks ==> k in pages
    decreases |ks|
  {
    if ks == [] then acc else AddAll(acc[ks[0] := pages[ks[0]]], ks[1..], pages)
  }

  lemma {:induction false} AddAllContents(acc: PageMap, ks: seq<nat>, pages: PageMap)
    requires forall k :: k in ks ==> k in pages
    ensures AddAll(acc, ks, pages).Keys == acc.Keys + (set k | k in ks)
    ensures forall k :: k in AddAll(acc, ks, pages)
              ==> AddAll(acc, ks, pages)[k] == if k in ks then pages[k] else acc[k]
    decreases |ks|
  {
    if ks != [] {
      AddAllContents(acc[ks[0] := pages[ks[0]]], ks[1..], pages);
      assert forall k :: k in ks <==> k == ks[0] || k in ks[1..];
    }
  }

  lemma {:induction false} RecordsFront(ks: seq<nat>, pages: PageMap)
    requires ks != [] && forall k :: k in ks ==> k in pages
    ensures var r := ToLE(ks[0], 4) + pages[ks[0]];
            |r| == RECORD && Records(ks, pages) == r + Records(ks[1..], pages)
  {
    hide ToLE;
  }

  lemma {:induction false} RecordsLength(ks: seq<nat>, pages: PageMap)
    requires forall k :: k in ks ==> k in pages
    ensures |Records(ks, pages)| == RECORD * |ks|
  {
    if ks != [] {
      RecordsFront(ks, pages);
      hide Records, ToLE;
      RecordsLength(ks[1..], pages);
    }
  }

  /** Cutting a record off the rest of a byte string. */
  lemma RecordAt(bytes: seq<byte>, off: nat, index: seq<byte>, page: seq<byte>, rest: seq<byte>)
    requires off <= |bytes| && |index| == 4 && |page| == PAGE_SIZE && bytes[off..] == (index + page) + rest
    ensures off + RECORD <= |bytes| && bytes[off..off + 4] == index
    ensures bytes[off + 4..off + RECORD] == page && bytes[off + RECORD..] == rest
  {
    var tail := (index + page) + rest;
    assert tail[..4] == index && tail[4..RECORD] == page && tail[RECORD..] == rest;
    assert bytes[off..off + 4] == bytes[off..][..4];
    assert bytes[off + 4..off + RECORD] == bytes[off..][4..RECORD];
    assert bytes[off + RECORD..] == bytes[off..][RECORD..];
  }

  /** Reading n of the records that follow `off`: all of them succeed, fewer leave bytes over. */
  lemma {:induction false} ReadPagesBack(bytes: seq<byte>, off: nat, ks: seq<nat>, pages: PageMap, n: nat, acc: PageMap)
    requires off <= |bytes| && n <= |ks|
    requires forall k :: k in ks ==> k in pages && k < TWO32
    requires bytes[off..] == Records(ks, pages)
    ensures ReadPages(bytes, off, n, acc) == if n == |ks| then PagesRead(AddAll(acc, ks, pages)) else Trailing
    decreases n
  {
    hide ToLE, Records, FromLE, ReadPages;
    RecordsLength(ks, pages);
    if n > 0 {
      RecordsFront(ks, pages);
      RecordAt(bytes, off, ToLE(ks[0], 4), pages[ks[0]], Records(ks[1..], pages));
      ReadPagesStep(bytes, off, n, acc);
      Pow256Values();
      FromToLE(ks[0], 4);
      ReadPagesBack(bytes, off + RECORD, ks[1..], pages, n - 1, acc[ks[0] := pages[ks[0]]]);
    } else {
      ReadPagesEnd(bytes, off, acc);
    }
  }

  lemma {:induction false} AddAllSorted(pages: PageMap)
    ensures AddAll(map[], Sorted(pages.Keys), pages) == pages
  {
    hide AddAll, Sorted;
    AddAllContents(map[], Sorted(pages.Keys), pages);
  }

  /** Restoring a capture gives back registers, pc, CSRs and pages (and a cleared latch) exactly
      when the page count fits its 32-bit field; otherwise the snapshot is rejected. */
  lemma RestoreOfCapture(m: Machine)
    requires WellIndexed(m.pages)
    ensures Restore(Capture(m)) == State(m.(hart := m.hart.(tohost := None))) <==> |m.pages| < TWO32
    ensures |m.pages| >= TWO32 ==> Restore(Capture(m)) == Failed(TrailingBytes)
  {
    hide ToLE, HartBytes, Sorted, Records, AddAll, ReadPages, WordsAt;
    var bytes, h, ks := Capture(m), m.hart, Sorted(m.pages.Keys);
    var x := h.x + [h.pc, h.mtvec, h.mepc, h.mcause, h.mstatus];
    assert bytes[..4] == Magic();
    assert bytes[4..8] == ToLE(|m.pages|, 4);
    assert bytes[8..HEADER] == HartBytes(h);
    assert bytes[HEADER..] == PageBytes(m.pages);
    CaptureWords(bytes, h);
    assert x[..32] == h.x;
    Pow256Values();
    FromToLE(|m.pages|, 4);
    ReadPagesBack(bytes, HEADER, ks, m.pages, |m.pages| % TWO32, map[]);
    AddAllSorted(m.pages);
  }

  lemma CaptureWords(bytes: seq<byte>, h: Hart)
    requires |bytes| >= HEADER && bytes[8..HEADER] == HartBytes(h)
    ensures WordsAt(bytes, 8, 37) == h.x + [h.pc, h.mtvec, h.mepc, h.mcause, h.mstatus]
  {
    hide WordsAt, RegBytes;
    WordsBack(bytes, 8, h.x + [h.pc, h.mtvec, h.mepc, h.mcause, h.mstatus]);
  }

  /** Whatever bytes are restored, page indices fit 32 bits and the latch is clear. */
  lemma RestoredIsWellIndexed(bytes: seq<byte>)
    ensures Restore(bytes).State? ==>
              WellIndexed(Restore(bytes).m.pages) && Restore(bytes).m.hart.tohost == None
  {
    if |bytes| >= HEADER {
      ReadPagesWellIndexed(bytes, HEADER, FromLE(bytes[4..8]), map[]);
    }
  }

  lemma {:induction false} ReadPagesWellIndexed(bytes: seq<byte>, off: nat, n: nat, pages: PageMap)
    requires off <= |bytes| && WellIndexed(pages)
    ensures var r := ReadPages(bytes, off, n, pages); r.PagesRead? ==> WellIndexed(r.pages)
    decreases n
  {
    if n > 0 && off + RECORD <= |bytes| {
      Pow256Values();
      ReadPagesWellIndexed(bytes, off + RECORD, n - 1,
                           pages[FromLE(bytes[off..off + 4]) := bytes[off + 4..off + RECORD]]);
    }
  }

  // ---------------------------------------------------------------- the methods

  method CaptureState(cpu: Cpu, mem: Mem) returns (out: seq<byte>)
    requires cpu.Valid() && mem.Shaped()
    ensures out == Capture(Machine(cpu.State(), mem.Contents()))
  {
    hide ToLE, Sorted, Records, DirValid, Coherent, Gather, RegBytes;
    ghost var pages := mem.Contents();
    GatherKeys(mem.slots, mem.dir);
    assert |pages| == |pages.Keys| == |mem.dir.Keys| == |mem.dir|;
    var regs := AppendRegs(cpu.x[..] + [cpu.pc, cpu.mtvec, cpu.mepc, cpu.mcause, cpu.mstatus]);
    out := Magic() + ToLE(|mem.dir|, 4) + regs;
    var ks := Sorted(mem.dir.Keys);
    assert ks[0..] == ks;
    ghost var all := out + PageBytes(pages);
    for i := 0 to |ks|
      invariant all == out + Records(ks[i..], pages)
    {
      RecordsStep(ks, i, pages, out);
      GatherAt(mem.slots, mem.dir, ks[i]);
      out := out + (ToLE(ks[i], 4) + mem.slots[mem.dir[ks[i]]]);
    }
    NoRecords(pages);
    assert ks[|ks|..] == [] && out + [] == out;
  }

  lemma ReadPagesStep(bytes: seq<byte>, off: nat, n: nat, acc: PageMap)
    requires off <= |bytes| && n > 0
    ensures ReadPages(bytes, off, n, acc)
         == if off + RECORD > |bytes| then Short
            else ReadPages(bytes, off + RECORD, n - 1, acc[FromLE(bytes[off..off + 4]) := bytes[off + 4..off + RECORD]])
  {
  }

  lemma {:induction false} ReadPagesEnd(bytes: seq<byte>, off: nat, acc: PageMap)
    requires off <= |bytes|
    ensures ReadPages(bytes, off, 0, acc) == if off == |bytes| then PagesRead(acc) else Trailing
  {
  }

  /** The page loop of `restore`. */
  method RestorePages(bytes: seq<byte>, count: nat) returns (mem: Mem, error: Option<RestoreError>)
    requires HEADER <= |bytes|
    ensures fresh(mem) && mem.Shaped()
    ensures match ReadPages(bytes, HEADER, count, map[])
            case Short => error == Some(TruncatedPages)
            case Trailing => error == Some(TrailingBytes)
            case PagesRead(pages) => error == None && mem.Contents() == pages
  {
    hide DirValid, Coherent, Gather, ReadPages, FromLE;
    mem := new Mem();
    var off := HEADER;
    ghost var goal := ReadPages(bytes, HEADER, count, map[]);
    for i := 0 to count
      invariant fresh(mem) && mem.Shaped()
      invariant off == HEADER + RECORD * i <= |bytes|
      invariant goal == ReadPages(bytes, off, count - i, mem.Contents())
    {
      ReadPagesStep(bytes, off, count - i, mem.Contents());
      if off + RECORD > |bytes| {
        return mem, Some(TruncatedPages);
      }
      Pow256Values();
      var idx, page := FromLE(bytes[off..off + 4]), bytes[off + 4..off + RECORD];
      mem.InsertPage(idx, page);
      off := off + RECORD;
    }
    ReadPagesEnd(bytes, off, mem.Contents());
    error := if off != |bytes| then Some(TrailingBytes) else None;
  }

  /** Parses a snapshot into a processor and a fresh memory. */
  method RestoreState(bytes: seq<byte>) returns (cpu: Cpu?, mem: Mem?, error: Option<RestoreError>)
    ensures error.Some? ==> Restore(bytes) == Failed(error.value)
    ensures error.None? ==> cpu != null && mem != null && fresh(cpu) && fresh(cpu.x) && fresh(mem)
    ensures error.None? ==> cpu.Valid() && mem.Shaped()
    ensures error.None? ==> Restore(bytes) == State(Machine(cpu.State(), mem.Contents()))
  {
    hide WordsAt, DirValid, Coherent, Gather, ReadPages;
    cpu, mem := null, null;
    if |bytes| < HEADER {
      return cpu, mem, Some(TooShort);
    }
    if bytes[..4] != Magic() {
      return cpu, mem, Some(BadMagic);
    }
    var count := FromLE(bytes[4..8]);
    var w := WordsAt(bytes, 8, 37);
    cpu := new Cpu.FromParts(w[..32], w[32], w[33..]);
    mem, error := RestorePages(bytes, count);
  }
}
