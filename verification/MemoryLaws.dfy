/** The memory over whole histories: it is a flat zero-default byte map, and nothing observable depends
    on slot order or cache contents. */
module MemoryLaws {
  import opened Words
  import opened Pages
  import opened Isa
  import opened Memory
  import opened CpuState
  import opened Hashing
  import opened Snapshot
  import opened Run
  import opened Runner

  /** An operation on a memory. */
  datatype MemOp =
    | Store(addr: u64, bytes: seq<byte>)
    | Load(at: u64, len: nat)
    | PutPage(index: nat, page: Page)

  /** Inserted pages have 32-bit indices, and not every unreachable page is among them. */
  ghost predicate LeavesRoom(ops: seq<MemOp>) {
    && (forall i :: 0 <= i < |ops| && ops[i].PutPage? ==> ops[i].index < TWO32)
    && exists h :: LOW_PAGES <= h < TWO32 && NeverPut(ops, h)
  }

  ghost predicate NeverPut(ops: seq<MemOp>, h: nat) {
    forall i :: 0 <= i < |ops| && ops[i].PutPage? ==> ops[i].index != h
  }

  /** The page map after a history; an out-of-range store and every load change nothing. */
  function Replay(ops: seq<MemOp>): PageMap {
    if ops == [] then map[]
    else
      var pages := Replay(ops[..|ops| - 1]);
      match ops[|ops| - 1]
      case Store(addr, bytes) => if Write(pages, addr, bytes).Some? then Write(pages, addr, bytes).value else pages
      case Load(_, _) => pages
      case PutPage(index, page) => pages[index := page]
  }

  /** What one operation puts at an address, if anything. */
  function PutsAt(op: MemOp, a: nat): Option<byte> {
    match op
    case Store(addr, bytes) =>
      if addr + |bytes| <= ADDR_SPACE && addr <= a < addr + |bytes| then Some(bytes[a - addr]) else None
    case Load(_, _) => None
    case PutPage(index, page) =>
      if index * PAGE_SIZE <= a < (index + 1) * PAGE_SIZE then Some(page[a - index * PAGE_SIZE]) else None
  }

  /** The flat memory: the last byte put at an address, zero before any. */
  function Flat(ops: seq<MemOp>, a: nat): byte {
    if ops == [] then 0
    else if PutsAt(ops[|ops| - 1], a).Some? then PutsAt(ops[|ops| - 1], a).value
    else Flat(ops[..|ops| - 1], a)
  }

  lemma PageBounds(a: nat, index: nat)
    ensures index * PAGE_SIZE <= a < (index + 1) * PAGE_SIZE <==> a / PAGE_SIZE == index
    ensures a / PAGE_SIZE == index ==> a - index * PAGE_SIZE == a % PAGE_SIZE
  {
  }

  /** The paged memory shows, at every address, the byte of the flat memory. */
  lemma {:induction false} PagedIsFlat(ops: seq<MemOp>, a: nat)
    ensures ByteAt(Replay(ops), a) == Flat(ops, a)
  {
    if ops != [] {
      var before, op := ops[..|ops| - 1], ops[|ops| - 1];
      PagedIsFlat(before, a);
      match op {
        case Store(addr, bytes) => ByteAtWriteBytes(Replay(before), addr, bytes, a);
        case Load(_, _) =>
        case PutPage(index, page) => PageBounds(a, index);
      }
    }
  }

  function FlatRegion(ops: seq<MemOp>, addr: nat, len: nat): (s: seq<byte>)
    ensures |s| == len
  {
    seq<byte>(len, i requires 0 <= i < len => Flat(ops, addr + i))
  }

  /** Every load, misaligned or across pages or not, is the little-endian value of the flat bytes. */
  lemma {:induction false} LoadsAreFlat(ops: seq<MemOp>, addr: u64, len: nat)
    ensures Read(Replay(ops), addr, len)
         == if len in {1, 2, 4, 8} && addr + len <= ADDR_SPACE then Some(Word64(FlatRegion(ops, addr, len))) else None
    ensures Region(Replay(ops), addr, len) == FlatRegion(ops, addr, len)
  {
    hide Flat, ByteAt, Replay, Words.Word64;
    forall i | 0 <= i < len
      ensures Region(Replay(ops), addr, len)[i] == FlatRegion(ops, addr, len)[i]
    {
      PagedIsFlat(ops, addr + i);
    }
    assert Region(Replay(ops), addr, len) == FlatRegion(ops, addr, len);
  }

  lemma {:induction false} NeverAllocated(ops: seq<MemOp>, h: nat)
    requires LOW_PAGES <= h && NeverPut(ops, h)
    ensures h !in Replay(ops)
  {
    if ops != [] {
      var before, op := ops[..|ops| - 1], ops[|ops| - 1];
      assert forall i :: 0 <= i < |before| ==> before[i] == ops[i];
      NeverAllocated(before, h);
      if op.Store? && op.addr + |op.bytes| <= ADDR_SPACE {
        WriteBytesKeys(Replay(before), op.addr, op.bytes);
      }
    }
  }

  lemma StillRoom(ops: seq<MemOp>, i: nat, h: nat)
    requires i <= |ops| && LOW_PAGES <= h < TWO32 && NeverPut(ops, h)
    ensures Room(Replay(ops[..i]).Keys)
  {
    assert forall j :: 0 <= j < i ==> ops[..i][j] == ops[j];
    NeverAllocated(ops[..i], h);
    assert h !in Replay(ops[..i]).Keys;
  }

  /** A real memory driven through any history: each load answers as the flat memory of the operations
      before it, and the contents are those of the history. */
  method Drive(ops: seq<MemOp>) returns (mem: Mem, answers: seq<Option<u64>>)
    requires LeavesRoom(ops)
    ensures fresh(mem) && mem.Valid() && mem.Contents() == Replay(ops)
    ensures |answers| == |ops|
    ensures forall i :: 0 <= i < |ops| && ops[i].Load? ==> answers[i] == Read(Replay(ops[..i]), ops[i].at, ops[i].len)
  {
    hide DirValid, Coherent, Gather, Room, Pages.Read, WriteBytes;
    ghost var h :| LOW_PAGES <= h < TWO32 && NeverPut(ops, h);
    mem := new Mem();
    answers := [];
    assert ops[..0] == [];
    for i := 0 to |ops|
      invariant fresh(mem) && mem.Valid() && mem.Contents() == Replay(ops[..i])
      invariant |answers| == i
      invariant forall j :: 0 <= j < i && ops[j].Load? ==> answers[j] == Read(Replay(ops[..j]), ops[j].at, ops[j].len)
    {
      assert ops[..i + 1][..i] == ops[..i];
      var answer := None;
      match ops[i] {
        case Store(addr, bytes) => var _ := mem.Write(addr, bytes);
        case Load(at, len) => answer := mem.Read(at, len);
        case PutPage(index, page) =>
          mem.InsertPage(index, page);
          StillRoom(ops, i + 1, h);
          ValidIffRoom(mem);
      }
      answers := answers + [answer];
    }
    assert ops[..|ops|] == ops;
  }

  /** Two memories with the same contents, however their slots and caches differ, have the same root and
      the same snapshot, and carry any program to the same chain, count, output and snapshots. */
  method Indistinguishable(a: Mem, b: Mem, cpu: Cpu, entry: u64, input: seq<byte>, cfg: Config, H: Hasher)
    returns (ra: Hash, rb: Hash, ca: seq<byte>, cb: seq<byte>, oa: Option<RunOutcome>, ob: Option<RunOutcome>)
    requires a.Valid() && b.Valid() && a != b && a.Contents() == b.Contents() && cpu.Valid()
    modifies a, b
    ensures ra == rb && ca == cb && oa == ob
  {
    hide DirValid, Coherent, Gather, RunJob, Root, Capture;
    ra := MerkleRoot(a, H);
    rb := MerkleRoot(b, H);
    ca := CaptureState(cpu, a);
    cb := CaptureState(cpu, b);
    oa := RunGuest(a, entry, input, cfg, H);
    ob := RunGuest(b, entry, input, cfg, H);
  }
}
