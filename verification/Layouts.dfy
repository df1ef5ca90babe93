/** The byte formats, offset by offset: what is hashed, what a snapshot holds and when one is rejected, what a worker
    signs and commits to. */
module Layouts {
  import opened Words
  import opened Pages
  import opened Isa
  import opened IsaLaws
  import opened Hashing
  import opened Snapshot
  import opened JobFormat

  /** The little-endian number in n bytes from an offset. */
  function Le(b: seq<byte>, off: nat, n: nat): nat
    requires off + n <= |b|
    decreases n
  {
    if n == 0 then 0 else b[off] + 256 * Le(b, off + 1, n - 1)
  }

  lemma {:induction false} LeIsValue(b: seq<byte>, off: nat, n: nat)
    requires off + n <= |b|
    ensures Le(b, off, n) == FromLE(b[off..off + n])
    decreases n
  {
    if n > 0 {
      LeIsValue(b, off + 1, n - 1);
      assert b[off..off + n][1..] == b[off + 1..off + n];
    }
  }

  lemma {:induction false} LeOfBytes(b: seq<byte>, off: nat, v: nat, n: nat)
    requires off + n <= |b| && b[off..off + n] == ToLE(v, n)
    ensures Le(b, off, n) == v % Pow256(n)
  {
    hide ToLE, FromLE, Pow256, Le;
    LeIsValue(b, off, n);
    FromToLE(v, n);
  }

  // ---------------------------------------------------------------- registers

  /** Registers, pc and CSRs from an offset on, eight bytes each. */
  ghost predicate HartAt(b: seq<byte>, base: nat, h: Hart) {
    && base + 296 <= |b|
    && (forall r: nat | r < 32 :: Le(b, base + 8 * r, 8) == h.x[r])
    && Le(b, base + 256, 8) == h.pc && Le(b, base + 264, 8) == h.mtvec && Le(b, base + 272, 8) == h.mepc
    && Le(b, base + 280, 8) == h.mcause && Le(b, base + 288, 8) == h.mstatus
  }

  lemma {:induction false} WordIs(b: seq<byte>, base: nat, x: seq<u64>, i: nat)
    requires i < |x| && base + 8 * |x| <= |b| && b[base..base + 8 * |x|] == RegBytes(x)
    ensures Le(b, base + 8 * i, 8) == x[i]
  {
    hide FromLE, RegBytes, Le;
    WordBack(b, base, x, i);
    LeIsValue(b, base + 8 * i, 8);
  }

  lemma HartLayout(b: seq<byte>, base: nat, h: Hart)
    requires base + 296 <= |b| && b[base..base + 296] == HartBytes(h)
    ensures HartAt(b, base, h)
  {
    hide RegBytes, Le;
    var x := h.x + [h.pc, h.mtvec, h.mepc, h.mcause, h.mstatus];
    forall r: nat | r < 32
      ensures Le(b, base + 8 * r, 8) == h.x[r]
    {
      WordIs(b, base, x, r);
    }
    WordIs(b, base, x, 32);
    WordIs(b, base, x, 33);
    WordIs(b, base, x, 34);
    WordIs(b, base, x, 35);
    WordIs(b, base, x, 36);
  }

  // ---------------------------------------------------------------- pages

  /** Record j from an offset on: a four-byte index and the 4096 bytes of the page. */
  ghost predicate RecordIs(b: seq<byte>, base: nat, j: nat, index: nat, page: Page) {
    && base + 4100 * j + 4100 <= |b|
    && Le(b, base + 4100 * j, 4) == index && b[base + 4100 * j + 4..base + 4100 * j + 4100] == page
  }

  /** One record a page, in ascending order of index, up to the end. */
  ghost predicate PagesAt(b: seq<byte>, base: nat, pages: PageMap) {
    && |b| == base + 4100 * |pages|
    && forall j: nat | j < |pages| :: RecordIs(b, base, j, Sorted(pages.Keys)[j], pages[Sorted(pages.Keys)[j]])
  }

  lemma {:induction false} RecordsLayout(b: seq<byte>, base: nat, ks: seq<nat>, pages: PageMap, j: nat)
    requires forall k :: k in ks ==> k in pages && k < TWO32
    requires base <= |b| && b[base..] == Records(ks, pages) && j < |ks|
    ensures RecordIs(b, base, j, ks[j], pages[ks[j]])
    decreases j
  {
    hide ToLE, Records, Le;
    RecordsFront(ks, pages);
    RecordAt(b, base, ToLE(ks[0], 4), pages[ks[0]], Records(ks[1..], pages));
    if j == 0 {
      Pow256Values();
      LeOfBytes(b, base, ks[0], 4);
    } else {
      RecordsLayout(b, base + 4100, ks[1..], pages, j - 1);
    }
  }

  lemma PagesLayout(b: seq<byte>, base: nat, pages: PageMap)
    requires WellIndexed(pages) && base <= |b| && b[base..] == PageBytes(pages)
    ensures PagesAt(b, base, pages)
  {
    hide Sorted, Records, RecordIs;
    var ks := Sorted(pages.Keys);
    RecordsLength(ks, pages);
    forall j: nat | j < |pages|
      ensures RecordIs(b, base, j, ks[j], pages[ks[j]])
    {
      RecordsLayout(b, base, ks, pages, j);
    }
  }

  // ---------------------------------------------------------------- what is hashed

  /** 360 bytes: the previous hash, the registers and CSRs from byte 32, and from byte 328 the hash of the page
      records. */
  lemma StateLayout(H: Hasher, prev: Hash, m: Machine)
    requires WellIndexed(m.pages)
    ensures var (b, p) := (StateBytes(H, prev, m), PageBytes(m.pages));
            && StateHash(H, prev, m) == H(b) && |b| == 360 && b[..32] == prev && HartAt(b, 32, m.hart)
            && b[328..] == H(p) && PagesAt(p, 0, m.pages)
  {
    hide HartAt, PagesAt, HartBytes, PageBytes;
    var (b, p) := (StateBytes(H, prev, m), PageBytes(m.pages));
    assert b[32..32 + 296] == HartBytes(m.hart);
    HartLayout(b, 32, m.hart);
    assert p[0..] == p;
    PagesLayout(p, 0, m.pages);
  }

  /** The first entry is chained onto 32 zero bytes, every other onto the entry before it. */
  lemma {:induction false} ChainLayout(H: Hasher, states: seq<Machine>, i: nat)
    requires i < |states|
    ensures Chain(H, states)[i]
         == StateHash(H, if i == 0 then seq<byte>(32, _ => 0) else Chain(H, states)[i - 1], states[i])
  {
    hide StateHash;
    ChainAt(H, states, i);
    assert Genesis() == seq<byte>(32, _ => 0);
  }

  // ---------------------------------------------------------------- snapshots

  /** "RVS1", the page count, registers and CSRs from byte 8, page records from byte 304. */
  lemma CaptureLayout(m: Machine)
    requires WellIndexed(m.pages)
    ensures var b := Capture(m);
            && |b| >= 304 && b[0] == 0x52 && b[1] == 0x56 && b[2] == 0x53 && b[3] == 0x31
            && Le(b, 4, 4) == |m.pages| % TWO32 && HartAt(b, 8, m.hart) && PagesAt(b, 304, m.pages)
  {
    hide HartAt, PagesAt, HartBytes, PageBytes, ToLE, Le;
    var b := Capture(m);
    assert b[4..8] == ToLE(|m.pages|, 4) && b[8..8 + 296] == HartBytes(m.hart) && b[304..] == PageBytes(m.pages);
    Pow256Values();
    LeOfBytes(b, 4, |m.pages|, 4);
    HartLayout(b, 8, m.hart);
    PagesLayout(b, 304, m.pages);
  }

  function RecordIndex(b: seq<byte>, off: nat, j: nat): nat
    requires off + 4100 * j + 4100 <= |b|
  {
    Le(b, off + 4100 * j, 4)
  }

  function RecordPage(b: seq<byte>, off: nat, j: nat): Page
    requires off + 4100 * j + 4100 <= |b|
  {
    b[off + 4100 * j + 4..off + 4100 * j + 4100]
  }

  /** The page of the last of n records with index k. */
  function LastPage(b: seq<byte>, off: nat, n: nat, k: nat): Option<Page>
    requires off + 4100 * n <= |b|
  {
    if n == 0 then None
    else if RecordIndex(b, off, n - 1) == k then Some(RecordPage(b, off, n - 1))
    else LastPage(b, off, n - 1, k)
  }

  lemma {:induction false} LastPageFront(b: seq<byte>, off: nat, n: nat, k: nat)
    requires n > 0 && off + 4100 * n <= |b|
    ensures LastPage(b, off, n, k) ==
            if LastPage(b, off + 4100, n - 1, k).Some? then LastPage(b, off + 4100, n - 1, k)
            else if RecordIndex(b, off, 0) == k then Some(RecordPage(b, off, 0)) else None
    decreases n
  {
    hide Le;
    if n > 1 {
      LastPageFront(b, off, n - 1, k);
      assert RecordIndex(b, off, n - 1) == RecordIndex(b, off + 4100, n - 2);
      assert RecordPage(b, off, n - 1) == RecordPage(b, off + 4100, n - 2);
    } else {
      assert LastPage(b, off + 4100, 0, k) == None;
      assert LastPage(b, off, 0, k) == None;
    }
  }

  lemma FirstRecord(b: seq<byte>, off: nat)
    requires off + 4100 <= |b|
    ensures RecordIndex(b, off, 0) == FromLE(b[off..off + 4]) && RecordPage(b, off, 0) == b[off + 4..off + 4100]
  {
    LeIsValue(b, off, 4);
  }

  /** The page the reader has for k. */
  function PageOf(pages: PageMap, k: nat): Option<Page> { if k in pages then Some(pages[k]) else None }

  lemma {:induction false} ReadPagesLayout(b: seq<byte>, off: nat, n: nat, before: PageMap, k: nat)
    requires off <= |b|
    ensures var r := ReadPages(b, off, n, before);
            && (r.Short? <==> |b| < off + 4100 * n)
            && (r.Trailing? <==> |b| > off + 4100 * n)
            && (r.PagesRead? ==>
                  && |b| == off + 4100 * n
                  && var last := LastPage(b, off, n, k);
                     PageOf(r.pages, k) == if last.Some? then last else PageOf(before, k))
    decreases n
  {
    hide LastPage, RecordIndex, RecordPage, FromLE, ReadPages;
    if n == 0 {
      ReadPagesEnd(b, off, before);
      assert off <= |b| ==> LastPage(b, off, 0, k) == None by { NothingRead(b, off, k); }
    } else {
      ReadPagesStep(b, off, n, before);
      if off + 4100 <= |b| {
        FirstRecord(b, off);
        ReadPagesLayout(b, off + 4100, n - 1, before[RecordIndex(b, off, 0) := RecordPage(b, off, 0)], k);
        if |b| == off + 4100 * n {
          LastPageFront(b, off, n, k);
        }
      }
    }
  }

  lemma {:induction false} NothingRead(b: seq<byte>, off: nat, k: nat)
    requires off <= |b|
    ensures LastPage(b, off, 0, k) == None
  {
  }

  /** Any bytes at all: restoring fails exactly when they are shorter than 304, do not begin with "RVS1", or hold fewer
      or more page records than they count; otherwise the processor is read from byte 8 on with an empty latch, and
      each page is that of the last record with its index. */
  lemma RestoreIff(b: seq<byte>, k: nat)
    ensures Restore(b) == Failed(TooShort) <==> |b| < 304
    ensures |b| >= 304 ==>
              var magic := b[0] == 0x52 && b[1] == 0x56 && b[2] == 0x53 && b[3] == 0x31;
              var (n, r) := (Le(b, 4, 4), Restore(b));
              && (r == Failed(BadMagic) <==> !magic)
              && (r == Failed(TruncatedPages) <==> magic && |b| < 304 + 4100 * n)
              && (r == Failed(TrailingBytes) <==> magic && |b| > 304 + 4100 * n)
              && (r.State? <==> magic && |b| == 304 + 4100 * n)
              && (r.State? ==> HartAt(b, 8, r.m.hart) && r.m.hart.tohost == None)
              && (r.State? ==> PageOf(r.m.pages, k) == LastPage(b, 304, n, k))
  {
    hide Le, LastPage, ReadPages, FromLE, WordAt;
    if |b| >= 304 {
      LeIsValue(b, 4, 4);
      ReadPagesLayout(b, 304, FromLE(b[4..8]), map[], k);
      MagicIff(b);
      forall i: nat | i < 37
        ensures WordAt(b, 8 + 8 * i) == Le(b, 8 + 8 * i, 8)
      {
        WordIsLe(b, 8 + 8 * i);
      }
    }
  }

  lemma {:induction false} WordIsLe(b: seq<byte>, off: nat)
    requires off + 8 <= |b|
    ensures WordAt(b, off) == Le(b, off, 8)
  {
    LeIsValue(b, off, 8);
  }

  lemma MagicIff(b: seq<byte>)
    requires |b| >= 4
    ensures b[..4] == Magic() <==> b[0] == 0x52 && b[1] == 0x56 && b[2] == 0x53 && b[3] == 0x31
  {
  }

  // ---------------------------------------------------------------- the signed message

  /** A field off the front: a four-byte length and as many bytes. */
  function Field(b: seq<byte>): Option<(Str, seq<byte>)> {
    if |b| < 4 || |b| < 4 + Le(b, 0, 4) then None else Some((b[4..4 + Le(b, 0, 4)], b[4 + Le(b, 0, 4)..]))
  }

  /** Fields to the end. */
  function Fields(b: seq<byte>): Option<seq<Str>>
    decreases |b|
  {
    if b == [] then Some([])
    else
      match Field(b)
      case None => None
      case Some((f, rest)) =>
        match Fields(rest)
        case None => None
        case Some(fs) => Some([f] + fs)
  }

  datatype Signed = Signed(workerId: Str, jobId: Str, status: Str, instructions: nat, resultHash: Str,
                           chunkHashes: seq<Str>, output: Str, trap: Str)

  /** A reader of the message: worker, job and status, the instruction count in eight bytes, the result hash, the chunk
      hashes, and last the output and the trap. */
  function ReadMessage(b: seq<byte>): Option<Signed> {
    match Field(b)
    case None => None
    case Some((workerId, b1)) =>
      match Field(b1)
      case None => None
      case Some((jobId, b2)) =>
        match Field(b2)
        case None => None
        case Some((status, b3)) =>
          if |b3| < 8 then None
          else
            match Field(b3[8..])
            case None => None
            case Some((resultHash, b5)) =>
              match Fields(b5)
              case None => None
              case Some(fs) =>
                if |fs| < 2 then None
                else
                  var n := |fs| - 2;
                  Some(Signed(workerId, jobId, status, Le(b3, 0, 8), resultHash, fs[..n], fs[n], fs[n + 1]))
  }

  lemma FieldReads(f: Str, rest: seq<byte>)
    requires |f| < TWO32
    ensures Field(Put(f) + rest) == Some((f, rest))
  {
    hide ToLE, Le;
    var b := Put(f) + rest;
    assert b[0..4] == ToLE(|f|, 4);
    Pow256Values();
    LeOfBytes(b, 0, |f|, 4);
    assert b[4..4 + |f|] == f && b[4 + |f|..] == rest;
  }

  lemma {:induction false} FieldsRead(fs: seq<Str>)
    requires forall i :: 0 <= i < |fs| ==> |fs[i]| < TWO32
    ensures Fields(PutAll(fs)) == Some(fs)
  {
    hide Field, Put;
    if fs != [] {
      FieldReads(fs[0], PutAll(fs[1..]));
      FieldsRead(fs[1..]);
      assert [fs[0]] + fs[1..] == fs;
    }
  }

  /** The reader gets back every field of every message whose fields fit their lengths. */
  lemma MessageReads(r: WorkerResult)
    requires FieldsFit(r)
    ensures ReadMessage(SigningMessage(r)) ==
            Some(Signed(r.workerId, r.jobId, r.status, r.instructions, r.resultHash, r.chunkHashes,
                        OrEmpty(r.outputHex), OrEmpty(r.trap)))
  {
    hide Field, Fields, Put, PutAll, ToLE, Le;
    var fs := r.chunkHashes + [OrEmpty(r.outputHex), OrEmpty(r.trap)];
    var b5 := PutAll(fs);
    var b4 := Put(r.resultHash) + b5;
    var b3 := ToLE(r.instructions, 8) + b4;
    var b2 := Put(r.status) + b3;
    FieldReads(r.workerId, Put(r.jobId) + b2);
    FieldReads(r.jobId, b2);
    FieldReads(r.status, b3);
    FieldReads(r.resultHash, b5);
    FieldsRead(fs);
    assert b3[0..8] == ToLE(r.instructions, 8) && b3[8..] == b4;
    Pow256Values();
    LeOfBytes(b3, 0, r.instructions, 8);
    assert fs[..|fs| - 2] == r.chunkHashes;
  }

  // ---------------------------------------------------------------- journal and hex

  /** Eight bytes of instruction count, then the output. */
  lemma JournalLayout(instructions: u64, output: seq<byte>)
    ensures var j := Journal(instructions, output);
            |j| == 8 + |output| && Le(j, 0, 8) == instructions && j[8..] == output
  {
    hide ToLE, Le;
    var j := Journal(instructions, output);
    assert j[0..8] == ToLE(instructions, 8);
    Pow256Values();
    LeOfBytes(j, 0, instructions, 8);
  }

  /** Hex text has only the digits and the letters a to f. */
  lemma {:induction false} HexIsLowerCase(b: seq<byte>, i: nat)
    requires i < |Hex(b)|
    ensures 0x30 <= Hex(b)[i] <= 0x39 || 0x61 <= Hex(b)[i] <= 0x66
  {
    if i >= 2 {
      HexIsLowerCase(b[1..], i - 2);
    }
  }

  /** The hex digits of either case and their values. */
  lemma DigitIff(c: byte, d: nat)
    ensures Digit(c) == Some(d) <==>
            d < 16 && (c == "0123456789abcdef"[d] as int || c == "0123456789ABCDEF"[d] as int)
  {
  }
}
