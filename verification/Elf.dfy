/** The ELF64 loader: parsing program headers, finding the tohost section, placing the image.

    Program headers follow chapter 5 of the System V gABI. Offsets are 64-bit in the source; every
    addition it leaves unchecked is asserted here to stay below 2^64. */
module Elf {
  import opened Words
  import opened Pages
  import opened Memory

  /** Larger than any byte slice the host can hold. */
  const SLICE_MAX: nat := 0x8000_0000_0000_0000

  datatype Image = Image(entry: u64, segments: seq<(u64, seq<byte>)>, tohost: Option<u64>)

  datatype ParseError =
    | TooShort | BadMagic | NotElf64 | NotLittleEndian | NotRiscv | NotExecutable | BadEntrySize
    | HeadersOverflow | TruncatedHeaders | FileLargerThanMemory | SegmentOverflow | OutsideAddressSpace
    | BeyondFile | NoLoadSegment

  datatype ParseResult = Parsed(image: Image) | Rejected(error: ParseError)

  function U16(b: seq<byte>, o: nat): nat
    requires o + 2 <= |b|
  {
    FromLE(b[o..o + 2])
  }

  function U32(b: seq<byte>, o: nat): nat
    requires o + 4 <= |b|
  {
    FromLE(b[o..o + 4])
  }

  function U64(b: seq<byte>, o: nat): u64
    requires o + 8 <= |b|
  {
    Word64(b[o..o + 8])
  }

  // ---------------------------------------------------------------- what an acceptable file is

  function ElfMagic(): seq<byte> { [0x7f, 0x45, 0x4c, 0x46] }

  /** The identification and sizes the loader insists on. */
  predicate HeaderOk(b: seq<byte>) {
    && |b| >= 64 && b[..4] == ElfMagic() && b[4] == 2 && b[5] == 1
    && U16(b, 0x12) == 243 && U16(b, 0x10) == 2 && U16(b, 0x36) == 56
  }

  /** Program header i lies inside the file. */
  predicate EntryInside(b: seq<byte>, i: nat)
    requires |b| >= 64
  {
    U64(b, 0x20) + 56 * i + 56 <= |b|
  }

  function EntryBase(b: seq<byte>, i: nat): nat
    requires |b| >= 64
  {
    U64(b, 0x20) + 56 * i
  }

  predicate IsLoad(b: seq<byte>, i: nat)
    requires |b| >= 64 && EntryInside(b, i)
  {
    U32(b, EntryBase(b, i)) == 1
  }

  /** The segment's memory lies in the address space and its file bytes in the file. */
  predicate SegmentOk(b: seq<byte>, i: nat)
    requires |b| >= 64 && EntryInside(b, i)
  {
    var p := EntryBase(b, i);
    var offset, vaddr, filesz, memsz := U64(b, p + 8), U64(b, p + 16), U64(b, p + 32), U64(b, p + 40);
    filesz <= memsz && vaddr + memsz <= ADDR_SPACE && offset + filesz <= |b|
  }

  function Segment(b: seq<byte>, i: nat): (u64, seq<byte>)
    requires |b| >= 64 && EntryInside(b, i) && SegmentOk(b, i)
  {
    var p := EntryBase(b, i);
    (U64(b, p + 16), b[U64(b, p + 8)..U64(b, p + 8) + U64(b, p + 32)])
  }

  predicate EntryOk(b: seq<byte>, i: nat)
    requires |b| >= 64
  {
    EntryInside(b, i) && (IsLoad(b, i) ==> SegmentOk(b, i))
  }

  /** The load segments among the first n program headers, in table order. */
  function Segments(b: seq<byte>, n: nat): seq<(u64, seq<byte>)>
    requires |b| >= 64 && forall i :: 0 <= i < n ==> EntryOk(b, i)
  {
    if n == 0 then []
    else
      assert EntryOk(b, n - 1);
      if IsLoad(b, n - 1) then Segments(b, n - 1) + [Segment(b, n - 1)] else Segments(b, n - 1)
  }

  /** Exactly the files the loader accepts. */
  ghost predicate Acceptable(b: seq<byte>) {
    && HeaderOk(b)
    && (forall i :: 0 <= i < U16(b, 0x38) ==> EntryOk(b, i))
    && Segments(b, U16(b, 0x38)) != []
  }

  // ---------------------------------------------------------------- the parser

  /** Reads one load header; the checks in the order the loader makes them. */
  method ParseSegment(b: seq<byte>, i: nat) returns (r: Option<(u64, seq<byte>)>, error: ParseError)
    requires 64 <= |b| < SLICE_MAX && EntryInside(b, i)
    ensures r.Some? <==> SegmentOk(b, i)
    ensures r.Some? ==> r.value == Segment(b, i)
  {
    hide Word64, FromLE;
    error := BeyondFile;
    var base := EntryBase(b, i);
    assert base + 48 < TWO64;
    var offset, vaddr := U64(b, base + 8), U64(b, base + 16);
    var filesz, memsz := U64(b, base + 32), U64(b, base + 40);
    if filesz > memsz {
      return None, FileLargerThanMemory;
    }
    if vaddr + memsz >= TWO64 {
      return None, SegmentOverflow;
    }
    if vaddr + memsz > ADDR_SPACE {
      return None, OutsideAddressSpace;
    }
    if offset + filesz >= TWO64 || offset + filesz > |b| {
      return None, BeyondFile;
    }
    r := Some((vaddr, b[offset..offset + filesz]));
  }

  /** The program header loop. */
  method ParseSegments(b: seq<byte>) returns (segments: seq<(u64, seq<byte>)>, error: Option<ParseError>)
    requires 64 <= |b| < SLICE_MAX
    ensures error.None? <==> forall i :: 0 <= i < U16(b, 0x38) ==> EntryOk(b, i)
    ensures error.None? ==> segments == Segments(b, U16(b, 0x38))
  {
    hide Word64, FromLE, SegmentOk, Segment;
    var phoff, phnum := U64(b, 0x20), U16(b, 0x38);
    segments := [];
    for i := 0 to phnum
      invariant forall j :: 0 <= j < i ==> EntryOk(b, j)
      invariant segments == Segments(b, i)
    {
      if phoff + 56 * i >= TWO64 || phoff + 56 * i + 56 >= TWO64 {
        assert !EntryOk(b, i);
        return segments, Some(HeadersOverflow);
      }
      if phoff + 56 * i + 56 > |b| {
        assert !EntryOk(b, i);
        return segments, Some(TruncatedHeaders);
      }
      if U32(b, EntryBase(b, i)) == 1 {
        var segment, why := ParseSegment(b, i);
        if segment.None? {
          assert !EntryOk(b, i);
          return segments, Some(why);
        }
        segments := segments + [segment.value];
      }
      assert EntryOk(b, i);
    }
    error := None;
  }

  /** `parse`: accepts exactly the acceptable files and returns their load segments. */
  method Parse(b: seq<byte>) returns (r: ParseResult)
    requires |b| < SLICE_MAX
    ensures r.Parsed? <==> Acceptable(b)
    ensures r.Parsed? ==> r.image.entry == U64(b, 0x18) && r.image.segments == Segments(b, U16(b, 0x38))
    ensures r.Parsed? ==> r.image.tohost == FindTohost(b)
  {
    hide Word64, FromLE, EntryOk, Segments, ScanSections;
    if |b| < 64 { return Rejected(TooShort); }
    if b[..4] != ElfMagic() { return Rejected(BadMagic); }
    if b[4] != 2 { return Rejected(NotElf64); }
    if b[5] != 1 { return Rejected(NotLittleEndian); }
    if U16(b, 0x12) != 243 { return Rejected(NotRiscv); }
    if U16(b, 0x10) != 2 { return Rejected(NotExecutable); }
    var tohost := FindTohostSection(b, U64(b, 0x28), U16(b, 0x3a), U16(b, 0x3c), U16(b, 0x3e));
    if U16(b, 0x36) != 56 { return Rejected(BadEntrySize); }
    var segments, error := ParseSegments(b);
    if error.Some? { return Rejected(error.value); }
    if segments == [] { return Rejected(NoLoadSegment); }
    r := Parsed(Image(U64(b, 0x18), segments, tohost));
  }

  // ---------------------------------------------------------------- the tohost section

  /** ".tohost" with its terminator. */
  function TohostName(): seq<byte> { [0x2e, 0x74, 0x6f, 0x68, 0x6f, 0x73, 0x74, 0] }

  predicate NamedTohost(b: seq<byte>, start: nat) {
    start + 8 <= |b| && b[start..start + 8] == TohostName()
  }

  /** Scans sections from i on; a section or name outside the file ends the search. */
  function ScanSections(b: seq<byte>, shoff: nat, size: nat, num: nat, names: nat, i: nat): Option<u64>
    decreases num - i
  {
    var base := shoff + i * size;
    if i >= num || base + 64 > |b| then None
    else if U32(b, base + 4) != 1 then ScanSections(b, shoff, size, num, names, i + 1)
    else if names + U32(b, base) > |b| then None
    else if NamedTohost(b, names + U32(b, base)) then Some(U64(b, base + 16))
    else ScanSections(b, shoff, size, num, names, i + 1)
  }

  function FindTohostIn(b: seq<byte>, shoff: nat, size: nat, num: nat, strndx: nat): Option<u64> {
    var hdr := shoff + strndx * size;
    if shoff == 0 || num == 0 || size == 0 || hdr + 32 > |b| then None
    else ScanSections(b, shoff, size, num, U64(b, hdr + 24), 0)
  }

  function FindTohost(b: seq<byte>): Option<u64>
    requires |b| >= 64
  {
    FindTohostIn(b, U64(b, 0x28), U16(b, 0x3a), U16(b, 0x3c), U16(b, 0x3e))
  }

  /** Position of the first zero byte from `start`, or `start` when there is none. */
  method NameEnd(b: seq<byte>, start: nat) returns (end: nat)
    requires start <= |b|
    ensures start <= end <= |b|
    ensures (end < |b| && b[end] == 0) || (end == start && forall j :: start <= j < |b| ==> b[j] != 0)
    ensures forall j :: start <= j < end ==> b[j] != 0
  {
    for p := start to |b|
      invariant forall j :: start <= j < p ==> b[j] != 0
    {
      if b[p] == 0 {
        return p;
      }
    }
    end := start;
  }

  /** `find_tohost_section`, with every checked addition spelled out. */
  method FindTohostSection(b: seq<byte>, shoff: u64, size: nat, num: nat, strndx: nat) returns (r: Option<u64>)
    requires |b| < SLICE_MAX
    ensures r == FindTohostIn(b, shoff, size, num, strndx)
  {
    hide Word64, FromLE, NamedTohost, ScanSections;
    if shoff == 0 || num == 0 || size == 0 {
      return None;
    }
    if shoff + strndx * size + 32 >= TWO64 || shoff + strndx * size + 32 > |b| {
      return None;
    }
    var names := U64(b, shoff + strndx * size + 24);
    for i := 0 to num
      invariant FindTohostIn(b, shoff, size, num, strndx) == ScanSections(b, shoff, size, num, names, i)
    {
      var base := shoff + i * size;
      ScanStep(b, shoff, size, num, names, i, base);
      if base + 64 >= TWO64 || base + 64 > |b| {
        return None;
      }
      if U32(b, base + 4) != 1 {
        continue;
      }
      var start := names + U32(b, base);
      if start >= TWO64 || start > |b| {
        return None;
      }
      var end := NameEnd(b, start);
      NameCompare(b, start, end);
      if b[start..end] == TohostName()[..7] {
        return Some(U64(b, base + 16));
      }
    }
    ScanEnds(b, shoff, size, num, names);
    r := None;
  }

  /** One section of the scan. */
  lemma {:induction false} ScanStep(b: seq<byte>, shoff: nat, size: nat, num: nat, names: nat, i: nat, base: nat)
    requires i < num && base == shoff + i * size
    ensures ScanSections(b, shoff, size, num, names, i) ==
            if base + 64 > |b| then None
            else if U32(b, base + 4) != 1 then ScanSections(b, shoff, size, num, names, i + 1)
            else if names + U32(b, base) > |b| then None
            else if NamedTohost(b, names + U32(b, base)) then Some(U64(b, base + 16))
            else ScanSections(b, shoff, size, num, names, i + 1)
  {
    hide U32, U64, NamedTohost;
  }

  lemma {:induction false} ScanEnds(b: seq<byte>, shoff: nat, size: nat, num: nat, names: nat)
    ensures ScanSections(b, shoff, size, num, names, num) == None
  {
    hide U32, U64, NamedTohost;
  }

  /** Comparing the name up to its terminator is comparing eight bytes. */
  lemma NameCompare(b: seq<byte>, start: nat, end: nat)
    requires start <= end <= |b|
    requires (end < |b| && b[end] == 0) || (end == start && forall j :: start <= j < |b| ==> b[j] != 0)
    requires forall j :: start <= j < end ==> b[j] != 0
    ensures b[start..end] == TohostName()[..7] <==> NamedTohost(b, start)
  {
    if NamedTohost(b, start) {
      var s := b[start..start + 8];
      assert forall j :: 0 <= j < 8 ==> b[start + j] == s[j];
      assert s[7] == 0 && b[start + 7] == 0;
      assert end == start + 7;
      assert b[start..end] == s[..7];
    }
    if b[start..end] == TohostName()[..7] {
      assert end == start + 7;
      assert b[start..start + 8] == b[start..end] + [b[end]];
    }
  }

  // ---------------------------------------------------------------- placing the image

  /** Writes the segments in order; None when one leaves the address space. */
  function LoadSegments(pages: PageMap, segments: seq<(u64, seq<byte>)>): Option<PageMap> {
    if segments == [] then Some(pages)
    else
      var n := |segments| - 1;
      match LoadSegments(pages, segments[..n])
      case None => None
      case Some(p) => Pages.Write(p, segments[n].0, segments[n].1)
  }

  ghost predicate AllInside(segments: seq<(u64, seq<byte>)>) {
    forall i :: 0 <= i < |segments| ==> segments[i].0 + |segments[i].1| <= ADDR_SPACE
  }

  /** The byte the last segment covering an address holds there, else zero. */
  function SegmentByte(segments: seq<(u64, seq<byte>)>, a: nat): byte {
    if segments == [] then 0
    else
      var (vaddr, data) := segments[|segments| - 1];
      if vaddr <= a < vaddr + |data| then data[a - vaddr] else SegmentByte(segments[..|segments| - 1], a)
  }

  /** Parsed segments lie inside the address space. */
  lemma {:induction false} SegmentsInside(b: seq<byte>, n: nat)
    requires |b| >= 64 && forall i :: 0 <= i < n ==> EntryOk(b, i)
    ensures AllInside(Segments(b, n))
  {
    hide Word64, FromLE;
    if n > 0 {
      assert EntryOk(b, n - 1);
      SegmentsInside(b, n - 1);
    }
  }

  /** Segments inside the address space always load; from empty memory each address then reads as
      the last covering segment's byte, else zero, and only addressable pages are allocated. */
  lemma {:induction false} LoadPlacesSegments(segments: seq<(u64, seq<byte>)>, a: nat)
    requires AllInside(segments)
    ensures var p := LoadSegments(map[], segments);
            && p.Some?
            && ByteAt(p.value, a) == SegmentByte(segments, a)
            && (forall k :: k in p.value ==> k < LOW_PAGES)
    decreases |segments|
  {
    hide WriteBytes, ByteAt;
    if segments == [] {
      EmptyReadsZero(a);
    } else {
      var n := |segments| - 1;
      LoadPlacesSegments(segments[..n], a);
      var p := LoadSegments(map[], segments[..n]).value;
      assert segments[n].0 + |segments[n].1| <= ADDR_SPACE;
      ByteAtWriteBytes(p, segments[n].0, segments[n].1, a);
      WriteBytesKeys(p, segments[n].0, segments[n].1);
    }
  }

  lemma EmptyReadsZero(a: nat)
    ensures ByteAt(map[], a) == 0
  {
  }

  /** A file that parses also loads, into memory that shows exactly its segments; the zero-filled
      tail of a segment reads as zero unless another segment covers it. */
  lemma {:induction false} ParseImpliesLoad(b: seq<byte>, a: nat)
    requires Acceptable(b)
    ensures var segments := Segments(b, U16(b, 0x38));
            var p := LoadSegments(map[], segments);
            && p.Some?
            && ByteAt(p.value, a) == SegmentByte(segments, a)
            && (forall k :: k in p.value ==> k < LOW_PAGES)
  {
    hide EntryOk, Segments, LoadSegments, ByteAt, SegmentByte;
    SegmentsInside(b, U16(b, 0x38));
    LoadPlacesSegments(Segments(b, U16(b, 0x38)), a);
  }

  /** `load`: places the image into memory, stopping at the first segment that does not fit. */
  method Load(mem: Mem, segments: seq<(u64, seq<byte>)>) returns (ok: bool)
    requires mem.Valid()
    modifies mem
    ensures mem.Valid()
    ensures ok == LoadSegments(old(mem.Contents()), segments).Some?
    ensures ok ==> Some(mem.Contents()) == LoadSegments(old(mem.Contents()), segments)
  {
    hide DirValid, Coherent, Gather, WriteBytes;
    assert segments[..0] == [];
    for i := 0 to |segments|
      invariant mem.Valid()
      invariant Some(mem.Contents()) == LoadSegments(old(mem.Contents()), segments[..i])
    {
      var placed := mem.Write(segments[i].0, segments[i].1);
      assert segments[..i + 1][..i] == segments[..i];
      if !placed {
        LoadFailsOn(old(mem.Contents()), segments, i + 1);
        return false;
      }
    }
    assert segments[..|segments|] == segments;
    ok := true;
  }

  lemma {:induction false} LoadFailsOn(pages: PageMap, segments: seq<(u64, seq<byte>)>, i: nat)
    requires i <= |segments| && LoadSegments(pages, segments[..i]).None?
    ensures LoadSegments(pages, segments).None?
    decreases |segments| - i
  {
    if i < |segments| {
      assert segments[..i + 1][..i] == segments[..i];
      LoadFailsOn(pages, segments, i + 1);
    } else {
      assert segments[..i] == segments;
    }
  }
}
