/** Writing ELF files field by field (chapters 4 and 5 of the System V gABI), and reading them back. */
module Writer {
  import opened Words
  import opened Pages
  import opened Elf

  /** What a load segment places: data from vaddr on, zeros up to memsz bytes. */
  datatype Load = Load(vaddr: u64, data: seq<byte>, memsz: u64)

  predicate Fits(l: Load) { |l.data| <= l.memsz && l.vaddr + l.memsz <= 0x1_0000_0000 }

  // ---------------------------------------------------------------- the writer

  /** 64-bit, little-endian, current version. */
  function Ident(): (s: seq<byte>)
    ensures |s| == 16
  {
    [0x7f, 0x45, 0x4c, 0x46, 2, 1, 1, 0, 0, 0, 0, 0, 0, 0, 0, 0]
  }

  /** e_type to e_shoff: an executable for RISC-V with its program headers right behind this header. */
  function Identity(entry: u64, shoff: u64): (s: seq<byte>)
    ensures |s| == 32
  {
    ToLE(2, 2) + ToLE(243, 2) + ToLE(1, 4) + ToLE(entry, 8) + ToLE(64, 8) + ToLE(shoff, 8)
  }

  /** e_flags to e_shstrndx. */
  function Sizes(phnum: nat, shnum: nat, strndx: nat): (s: seq<byte>)
    ensures |s| == 16
  {
    ToLE(0, 4) + ToLE(64, 2) + ToLE(56, 2) + ToLE(phnum, 2) + ToLE(64, 2) + ToLE(shnum, 2) + ToLE(strndx, 2)
  }

  /** A PT_LOAD program header: type, flags, offset, vaddr, paddr, filesz, memsz, align. */
  function ProgramHeader(l: Load, offset: nat): (s: seq<byte>)
    ensures |s| == 56
  {
    ToLE(1, 4) + ToLE(5, 4) + ToLE(offset, 8) + ToLE(l.vaddr, 8) + ToLE(l.vaddr, 8) + ToLE(|l.data|, 8)
    + ToLE(l.memsz, 8) + ToLE(1, 8)
  }

  function Table(loads: seq<Load>, offset: nat): (s: seq<byte>)
    ensures |s| == 56 * |loads|
  {
    if loads == [] then []
    else ProgramHeader(loads[0], offset) + Table(loads[1..], offset + |loads[0].data|)
  }

  function Blobs(loads: seq<Load>): seq<byte> {
    if loads == [] then [] else loads[0].data + Blobs(loads[1..])
  }

  /** A section header: name, type, flags, addr, offset, size, link, info, align, entsize. */
  function SectionHeader(name: nat, kind: nat, addr: u64, offset: nat, size: nat): (s: seq<byte>)
    ensures |s| == 64
  {
    ToLE(name, 4) + ToLE(kind, 4) + ToLE(0, 8) + ToLE(addr, 8) + ToLE(offset, 8) + ToLE(size, 8) + ToLE(0, 4)
    + ToLE(0, 4) + ToLE(1, 8) + ToLE(0, 8)
  }

  /** An empty name and ".tohost". */
  function Names(): (s: seq<byte>)
    ensures |s| == 9
  {
    [0, 0x2e, 0x74, 0x6f, 0x68, 0x6f, 0x73, 0x74, 0]
  }

  /** The null section, the tohost section, the names' section, and the names. */
  function Sections(tohost: Option<u64>, at: nat): (s: seq<byte>)
    ensures |s| == if tohost.Some? then 201 else 0
  {
    if tohost.None? then []
    else
      SectionHeader(0, 0, 0, 0, 0) + SectionHeader(1, 1, tohost.value, 0, 8) + SectionHeader(0, 3, 0, at + 192, 9)
      + Names()
  }

  function Header(entry: u64, n: nat, shoff: u64, tohost: bool): (s: seq<byte>)
    ensures |s| == 64
  {
    Ident() + Identity(entry, shoff) + if tohost then Sizes(n, 3, 2) else Sizes(n, 0, 0)
  }

  function SectionsAt(loads: seq<Load>): nat { 64 + 56 * |loads| + |Blobs(loads)| }

  /** Header, program headers, segment data, and sections when there is a tohost address. */
  function File(entry: u64, loads: seq<Load>, tohost: Option<u64>): (b: seq<byte>)
    requires SectionsAt(loads) < TWO64
    ensures |b| == SectionsAt(loads) + if tohost.Some? then 201 else 0
  {
    Header(entry, |loads|, if tohost.Some? then SectionsAt(loads) else 0, tohost.Some?)
    + Table(loads, 64 + 56 * |loads|) + Blobs(loads) + Sections(tohost, SectionsAt(loads))
  }

  /** The segments as the loader returns them. */
  function Placed(loads: seq<Load>): (s: seq<(u64, seq<byte>)>)
    ensures |s| == |loads|
  {
    seq<(u64, seq<byte>)>(|loads|, i requires 0 <= i < |loads| => (loads[i].vaddr, loads[i].data))
  }

  // ---------------------------------------------------------------- reading fields

  /** piece stands at offset off of b. */
  ghost predicate At(b: seq<byte>, off: nat, piece: seq<byte>) {
    off + |piece| <= |b| && b[off..off + |piece|] == piece
  }

  lemma Within(b: seq<byte>, off: nat, piece: seq<byte>, i: nat, part: seq<byte>)
    requires At(b, off, piece) && At(piece, i, part)
    ensures At(b, off + i, part)
  {
    forall k | 0 <= k < |part|
      ensures b[off + i + k] == part[k]
    {
      assert b[off..off + |piece|][i + k] == piece[i + k];
      assert piece[i..i + |part|][k] == part[k];
    }
  }

  lemma {:induction false} Reads(b: seq<byte>, off: nat, v: nat, k: nat)
    requires At(b, off, ToLE(v, k)) && v < Pow256(k)
    ensures off + k <= |b| && FromLE(b[off..off + k]) == v
  {
    hide ToLE, FromLE, Pow256;
    var s := ToLE(v, k);
    assert b[off..off + k] == s;
    FromToLE(v, k);
    SmallRemainder(v, Pow256(k));
  }

  lemma SmallRemainder(v: nat, m: nat)
    requires v < m
    ensures v % m == v
  {
    ModUnique(v, m, 0, v);
  }

  lemma Reads16(b: seq<byte>, off: nat, v: nat)
    requires At(b, off, ToLE(v, 2)) && v < 0x1_0000
    ensures off + 2 <= |b| && U16(b, off) == v
  {
    hide ToLE, FromLE;
    Pow256Values();
    Reads(b, off, v, 2);
  }

  lemma Reads32(b: seq<byte>, off: nat, v: nat)
    requires At(b, off, ToLE(v, 4)) && v < TWO32
    ensures off + 4 <= |b| && U32(b, off) == v
  {
    hide ToLE, FromLE;
    Pow256Values();
    Reads(b, off, v, 4);
  }

  lemma Reads64(b: seq<byte>, off: nat, v: nat)
    requires At(b, off, ToLE(v, 8)) && v < TWO64
    ensures off + 8 <= |b| && U64(b, off) == v
  {
    hide ToLE, FromLE;
    Pow256Values();
    Reads(b, off, v, 8);
  }

  lemma IdentityFields(entry: u64, shoff: u64)
    ensures var s := Identity(entry, shoff);
            && At(s, 0, ToLE(2, 2)) && At(s, 2, ToLE(243, 2)) && At(s, 8, ToLE(entry, 8)) && At(s, 16, ToLE(64, 8))
            && At(s, 24, ToLE(shoff, 8))
  {
    hide ToLE;
  }

  lemma SizesFields(phnum: nat, shnum: nat, strndx: nat)
    ensures var s := Sizes(phnum, shnum, strndx);
            && At(s, 6, ToLE(56, 2)) && At(s, 8, ToLE(phnum, 2)) && At(s, 10, ToLE(64, 2)) && At(s, 12, ToLE(shnum, 2))
            && At(s, 14, ToLE(strndx, 2))
  {
    hide ToLE;
  }

  lemma ProgramFields(l: Load, offset: nat)
    ensures var s := ProgramHeader(l, offset);
            && At(s, 0, ToLE(1, 4)) && At(s, 8, ToLE(offset, 8)) && At(s, 16, ToLE(l.vaddr, 8))
            && At(s, 32, ToLE(|l.data|, 8)) && At(s, 40, ToLE(l.memsz, 8))
  {
    hide ToLE;
  }

  lemma SectionFields(name: nat, kind: nat, addr: u64, offset: nat, size: nat)
    ensures var s := SectionHeader(name, kind, addr, offset, size);
            At(s, 0, ToLE(name, 4)) && At(s, 4, ToLE(kind, 4)) && At(s, 16, ToLE(addr, 8)) && At(s, 24, ToLE(offset, 8))
  {
    hide ToLE;
  }

  // ---------------------------------------------------------------- the parts of a file

  /** Bytes of data before segment i. */
  function Before(loads: seq<Load>, i: nat): nat
    requires i <= |loads|
  {
    if i == 0 then 0 else |loads[0].data| + Before(loads[1..], i - 1)
  }

  lemma {:induction false} TableAt(loads: seq<Load>, offset: nat, i: nat)
    requires i < |loads|
    ensures At(Table(loads, offset), 56 * i, ProgramHeader(loads[i], offset + Before(loads, i)))
  {
    hide ProgramHeader;
    var rest := Table(loads[1..], offset + |loads[0].data|);
    var first := ProgramHeader(loads[0], offset);
    assert Table(loads, offset) == first + rest;
    if i == 0 {
      assert (first + rest)[0..56] == first;
    } else {
      TableAt(loads[1..], offset + |loads[0].data|, i - 1);
      assert At(first + rest, 56, rest);
      Within(first + rest, 56, rest, 56 * (i - 1), ProgramHeader(loads[i], offset + Before(loads, i)));
    }
  }

  lemma {:induction false} BlobAt(loads: seq<Load>, i: nat)
    requires i < |loads|
    ensures At(Blobs(loads), Before(loads, i), loads[i].data)
  {
    var first, rest := loads[0].data, Blobs(loads[1..]);
    assert Blobs(loads) == first + rest;
    if i == 0 {
      assert (first + rest)[0..|first|] == first;
    } else {
      BlobAt(loads[1..], i - 1);
      assert At(first + rest, |first|, rest);
      Within(first + rest, |first|, rest, Before(loads[1..], i - 1), loads[i].data);
    }
  }

  /** The parts of a file in their places. */
  lemma {:induction false} Parts(entry: u64, loads: seq<Load>, tohost: Option<u64>)
    requires SectionsAt(loads) < TWO64
    ensures var b := File(entry, loads, tohost);
            && b[..4] == ElfMagic() && b[4] == 2 && b[5] == 1
            && At(b, 16, Identity(entry, if tohost.Some? then SectionsAt(loads) else 0))
            && At(b, 48, if tohost.Some? then Sizes(|loads|, 3, 2) else Sizes(|loads|, 0, 0))
            && At(b, 64, Table(loads, 64 + 56 * |loads|)) && At(b, 64 + 56 * |loads|, Blobs(loads))
            && At(b, SectionsAt(loads), Sections(tohost, SectionsAt(loads)))
  {
    hide Identity, Sizes, Table, Blobs, Sections, At, Ident;
    var shoff := if tohost.Some? then SectionsAt(loads) else 0;
    var (id, sizes) := (Identity(entry, shoff), if tohost.Some? then Sizes(|loads|, 3, 2) else Sizes(|loads|, 0, 0));
    var (t, d, x) := (Table(loads, 64 + 56 * |loads|), Blobs(loads), Sections(tohost, SectionsAt(loads)));
    Six(Ident(), id, sizes, t, d, x);
    Magic(File(entry, loads, tohost));
  }

  lemma Six(a: seq<byte>, p: seq<byte>, q: seq<byte>, r: seq<byte>, s: seq<byte>, t: seq<byte>)
    ensures var b := a + p + q + r + s + t;
            && At(b, 0, a) && At(b, |a|, p) && At(b, |a| + |p|, q) && At(b, |a| + |p| + |q|, r)
            && At(b, |a| + |p| + |q| + |r|, s) && At(b, |a| + |p| + |q| + |r| + |s|, t)
    ensures a + p + q + r + s + t == (a + p + q) + r + s + t
  {
  }

  lemma Magic(b: seq<byte>)
    requires At(b, 0, Ident())
    ensures b[..4] == ElfMagic() && b[4] == 2 && b[5] == 1
  {
    assert b[0..16][..4] == Ident()[..4] && b[0..16][4] == Ident()[4] && b[0..16][5] == Ident()[5];
  }

  /** The header fields the loader reads. */
  lemma HeaderReads(entry: u64, loads: seq<Load>, tohost: Option<u64>)
    requires SectionsAt(loads) < TWO64 && |loads| < 0x1_0000
    ensures var b := File(entry, loads, tohost);
            && HeaderOk(b) && U64(b, 0x18) == entry && U64(b, 0x20) == 64 && U16(b, 0x38) == |loads|
            && U64(b, 0x28) == (if tohost.Some? then SectionsAt(loads) else 0) && U16(b, 0x3a) == 64
            && (if tohost.Some? then U16(b, 0x3c) == 3 && U16(b, 0x3e) == 2 else U16(b, 0x3c) == U16(b, 0x3e) == 0)
  {
    hide File, Identity, Sizes, ToLE, U16, U64, SectionsAt, At, Table, Blobs, Sections;
    var (b, shoff) := (File(entry, loads, tohost), if tohost.Some? then SectionsAt(loads) else 0);
    var (shnum, strndx) := (if tohost.Some? then 3 else 0, if tohost.Some? then 2 else 0);
    var (id, sizes) := (Identity(entry, shoff), Sizes(|loads|, shnum, strndx));
    Parts(entry, loads, tohost);
    IdentityFields(entry, shoff);
    SizesFields(|loads|, shnum, strndx);
    Within(b, 16, id, 0, ToLE(2, 2));
    Within(b, 16, id, 2, ToLE(243, 2));
    Within(b, 16, id, 8, ToLE(entry, 8));
    Within(b, 16, id, 16, ToLE(64, 8));
    Within(b, 16, id, 24, ToLE(shoff, 8));
    Within(b, 48, sizes, 6, ToLE(56, 2));
    Within(b, 48, sizes, 8, ToLE(|loads|, 2));
    Within(b, 48, sizes, 10, ToLE(64, 2));
    Within(b, 48, sizes, 12, ToLE(shnum, 2));
    Within(b, 48, sizes, 14, ToLE(strndx, 2));
    Reads16(b, 16, 2);
    Reads16(b, 18, 243);
    Reads64(b, 24, entry);
    Reads64(b, 32, 64);
    Reads64(b, 40, shoff);
    Reads16(b, 54, 56);
    Reads16(b, 56, |loads|);
    Reads16(b, 58, 64);
    Reads16(b, 60, shnum);
    Reads16(b, 62, strndx);
  }

  /** Program header i as the loader reads it. */
  lemma EntryReads(entry: u64, loads: seq<Load>, tohost: Option<u64>, i: nat)
    requires SectionsAt(loads) < TWO64 && |loads| < 0x1_0000 && i < |loads|
    ensures var b := File(entry, loads, tohost);
            && |b| >= 64 && EntryInside(b, i) && IsLoad(b, i) && (SegmentOk(b, i) <==> Fits(loads[i]))
            && (Fits(loads[i]) ==> Segment(b, i) == (loads[i].vaddr, loads[i].data))
  {
    hide File, ToLE, U16, U32, U64, At, Table, Blobs, Sections, ProgramHeader, Before, Identity, Sizes;
    var (b, n, l) := (File(entry, loads, tohost), |loads|, loads[i]);
    var (p, offset) := (64 + 56 * i, 64 + 56 * n + Before(loads, i));
    Parts(entry, loads, tohost);
    HeaderReads(entry, loads, tohost);
    TableAt(loads, 64 + 56 * n, i);
    BlobAt(loads, i);
    var h := ProgramHeader(l, offset);
    Within(b, 64, Table(loads, 64 + 56 * n), 56 * i, h);
    Within(b, 64 + 56 * n, Blobs(loads), Before(loads, i), l.data);
    Bounded(Blobs(loads), Before(loads, i), l.data);
    Bounded(b, offset, l.data);
    Bounded(b, p, h);
    ProgramFields(l, offset);
    Within(b, p, h, 0, ToLE(1, 4));
    Within(b, p, h, 8, ToLE(offset, 8));
    Within(b, p, h, 16, ToLE(l.vaddr, 8));
    Within(b, p, h, 32, ToLE(|l.data|, 8));
    Within(b, p, h, 40, ToLE(l.memsz, 8));
    Reads32(b, p, 1);
    Reads64(b, p + 8, offset);
    Reads64(b, p + 16, l.vaddr);
    Reads64(b, p + 32, |l.data|);
    Reads64(b, p + 40, l.memsz);
  }

  lemma Bounded(b: seq<byte>, off: nat, piece: seq<byte>)
    requires At(b, off, piece)
    ensures off + |piece| <= |b| && b[off..off + |piece|] == piece
  {
  }

  lemma {:induction false} SegmentsRead(entry: u64, loads: seq<Load>, tohost: Option<u64>, n: nat)
    requires SectionsAt(loads) < TWO64 && |loads| < 0x1_0000 && n <= |loads|
    requires forall i :: 0 <= i < |loads| ==> Fits(loads[i])
    ensures var b := File(entry, loads, tohost);
            && |b| >= 64 && (forall i :: 0 <= i < n ==> EntryOk(b, i))
            && Segments(b, n) == Placed(loads)[..n]
  {
    hide File, IsLoad, SegmentOk, Segment, EntryInside;
    var b := File(entry, loads, tohost);
    HeaderReads(entry, loads, tohost);
    forall i | 0 <= i < n
      ensures EntryOk(b, i)
    {
      EntryReads(entry, loads, tohost, i);
    }
    if n > 0 {
      SegmentsRead(entry, loads, tohost, n - 1);
      EntryReads(entry, loads, tohost, n - 1);
      assert Placed(loads)[..n] == Placed(loads)[..n - 1] + [Placed(loads)[n - 1]];
    }
  }

  // ---------------------------------------------------------------- the tohost section

  lemma SectionParts(addr: u64, at: nat)
    ensures var s := Sections(Some(addr), at);
            && At(s, 0, SectionHeader(0, 0, 0, 0, 0)) && At(s, 64, SectionHeader(1, 1, addr, 0, 8))
            && At(s, 128, SectionHeader(0, 3, 0, at + 192, 9)) && At(s, 192, Names())
  {
    hide SectionHeader;
  }

  lemma TohostReads(entry: u64, loads: seq<Load>, tohost: Option<u64>)
    requires SectionsAt(loads) + 201 < TWO64 && |loads| < 0x1_0000
    ensures |File(entry, loads, tohost)| >= 64 && FindTohost(File(entry, loads, tohost)) == tohost
  {
    hide File, ToLE, U16, U32, U64, At, Table, Blobs, Sections, SectionHeader, Identity, Sizes;
    HeaderReads(entry, loads, tohost);
    if tohost.Some? {
      var (b, at, addr) := (File(entry, loads, tohost), SectionsAt(loads), tohost.value);
      var (s, h0, h1, h2) := (Sections(tohost, at), SectionHeader(0, 0, 0, 0, 0), SectionHeader(1, 1, addr, 0, 8),
                              SectionHeader(0, 3, 0, at + 192, 9));
      Parts(entry, loads, tohost);
      SectionParts(addr, at);
      Within(b, at, s, 0, h0);
      Within(b, at, s, 64, h1);
      Within(b, at, s, 128, h2);
      Within(b, at, s, 192, Names());
      SectionFields(0, 0, 0, 0, 0);
      SectionFields(1, 1, addr, 0, 8);
      SectionFields(0, 3, 0, at + 192, 9);
      Within(b, at, h0, 4, ToLE(0, 4));
      Within(b, at + 64, h1, 0, ToLE(1, 4));
      Within(b, at + 64, h1, 4, ToLE(1, 4));
      Within(b, at + 64, h1, 16, ToLE(addr, 8));
      Within(b, at + 128, h2, 24, ToLE(at + 192, 8));
      Reads32(b, at + 4, 0);
      Reads32(b, at + 64, 1);
      Reads32(b, at + 68, 1);
      Reads64(b, at + 80, addr);
      Reads64(b, at + 152, at + 192);
      Bounded(b, at, s);
      Bounded(b, at + 192, Names());
      assert b[at + 193..at + 201] == Names()[1..9] == TohostName();
      ScansToSecond(b, at, at + 192, addr);
    }
  }

  lemma {:induction false} ScansToSecond(b: seq<byte>, shoff: nat, names: nat, addr: u64)
    requires shoff + 192 <= |b| && names + 9 <= |b| && b[names + 1..names + 9] == TohostName()
    requires U32(b, shoff + 4) == 0 && U32(b, shoff + 64) == 1 && U32(b, shoff + 68) == 1 && U64(b, shoff + 80) == addr
    ensures ScanSections(b, shoff, 64, 3, names, 0) == Some(addr)
  {
    hide U32, U64;
    assert ScanSections(b, shoff, 64, 3, names, 1) == Some(addr);
  }

  // ---------------------------------------------------------------- the round trip

  /** For every entry point, list of segments and tohost address or none, the written file is accepted if and only if
      there is a segment and each has no more data than memory and fits the address space, zero-filled tails
      included; and it is read back as just that. */
  lemma FileReads(entry: u64, loads: seq<Load>, tohost: Option<u64>)
    requires |loads| < 0x1_0000 && SectionsAt(loads) + 201 < TWO64
    ensures var b := File(entry, loads, tohost);
            && (Acceptable(b) <==> loads != [] && forall i :: 0 <= i < |loads| ==> Fits(loads[i]))
            && (Acceptable(b) ==>
                  U64(b, 0x18) == entry && FindTohost(b) == tohost && Segments(b, U16(b, 0x38)) == Placed(loads))
  {
    hide File, Segments, FindTohost, HeaderOk, U16, U64, IsLoad, SegmentOk, EntryInside;
    HeaderReads(entry, loads, tohost);
    TohostReads(entry, loads, tohost);
    var b := File(entry, loads, tohost);
    forall i | 0 <= i < |loads|
      ensures EntryOk(b, i) <==> Fits(loads[i])
    {
      EntryReads(entry, loads, tohost, i);
    }
    if forall i :: 0 <= i < |loads| ==> Fits(loads[i]) {
      SegmentsRead(entry, loads, tohost, |loads|);
      assert Placed(loads)[..|loads|] == Placed(loads);
    }
  }

  lemma TwoByteField(b: seq<byte>, o: nat, v: nat)
    requires o + 2 <= |b| && U16(b, o) == v
    ensures (b[o] as int) + 256 * (b[o + 1] as int) == v
  {
    var f := b[o..o + 2];
    assert f[1..][1..] == [];
    assert FromLE(f) == f[0] + 256 * FromLE(f[1..]);
    assert FromLE(f[1..]) == f[1] + 256 * FromLE([]);
  }

  /** Nothing is accepted but 64-bit little-endian RISC-V executables with 56-byte program headers. */
  lemma OnlyElfIsAccepted(b: seq<byte>)
    requires Acceptable(b)
    ensures |b| >= 64 && b[0] == 0x7f && b[1] == 0x45 && b[2] == 0x4c && b[3] == 0x46 && b[4] == 2 && b[5] == 1
    ensures b[0x10] == 2 && b[0x11] == 0 && b[0x12] == 243 && b[0x13] == 0 && b[0x36] == 56 && b[0x37] == 0
  {
    hide Segments, EntryOk, U16;
    assert b[..4][0] == 0x7f && b[..4][1] == 0x45 && b[..4][2] == 0x4c && b[..4][3] == 0x46;
    TwoByteField(b, 0x10, 2);
    TwoByteField(b, 0x12, 243);
    TwoByteField(b, 0x36, 56);
  }

  /** The loader on a written file. */
  method ParseWritten(entry: u64, loads: seq<Load>, tohost: Option<u64>) returns (r: ParseResult)
    requires 0 < |loads| < 0x1_0000 && SectionsAt(loads) + 201 < SLICE_MAX
    requires forall i :: 0 <= i < |loads| ==> Fits(loads[i])
    ensures r == Parsed(Image(entry, Placed(loads), tohost))
  {
    hide File, EntryOk, Segments, FindTohost, HeaderOk, U16, U64;
    FileReads(entry, loads, tohost);
    r := Parse(File(entry, loads, tohost));
  }

  /** The segment covers the address in memory. */
  predicate Covers(l: Load, a: nat) { l.vaddr <= a < l.vaddr + l.memsz }

  ghost predicate CoversAlone(loads: seq<Load>, i: nat, a: nat) {
    i < |loads| && Covers(loads[i], a) && forall j :: 0 <= j < |loads| && j != i ==> !Covers(loads[j], a)
  }

  lemma {:induction false} UncoveredByte(segments: seq<(u64, seq<byte>)>, a: nat)
    requires forall i :: 0 <= i < |segments| ==> !(segments[i].0 <= a < segments[i].0 + |segments[i].1|)
    ensures SegmentByte(segments, a) == 0
  {
    if segments != [] {
      UncoveredByte(segments[..|segments| - 1], a);
    }
  }

  lemma {:induction false} LastByte(segments: seq<(u64, seq<byte>)>, a: nat, i: nat)
    requires i < |segments| && segments[i].0 <= a < segments[i].0 + |segments[i].1|
    requires forall j :: i < j < |segments| ==> !(segments[j].0 <= a < segments[j].0 + |segments[j].1|)
    ensures SegmentByte(segments, a) == segments[i].1[a - segments[i].0]
    decreases |segments|
  {
    var n := |segments| - 1;
    if i < n {
      LastByte(segments[..n], a, i);
    }
  }

  /** After loading a written file an address of one segment alone holds that segment's byte, or zero in its tail, and
      an address of none holds zero. */
  lemma WrittenFileLoads(entry: u64, loads: seq<Load>, tohost: Option<u64>, a: nat)
    requires 0 < |loads| < 0x1_0000 && SectionsAt(loads) + 201 < TWO64
    requires forall i :: 0 <= i < |loads| ==> Fits(loads[i])
    ensures var b := File(entry, loads, tohost);
            && Acceptable(b)
            && var pages := LoadSegments(map[], Segments(b, U16(b, 0x38)));
               && pages.Some?
               && ((forall i :: 0 <= i < |loads| ==> !Covers(loads[i], a)) ==> ByteAt(pages.value, a) == 0)
               && forall i: nat | CoversAlone(loads, i, a) ::
                    var d := a - loads[i].vaddr;
                    ByteAt(pages.value, a) == if d < |loads[i].data| then loads[i].data[d] else 0
  {
    hide File, Acceptable, Segments, U16, LoadSegments, ByteAt, SegmentByte;
    FileReads(entry, loads, tohost);
    ParseImpliesLoad(File(entry, loads, tohost), a);
    var segments := Placed(loads);
    if forall i :: 0 <= i < |loads| ==> !Covers(loads[i], a) {
      UncoveredByte(segments, a);
    }
    forall i: nat | CoversAlone(loads, i, a)
      ensures var d := a - loads[i].vaddr;
              SegmentByte(segments, a) == if d < |loads[i].data| then loads[i].data[d] else 0
    {
      if a - loads[i].vaddr < |loads[i].data| {
        LastByte(segments, a, i);
      } else {
        UncoveredByte(segments, a);
      }
    }
  }
}
