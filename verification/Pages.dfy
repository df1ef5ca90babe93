/** The contents of the sparse memory as a value: a map from page index to page.

    `ByteAt` is the flat, zero-default byte view of that value. The map itself also
    remembers which pages are allocated, because the memory root covers exactly those. */
module Pages {
  import opened Words

  const PAGE_SIZE: nat := 4096
  const ADDR_SPACE: nat := TWO32
  /** Number of pages an address below ADDR_SPACE can select. */
  const LOW_PAGES: nat := 0x10_0000

  type Page = p: seq<byte> | |p| == PAGE_SIZE witness seq(PAGE_SIZE, _ => 0)
  type PageMap = map<nat, Page>

  /** A freshly allocated page. */
  function ZeroPage(): Page {
    seq<byte>(PAGE_SIZE, _ => 0)
  }

  function ByteAt(pages: PageMap, a: nat): byte {
    if a / PAGE_SIZE in pages then pages[a / PAGE_SIZE][a % PAGE_SIZE] else 0
  }

  function Region(pages: PageMap, addr: nat, len: nat): (s: seq<byte>)
    ensures |s| == len
  {
    seq<byte>(len, i requires 0 <= i < len => ByteAt(pages, addr + i))
  }

  /** Little-endian load: only 1, 2, 4 and 8 byte accesses that stay inside the address space. */
  function Read(pages: PageMap, addr: u64, len: nat): Option<u64> {
    if len !in {1, 2, 4, 8} || addr + len > ADDR_SPACE then None
    else Some(Word64(Region(pages, addr, len)))
  }

  function PageOrZero(pages: PageMap, page: nat): Page {
    if page in pages then pages[page] else ZeroPage()
  }

  /** Stores one byte, allocating its page when needed. */
  function WriteByte(pages: PageMap, a: nat, b: byte): PageMap {
    pages[a / PAGE_SIZE := PageOrZero(pages, a / PAGE_SIZE)[a % PAGE_SIZE := b]]
  }

  /** Stores the bytes in ascending address order. */
  function WriteBytes(pages: PageMap, addr: nat, bytes: seq<byte>): PageMap {
    if bytes == [] then pages
    else
      var n := |bytes| - 1;
      WriteByte(WriteBytes(pages, addr, bytes[..n]), addr + n, bytes[n])
  }

  /** A store of any length; rejected as a whole when it leaves the address space. */
  function Write(pages: PageMap, addr: u64, bytes: seq<byte>): Option<PageMap> {
    if addr + |bytes| > ADDR_SPACE then None else Some(WriteBytes(pages, addr, bytes))
  }

  lemma ByteAtWriteByte(pages: PageMap, a: nat, b: byte, c: nat)
    ensures ByteAt(WriteByte(pages, a, b), c) == if c == a then b else ByteAt(pages, c)
  {
  }

  /** A store changes exactly the addressed bytes of the flat view. */
  lemma {:induction false} ByteAtWriteBytes(pages: PageMap, addr: nat, bytes: seq<byte>, c: nat)
    ensures ByteAt(WriteBytes(pages, addr, bytes), c)
         == if addr <= c < addr + |bytes| then bytes[c - addr] else ByteAt(pages, c)
    decreases |bytes|
  {
    if bytes != [] {
      var n := |bytes| - 1;
      ByteAtWriteBytes(pages, addr, bytes[..n], c);
      ByteAtWriteByte(WriteBytes(pages, addr, bytes[..n]), addr + n, bytes[n], c);
    }
  }

  /** A store inside the address space allocates only addressable pages, and frees none. */
  lemma {:induction false} WriteBytesKeys(pages: PageMap, addr: nat, bytes: seq<byte>)
    requires addr + |bytes| <= ADDR_SPACE
    ensures pages.Keys <= WriteBytes(pages, addr, bytes).Keys
    ensures forall k :: k in WriteBytes(pages, addr, bytes) && k !in pages ==> k < LOW_PAGES
    decreases |bytes|
  {
    if bytes != [] {
      WriteBytesKeys(pages, addr, bytes[..|bytes| - 1]);
    }
  }

  /** A load of the size and place just stored gives back the stored bytes. */
  lemma ReadBack(pages: PageMap, addr: u64, bytes: seq<byte>)
    requires |bytes| in {1, 2, 4, 8} && addr + |bytes| <= ADDR_SPACE
    ensures Write(pages, addr, bytes).Some?
    ensures Read(Write(pages, addr, bytes).value, addr, |bytes|) == Some(Word64(bytes))
  {
    var after := WriteBytes(pages, addr, bytes);
    forall i | 0 <= i < |bytes|
      ensures ByteAt(after, addr + i) == bytes[i]
    {
      ByteAtWriteBytes(pages, addr, bytes, addr + i);
    }
    assert Region(after, addr, |bytes|) == bytes;
  }
}
