/** The sparse paged memory with its lookaside cache, refining the page map of `Pages`. */
module Memory {
  import opened Words
  import opened Pages

  const LOOKASIDE_SLOTS: nat := 2048
  const NO_SLOT: nat := 0xffff_ffff
  const NO_PAGE: nat := 0xffff_ffff

  /** Some page that no address can reach is not allocated. Only a snapshot can bring such pages in, and
      only one that holds all of them fails this. */
  ghost predicate Room(keys: set<nat>) {
    exists h :: LOW_PAGES <= h < TWO32 && h !in keys
  }

  ghost predicate DirValid(slots: seq<Page>, dir: map<nat, nat>) {
    && |slots| == |dir|
    && (forall p :: p in dir ==> p < TWO32 && dir[p] < |slots|)
    && (forall p, q :: p in dir && q in dir && dir[p] == dir[q] ==> p == q)
  }

  /** A cache entry is either empty or repeats the directory, untruncated. */
  ghost predicate Coherent(dir: map<nat, nat>, lookaside: seq<(nat, nat)>) {
    && |lookaside| == LOOKASIDE_SLOTS
    && forall i :: 0 <= i < LOOKASIDE_SLOTS ==> EntryOk(dir, lookaside[i])
  }

  ghost predicate EntryOk(dir: map<nat, nat>, entry: (nat, nat)) {
    entry == (NO_PAGE, NO_SLOT) || (entry.0 in dir && entry.1 == dir[entry.0])
  }

  ghost function Gather(slots: seq<Page>, dir: map<nat, nat>): PageMap
    requires DirValid(slots, dir)
  {
    map p | p in dir :: slots[dir[p]]
  }

  lemma GatherKeys(slots: seq<Page>, dir: map<nat, nat>)
    requires DirValid(slots, dir)
    ensures Gather(slots, dir).Keys == dir.Keys
  {
  }

  lemma GatherAt(slots: seq<Page>, dir: map<nat, nat>, p: nat)
    requires DirValid(slots, dir) && p in dir
    ensures dir[p] < |slots| && p in Gather(slots, dir) && Gather(slots, dir)[p] == slots[dir[p]]
  {
  }

  lemma {:induction false} BoundedSetSize(s: set<nat>, n: nat)
    requires forall x :: x in s ==> x < n
    ensures |s| <= n
  {
    if n > 0 {
      var rest := s - {n - 1};
      BoundedSetSize(rest, n - 1);
      assert s <= rest + {n - 1};
      SubsetSize(s, rest + {n - 1});
    } else {
      assert s == {};
    }
  }

  lemma {:induction false} SubsetSize<T>(a: set<T>, b: set<T>)
    requires a <= b
    ensures |a| <= |b|
  {
    if a != {} {
      var x :| x in a;
      SubsetSize(a - {x}, b - {x});
    }
  }

  /** With room left slot numbers stay below the reserved value, so storing them in 32 bits loses nothing. */
  lemma SlotsFit(slots: seq<Page>, dir: map<nat, nat>)
    requires DirValid(slots, dir) && Room(dir.Keys)
    ensures |slots| <= NO_SLOT
  {
    var h :| LOW_PAGES <= h < TWO32 && h !in dir.Keys;
    BoundedSetSize(dir.Keys + {h}, TWO32);
    assert |dir.Keys + {h}| == |dir.Keys| + 1;
  }

  ghost function Below(n: nat): (s: set<nat>)
    ensures |s| == n && forall x: nat :: x in s <==> x < n
  {
    if n == 0 then {} else Below(n - 1) + {n - 1}
  }

  /** Stores to reachable pages, in whatever number, keep every slot number below the reserved value. */
  ghost predicate StaysBelow(keys: set<nat>) {
    forall stored: set<nat> :: (forall p :: p in stored ==> p < LOW_PAGES) ==> |keys + stored| <= NO_SLOT
  }

  /** Room is exactly what that takes. */
  lemma RoomIff(keys: set<nat>)
    requires forall p :: p in keys ==> p < TWO32
    ensures Room(keys) <==> StaysBelow(keys)
  {
    if Room(keys) {
      var h :| LOW_PAGES <= h < TWO32 && h !in keys;
      forall stored: set<nat> | forall p :: p in stored ==> p < LOW_PAGES
        ensures |keys + stored| <= NO_SLOT
      {
        BoundedSetSize(keys + stored + {h}, TWO32);
        assert |keys + stored + {h}| == |keys + stored| + 1;
      }
    } else {
      assert keys + Below(LOW_PAGES) == Below(TWO32);
    }
  }

  lemma {:induction false} InjectiveSize(dir: map<nat, nat>, values: set<nat>)
    requires forall p :: p in dir ==> dir[p] in values
    requires forall p, q :: p in dir && q in dir && dir[p] == dir[q] ==> p == q
    ensures |dir| <= |values|
    decreases |dir|
  {
    if p :| p in dir {
      var rest := dir - {p};
      assert rest.Keys == dir.Keys - {p};
      assert |rest| == |rest.Keys| && |dir| == |dir.Keys|;
      InjectiveSize(rest, values - {dir[p]});
    } else {
      assert dir.Keys == {};
      assert |dir| == |dir.Keys|;
    }
  }

  /** With more slots than that some page has the reserved number, so the probe takes it for absent. */
  lemma FullDirectoryHidesAPage(slots: seq<Page>, dir: map<nat, nat>)
    requires DirValid(slots, dir) && |slots| > NO_SLOT
    ensures exists p :: p in dir && dir[p] == NO_SLOT
  {
    BoundedSetSize(dir.Keys, TWO32);
    assert |dir| == |dir.Keys|;
    if forall p :: p in dir ==> dir[p] != NO_SLOT {
      InjectiveSize(dir, Below(NO_SLOT));
    }
  }

  /** A reachable page takes no room. */
  lemma RoomKept(dir: map<nat, nat>, page: nat, slot: nat)
    requires Room(dir.Keys) && page < LOW_PAGES
    ensures Room(dir[page := slot].Keys)
  {
    var h :| LOW_PAGES <= h < TWO32 && h !in dir.Keys;
    assert h !in dir[page := slot].Keys;
  }

  lemma NewKeySize(dir: map<nat, nat>, idx: nat, slot: nat)
    requires idx !in dir
    ensures |dir[idx := slot]| == |dir| + 1
  {
    assert dir[idx := slot].Keys == dir.Keys + {idx};
  }

  lemma NewSlotDistinct(dir: map<nat, nat>, idx: nat, slot: nat, p: nat, q: nat)
    requires idx !in dir && forall k :: k in dir ==> dir[k] < slot
    requires forall j, k :: j in dir && k in dir && dir[j] == dir[k] ==> j == k
    requires p in dir[idx := slot] && q in dir[idx := slot] && dir[idx := slot][p] == dir[idx := slot][q]
    ensures p == q
  {
    assert p != idx ==> p in dir;
    assert q != idx ==> q in dir;
  }

  lemma AppendDirValid(slots: seq<Page>, dir: map<nat, nat>, idx: nat, page: Page)
    requires DirValid(slots, dir) && idx !in dir && idx < TWO32
    ensures DirValid(slots + [page], dir[idx := |slots|])
  {
    var dir' := dir[idx := |slots|];
    NewKeySize(dir, idx, |slots|);
    forall p, q | p in dir' && q in dir' && dir'[p] == dir'[q]
      ensures p == q
    {
      NewSlotDistinct(dir, idx, |slots|, p, q);
    }
  }

  /** Appending a page under a new index extends the contents by exactly that page. */
  lemma AppendPage(slots: seq<Page>, dir: map<nat, nat>, idx: nat, page: Page)
    requires DirValid(slots, dir) && idx !in dir && idx < TWO32
    ensures DirValid(slots + [page], dir[idx := |slots|])
    ensures Gather(slots + [page], dir[idx := |slots|]) == Gather(slots, dir)[idx := page]
  {
    AppendDirValid(slots, dir, idx, page);
    var slots', dir' := slots + [page], dir[idx := |slots|];
    forall p | p in dir'
      ensures slots'[dir'[p]] == Gather(slots, dir)[idx := page][p]
    {
      assert p == idx || (p in dir && dir'[p] == dir[p] < |slots|);
    }
  }

  lemma AppendCoherent(dir: map<nat, nat>, lookaside: seq<(nat, nat)>, idx: nat, slot: nat)
    requires Coherent(dir, lookaside) && idx !in dir
    ensures Coherent(dir[idx := slot], lookaside)
  {
    forall i | 0 <= i < LOOKASIDE_SLOTS
      ensures EntryOk(dir[idx := slot], lookaside[i])
    {
      assert EntryOk(dir, lookaside[i]);
    }
  }

  /** Overwriting the slot of an allocated page changes only that page. */
  lemma ReplacePage(slots: seq<Page>, dir: map<nat, nat>, idx: nat, page: Page)
    requires DirValid(slots, dir) && idx in dir
    ensures DirValid(slots[dir[idx] := page], dir)
    ensures Gather(slots[dir[idx] := page], dir) == Gather(slots, dir)[idx := page]
  {
  }

  /** Filling a cache entry from the directory keeps the cache coherent. */
  lemma FillCoherent(dir: map<nat, nat>, lookaside: seq<(nat, nat)>, i: nat, page: nat)
    requires Coherent(dir, lookaside) && i < LOOKASIDE_SLOTS && page in dir
    ensures Coherent(dir, lookaside[i := (page, dir[page])])
  {
  }

  lemma StoreByte(pages: PageMap, a: nat, b: byte)
    ensures var p, page := a / PAGE_SIZE, PageOrZero(pages, a / PAGE_SIZE);
            pages[p := page][p := page[a % PAGE_SIZE := b]] == WriteByte(pages, a, b)
  {
  }

  lemma KeepPage(pages: PageMap, page: nat)
    requires page in pages
    ensures pages[page := PageOrZero(pages, page)] == pages
  {
  }

  lemma RegionStep(pages: PageMap, addr: nat, i: nat)
    ensures Region(pages, addr, i + 1) == Region(pages, addr, i) + [ByteAt(pages, addr + i)]
  {
  }

  lemma {:induction false} LoadFits(s: seq<byte>)
    requires |s| <= 8
    ensures FromLE(s) == Word64(s)
  {
  }

  lemma EmptyRegion(pages: PageMap, addr: nat)
    ensures Region(pages, addr, 0) == [] && FromLE([]) == 0
  {
  }

  lemma {:induction false} NothingWritten(pages: PageMap, addr: nat, bytes: seq<byte>)
    ensures WriteBytes(pages, addr, bytes[..0]) == pages
  {
  }

  lemma {:induction false} OneMoreWritten(pages: PageMap, addr: nat, bytes: seq<byte>, i: nat)
    requires i < |bytes|
    ensures WriteBytes(pages, addr, bytes[..i + 1])
         == WriteByte(WriteBytes(pages, addr, bytes[..i]), addr + i, bytes[i])
  {
    hide WriteByte;
    assert bytes[..i + 1][..i] == bytes[..i];
  }

  class Mem {
    var slots: seq<Page>
    var dir: map<nat, nat>
    var lookaside: seq<(nat, nat)>

    /** Directory and cache are sound. */
    ghost predicate Shaped()
      reads this
    {
      DirValid(slots, dir) && Coherent(dir, lookaside)
    }

    ghost predicate Valid()
      reads this
    {
      Shaped() && Room(dir.Keys)
    }

    /** The abstract contents: what every allocated page holds. */
    ghost function Contents(): PageMap
      requires Shaped()
      reads this
    {
      Gather(slots, dir)
    }

    constructor ()
      ensures Valid()
      ensures Contents() == map[]
    {
      slots := [];
      dir := map[];
      lookaside := seq(LOOKASIDE_SLOTS, _ => (NO_PAGE, NO_SLOT));
      new;
      assert LOW_PAGES !in dir.Keys;
    }

    /** Cache probe, filling the entry on a directory hit. */
    method SlotOf(page: nat) returns (s: Option<nat>)
      requires Valid() && page < LOW_PAGES
      modifies this`lookaside
      ensures Valid()
      ensures s == if page in dir then Some(dir[page]) else None
    {
      SlotsFit(slots, dir);
      var idx := page % LOOKASIDE_SLOTS;
      var (tag, slot) := lookaside[idx];
      assert EntryOk(dir, lookaside[idx]);
      if tag == page {
        return if slot == NO_SLOT then None else Some(slot);
      }
      if page !in dir {
        return None;
      }
      FillCoherent(dir, lookaside, idx, page);
      lookaside := lookaside[idx := (page, dir[page] % TWO32)];
      s := Some(dir[page]);
    }

    /** The same probe on the read-only path. */
    method SlotOfRo(page: nat) returns (s: Option<nat>)
      requires Valid() && page < LOW_PAGES
      ensures s == if page in dir then Some(dir[page]) else None
    {
      SlotsFit(slots, dir);
      var idx := page % LOOKASIDE_SLOTS;
      var (tag, slot) := lookaside[idx];
      assert EntryOk(dir, lookaside[idx]);
      if tag == page {
        return if slot == NO_SLOT then None else Some(slot);
      }
      s := if page in dir then Some(dir[page]) else None;
    }

    /** The slot of a page, allocated as zeros when missing. */
    method SlotMutOrAlloc(page: nat) returns (s: nat)
      requires Valid() && page < LOW_PAGES
      modifies this
      ensures Valid()
      ensures page in dir && s == dir[page]
      ensures Contents() == old(Contents())[page := PageOrZero(old(Contents()), page)]
    {
      hide Gather, PageOrZero, Room;
      SlotsFit(slots, dir);
      var idx := page % LOOKASIDE_SLOTS;
      var (tag, slot) := lookaside[idx];
      assert EntryOk(dir, lookaside[idx]);
      if tag == page && slot != NO_SLOT {
        GatherKeys(slots, dir);
        KeepPage(Contents(), page);
        return slot;
      }
      s := DirOrAlloc(page);
      SlotsFit(slots, dir);
      FillCoherent(dir, lookaside, idx, page);
      lookaside := lookaside[idx := (page, s % TWO32)];
    }

    /** The directory's slot for a page, or a new slot holding a zero page. */
    method DirOrAlloc(page: nat) returns (s: nat)
      requires Valid() && page < LOW_PAGES
      modifies this`slots, this`dir
      ensures Valid()
      ensures page in dir && s == dir[page]
      ensures Contents() == old(Contents())[page := PageOrZero(old(Contents()), page)]
    {
      if page in dir {
        KeepPage(Contents(), page);
        return dir[page];
      }
      s := |slots|;
      AppendPage(slots, dir, page, ZeroPage());
      AppendCoherent(dir, lookaside, page, s);
      RoomKept(dir, page, s);
      slots := slots + [ZeroPage()];
      dir := dir[page := s];
    }

    /** Little-endian load of 1, 2, 4 or 8 bytes, possibly misaligned or across pages. */
    method Read(addr: u64, len: nat) returns (r: Option<u64>)
      requires Valid()
      modifies this`lookaside
      ensures Valid() && Contents() == old(Contents())
      ensures r == Pages.Read(Contents(), addr, len)
    {
      if len !in {1, 2, 4, 8} || addr + len > ADDR_SPACE {
        return None;
      }
      hide DirValid, Coherent, Gather, Room, Region, Words.Word64;
      var val := Load(addr, len);
      r := Some(val);
    }

    /** The load loop. */
    method Load(addr: u64, len: nat) returns (val: u64)
      requires Valid() && len <= 8 && addr + len <= ADDR_SPACE
      modifies this`lookaside
      ensures Valid() && Contents() == old(Contents())
      ensures val == Word64(Region(Contents(), addr, len))
    {
      hide DirValid, Coherent, Gather, Room, Region, ByteAt, FromLE, Pow256, Words.Word64;
      ghost var pages := Contents();
      var sum := 0;
      EmptyRegion(pages, addr);
      for i := 0 to len
        invariant Valid() && Contents() == pages
        invariant sum == FromLE(Region(pages, addr, i))
      {
        var b := ReadOne(addr + i);
        RegionStep(pages, addr, i);
        FromLEAppend(Region(pages, addr, i), b);
        sum := sum + b * Pow256(i);
      }
      LoadFits(Region(pages, addr, len));
      val := sum;
    }

    /** The body of the load loop: one byte through the cache. */
    method ReadOne(a: nat) returns (b: byte)
      requires Valid() && a < ADDR_SPACE
      modifies this`lookaside
      ensures Valid() && Contents() == old(Contents())
      ensures b == ByteAt(Contents(), a)
    {
      var slot := SlotOf(a / PAGE_SIZE);
      b := if slot.Some? then slots[slot.value][a % PAGE_SIZE] else 0;
    }

    /** Byte-wise store, allocating pages as needed; rejected whole when out of range. */
    method Write(addr: u64, bytes: seq<byte>) returns (ok: bool)
      requires Valid()
      modifies this
      ensures Valid()
      ensures ok == Pages.Write(old(Contents()), addr, bytes).Some?
      ensures Contents() == if ok then WriteBytes(old(Contents()), addr, bytes) else old(Contents())
    {
      if addr + |bytes| > ADDR_SPACE {
        return false;
      }
      hide DirValid, Coherent, Gather, Room, WriteByte, WriteBytes;
      ghost var was := Contents();
      NothingWritten(was, addr, bytes);
      for i := 0 to |bytes|
        invariant Valid()
        invariant Contents() == WriteBytes(was, addr, bytes[..i])
      {
        WriteOne(addr + i, bytes[i]);
        OneMoreWritten(was, addr, bytes, i);
      }
      assert bytes[..|bytes|] == bytes;
      ok := true;
    }

    /** The body of the store loop: one byte. */
    method WriteOne(a: nat, b: byte)
      requires Valid() && a < ADDR_SPACE
      modifies this
      ensures Valid()
      ensures Contents() == WriteByte(old(Contents()), a, b)
    {
      ghost var page := PageOrZero(Contents(), a / PAGE_SIZE);
      StoreByte(Contents(), a, b);
      var slot := SlotMutOrAlloc(a / PAGE_SIZE);
      assert slots[slot] == Contents()[a / PAGE_SIZE] == page;
      ReplacePage(slots, dir, a / PAGE_SIZE, page[a % PAGE_SIZE := b]);
      slots := slots[slot := slots[slot][a % PAGE_SIZE := b]];
    }

    /** Bytes of a region, through the read-only probe. */
    method ReadRegion(addr: u64, len: nat) returns (r: Option<seq<byte>>)
      requires Valid()
      ensures r == if addr + len > ADDR_SPACE then None else Some(Region(Contents(), addr, len))
    {
      if addr + len > ADDR_SPACE {
        return None;
      }
      var out: seq<byte> := [];
      for i := 0 to len
        invariant out == Region(Contents(), addr, i)
      {
        var a := addr + i;
        var slot := SlotOfRo(a / PAGE_SIZE);
        assert Region(Contents(), addr, i + 1) == Region(Contents(), addr, i) + [ByteAt(Contents(), a)];
        out := out + [if slot.Some? then slots[slot.value][a % PAGE_SIZE] else 0];
      }
      r := Some(out);
    }

    /** Replaces or adds a whole page; the cache entry it shares is emptied. */
    method InsertPage(idx: nat, page: Page)
      requires Shaped() && idx < TWO32
      modifies this
      ensures Shaped() && dir.Keys == old(dir.Keys) + {idx}
      ensures Contents() == old(Contents())[idx := page]
    {
      if idx in dir {
        ReplacePage(slots, dir, idx, page);
        slots := slots[dir[idx] := page];
      } else {
        var s := |slots|;
        AppendPage(slots, dir, idx, page);
        AppendCoherent(dir, lookaside, idx, s);
        slots := slots + [page];
        dir := dir[idx := s];
      }
      lookaside := lookaside[idx % LOOKASIDE_SLOTS := (NO_PAGE, NO_SLOT)];
    }
  }

  /** A sound memory is usable exactly if its contents leave room. */
  lemma ValidIffRoom(mem: Mem)
    requires mem.Shaped()
    ensures mem.Valid() <==> Room(mem.Contents().Keys)
  {
    hide DirValid, Coherent, Gather, Room;
    GatherKeys(mem.slots, mem.dir);
  }
}
