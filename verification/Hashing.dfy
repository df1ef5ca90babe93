/** The canonical state hash, its chaining, and what the chain binds.

    The hash function is a parameter H: every law holds for every H. A law that would need H to
    be collision free instead names the two inputs that collide. */
module Hashing {
  import opened Words
  import opened Pages
  import opened Isa
  import opened IsaLaws
  import opened Memory
  import opened CpuState

  type Hash = h: seq<byte> | |h| == 32 witness seq(32, _ => 0)
  type Hasher = seq<byte> -> Hash

  /** The chain seed: 32 zero bytes. */
  function Genesis(): Hash {
    seq<byte>(32, _ => 0)
  }

  /** Two different inputs with the same digest. */
  predicate Collides(H: Hasher, a: seq<byte>, b: seq<byte>) {
    a != b && H(a) == H(b)
  }

  // ---------------------------------------------------------------- sorted iteration

  predicate IsLeast(s: set<nat>, x: nat) {
    x in s && forall y :: y in s ==> x <= y
  }

  lemma {:induction false} LeastExists(s: set<nat>)
    requires s != {}
    ensures exists x :: IsLeast(s, x)
  {
    var x :| x in s;
    var rest := s - {x};
    assert forall y :: y in s ==> y == x || y in rest;
    if rest == {} {
      assert IsLeast(s, x);
    } else {
      LeastExists(rest);
      var z :| IsLeast(rest, z);
      if x <= z {
        assert IsLeast(s, x);
      } else {
        assert IsLeast(s, z);
      }
    }
  }

  function Least(s: set<nat>): (x: nat)
    requires s != {}
    ensures IsLeast(s, x)
  {
    LeastExists(s);
    var x :| IsLeast(s, x);
    x
  }

  /** The keys in ascending order, as the ordered map iterates them. */
  function Sorted(s: set<nat>): (ks: seq<nat>)
    ensures forall k :: k in ks <==> k in s
    ensures |ks| == |s|
    ensures forall i, j :: 0 <= i < j < |ks| ==> ks[i] < ks[j]
  {
    if s == {} then []
    else
      var x := Least(s);
      [x] + Sorted(s - {x})
  }

  // ---------------------------------------------------------------- bytes fed to the hash

  /** Each listed page as its 4-byte index followed by its contents. */
  function Records(ks: seq<nat>, pages: PageMap): seq<byte>
    requires forall k :: k in ks ==> k in pages
  {
    if ks == [] then [] else ToLE(ks[0], 4) + pages[ks[0]] + Records(ks[1..], pages)
  }

  function PageBytes(pages: PageMap): seq<byte> {
    Records(Sorted(pages.Keys), pages)
  }

  function RegBytes(x: seq<u64>): (s: seq<byte>)
    ensures |s| == 8 * |x|
  {
    if x == [] then [] else Bytes64(x[0]) + RegBytes(x[1..])
  }

  /** Registers, pc and CSRs; the tohost latch is not architectural. */
  function HartBytes(h: Hart): (s: seq<byte>)
    ensures |s| == 296
  {
    RegBytes(h.x + [h.pc, h.mtvec, h.mepc, h.mcause, h.mstatus])
  }

  function Root(H: Hasher, pages: PageMap): Hash {
    H(PageBytes(pages))
  }

  function StateBytes(H: Hasher, prev: Hash, m: Machine): seq<byte> {
    prev + HartBytes(m.hart) + Root(H, m.pages)
  }

  function StateHash(H: Hasher, prev: Hash, m: Machine): Hash {
    H(StateBytes(H, prev, m))
  }

  /** Equality of everything the hash covers. */
  predicate SameState(m: Machine, n: Machine) {
    m.pages == n.pages && m.hart.(tohost := None) == n.hart.(tohost := None)
  }

  // ---------------------------------------------------------------- unique decodability

  lemma {:induction false} RegBytesInjective(x: seq<u64>, y: seq<u64>)
    requires |x| == |y| && RegBytes(x) == RegBytes(y)
    ensures x == y
  {
    hide Bytes64;
    if x != [] {
      AppendInjective(Bytes64(x[0]), RegBytes(x[1..]), Bytes64(y[0]), RegBytes(y[1..]));
      Word64Bytes64(x[0]);
      Word64Bytes64(y[0]);
      RegBytesInjective(x[1..], y[1..]);
      assert x == [x[0]] + x[1..] && y == [y[0]] + y[1..];
    }
  }

  lemma HartBytesInjective(g: Hart, h: Hart)
    requires HartBytes(g) == HartBytes(h)
    ensures g.(tohost := None) == h.(tohost := None)
  {
    var u, v := [g.pc, g.mtvec, g.mepc, g.mcause, g.mstatus], [h.pc, h.mtvec, h.mepc, h.mcause, h.mstatus];
    RegBytesInjective(g.x + u, h.x + v);
    AppendInjective(g.x, u, h.x, v);
    assert u[0] == v[0] && u[1] == v[1] && u[2] == v[2] && u[3] == v[3] && u[4] == v[4];
  }

  lemma {:induction false} RecordsInjective(ks: seq<nat>, p: PageMap, ls: seq<nat>, q: PageMap)
    requires forall k :: k in ks ==> k in p && k < TWO32
    requires forall k :: k in ls ==> k in q && k < TWO32
    requires Records(ks, p) == Records(ls, q)
    ensures ks == ls
    ensures forall k :: k in ks ==> p[k] == q[k]
  {
    hide ToLE;
    if ks == [] || ls == [] {
    } else {
      var a, b := ToLE(ks[0], 4), ToLE(ls[0], 4);
      var c, d := p[ks[0]], q[ls[0]];
      AppendInjective(a + c, Records(ks[1..], p), b + d, Records(ls[1..], q));
      AppendInjective(a, c, b, d);
      Pow256Values();
      ToLEInjective(ks[0], ls[0], 4);
      RecordsInjective(ks[1..], p, ls[1..], q);
      assert ks == [ks[0]] + ks[1..] && ls == [ls[0]] + ls[1..];
    }
  }

  /** The bytes of the memory root determine the whole page map. */
  lemma PageBytesInjective(p: PageMap, q: PageMap)
    requires WellIndexed(p) && WellIndexed(q)
    requires PageBytes(p) == PageBytes(q)
    ensures p == q
  {
    hide Sorted, Records;
    var ks := Sorted(p.Keys);
    RecordsInjective(ks, p, Sorted(q.Keys), q);
    assert forall k :: k in p <==> k in ks;
    assert forall k :: k in q <==> k in ks;
  }

  /** Equal state hashes bind the previous hash and the whole state, or exhibit a collision. */
  lemma HashBinds(H: Hasher, prev: Hash, m: Machine, prev': Hash, m': Machine)
    requires WellIndexed(m.pages) && WellIndexed(m'.pages)
    requires StateHash(H, prev, m) == StateHash(H, prev', m')
    ensures (prev == prev' && SameState(m, m'))
         || Collides(H, StateBytes(H, prev, m), StateBytes(H, prev', m'))
         || Collides(H, PageBytes(m.pages), PageBytes(m'.pages))
  {
    hide HartBytes;
    if StateBytes(H, prev, m) == StateBytes(H, prev', m') {
      var a, b := prev + HartBytes(m.hart), prev' + HartBytes(m'.hart);
      AppendInjective(a, Root(H, m.pages), b, Root(H, m'.pages));
      AppendInjective(prev, HartBytes(m.hart), prev', HartBytes(m'.hart));
      HartBytesInjective(m.hart, m'.hart);
      if PageBytes(m.pages) == PageBytes(m'.pages) {
        PageBytesInjective(m.pages, m'.pages);
      }
    }
  }

  // ---------------------------------------------------------------- the chain

  /** The hashes of a list of states, each chained onto the one before. */
  function Chain(H: Hasher, states: seq<Machine>): (c: seq<Hash>)
    ensures |c| == |states|
  {
    if states == [] then []
    else
      var n := |states| - 1;
      var c := Chain(H, states[..n]);
      c + [StateHash(H, if n == 0 then Genesis() else c[n - 1], states[n])]
  }

  /** The hash entry i is chained onto. */
  function Before(c: seq<Hash>, i: nat): Hash
    requires i <= |c|
  {
    if i == 0 then Genesis() else c[i - 1]
  }

  lemma {:induction false} ChainAt(H: Hasher, states: seq<Machine>, i: nat)
    requires i < |states|
    ensures Chain(H, states)[i] == StateHash(H, Before(Chain(H, states), i), states[i])
    ensures i < |states| - 1 ==> Chain(H, states[..|states| - 1])[i] == Chain(H, states)[i]
    decreases |states|
  {
    hide StateHash;
    var n := |states| - 1;
    if i < n {
      ChainAt(H, states[..n], i);
    }
  }

  /** The two inputs, of either hash at index i, that would have to collide. */
  predicate CollisionAt(H: Hasher, s: seq<Machine>, t: seq<Machine>, i: nat)
    requires i < |s| && i < |t|
  {
    || Collides(H, StateBytes(H, Before(Chain(H, s), i), s[i]), StateBytes(H, Before(Chain(H, t), i), t[i]))
    || Collides(H, PageBytes(s[i].pages), PageBytes(t[i].pages))
  }

  ghost predicate AllWellIndexed(s: seq<Machine>) {
    forall i :: 0 <= i < |s| ==> WellIndexed(s[i].pages)
  }

  /** Two chains equal at one index agree on every earlier entry and state, unless one of the
      named input pairs collides. */
  lemma {:induction false} ChainBindsHistory(H: Hasher, s: seq<Machine>, t: seq<Machine>, i: nat)
    requires AllWellIndexed(s) && AllWellIndexed(t)
    requires i < |s| && i < |t|
    requires Chain(H, s)[i] == Chain(H, t)[i]
    ensures (exists j :: 0 <= j <= i && CollisionAt(H, s, t, j))
         || (forall j :: 0 <= j <= i ==> Chain(H, s)[j] == Chain(H, t)[j] && SameState(s[j], t[j]))
    decreases i
  {
    hide StateBytes, PageBytes, Chain;
    var c, d := Chain(H, s), Chain(H, t);
    ChainAt(H, s, i);
    ChainAt(H, t, i);
    HashBinds(H, Before(c, i), s[i], Before(d, i), t[i]);
    if !CollisionAt(H, s, t, i) && i > 0 {
      ChainBindsHistory(H, s, t, i - 1);
    }
  }

  /** Once two chains have diverged they stay diverged, unless a named pair collides. */
  lemma {:induction false} DivergenceIsPermanent(H: Hasher, s: seq<Machine>, t: seq<Machine>, j: nat, i: nat)
    requires AllWellIndexed(s) && AllWellIndexed(t)
    requires j <= i < |s| && i < |t|
    requires Chain(H, s)[j] != Chain(H, t)[j]
    ensures Chain(H, s)[i] != Chain(H, t)[i] || exists k :: 0 <= k <= i && CollisionAt(H, s, t, k)
  {
    if Chain(H, s)[i] == Chain(H, t)[i] {
      ChainBindsHistory(H, s, t, i);
    }
  }

  // ---------------------------------------------------------------- the hashing loops

  /** One more record fed: the rest of the bytes are those of the remaining pages. */
  lemma {:induction false} RecordsStep(ks: seq<nat>, i: nat, pages: PageMap, buf: seq<byte>)
    requires i < |ks| && forall k :: k in ks ==> k in pages
    ensures buf + Records(ks[i..], pages) == (buf + (ToLE(ks[i], 4) + pages[ks[i]])) + Records(ks[i + 1..], pages)
  {
    hide ToLE;
    assert ks[i..][0] == ks[i] && ks[i..][1..] == ks[i + 1..];
    assert buf + (ToLE(ks[i], 4) + pages[ks[i]] + Records(ks[i + 1..], pages))
        == (buf + (ToLE(ks[i], 4) + pages[ks[i]])) + Records(ks[i + 1..], pages);
  }

  /** `merkle_root`: the records of the allocated pages, sorted. */
  method MerkleRoot(mem: Mem, H: Hasher) returns (r: Hash)
    requires mem.Shaped()
    ensures r == Root(H, mem.Contents())
  {
    hide ToLE, Sorted, Records, DirValid, Coherent, Gather;
    ghost var pages := mem.Contents();
    GatherKeys(mem.slots, mem.dir);
    var ks := Sorted(mem.dir.Keys);
    var buf: seq<byte> := [];
    assert ks[0..] == ks;
    for i := 0 to |ks|
      invariant PageBytes(pages) == buf + Records(ks[i..], pages)
    {
      RecordsStep(ks, i, pages, buf);
      GatherAt(mem.slots, mem.dir, ks[i]);
      buf := buf + (ToLE(ks[i], 4) + mem.slots[mem.dir[ks[i]]]);
    }
    NoRecords(pages);
    assert ks[|ks|..] == [] && buf + [] == buf;
    r := H(buf);
  }

  lemma {:induction false} NoRecords(pages: PageMap)
    ensures Records([], pages) == []
  {
  }

  /** Feeds the registers in order. */
  method AppendRegs(x: seq<u64>) returns (buf: seq<byte>)
    ensures buf == RegBytes(x)
  {
    buf := [];
    for i := 0 to |x|
      invariant RegBytes(x) == buf + RegBytes(x[i..])
    {
      assert x[i..][0] == x[i] && x[i..][1..] == x[i + 1..];
      assert buf + (Bytes64(x[i]) + RegBytes(x[i + 1..])) == (buf + Bytes64(x[i])) + RegBytes(x[i + 1..]);
      buf := buf + Bytes64(x[i]);
    }
    assert buf + [] == buf;
  }

  /** `state_hash`: previous hash, registers, pc, CSRs, memory root. */
  method HashState(prev: Hash, cpu: Cpu, mem: Mem, H: Hasher) returns (h: Hash)
    requires cpu.Valid() && mem.Shaped()
    ensures h == StateHash(H, prev, Machine(cpu.State(), mem.Contents()))
  {
    var regs := AppendRegs(cpu.x[..] + [cpu.pc, cpu.mtvec, cpu.mepc, cpu.mcause, cpu.mstatus]);
    var root := MerkleRoot(mem, H);
    h := H(prev + regs + root);
  }
}
