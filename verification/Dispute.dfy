/** The dispute game: two committed chains disagree and a judge decides who computed honestly. */
module Dispute {
  import opened Words
  import opened Pages
  import opened Isa
  import opened IsaLaws
  import opened Memory
  import opened CpuState
  import opened Hashing
  import opened Snapshot
  import opened Interp
  import opened Run
  import opened RunLaws
  import opened Runner
  import opened Judge
  import opened JobFormat
  import Elf

  datatype Verdict =
    | Agreement
    | ClaimHonest(at: nat)
    | CounterHonest(at: nat)
    | BothDishonest(at: nat)
    | Malformed

  // ---------------------------------------------------------------- decoding committed chains

  /** What a hash string decodes to; slicing inside a multi-byte character panics. */
  datatype Decoded<T> = Good(value: T) | Bad | SlicePanic

  predicate Continuation(b: byte) { 0x80 <= b < 0xc0 }

  /** Digit pair i as `u8::from_str_radix` reads it: a leading plus sign is accepted. */
  function DecodePair(s: Str, i: nat): Decoded<byte>
    requires |s| == 64 && i < 32
  {
    var hi, lo := s[2 * i], s[2 * i + 1];
    if Continuation(hi) || (i < 31 && Continuation(s[2 * i + 2])) then SlicePanic
    else if Digit(lo).None? then Bad
    else if hi == 0x2b then Good(Digit(lo).value)
    else if Digit(hi).None? then Bad
    else Good(16 * Digit(hi).value + Digit(lo).value)
  }

  /** The first pair that is not a byte decides; `acc` are the bytes before pair |acc|. */
  function DecodeFrom(s: Str, acc: seq<byte>): Decoded<Hash>
    requires |s| == 64 && |acc| <= 32
    decreases 32 - |acc|
  {
    if |acc| == 32 then Good(acc)
    else
      match DecodePair(s, |acc|)
      case Good(b) => DecodeFrom(s, acc + [b])
      case Bad => Bad
      case SlicePanic => SlicePanic
  }

  function DecodeHash(s: Str): Decoded<Hash> {
    if |s| != 64 then Bad else DecodeFrom(s, [])
  }

  /** Pair i reads as b: two hex digits, or a plus sign and one. */
  predicate PairReads(s: Str, i: nat, b: byte)
    requires 2 * i + 1 < |s|
  {
    PairIs(s, i, b) || (s[2 * i] == 0x2b && Digit(s[2 * i + 1]) == Some(b))
  }

  lemma {:induction false} DecodeFromIff(s: Str, acc: seq<byte>, h: Hash)
    requires |s| == 64 && |acc| <= 32
    ensures DecodeFrom(s, acc) == Good(h) <==>
            h[..|acc|] == acc && forall i :: |acc| <= i < 32 ==> PairReads(s, i, h[i])
    decreases 32 - |acc|
  {
    if |acc| == 32 {
      assert h[..32] == h;
    } else {
      var n := |acc|;
      var p := DecodePair(s, n);
      assert PairReads(s, n, h[n]) && (n < 31 ==> PairReads(s, n + 1, h[n + 1])) ==> p == Good(h[n]);
      assert p.Good? ==> PairReads(s, n, p.value);
      if p.Good? {
        DecodeFromIff(s, acc + [p.value], h);
        assert h[..n + 1] == h[..n] + [h[n]];
        assert h[..n + 1] == acc + [p.value] <==> h[..n] == acc && h[n] == p.value by {
          assert (acc + [p.value])[..n] == acc && h[..n + 1][..n] == h[..n] && (acc + [p.value])[n] == p.value;
        }
      }
    }
  }

  /** A string decodes to a hash if and only if it has 64 bytes and each pair reads as that byte; so it is hex
      text exactly if it has no plus sign. */
  lemma DecodeHashIff(s: Str, h: Hash)
    ensures DecodeHash(s) == Good(h) <==> |s| == 64 && forall i :: 0 <= i < 32 ==> PairReads(s, i, h[i])
  {
    hide PairReads, DecodeFrom;
    if |s| == 64 {
      DecodeFromIff(s, [], h);
      assert h[..0] == [];
    }
  }

  predicate ReadsPair(s: Str, i: nat)
    requires 2 * i + 1 < |s|
  {
    Digit(s[2 * i + 1]).Some? && (s[2 * i] == 0x2b || Digit(s[2 * i]).Some?)
  }

  /** A character goes across the start of pair k, and the pairs n.. before the one it reaches into read. */
  predicate SplitsAt(s: Str, n: nat, k: nat)
    requires |s| == 64
  {
    n <= k < 32 && Continuation(s[2 * k]) && forall j :: n <= j < k - 1 ==> ReadsPair(s, j)
  }

  lemma {:induction false} DecodeFromPanicsIff(s: Str, acc: seq<byte>)
    requires |s| == 64 && |acc| <= 32
    ensures DecodeFrom(s, acc) == SlicePanic <==> exists k: nat :: SplitsAt(s, |acc|, k)
    decreases 32 - |acc|
  {
    var n := |acc|;
    if n < 32 {
      match DecodePair(s, n)
      case SlicePanic =>
        assert SplitsAt(s, n, if Continuation(s[2 * n]) then n else n + 1);
      case Bad =>
        assert !ReadsPair(s, n);
        assert forall k: nat :: SplitsAt(s, n, k) ==> k <= n + 1;
      case Good(b) =>
        var longer := |acc + [b]|;
        DecodeFromPanicsIff(s, acc + [b]);
        assert ReadsPair(s, n);
        assert forall k: nat :: SplitsAt(s, n, k) <==> SplitsAt(s, longer, k);
    }
  }

  /** Decoding panics if and only if the string has 64 bytes and one of its even offsets lies inside a
      character, with every pair before the one that character begins in already read. */
  lemma {:induction false} DecodePanicsIff(s: Str)
    ensures DecodeHash(s) == SlicePanic <==> |s| == 64 && exists k: nat :: SplitsAt(s, 0, k)
  {
    hide DecodeFrom, SplitsAt;
    if |s| == 64 {
      DecodeFromPanicsIff(s, []);
    }
  }

  /** The digit zero, then an accented letter (two bytes), then 61 digits: 63 characters in 64 bytes. */
  lemma AccentPanics()
    ensures DecodeHash([0x30, 0xc3, 0xa9] + seq(61, i => 0x30)) == SlicePanic
  {
    var s: Str := [0x30, 0xc3, 0xa9] + seq(61, i => 0x30);
    DecodePanicsIff(s);
    assert s[2 * 1] == 0xa9;
    assert SplitsAt(s, 0, 1);
  }

  /** Two spellings of one hash: a first digit zero may be written as a plus sign. */
  lemma {:induction false} PlusAliasesZero(h: Hash)
    requires h[0] < 16
    ensures Hex(h)[0 := 0x2b] != Hex(h)
    ensures DecodeHash(Hex(h)) == DecodeHash(Hex(h)[0 := 0x2b]) == Good(h)
  {
    var s := Hex(h)[0 := 0x2b];
    forall i | 0 <= i < 32
      ensures PairReads(Hex(h), i, h[i]) && PairReads(s, i, h[i])
    {
      HexSpells(h, i);
    }
    assert Hex(h)[0] == 0x30;
    hide Hex, Digit;
    DecodeHashIff(Hex(h), h);
    DecodeHashIff(s, h);
  }

  /** Left to right; the first string that fails decides. */
  function DecodeChain(hexes: seq<Str>): Decoded<seq<Hash>> {
    if hexes == [] then Good([])
    else
      match DecodeHash(hexes[0])
      case Bad => Bad
      case SlicePanic => SlicePanic
      case Good(h) =>
        match DecodeChain(hexes[1..])
        case Bad => Bad
        case SlicePanic => SlicePanic
        case Good(rest) => Good([h] + rest)
  }

  /** A chain decodes if and only if each string does, and panics if and only if one string does and every
      string before it decodes. */
  lemma {:induction false} ChainDecodesIff(hexes: seq<Str>)
    ensures DecodeChain(hexes).Good? <==> forall i :: 0 <= i < |hexes| ==> DecodeHash(hexes[i]).Good?
    ensures DecodeChain(hexes) == SlicePanic
        <==> exists i :: 0 <= i < |hexes| && DecodeHash(hexes[i]) == SlicePanic
                         && forall j :: 0 <= j < i ==> DecodeHash(hexes[j]).Good?
  {
    hide DecodeHash;
    if hexes != [] {
      var rest := hexes[1..];
      ChainDecodesIff(rest);
      assert forall i :: 0 <= i < |rest| ==> rest[i] == hexes[i + 1];
      assert forall i :: 0 < i < |hexes| ==> hexes[i] == rest[i - 1];
    }
  }

  method Decode(hexes: seq<Str>) returns (r: Decoded<seq<Hash>>)
    ensures r == DecodeChain(hexes)
  {
    hide DecodeHash;
    var out: seq<Hash> := [];
    ghost var whole := DecodeChain(hexes);
    assert hexes[0..] == hexes;
    assert whole.Good? ==> out + whole.value == whole.value;
    for i := 0 to |hexes|
      invariant match DecodeChain(hexes[i..])
                case Good(rest) => whole == Good(out + rest)
                case Bad => whole == Bad
                case SlicePanic => whole == SlicePanic
    {
      assert hexes[i..][0] == hexes[i] && hexes[i..][1..] == hexes[i + 1..];
      match DecodeHash(hexes[i]) {
        case Bad => return Bad;
        case SlicePanic => return SlicePanic;
        case Good(h) =>
          assert DecodeChain(hexes[i + 1..]).Good? ==>
              out + ([h] + DecodeChain(hexes[i + 1..]).value) == (out + [h]) + DecodeChain(hexes[i + 1..]).value;
          out := out + [h];
      }
    }
    assert out + [] == out;
    r := Good(out);
  }

  /** A chain written in hex decodes to itself. */
  function HexChain(chain: seq<Hash>): (s: seq<Str>)
    ensures |s| == |chain|
  {
    if chain == [] then [] else [Hex(chain[0])] + HexChain(chain[1..])
  }

  lemma {:induction false} HexDecodesFrom(h: Hash, n: nat)
    requires n <= 32
    ensures DecodeFrom(Hex(h), h[..n]) == Good(h)
    decreases 32 - n
  {
    hide Hex;
    if n < 32 {
      HexSpells(h, n);
      HexIsAscii(h, 2 * n);
      HexIsAscii(h, 2 * n + 1);
      if n < 31 {
        HexIsAscii(h, 2 * n + 2);
      }
      assert h[..n] + [h[n]] == h[..n + 1];
      HexDecodesFrom(h, n + 1);
    } else {
      assert h[..32] == h;
    }
  }

  lemma {:induction false} HexIsAscii(b: seq<byte>, i: nat)
    requires i < |Hex(b)|
    ensures Hex(b)[i] < 0x80 && Hex(b)[i] != 0x2b
  {
    if i >= 2 {
      HexIsAscii(b[1..], i - 2);
    }
  }

  lemma {:induction false} HexChainDecodes(chain: seq<Hash>)
    ensures DecodeChain(HexChain(chain)) == Good(chain)
  {
    hide DecodeFrom, Hex;
    if chain != [] {
      assert chain[0][..0] == [];
      HexDecodesFrom(chain[0], 0);
      HexChainDecodes(chain[1..]);
      assert [chain[0]] + chain[1..] == chain;
    }
  }

  // ---------------------------------------------------------------- first divergence and verdict

  /** k is the least index at which the chains differ or one of them ends. */
  predicate DivergesAt(a: seq<Hash>, b: seq<Hash>, k: nat) {
    && k <= |a| && k <= |b| && a[..k] == b[..k]
    && (k < |a| || k < |b|)
    && (k < |a| && k < |b| ==> a[k] != b[k])
  }

  /** `first_divergence`: None exactly for identical chains. */
  method FirstDivergence(a: seq<Hash>, b: seq<Hash>) returns (k: Option<nat>)
    ensures k.None? <==> a == b
    ensures k.Some? ==> DivergesAt(a, b, k.value)
  {
    var n := if |a| > |b| then |a| else |b|;
    for i := 0 to n
      invariant i <= |a| && i <= |b| && a[..i] == b[..i]
    {
      if i >= |a| || i >= |b| || a[i] != b[i] {
        return Some(i);
      }
      assert a[..i + 1] == a[..i] + [a[i]] && b[..i + 1] == b[..i] + [b[i]];
    }
    assert a == a[..n] && b == b[..n];
    k := None;
  }

  /** The divergence index is determined by the two chains. */
  lemma DivergenceUnique(a: seq<Hash>, b: seq<Hash>, j: nat, k: nat)
    requires DivergesAt(a, b, j) && DivergesAt(a, b, k)
    ensures j == k
  {
  }

  /** The divergence index of different chains. */
  function Divergence(a: seq<Hash>, b: seq<Hash>): (k: nat)
    requires a != b
    ensures DivergesAt(a, b, k)
  {
    DivergenceFrom(a, b, 0)
  }

  function DivergenceFrom(a: seq<Hash>, b: seq<Hash>, i: nat): (k: nat)
    requires a != b && i <= |a| && i <= |b| && a[..i] == b[..i]
    ensures DivergesAt(a, b, k)
    decreases |a| - i
  {
    assert a[..|a|] == a && b[..|b|] == b;
    if i == |a| || i == |b| || a[i] != b[i] then i
    else
      assert a[..i + 1] == a[..i] + [a[i]] && b[..i + 1] == b[..i] + [b[i]];
      DivergenceFrom(a, b, i + 1)
  }

  predicate Has(c: seq<Hash>, k: nat, t: Hash) { k < |c| && c[k] == t }

  function VerdictWithTruth(a: seq<Hash>, b: seq<Hash>, k: nat, truth: Option<Hash>): Verdict {
    match truth
    case None => Malformed
    case Some(t) =>
      if Has(a, k, t) && Has(b, k, t) then Agreement
      else if Has(a, k, t) then ClaimHonest(k)
      else if Has(b, k, t) then CounterHonest(k)
      else BothDishonest(k)
  }

  /** At a divergence the truth cannot match both sides, so the verdict is never Agreement. */
  lemma NoAgreementAtDivergence(a: seq<Hash>, b: seq<Hash>, k: nat, truth: Option<Hash>)
    requires DivergesAt(a, b, k)
    ensures VerdictWithTruth(a, b, k, truth) != Agreement
  {
  }

  // ---------------------------------------------------------------- the replay judge

  datatype Replay = Replayed(o: Outcome) | NoImage | ReplayPanic

  /** Full re-execution of a job from its ELF image. */
  ghost function ReplayJob(elf: seq<byte>, entry: u64, input: seq<byte>, chunkSize: u64, max: u64): Replay {
    if !Elf.Acceptable(elf) then NoImage
    else
      match Elf.LoadSegments(map[], Elf.Segments(elf, Elf.U16(elf, 0x38)))
      case None => NoImage
      case Some(pages) =>
        match RunJob(pages, entry, input, Config(chunkSize, max, None, false))
        case None => ReplayPanic
        case Some(o) => Replayed(o)
  }

  /** A replay is a run from addressable pages. */
  lemma ReplayRuns(elf: seq<byte>, entry: u64, input: seq<byte>, chunkSize: u64, max: u64) returns (pages: PageMap)
    requires ReplayJob(elf, entry, input, chunkSize, max).Replayed?
    ensures forall p :: p in pages ==> p < LOW_PAGES
    ensures RunJob(pages, entry, input, Config(chunkSize, max, None, false))
         == Some(ReplayJob(elf, entry, input, chunkSize, max).o)
  {
    hide RunJob, Elf.LoadSegments, Elf.Segments;
    pages := Elf.LoadSegments(map[], Elf.Segments(elf, Elf.U16(elf, 0x38))).value;
    Elf.ParseImpliesLoad(elf, 0);
  }

  /** Parse, load and run, as both replay judges do. */
  method ReplayGuest(elf: seq<byte>, entry: u64, input: seq<byte>, chunkSize: u64, max: u64, H: Hasher)
    returns (panic: bool, o: Option<RunOutcome>)
    requires |elf| < Elf.SLICE_MAX
    ensures match ReplayJob(elf, entry, input, chunkSize, max)
            case NoImage => !panic && o == None
            case ReplayPanic => panic
            case Replayed(x) =>
              !panic && o == Some(RunOutcome(x.status, Chain(H, x.states), x.instructions, x.output, x.snaps))
  {
    hide RunJob, Elf.Acceptable, Elf.Segments, Elf.LoadSegments, Chain, DirValid, Coherent, Gather;
    var parsed := Elf.Parse(elf);
    if parsed.Rejected? {
      return false, None;
    }
    var mem := new Mem();
    var ok := Elf.Load(mem, parsed.image.segments);
    if !ok {
      return false, None;
    }
    o := RunGuest(mem, entry, input, Config(chunkSize, max, None, false), H);
    panic := o.None?;
  }

  /** `judge_by_replay`: the chain of the re-execution. */
  method JudgeByReplay(elf: seq<byte>, entry: u64, input: seq<byte>, chunkSize: u64, max: u64, H: Hasher)
    returns (panic: bool, chain: Option<seq<Hash>>)
    requires |elf| < Elf.SLICE_MAX
    ensures match ReplayJob(elf, entry, input, chunkSize, max)
            case NoImage => !panic && chain == None
            case ReplayPanic => panic
            case Replayed(o) => !panic && chain == Some(Chain(H, o.states))
  {
    hide ReplayJob, Chain;
    var o;
    panic, o := ReplayGuest(elf, entry, input, chunkSize, max, H);
    chain := if o.Some? then Some(o.value.chunkHashes) else None;
  }

  /** `replay_journal`: instruction count and output of the re-execution, an absent output being empty. */
  method ReplayJournal(elf: seq<byte>, entry: u64, input: seq<byte>, chunkSize: u64, max: u64, H: Hasher)
    returns (panic: bool, journal: Option<(nat, seq<byte>)>)
    requires |elf| < Elf.SLICE_MAX
    ensures match ReplayJob(elf, entry, input, chunkSize, max)
            case NoImage => !panic && journal == None
            case ReplayPanic => panic
            case Replayed(o) => !panic && journal == Some((o.instructions, OrEmpty(o.output)))
  {
    hide ReplayJob, Chain;
    var o;
    panic, o := ReplayGuest(elf, entry, input, chunkSize, max, H);
    journal := if o.Some? then Some((o.value.instructions, OrEmpty(o.value.output))) else None;
  }

  /** The file does not hold every one of the 2^32 - 2^20 unreachable pages: some 16 TiB. */
  ghost predicate HasRoom(file: Option<seq<byte>>) {
    file.Some? && Restore(file.value).State? ==> Room(Restore(file.value).m.pages.Keys)
  }

  /** `judge_by_snapshot`. */
  method JudgeBySnapshot(file: Option<seq<byte>>, k: nat, agreed: seq<Hash>, chunkSize: u64, H: Hasher)
    returns (j: Judgment)
    requires HasRoom(file)
    ensures j == JudgeSnapshot(H, file, k, agreed, chunkSize)
  {
    hide Restore, ChunkFrom, StateHash, DirValid, Coherent, Gather;
    if k == 0 || |agreed| < k || file.None? {
      return Unavailable;
    }
    var cpu, mem, error := RestoreState(file.value);
    if error.Some? {
      return Unavailable;
    }
    var prev := if k == 1 then Genesis() else agreed[k - 2];
    var h := HashState(prev, cpu, mem, H);
    if h != agreed[k - 1] {
      return Unavailable;
    }
    // execute_chunk_from parses the same bytes again
    cpu, mem, error := RestoreState(file.value);
    ValidIffRoom(mem);
    var ok, result, _ := ExecuteChunk(cpu, mem, agreed[k - 1], chunkSize, H);
    j := if ok then Truth(result) else HostAbort;
  }

  // ---------------------------------------------------------------- resolving a dispute

  datatype Input = Input(claim: seq<Str>, counter: seq<Str>, elf: seq<byte>, entry: u64, input: seq<byte>,
                         chunkSize: u64, max: u64, file: map<nat, seq<byte>>)

  datatype Resolution = Resolved(verdict: Verdict) | Panicked

  /** The snapshot file the fast path would read for divergence k. */
  function SnapshotFor(inp: Input, k: nat): Option<seq<byte>> {
    if k > 0 && k - 1 in inp.file then Some(inp.file[k - 1]) else None
  }

  /** The judge's hash at k: snapshot first, replay when that is unavailable. */
  ghost function TruthAt(H: Hasher, inp: Input, a: seq<Hash>, k: nat): Judgment {
    match JudgeSnapshot(H, SnapshotFor(inp, k), k, a, inp.chunkSize)
    case HostAbort => HostAbort
    case Truth(h) => Truth(h)
    case Unavailable =>
      match ReplayJob(inp.elf, inp.entry, inp.input, inp.chunkSize, inp.max)
      case NoImage => Unavailable
      case ReplayPanic => HostAbort
      case Replayed(o) => if k < |o.states| then Truth(Chain(H, o.states)[k]) else Unavailable
  }

  /** The outcome `resolve` reaches on chains a and b diverging at k. */
  ghost function Settle(H: Hasher, inp: Input, a: seq<Hash>, b: seq<Hash>, k: nat): Resolution {
    match TruthAt(H, inp, a, k)
    case HostAbort => Panicked
    case Unavailable => Resolved(VerdictWithTruth(a, b, k, None))
    case Truth(h) => Resolved(VerdictWithTruth(a, b, k, Some(h)))
  }

  /** What `resolve` answers: both chains are decoded before either is looked at. */
  ghost function Resolving(H: Hasher, inp: Input): Resolution {
    match (DecodeChain(inp.claim), DecodeChain(inp.counter))
    case (SlicePanic, _) => Panicked
    case (_, SlicePanic) => Panicked
    case (Bad, _) => Resolved(Malformed)
    case (_, Bad) => Resolved(Malformed)
    case (Good(x), Good(y)) => if x == y then Resolved(Agreement) else Settle(H, inp, x, y, Divergence(x, y))
  }

  /** `resolve`. */
  method Resolve(inp: Input, H: Hasher) returns (r: Resolution)
    requires |inp.elf| < Elf.SLICE_MAX
    requires forall k :: HasRoom(SnapshotFor(inp, k))
    ensures r == Resolving(H, inp)
  {
    hide DecodeChain, JudgeSnapshot, ReplayJob, Chain, DivergesAt, VerdictWithTruth, Divergence;
    var a := Decode(inp.claim);
    if a.SlicePanic? { return Panicked; }
    var b := Decode(inp.counter);
    if b.SlicePanic? { return Panicked; }
    if a.Bad? || b.Bad? { return Resolved(Malformed); }
    if a.value == b.value { return Resolved(Agreement); }
    var d := FirstDivergence(a.value, b.value);
    var k := d.value;
    DivergenceUnique(a.value, b.value, k, Divergence(a.value, b.value));
    var j := JudgeBySnapshot(SnapshotFor(inp, k), k, a.value, inp.chunkSize, H);
    if j == Unavailable {
      var panic, chain := JudgeByReplay(inp.elf, inp.entry, inp.input, inp.chunkSize, inp.max, H);
      if panic { return Panicked; }
      j := if chain.Some? && k < |chain.value| then Truth(chain.value[k]) else Unavailable;
    }
    match j {
      case HostAbort => r := Panicked;
      case Unavailable => r := Resolved(VerdictWithTruth(a.value, b.value, k, None));
      case Truth(h) => r := Resolved(VerdictWithTruth(a.value, b.value, k, Some(h)));
    }
  }

  // ---------------------------------------------------------------- the honest side

  /** Under replay alone, a side whose chain is the replay's own is upheld at the divergence, unless
      the other chain strictly extends it, in which case there is no verdict. */
  lemma HonestSideUpheldByReplay(H: Hasher, inp: Input, a: seq<Hash>, b: seq<Hash>, k: nat)
    requires DivergesAt(a, b, k) && SnapshotFor(inp, k).None?
    requires var r := ReplayJob(inp.elf, inp.entry, inp.input, inp.chunkSize, inp.max);
             r.Replayed? && (a == Chain(H, r.o.states) || b == Chain(H, r.o.states))
    ensures var r := ReplayJob(inp.elf, inp.entry, inp.input, inp.chunkSize, inp.max);
            var truth := Chain(H, r.o.states);
            && (a == truth && k < |a| ==> Settle(H, inp, a, b, k) == Resolved(ClaimHonest(k)))
            && (b == truth && k < |b| ==> Settle(H, inp, a, b, k) == Resolved(CounterHonest(k)))
            && (a == truth && k == |a| ==> Settle(H, inp, a, b, k) == Resolved(Malformed) && a < b)
            && (b == truth && k == |b| ==> Settle(H, inp, a, b, k) == Resolved(Malformed) && b < a)
  {
    hide ReplayJob, Chain, Restore, ChunkFrom;
    assert a[..|a|] == a && b[..|b|] == b;
  }

  /** A side is upheld, or the chains agree, or there is no verdict because the other side's chain is
      undecodable, strictly longer, or panics the decoder. */
  ghost predicate Upheld(truth: seq<Hash>, other: seq<Str>, claims: bool, r: Resolution) {
    match DecodeChain(other)
    case SlicePanic => r == Panicked
    case Bad => r == Resolved(Malformed)
    case Good(b) =>
      || (r == Resolved(Agreement) && b == truth)
      || (r == Resolved(Malformed) && truth < b)
      || (exists k: nat :: DivergesAt(truth, b, k) && k < |truth|
                      && r == Resolved(if claims then ClaimHonest(k) else CounterHonest(k)))
  }

  /** Replay never convicts the honest side: whoever submits the replay's own chain in any spelling, as
      claim or as counter and against any other submission, is upheld. */
  lemma HonestChainIsUpheld(H: Hasher, inp: Input)
    requires inp.file == map[]
    requires ReplayJob(inp.elf, inp.entry, inp.input, inp.chunkSize, inp.max).Replayed?
    ensures var truth := Chain(H, ReplayJob(inp.elf, inp.entry, inp.input, inp.chunkSize, inp.max).o.states);
            && (DecodeChain(inp.claim) == Good(truth) ==> Upheld(truth, inp.counter, true, Resolving(H, inp)))
            && (DecodeChain(inp.counter) == Good(truth) ==> Upheld(truth, inp.claim, false, Resolving(H, inp)))
  {
    hide ReplayJob, Chain, DecodeChain, Settle, Divergence;
    var truth := Chain(H, ReplayJob(inp.elf, inp.entry, inp.input, inp.chunkSize, inp.max).o.states);
    var a, b := DecodeChain(inp.claim), DecodeChain(inp.counter);
    if a.Good? && b.Good? && a.value != b.value && (a.value == truth || b.value == truth) {
      var k := Divergence(a.value, b.value);
      HonestSideUpheldByReplay(H, inp, a.value, b.value, k);
      assert DivergesAt(b.value, a.value, k);
    }
  }

  /** With any snapshot files at all, the honest side is upheld at a divergence inside the replay's
      chain whose entry can be judged, or the file used collides with the genuine state. */
  lemma HonestSideUpheldWithSnapshot(H: Hasher, inp: Input, a: seq<Hash>, b: seq<Hash>, k: nat)
    requires DivergesAt(a, b, k)
    requires var r := ReplayJob(inp.elf, inp.entry, inp.input, inp.chunkSize, inp.max);
             && r.Replayed? && (a == Chain(H, r.o.states) || b == Chain(H, r.o.states))
             && k < |r.o.states| && (k > 0 ==> Judgeable(r.o.states[k - 1], k, inp.chunkSize, inp.max))
    ensures var r := ReplayJob(inp.elf, inp.entry, inp.input, inp.chunkSize, inp.max);
            var honest := if a == Chain(H, r.o.states) then ClaimHonest(k) else CounterHonest(k);
            || Settle(H, inp, a, b, k) == Resolved(honest)
            || (k > 0 && SnapshotFor(inp, k).Some? && Restore(SnapshotFor(inp, k).value).State?
                && SnapshotCollides(H, a, k, Restore(SnapshotFor(inp, k).value).m, r.o.states[k - 1]))
  {
    hide ReplayJob, RunJob, Chain, Restore, ChunkFrom, ChunkRoutes, StateHash, SnapshotCollides, Judgeable;
    if k > 0 {
      var pages := ReplayRuns(inp.elf, inp.entry, inp.input, inp.chunkSize, inp.max);
      SnapshotJudgeMatchesReplay(H, SnapshotFor(inp, k), k, a, pages, inp.entry, inp.input,
                                 Config(inp.chunkSize, inp.max, None, false));
    }
  }

  /** A clean halt leaves the machine where it halts again. */
  lemma HaltedStateHaltsAgain(pages: PageMap, entry: u64, input: seq<byte>, cfg: Config)
    requires forall p :: p in pages ==> p < LOW_PAGES
    requires cfg.tohost.None? && RunJob(pages, entry, input, cfg).Some?
    requires RunJob(pages, entry, input, cfg).value.status == Halted
    ensures var s := RunJob(pages, entry, input, cfg).value.states;
            |s| > 0 && Step(s[|s| - 1], None) == Stepped(Ok(true), s[|s| - 1])
  {
    hide Iterate, Step, Start, RunJob;
    RunIsIterate(pages, entry, input, cfg);
    var m := Start(pages, entry, input).value;
    IterateEndsWithLast(Begin(m), cfg);
    RunEnd(m, Begin(m), cfg);
    var e := Iterate(Begin(m), cfg).value;
    TrapsArePrecise(TickN(m, None, Ticks(e)).value, None);
  }

  /** Past its end an honest chain has no such protection, however its run ended. On a genuine snapshot of
      its last state, a chain that strictly extends it is upheld against it, as claim or as counter, if and
      only if the chunk from that state does not abort the host and the extension continues with its
      hash; without the snapshot the replay judge gives no verdict. */
  lemma ExtensionUpheldIff(H: Hasher, inp: Input, b: seq<Hash>)
    requires var r := ReplayJob(inp.elf, inp.entry, inp.input, inp.chunkSize, inp.max);
             r.Replayed? && |r.o.states| > 0 && Chain(H, r.o.states) < b
             && SnapshotFor(inp, |r.o.states|) == Some(Capture(r.o.states[|r.o.states| - 1]))
    ensures var s := ReplayJob(inp.elf, inp.entry, inp.input, inp.chunkSize, inp.max).o.states;
            var a := Chain(H, s);
            var k := |a|;
            var c := ChunkFrom(s[k - 1], inp.chunkSize, 0);
            var wins := c.ChunkOut? && b[k] == StateHash(H, a[k - 1], c.m);
            && DivergesAt(a, b, k) && DivergesAt(b, a, k)
            && (Settle(H, inp, a, b, k) == Resolved(CounterHonest(k)) <==> wins)
            && (Settle(H, inp, b, a, k) == Resolved(ClaimHonest(k)) <==> wins)
            && (c.ChunkAborted? ==> Settle(H, inp, a, b, k) == Settle(H, inp, b, a, k) == Panicked)
            && Settle(H, inp.(file := map[]), a, b, k) == Resolved(Malformed)
            && Settle(H, inp.(file := map[]), b, a, k) == Resolved(Malformed)
  {
    hide Restore, Capture, StateHash, Step, ReplayJob, Chain, RunJob, ChunkFrom;
    var pages := ReplayRuns(inp.elf, inp.entry, inp.input, inp.chunkSize, inp.max);
    var s := ReplayJob(inp.elf, inp.entry, inp.input, inp.chunkSize, inp.max).o.states;
    var (n, a) := (|s| - 1, Chain(H, s));
    RunStatesAreTame(pages, inp.entry, inp.input, Config(inp.chunkSize, inp.max, None, false));
    assert Clean(s[n]);
    LowPagesFit(s[n].pages);
    RestoreOfCapture(s[n]);
    ChainAt(H, s, n);
    assert b[..|a|] == a == a[..|a|];
    assert b[n] == a[n] && (n > 0 ==> b[n - 1] == a[n - 1]);
  }

  /** So some extension beats the honest chain exactly when that chunk does not abort; after a clean halt
      it never does, and one more hash of the halted state wins. */
  lemma SomeExtensionWinsIff(H: Hasher, inp: Input)
    requires var r := ReplayJob(inp.elf, inp.entry, inp.input, inp.chunkSize, inp.max);
             r.Replayed? && |r.o.states| > 0
             && SnapshotFor(inp, |r.o.states|) == Some(Capture(r.o.states[|r.o.states| - 1]))
    ensures var r := ReplayJob(inp.elf, inp.entry, inp.input, inp.chunkSize, inp.max);
            var s := r.o.states;
            var a := Chain(H, s);
            var c := ChunkFrom(s[|s| - 1], inp.chunkSize, 0);
            && ((exists x: Hash :: Settle(H, inp, a, a + [x], |a|) == Resolved(CounterHonest(|a|))) <==> c.ChunkOut?)
            && (r.o.status == Halted ==> c == ChunkOut(ChunkHalted, s[|s| - 1]))
  {
    hide Restore, Capture, StateHash, Step, ReplayJob, Chain, RunJob, Settle;
    var r := ReplayJob(inp.elf, inp.entry, inp.input, inp.chunkSize, inp.max);
    var (s, a) := (r.o.states, Chain(H, r.o.states));
    var c := ChunkFrom(s[|s| - 1], inp.chunkSize, 0);
    if r.o.status == Halted {
      var pages := ReplayRuns(inp.elf, inp.entry, inp.input, inp.chunkSize, inp.max);
      HaltedStateHaltsAgain(pages, inp.entry, inp.input, Config(inp.chunkSize, inp.max, None, false));
    }
    forall x: Hash
      ensures Settle(H, inp, a, a + [x], |a|) == Resolved(CounterHonest(|a|)) <==>
              c.ChunkOut? && x == StateHash(H, a[|a| - 1], c.m)
    {
      ExtensionUpheldIff(H, inp, a + [x]);
    }
    if c.ChunkOut? {
      var x := StateHash(H, a[|a| - 1], c.m);
      assert Settle(H, inp, a, a + [x], |a|) == Resolved(CounterHonest(|a|));
    }
  }
}
