/** What `resolve` answers, entry by entry: against the replay's own chain, and on a genuine snapshot file. */
module Verdicts {
  import opened Words
  import opened Pages
  import opened Isa
  import opened IsaLaws
  import opened Hashing
  import opened Snapshot
  import opened Run
  import opened RunLaws
  import opened Judge
  import opened Dispute

  /** Entry k of the chain is h. */
  ghost predicate EntryIs(chain: seq<Hash>, k: nat, h: Hash) { k < |chain| && chain[k] == h }

  /** Both submissions decode, to different chains that first differ at k. */
  ghost predicate DisputeAt(inp: Input, a: seq<Hash>, b: seq<Hash>, k: nat) {
    DecodeChain(inp.claim) == Good(a) && DecodeChain(inp.counter) == Good(b) && a != b && DivergesAt(a, b, k)
  }

  /** The verdict given the true hash: the side that has it is honest, and neither is if neither has it. */
  ghost predicate Judged(a: seq<Hash>, b: seq<Hash>, k: nat, h: Hash, r: Resolution) {
    && (r == Resolved(ClaimHonest(k)) <==> EntryIs(a, k, h))
    && (r == Resolved(CounterHonest(k)) <==> EntryIs(b, k, h))
    && (r == Resolved(BothDishonest(k)) <==> !EntryIs(a, k, h) && !EntryIs(b, k, h))
  }

  lemma VerdictIsJudged(a: seq<Hash>, b: seq<Hash>, k: nat, h: Hash)
    requires DivergesAt(a, b, k)
    ensures Judged(a, b, k, h, Resolved(VerdictWithTruth(a, b, k, Some(h))))
  {
  }

  /** The snapshot judge has nothing to say at the first entry, or without the file of the entry before. */
  lemma NoSnapshot(H: Hasher, inp: Input, a: seq<Hash>, k: nat)
    requires k == 0 || k - 1 !in inp.file
    ensures JudgeSnapshot(H, SnapshotFor(inp, k), k, a, inp.chunkSize) == Unavailable
  {
    hide Restore, ChunkFrom, StateHash;
  }

  /** Without a usable snapshot the replay decides: by its entry k if its chain reaches that far, with no verdict if it
      does not or the image does not load, and the process panics exactly if the replay does. */
  lemma ReplayVerdictIff(H: Hasher, inp: Input, a: seq<Hash>, b: seq<Hash>, k: nat)
    requires DisputeAt(inp, a, b, k) && (k == 0 || k - 1 !in inp.file)
    ensures var (replay, r) := (ReplayJob(inp.elf, inp.entry, inp.input, inp.chunkSize, inp.max), Resolving(H, inp));
            && (r == Panicked <==> replay.ReplayPanic?)
            && (r == Resolved(Malformed) <==> replay.NoImage? || (replay.Replayed? && k >= |replay.o.states|))
            && (replay.Replayed? && k < |replay.o.states| ==> Judged(a, b, k, Chain(H, replay.o.states)[k], r))
  {
    hide ReplayJob, DecodeChain, JudgeSnapshot, Chain, Judged;
    DivergenceUnique(a, b, k, Divergence(a, b));
    NoSnapshot(H, inp, a, k);
    var replay := ReplayJob(inp.elf, inp.entry, inp.input, inp.chunkSize, inp.max);
    if replay.Replayed? && k < |replay.o.states| {
      VerdictIsJudged(a, b, k, Chain(H, replay.o.states)[k]);
    }
  }

  /** The judge never turns down the run's own state: on a capture of entry k - 1, against any chain that begins with
      the run's first k hashes, it answers the hash of where the chunk leads. */
  lemma GenuineSnapshotIsJudged(H: Hasher, k: nat, agreed: seq<Hash>, pages: PageMap, entry: u64, input: seq<byte>,
                                cfg: Run.Config)
    requires forall p :: p in pages ==> p < LOW_PAGES
    requires cfg.tohost.None? && RunJob(pages, entry, input, cfg).Some?
    requires var o := RunJob(pages, entry, input, cfg).value;
             0 < k <= |o.states| && k <= |agreed| && agreed[..k] == Chain(H, o.states)[..k]
    ensures var o := RunJob(pages, entry, input, cfg).value;
            var c := ChunkFrom(o.states[k - 1], cfg.chunkSize, 0);
            JudgeSnapshot(H, Some(Capture(o.states[k - 1])), k, agreed, cfg.chunkSize) ==
            if c.ChunkOut? then Truth(StateHash(H, agreed[k - 1], c.m)) else HostAbort
  {
    hide Restore, Capture, StateHash, Isa.Step, Chain, RunJob, ChunkFrom;
    var o := RunJob(pages, entry, input, cfg).value;
    RunStatesAreTame(pages, entry, input, cfg);
    assert Clean(o.states[k - 1]);
    LowPagesFit(o.states[k - 1].pages);
    RestoreOfCapture(o.states[k - 1]);
    ChainAt(H, o.states, k - 1);
    var chain := Chain(H, o.states);
    assert agreed[k - 1] == agreed[..k][k - 1] == chain[k - 1];
    assert k > 1 ==> agreed[k - 2] == agreed[..k][k - 2] == chain[k - 2];
  }

  /** With the honest run's file of entry k - 1 at hand and agreement with the run up to k, the dispute is decided by
      the hash of where the chunk from that state leads, and panics exactly if executing it aborts the host. */
  lemma SnapshotVerdictIff(H: Hasher, inp: Input, a: seq<Hash>, b: seq<Hash>, k: nat)
    requires DisputeAt(inp, a, b, k)
    requires var r := ReplayJob(inp.elf, inp.entry, inp.input, inp.chunkSize, inp.max);
             && r.Replayed? && 0 < k <= |r.o.states| && a[..k] == Chain(H, r.o.states)[..k]
             && k - 1 in inp.file && inp.file[k - 1] == Capture(r.o.states[k - 1])
    ensures var s := ReplayJob(inp.elf, inp.entry, inp.input, inp.chunkSize, inp.max).o.states;
            var c := ChunkFrom(s[k - 1], inp.chunkSize, 0);
            if c.ChunkOut? then Judged(a, b, k, StateHash(H, a[k - 1], c.m), Resolving(H, inp))
            else Resolving(H, inp) == Panicked
  {
    hide ReplayJob, DecodeChain, JudgeSnapshot, Chain, Judged, Capture, ChunkFrom, StateHash, RunJob;
    DivergenceUnique(a, b, k, Divergence(a, b));
    var pages := ReplayRuns(inp.elf, inp.entry, inp.input, inp.chunkSize, inp.max);
    GenuineSnapshotIsJudged(H, k, a, pages, inp.entry, inp.input, Run.Config(inp.chunkSize, inp.max, None, false));
    var s := ReplayJob(inp.elf, inp.entry, inp.input, inp.chunkSize, inp.max).o.states;
    var c := ChunkFrom(s[k - 1], inp.chunkSize, 0);
    if c.ChunkOut? {
      VerdictIsJudged(a, b, k, StateHash(H, a[k - 1], c.m));
    }
  }

  /** An undecodable chain is malformed, a panicking one panics, and equal chains agree, whichever side they are on. */
  lemma UndisputedIff(H: Hasher, inp: Input)
    ensures var (x, y, r) := (DecodeChain(inp.claim), DecodeChain(inp.counter), Resolving(H, inp));
            && (x == SlicePanic || y == SlicePanic ==> r == Panicked)
            && (x != SlicePanic && y != SlicePanic && (x == Bad || y == Bad) ==> r == Resolved(Malformed))
            && (r == Resolved(Agreement) <==> x.Good? && x == y)
  {
    hide DecodeChain, TruthAt;
    var (x, y) := (DecodeChain(inp.claim), DecodeChain(inp.counter));
    if x.Good? && y.Good? && x.value != y.value {
      var (k, t) := (Divergence(x.value, y.value), TruthAt(H, inp, x.value, Divergence(x.value, y.value)));
      NoAgreementAtDivergence(x.value, y.value, k, if t.Truth? then Some(t.h) else None);
    }
  }
}
