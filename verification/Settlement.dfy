/** From a verdict to money: the network judges, the decision each implies and the deltas of a job. */
module Settlement {
  import opened Words
  import opened JobFormat
  import opened Hashing
  import opened Quorum
  import opened Bonds
  import Dispute
  import Elf
  import Run
  import RunLaws

  const REWARD: i64 := 10
  const BURN: i64 := -100

  // ---------------------------------------------------------------- slashing

  /** One entry per result: a reward inside the accepted set, a burn outside it, nothing otherwise. */
  function Slashing(d: Decision, rs: seq<WorkerResult>): (deltas: seq<Delta>)
    ensures |deltas| == |rs|
  {
    seq<Delta>(|rs|, i requires 0 <= i < |rs| =>
      (rs[i].workerId, if !d.Accept? then 0 else if rs[i].workerId in d.agreed then REWARD else BURN))
  }

  /** Without an acceptance no balance moves. */
  lemma {:induction false} RejectionMovesNothing(d: Decision, rs: seq<WorkerResult>, id: Str)
    requires !d.Accept?
    ensures Moved(Slashing(d, rs), id) == 0
  {
    if rs != [] {
      var n := |rs| - 1;
      assert Slashing(d, rs)[..n] == Slashing(d, rs[..n]);
      RejectionMovesNothing(d, rs[..n], id);
    }
  }

  /** What a job moves for one id: one reward or one burn if it responded, and nothing if it did not. */
  lemma {:induction false} AcceptanceMoves(d: Decision, rs: seq<WorkerResult>, id: Str)
    requires d.Accept? && Distinct(Ids(rs))
    ensures Moved(Slashing(d, rs), id) == if id !in Ids(rs) then 0 else if id in d.agreed then REWARD else BURN
  {
    if rs != [] {
      var n := |rs| - 1;
      assert Slashing(d, rs)[..n] == Slashing(d, rs[..n]);
      assert Ids(rs)[..n] == Ids(rs[..n]);
      assert Ids(rs) == Ids(rs[..n]) + [rs[n].workerId];
      assert forall i :: 0 <= i < n ==> Ids(rs)[i] != Ids(rs)[n];
      AcceptanceMoves(d, rs[..n], id);
    }
  }

  /** Every job's deltas name each responder once and stay within 100 units. */
  lemma SlashingIsSmall(d: Decision, rs: seq<WorkerResult>)
    requires Distinct(Ids(rs))
    ensures DistinctNames(Slashing(d, rs)) && Small(Slashing(d, rs), 100)
  {
    assert forall i :: 0 <= i < |rs| ==> Slashing(d, rs)[i].0 == Ids(rs)[i];
  }

  // ---------------------------------------------------------------- commitment to a digest

  /** The result commits to exactly one hash, the digest. */
  predicate Commits(r: WorkerResult, digest: Str) {
    r.chunkHashes == [digest]
  }

  /** Ids of the results committed to the digest, in order; repeats kept. */
  function Committed(rs: seq<WorkerResult>, digest: Str): seq<Str> {
    if rs == [] then []
    else
      var n := |rs| - 1;
      Committed(rs[..n], digest) + if Commits(rs[n], digest) then [rs[n].workerId] else []
  }

  predicate HasCommitted(rs: seq<WorkerResult>, digest: Str, id: Str) {
    exists i :: 0 <= i < |rs| && rs[i].workerId == id && Commits(rs[i], digest)
  }

  lemma {:induction false} CommittedIff(rs: seq<WorkerResult>, digest: Str, id: Str)
    ensures id in Committed(rs, digest) <==> HasCommitted(rs, digest, id)
  {
    if rs != [] {
      var n := |rs| - 1;
      CommittedIff(rs[..n], digest, id);
      assert rs == rs[..n] + [rs[n]];
      if HasCommitted(rs[..n], digest, id) {
        var i :| 0 <= i < n && rs[..n][i].workerId == id && Commits(rs[..n][i], digest);
        assert rs[i].workerId == id;
      }
      if HasCommitted(rs, digest, id) {
        var i :| 0 <= i < |rs| && rs[i].workerId == id && Commits(rs[i], digest);
        assert i < n ==> rs[..n][i].workerId == id;
      }
    }
  }

  /** The vindication loop of the replay judge. */
  method Vindicate(rs: seq<WorkerResult>, digest: Str) returns (agreed: seq<Str>)
    ensures Distinct(agreed)
    ensures forall id :: id in agreed <==> HasCommitted(rs, digest, id)
    ensures Distinct(Ids(rs)) ==> agreed == Committed(rs, digest)
  {
    hide Commits, HasCommitted;
    agreed := [];
    for i := 0 to |rs|
      invariant Distinct(agreed)
      invariant forall id :: id in agreed <==> id in Committed(rs[..i], digest)
      invariant Distinct(Ids(rs)) ==> agreed == Committed(rs[..i], digest)
    {
      assert rs[..i + 1][..i] == rs[..i];
      if Commits(rs[i], digest) && rs[i].workerId !in agreed {
        agreed := agreed + [rs[i].workerId];
      } else if Commits(rs[i], digest) {
        RepeatIsNotDistinct(rs, i, digest);
      }
    }
    assert rs[..|rs|] == rs;
    forall id
      ensures id in agreed <==> HasCommitted(rs, digest, id)
    {
      CommittedIff(rs, digest, id);
    }
  }

  lemma {:induction false} RepeatIsNotDistinct(rs: seq<WorkerResult>, i: nat, digest: Str)
    requires i < |rs| && rs[i].workerId in Committed(rs[..i], digest)
    ensures !Distinct(Ids(rs))
  {
    CommittedIff(rs[..i], digest, rs[i].workerId);
    var j :| 0 <= j < i && rs[..i][j].workerId == rs[i].workerId;
    assert Ids(rs)[j] == Ids(rs)[i];
  }

  /** Whoever judges by a digest pays exactly the responders committed to it and burns the others. */
  lemma {:induction false} PaidIffCommitted(d: Decision, rs: seq<WorkerResult>, i: nat)
    requires d.Accept? && Distinct(Ids(rs)) && i < |rs| && d.agreed == Committed(rs, d.hash)
    ensures Moved(Slashing(d, rs), rs[i].workerId) == if Commits(rs[i], d.hash) then REWARD else BURN
  {
    assert Ids(rs)[i] == rs[i].workerId;
    AcceptanceMoves(d, rs, rs[i].workerId);
    CommittedIff(rs, d.hash, rs[i].workerId);
    if HasCommitted(rs, d.hash, rs[i].workerId) {
      var j :| 0 <= j < |rs| && rs[j].workerId == rs[i].workerId && Commits(rs[j], d.hash);
      assert Ids(rs)[j] == rs[i].workerId;
    }
  }

  // ---------------------------------------------------------------- the replay judge on the network

  /** The blobs of a job once materialized. */
  datatype Materials = Materials(elf: seq<byte>, input: seq<byte>, chunkSize: u64, max: u64, v2: bool)

  datatype Truth = Found(digest: Str, outputHex: Str) | NoTruth | JudgePanic

  /** The consensus commitment: hex SHA-256 of the journal. */
  function JournalDigest(Sha: Hasher, instructions: u64, output: seq<byte>): Str {
    Hex(Sha(Journal(instructions, output)))
  }

  /** What re-execution says; SP1-native jobs and unloadable ones are outside its jurisdiction. */
  ghost function ReplayTruth(Sha: Hasher, job: Option<Materials>): Truth {
    if job.None? || job.value.v2 || !Elf.Acceptable(job.value.elf) then NoTruth
    else
      var m := job.value;
      match Dispute.ReplayJob(m.elf, Elf.U64(m.elf, 0x18), m.input, m.chunkSize, m.max)
      case NoImage => NoTruth
      case ReplayPanic => JudgePanic
      case Replayed(o) =>
        if o.instructions < TWO64 then
          Found(JournalDigest(Sha, o.instructions, OrEmpty(o.output)), Hex(OrEmpty(o.output)))
        else NoTruth
  }

  lemma ReplayCountFits(elf: seq<byte>, entry: u64, input: seq<byte>, chunkSize: u64, max: u64)
    requires Dispute.ReplayJob(elf, entry, input, chunkSize, max).Replayed?
    ensures Dispute.ReplayJob(elf, entry, input, chunkSize, max).o.instructions <= max
  {
    hide Dispute.ReplayJob, Run.Iterate;
    var pages := Dispute.ReplayRuns(elf, entry, input, chunkSize, max);
    var cfg := Run.Config(chunkSize, max, None, false);
    RunLaws.RunIsIterate(pages, entry, input, cfg);
    RunLaws.LoopRefinesIteration(Run.Start(pages, entry, input).value, cfg);
  }

  /** `judge_by_replay_network` up to the vindication loop. */
  method FindTruth(job: Option<Materials>, H: Hasher, Sha: Hasher) returns (t: Truth)
    requires job.Some? ==> |job.value.elf| < Elf.SLICE_MAX
    ensures t == ReplayTruth(Sha, job)
  {
    hide Elf.Acceptable, Dispute.ReplayJob, Hex, Journal;
    if job.None? || job.value.v2 {
      return NoTruth;
    }
    var m := job.value;
    var image := Elf.Parse(m.elf);
    if image.Rejected? {
      return NoTruth;
    }
    var panic, journal := Dispute.ReplayJournal(m.elf, image.image.entry, m.input, m.chunkSize, m.max, H);
    if panic {
      return JudgePanic;
    }
    if journal.None? {
      return NoTruth;
    }
    ReplayCountFits(m.elf, image.image.entry, m.input, m.chunkSize, m.max);
    var (n, output) := journal.value;
    t := Found(JournalDigest(Sha, n, output), Hex(output));
  }

  lemma {:induction false} HexInjective(a: seq<byte>, b: seq<byte>)
    requires Hex(a) == Hex(b)
    ensures a == b
  {
    hide Hex, Digit;
    forall i | 0 <= i < |a|
      ensures PairIs(Hex(b), i, a[i])
    {
      HexSpells(a, i);
    }
    HexRoundTrip(b, a);
  }

  // ---------------------------------------------------------------- the zk judge's verdict

  datatype ZkVerdict = ZkVerdict(ok: bool, binding: Option<seq<Str>>, status: Option<nat>, instructions: Option<u64>,
                                 outputHex: Option<Str>)

  /** What the zk judge contributes to a decision. */
  datatype ZkAnswer = Clean(hash: Str, outputHex: Str) | Unclean | NoAnswer

  /** Hex text, in either case, spelling exactly the given bytes. */
  ghost predicate Spells(s: Str, b: seq<byte>) {
    |s| == 2 * |b| && forall i :: 0 <= i < |b| ==> PairIs(s, i, b[i])
  }

  /** The verdict names this job: all three content ids, or the input id alone for an SP1-native job. */
  ghost predicate BoundTo(ids: seq<Str>, expected: seq<Hash>, v2: bool)
    requires |expected| == 3
  {
    if v2 then |ids| == 1 && Spells(ids[0], expected[2])
    else |ids| == 3 && forall i :: 0 <= i < 3 ==> Spells(ids[i], expected[i])
  }

  method MatchesId(s: Str, b: Hash) returns (ok: bool)
    ensures ok <==> Spells(s, b)
  {
    var bytes := FromHex(s, 32);
    ok := bytes.Bytes? && bytes.bytes == b;
    if Spells(s, b) {
      forall i | 0 <= i < |s|
        ensures Digit(s[i]).Some?
      {
        assert PairIs(s, i / 2, b[i / 2]);
      }
      assert bytes.Bytes?;
      assert forall i :: 0 <= i < 32 ==> bytes.bytes[i] == b[i];
    }
  }

  ghost predicate CompleteVerdict(v: ZkVerdict) {
    v.ok && v.binding.Some? && v.status.Some? && v.instructions.Some? && v.outputHex.Some?
    && exists o :: Spells(v.outputHex.value, o)
  }

  /** `judge_decision`: an answer exactly for complete verdicts bound to this job, and its digest is
      recomputed from the verdict's own count and output. */
  method JudgeDecision(v: ZkVerdict, expected: seq<Hash>, v2: bool, Sha: Hasher) returns (a: ZkAnswer)
    requires |expected| == 3
    ensures a != NoAnswer <==> CompleteVerdict(v) && BoundTo(v.binding.value, expected, v2)
    ensures a.Clean? ==> v.status == Some(0) && v.outputHex == Some(a.outputHex)
    ensures a.Clean? ==>
              forall o :: Spells(a.outputHex, o) ==> a.hash == JournalDigest(Sha, v.instructions.value, o)
    ensures a.Unclean? ==> v.status.value != 0
  {
    hide PairIs, Digit, Hex, Journal;
    if !v.ok || v.binding.None? {
      return NoAnswer;
    }
    var ids := v.binding.value;
    if v2 {
      if |ids| != 1 { return NoAnswer; }
      var ok := MatchesId(ids[0], expected[2]);
      if !ok { return NoAnswer; }
    } else {
      if |ids| != 3 { return NoAnswer; }
      for i := 0 to 3
        invariant forall j :: 0 <= j < i ==> Spells(ids[j], expected[j])
      {
        var ok := MatchesId(ids[i], expected[i]);
        if !ok { return NoAnswer; }
      }
    }
    if v.status.None? || v.instructions.None? || v.outputHex.None? {
      return NoAnswer;
    }
    var s := v.outputHex.value;
    var output := FromHex(s, |s| / 2);
    if !output.Bytes? {
      NotHex(s);
      return NoAnswer;
    }
    assert Spells(s, output.bytes);
    if v.status.value != 0 {
      return Unclean;
    }
    a := Clean(JournalDigest(Sha, v.instructions.value, output.bytes), s);
    forall o | Spells(s, o)
      ensures o == output.bytes
    {
      SpelledOnce(s, o, output.bytes);
    }
  }

  lemma SpelledOnce(s: Str, a: seq<byte>, b: seq<byte>)
    requires Spells(s, a) && Spells(s, b)
    ensures a == b
  {
    hide Digit;
  }

  lemma NotHex(s: Str)
    requires |s| % 2 != 0 || exists i :: 0 <= i < |s| && Digit(s[i]).None?
    ensures !exists o :: Spells(s, o)
  {
    hide Digit;
    if o :| Spells(s, o) {
      if i :| 0 <= i < |s| && Digit(s[i]).None? {
        assert PairIs(s, i / 2, o[i / 2]);
      }
    }
  }

  lemma {:induction false} SpellsIff(f: seq<byte>, b: seq<byte>)
    ensures Spells(Hex(f), b) <==> f == b
  {
    hide Hex, PairIs;
    forall i | 0 <= i < |f|
      ensures PairIs(Hex(f), i, f[i])
    {
      HexSpells(f, i);
    }
    assert Spells(Hex(f), f);
    if Spells(Hex(f), b) {
      SpelledOnce(Hex(f), f, b);
    }
  }

  /** A verdict in hex is bound to a job if and only if it names the three content ids in order, or for an SP1-native
      job its input id, the third, alone. */
  lemma {:induction false} BoundIff(p: Hash, q: Hash, r: Hash, expected: seq<Hash>)
    requires |expected| == 3
    ensures BoundTo([Hex(p), Hex(q), Hex(r)], expected, false) <==> expected == [p, q, r]
    ensures BoundTo([Hex(p)], expected, true) <==> expected[2] == p
    ensures !BoundTo([Hex(p), Hex(q), Hex(r)], expected, true) && !BoundTo([Hex(p)], expected, false)
  {
    hide Hex, Spells;
    SpellsIff(p, expected[0]);
    SpellsIff(q, expected[1]);
    SpellsIff(r, expected[2]);
    SpellsIff(p, expected[2]);
    var ids := [Hex(p), Hex(q), Hex(r)];
    assert ids[0] == Hex(p) && ids[1] == Hex(q) && ids[2] == Hex(r);
  }
}
