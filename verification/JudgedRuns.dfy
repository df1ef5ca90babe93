/** Runs of the protocol whose replay judge is the replay itself: who is paid, and when it brings the process
    down. */
module JudgedRuns {
  import opened Words
  import opened JobFormat
  import opened Hashing
  import opened Quorum
  import opened Bonds
  import opened Settlement
  import opened Protocol
  import opened ProtocolLaws
  import Dispute
  import Elf

  /** The check asks the replay judge: the job is due, no reserve is owed a round, and receipt, quorum and zk
      judge leave it undecided. */
  ghost predicate AsksReplay(job: Job, a: Action)
    requires a.Check?
  {
    && job.dispatched && (AllIn(job) || a.expired) && !(AllIn(job) && Escalatable(job))
    && job.zkAccept.None? && Decided(job.results, |job.dispatchedIds|) == Escalate && a.zk == NoAnswer
  }

  /** Every completion check that asks the replay judge carries the truth that re-executing the blobs of the
      pending job yields; `jobs` gives the blobs of watched jobs by serial number. */
  ghost predicate Replaying(cfg: Config, acts: seq<Action>, Sha: Hasher, jobs: nat -> Option<Materials>) {
    forall i :: 0 <= i < |acts| && acts[i].Check? ==> CarriesTruth(At(cfg, acts, i), acts[i], Sha, jobs)
  }

  ghost predicate CarriesTruth(s: Sys, a: Action, Sha: Hasher, jobs: nat -> Option<Materials>)
    requires a.Check?
  {
    s.pending.Some? && AsksReplay(s.pending.value, a) ==> a.truth == ReplayTruth(Sha, jobs(s.serial))
  }

  /** A job the replay judge decides in a step was decided by the truth its check carried. */
  lemma StepByReplay(cfg: Config, s: Sys, a: Action)
    requires |Step(cfg, s, a).finished| > |s.finished| && Step(cfg, s, a).finished[|s.finished|].via == ByReplay
    ensures var f := Step(cfg, s, a).finished[|s.finished|];
            && a.Check? && s.pending == Some(f.job) && f.serial == Some(s.serial) && AsksReplay(f.job, a)
            && f.decision.Accept? && f.decision.outputHex.Some?
            && a.truth == Found(f.decision.hash, f.decision.outputHex.value)
  {
    hide AllIn, Escalatable, Committed, ZkDecision, ProofDecision;
  }

  lemma {:induction false} PrefixReplays(cfg: Config, acts: seq<Action>, Sha: Hasher, jobs: nat -> Option<Materials>)
    requires |acts| > 0 && Replaying(cfg, acts, Sha, jobs)
    ensures Replaying(cfg, acts[..|acts| - 1], Sha, jobs)
    ensures acts[|acts| - 1].Check? ==>
              CarriesTruth(After(cfg, acts[..|acts| - 1]), acts[|acts| - 1], Sha, jobs)
  {
    hide CarriesTruth, After;
    var front := acts[..|acts| - 1];
    forall i | 0 <= i < |front|
      ensures front[..i] == acts[..i] && front[i] == acts[i]
    {
    }
    assert At(cfg, acts, |acts| - 1) == After(cfg, front);
  }

  /** In such a run every job the replay judge decided is accepted with the digest and output of its own
      re-execution. */
  lemma {:induction false} JudgedByItsReplay(cfg: Config, acts: seq<Action>, Sha: Hasher,
                                             jobs: nat -> Option<Materials>, k: nat)
    requires Replaying(cfg, acts, Sha, jobs)
    requires k < |After(cfg, acts).finished| && After(cfg, acts).finished[k].via == ByReplay
    ensures var f := After(cfg, acts).finished[k];
            && f.serial.Some? && f.decision.Accept? && f.decision.outputHex.Some?
            && ReplayTruth(Sha, jobs(f.serial.value)) == Found(f.decision.hash, f.decision.outputHex.value)
  {
    hide Step, ReplayTruth, Replaying, AsksReplay;
    var front, a := acts[..|acts| - 1], acts[|acts| - 1];
    var s := After(cfg, front);
    PrefixReplays(cfg, acts, Sha, jobs);
    StepAddsOne(cfg, s, a);
    if k < |s.finished| {
      JudgedByItsReplay(cfg, front, Sha, jobs, k);
    } else {
      StepByReplay(cfg, s, a);
    }
  }

  /** What re-executing a job says, when it says anything. */
  lemma TruthIsReplayed(Sha: Hasher, job: Option<Materials>) returns (n: u64, o: seq<byte>)
    requires ReplayTruth(Sha, job).Found?
    ensures job.Some? && !job.value.v2 && Elf.Acceptable(job.value.elf)
    ensures var m := job.value;
            var r := Dispute.ReplayJob(m.elf, Elf.U64(m.elf, 0x18), m.input, m.chunkSize, m.max);
            r.Replayed? && n == r.o.instructions && o == OrEmpty(r.o.output)
    ensures ReplayTruth(Sha, job) == Found(JournalDigest(Sha, n, o), Hex(o))
  {
    hide Dispute.ReplayJob, Hex, Journal;
    var m := job.value;
    var r := Dispute.ReplayJob(m.elf, Elf.U64(m.elf, 0x18), m.input, m.chunkSize, m.max);
    n, o := r.o.instructions, OrEmpty(r.o.output);
  }

  /** In every run whose checks carry the replay, a responder of a replay-judged job that committed the digest
      of some journal is paid if and only if that journal is the count and output of the re-execution, or the
      two journals collide; and it is burned otherwise. */
  lemma ReplayPaysTheTruth(cfg: Config, acts: seq<Action>, Sha: Hasher, jobs: nat -> Option<Materials>,
                           k: nat, i: nat, n': u64, o': seq<byte>) returns (n: u64, o: seq<byte>)
    requires Replaying(cfg, acts, Sha, jobs)
    requires k < |After(cfg, acts).finished| && After(cfg, acts).finished[k].via == ByReplay
    requires var f := After(cfg, acts).finished[k];
             i < |f.job.results| && f.job.results[i].chunkHashes == [JournalDigest(Sha, n', o')]
    ensures var f := After(cfg, acts).finished[k];
            && f.serial.Some? && jobs(f.serial.value).Some? && Elf.Acceptable(jobs(f.serial.value).value.elf)
            && var m := jobs(f.serial.value).value;
               var r := Dispute.ReplayJob(m.elf, Elf.U64(m.elf, 0x18), m.input, m.chunkSize, m.max);
               && r.Replayed? && n == r.o.instructions && o == OrEmpty(r.o.output)
               && Moved(EntryOf(f).deltas, f.job.results[i].workerId) ==
                  if (n' == n && o' == o) || Collides(Sha, Journal(n, o), Journal(n', o')) then REWARD else BURN
  {
    hide Dispute.ReplayJob, Elf.Acceptable, Hex, Journal, ReplayTruth, Replaying, After, Slashing, Moved;
    JudgedByItsReplay(cfg, acts, Sha, jobs, k);
    var f := After(cfg, acts).finished[k];
    n, o := TruthIsReplayed(Sha, jobs(f.serial.value));
    JudgedJobsPayCommitments(cfg, acts, k, i);
    DigestsAgreeIff(Sha, n, o, n', o');
    assert [JournalDigest(Sha, n', o')] == [f.decision.hash] <==> JournalDigest(Sha, n', o') == f.decision.hash by {
      assert [JournalDigest(Sha, n', o')][0] == JournalDigest(Sha, n', o') && [f.decision.hash][0] == f.decision.hash;
    }
  }

  /** Two journals have the same digest exactly if they are the same run or collide. */
  lemma DigestsAgreeIff(Sha: Hasher, n: u64, o: seq<byte>, n': u64, o': seq<byte>)
    ensures JournalDigest(Sha, n', o') == JournalDigest(Sha, n, o) <==>
            (n' == n && o' == o) || Collides(Sha, Journal(n, o), Journal(n', o'))
  {
    hide Hex, Journal;
    JournalBinds(n, o, n', o');
    if JournalDigest(Sha, n', o') == JournalDigest(Sha, n, o) {
      HexInjective(Sha(Journal(n', o')), Sha(Journal(n, o)));
    }
  }

  // ---------------------------------------------------------------- the judge's own failures

  /** Re-executing the job panics the host. */
  ghost predicate ReplayPanics(job: Option<Materials>) {
    && job.Some? && !job.value.v2 && Elf.Acceptable(job.value.elf)
    && var m := job.value; Dispute.ReplayJob(m.elf, Elf.U64(m.elf, 0x18), m.input, m.chunkSize, m.max).ReplayPanic?
  }

  /** A completion check that carries the replay takes the process down if and only if it asks the replay
      judge and the re-execution panics. */
  lemma CheckPanicsIff(cfg: Config, s: Sys, a: Action, Sha: Hasher, jobs: nat -> Option<Materials>)
    requires a.Check? && !s.down && CarriesTruth(s, a, Sha, jobs)
    ensures Step(cfg, s, a).down <==>
            s.pending.Some? && AsksReplay(s.pending.value, a) && ReplayPanics(jobs(s.serial))
  {
    hide AsksReplay, Step, Elf.Acceptable, Dispute.ReplayJob, JournalDigest, Hex;
    GoesDownIff(cfg, s, a);
  }

  /** The only two ways down: an admitted vote whose hash cannot be logged, and a panic of the replay judge. */
  lemma GoesDownIff(cfg: Config, s: Sys, a: Action)
    requires !s.down
    ensures Step(cfg, s, a).down <==>
            && s.pending.Some?
            && (|| (a.Vote? && Admitted(cfg, a) && Counts(s.pending.value, a.result) && !Loggable(a.result.resultHash))
                || (a.Check? && AsksReplay(s.pending.value, a) && a.truth == JudgePanic))
  {
    hide AllIn, Escalatable, Committed, ZkDecision, Admitted, Counts, Loggable, ClaimAdmitted, ProofDecision, Claimed,
      LateJoin, Dispatched;
  }

  // ---------------------------------------------------------------- who is never judged

  /** The judges hear only jobs dispatched to fewer than five: in a larger pool an undecided quorum is a
      rejection. */
  lemma OnlySmallPoolsAreJudged(job: Job, a: Action)
    requires a.Check? && AsksReplay(job, a)
    ensures |job.dispatchedIds| < 5
  {
    hide AllIn, Escalatable, Voting, HaltedOnly, FirstVotes, OneChain, Ids;
  }

  /** One worker answered, at least one dispatched worker did not, and the window has expired: the replay
      judge arbitrates if and only if fewer than five were dispatched. Otherwise the job is rejected and
      nobody's balance moves, whatever the lone worker computed. */
  lemma LoneWorkerJudgedIff(job: Job, r: WorkerResult, a: Action)
    requires job.dispatched && job.zkAccept.None? && job.results == [r] && r.workerId in job.dispatchedIds
    requires a.Check? && a.expired && a.zk == NoAnswer && !AllIn(job)
    ensures AsksReplay(job, a) <==> |job.dispatchedIds| < 5
    ensures |job.dispatchedIds| >= 5 ==>
              && Final(job, a.zk, a.truth) == Some((Reject(NoMajority), ByQuorum))
              && forall id :: Moved(Slashing(Reject(NoMajority), job.results), id) == 0
  {
    hide Decided, Slashing, Moved;
    assert Ids([r]) == [r.workerId];
    TwoMembers(job.dispatchedIds, r.workerId);
    LoneVote(r, |job.dispatchedIds|);
    forall id
      ensures Moved(Slashing(Reject(NoMajority), job.results), id) == 0
    {
      RejectionMovesNothing(Reject(NoMajority), job.results, id);
    }
  }

  lemma LoneVote(r: WorkerResult, dispatched: nat)
    requires dispatched >= 2
    ensures Decided([r], dispatched) == if dispatched >= 5 then Reject(NoMajority) else Escalate
  {
    hide HashTally, UnhaltedTally, Decides, Disputed, Decided, FirstVotes, Ids;
    OneId(r);
    DistinctAreFirst([r]);
    DecisionIff([r], dispatched, Decided([r], dispatched));
    LoneTally(r, []);
    forall h
      ensures !HashWins([r], dispatched, h)
    {
      LoneTally(r, h);
    }
  }

  lemma OneId(r: WorkerResult)
    ensures Distinct(Ids([r]))
  {
  }

  lemma {:induction false} LoneTally(r: WorkerResult, h: Str)
    ensures HashTally([r], h) <= 1 && UnhaltedTally([r]) <= 1
  {
    assert [r][1..] == [];
  }

  lemma TwoMembers(ids: seq<Str>, id: Str)
    requires id in ids && exists other :: other in ids && other != id
    ensures |ids| >= 2
  {
    var other :| other in ids && other != id;
    var i :| 0 <= i < |ids| && ids[i] == id;
    var j :| 0 <= j < |ids| && ids[j] == other;
  }
}
