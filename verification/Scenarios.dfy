/** Runs from the initial state on which promised properties fail: workers counted once per authentication,
    and a receipt that burns a responder committed to its own hash. */
module Scenarios {
  import opened Words
  import opened JobFormat
  import opened Quorum
  import opened Bonds
  import opened Settlement
  import opened Protocol
  import opened ProtocolLaws

  lemma {:induction false} OneMoreAction(cfg: Config, acts: seq<Action>, a: Action)
    ensures After(cfg, acts + [a]) == Step(cfg, After(cfg, acts), a)
  {
    hide Step;
    assert (acts + [a])[..|acts|] == acts;
  }

  // ---------------------------------------------------------------- authenticating again

  function Joins(ids: seq<Str>): (acts: seq<Action>)
    ensures |acts| == |ids|
  {
    seq(|ids|, i requires 0 <= i < |ids| => Authenticate(ids[i]))
  }

  /** A dispatched, untargeted job not yet escalated: later arrivals are held back for it. */
  ghost predicate Collects(s: Sys) {
    && !s.down && s.pending.Some?
    && s.pending.value.dispatched && !s.pending.value.escalated && s.pending.value.targets.None?
  }

  /** Each authentication adds its worker to the reserves, present or not. */
  lemma {:induction false} JoinsAccumulate(cfg: Config, acts: seq<Action>, ids: seq<Str>)
    requires var s := After(cfg, acts); Collects(s) && Apart(ids, s.pending.value.dispatchedIds)
    ensures var s := After(cfg, acts);
            var job := s.pending.value;
            After(cfg, acts + Joins(ids)) == s.(pending := Some(job.(reserves := job.reserves + ids)))
    decreases |ids|
  {
    hide After;
    var job := After(cfg, acts).pending.value;
    if ids == [] {
      assert acts + Joins(ids) == acts && job.reserves + ids == job.reserves;
    } else {
      var n := |ids| - 1;
      JoinsAccumulate(cfg, acts, ids[..n]);
      assert acts + Joins(ids) == acts + Joins(ids[..n]) + [Authenticate(ids[n])];
      OneMoreAction(cfg, acts + Joins(ids[..n]), Authenticate(ids[n]));
      assert job.reserves + ids[..n] + [ids[n]] == job.reserves + ids;
    }
  }

  lemma {:induction false} WithinLast(ids: seq<Str>, id: Str, s: set<Str>)
    requires id in s
    ensures Within(ids + [id], s) == Within(ids, s) + [id]
  {
    assert (ids + [id])[..|ids|] == ids;
  }

  lemma {:induction false} WithinAppend(a: seq<Str>, b: seq<Str>, s: set<Str>)
    requires forall i :: 0 <= i < |b| ==> b[i] in s
    ensures Within(a + b, s) == Within(a, s) + b
    decreases |b|
  {
    hide Within;
    if b == [] {
      assert a + b == a;
    } else {
      var n := |b| - 1;
      WithinAppend(a, b[..n], s);
      assert a + b == a + b[..n] + [b[n]];
      WithinLast(a + b[..n], b[n], s);
      assert b == b[..n] + [b[n]];
    }
  }

  /** In any run: workers that authenticate while a job collects, however often, are dispatched by the next
      escalation once for every time they did. */
  lemma {:induction false} RejoiningCounts(cfg: Config, acts: seq<Action>, ids: seq<Str>, check: Action)
    requires var s := After(cfg, acts); Collects(s) && Apart(ids, s.pending.value.dispatchedIds)
    requires var job := After(cfg, acts).pending.value;
             AllIn(job) && Decided(job.results, |job.dispatchedIds|) == Escalate
    requires check.Check? && ids != [] && forall i :: 0 <= i < |ids| ==> ids[i] in AuthedIds(check.conns)
    ensures var s := After(cfg, acts);
            var job := s.pending.value;
            After(cfg, acts + Joins(ids) + [check]) ==
            s.(pending := Some(job.(
              escalated := true, reserves := [],
              dispatchedIds := job.dispatchedIds + (Within(job.reserves, AuthedIds(check.conns)) + ids))))
  {
    hide After, AuthedIds, Within, Decided;
    var job := After(cfg, acts).pending.value;
    JoinsAccumulate(cfg, acts, ids);
    OneMoreAction(cfg, acts + Joins(ids), check);
    WithinAppend(job.reserves, ids, AuthedIds(check.conns));
  }

  // ---------------------------------------------------------------- a unanimous pair, rejected

  /** An open coordinator: no pool size, no named or sampled first round, no identities required. */
  function Open(zk: bool): Config { Config(None, None, None, false, zk) }

  function Worker(id: Str): Conn { Conn(id, true, true, None) }

  function VoteOf(r: WorkerResult): Action { Vote(Some(Worker(r.workerId)), r, true) }

  function CheckOn(conns: seq<Conn>): Action { Check(conns, false, NoAnswer, NoTruth) }

  lemma {:induction false} Queued(cfg: Config, jobId: Str, targets: Option<seq<Str>>)
    ensures After(cfg, [Queue(jobId, targets)]) == Init().(pending := Some(NewJob(jobId, targets)))
  {
    var q := Queue(jobId, targets);
    assert [] + [q] == [q];
    OneMoreAction(cfg, [], q);
  }

  /** A job is queued and dispatched to one worker, which is gone when its message is sent. */
  function Opening(jobId: Str): seq<Action> {
    [Queue(jobId, None), Dispatch([Worker([])], [], [], [])]
  }

  lemma OpeningCollects(jobId: Str)
    ensures After(Open(false), Opening(jobId)) == Sys(0, Some(NewJob(jobId, None).(dispatched := true)), [], false)
  {
    hide After;
    var d := Dispatch([Worker([])], [], [], []);
    assert Opening(jobId) == [Queue(jobId, None)] + [d];
    Queued(Open(false), jobId, None);
    OneMoreAction(Open(false), [Queue(jobId, None)], d);
    assert AuthedWorkers([Worker([])]) == [[]] by {
      assert [Worker([])][..0] == [];
    }
    var job := NewJob(jobId, None);
    assert Within([[]], ConnectedIds([])) == [];
    assert Dispatched(Open(false), job, d) == job.(dispatched := true);
  }

  lemma NobodyYet()
    ensures Decided([], 0) == Escalate
  {
  }

  lemma BothHalted(a: WorkerResult, b: WorkerResult)
    requires a.status == b.status == HaltedStatus()
    ensures HaltedOnly([a, b]) == [a, b]
  {
    hide HaltedStatus;
    assert [a, b][..1] == [a] && [a][..0] == [];
    assert HaltedOnly([a]) == [a];
  }

  /** Two agreeing votes are no majority of a dispatched list of five. */
  lemma TwoOfFive(a: WorkerResult, b: WorkerResult)
    requires a.workerId != b.workerId && a.status == b.status == HaltedStatus() && a.resultHash == b.resultHash
    ensures Decided([a, b], 5) == Reject(NoMajority)
  {
    hide HaltedStatus, Voting, HaltedOnly, FirstVotes;
    TwoVotes(a, b);
    BothHalted(a, b);
    forall h
      ensures !Wins([a, b], 5, h)
    {
      VotingWithinHalted([a, b], h);
    }
  }

  /** After the opening one worker authenticates once and another four times; an escalation dispatches both,
      both vote, and the job is checked. */
  function PairRun(a: WorkerResult, b: WorkerResult): seq<Action> {
    var conns := [Worker(a.workerId), Worker(b.workerId)];
    Opening(a.jobId) + Joins(FiveTimes(a, b)) + [CheckOn(conns)] + [VoteOf(a)] + [VoteOf(b)] + [CheckOn(conns)]
  }

  function FiveTimes(a: WorkerResult, b: WorkerResult): seq<Str> {
    [a.workerId, b.workerId, b.workerId, b.workerId, b.workerId]
  }

  lemma PairEscalates(a: WorkerResult, b: WorkerResult)
    ensures var conns := [Worker(a.workerId), Worker(b.workerId)];
            After(Open(false), Opening(a.jobId) + Joins(FiveTimes(a, b)) + [CheckOn(conns)]) ==
            Sys(0, Some(Job(a.jobId, None, true, true, FiveTimes(a, b), [], [], None, [])), [], false)
  {
    hide After, Decided;
    assert Within([], AuthedIds([Worker(a.workerId), Worker(b.workerId)])) == [];
    assert [] + ([] + FiveTimes(a, b)) == FiveTimes(a, b);
    var conns := [Worker(a.workerId), Worker(b.workerId)];
    OpeningCollects(a.jobId);
    NobodyYet();
    assert Worker(a.workerId) in conns && Worker(b.workerId) in conns;
    RejoiningCounts(Open(false), Opening(a.jobId), FiveTimes(a, b), CheckOn(conns));
  }

  lemma {:induction false} VoteIsTaken(cfg: Config, acts: seq<Action>, r: WorkerResult)
    requires !cfg.requireIdentity && Loggable(r.resultHash)
    requires var s := After(cfg, acts); !s.down && s.pending.Some? && Counts(s.pending.value, r)
    ensures var s := After(cfg, acts);
            var job := s.pending.value;
            After(cfg, acts + [VoteOf(r)]) == s.(pending := Some(job.(results := job.results + [r])))
  {
    hide After, Counts, Loggable;
    OneMoreAction(cfg, acts, VoteOf(r));
  }

  lemma {:induction false} PairVotes(a: WorkerResult, b: WorkerResult, acts: seq<Action>)
    requires a.workerId != b.workerId && a.jobId == b.jobId && Loggable(a.resultHash) && a.resultHash == b.resultHash
    requires acts == Opening(a.jobId) + Joins(FiveTimes(a, b)) + [CheckOn([Worker(a.workerId), Worker(b.workerId)])]
    ensures After(Open(false), acts + [VoteOf(a)] + [VoteOf(b)]) ==
            Sys(0, Some(Job(a.jobId, None, true, true, FiveTimes(a, b), [], [a, b], None, [])), [], false)
  {
    hide After, Loggable, Step, Opening, Joins, CheckOn, VoteOf;
    assert a.workerId in FiveTimes(a, b) && b.workerId in FiveTimes(a, b);
    assert Ids([a]) == [a.workerId];
    assert [] + [a] == [a] && [a] + [b] == [a, b];
    PairEscalates(a, b);
    VoteIsTaken(Open(false), acts, a);
    VoteIsTaken(Open(false), acts + [VoteOf(a)], b);
  }

  lemma PairIsDue(job: Job, a: WorkerResult, b: WorkerResult, conns: seq<Conn>)
    requires job == Job(a.jobId, None, true, true, FiveTimes(a, b), [], [a, b], None, [])
    requires Decided([a, b], 5) == Reject(NoMajority)
    ensures Step(Open(false), Sys(0, Some(job), [], false), CheckOn(conns)) ==
            Sys(1, None, [Finished(Some(0), job, Reject(NoMajority), ByQuorum)], false)
  {
    hide Decided;
    assert Ids([a, b]) == [a.workerId, b.workerId];
  }

  /** Two workers that halted with one hash and one chain are the only ones dispatched, both vote, and the job
      is rejected: one of them counts four times among five. */
  lemma UnanimousPairRejected(a: WorkerResult, b: WorkerResult)
    requires a.workerId != b.workerId && a.jobId == b.jobId && a.status == b.status == HaltedStatus()
    requires a.resultHash == b.resultHash && a.chunkHashes == b.chunkHashes && Loggable(a.resultHash)
    ensures var job := Job(a.jobId, None, true, true, FiveTimes(a, b), [], [a, b], None, []);
            && After(Open(false), PairRun(a, b)) ==
               Sys(1, None, [Finished(Some(0), job, Reject(NoMajority), ByQuorum)], false)
            && |Members(job.dispatchedIds)| == 2
  {
    hide After, Decided, Loggable, HaltedStatus, Opening, Joins, CheckOn, VoteOf;
    var conns := [Worker(a.workerId), Worker(b.workerId)];
    var acts := Opening(a.jobId) + Joins(FiveTimes(a, b)) + [CheckOn(conns)];
    assert Members(FiveTimes(a, b)) == {a.workerId, b.workerId};
    PairVotes(a, b, acts);
    TwoOfFive(a, b);
    PairIsDue(Job(a.jobId, None, true, true, FiveTimes(a, b), [], [a, b], None, []), a, b, conns);
    OneMoreAction(Open(false), acts + [VoteOf(a)] + [VoteOf(b)], CheckOn(conns));
  }

  // ---------------------------------------------------------------- a burned honest responder

  /** Two workers are dispatched, one votes, the other claims with a verified receipt, and the job is checked. */
  function ReceiptRun(claimant: Str, r: WorkerResult, hash: Str, output: Str): seq<Action> {
    var conns := [Worker(claimant), Worker(r.workerId)];
    [Queue(r.jobId, None)] + [Dispatch(conns, conns, conns, [])] + [VoteOf(r)]
    + [Claim(Some(Worker(claimant)), claimant, r.jobId, [], true, Verified(hash, output))] + [CheckOn(conns)]
  }

  lemma BothAuthed(a: Str, b: Str)
    ensures AuthedWorkers([Worker(a), Worker(b)]) == [a, b]
  {
    var conns := [Worker(a), Worker(b)];
    assert conns[..1] == [Worker(a)] && [Worker(a)][..0] == [];
    assert AuthedWorkers([Worker(a)]) == [a];
  }

  lemma NoneHeldBack(a: Str, b: Str)
    ensures Without([a, b], Members([a, b])) == []
  {
    var s := Members([a, b]);
    assert a in [a, b] && b in [a, b];
    assert [a, b][..1] == [a] && [a][..0] == [];
    assert Without([a], s) == [];
  }

  lemma BothDispatched(a: Str, b: Str, jobId: Str)
    ensures var conns := [Worker(a), Worker(b)];
            var job := NewJob(jobId, None);
            Dispatched(Open(true), job, Dispatch(conns, conns, conns, [])) ==
            job.(dispatched := true, dispatchedIds := [a, b])
  {
    hide AuthedWorkers, Within, Without, Members;
    var conns := [Worker(a), Worker(b)];
    BothAuthed(a, b);
    NoneHeldBack(a, b);
    assert Worker(a) in conns && Worker(b) in conns;
    AllWithin([a, b], ConnectedIds(conns));
    assert Members([a, b]) + {} == Members([a, b]);
    assert [] + [a, b] == [a, b];
  }

  lemma {:induction false} AllWithin(ids: seq<Str>, s: set<Str>)
    requires forall i :: 0 <= i < |ids| ==> ids[i] in s
    ensures Within(ids, s) == ids
  {
    WithinAppend([], ids, s);
    assert [] + ids == ids;
  }

  lemma ReceiptDispatch(claimant: Str, r: WorkerResult)
    ensures var conns := [Worker(claimant), Worker(r.workerId)];
            After(Open(true), [Queue(r.jobId, None)] + [Dispatch(conns, conns, conns, [])]) ==
            Sys(0, Some(Job(r.jobId, None, true, false, [claimant, r.workerId], [], [], None, [])), [], false)
  {
    hide After, Dispatched;
    var conns := [Worker(claimant), Worker(r.workerId)];
    var d := Dispatch(conns, conns, conns, []);
    Queued(Open(true), r.jobId, None);
    BothDispatched(claimant, r.workerId, r.jobId);
    OneMoreAction(Open(true), [Queue(r.jobId, None)], d);
  }

  lemma ReceiptVote(claimant: Str, r: WorkerResult)
    requires claimant != r.workerId && Loggable(r.resultHash)
    ensures var conns := [Worker(claimant), Worker(r.workerId)];
            After(Open(true), [Queue(r.jobId, None)] + [Dispatch(conns, conns, conns, [])] + [VoteOf(r)]) ==
            Sys(0, Some(Job(r.jobId, None, true, false, [claimant, r.workerId], [], [r], None, [])), [], false)
  {
    hide After, Loggable, VoteOf, Step;
    var conns := [Worker(claimant), Worker(r.workerId)];
    ReceiptDispatch(claimant, r);
    assert r.workerId in [claimant, r.workerId] && [] + [r] == [r];
    VoteIsTaken(Open(true), [Queue(r.jobId, None)] + [Dispatch(conns, conns, conns, [])], r);
  }

  /** The responder committed exactly the hash the receipt proves, and is burned by it. */
  lemma ReceiptBurnsItsOwnHash(claimant: Str, r: WorkerResult, hash: Str, output: Str)
    requires claimant != r.workerId && Commits(r, hash) && Loggable(r.resultHash)
    ensures var job := Job(r.jobId, None, true, false, [claimant, r.workerId], [], [r],
                           Some(Accept(hash, Some(output), [claimant], true)), [claimant]);
            var f := Finished(Some(0), job, Accept(hash, Some(output), [claimant], true), ByReceipt);
            && After(Open(true), ReceiptRun(claimant, r, hash, output)) == Sys(1, None, [f], false)
            && Moved(EntryOf(f).deltas, r.workerId) == BURN
  {
    hide After, Decided, Loggable, VoteOf, EntryOf, Moved;
    var conns := [Worker(claimant), Worker(r.workerId)];
    var acts := [Queue(r.jobId, None)] + [Dispatch(conns, conns, conns, [])] + [VoteOf(r)];
    var c := Claim(Some(Worker(claimant)), claimant, r.jobId, [], true, Verified(hash, output));
    ReceiptVote(claimant, r);
    OneMoreAction(Open(true), acts, c);
    assert claimant in [claimant, r.workerId] && [] + [claimant] == [claimant];
    OneMoreAction(Open(true), acts + [c], CheckOn(conns));
    ReceiptPaysItsClaimant(Open(true), ReceiptRun(claimant, r, hash, output), 0, 0);
  }
}
