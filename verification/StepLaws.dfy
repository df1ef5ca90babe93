/** What each action of the job protocol does, in terms of connections, votes and answers, and where every outcome of
    a run comes from. */
module StepLaws {
  import opened Words
  import opened JobFormat
  import opened Quorum
  import opened Bonds
  import opened Settlement
  import opened Protocol
  import opened ProtocolLaws

  // ---------------------------------------------------------------- who is there

  ghost predicate IsWorker(conns: seq<Conn>, id: Str) {
    exists c :: c in conns && c.workerId == id && c.authed && c.worker
  }

  ghost predicate IsAuthed(conns: seq<Conn>, id: Str) {
    exists c :: c in conns && c.workerId == id && c.authed
  }

  ghost predicate IsConnected(conns: seq<Conn>, id: Str) {
    exists c :: c in conns && c.workerId == id
  }

  /** Authenticated worker connections, counted one by one. */
  function WorkerCount(conns: seq<Conn>): nat {
    if conns == [] then 0 else (if conns[0].authed && conns[0].worker then 1 else 0) + WorkerCount(conns[1..])
  }

  lemma {:induction false} AuthedIff(conns: seq<Conn>, id: Str)
    ensures id in AuthedWorkers(conns) <==> IsWorker(conns, id)
  {
    if conns != [] {
      var n := |conns| - 1;
      AuthedIff(conns[..n], id);
      assert conns == conns[..n] + [conns[n]];
    }
  }

  lemma {:induction false} WorkerCountAppend(conns: seq<Conn>, c: Conn)
    ensures WorkerCount(conns + [c]) == WorkerCount(conns) + if c.authed && c.worker then 1 else 0
  {
    if conns == [] {
      assert conns + [c] == [c] && [c][1..] == [];
    } else {
      assert (conns + [c])[1..] == conns[1..] + [c];
      WorkerCountAppend(conns[1..], c);
    }
  }

  lemma {:induction false} AuthedCount(conns: seq<Conn>)
    ensures |AuthedWorkers(conns)| == WorkerCount(conns)
  {
    if conns != [] {
      var n := |conns| - 1;
      AuthedCount(conns[..n]);
      assert conns == conns[..n] + [conns[n]];
      WorkerCountAppend(conns[..n], conns[n]);
    }
  }

  /** A candidate: an authenticated worker among the targets, if there are any. */
  ghost predicate Eligible(job: Job, conns: seq<Conn>, id: Str) {
    IsWorker(conns, id) && (job.targets.Some? ==> id in job.targets.value)
  }

  lemma CandidateIff(job: Job, conns: seq<Conn>, id: Str)
    ensures id in Candidates(job, conns) <==> Eligible(job, conns, id)
  {
    hide AuthedWorkers, Within, IsWorker;
    AuthedIff(conns, id);
    if job.targets.Some? {
      WithinIff(AuthedWorkers(conns), Members(job.targets.value), id);
    }
  }

  // ---------------------------------------------------------------- dispatch

  /** A fresh job goes out exactly when every named member (target, or else configured round-1 worker) has an
      authenticated connection and the authenticated workers fill the configured pool, one worker being enough when
      there are neither names nor a pool size. */
  lemma DispatchIff(cfg: Config, job: Job, a: Action)
    requires a.Dispatch? && !job.dispatched
    ensures var named := if job.targets.Some? then job.targets else cfg.round1Ids;
            Dispatched(cfg, job, a).dispatched <==>
              && (named.Some? ==> forall id :: id in named.value ==> IsAuthed(a.first, id))
              && (cfg.pool.Some? ==> WorkerCount(a.first) >= cfg.pool.value)
              && (named.None? && cfg.pool.None? ==> WorkerCount(a.first) >= 1)
  {
    hide AuthedWorkers, Selected, Candidates, HeldBack, Within, WorkerCount;
    AuthedCount(a.first);
    forall id
      ensures id in AuthedIds(a.first) <==> IsAuthed(a.first, id)
    {
    }
  }

  lemma {:induction false} WithinAll(ids: seq<Str>, s: set<Str>)
    requires forall i :: 0 <= i < |ids| ==> ids[i] in s
    ensures Within(ids, s) == ids
  {
    if ids != [] {
      var n := |ids| - 1;
      WithinAll(ids[..n], s);
      assert ids == ids[..n] + [ids[n]];
    }
  }

  lemma ConnectedIff(conns: seq<Conn>, id: Str)
    ensures id in ConnectedIds(conns) <==> IsConnected(conns, id)
  {
  }

  /** The state of a fresh job that is ready to go. */
  ghost predicate Departs(cfg: Config, job: Job, a: Action) {
    a.Dispatch? && job == NewJob(job.jobId, job.targets) && Dispatched(cfg, job, a).dispatched
  }

  /** More candidates than the sample size and no round-1 names in force: exactly the first n of the shuffled
      candidates go out, if all of them are still connected. */
  lemma SampleIsDispatched(cfg: Config, job: Job, a: Action, n: nat)
    requires Departs(cfg, job, a)
    requires multiset(a.shuffled) == multiset(Candidates(job, a.first))
    requires cfg.round1Size == Some(n) && |Candidates(job, a.first)| > n && (cfg.round1Ids.None? || job.targets.Some?)
    requires forall i :: 0 <= i < n && i < |a.shuffled| ==> IsConnected(a.third, a.shuffled[i])
    ensures |a.shuffled| > n && Dispatched(cfg, job, a).dispatchedIds == a.shuffled[..n]
    ensures |Dispatched(cfg, job, a).dispatchedIds| == n
  {
    hide AuthedWorkers, Candidates, HeldBack, Within, Ready, IsConnected, ConnectedIds;
    SameSize(a.shuffled, Candidates(job, a.first));
    var sample := a.shuffled[..n];
    forall i | 0 <= i < n
      ensures sample[i] in ConnectedIds(a.third)
    {
      ConnectedIff(a.third, a.shuffled[i]);
    }
    WithinAll(sample, ConnectedIds(a.third));
    assert [] + sample == sample;
  }

  /** With round-1 names in force every connected named candidate goes out and nobody else; with neither names nor a
      sample every connected candidate does. */
  lemma UnsampledDispatchIff(cfg: Config, job: Job, a: Action, id: Str)
    requires Departs(cfg, job, a)
    requires var names := cfg.round1Ids.Some? && job.targets.None?;
             names || cfg.round1Size.None? || |Candidates(job, a.first)| <= cfg.round1Size.value
    ensures id in Dispatched(cfg, job, a).dispatchedIds <==>
              && Eligible(job, a.first, id) && IsConnected(a.third, id)
              && (cfg.round1Ids.Some? && job.targets.None? ==> id in cfg.round1Ids.value)
  {
    hide AuthedWorkers, Candidates, HeldBack, Within, Ready, IsConnected, ConnectedIds, Eligible;
    var candidates := Candidates(job, a.first);
    var selected := Selected(cfg, job, candidates, a.shuffled);
    CandidateIff(job, a.first, id);
    ConnectedIff(a.third, id);
    WithinIff(selected, ConnectedIds(a.third), id);
    if cfg.round1Ids.Some? {
      WithinIff(cfg.round1Ids.value, Members(candidates), id);
    }
    assert [] + Within(selected, ConnectedIds(a.third)) == Within(selected, ConnectedIds(a.third));
  }

  /** Nobody is lost: a worker the job was not targeted at that is there throughout is dispatched or held back. */
  lemma DispatchLosesNobody(cfg: Config, job: Job, a: Action, id: Str)
    requires Departs(cfg, job, a)
    requires IsWorker(a.first, id) && IsWorker(a.second, id) && IsConnected(a.third, id)
    requires job.targets.Some? ==> id !in job.targets.value
    ensures var job' := Dispatched(cfg, job, a); id in job'.dispatchedIds || id in job'.reserves
  {
    hide AuthedWorkers, Candidates, Within, Without, Ready, IsConnected, ConnectedIds, IsWorker, Selected;
    var selected := Selected(cfg, job, Candidates(job, a.first), a.shuffled);
    ConnectedIff(a.third, id);
    WithinIff(selected, ConnectedIds(a.third), id);
    AuthedIff(a.second, id);
    var exclude := Members(selected) + if job.targets.Some? then Members(job.targets.value) else {};
    WithinIff(AuthedWorkers(a.second), exclude, id);
    assert [] + Within(selected, ConnectedIds(a.third)) == Within(selected, ConnectedIds(a.third));
  }

  // ---------------------------------------------------------------- votes, claims and arrivals

  /** What the identity gate and the dispatch gate let through: a signed result of this job, sent over an
      authenticated connection under the connection's own id, the keys agreeing where both are known and a key being
      known where identities are required, from a dispatched worker that has not voted. */
  ghost predicate Takes(cfg: Config, job: Job, a: Action)
    requires a.Vote?
  {
    var r := a.result;
    && a.conn.Some? && a.conn.value.authed && a.conn.value.workerId == r.workerId && a.signed
    && (cfg.requireIdentity ==> a.conn.value.pubkey.Some?)
    && (a.conn.value.pubkey.Some? && r.pubkeyHex.Some? ==> a.conn.value.pubkey.value == r.pubkeyHex.value)
    && r.jobId == job.jobId && r.workerId in job.dispatchedIds && !HasVoted(job, r.workerId)
  }

  /** The first twelve bytes of the hash can be cut off as text. */
  predicate Cuttable(hash: Str) {
    |hash| >= 12 && (|hash| > 12 ==> hash[12] < 0x80 || hash[12] >= 0xc0)
  }

  /** A vote is recorded if and only if it passes, the process going down when its hash cannot be logged; any other
      changes nothing. */
  lemma VoteIff(cfg: Config, s: Sys, a: Action)
    requires a.Vote? && !s.down && s.pending.Some?
    ensures var job := s.pending.value;
            Step(cfg, s, a) ==
            if !Takes(cfg, job, a) then s
            else if !Cuttable(a.result.resultHash) then s.(down := true)
            else s.(pending := Some(job.(results := job.results + [a.result])))
  {
    VotedIff(s.pending.value, a.result.workerId);
    hide Ids, HasVoted;
  }

  /** A receipt claim: signed, over an authenticated connection under its own id and, where known, its own key, with
      receipts enabled, for the pending job, from a dispatched worker that has not claimed, before any receipt
      was verified. */
  ghost predicate Counted(cfg: Config, job: Job, a: Action)
    requires a.Claim?
  {
    && a.conn.Some? && a.conn.value.authed && a.conn.value.workerId == a.workerId && a.signed && cfg.zk
    && (a.conn.value.pubkey.Some? ==> a.conn.value.pubkey.value == a.pubkeyHex)
    && a.jobId == job.jobId && a.workerId in job.dispatchedIds && a.workerId !in job.claimed && job.zkAccept.None?
  }

  /** A counted claim uses up the worker's one attempt, and decides the job if its receipt verified; any other
      changes nothing. */
  lemma ClaimIff(cfg: Config, s: Sys, a: Action)
    requires a.Claim? && !s.down && s.pending.Some?
    ensures var job := s.pending.value;
            var proof := if a.receipt.Verified?
                         then Some(Accept(a.receipt.hash, Some(a.receipt.outputHex), [a.workerId], true)) else None;
            Step(cfg, s, a) ==
            if Counted(cfg, job, a) then
              s.(pending := Some(job.(claimed := job.claimed + [a.workerId], zkAccept := proof)))
            else s
  {
  }

  /** A worker that authenticates is held back for the pending job if and only if that job was dispatched, to others,
      without targets, and has not escalated. */
  lemma JoinIff(cfg: Config, s: Sys, id: Str)
    requires !s.down && s.pending.Some?
    ensures var job := s.pending.value;
            Step(cfg, s, Authenticate(id)) ==
            if job.dispatched && !job.escalated && job.targets.None? && id !in job.dispatchedIds
            then s.(pending := Some(job.(reserves := job.reserves + [id])))
            else s
  {
  }

  // ---------------------------------------------------------------- completion

  /** Every dispatched worker has voted, or a receipt was verified. */
  ghost predicate Answered(job: Job) {
    job.zkAccept.Some? || forall id :: id in job.dispatchedIds ==> HasVoted(job, id)
  }

  lemma AnsweredIff(job: Job)
    ensures AllIn(job) <==> Answered(job)
  {
    hide Ids, HasVoted;
    forall id
      ensures HasVoted(job, id) <==> id in Ids(job.results)
    {
      VotedIff(job, id);
    }
  }

  /** Reserves are owed a round: everybody has answered and the quorum is undecided. */
  ghost predicate Owes(job: Job) {
    Answered(job) && job.reserves != [] && Decided(job.results, |job.dispatchedIds|) == Escalate
  }

  /** A check ends the job (or takes the process down) if and only if it was dispatched, owes no round, and is
      answered or out of time. */
  lemma FinishesIff(cfg: Config, s: Sys, a: Action)
    requires a.Check? && !s.down && s.pending.Some?
    ensures var (job, s') := (s.pending.value, Step(cfg, s, a));
            && (s'.down || s'.serial == s.serial + 1 <==>
                  job.dispatched && !Owes(job) && (Answered(job) || a.expired))
            && (s'.down || s'.serial == s.serial + 1 || (job.dispatched && Owes(job)) || s' == s)
  {
    hide Final, Decided, Answered, AllIn, Escalated;
    AnsweredIff(s.pending.value);
  }

  /** A check that owes a round escalates: exactly the reserves still authenticated are dispatched too, none stays
      behind, and votes, claims and receipt are kept. */
  lemma EscalationIff(cfg: Config, s: Sys, a: Action, id: Str)
    requires a.Check? && !s.down && s.pending.Some? && s.pending.value.dispatched && Owes(s.pending.value)
    ensures var (job, s') := (s.pending.value, Step(cfg, s, a));
            && s'.pending.Some?
            && var job' := s'.pending.value;
               && s' == s.(pending := Some(job'))
               && job' == job.(escalated := true, reserves := [], dispatchedIds := job'.dispatchedIds)
               && job.dispatchedIds <= job'.dispatchedIds
               && (id in job'.dispatchedIds <==>
                     id in job.dispatchedIds || (id in job.reserves && IsAuthed(a.conns, id)))
  {
    hide Final, Decided, Answered, AllIn, Within;
    var job := s.pending.value;
    AnsweredIff(job);
    WithinIff(job.reserves, AuthedIds(a.conns), id);
  }

  // ---------------------------------------------------------------- where outcomes come from

  /** The vote r was sent as. */
  ghost predicate SentAs(cfg: Config, a: Action, r: WorkerResult) {
    && a.Vote? && a.result == r && a.signed
    && a.conn.Some? && a.conn.value.authed && a.conn.value.workerId == r.workerId
    && (cfg.requireIdentity ==> a.conn.value.pubkey.Some?)
    && (a.conn.value.pubkey.Some? && r.pubkeyHex.Some? ==> a.conn.value.pubkey.value == r.pubkeyHex.value)
  }

  /** The claim whose receipt decided a job. */
  ghost predicate ProvedBy(cfg: Config, a: Action, jobId: Str, d: Decision) {
    && cfg.zk && a.Claim? && a.signed && a.jobId == jobId && a.receipt.Verified?
    && d == Accept(a.receipt.hash, Some(a.receipt.outputHex), [a.workerId], true)
  }

  /** The verdict of the zk judge or prover, carried over. */
  ghost predicate Carries(d: Decision, answer: ZkAnswer) {
    match answer
    case Clean(hash, output) => d.Accept? && d.hash == hash && d.outputHex == Some(output) && d.zk
    case Unclean => d == Reject(NotClean)
    case NoAnswer => false
  }

  /** The action an outcome rests on. */
  ghost predicate RestsOn(cfg: Config, a: Action, f: Finished) {
    match f.via
    case ByReceipt => ProvedBy(cfg, a, f.job.jobId, f.decision)
    case ByQuorum => a.Check?
    case ByZkJudge => a.Check? && Carries(f.decision, a.zk)
    case ByReplay =>
      a.Check? && f.decision.Accept? && f.decision.outputHex.Some?
      && a.truth == Found(f.decision.hash, f.decision.outputHex.value)
    case ByNobody => a.Check? && a.zk == NoAnswer && a.truth == NoTruth
    case ByProver =>
      a.Prove? && a.jobId == f.job.jobId
      && if a.answer == NoAnswer then f.decision == Reject(ProvingFailed) else Carries(f.decision, a.answer)
  }

  ghost predicate SomeVote(cfg: Config, acts: seq<Action>, r: WorkerResult) {
    exists i :: 0 <= i < |acts| && SentAs(cfg, acts[i], r)
  }

  ghost predicate SomeClaim(cfg: Config, acts: seq<Action>, jobId: Str, d: Decision) {
    exists i :: 0 <= i < |acts| && ProvedBy(cfg, acts[i], jobId, d)
  }

  ghost predicate SomeReason(cfg: Config, acts: seq<Action>, f: Finished) {
    exists i :: 0 <= i < |acts| && RestsOn(cfg, acts[i], f)
  }

  /** The votes and the receipt of a job come from the run. */
  ghost predicate JobBacked(cfg: Config, acts: seq<Action>, job: Job) {
    && (forall i :: 0 <= i < |job.results| ==> SomeVote(cfg, acts, job.results[i]))
    && (job.zkAccept.Some? ==> SomeClaim(cfg, acts, job.jobId, job.zkAccept.value))
  }

  ghost predicate OutcomeBacked(cfg: Config, acts: seq<Action>, f: Finished) {
    JobBacked(cfg, acts, f.job) && SomeReason(cfg, acts, f)
  }

  lemma MoreActions(cfg: Config, acts: seq<Action>, a: Action, job: Job)
    requires JobBacked(cfg, acts, job)
    ensures JobBacked(cfg, acts + [a], job)
  {
    hide SentAs, ProvedBy;
    forall i | 0 <= i < |job.results|
      ensures SomeVote(cfg, acts + [a], job.results[i])
    {
      assert SomeVote(cfg, acts, job.results[i]);
      var j :| 0 <= j < |acts| && SentAs(cfg, acts[j], job.results[i]);
      assert (acts + [a])[j] == acts[j];
    }
    if job.zkAccept.Some? {
      var j :| 0 <= j < |acts| && ProvedBy(cfg, acts[j], job.jobId, job.zkAccept.value);
      assert (acts + [a])[j] == acts[j];
    }
  }

  lemma StillReasoned(cfg: Config, acts: seq<Action>, a: Action, f: Finished)
    requires SomeReason(cfg, acts, f)
    ensures SomeReason(cfg, acts + [a], f)
  {
    hide RestsOn;
    var j :| 0 <= j < |acts| && RestsOn(cfg, acts[j], f);
    assert (acts + [a])[j] == acts[j];
  }

  /** One action: the pending job stays backed, with this action's own vote or claim. */
  lemma PendingStaysBacked(cfg: Config, acts: seq<Action>, s: Sys, a: Action)
    requires s.pending.Some? ==> JobBacked(cfg, acts, s.pending.value)
    ensures var s' := Step(cfg, s, a); s'.pending.Some? ==> JobBacked(cfg, acts + [a], s'.pending.value)
  {
    hide Final, Decided, AllIn, Escalatable, Ready, Selected, HeldBack, Within, Counts, Loggable;
    var all := acts + [a];
    assert all[|acts|] == a;
    if s.pending.Some? {
      MoreActions(cfg, acts, a, s.pending.value);
      if a.Vote? && Admitted(cfg, a) {
        assert SentAs(cfg, all[|acts|], a.result);
      }
      if a.Claim? && ClaimAdmitted(cfg, a) && a.receipt.Verified? {
        assert ProvedBy(cfg, all[|acts|], a.jobId,
                        Accept(a.receipt.hash, Some(a.receipt.outputHex), [a.workerId], true));
      }
    }
  }

  /** One action: a new outcome rests on it, or on the claim behind its receipt. */
  lemma NewOutcomeBacked(cfg: Config, acts: seq<Action>, s: Sys, a: Action)
    requires s.pending.Some? ==> JobBacked(cfg, acts, s.pending.value)
    requires |Step(cfg, s, a).finished| > |s.finished|
    ensures OutcomeBacked(cfg, acts + [a], Step(cfg, s, a).finished[|s.finished|])
  {
    hide Decided, AllIn, Escalatable, Committed, SentAs, ProvedBy, Admitted, Counts, Loggable, ClaimAdmitted;
    var (all, f) := (acts + [a], Step(cfg, s, a).finished[|s.finished|]);
    assert all[|acts|] == a;
    if s.pending.Some? {
      MoreActions(cfg, acts, a, s.pending.value);
    }
    if f.via == ByReceipt {
      var j :| 0 <= j < |all| && ProvedBy(cfg, all[j], f.job.jobId, f.decision);
      assert RestsOn(cfg, all[j], f);
    } else {
      assert RestsOn(cfg, all[|acts|], f);
    }
  }

  /** In every run each result of a pending or finished job was sent as a signed vote over an authenticated connection
      of its worker that passed the identity clauses, each receipt by a signed claim, and each outcome rests on an
      action of the run with the same hash and output: a verified receipt, the zk judge's or prover's answer, the
      replay's truth, or a check. */
  lemma {:induction false} OutcomesAreBacked(cfg: Config, acts: seq<Action>)
    ensures var s := After(cfg, acts);
            && (s.pending.Some? ==> JobBacked(cfg, acts, s.pending.value))
            && forall k :: 0 <= k < |s.finished| ==> OutcomeBacked(cfg, acts, s.finished[k])
  {
    hide Step, JobBacked, SomeReason;
    if acts != [] {
      var (front, a) := (acts[..|acts| - 1], acts[|acts| - 1]);
      assert acts == front + [a];
      var s := After(cfg, front);
      OutcomesAreBacked(cfg, front);
      PendingStaysBacked(cfg, front, s, a);
      StepAddsOne(cfg, s, a);
      var s' := Step(cfg, s, a);
      forall k | 0 <= k < |s'.finished|
        ensures OutcomeBacked(cfg, acts, s'.finished[k])
      {
        if k < |s.finished| {
          assert s'.finished[k] == s.finished[k];
          MoreActions(cfg, front, a, s.finished[k].job);
          StillReasoned(cfg, front, a, s.finished[k]);
        } else {
          NewOutcomeBacked(cfg, front, s, a);
        }
      }
    }
  }

  // ---------------------------------------------------------------- what is written down

  /** The ledger entry of a job: its id, the label of a network run, and per result its worker with ten units if it is
      among the agreeing, minus a hundred if the job was accepted without it, and nothing otherwise. */
  lemma EntryIs(f: Finished, i: nat)
    requires i < |f.job.results|
    ensures var e := EntryOf(f);
            && e.jobId == f.job.jobId && e.decision == Ascii("network-run") && |e.deltas| == |f.job.results|
            && e.deltas[i].0 == f.job.results[i].workerId
            && e.deltas[i].1 ==
               if !f.decision.Accept? then 0 else if e.deltas[i].0 in f.decision.agreed then 10 else -100
  {
  }
}
