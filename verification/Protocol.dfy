/** The coordinator's job protocol as a state machine: one pending job, its dispatch, votes, receipt
    claims, escalation and completion, under arbitrary interleavings and connection snapshots. */
module Protocol {
  import opened Words
  import opened JobFormat
  import opened Quorum
  import opened Bonds
  import opened Settlement

  /** What the main loop reads of a connection; `worker` is false for submitters. */
  datatype Conn = Conn(workerId: Str, authed: bool, worker: bool, pubkey: Option<Str>)

  datatype Config = Config(pool: Option<nat>, round1Ids: Option<seq<Str>>, round1Size: Option<nat>,
                           requireIdentity: bool, zk: bool)

  datatype Job = Job(jobId: Str, targets: Option<seq<Str>>, dispatched: bool, escalated: bool,
                     dispatchedIds: seq<Str>, reserves: seq<Str>, results: seq<WorkerResult>,
                     zkAccept: Option<Decision>, claimed: seq<Str>)

  datatype By = ByReceipt | ByQuorum | ByZkJudge | ByReplay | ByNobody | ByProver

  /** A finished job; the serial number counts watched jobs, proving-queue jobs have none. */
  datatype Finished = Finished(serial: Option<nat>, job: Job, decision: Decision, via: By)

  /** `serial` numbers the pending (or next) watched job; `down` records a panic of the main thread. */
  datatype Sys = Sys(serial: nat, pending: Option<Job>, finished: seq<Finished>, down: bool)

  datatype ReceiptAnswer = Verified(hash: Str, outputHex: Str) | NotVerified

  /** One action of the main loop, with everything it reads from outside: the connection map at each
      lock acquisition, the shuffle, the clock comparison and the answers of judges and verifiers. */
  datatype Action =
    | Queue(jobId: Str, targets: Option<seq<Str>>)
    | Dispatch(first: seq<Conn>, second: seq<Conn>, third: seq<Conn>, shuffled: seq<Str>)
    | Check(conns: seq<Conn>, expired: bool, zk: ZkAnswer, truth: Truth)
    | Authenticate(workerId: Str)
    | Vote(conn: Option<Conn>, result: WorkerResult, signed: bool)
    | Claim(conn: Option<Conn>, workerId: Str, jobId: Str, pubkeyHex: Str, signed: bool, receipt: ReceiptAnswer)
    | Prove(jobId: Str, answer: ZkAnswer)
    | Idle

  // ---------------------------------------------------------------- lists of ids

  function Members(ids: seq<Str>): set<Str> { set id | id in ids }

  function Within(ids: seq<Str>, s: set<Str>): seq<Str> {
    if ids == [] then []
    else
      var n := |ids| - 1;
      Within(ids[..n], s) + if ids[n] in s then [ids[n]] else []
  }

  function Without(ids: seq<Str>, s: set<Str>): seq<Str> {
    if ids == [] then []
    else
      var n := |ids| - 1;
      Without(ids[..n], s) + if ids[n] in s then [] else [ids[n]]
  }

  lemma {:induction false} WithinIff(ids: seq<Str>, s: set<Str>, id: Str)
    ensures id in Within(ids, s) <==> id in ids && id in s
    ensures id in Without(ids, s) <==> id in ids && id !in s
  {
    if ids != [] {
      var n := |ids| - 1;
      WithinIff(ids[..n], s, id);
      assert ids == ids[..n] + [ids[n]];
    }
  }

  /** Distinct members of a list are no more than the list is long. */
  lemma {:induction false} DistinctFit(a: seq<Str>, b: seq<Str>)
    requires Distinct(a) && forall i :: 0 <= i < |a| ==> a[i] in b
    ensures |a| <= |b|
    decreases |a|
  {
    if a != [] {
      var n := |a| - 1;
      var k :| 0 <= k < |b| && b[k] == a[n];
      var b' := b[..k] + b[k + 1..];
      forall i | 0 <= i < n
        ensures a[..n][i] in b'
      {
        var j :| 0 <= j < |b| && b[j] == a[i];
        assert j < k ==> b'[j] == a[i];
        assert j > k ==> b'[j - 1] == a[i];
      }
      DistinctFit(a[..n], b');
    }
  }

  // ---------------------------------------------------------------- dispatch

  /** Ids of authenticated worker connections, in the map's iteration order. */
  function AuthedWorkers(conns: seq<Conn>): seq<Str> {
    if conns == [] then []
    else
      var n := |conns| - 1;
      var c := conns[n];
      AuthedWorkers(conns[..n]) + if c.authed && c.worker then [c.workerId] else []
  }

  function AuthedIds(conns: seq<Conn>): set<Str> { set c | c in conns && c.authed :: c.workerId }

  function ConnectedIds(conns: seq<Conn>): set<Str> { set c | c in conns :: c.workerId }

  /** Named members (explicit targets first, else the configured round 1) must all be authenticated and
      the pool full; otherwise the pool alone counts. */
  predicate Ready(cfg: Config, job: Job, conns: seq<Conn>) {
    var named := if job.targets.Some? then job.targets else cfg.round1Ids;
    if named.Some? then
      && (forall id :: id in named.value ==> id in AuthedIds(conns))
      && (cfg.pool.Some? ==> |AuthedWorkers(conns)| >= cfg.pool.value)
    else |AuthedWorkers(conns)| >= if cfg.pool.Some? then cfg.pool.value else 1
  }

  function Candidates(job: Job, conns: seq<Conn>): seq<Str> {
    if job.targets.Some? then Within(AuthedWorkers(conns), Members(job.targets.value)) else AuthedWorkers(conns)
  }

  /** The round-1 set: the configured names among the candidates, or a random sample, or everybody. */
  function Selected(cfg: Config, job: Job, candidates: seq<Str>, shuffled: seq<Str>): seq<Str> {
    if cfg.round1Ids.Some? && job.targets.None? then Within(cfg.round1Ids.value, Members(candidates))
    else if cfg.round1Size.Some? && |candidates| > cfg.round1Size.value then
      if |shuffled| > cfg.round1Size.value then shuffled[..cfg.round1Size.value] else shuffled
    else candidates
  }

  function HeldBack(job: Job, selected: seq<Str>, conns: seq<Conn>): seq<Str> {
    Without(AuthedWorkers(conns), Members(selected) + if job.targets.Some? then Members(job.targets.value) else {})
  }

  function Dispatched(cfg: Config, job: Job, a: Action): Job
    requires a.Dispatch?
  {
    if job.dispatched || !Ready(cfg, job, a.first) then job
    else
      var selected := Selected(cfg, job, Candidates(job, a.first), a.shuffled);
      job.(dispatched := true, dispatchedIds := job.dispatchedIds + Within(selected, ConnectedIds(a.third)),
           reserves := HeldBack(job, selected, a.second))
  }

  // ---------------------------------------------------------------- completion

  predicate AllIn(job: Job) {
    job.zkAccept.Some? || forall id :: id in job.dispatchedIds ==> id in Ids(job.results)
  }

  /** The quorum is undecided and workers are held back. */
  ghost predicate Escalatable(job: Job) {
    Decided(job.results, |job.dispatchedIds|) == Escalate && job.reserves != []
  }

  function Escalated(job: Job, conns: seq<Conn>): Job {
    job.(escalated := true, dispatchedIds := job.dispatchedIds + Within(job.reserves, AuthedIds(conns)), reserves := [])
  }

  function ZkDecision(answer: ZkAnswer, rs: seq<WorkerResult>): Decision
    requires answer != NoAnswer
  {
    if answer.Clean? then Accept(answer.hash, Some(answer.outputHex), Committed(rs, answer.hash), true)
    else Reject(NotClean)
  }

  /** The last word on a job: receipt, quorum, zk judge, replay judge, in this order; None is a panic. */
  ghost function Final(job: Job, zk: ZkAnswer, truth: Truth): Option<(Decision, By)> {
    var d := Decided(job.results, |job.dispatchedIds|);
    if job.zkAccept.Some? then Some((job.zkAccept.value, ByReceipt))
    else if d != Escalate then Some((d, ByQuorum))
    else if zk != NoAnswer then Some((ZkDecision(zk, job.results), ByZkJudge))
    else
      match truth
      case Found(digest, output) =>
        Some((Accept(digest, Some(output), Committed(job.results, digest), false), ByReplay))
      case NoTruth => Some((Reject(JudgmentFailed), ByNobody))
      case JudgePanic => None
  }

  ghost function Complete(s: Sys, a: Action): Sys
    requires a.Check? && s.pending.Some?
  {
    var job := s.pending.value;
    if !job.dispatched then s
    else if AllIn(job) && Escalatable(job) then s.(pending := Some(Escalated(job, a.conns)))
    else if AllIn(job) || a.expired then
      match Final(job, a.zk, a.truth)
      case None => s.(down := true)
      case Some((d, via)) =>
        s.(serial := s.serial + 1, pending := None, finished := s.finished + [Finished(Some(s.serial), job, d, via)])
    else s
  }

  // ---------------------------------------------------------------- events

  /** A worker authenticating after dispatch joins the reserves of an untargeted, unescalated job. */
  function LateJoin(job: Job, id: Str): Job {
    if job.dispatched && !job.escalated && job.targets.None? && id !in job.dispatchedIds then
      job.(reserves := job.reserves + [id])
    else job
  }

  /** The identity gate in front of a vote. */
  predicate Admitted(cfg: Config, a: Action)
    requires a.Vote?
  {
    && a.conn.Some? && a.conn.value.authed && a.result.workerId == a.conn.value.workerId
    && (a.conn.value.pubkey.Some? && a.result.pubkeyHex.Some? ==> a.conn.value.pubkey == a.result.pubkeyHex)
    && (a.conn.value.pubkey.None? ==> !cfg.requireIdentity)
    && a.signed
  }

  /** The vote counts: this job, dispatched to this worker, and its first. */
  predicate Counts(job: Job, r: WorkerResult) {
    r.jobId == job.jobId && r.workerId in job.dispatchedIds && r.workerId !in Ids(job.results)
  }

  /** Logging the first twelve bytes of the hash slices it, which panics when there are fewer or when
      the cut falls inside a character. */
  predicate Loggable(hash: Str) {
    |hash| == 12 || (|hash| > 12 && !(0x80 <= hash[12] < 0xc0))
  }

  predicate ClaimAdmitted(cfg: Config, a: Action)
    requires a.Claim?
  {
    && a.conn.Some? && a.conn.value.authed && a.workerId == a.conn.value.workerId
    && (a.conn.value.pubkey.Some? ==> a.conn.value.pubkey.value == a.pubkeyHex)
    && cfg.zk && a.signed
  }

  /** One attempt per dispatched worker, consumed whatever the verifier says. */
  function Claimed(job: Job, a: Action): Job
    requires a.Claim?
  {
    if a.jobId != job.jobId || job.zkAccept.Some? then job
    else if a.workerId !in job.dispatchedIds || a.workerId in job.claimed then job
    else
      job.(claimed := job.claimed + [a.workerId],
           zkAccept := if a.receipt.Verified?
                       then Some(Accept(a.receipt.hash, Some(a.receipt.outputHex), [a.workerId], true))
                       else None)
  }

  function NewJob(jobId: Str, targets: Option<seq<Str>>): Job {
    Job(jobId, targets, false, false, [], [], [], None, [])
  }

  /** A high-assurance job never meets a worker. */
  function ProvedJob(jobId: Str): Job {
    Job(jobId, None, true, false, [], [], [], None, [])
  }

  function ProofDecision(answer: ZkAnswer): Decision {
    if answer == NoAnswer then Reject(ProvingFailed) else ZkDecision(answer, [])
  }

  /** One action of the main loop; an action whose guard fails changes nothing. */
  ghost function Step(cfg: Config, s: Sys, a: Action): Sys {
    if s.down || a.Idle? then s
    else if a.Prove? then
      s.(finished := s.finished + [Finished(None, ProvedJob(a.jobId), ProofDecision(a.answer), ByProver)])
    else if s.pending.None? then
      if a.Queue? then s.(pending := Some(NewJob(a.jobId, a.targets))) else s
    else
      var job := s.pending.value;
      match a
      case Dispatch(_, _, _, _) => s.(pending := Some(Dispatched(cfg, job, a)))
      case Check(_, _, _, _) => Complete(s, a)
      case Authenticate(id) => s.(pending := Some(LateJoin(job, id)))
      case Vote(_, r, _) =>
        if !Admitted(cfg, a) || !Counts(job, r) then s
        else if !Loggable(r.resultHash) then s.(down := true)
        else s.(pending := Some(job.(results := job.results + [r])))
      case Claim(_, _, _, _, _, _) => if ClaimAdmitted(cfg, a) then s.(pending := Some(Claimed(job, a))) else s
      case _ => s
  }

  function Init(): Sys { Sys(0, None, [], false) }

  /** The state after a run. */
  ghost function After(cfg: Config, acts: seq<Action>): Sys {
    if acts == [] then Init() else Step(cfg, After(cfg, acts[..|acts| - 1]), acts[|acts| - 1])
  }

  // ---------------------------------------------------------------- what every step keeps

  ghost predicate Among(ids: seq<Str>, all: seq<Str>) {
    forall i :: 0 <= i < |ids| ==> ids[i] in all
  }

  ghost predicate Apart(a: seq<Str>, b: seq<Str>) {
    forall i :: 0 <= i < |a| ==> a[i] !in b
  }

  ghost predicate JobInv(job: Job) {
    && Distinct(Ids(job.results)) && Among(Ids(job.results), job.dispatchedIds)
    && Distinct(job.claimed) && Among(job.claimed, job.dispatchedIds)
    && Apart(job.reserves, job.dispatchedIds)
    && (job.escalated ==> job.reserves == [])
    && (job.zkAccept.Some? ==> ReceiptAccept(job.zkAccept.value, job.claimed))
    && (!job.dispatched ==> job == NewJob(job.jobId, job.targets))
  }

  /** A receipt acceptance credits its one claimant. */
  ghost predicate ReceiptAccept(d: Decision, claimed: seq<Str>) {
    d.Accept? && d.zk && |d.agreed| == 1 && d.agreed[0] in claimed
  }

  lemma DispatchKeeps(cfg: Config, job: Job, a: Action)
    requires a.Dispatch? && JobInv(job)
    ensures JobInv(Dispatched(cfg, job, a))
  {
    hide Ready, Candidates, Selected, Within, Without, AuthedWorkers;
    var job' := Dispatched(cfg, job, a);
    if !job.dispatched && Ready(cfg, job, a.first) {
      var selected := Selected(cfg, job, Candidates(job, a.first), a.shuffled);
      var exclude := Members(selected) + if job.targets.Some? then Members(job.targets.value) else {};
      forall id
        ensures id in job'.dispatchedIds ==> id in selected
        ensures id in job'.reserves ==> id !in selected
      {
        WithinIff(selected, ConnectedIds(a.third), id);
        WithinIff(AuthedWorkers(a.second), exclude, id);
      }
    }
  }

  lemma EscalationKeeps(job: Job, conns: seq<Conn>)
    requires JobInv(job) && job.dispatched
    ensures JobInv(Escalated(job, conns))
  {
    hide Within, Ids, ReceiptAccept;
  }

  lemma LateJoinKeeps(job: Job, id: Str)
    requires JobInv(job)
    ensures JobInv(LateJoin(job, id))
  {
    hide Ids, ReceiptAccept;
  }

  lemma VoteKeeps(job: Job, r: WorkerResult)
    requires JobInv(job) && Counts(job, r)
    ensures JobInv(job.(results := job.results + [r]))
  {
    hide ReceiptAccept;
    IdsAppend(job.results, [r]);
    assert Ids([r]) == [r.workerId];
  }

  lemma ClaimKeeps(job: Job, a: Action)
    requires a.Claim? && JobInv(job)
    ensures JobInv(Claimed(job, a))
  {
    hide Ids;
  }

  // ---------------------------------------------------------------- finished jobs

  /** A quorum acceptance rests on a strict majority of the dispatched list: distinct dispatched
      workers, more than half of it, each halted with the accepted hash. */
  ghost predicate MajorityOf(d: Decision, job: Job)
    requires d.Accept?
  {
    && Distinct(d.agreed) && Among(d.agreed, job.dispatchedIds)
    && 2 * |d.agreed| > |job.dispatchedIds|
    && d.agreed == Ids(Voting(job.results, d.hash)) && OneChain(Voting(job.results, d.hash))
  }

  /** Each way a job can end, with what it guarantees: receipts go first, the quorum second, and a judge
      is asked only when the quorum is undecided and no held-back worker is owed a chance. */
  ghost predicate Sound(f: Finished) {
    var d, job := f.decision, f.job;
    var quorum := Decided(job.results, |job.dispatchedIds|);
    && Distinct(Ids(job.results)) && Among(Ids(job.results), job.dispatchedIds)
    && d != Escalate && job.dispatched
    && (f.via != ByProver ==> (job.zkAccept.Some? <==> f.via == ByReceipt) && (AllIn(job) ==> !Escalatable(job)))
    && match f.via
       case ByReceipt => Some(d) == job.zkAccept && ReceiptAccept(d, job.dispatchedIds)
       case ByQuorum => d == quorum && (d.Accept? ==> MajorityOf(d, job))
       case ByZkJudge => quorum == Escalate && (d.Accept? ==> d.zk && d.agreed == Committed(job.results, d.hash))
       case ByReplay => quorum == Escalate && d.Accept? && !d.zk && d.agreed == Committed(job.results, d.hash)
       case ByNobody => quorum == Escalate && d == Reject(JudgmentFailed)
       case ByProver => job == ProvedJob(job.jobId) && (d.Accept? ==> d.zk && d.agreed == [])
  }

  /** The number of votes never exceeds the dispatched list, so the larger of the two is always the
      dispatched count. */
  lemma PoolIsDispatched(job: Job)
    requires Distinct(Ids(job.results)) && Among(Ids(job.results), job.dispatchedIds)
    ensures Pool(|FirstVotes(job.results)|, |job.dispatchedIds|) == |job.dispatchedIds|
  {
    DistinctAreFirst(job.results);
    DistinctFit(Ids(job.results), job.dispatchedIds);
  }

  lemma {:induction false} VotingIds(rs: seq<WorkerResult>, h: Str)
    requires Distinct(Ids(rs))
    ensures Distinct(Ids(Voting(rs, h))) && Among(Ids(Voting(rs, h)), Ids(rs))
  {
    hide HaltedStatus;
    if rs != [] {
      var n := |rs| - 1;
      assert Ids(rs)[..n] == Ids(rs[..n]);
      assert Ids(rs) == Ids(rs[..n]) + [rs[n].workerId];
      assert forall i :: 0 <= i < n ==> Ids(rs)[i] != Ids(rs)[n];
      VotingIds(rs[..n], h);
      IdsAppend(Voting(rs[..n], h), [rs[n]]);
      assert Ids([rs[n]]) == [rs[n].workerId];
    }
  }

  lemma QuorumAcceptIsMajority(job: Job, d: Decision)
    requires Distinct(Ids(job.results)) && Among(Ids(job.results), job.dispatchedIds)
    requires Decides(job.results, |job.dispatchedIds|, d) && d.Accept?
    ensures MajorityOf(d, job)
  {
    hide Voting, FirstVotes, Ids, OneChain;
    PoolIsDispatched(job);
    DistinctAreFirst(job.results);
    AcceptIff(job.results, |job.dispatchedIds|, d, d.hash);
    VotingIds(job.results, d.hash);
  }

  lemma FinishIsSound(job: Job, zk: ZkAnswer, truth: Truth, serial: nat)
    requires JobInv(job) && job.dispatched && Final(job, zk, truth).Some?
    requires AllIn(job) ==> !Escalatable(job)
    ensures var (d, via) := Final(job, zk, truth).value; Sound(Finished(Some(serial), job, d, via))
  {
    hide Decides, Ids, Committed, MajorityOf, AllIn;
    var d := Decided(job.results, |job.dispatchedIds|);
    if d.Accept? {
      QuorumAcceptIsMajority(job, d);
    }
  }

  // ---------------------------------------------------------------- every reachable state

  /** Serial numbers of the finished watched jobs, in order. */
  function Serials(fs: seq<Finished>): seq<nat> {
    if fs == [] then []
    else
      var n := |fs| - 1;
      Serials(fs[..n]) + if fs[n].serial.Some? then [fs[n].serial.value] else []
  }

  function UpTo(n: nat): (s: seq<nat>)
    ensures |s| == n
  {
    seq<nat>(n, i => i)
  }

  ghost predicate Inv(s: Sys) {
    && (s.pending.Some? ==> JobInv(s.pending.value))
    && (forall i :: 0 <= i < |s.finished| ==> Sound(s.finished[i]))
    && Serials(s.finished) == UpTo(s.serial)
  }

  lemma {:induction false} SerialsStep(fs: seq<Finished>, f: Finished)
    ensures Serials(fs + [f]) == Serials(fs) + if f.serial.Some? then [f.serial.value] else []
  {
    assert (fs + [f])[..|fs|] == fs;
  }

  lemma CompleteKeeps(s: Sys, a: Action)
    requires a.Check? && s.pending.Some? && Inv(s)
    ensures Inv(Complete(s, a))
  {
    hide AllIn, Escalatable, Final, Escalated, JobInv, Sound, Serials, UpTo;
    var job := s.pending.value;
    if job.dispatched {
      EscalationKeeps(job, a.conns);
      if !(AllIn(job) && Escalatable(job)) && Final(job, a.zk, a.truth).Some? {
        FinishIsSound(job, a.zk, a.truth, s.serial);
        var (d, via) := Final(job, a.zk, a.truth).value;
        SerialsStep(s.finished, Finished(Some(s.serial), job, d, via));
        UpToStep(s.serial);
      }
    }
  }

  lemma UpToStep(n: nat)
    ensures UpTo(n + 1) == UpTo(n) + [n]
  {
  }

  lemma ProofIsSound(jobId: Str, answer: ZkAnswer)
    ensures Sound(Finished(None, ProvedJob(jobId), ProofDecision(answer), ByProver))
  {
  }

  lemma StepKeeps(cfg: Config, s: Sys, a: Action)
    requires Inv(s)
    ensures Inv(Step(cfg, s, a))
  {
    hide Complete, Dispatched, LateJoin, Claimed, JobInv, Sound, Serials, UpTo, Admitted, ClaimAdmitted, Loggable,
         Counts;
    if a.Prove? {
      var f := Finished(None, ProvedJob(a.jobId), ProofDecision(a.answer), ByProver);
      ProofIsSound(a.jobId, a.answer);
      SerialsStep(s.finished, f);
    } else if a.Queue? {
      NewJobInv(a.jobId, a.targets);
    } else if s.pending.Some? {
      var job := s.pending.value;
      match a {
        case Dispatch(_, _, _, _) => DispatchKeeps(cfg, job, a);
        case Check(_, _, _, _) => CompleteKeeps(s, a);
        case Authenticate(id) => LateJoinKeeps(job, id);
        case Vote(_, r, _) => if Counts(job, r) { VoteKeeps(job, r); }
        case Claim(_, _, _, _, _, _) => ClaimKeeps(job, a);
        case Idle =>
      }
    }
  }

  lemma NewJobInv(jobId: Str, targets: Option<seq<Str>>)
    ensures JobInv(NewJob(jobId, targets))
  {
  }

  /** Safety of every run: the job invariants, a sound reason behind every finished job, and exactly
      one outcome per finished watched job, in queue order. */
  lemma {:induction false} RunsAreSafe(cfg: Config, acts: seq<Action>)
    ensures Inv(After(cfg, acts))
  {
    hide Step;
    if acts != [] {
      RunsAreSafe(cfg, acts[..|acts| - 1]);
      StepKeeps(cfg, After(cfg, acts[..|acts| - 1]), acts[|acts| - 1]);
    }
  }
}
