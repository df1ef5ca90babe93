/** The coordinator's main loop in its own form: a pending slot, outcomes and the ledger file, each updated in
    place, every action proved to be a step of the protocol. */
module Serving {
  import opened Words
  import opened JobFormat
  import opened Quorum
  import opened Bonds
  import opened Settlement
  import opened Protocol
  import opened ProtocolLaws

  datatype Outcome = Outcome(jobId: Str, decision: Decision, results: seq<WorkerResult>, bondDeltas: seq<Delta>)

  function OutcomeOf(f: Finished): Outcome {
    Outcome(f.job.jobId, f.decision, f.job.results, Slashing(f.decision, f.job.results))
  }

  function Outcomes(fs: seq<Finished>): (os: seq<Outcome>)
    ensures |os| == |fs|
  {
    seq<Outcome>(|fs|, i requires 0 <= i < |fs| => OutcomeOf(fs[i]))
  }

  lemma OutcomesStep(fs: seq<Finished>, f: Finished)
    ensures Outcomes(fs + [f]) == Outcomes(fs) + [OutcomeOf(f)]
    ensures Entries(fs + [f]) == Entries(fs) + [EntryOf(f)]
  {
  }

  lemma {:induction false} PersistedStep(file: File, ios: seq<FileIO>, es: seq<Entry>, io: FileIO, e: Entry)
    requires |ios| == |es|
    ensures Persisted(file, ios + [io], es + [e]) == AfterJob(Persisted(file, ios, es), io, e)
  {
    assert (ios + [io])[..|ios|] == ios && (es + [e])[..|es|] == es;
  }

  // ---------------------------------------------------------------- the loops of dispatch and escalation

  lemma {:induction false} WithinStep(ids: seq<Str>, id: Str, s: set<Str>)
    ensures Within(ids + [id], s) == Within(ids, s) + if id in s then [id] else []
  {
    assert (ids + [id])[..|ids|] == ids;
  }

  lemma CandidatesStep(job: Job, conns: seq<Conn>, c: Conn)
    ensures Candidates(job, conns + [c])
         == Candidates(job, conns)
          + if c.authed && c.worker && (job.targets.Some? ==> c.workerId in job.targets.value) then [c.workerId] else []
  {
    assert (conns + [c])[..|conns|] == conns;
    var ids := AuthedWorkers(conns);
    assert ids + [] == ids;
    if job.targets.Some? {
      WithinStep(ids, c.workerId, Members(job.targets.value));
    }
  }

  /** Pass 1 of dispatch: eligible workers under the first lock. */
  method CollectCandidates(job: Job, conns: seq<Conn>) returns (candidates: seq<Str>)
    ensures candidates == Candidates(job, conns)
  {
    candidates := [];
    for i := 0 to |conns|
      invariant candidates == Candidates(job, conns[..i])
    {
      var c := conns[i];
      var eligible := if job.targets.Some? then c.workerId in job.targets.value else c.authed;
      assert conns[..i + 1] == conns[..i] + [c];
      CandidatesStep(job, conns[..i], c);
      if eligible && c.authed && c.worker {
        candidates := candidates + [c.workerId];
      }
    }
    assert conns[..|conns|] == conns;
  }

  /** The sending loop: a selected worker still connected is sent the job and recorded. */
  method SendTo(ids: seq<Str>, conns: seq<Conn>) returns (reached: seq<Str>)
    ensures reached == Within(ids, ConnectedIds(conns))
  {
    hide ConnectedIds;
    reached := [];
    for i := 0 to |ids|
      invariant reached == Within(ids[..i], ConnectedIds(conns))
    {
      assert ids[..i + 1] == ids[..i] + [ids[i]];
      WithinStep(ids[..i], ids[i], ConnectedIds(conns));
      if ids[i] in ConnectedIds(conns) {
        reached := reached + [ids[i]];
      }
    }
    assert ids[..|ids|] == ids;
  }

  /** The escalation loop, which also asks for authentication. */
  method SendToAuthed(ids: seq<Str>, conns: seq<Conn>) returns (reached: seq<Str>)
    ensures reached == Within(ids, AuthedIds(conns))
  {
    hide AuthedIds;
    reached := [];
    for i := 0 to |ids|
      invariant reached == Within(ids[..i], AuthedIds(conns))
    {
      assert ids[..i + 1] == ids[..i] + [ids[i]];
      WithinStep(ids[..i], ids[i], AuthedIds(conns));
      if ids[i] in AuthedIds(conns) {
        reached := reached + [ids[i]];
      }
    }
    assert ids[..|ids|] == ids;
  }

  // ---------------------------------------------------------------- the main loop's state

  class Coordinator {
    const cfg: Config
    /** Whether a ledger is configured at all. */
    const keeps: bool
    var file: File
    var pending: Option<Job>
    var outcomes: seq<Outcome>
    var jobsDone: nat
    ghost var serial: nat
    ghost var finished: seq<Finished>
    ghost var down: bool
    ghost const start: File
    ghost var ios: seq<FileIO>

    ghost function State(): Sys
      reads this
    {
      Sys(serial, pending, finished, down)
    }

    /** The protocol invariant, with outcomes, count and ledger file all mirroring the finished jobs: the
        file is what loading, applying and saving once per job have made of the one found at the start. */
    ghost predicate Valid()
      reads this
    {
      && Inv(State())
      && Mirrors()
    }

    ghost predicate Mirrors()
      reads this`outcomes, this`jobsDone, this`finished, this`file, this`ios
    {
      && outcomes == Outcomes(finished) && jobsDone == |finished| == |ios|
      && file == if keeps then Persisted(start, ios, Entries(finished)) else start
    }

    /** A coordinator over whatever ledger file it finds. */
    constructor (cfg: Config, keeps: bool, found: File)
      ensures Valid() && this.cfg == cfg && this.keeps == keeps && start == found && State() == Init()
    {
      this.cfg, this.keeps, file, start := cfg, keeps, found, found;
      pending, outcomes, jobsDone, serial, finished, down, ios := None, [], 0, 0, [], false, [];
    }

    /** A descriptor found by the scanner fills the empty slot. */
    method QueueJob(jobId: Str, targets: Option<seq<Str>>)
      requires Valid() && !down
      modifies this`pending
      ensures Valid() && State() == Step(cfg, old(State()), Queue(jobId, targets))
    {
      hide Inv, Mirrors;
      StepKeeps(cfg, State(), Queue(jobId, targets));
      if pending.None? {
        pending := Some(NewJob(jobId, targets));
      }
    }

    /** Dispatch under three successive locks of the connection map. */
    method DispatchPending(first: seq<Conn>, second: seq<Conn>, third: seq<Conn>, shuffled: seq<Str>)
      requires Valid() && !down
      modifies this`pending
      ensures Valid() && State() == Step(cfg, old(State()), Dispatch(first, second, third, shuffled))
    {
      hide Inv, Mirrors, Ready, Candidates, Selected, Within, HeldBack, ConnectedIds;
      StepKeeps(cfg, State(), Dispatch(first, second, third, shuffled));
      if pending.None? {
        return;
      }
      var job := pending.value;
      if !job.dispatched && Ready(cfg, job, first) {
        var candidates := CollectCandidates(job, first);
        var selected := Selected(cfg, job, candidates, shuffled);
        var reserves := HeldBack(job, selected, second);
        var reached := SendTo(selected, third);
        pending := Some(job.(dispatched := true, dispatchedIds := job.dispatchedIds + reached, reserves := reserves));
      }
    }

    /** The completion check: escalate, finish, or keep waiting. */
    method CheckCompletion(conns: seq<Conn>, expired: bool, zk: ZkAnswer, truth: Truth, io: FileIO)
      returns (panicked: bool)
      requires Valid() && !down
      modifies this
      ensures Valid() && State() == Step(cfg, old(State()), Check(conns, expired, zk, truth))
      ensures panicked == down && ios == old(ios) + if |finished| > |old(finished)| then [io] else []
    {
      hide Inv, Mirrors, Entries, Outcomes, Within, AuthedIds, AllIn, Committed, Decides;
      ghost var a := Check(conns, expired, zk, truth);
      StepKeeps(cfg, State(), a);
      if pending.None? || !pending.value.dispatched {
        return false;
      }
      var job := pending.value;
      var allIn := AllIn(job);
      var d := Decide(job.results, |job.dispatchedIds|);
      DecidesIsFunctional(job.results, |job.dispatchedIds|, d, Decided(job.results, |job.dispatchedIds|));
      if allIn && d == Escalate && job.reserves != [] {
        var reached := SendToAuthed(job.reserves, conns);
        pending := Some(job.(escalated := true, dispatchedIds := job.dispatchedIds + reached, reserves := []));
        return false;
      }
      if !allIn && !expired {
        return false;
      }
      panicked := Finish(job, d, zk, truth, io);
    }

    /** The last word on a job and the shared finish path. */
    method Finish(job: Job, d: Decision, zk: ZkAnswer, truth: Truth, io: FileIO) returns (panicked: bool)
      requires Valid() && !down && pending == Some(job) && d == Decided(job.results, |job.dispatchedIds|)
      requires match Final(job, zk, truth)
               case None => Inv(State().(down := true))
               case Some((e, via)) =>
                 Inv(Sys(serial + 1, None, finished + [Finished(Some(serial), job, e, via)], false))
      modifies this
      ensures Valid() && panicked == down && ios == old(ios) + if |finished| > |old(finished)| then [io] else []
      ensures match Final(job, zk, truth)
              case None => State() == old(State()).(down := true)
              case Some((e, via)) =>
                State() == Sys(old(serial) + 1, None, old(finished) + [Finished(Some(old(serial)), job, e, via)], false)
    {
      hide Inv, Mirrors, Entries, Outcomes, Decides, Decided;
      var decision := d;
      ghost var via := ByQuorum;
      if job.zkAccept.Some? {
        decision, via := job.zkAccept.value, ByReceipt;
      } else if d == Escalate {
        if zk != NoAnswer {
          decision, via := ZkDecision(zk, job.results), ByZkJudge;
        } else if truth.Found? {
          DistinctResults(State(), job);
          var agreed := Vindicate(job.results, truth.digest);
          decision, via := Accept(truth.digest, Some(truth.outputHex), agreed, false), ByReplay;
        } else if truth.JudgePanic? {
          down := true;
          return true;
        } else {
          decision, via := Reject(JudgmentFailed), ByNobody;
        }
      }
      Record(job, decision, io, Finished(Some(serial), job, decision, via));
      pending, serial := None, serial + 1;
      panicked := false;
    }

    /** The shared tail of every finished job: deltas, ledger entry, outcome, count. */
    method Record(job: Job, decision: Decision, io: FileIO, ghost f: Finished)
      requires f.job == job && f.decision == decision && Mirrors()
      modifies this`outcomes, this`jobsDone, this`finished, this`file, this`ios
      ensures finished == old(finished) + [f] && ios == old(ios) + [io] && Mirrors()
    {
      hide Entries, Outcomes, Slashing, RunLabel, Applied;
      OutcomesStep(finished, f);
      PersistedStep(start, ios, Entries(finished), io, EntryOf(f));
      var deltas := Slashing(decision, job.results);
      FinishLedger(job.jobId, deltas, io);
      outcomes := outcomes + [Outcome(job.jobId, decision, job.results, deltas)];
      jobsDone := jobsDone + 1;
      finished, ios := finished + [f], ios + [io];
    }

    /** `finish_ledger`: load the file (empty when that fails), apply, save. */
    method FinishLedger(jobId: Str, deltas: seq<Delta>, io: FileIO)
      modifies this`file
      ensures file == if keeps then AfterJob(old(file), io, Entry(jobId, RunLabel(), deltas)) else old(file)
    {
      if !keeps {
        return;
      }
      hide Applied, BookValid;
      var ledger := new Ledger();
      if file.Stored? && io.readable {
        ledger := new Ledger.Loaded(file.book);
      }
      ledger.Apply(jobId, RunLabel(), deltas);
      match io.saving {
        case Written => file := Stored(ledger.Contents());
        case Untouched =>
        case CutShort => file := Torn;
      }
    }

    /** A worker whose nonce signature has just been accepted. */
    method Authenticated(id: Str)
      requires Valid() && !down
      modifies this`pending
      ensures Valid() && State() == Step(cfg, old(State()), Authenticate(id))
    {
      hide Inv, Mirrors;
      StepKeeps(cfg, State(), Authenticate(id));
      if pending.Some? {
        var job := pending.value;
        if job.dispatched && !job.escalated && job.targets.None? && id !in job.dispatchedIds {
          pending := Some(job.(reserves := job.reserves + [id]));
        }
      }
    }

    /** A result message. */
    method ReceiveResult(conn: Option<Conn>, result: WorkerResult, signed: bool) returns (panicked: bool)
      requires Valid() && !down
      modifies this`pending, this`down
      ensures Valid() && State() == Step(cfg, old(State()), Vote(conn, result, signed))
      ensures panicked == down
    {
      hide Inv, Mirrors, Loggable, Ids;
      StepKeeps(cfg, State(), Vote(conn, result, signed));
      panicked := false;
      if conn.None? || !conn.value.authed || result.workerId != conn.value.workerId {
        return;
      }
      if conn.value.pubkey.Some? && result.pubkeyHex.Some? && conn.value.pubkey != result.pubkeyHex {
        return;
      }
      if conn.value.pubkey.None? && cfg.requireIdentity {
        return;
      }
      if !signed || pending.None? {
        return;
      }
      var job := pending.value;
      if result.jobId != job.jobId || result.workerId !in job.dispatchedIds || result.workerId in Ids(job.results) {
        return;
      }
      if !Loggable(result.resultHash) {
        down := true;
        return true;
      }
      pending := Some(job.(results := job.results + [result]));
    }

    /** A receipt claim, with the gate of one attempt per dispatched worker. */
    method ReceiveClaim(conn: Option<Conn>, workerId: Str, jobId: Str, pubkeyHex: Str, signed: bool,
                        receipt: ReceiptAnswer)
      requires Valid() && !down
      modifies this`pending
      ensures Valid() && State() == Step(cfg, old(State()), Claim(conn, workerId, jobId, pubkeyHex, signed, receipt))
    {
      hide Inv, Mirrors;
      StepKeeps(cfg, State(), Claim(conn, workerId, jobId, pubkeyHex, signed, receipt));
      if conn.None? || !conn.value.authed || workerId != conn.value.workerId {
        return;
      }
      if conn.value.pubkey.Some? && conn.value.pubkey.value != pubkeyHex {
        return;
      }
      if !cfg.zk || !signed || pending.None? {
        return;
      }
      var job := pending.value;
      if jobId != job.jobId || job.zkAccept.Some? || workerId !in job.dispatchedIds || workerId in job.claimed {
        return;
      }
      job := job.(claimed := job.claimed + [workerId]);
      if receipt.Verified? {
        job := job.(zkAccept := Some(Accept(receipt.hash, Some(receipt.outputHex), [workerId], true)));
      }
      pending := Some(job);
    }

    /** A job from the proving queue, which bypasses the pending slot. */
    method Proved(jobId: Str, answer: ZkAnswer, io: FileIO)
      requires Valid() && !down
      modifies this
      ensures ios == old(ios) + [io]
      ensures Valid() && State() == Step(cfg, old(State()), Prove(jobId, answer))
    {
      hide Inv, Mirrors, Entries, Outcomes, ProofDecision;
      StepKeeps(cfg, State(), Prove(jobId, answer));
      var job, d := ProvedJob(jobId), ProofDecision(answer);
      Record(job, d, io, Finished(None, job, d, ByProver));
    }
  }

  lemma DistinctResults(s: Sys, job: Job)
    requires Inv(s) && s.pending == Some(job)
    ensures Distinct(Ids(job.results))
  {
  }
}
