/** What holds over whole runs of the job protocol: bounded completion, one outcome per job, and the
    money that moves. */
module ProtocolLaws {
  import opened Words
  import opened JobFormat
  import opened Quorum
  import opened Bonds
  import opened Settlement
  import opened Protocol

  // ---------------------------------------------------------------- who is dispatched

  /** Round 1 goes to authenticated workers only, within the targets, the named set or the sample. */
  lemma DispatchIsEligible(cfg: Config, job: Job, a: Action, id: Str)
    requires a.Dispatch? && !job.dispatched && job == NewJob(job.jobId, job.targets)
    requires multiset(a.shuffled) == multiset(Candidates(job, a.first))
    requires id in Dispatched(cfg, job, a).dispatchedIds
    ensures id in AuthedWorkers(a.first) && id in ConnectedIds(a.third)
    ensures job.targets.Some? ==> id in job.targets.value
    ensures job.targets.None? && cfg.round1Ids.Some? ==> id in cfg.round1Ids.value
  {
    hide Ready, AuthedWorkers, Within, HeldBack;
    var candidates := Candidates(job, a.first);
    var selected := Selected(cfg, job, candidates, a.shuffled);
    WithinIff(selected, ConnectedIds(a.third), id);
    if job.targets.Some? {
      WithinIff(AuthedWorkers(a.first), Members(job.targets.value), id);
    }
    if cfg.round1Ids.Some? {
      WithinIff(cfg.round1Ids.value, Members(candidates), id);
    }
    PermutedMembers(a.shuffled, candidates, id);
  }

  /** Nobody is both dispatched and held back, and a sample is no larger than configured. */
  lemma DispatchSplits(cfg: Config, job: Job, a: Action)
    requires a.Dispatch? && !job.dispatched && job == NewJob(job.jobId, job.targets) && Ready(cfg, job, a.first)
    ensures var job' := Dispatched(cfg, job, a);
            && (forall id :: id in job'.dispatchedIds ==> id !in job'.reserves)
            && (forall id :: id in job'.reserves && job.targets.Some? ==> id !in job.targets.value)
            && (forall n :: cfg.round1Size == Some(n) && (cfg.round1Ids.None? || job.targets.Some?) ==>
                  |job'.dispatchedIds| <= n)
  {
    hide Ready, AuthedWorkers, Within, Without, Candidates;
    var candidates := Candidates(job, a.first);
    var selected := Selected(cfg, job, candidates, a.shuffled);
    var job' := Dispatched(cfg, job, a);
    assert job'.dispatchedIds == Within(selected, ConnectedIds(a.third));
    WithinShorter(selected, ConnectedIds(a.third));
    var exclude := Members(selected) + if job.targets.Some? then Members(job.targets.value) else {};
    forall id
      ensures id in job'.dispatchedIds ==> id in selected
      ensures id in job'.reserves ==> id !in selected && (job.targets.Some? ==> id !in job.targets.value)
    {
      WithinIff(selected, ConnectedIds(a.third), id);
      WithinIff(AuthedWorkers(a.second), exclude, id);
    }
  }

  lemma {:induction false} WithinShorter(ids: seq<Str>, s: set<Str>)
    ensures |Within(ids, s)| <= |ids|
  {
    if ids != [] {
      WithinShorter(ids[..|ids| - 1], s);
    }
  }

  // ---------------------------------------------------------------- one step

  /** While a job stays pending it only grows: nothing dispatched, voted, claimed or proved is undone. */
  ghost predicate Grows(job: Job, job': Job) {
    && job'.jobId == job.jobId && job'.targets == job.targets
    && (job.dispatched ==> job'.dispatched) && (job.escalated ==> job'.escalated)
    && job.dispatchedIds <= job'.dispatchedIds && job.results <= job'.results && job.claimed <= job'.claimed
    && (job.zkAccept.Some? ==> job'.zkAccept == job.zkAccept)
  }

  /** A step keeps the pending job, growing it, or finishes it with exactly one outcome, or fills an
      empty slot; and it never rewrites an outcome. */
  lemma StepFinishesOnce(cfg: Config, s: Sys, a: Action)
    ensures var s' := Step(cfg, s, a);
            && s.finished <= s'.finished
            && (s'.serial == s.serial || s'.serial == s.serial + 1)
            && (s'.serial == s.serial && s.pending.Some? ==>
                  s'.pending.Some? && Grows(s.pending.value, s'.pending.value))
            && (s'.serial != s.serial ==>
                  && s.pending.Some? && s'.pending.None? && |s'.finished| == |s.finished| + 1
                  && var f := s'.finished[|s.finished|]; f.serial == Some(s.serial) && f.job == s.pending.value)
  {
    hide Ready, Candidates, Selected, HeldBack, Within, AllIn, Escalatable, Final, Admitted, Counts, Loggable,
         ClaimAdmitted, ProofDecision, AuthedIds, ConnectedIds;
  }

  /** A step adds at most one outcome and keeps the others. */
  lemma StepAddsOne(cfg: Config, s: Sys, a: Action)
    ensures var s' := Step(cfg, s, a); s.finished <= s'.finished && |s'.finished| <= |s.finished| + 1
  {
    hide AllIn, Escalatable, Final, Dispatched, LateJoin, Claimed, Admitted, Counts, Loggable, ClaimAdmitted,
         ProofDecision;
  }

  /** A job is finished only by a completion check, after dispatch, and only when its window has expired,
      a receipt was verified, or every dispatched worker has answered. */
  lemma FinishesOnlyWhenDue(cfg: Config, s: Sys, a: Action)
    requires Step(cfg, s, a).serial != s.serial
    ensures a.Check? && s.pending.Some? && s.pending.value.dispatched
    ensures a.expired || s.pending.value.zkAccept.Some?
            || forall id :: id in s.pending.value.dispatchedIds ==> HasVoted(s.pending.value, id)
  {
    hide Escalatable, Final, Ids;
    var job := s.pending.value;
    if AllIn(job) && job.zkAccept.None? {
      forall id | id in job.dispatchedIds
        ensures HasVoted(job, id)
      {
        VotedIff(job, id);
      }
    }
  }

  predicate HasVoted(job: Job, id: Str) {
    exists i :: 0 <= i < |job.results| && job.results[i].workerId == id
  }

  lemma VotedIff(job: Job, id: Str)
    ensures HasVoted(job, id) <==> id in Ids(job.results)
  {
    if HasVoted(job, id) {
      var i :| 0 <= i < |job.results| && job.results[i].workerId == id;
      assert Ids(job.results)[i] == id;
    }
    if id in Ids(job.results) {
      var i :| 0 <= i < |job.results| && Ids(job.results)[i] == id;
      assert job.results[i].workerId == id;
    }
  }

  /** The only way into the results of a pending job: one signed vote, over an authenticated connection
      under its own id, from a dispatched worker that has not voted before. */
  lemma ResultsComeFromVotes(cfg: Config, s: Sys, a: Action)
    requires s.pending.Some? && Step(cfg, s, a).pending.Some?
    requires Step(cfg, s, a).pending.value.results != s.pending.value.results
    ensures a.Vote?
    ensures Step(cfg, s, a).pending.value == s.pending.value.(results := s.pending.value.results + [a.result])
    ensures a.signed && a.conn.Some? && a.conn.value.authed && a.conn.value.workerId == a.result.workerId
    ensures a.result.jobId == s.pending.value.jobId && a.result.workerId in s.pending.value.dispatchedIds
    ensures !HasVoted(s.pending.value, a.result.workerId)
  {
    hide Escalatable, Final, AllIn, Ready, Selected, Candidates, HeldBack, Loggable;
    var job := s.pending.value;
    if a.Vote? {
      VotedIff(job, a.result.workerId);
    }
  }

  ghost function At(cfg: Config, acts: seq<Action>, i: nat): Sys
    requires i <= |acts|
  {
    After(cfg, acts[..i])
  }

  lemma AtStep(cfg: Config, acts: seq<Action>, i: nat)
    requires i < |acts|
    ensures At(cfg, acts, i + 1) == Step(cfg, At(cfg, acts, i), acts[i])
  {
    hide Step;
    assert acts[..i + 1][..i] == acts[..i];
  }

  lemma GrowsOn(a: Job, b: Job, c: Job)
    requires Grows(a, b) && Grows(b, c)
    ensures Grows(a, c)
  {
  }

  /** From any point of a run to any later one: outcomes are only added, and a job that has not been
      finished in between is still pending and has only grown. */
  lemma {:induction false} RunsOnlyAdd(cfg: Config, acts: seq<Action>, i: nat, j: nat)
    requires i <= j <= |acts|
    ensures var (s, t) := (At(cfg, acts, i), At(cfg, acts, j));
            && s.finished <= t.finished && s.serial <= t.serial
            && (s.serial == t.serial && s.pending.Some? ==> t.pending.Some? && Grows(s.pending.value, t.pending.value))
    decreases j
  {
    hide Step, After;
    if i < j {
      RunsOnlyAdd(cfg, acts, i, j - 1);
      AtStep(cfg, acts, j - 1);
      hide At, Grows;
      var s, r := At(cfg, acts, i), At(cfg, acts, j - 1);
      StepFinishesOnce(cfg, r, acts[j - 1]);
      var t := At(cfg, acts, j);
      if s.serial == t.serial && s.pending.Some? {
        GrowsOn(s.pending.value, r.pending.value, t.pending.value);
      }
    }
  }

  // ---------------------------------------------------------------- bounded completion

  /** Action i is a completion check that escalates the pending job. */
  ghost predicate EscalatesAt(cfg: Config, acts: seq<Action>, i: nat) {
    && i < |acts| && acts[i].Check?
    && var s := At(cfg, acts, i);
       && !s.down && s.pending.Some? && s.pending.value.dispatched
       && AllIn(s.pending.value) && Escalatable(s.pending.value)
  }

  /** Action i is a completion check with the window expired that leaves the dispatched job pending. */
  ghost predicate LingersAt(cfg: Config, acts: seq<Action>, i: nat) {
    && i < |acts| && acts[i].Check? && acts[i].expired
    && var (s, t) := (At(cfg, acts, i), At(cfg, acts, i + 1));
       !t.down && s.pending.Some? && s.pending.value.dispatched && t.serial == s.serial
  }

  lemma EscalationMarks(cfg: Config, acts: seq<Action>, i: nat)
    requires EscalatesAt(cfg, acts, i)
    ensures var (s, t) := (At(cfg, acts, i), At(cfg, acts, i + 1));
            t.serial == s.serial && t.pending.Some? && t.pending.value.escalated
  {
    hide After, AllIn, Escalatable, Final;
    AtStep(cfg, acts, i);
  }

  /** In every run a job escalates at most once. */
  lemma EscalatesAtMostOnce(cfg: Config, acts: seq<Action>, i: nat, j: nat)
    requires i < j < |acts| && EscalatesAt(cfg, acts, i)
    requires At(cfg, acts, i).serial == At(cfg, acts, j).serial
    ensures !EscalatesAt(cfg, acts, j)
  {
    EscalationMarks(cfg, acts, i);
    RunsOnlyAdd(cfg, acts, i + 1, j);
    RunsAreSafe(cfg, acts[..j]);
    hide After, AllIn, Step;
  }

  /** Only an escalation lets a job outlive an expired window. */
  lemma LingeringIsEscalation(cfg: Config, acts: seq<Action>, i: nat)
    requires LingersAt(cfg, acts, i)
    ensures EscalatesAt(cfg, acts, i)
  {
    hide After, AllIn, Escalatable, Final;
    AtStep(cfg, acts, i);
  }

  /** In every run at most one completion check with an expired window leaves a job pending: the second
      such check finishes it, or the process is down (a replay that panicked, or an unloggable vote). */
  lemma SecondExpiryFinishes(cfg: Config, acts: seq<Action>, i: nat, j: nat)
    requires i < j < |acts| && acts[i].Check? && acts[i].expired && acts[j].Check? && acts[j].expired
    requires At(cfg, acts, i).pending.Some? && At(cfg, acts, i).pending.value.dispatched
    ensures At(cfg, acts, j + 1).down || At(cfg, acts, j + 1).serial > At(cfg, acts, i).serial
  {
    RunsOnlyAdd(cfg, acts, i, i + 1);
    RunsOnlyAdd(cfg, acts, i, j);
    RunsOnlyAdd(cfg, acts, i + 1, j);
    RunsOnlyAdd(cfg, acts, j, j + 1);
    if !At(cfg, acts, j + 1).down && At(cfg, acts, j + 1).serial == At(cfg, acts, i).serial {
      StaysUp(cfg, acts, i + 1, j + 1);
      LingeringIsEscalation(cfg, acts, i);
      LingeringIsEscalation(cfg, acts, j);
      EscalatesAtMostOnce(cfg, acts, i, j);
    }
  }

  lemma {:induction false} StaysUp(cfg: Config, acts: seq<Action>, i: nat, j: nat)
    requires i <= j <= |acts| && !At(cfg, acts, j).down
    ensures !At(cfg, acts, i).down
    decreases j
  {
    if i < j {
      AtStep(cfg, acts, j - 1);
      DownStays(cfg, At(cfg, acts, j - 1), acts[j - 1]);
      hide After, Step;
      StaysUp(cfg, acts, i, j - 1);
    }
  }

  lemma DownStays(cfg: Config, s: Sys, a: Action)
    ensures s.down ==> Step(cfg, s, a) == s
  {
  }

  // ---------------------------------------------------------------- conservation of jobs

  /** How many times the empty slot was filled during a run. */
  ghost function Admissions(cfg: Config, acts: seq<Action>): nat {
    if acts == [] then 0
    else
      var n := |acts| - 1;
      var s := After(cfg, acts[..n]);
      Admissions(cfg, acts[..n]) + if acts[n].Queue? && !s.down && s.pending.None? then 1 else 0
  }

  /** Every job taken from the queue is pending or has exactly one outcome. */
  lemma {:induction false} JobsAreConserved(cfg: Config, acts: seq<Action>)
    ensures var s := After(cfg, acts);
            && Admissions(cfg, acts) == |Serials(s.finished)| + (if s.pending.Some? then 1 else 0)
            && forall k :: 0 <= k < |Serials(s.finished)| ==> Serials(s.finished)[k] == k
  {
    RunsAreSafe(cfg, acts);
    if acts != [] {
      var n := |acts| - 1;
      JobsAreConserved(cfg, acts[..n]);
      RunsAreSafe(cfg, acts[..n]);
      hide JobInv, Sound, Serials;
      var s, s' := After(cfg, acts[..n]), After(cfg, acts);
      StepFinishesOnce(cfg, s, acts[n]);
      if s.pending.None? {
        SlotFills(cfg, s, acts[n]);
      }
      hide Step, Grows;
    }
  }

  lemma SlotFills(cfg: Config, s: Sys, a: Action)
    requires s.pending.None?
    ensures Step(cfg, s, a).pending.Some? <==> a.Queue? && !s.down
    ensures Step(cfg, s, a).serial == s.serial
  {
  }

  // ---------------------------------------------------------------- receipts

  /** Once a receipt is verified the job can end in one way only, whatever happens in between. */
  lemma ReceiptIsFinal(cfg: Config, acts: seq<Action>, i: nat, j: nat)
    requires i <= j < |acts|
    requires var s := At(cfg, acts, i); s.pending.Some? && s.pending.value.zkAccept.Some?
    requires At(cfg, acts, j).serial == At(cfg, acts, i).serial < At(cfg, acts, j + 1).serial
    ensures var s := At(cfg, acts, i);
            var t := At(cfg, acts, j + 1);
            && |t.finished| > 0
            && t.finished[|t.finished| - 1].via == ByReceipt
            && Some(t.finished[|t.finished| - 1].decision) == s.pending.value.zkAccept
  {
    RunsOnlyAdd(cfg, acts, i, j);
    AtStep(cfg, acts, j);
    var r := At(cfg, acts, j);
    hide After, AllIn, Escalatable, At;
    StepFinishesOnce(cfg, r, acts[j]);
    assert acts[j].Check?;
  }

  /** A verified receipt does not stop an escalation that is still owed: the first check dispatches the
      reserves, and only the next one finishes on the receipt. */
  lemma EscalationDelaysReceipt(s: Sys, a: Action, b: Action)
    requires s.pending.Some? && a.Check? && b.Check?
    requires var job := s.pending.value; job.dispatched && job.zkAccept.Some? && Escalatable(job)
    ensures var s1 := Complete(s, a);
            s1.pending == Some(Escalated(s.pending.value, a.conns)) && s1.finished == s.finished
    ensures var s2 := Complete(Complete(s, a), b);
            && s2.pending.None? && |s2.finished| == |s.finished| + 1
            && Some(s2.finished[|s.finished|].decision) == s.pending.value.zkAccept
  {
    hide Within, Decides;
  }

  // ---------------------------------------------------------------- money

  /** "network-run". */
  function RunLabel(): Str { [0x6e, 0x65, 0x74, 0x77, 0x6f, 0x72, 0x6b, 0x2d, 0x72, 0x75, 0x6e] }

  function EntryOf(f: Finished): Entry {
    Entry(f.job.jobId, RunLabel(), Slashing(f.decision, f.job.results))
  }

  /** The ledger history of a run. */
  function Entries(fs: seq<Finished>): (es: seq<Entry>)
    ensures |es| == |fs|
  {
    seq<Entry>(|fs|, i requires 0 <= i < |fs| => EntryOf(fs[i]))
  }

  predicate Rewarded(f: Finished, id: Str) {
    f.decision.Accept? && id in Ids(f.job.results) && id in f.decision.agreed
  }

  predicate Burned(f: Finished, id: Str) {
    f.decision.Accept? && id in Ids(f.job.results) && id !in f.decision.agreed
  }

  function Rewards(fs: seq<Finished>, id: Str): nat {
    if fs == [] then 0
    else Rewards(fs[..|fs| - 1], id) + if Rewarded(fs[|fs| - 1], id) then 1 else 0
  }

  function Burns(fs: seq<Finished>, id: Str): nat {
    if fs == [] then 0
    else Burns(fs[..|fs| - 1], id) + if Burned(fs[|fs| - 1], id) then 1 else 0
  }

  /** A balance is ten units per vindication less a hundred per conviction. */
  lemma {:induction false} BalanceCountsVerdicts(fs: seq<Finished>, id: Str)
    requires forall i :: 0 <= i < |fs| ==> Sound(fs[i])
    ensures Total(Entries(fs), id) == 10 * Rewards(fs, id) - 100 * Burns(fs, id)
  {
    hide Slashing, Moved, Sound, Rewarded, Burned, EntryOf;
    if fs != [] {
      var n := |fs| - 1;
      assert Entries(fs)[..n] == Entries(fs[..n]);
      BalanceCountsVerdicts(fs[..n], id);
      OneVerdict(fs[n], id);
    }
  }

  lemma {:induction false} OneVerdict(f: Finished, id: Str)
    requires Sound(f)
    ensures Moved(EntryOf(f).deltas, id) == (if Rewarded(f, id) then 10 else 0) - (if Burned(f, id) then 100 else 0)
  {
    hide Slashing, Moved, Ids, Committed, MajorityOf;
    if f.decision.Accept? {
      AcceptanceMoves(f.decision, f.job.results, id);
    } else {
      RejectionMovesNothing(f.decision, f.job.results, id);
    }
  }

  /** Over any run that starts from any valid ledger file and loses no load or save, what an id owns is what
      it owned before plus ten per vindication less a hundred per conviction, wrapped to 64 bits; and it is
      exactly that if and only if that fits. */
  lemma {:induction false} RunBalances(cfg: Config, acts: seq<Action>, file: File, ios: seq<FileIO>, id: Str)
    requires FileValid(file) && |ios| == |After(cfg, acts).finished|
    requires AllKept(file, ios, Entries(After(cfg, acts).finished))
    ensures var fs := After(cfg, acts).finished;
            var sum := Total(History(file), id) + 10 * Rewards(fs, id) - 100 * Burns(fs, id);
            && BalanceOf(Persisted(file, ios, Entries(fs)), id) == ToI64(sum)
            && (BalanceOf(Persisted(file, ios, Entries(fs)), id) == sum <==>
                -0x8000_0000_0000_0000 <= sum < 0x8000_0000_0000_0000)
  {
    RunsAreSafe(cfg, acts);
    var fs := After(cfg, acts).finished;
    hide After, Total, Sound, Slashing, ToI64, BalanceOf, FileValid, AllKept, Persisted, Entries;
    KeptBalances(file, ios, Entries(fs), id);
    BalanceCountsVerdicts(fs, id);
    ExactIffFits(Total(History(file), id) + 10 * Rewards(fs, id) - 100 * Burns(fs, id));
  }

  /** It always fits when the earlier history was written by this coordinator and the two have fewer than
      2^63 / 100 entries together. */
  lemma {:induction false} RunBalancesAreExact(cfg: Config, acts: seq<Action>, file: File, ios: seq<FileIO>, id: Str)
    requires FileValid(file) && |ios| == |After(cfg, acts).finished|
    requires AllKept(file, ios, Entries(After(cfg, acts).finished))
    requires forall i :: 0 <= i < |History(file)| ==>
               DistinctNames(History(file)[i].deltas) && Small(History(file)[i].deltas, 100)
    requires 100 * (|History(file)| + |After(cfg, acts).finished|) < 0x8000_0000_0000_0000
    ensures var fs := After(cfg, acts).finished;
            BalanceOf(Persisted(file, ios, Entries(fs)), id) ==
            Total(History(file), id) + 10 * Rewards(fs, id) - 100 * Burns(fs, id)
  {
    RunsAreSafe(cfg, acts);
    RunBalances(cfg, acts, file, ios, id);
    hide After, Sound, Slashing, ToI64, BalanceOf, FileValid, AllKept, DistinctNames, Small, Persisted, Total, Entries;
    SumFits(History(file), After(cfg, acts).finished, id);
  }

  lemma {:induction false} SumFits(h: seq<Entry>, fs: seq<Finished>, id: Str)
    requires forall i :: 0 <= i < |h| ==> DistinctNames(h[i].deltas) && Small(h[i].deltas, 100)
    requires forall i :: 0 <= i < |fs| ==> Sound(fs[i])
    requires 100 * (|h| + |fs|) < 0x8000_0000_0000_0000
    ensures var sum := Total(h, id) + 10 * Rewards(fs, id) - 100 * Burns(fs, id);
            -0x8000_0000_0000_0000 <= sum < 0x8000_0000_0000_0000
  {
    hide Sound, Slashing, ToI64, DistinctNames, Small, Total;
    var all := h + Entries(fs);
    forall i | 0 <= i < |all|
      ensures DistinctNames(all[i].deltas) && Small(all[i].deltas, 100)
    {
      if i >= |h| {
        var f := fs[i - |h|];
        SoundIsDistinct(f);
        SlashingIsSmall(f.decision, f.job.results);
        assert all[i] == EntryOf(f);
      }
    }
    TotalIsBounded(all, id, 100);
    TotalAppends(h, Entries(fs), id);
    BalanceCountsVerdicts(fs, id);
  }

  lemma SoundIsDistinct(f: Finished)
    requires Sound(f)
    ensures Distinct(Ids(f.job.results))
  {
  }

  /** Under a judge, in any run, a responder is paid exactly if its committed chain is the judge's
      digest, and burned otherwise. */
  lemma {:induction false} JudgedJobsPayCommitments(cfg: Config, acts: seq<Action>, k: nat, i: nat)
    requires k < |After(cfg, acts).finished|
    requires var f := After(cfg, acts).finished[k];
             (f.via == ByReplay || f.via == ByZkJudge) && f.decision.Accept? && i < |f.job.results|
    ensures var f := After(cfg, acts).finished[k];
            Moved(EntryOf(f).deltas, f.job.results[i].workerId) ==
            if f.job.results[i].chunkHashes == [f.decision.hash] then REWARD else BURN
  {
    RunsAreSafe(cfg, acts);
    var f := After(cfg, acts).finished[k];
    hide After, Slashing, Moved, Ids, Committed;
    assert Sound(f);
    PaidIffCommitted(f.decision, f.job.results, i);
  }

  /** Under the quorum, in any run, a responder is paid exactly if it halted with the accepted hash. */
  lemma {:induction false} QuorumPaysItsVoters(cfg: Config, acts: seq<Action>, k: nat, i: nat)
    requires k < |After(cfg, acts).finished|
    requires var f := After(cfg, acts).finished[k];
             f.via == ByQuorum && f.decision.Accept? && i < |f.job.results|
    ensures var f := After(cfg, acts).finished[k];
            var r := f.job.results[i];
            Moved(EntryOf(f).deltas, r.workerId) ==
            if r.status == HaltedStatus() && r.resultHash == f.decision.hash then REWARD else BURN
  {
    RunsAreSafe(cfg, acts);
    var f := After(cfg, acts).finished[k];
    hide After, Slashing, Moved, Voting, HaltedStatus;
    assert Sound(f);
    var rs := f.job.results;
    assert Ids(rs)[i] == rs[i].workerId;
    AcceptanceMoves(f.decision, rs, rs[i].workerId);
    VoterIff(rs, f.decision.hash, i);
  }

  /** On a receipt, in any run, the one claimant is paid if it responded and every other responder is burned,
      whatever it computed. */
  lemma {:induction false} ReceiptPaysItsClaimant(cfg: Config, acts: seq<Action>, k: nat, i: nat)
    requires k < |After(cfg, acts).finished|
    requires var f := After(cfg, acts).finished[k]; f.via == ByReceipt && i < |f.job.results|
    ensures var f := After(cfg, acts).finished[k];
            && f.decision.Accept? && |f.decision.agreed| == 1 && f.decision.agreed[0] in f.job.dispatchedIds
            && Moved(EntryOf(f).deltas, f.job.results[i].workerId) ==
               if f.job.results[i].workerId == f.decision.agreed[0] then REWARD else BURN
  {
    RunsAreSafe(cfg, acts);
    hide After, Sound, EntryOf, Moved;
    ReceiptMoves(After(cfg, acts).finished[k], i);
  }

  lemma ReceiptMoves(f: Finished, i: nat)
    requires Sound(f) && f.via == ByReceipt && i < |f.job.results|
    ensures f.decision.Accept? && |f.decision.agreed| == 1 && f.decision.agreed[0] in f.job.dispatchedIds
    ensures Moved(EntryOf(f).deltas, f.job.results[i].workerId) ==
            if f.job.results[i].workerId == f.decision.agreed[0] then REWARD else BURN
  {
    hide Slashing, Moved, Decided, AllIn, Escalatable, Distinct, Among;
    var id := f.job.results[i].workerId;
    assert Ids(f.job.results)[i] == id;
    AcceptanceMoves(f.decision, f.job.results, id);
    assert f.decision.agreed == [f.decision.agreed[0]];
  }

  /** So a receipt burns only proven deviation if and only if no responder but the claimant committed the
      receipt's own hash. */
  lemma {:induction false} ReceiptBurnsOnlyDeviantsIff(cfg: Config, acts: seq<Action>, k: nat)
    requires k < |After(cfg, acts).finished| && After(cfg, acts).finished[k].via == ByReceipt
    ensures var f := After(cfg, acts).finished[k];
            f.decision.Accept? && |f.decision.agreed| == 1
    ensures var f := After(cfg, acts).finished[k];
            var rs := f.job.results;
            (forall i :: 0 <= i < |rs| && Commits(rs[i], f.decision.hash) ==>
               Moved(EntryOf(f).deltas, rs[i].workerId) == REWARD) <==>
            (forall i :: 0 <= i < |rs| && Commits(rs[i], f.decision.hash) ==> rs[i].workerId == f.decision.agreed[0])
  {
    RunsAreSafe(cfg, acts);
    var f := After(cfg, acts).finished[k];
    assert Sound(f);
    hide After, EntryOf, Moved, Commits, Sound;
    forall i | 0 <= i < |f.job.results|
      ensures Moved(EntryOf(f).deltas, f.job.results[i].workerId) ==
              if f.job.results[i].workerId == f.decision.agreed[0] then REWARD else BURN
    {
      ReceiptPaysItsClaimant(cfg, acts, k, i);
    }
  }

  // ---------------------------------------------------------------- workers dispatched twice

  lemma {:induction false} MembersCount(ids: seq<Str>)
    ensures |Members(ids)| <= |ids|
    ensures |Members(ids)| == |ids| <==> Distinct(ids)
  {
    if ids != [] {
      var n := |ids| - 1;
      MembersCount(ids[..n]);
      assert ids == ids[..n] + [ids[n]];
      assert Members(ids) == Members(ids[..n]) + {ids[n]};
      assert forall i :: 0 <= i < n ==> ids[..n][i] == ids[i];
      assert Distinct(ids) <==> Distinct(ids[..n]) && ids[n] !in ids[..n];
    }
  }

  /** A hash behind which a majority of the distinct dispatched workers stand is accepted if and only if they
      are a majority of the dispatched list with its repetitions; they always are when it has none. */
  lemma {:induction false} WorkerMajorityAcceptedIff(job: Job, d: Decision, h: Str)
    requires Distinct(Ids(job.results)) && Among(Ids(job.results), job.dispatchedIds)
    requires Decides(job.results, |job.dispatchedIds|, d)
    requires OneChain(Voting(job.results, h)) && 2 * |Voting(job.results, h)| > |Members(job.dispatchedIds)|
    ensures (d.Accept? && d.hash == h) <==> 2 * |Voting(job.results, h)| > |job.dispatchedIds|
    ensures Distinct(job.dispatchedIds) ==> d.Accept? && d.hash == h
  {
    hide Voting, FirstVotes, Ids, OneChain, Distinct, Decides;
    PoolIsDispatched(job);
    DistinctAreFirst(job.results);
    AcceptIff(job.results, |job.dispatchedIds|, d, h);
    MembersCount(job.dispatchedIds);
  }

  lemma {:induction false} VoterIff(rs: seq<WorkerResult>, h: Str, i: nat)
    requires Distinct(Ids(rs)) && i < |rs|
    ensures rs[i].workerId in Ids(Voting(rs, h)) <==> rs[i].status == HaltedStatus() && rs[i].resultHash == h
  {
    hide Voting, HaltedStatus;
    var group := Voting(rs, h);
    VotingMembers(rs, h, rs[i]);
    if rs[i] in group {
      var j :| 0 <= j < |group| && group[j] == rs[i];
      assert Ids(group)[j] == rs[i].workerId;
    }
    if rs[i].workerId in Ids(group) {
      var j :| 0 <= j < |group| && Ids(group)[j] == rs[i].workerId;
      VotingMembers(rs, h, group[j]);
      var k :| 0 <= k < |rs| && rs[k] == group[j];
      assert Ids(rs)[k] == Ids(rs)[i];
    }
  }
}
