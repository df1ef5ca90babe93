/** The quorum decision over worker results, against a counting specification. */
module Quorum {
  import opened Words
  import opened JobFormat

  /** "halted". */
  function HaltedStatus(): Str { [0x68, 0x61, 0x6c, 0x74, 0x65, 0x64] }

  datatype Reason = ChainDispute | JobBroken | NoMajority | JudgmentFailed | NotClean | ProvingFailed

  datatype Decision =
    | Accept(hash: Str, outputHex: Option<Str>, agreed: seq<Str>, zk: bool)
    | Escalate
    | Reject(reason: Reason)

  // ---------------------------------------------------------------- the counting specification

  function Ids(rs: seq<WorkerResult>): (ids: seq<Str>)
    ensures |ids| == |rs|
  {
    seq(|rs|, i requires 0 <= i < |rs| => rs[i].workerId)
  }

  /** The first result of every worker, in order of arrival. */
  function FirstVotes(rs: seq<WorkerResult>): seq<WorkerResult> {
    if rs == [] then []
    else
      var n := |rs| - 1;
      var front := FirstVotes(rs[..n]);
      if rs[n].workerId in Ids(rs[..n]) then front else front + [rs[n]]
  }

  /** Results that halted with a given hash, in order. */
  function Voting(rs: seq<WorkerResult>, h: Str): seq<WorkerResult> {
    if rs == [] then []
    else
      var n := |rs| - 1;
      var front := Voting(rs[..n], h);
      if rs[n].status == HaltedStatus() && rs[n].resultHash == h then front + [rs[n]] else front
  }

  function HaltedOnly(rs: seq<WorkerResult>): seq<WorkerResult> {
    if rs == [] then []
    else
      var n := |rs| - 1;
      var front := HaltedOnly(rs[..n]);
      if rs[n].status == HaltedStatus() then front + [rs[n]] else front
  }

  function Pool(votes: nat, dispatched: nat): nat {
    if dispatched >= votes then dispatched else votes
  }

  function Threshold(pool: nat): nat { pool / 2 + 1 }

  predicate OneChain(group: seq<WorkerResult>) {
    forall i :: 0 <= i < |group| ==> group[i].chunkHashes == group[0].chunkHashes
  }

  /** A hash with a strict majority of the pool among first votes. */
  predicate Wins(votes: seq<WorkerResult>, dispatched: nat, h: Str) {
    |Voting(votes, h)| >= Threshold(Pool(|votes|, dispatched))
  }

  /** The answer when h has the majority: accepted only with one common chain. */
  function WinnerDecision(votes: seq<WorkerResult>, h: Str): Decision
    requires Voting(votes, h) != []
  {
    var group := Voting(votes, h);
    if OneChain(group) then Accept(h, group[0].outputHex, Ids(group), false) else Reject(ChainDispute)
  }

  function LoserDecision(votes: seq<WorkerResult>, dispatched: nat): Decision {
    var pool := Pool(|votes|, dispatched);
    if |votes| - |HaltedOnly(votes)| >= Threshold(pool) then Reject(JobBroken)
    else if pool >= 5 then Reject(NoMajority)
    else Escalate
  }

  /** What `decide` answers, by counting. */
  ghost predicate Decides(rs: seq<WorkerResult>, dispatched: nat, d: Decision) {
    var votes := FirstVotes(rs);
    && (forall h :: Wins(votes, dispatched, h) ==> d == WinnerDecision(votes, h))
    && ((forall h :: !Wins(votes, dispatched, h)) ==> d == LoserDecision(votes, dispatched))
  }

  /** The decision itself. */
  ghost function Decided(rs: seq<WorkerResult>, dispatched: nat): (d: Decision)
    ensures Decides(rs, dispatched, d)
  {
    var votes := FirstVotes(rs);
    if w :| Wins(votes, dispatched, w) then
      assert forall h :: Wins(votes, dispatched, h) ==> h == w by {
        forall h | Wins(votes, dispatched, h)
          ensures h == w
        {
          WinnerIsUnique(votes, dispatched, h, w);
        }
      }
      WinnerDecision(votes, w)
    else LoserDecision(votes, dispatched)
  }

  // ---------------------------------------------------------------- counting lemmas

  lemma {:induction false} GroupsAreDisjoint(rs: seq<WorkerResult>, g: Str, h: Str)
    requires g != h
    ensures |Voting(rs, g)| + |Voting(rs, h)| <= |HaltedOnly(rs)| <= |rs|
  {
    hide HaltedStatus;
    if rs != [] {
      GroupsAreDisjoint(rs[..|rs| - 1], g, h);
    }
  }

  /** Two hashes cannot both hold a strict majority of the pool. */
  lemma WinnerIsUnique(votes: seq<WorkerResult>, dispatched: nat, g: Str, h: Str)
    requires Wins(votes, dispatched, g) && Wins(votes, dispatched, h)
    ensures g == h
  {
    if g != h {
      GroupsAreDisjoint(votes, g, h);
    }
  }

  /** The specification always has an answer, and only one. */
  lemma DecidesIsFunctional(rs: seq<WorkerResult>, dispatched: nat, d: Decision, d': Decision)
    requires Decides(rs, dispatched, d) && Decides(rs, dispatched, d')
    ensures d == d'
  {
    hide WinnerDecision, LoserDecision;
    var votes := FirstVotes(rs);
    if h :| Wins(votes, dispatched, h) {
      assert d == WinnerDecision(votes, h);
    }
  }

  /** Accepting h means exactly: a strict majority of the pool reported h as its first vote, halted,
      with one common chain. */
  lemma {:induction false} AcceptIff(rs: seq<WorkerResult>, dispatched: nat, d: Decision, h: Str)
    requires Decides(rs, dispatched, d)
    ensures (d.Accept? && d.hash == h)
        <==> Wins(FirstVotes(rs), dispatched, h) && OneChain(Voting(FirstVotes(rs), h))
    ensures d.Accept? && d.hash == h ==> d.agreed == Ids(Voting(FirstVotes(rs), h))
  {
    hide FirstVotes, Voting;
    var votes := FirstVotes(rs);
    if d.Accept? {
      if g :| Wins(votes, dispatched, g) {
        assert d == WinnerDecision(votes, g);
      }
    }
  }

  // ---------------------------------------------------------------- every decision, by counting

  /** A text of the protocol as its bytes. */
  function Ascii(s: string): Str
    requires forall i :: 0 <= i < |s| ==> s[i] < 128 as char
  {
    seq<byte>(|s|, i requires 0 <= i < |s| => s[i] as int)
  }

  predicate HaltedWith(r: WorkerResult, h: Str) { r.status == Ascii("halted") && r.resultHash == h }

  /** How many of the votes halted with h, and how many did not halt. */
  function HashTally(votes: seq<WorkerResult>, h: Str): nat {
    if votes == [] then 0 else (if HaltedWith(votes[0], h) then 1 else 0) + HashTally(votes[1..], h)
  }

  function UnhaltedTally(votes: seq<WorkerResult>): nat {
    if votes == [] then 0 else (if votes[0].status != Ascii("halted") then 1 else 0) + UnhaltedTally(votes[1..])
  }

  /** More than half of the pool: of the workers dispatched to, or of the votes should they be more. */
  predicate OverHalf(tally: nat, votes: nat, dispatched: nat) {
    2 * tally > votes && 2 * tally > dispatched
  }

  ghost predicate HashWins(votes: seq<WorkerResult>, dispatched: nat, h: Str) {
    OverHalf(HashTally(votes, h), |votes|, dispatched)
  }

  /** The voters for h committed to different chains. */
  ghost predicate Disputed(votes: seq<WorkerResult>, h: Str) {
    exists r, s :: r in votes && s in votes && HaltedWith(r, h) && HaltedWith(s, h) && r.chunkHashes != s.chunkHashes
  }

  lemma {:induction false} TalliesAppend(votes: seq<WorkerResult>, r: WorkerResult, h: Str)
    ensures HashTally(votes + [r], h) == HashTally(votes, h) + if HaltedWith(r, h) then 1 else 0
    ensures UnhaltedTally(votes + [r]) == UnhaltedTally(votes) + if r.status != Ascii("halted") then 1 else 0
  {
    hide Ascii, HaltedWith;
    if votes == [] {
      assert votes + [r] == [r] && [r][1..] == [];
    } else {
      assert (votes + [r])[1..] == votes[1..] + [r];
      TalliesAppend(votes[1..], r, h);
    }
  }

  lemma HaltedIsAscii()
    ensures HaltedStatus() == Ascii("halted")
  {
  }

  lemma {:induction false} TalliesCount(votes: seq<WorkerResult>, h: Str)
    ensures HashTally(votes, h) == |Voting(votes, h)|
    ensures UnhaltedTally(votes) == |votes| - |HaltedOnly(votes)|
  {
    hide Ascii, HaltedStatus, HashTally, UnhaltedTally;
    HaltedIsAscii();
    if votes != [] {
      var n := |votes| - 1;
      TalliesCount(votes[..n], h);
      assert votes == votes[..n] + [votes[n]];
      TalliesAppend(votes[..n], votes[n], h);
    } else {
      EmptyTallies(h);
    }
  }

  lemma {:induction false} EmptyTallies(h: Str)
    ensures HashTally([], h) == 0 && UnhaltedTally([]) == 0
  {
  }

  lemma WinsIff(votes: seq<WorkerResult>, dispatched: nat, h: Str)
    ensures HashWins(votes, dispatched, h) <==> Wins(votes, dispatched, h)
  {
    hide Voting, HaltedOnly;
    TalliesCount(votes, h);
  }

  lemma {:induction false} DisputedIff(votes: seq<WorkerResult>, h: Str)
    ensures Disputed(votes, h) <==> !OneChain(Voting(votes, h))
  {
    hide Voting, Ascii, HaltedStatus;
    HaltedIsAscii();
    var group := Voting(votes, h);
    forall r
      ensures r in group <==> r in votes && HaltedWith(r, h)
    {
      VotingMembers(votes, h, r);
    }
    if !OneChain(group) {
      var i :| 0 <= i < |group| && group[i].chunkHashes != group[0].chunkHashes;
      assert group[i] in group && group[0] in group;
    }
    if Disputed(votes, h) {
      var r, s :| r in votes && s in votes && HaltedWith(r, h) && HaltedWith(s, h) && r.chunkHashes != s.chunkHashes;
      assert r in group && s in group;
    }
  }

  /** Each answer exactly when the counts say so. With no hash over half the pool: broken if over half did not halt,
      else no majority from five workers on and escalation below; with one, acceptance unless its voters'
      chains differ. */
  lemma {:induction false} DecisionIff(rs: seq<WorkerResult>, dispatched: nat, d: Decision)
    requires Decides(rs, dispatched, d)
    ensures var votes := FirstVotes(rs);
            var won := exists h :: HashWins(votes, dispatched, h);
            var broken := OverHalf(UnhaltedTally(votes), |votes|, dispatched);
            && (d == Reject(JobBroken) <==> !won && broken)
            && (d == Reject(NoMajority) <==> !won && !broken && (|votes| >= 5 || dispatched >= 5))
            && (d == Escalate <==> !won && !broken && |votes| < 5 && dispatched < 5)
            && (d == Reject(ChainDispute) <==> exists h :: HashWins(votes, dispatched, h) && Disputed(votes, h))
            && (d.Accept? <==> exists h :: HashWins(votes, dispatched, h) && !Disputed(votes, h))
            && (d.Accept? ==> HashWins(votes, dispatched, d.hash) && !d.zk)
  {
    hide Voting, HaltedOnly, FirstVotes, HashTally, UnhaltedTally, OneChain, Disputed, Ids;
    var votes := FirstVotes(rs);
    TalliesCount(votes, []);
    forall h
      ensures HashWins(votes, dispatched, h) <==> Wins(votes, dispatched, h)
      ensures Disputed(votes, h) <==> !OneChain(Voting(votes, h))
    {
      WinsIff(votes, dispatched, h);
      DisputedIff(votes, h);
    }
    if w :| Wins(votes, dispatched, w) {
      assert d == WinnerDecision(votes, w);
      forall h | Wins(votes, dispatched, h)
        ensures h == w
      {
        WinnerIsUnique(votes, dispatched, h, w);
      }
    }
  }

  // ---------------------------------------------------------------- repeats, order, growth

  lemma IdsAppend(rs: seq<WorkerResult>, ts: seq<WorkerResult>)
    ensures Ids(rs + ts) == Ids(rs) + Ids(ts)
  {
  }

  /** A repeat from a known worker, whenever it arrives, changes nothing. */
  lemma {:induction false} RepeatIsIgnored(rs: seq<WorkerResult>, r: WorkerResult, later: seq<WorkerResult>)
    requires r.workerId in Ids(rs)
    ensures FirstVotes(rs + [r] + later) == FirstVotes(rs + later)
    decreases |later|
  {
    if later == [] {
      assert (rs + [r] + later)[..|rs|] == rs && rs + later == rs;
      assert rs + [r] + later == rs + [r];
    } else {
      var n := |later| - 1;
      var front := later[..n];
      RepeatIsIgnored(rs, r, front);
      assert (rs + [r] + later)[..|rs| + 1 + n] == rs + [r] + front;
      assert (rs + later)[..|rs| + n] == rs + front;
      IdsAppend(rs + [r], front);
      IdsAppend(rs, [r]);
      IdsAppend(rs, front);
      assert Ids([r]) == [r.workerId];
      assert later[n].workerId in Ids(rs + [r] + front) <==> later[n].workerId in Ids(rs + front);
    }
  }

  lemma RepeatKeepsDecision(rs: seq<WorkerResult>, r: WorkerResult, later: seq<WorkerResult>, dispatched: nat,
                            d: Decision)
    requires r.workerId in Ids(rs)
    ensures Decides(rs + [r] + later, dispatched, d) <==> Decides(rs + later, dispatched, d)
  {
    RepeatIsIgnored(rs, r, later);
  }

  ghost predicate Distinct(ids: seq<Str>) {
    forall i, j :: 0 <= i < j < |ids| ==> ids[i] != ids[j]
  }

  /** With distinct workers every result is a first vote. */
  lemma {:induction false} DistinctAreFirst(rs: seq<WorkerResult>)
    requires Distinct(Ids(rs))
    ensures FirstVotes(rs) == rs
  {
    if rs != [] {
      var n := |rs| - 1;
      assert Ids(rs)[..n] == Ids(rs[..n]);
      assert forall i :: 0 <= i < n ==> Ids(rs[..n])[i] == Ids(rs)[i] != Ids(rs)[n];
      DistinctAreFirst(rs[..n]);
      assert rs == rs[..n] + [rs[n]];
    }
  }

  /** How often a result occurs among those voting for h: as often as it occurs at all, if it does. */
  lemma {:induction false} VotingCount(rs: seq<WorkerResult>, h: Str, r: WorkerResult)
    ensures multiset(Voting(rs, h))[r]
         == if r.status == HaltedStatus() && r.resultHash == h then multiset(rs)[r] else 0
    ensures multiset(HaltedOnly(rs))[r] == if r.status == HaltedStatus() then multiset(rs)[r] else 0
  {
    hide HaltedStatus;
    if rs != [] {
      var n := |rs| - 1;
      VotingCount(rs[..n], h, r);
      assert rs == rs[..n] + [rs[n]];
    }
  }

  lemma {:induction false} VotingPermutes(rs: seq<WorkerResult>, ts: seq<WorkerResult>, h: Str)
    requires multiset(rs) == multiset(ts)
    ensures multiset(Voting(rs, h)) == multiset(Voting(ts, h))
    ensures |Voting(rs, h)| == |Voting(ts, h)|
    ensures |HaltedOnly(rs)| == |HaltedOnly(ts)| && |rs| == |ts|
  {
    hide Voting, HaltedOnly, HaltedStatus;
    forall r
      ensures multiset(Voting(rs, h))[r] == multiset(Voting(ts, h))[r]
      ensures multiset(HaltedOnly(rs))[r] == multiset(HaltedOnly(ts))[r]
    {
      VotingCount(rs, h, r);
      VotingCount(ts, h, r);
    }
    assert multiset(Voting(rs, h)) == multiset(Voting(ts, h));
    assert multiset(HaltedOnly(rs)) == multiset(HaltedOnly(ts));
    SameSize(Voting(rs, h), Voting(ts, h));
    SameSize(HaltedOnly(rs), HaltedOnly(ts));
    SameSize(rs, ts);
  }

  lemma SameSize<T>(a: seq<T>, b: seq<T>)
    requires multiset(a) == multiset(b)
    ensures |a| == |b|
  {
    assert |multiset(a)| == |a| && |multiset(b)| == |b|;
  }

  lemma PermutedMembers<T>(a: seq<T>, b: seq<T>, x: T)
    requires multiset(a) == multiset(b)
    ensures x in a <==> x in b
  {
    assert x in a <==> x in multiset(a);
    assert x in b <==> x in multiset(b);
  }

  lemma OneChainPermutes(a: seq<WorkerResult>, b: seq<WorkerResult>)
    requires multiset(a) == multiset(b) && OneChain(a)
    ensures OneChain(b)
  {
    forall i | 0 <= i < |b|
      ensures b[i].chunkHashes == b[0].chunkHashes
    {
      PermutedMembers(a, b, b[i]);
      PermutedMembers(a, b, b[0]);
    }
  }

  /** The same decision up to the order of the agreeing workers and the output string quoted. */
  ghost predicate SameVerdict(d: Decision, e: Decision) {
    if d.Accept? && e.Accept? then
      d.hash == e.hash && (forall id :: id in d.agreed <==> id in e.agreed) && |d.agreed| == |e.agreed| && d.zk == e.zk
    else d == e
  }

  lemma IdsPermute(a: seq<WorkerResult>, b: seq<WorkerResult>, id: Str)
    requires multiset(a) == multiset(b)
    ensures id in Ids(a) ==> id in Ids(b)
  {
    if id in Ids(a) {
      var i :| 0 <= i < |a| && Ids(a)[i] == id;
      PermutedMembers(a, b, a[i]);
      var j :| 0 <= j < |b| && b[j] == a[i];
      assert Ids(b)[j] == id;
    }
  }

  lemma TwiceCounts<T>(s: seq<T>, i: nat, j: nat)
    requires i < j < |s| && s[i] == s[j]
    ensures multiset(s)[s[i]] >= 2
  {
    assert s == s[..j] + s[j..];
    assert s[i] == s[..j][i] && s[i] == s[j..][0];
    assert s[i] in multiset(s[..j]) && s[i] in multiset(s[j..]);
  }

  lemma CountedTwice<T>(s: seq<T>, x: T) returns (i: nat, j: nat)
    requires multiset(s)[x] >= 2
    ensures i < j < |s| && s[i] == s[j] == x
  {
    assert x in multiset(s);
    i :| 0 <= i < |s| && s[i] == x;
    var front, back := s[..i], s[i + 1..];
    assert s == front + [x] + back;
    assert x in multiset(front) || x in multiset(back);
    if x in front {
      j :| 0 <= j < |front| && front[j] == x;
      i, j := j, i;
    } else {
      var k :| 0 <= k < |back| && back[k] == x;
      j := i + 1 + k;
    }
  }

  /** Two positions of a permutation come from two positions. */
  lemma Origins<T>(rs: seq<T>, ts: seq<T>, i: nat, j: nat) returns (k: nat, l: nat)
    requires multiset(rs) == multiset(ts) && i < j < |ts|
    ensures k < |rs| && l < |rs| && k != l && rs[k] == ts[i] && rs[l] == ts[j]
  {
    if ts[i] == ts[j] {
      TwiceCounts(ts, i, j);
      k, l := CountedTwice(rs, ts[i]);
    } else {
      PermutedMembers(rs, ts, ts[i]);
      PermutedMembers(rs, ts, ts[j]);
      k :| 0 <= k < |rs| && rs[k] == ts[i];
      l :| 0 <= l < |rs| && rs[l] == ts[j];
    }
  }

  /** Whether workers are distinct does not depend on the order. */
  lemma DistinctPermutes(rs: seq<WorkerResult>, ts: seq<WorkerResult>)
    requires Distinct(Ids(rs)) && multiset(rs) == multiset(ts)
    ensures Distinct(Ids(ts))
  {
    forall i, j | 0 <= i < j < |ts|
      ensures ts[i].workerId != ts[j].workerId
    {
      var k, l := Origins(rs, ts, i, j);
      assert Ids(rs)[k] != Ids(rs)[l];
    }
  }

  /** For distinct workers the order of arrival does not change decision, hash or agreeing set. */
  lemma OrderIsIrrelevant(rs: seq<WorkerResult>, ts: seq<WorkerResult>, dispatched: nat, d: Decision, e: Decision)
    requires Distinct(Ids(rs)) && multiset(rs) == multiset(ts)
    requires Decides(rs, dispatched, d) && Decides(ts, dispatched, e)
    ensures SameVerdict(d, e)
  {
    hide Voting, HaltedOnly, FirstVotes, Ids, OneChain;
    DistinctPermutes(rs, ts);
    DistinctAreFirst(rs);
    DistinctAreFirst(ts);
    forall h
      ensures Wins(rs, dispatched, h) <==> Wins(ts, dispatched, h)
    {
      VotingPermutes(rs, ts, h);
    }
    if h :| Wins(rs, dispatched, h) {
      VotingPermutes(rs, ts, h);
      var a, b := Voting(rs, h), Voting(ts, h);
      assert d == WinnerDecision(rs, h) && e == WinnerDecision(ts, h);
      if OneChain(a) { OneChainPermutes(a, b); }
      if OneChain(b) { OneChainPermutes(b, a); }
      forall id
        ensures id in Ids(a) <==> id in Ids(b)
      {
        IdsPermute(a, b, id);
        IdsPermute(b, a, id);
      }
    } else {
      VotingPermutes(rs, ts, []);
    }
  }

  /** An acceptance quotes the output of the first member of the winning group. */
  lemma {:induction false} FirstIsQuoted(rs: seq<WorkerResult>, dispatched: nat, d: Decision)
    requires Distinct(Ids(rs)) && Decides(rs, dispatched, d) && d.Accept?
    ensures |Voting(rs, d.hash)| > 0 && d.outputHex == Voting(rs, d.hash)[0].outputHex
  {
    hide Voting, HaltedOnly, FirstVotes, Ids, OneChain;
    DistinctAreFirst(rs);
    AcceptIff(rs, dispatched, d, d.hash);
  }

  lemma {:induction false} VotingFront(r: WorkerResult, rest: seq<WorkerResult>)
    requires r.status == HaltedStatus()
    ensures Voting([r] + rest, r.resultHash) != [] && Voting([r] + rest, r.resultHash)[0] == r
  {
    hide HaltedStatus;
    VotingGrows([r], rest, r.resultHash);
    assert [r][..0] == [];
    assert Voting([r], r.resultHash) == [r];
  }

  lemma {:induction false} VotingMembers(rs: seq<WorkerResult>, h: Str, r: WorkerResult)
    ensures r in Voting(rs, h) <==> r in rs && r.status == HaltedStatus() && r.resultHash == h
  {
    hide HaltedStatus;
    if rs != [] {
      var n := |rs| - 1;
      VotingMembers(rs[..n], h, r);
      assert rs == rs[..n] + [rs[n]];
    }
  }

  /** Result i first, the others in their order. */
  function Fronted(rs: seq<WorkerResult>, i: nat): (ts: seq<WorkerResult>)
    requires i < |rs|
    ensures multiset(ts) == multiset(rs)
  {
    assert rs == rs[..i] + [rs[i]] + rs[i + 1..];
    [rs[i]] + (rs[..i] + rs[i + 1..])
  }

  /** Whichever member of the winning group arrives first is the one quoted. */
  lemma {:induction false} AnyMemberCanBeQuoted(rs: seq<WorkerResult>, dispatched: nat, d: Decision, i: nat,
                                                e: Decision)
    requires Distinct(Ids(rs)) && Decides(rs, dispatched, d) && d.Accept?
    requires i < |rs| && rs[i] in Voting(rs, d.hash)
    requires Decides(Fronted(rs, i), dispatched, e)
    ensures e.Accept? && e.hash == d.hash && e.outputHex == rs[i].outputHex
  {
    hide Voting, FirstVotes, Ids, Decides, Distinct;
    var ts := Fronted(rs, i);
    DistinctPermutes(rs, ts);
    OrderIsIrrelevant(rs, ts, dispatched, d, e);
    FirstIsQuoted(ts, dispatched, e);
    VotingMembers(rs, d.hash, rs[i]);
    VotingFront(rs[i], rs[..i] + rs[i + 1..]);
  }

  /** Every order of arrival accepts and quotes `out`. */
  ghost predicate AlwaysQuotes(rs: seq<WorkerResult>, dispatched: nat, out: Option<Str>) {
    forall ts | multiset(ts) == multiset(rs) ::
      Decided(ts, dispatched).Accept? && Decided(ts, dispatched).outputHex == out
  }

  /** The quoted output is the same in every order if and only if the whole winning group reported it. */
  lemma {:induction false} OutputIsStableIff(rs: seq<WorkerResult>, dispatched: nat, d: Decision)
    requires Distinct(Ids(rs)) && Decides(rs, dispatched, d) && d.Accept?
    ensures AlwaysQuotes(rs, dispatched, d.outputHex)
        <==> forall r :: r in Voting(rs, d.hash) ==> r.outputHex == d.outputHex
  {
    hide Voting, HaltedOnly, FirstVotes, Ids, OneChain, Decides, Distinct;
    if AlwaysQuotes(rs, dispatched, d.outputHex) {
      forall r | r in Voting(rs, d.hash)
        ensures r.outputHex == d.outputHex
      {
        VotingMembers(rs, d.hash, r);
        var i :| 0 <= i < |rs| && rs[i] == r;
        var ts := Fronted(rs, i);
        AnyMemberCanBeQuoted(rs, dispatched, d, i, Decided(ts, dispatched));
      }
    }
    if forall r :: r in Voting(rs, d.hash) ==> r.outputHex == d.outputHex {
      forall ts | multiset(ts) == multiset(rs)
        ensures Decided(ts, dispatched).Accept? && Decided(ts, dispatched).outputHex == d.outputHex
      {
        var e := Decided(ts, dispatched);
        DistinctPermutes(rs, ts);
        OrderIsIrrelevant(rs, ts, dispatched, d, e);
        FirstIsQuoted(ts, dispatched, e);
        VotingPermutes(rs, ts, d.hash);
        PermutedMembers(Voting(rs, d.hash), Voting(ts, d.hash), Voting(ts, d.hash)[0]);
      }
    }
  }

  /** So two votes with one hash, one chain and two outputs are quoted by arrival. */
  lemma OutputDependsOnOrder(a: WorkerResult, b: WorkerResult)
    requires a.workerId != b.workerId && a.status == b.status == HaltedStatus()
    requires a.resultHash == b.resultHash && a.chunkHashes == b.chunkHashes
    ensures Decided([a, b], 2) == Accept(a.resultHash, a.outputHex, [a.workerId, b.workerId], false)
    ensures Decided([b, a], 2) == Accept(a.resultHash, b.outputHex, [b.workerId, a.workerId], false)
  {
    hide HaltedStatus;
    TwoVotes(a, b);
    TwoVotes(b, a);
    assert Wins([a, b], 2, a.resultHash) && Wins([b, a], 2, a.resultHash);
    assert Ids([a, b]) == [a.workerId, b.workerId] && Ids([b, a]) == [b.workerId, a.workerId];
  }

  lemma TwoVotes(a: WorkerResult, b: WorkerResult)
    requires a.workerId != b.workerId && a.status == b.status == HaltedStatus()
    requires a.resultHash == b.resultHash
    ensures FirstVotes([a, b]) == [a, b] && Voting([a, b], a.resultHash) == [a, b]
  {
    hide HaltedStatus;
    assert [a, b][..1] == [a] && [a][..0] == [];
    assert Ids([a]) == [a.workerId];
    assert FirstVotes([a]) == [a];
    assert Voting([a], a.resultHash) == [a];
  }

  lemma {:induction false} VotingGrows(rs: seq<WorkerResult>, more: seq<WorkerResult>, h: Str)
    ensures Voting(rs, h) <= Voting(rs + more, h)
    decreases |more|
  {
    if more == [] {
      assert rs + more == rs;
    } else {
      var n := |more| - 1;
      VotingGrows(rs, more[..n], h);
      assert (rs + more)[..|rs| + n] == rs + more[..n];
    }
  }

  lemma {:induction false} FirstVotesGrow(rs: seq<WorkerResult>, more: seq<WorkerResult>)
    ensures FirstVotes(rs) <= FirstVotes(rs + more)
    decreases |more|
  {
    if more == [] {
      assert rs + more == rs;
    } else {
      var n := |more| - 1;
      FirstVotesGrow(rs, more[..n]);
      assert (rs + more)[..|rs| + n] == rs + more[..n];
    }
  }

  /** Further votes within the same dispatched pool never turn an acceptance into an escalation or
      the acceptance of another hash; at worst the chains now disagree. */
  lemma {:induction false} AcceptanceIsStable(rs: seq<WorkerResult>, more: seq<WorkerResult>, dispatched: nat,
                                              d: Decision, e: Decision)
    requires |FirstVotes(rs + more)| <= dispatched
    requires Decides(rs, dispatched, d) && Decides(rs + more, dispatched, e) && d.Accept?
    ensures e == Reject(ChainDispute) || (e.Accept? && e.hash == d.hash && d.agreed <= e.agreed)
  {
    hide Voting, FirstVotes, HaltedOnly;
    var (v, w) := (FirstVotes(rs), FirstVotes(rs + more));
    FirstVotesGrow(rs, more);
    AcceptIff(rs, dispatched, d, d.hash);
    var rest := w[|v|..];
    assert w == v + rest;
    VotingGrows(v, rest, d.hash);
    assert Wins(w, dispatched, d.hash);
    IdsPrefix(Voting(v, d.hash), Voting(w, d.hash));
  }

  lemma IdsPrefix(a: seq<WorkerResult>, b: seq<WorkerResult>)
    requires a <= b
    ensures Ids(a) <= Ids(b)
  {
  }

  // ---------------------------------------------------------------- `decide` in its own form

  method Dedup(rs: seq<WorkerResult>) returns (votes: seq<WorkerResult>)
    ensures votes == FirstVotes(rs)
  {
    var seen: set<Str> := {};
    votes := [];
    for i := 0 to |rs|
      invariant votes == FirstVotes(rs[..i])
      invariant forall id :: id in seen <==> id in Ids(rs[..i])
    {
      assert rs[..i + 1][..i] == rs[..i];
      assert Ids(rs[..i + 1]) == Ids(rs[..i]) + [rs[i].workerId];
      if rs[i].workerId !in seen {
        seen := seen + {rs[i].workerId};
        votes := votes + [rs[i]];
      }
    }
    assert rs[..|rs|] == rs;
  }

  method FilterHalted(votes: seq<WorkerResult>) returns (halted: seq<WorkerResult>)
    ensures halted == HaltedOnly(votes)
    ensures forall r :: r in halted ==> r.status == HaltedStatus()
    ensures forall h :: Voting(halted, h) == Voting(votes, h)
  {
    hide HaltedStatus;
    halted := [];
    for i := 0 to |votes|
      invariant halted == HaltedOnly(votes[..i])
      invariant forall r :: r in halted ==> r.status == HaltedStatus()
      invariant forall h :: Voting(halted, h) == Voting(votes[..i], h)
    {
      assert votes[..i + 1][..i] == votes[..i];
      if votes[i].status == HaltedStatus() {
        assert (halted + [votes[i]])[..|halted|] == halted;
        halted := halted + [votes[i]];
      }
    }
    assert votes[..|votes|] == votes;
  }

  type Group = (Str, seq<WorkerResult>)

  /** One nonempty group per hash, holding exactly the results with that hash in order. */
  ghost predicate Grouped(rs: seq<WorkerResult>, groups: seq<Group>) {
    && (forall i :: 0 <= i < |groups| ==> groups[i].1 == Voting(rs, groups[i].0) && groups[i].1 != [])
    && (forall i, j :: 0 <= i < j < |groups| ==> groups[i].0 != groups[j].0)
    && (forall h :: Voting(rs, h) != [] ==> HasGroup(groups, h))
  }

  predicate HasGroup(groups: seq<Group>, h: Str) {
    exists i :: 0 <= i < |groups| && groups[i].0 == h
  }

  lemma {:induction false} VotingStep(rs: seq<WorkerResult>, r: WorkerResult, h: Str)
    ensures Voting(rs + [r], h)
         == if r.status == HaltedStatus() && r.resultHash == h then Voting(rs, h) + [r] else Voting(rs, h)
  {
    assert (rs + [r])[..|rs|] == rs;
  }

  method GroupBy(rs: seq<WorkerResult>) returns (groups: seq<Group>)
    requires forall r :: r in rs ==> r.status == HaltedStatus()
    ensures Grouped(rs, groups)
  {
    hide Voting, HaltedStatus, HasGroup;
    groups := [];
    NoVotes();
    for i := 0 to |rs|
      invariant Grouped(rs[..i], groups)
    {
      groups := AddToGroup(rs[..i], groups, rs[i]);
      assert rs[..i] + [rs[i]] == rs[..i + 1];
    }
    assert rs[..|rs|] == rs;
  }

  lemma NoVotes()
    ensures forall h :: Voting([], h) == []
  {
  }

  lemma {:induction false} VotingGrowsByOne(rs: seq<WorkerResult>, r: WorkerResult)
    requires r.status == HaltedStatus()
    ensures forall h :: Voting(rs + [r], h) == if r.resultHash == h then Voting(rs, h) + [r] else Voting(rs, h)
  {
    hide Voting, HaltedStatus;
    forall h
      ensures Voting(rs + [r], h) == if r.resultHash == h then Voting(rs, h) + [r] else Voting(rs, h)
    {
      VotingStep(rs, r, h);
    }
  }

  lemma KeepsHashes(groups: seq<Group>, groups': seq<Group>, h: Str)
    requires HasGroup(groups, h) && |groups| <= |groups'|
    requires forall i :: 0 <= i < |groups| ==> groups'[i].0 == groups[i].0
    ensures HasGroup(groups', h)
  {
    var i :| 0 <= i < |groups| && groups[i].0 == h;
    assert groups'[i].0 == h;
  }

  lemma PushKeepsGrouping(rs: seq<WorkerResult>, groups: seq<Group>, r: WorkerResult, k: nat)
    requires Grouped(rs, groups) && r.status == HaltedStatus() && k < |groups| && groups[k].0 == r.resultHash
    ensures Grouped(rs + [r], groups[k := (groups[k].0, groups[k].1 + [r])])
  {
    hide Voting, HaltedStatus, HasGroup;
    VotingGrowsByOne(rs, r);
    var groups' := groups[k := (groups[k].0, groups[k].1 + [r])];
    forall h | Voting(rs + [r], h) != []
      ensures HasGroup(groups', h)
    {
      assert HasGroup(groups, r.resultHash) by {
        assert Voting(rs, groups[k].0) != [];
      }
      KeepsHashes(groups, groups', h);
    }
  }

  lemma OpenKeepsGrouping(rs: seq<WorkerResult>, groups: seq<Group>, r: WorkerResult)
    requires Grouped(rs, groups) && r.status == HaltedStatus() && !HasGroup(groups, r.resultHash)
    ensures Grouped(rs + [r], groups + [(r.resultHash, [r])])
  {
    hide Voting, HaltedStatus;
    VotingGrowsByOne(rs, r);
    var groups' := groups + [(r.resultHash, [r])];
    assert groups'[|groups|] == (r.resultHash, [r]);
    forall h | Voting(rs + [r], h) != []
      ensures HasGroup(groups', h)
    {
      if h != r.resultHash {
        KeepsHashes(groups, groups', h);
      }
    }
  }

  /** The body of the grouping loop: push onto the matching group, or open a new one. */
  method AddToGroup(ghost rs: seq<WorkerResult>, groups: seq<Group>, r: WorkerResult) returns (groups': seq<Group>)
    requires Grouped(rs, groups) && r.status == HaltedStatus()
    ensures Grouped(rs + [r], groups')
  {
    hide Voting, HaltedStatus, Grouped;
    for i := 0 to |groups|
      invariant forall j :: 0 <= j < i ==> groups[j].0 != r.resultHash
    {
      if groups[i].0 == r.resultHash {
        PushKeepsGrouping(rs, groups, r, i);
        return groups[i := (groups[i].0, groups[i].1 + [r])];
      }
    }
    OpenKeepsGrouping(rs, groups, r);
    groups' := groups + [(r.resultHash, [r])];
  }

  ghost predicate Descending(groups: seq<Group>) {
    forall i, j :: 0 <= i < j < |groups| ==> |groups[i].1| >= |groups[j].1|
  }

  /** The groups of one size, in order. */
  ghost function OfSize(groups: seq<Group>, n: nat): seq<Group> {
    if groups == [] then []
    else OfSize(groups[..|groups| - 1], n) + if |groups[|groups| - 1].1| == n then [groups[|groups| - 1]] else []
  }

  lemma {:induction false} OfSizeAppends(a: seq<Group>, b: seq<Group>, n: nat)
    ensures OfSize(a + b, n) == OfSize(a, n) + OfSize(b, n)
  {
    if b == [] {
      assert a + b == a;
    } else {
      var k := |b| - 1;
      OfSizeAppends(a, b[..k], n);
      assert (a + b)[..|a| + k] == a + b[..k];
    }
  }

  lemma {:induction false} NoneOfSize(b: seq<Group>, n: nat)
    requires forall i :: 0 <= i < |b| ==> |b[i].1| != n
    ensures OfSize(b, n) == []
  {
    if b != [] {
      NoneOfSize(b[..|b| - 1], n);
    }
  }

  /** The stable sort by descending group size. */
  method SortGroups(groups: seq<Group>) returns (sorted: seq<Group>)
    ensures multiset(sorted) == multiset(groups) && Descending(sorted)
    ensures forall n :: OfSize(sorted, n) == OfSize(groups, n)
  {
    hide OfSize, Descending;
    sorted := [];
    NoGroups();
    for i := 0 to |groups|
      invariant multiset(sorted) == multiset(groups[..i]) && Descending(sorted)
      invariant forall n :: OfSize(sorted, n) == OfSize(groups[..i], n)
    {
      ghost var before := sorted;
      sorted := InsertGroup(sorted, groups[i]);
      assert groups[..i + 1] == groups[..i] + [groups[i]];
      forall n
        ensures OfSize(sorted, n) == OfSize(groups[..i + 1], n)
      {
        OfSizeAppends(before, [groups[i]], n);
        OfSizeAppends(groups[..i], [groups[i]], n);
      }
    }
    assert groups[..|groups|] == groups;
  }

  method InsertGroup(sorted: seq<Group>, g: Group) returns (r: seq<Group>)
    requires Descending(sorted)
    ensures multiset(r) == multiset(sorted) + multiset{g} && Descending(r)
    ensures forall n :: OfSize(r, n) == OfSize(sorted + [g], n)
  {
    hide OfSize;
    var k := 0;
    while k < |sorted| && |sorted[k].1| >= |g.1|
      invariant k <= |sorted|
      invariant forall i :: 0 <= i < k ==> |sorted[i].1| >= |g.1|
    {
      k := k + 1;
    }
    InsertedBetween(sorted[..k], g, sorted[k..]);
    assert sorted == sorted[..k] + sorted[k..];
    r := sorted[..k] + [g] + sorted[k..];
    forall n
      ensures OfSize(r, n) == OfSize(sorted + [g], n)
    {
      InsertedInOrder(sorted[..k], g, sorted[k..], n);
    }
  }

  lemma NoGroups()
    ensures Descending([])
  {
  }

  lemma {:induction false} InsertedInOrder(a: seq<Group>, g: Group, b: seq<Group>, n: nat)
    requires forall i :: 0 <= i < |b| ==> |b[i].1| < |g.1|
    ensures OfSize(a + [g] + b, n) == OfSize(a + b + [g], n)
  {
    hide OfSize;
    OfSizeAppends(a + [g], b, n);
    OfSizeAppends(a, [g], n);
    OfSizeAppends(a + b, [g], n);
    OfSizeAppends(a, b, n);
    if n == |g.1| {
      NoneOfSize(b, n);
    } else {
      NoneOfSize([g], n);
    }
  }

  lemma InsertedBetween(a: seq<Group>, g: Group, b: seq<Group>)
    requires Descending(a + b)
    requires forall i :: 0 <= i < |a| ==> |a[i].1| >= |g.1|
    requires forall i :: 0 <= i < |b| ==> |g.1| >= |b[i].1|
    ensures Descending(a + [g] + b)
    ensures multiset(a + [g] + b) == multiset(a + b) + multiset{g}
  {
    forall i, j | 0 <= i < j < |a + [g] + b|
      ensures |(a + [g] + b)[i].1| >= |(a + [g] + b)[j].1|
    {
      InsertedPair(a, g, b, i, j);
    }
  }

  lemma InsertedPair(a: seq<Group>, g: Group, b: seq<Group>, i: nat, j: nat)
    requires Descending(a + b) && i < j < |a + [g] + b|
    requires forall i :: 0 <= i < |a| ==> |a[i].1| >= |g.1|
    requires forall i :: 0 <= i < |b| ==> |g.1| >= |b[i].1|
    ensures |(a + [g] + b)[i].1| >= |(a + [g] + b)[j].1|
  {
    var s, r := a + b, a + [g] + b;
    if i < |a| && j > |a| {
      assert r[i] == s[i] && r[j] == s[j - 1];
    } else if j < |a| {
      assert r[i] == s[i] && r[j] == s[j];
    } else if i > |a| {
      assert r[i] == s[i - 1] && r[j] == s[j - 1];
    }
  }

  /** `decide`. */
  method Decide(rs: seq<WorkerResult>, dispatched: nat) returns (d: Decision)
    ensures Decides(rs, dispatched, d)
  {
    hide FirstVotes, HaltedOnly, Voting, HaltedStatus, Ids, OneChain;
    var votes := Dedup(rs);
    var pool := if dispatched >= |votes| then dispatched else |votes|;
    var threshold := pool / 2 + 1;
    var halted := FilterHalted(votes);
    if |halted| >= threshold {
      var groups := GroupBy(halted);
      var sorted := SortGroups(groups);
      MajorityIsFirst(votes, halted, groups, sorted, dispatched);
      var hash, group := sorted[0].0, sorted[0].1;
      if |group| >= threshold {
        forall h | Wins(votes, dispatched, h)
          ensures h == hash
        {
          WinnerIsUnique(votes, dispatched, h, hash);
        }
        assert Wins(votes, dispatched, hash);
        if OneChain(group) {
          return Accept(hash, group[0].outputHex, Ids(group), false);
        }
        assert WinnerDecision(votes, hash) == Reject(ChainDispute);
        return Reject(ChainDispute);
      }
    } else {
      NoMajorityOfFew(votes, dispatched);
    }
    assert forall h :: !Wins(votes, dispatched, h);
    if |votes| - |halted| >= threshold {
      return Reject(JobBroken);
    }
    if pool >= 5 {
      return Reject(NoMajority);
    }
    d := Escalate;
  }

  lemma {:induction false} VotingWithinHalted(votes: seq<WorkerResult>, h: Str)
    ensures |Voting(votes, h)| <= |HaltedOnly(votes)| <= |votes|
  {
    if votes != [] {
      VotingWithinHalted(votes[..|votes| - 1], h);
    }
  }

  lemma {:induction false} NoMajorityOfFew(votes: seq<WorkerResult>, dispatched: nat)
    requires |HaltedOnly(votes)| < Threshold(Pool(|votes|, dispatched))
    ensures forall h :: !Wins(votes, dispatched, h)
  {
    hide Voting, HaltedOnly;
    forall h
      ensures !Wins(votes, dispatched, h)
    {
      VotingWithinHalted(votes, h);
    }
  }

  /** If any hash holds the majority, its group stands first after sorting. */
  lemma {:induction false} MajorityIsFirst(votes: seq<WorkerResult>, halted: seq<WorkerResult>, groups: seq<Group>,
                        sorted: seq<Group>, dispatched: nat)
    requires halted == HaltedOnly(votes) && |halted| > 0
    requires forall r :: r in halted ==> r.status == HaltedStatus()
    requires forall h :: Voting(halted, h) == Voting(votes, h)
    requires Grouped(halted, groups) && multiset(sorted) == multiset(groups) && Descending(sorted)
    ensures |sorted| > 0 && sorted[0].1 == Voting(votes, sorted[0].0) && sorted[0].1 != []
    ensures forall h :: Wins(votes, dispatched, h) ==> |sorted[0].1| >= |Voting(votes, h)|
  {
    hide HaltedOnly, HaltedStatus, FirstVotes;
    var r := halted[|halted| - 1];
    assert Voting(halted, r.resultHash) != [];
    assert HasGroup(groups, r.resultHash);
    SameSize(groups, sorted);
    PermutedMembers(sorted, groups, sorted[0]);
    forall h | Wins(votes, dispatched, h)
      ensures |sorted[0].1| >= |Voting(votes, h)|
    {
      assert HasGroup(groups, h);
      var i :| 0 <= i < |groups| && groups[i].0 == h;
      PermutedMembers(groups, sorted, groups[i]);
    }
  }
}
