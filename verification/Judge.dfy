/** The one-chunk judge computes the same hash as a full replay. */
module Judge {
  import opened Words
  import opened Pages
  import opened Isa
  import opened IsaLaws
  import opened Hashing
  import opened Snapshot
  import opened Run
  import opened RunLaws

  /** What a judge answers: the true hash, nothing, or the host process aborting. */
  datatype Judgment = Truth(h: Hash) | Unavailable | HostAbort

  /** `judge_by_snapshot` on the contents of the snapshot file, if there is one. */
  function JudgeSnapshot(H: Hasher, file: Option<seq<byte>>, k: nat, agreed: seq<Hash>, chunkSize: u64): Judgment {
    if k == 0 || |agreed| < k || file.None? then Unavailable
    else
      match Restore(file.value)
      case Failed(_) => Unavailable
      case State(m) =>
        if StateHash(H, Before(agreed, k - 1), m) != agreed[k - 1] then Unavailable
        else
          match ChunkFrom(m, chunkSize, 0)
          case ChunkAborted => HostAbort
          case ChunkOut(_, m') => Truth(StateHash(H, agreed[k - 1], m'))
  }

  /** A trap that a full run would hand to the guest's handler occurs before the chunk ends. */
  function ChunkRoutes(m: Machine, chunkSize: u64, inChunk: u64): bool
    decreases (chunkSize - inChunk - 1) % TWO64
  {
    var s := Step(m, None);
    match s.out
    case Err(t) => s.m.hart.mtvec != 0
    case Ok(false) =>
      var k := (inChunk + 1) % TWO64;
      if k == chunkSize then false
      else
        CounterApproaches(chunkSize, inChunk);
        ChunkRoutes(s.m, chunkSize, k)
    case _ => false
  }

  /** Steps the one-chunk execution takes, the ending one included. */
  function ChunkSteps(m: Machine, chunkSize: u64, inChunk: u64): (n: nat)
    ensures n >= 1
    decreases (chunkSize - inChunk - 1) % TWO64
  {
    var s := Step(m, None);
    var k := (inChunk + 1) % TWO64;
    if s.out != Ok(false) || k == chunkSize then 1
    else
      CounterApproaches(chunkSize, inChunk);
      1 + ChunkSteps(s.m, chunkSize, k)
  }

  // ---------------------------------------------------------------- retired steps and the end of a chunk

  lemma {:induction false} StepNFront(m: Machine, j: nat)
    requires j > 0
    ensures StepN(m, None, j) == if Step(m, None).out == Ok(false) then StepN(Step(m, None).m, None, j - 1) else None
  {
    hide Step;
    if j > 1 {
      StepNFront(m, j - 1);
    } else {
      assert StepN(m, None, 0) == Some(m);
    }
  }

  /** One step of a chunk whose boundary lies ahead. */
  lemma {:induction false} ChunkUnrolled(m: Machine, chunkSize: u64, inChunk: u64)
    requires inChunk < chunkSize
    ensures var (s, c) := (Step(m, None), ChunkFrom(m, chunkSize, inChunk));
            && (s.out == Ok(false) && inChunk + 1 == chunkSize ==>
                  c == ChunkOut(Boundary, s.m) && ChunkSteps(m, chunkSize, inChunk) == 1)
            && (s.out == Ok(false) && inChunk + 1 < chunkSize ==>
                  && c == ChunkFrom(s.m, chunkSize, inChunk + 1)
                  && ChunkSteps(m, chunkSize, inChunk) == 1 + ChunkSteps(s.m, chunkSize, inChunk + 1))
            && (s.out != Ok(false) ==>
                  && ChunkSteps(m, chunkSize, inChunk) == 1 && (c.ChunkOut? <==> Stands(m))
                  && (c.ChunkOut? ==> c.m == s.m))
  {
    hide Step;
  }

  /** The state does not retire its next step: it halts or traps. */
  predicate Stands(m: Machine) {
    Step(m, None).out == Ok(true) || Step(m, None).out.Err?
  }

  lemma {:induction false} NoSteps(m: Machine)
    ensures StepN(m, None, 0) == Some(m)
  {
  }

  /** A chunk takes at most the steps left to its boundary; it ends at the boundary exactly if that many
      retire, and otherwise in a state whose step does not retire. */
  lemma {:induction false} ChunkEnds(m: Machine, chunkSize: u64, inChunk: u64)
    requires inChunk < chunkSize
    ensures ChunkSteps(m, chunkSize, inChunk) <= chunkSize - inChunk
    ensures var c := ChunkFrom(m, chunkSize, inChunk);
            && (StepN(m, None, chunkSize - inChunk).Some? ==>
                  c == ChunkOut(Boundary, StepN(m, None, chunkSize - inChunk).value))
            && (StepN(m, None, chunkSize - inChunk).None? && c.ChunkOut? ==>
                  Stands(c.m))
    decreases chunkSize - inChunk
  {
    hide Step, StepN, ChunkFrom, ChunkSteps;
    StepNFront(m, chunkSize - inChunk);
    ChunkUnrolled(m, chunkSize, inChunk);
    TrapsArePrecise(m, None);
    NoSteps(Step(m, None).m);
    if Step(m, None).out == Ok(false) && inChunk + 1 < chunkSize {
      ChunkEnds(Step(m, None).m, chunkSize, inChunk + 1);
    }
  }

  /** The rest of a chunk leads back to the state it starts from exactly when that state halts or traps,
      or the remaining steps form a cycle. */
  lemma {:induction false} ChunkReturns(m: Machine, chunkSize: u64, inChunk: u64)
    requires inChunk < chunkSize
    ensures var c := ChunkFrom(m, chunkSize, inChunk);
            c.ChunkOut? && c.m == m <==> Stands(m) || StepN(m, None, chunkSize - inChunk) == Some(m)
  {
    hide Step;
    ChunkEnds(m, chunkSize, inChunk);
    StepNFront(m, chunkSize - inChunk);
    TrapsArePrecise(m, None);
  }

  /** Retired steps inside a chunk only advance it. */
  lemma {:induction false} ChunkAdvances(m: Machine, chunkSize: u64, inChunk: u64, r: nat)
    requires inChunk + r < chunkSize && StepN(m, None, r).Some?
    ensures ChunkFrom(m, chunkSize, inChunk) == ChunkFrom(StepN(m, None, r).value, chunkSize, inChunk + r)
    decreases r
  {
    hide Step;
    if r > 0 {
      StepNFront(m, r);
      ChunkAdvances(Step(m, None).m, chunkSize, inChunk + 1, r - 1);
    }
  }

  // ---------------------------------------------------------------- locating the chunk in the run

  /** The loop state right after entry k - 1 was hashed at a boundary. */
  lemma {:induction false} AtBoundary(l: Loop, cfg: Config, k: nat) returns (l': Loop)
    requires Iterate(l, cfg).Some? && l.n == Steps(|l.states|, cfg.chunkSize) + l.inChunk
    requires |l.states| < k < |Iterate(l, cfg).value.l.states|
    ensures Iterate(l', cfg) == Iterate(l, cfg)
    ensures |l'.states| == k && l'.m == l'.states[k - 1] && l'.inChunk == 0 && cfg.chunkSize > 0
    ensures l'.n == Steps(k, cfg.chunkSize) <= cfg.maxInstructions
    decreases cfg.maxInstructions - l.n
  {
    hide TickOf, Capture, Steps, Iterate;
    if l.n >= cfg.maxInstructions {
      LimitReached(l, cfg);
    } else {
      Unrolled(l, cfg);
    }
    match TickOf(l.m, cfg.tohost) {
      case Go(m') =>
        if l.inChunk + 1 == cfg.chunkSize {
          OneMoreChunk(|l.states|, cfg.chunkSize);
          var next := l.Push(m', cfg).(n := l.n + 1, inChunk := 0);
          if |next.states| == k {
            l' := next;
          } else {
            l' := AtBoundary(next, cfg, k);
          }
        } else {
          l' := AtBoundary(l.(m := m', n := l.n + 1, inChunk := l.inChunk + 1), cfg, k);
        }
      case Routed(m') => l' := AtBoundary(l.(m := m', n := l.n + 1, inChunk := l.inChunk + 1), cfg, k);
      case _ => l' := l;
    }
  }

  lemma OneMoreChunk(k: nat, c: nat)
    ensures Steps(k + 1, c) == Steps(k, c) + c
  {
  }

  /** Inside a chunk that routes no trap and ends within the budget, the run's next hashed state is the
      state the one-chunk execution ends in. */
  lemma {:induction false} ChunkAgrees(l: Loop, cfg: Config)
    requires cfg.tohost.None? && l.m.hart.tohost.None? && l.inChunk < cfg.chunkSize
    requires Iterate(l, cfg).Some?
    requires !ChunkRoutes(l.m, cfg.chunkSize, l.inChunk)
    requires l.n + ChunkSteps(l.m, cfg.chunkSize, l.inChunk) <= cfg.maxInstructions
    ensures var e := Iterate(l, cfg).value;
            && |e.l.states| > |l.states|
            && var c := ChunkFrom(l.m, cfg.chunkSize, l.inChunk);
               c.ChunkOut? && c.m == e.l.states[|l.states|]
    decreases cfg.maxInstructions - l.n
  {
    hide Step, Capture, Iterate, ChunkFrom, ChunkSteps;
    IterateEndsWithLast(l, cfg);
    StepLawful(l.m, None);
    Unrolled(l, cfg);
    ChunkUnrolled(l.m, cfg.chunkSize, l.inChunk);
    match TickOf(l.m, cfg.tohost) {
      case Go(m') =>
        if l.inChunk + 1 == cfg.chunkSize {
          IterateEndsWithLast(l.Push(m', cfg).(n := l.n + 1, inChunk := 0), cfg);
        } else {
          ChunkAgrees(l.(m := m', n := l.n + 1, inChunk := l.inChunk + 1), cfg);
        }
      case _ =>
    }
  }

  /** A chunk that routes no trap and is longer than the budget: the limit pushes the next entry, after as
      many steps as were left. */
  lemma {:induction false} LimitCutsChunk(l: Loop, cfg: Config)
    requires cfg.tohost.None? && l.m.hart.tohost.None? && l.inChunk < cfg.chunkSize && l.n <= cfg.maxInstructions
    requires !ChunkRoutes(l.m, cfg.chunkSize, l.inChunk)
    requires l.n + ChunkSteps(l.m, cfg.chunkSize, l.inChunk) > cfg.maxInstructions
    ensures var r: nat := cfg.maxInstructions - l.n;
            && l.inChunk + r < cfg.chunkSize && StepN(l.m, None, r).Some?
            && var e := Iterate(l, cfg);
               && e.Some? && e.value.status == InstructionLimit
               && e.value.l.states == l.states + [StepN(l.m, None, r).value]
    decreases cfg.maxInstructions - l.n
  {
    hide Step, Capture, Iterate;
    if l.n == cfg.maxInstructions {
      LimitReached(l, cfg);
    } else {
      Unrolled(l, cfg);
      StepLawful(l.m, None);
      StepNFront(l.m, cfg.maxInstructions - l.n);
      ChunkEnds(l.m, cfg.chunkSize, l.inChunk);
      LimitCutsChunk(l.(m := Step(l.m, None).m, n := l.n + 1, inChunk := l.inChunk + 1), cfg);
    }
  }

  // ---------------------------------------------------------------- the theorem

  /** A snapshot accepted against the agreed prefix is the replay's state, or its bytes collide. */
  predicate SnapshotCollides(H: Hasher, agreed: seq<Hash>, k: nat, m: Machine, genuine: Machine)
    requires 0 < k <= |agreed|
  {
    StatesCollide(H, Before(agreed, k - 1), m, genuine)
  }

  /** Two states whose hashes onto the same previous hash agree by a collision. */
  predicate StatesCollide(H: Hasher, prev: Hash, m: Machine, n: Machine) {
    Collides(H, StateBytes(H, prev, m), StateBytes(H, prev, n)) || Collides(H, PageBytes(m.pages), PageBytes(n.pages))
  }

  /** The one-chunk execution from boundary k ends within the job's budget. */
  predicate InBudget(m: Machine, k: nat, chunkSize: u64, max: u64) {
    Steps(k, chunkSize) + ChunkSteps(m, chunkSize, 0) <= max
  }

  /** The chunk from boundary state m to entry k can be judged by itself: it routes no trap and ends within
      the budget. Both are visible to whoever executes the chunk. */
  predicate Judgeable(m: Machine, k: nat, chunkSize: u64, max: u64) {
    !ChunkRoutes(m, chunkSize, 0) && InBudget(m, k, chunkSize, max)
  }

  /** A test without executing anything: the budget covers the whole chunk. */
  lemma WholeChunkInBudget(m: Machine, k: nat, chunkSize: u64, max: u64)
    requires chunkSize > 0 && Steps(k + 1, chunkSize) <= max
    ensures InBudget(m, k, chunkSize, max)
  {
    hide ChunkSteps, Steps;
    ChunkEnds(m, chunkSize, 0);
    OneMoreChunk(k, chunkSize);
  }

  /** Entry k and the loop state at the boundary before it. */
  lemma BoundaryOf(pages: PageMap, entry: u64, input: seq<byte>, cfg: Config, k: nat) returns (l: Loop)
    requires forall p :: p in pages ==> p < LOW_PAGES
    requires cfg.tohost.None? && RunJob(pages, entry, input, cfg).Some?
    requires 0 < k < |RunJob(pages, entry, input, cfg).value.states|
    ensures var o := RunJob(pages, entry, input, cfg).value;
            && l.m == o.states[k - 1] && Clean(l.m) && Clean(o.states[k]) && |l.states| == k && l.inChunk == 0
            && cfg.chunkSize > 0 && l.n == Steps(k, cfg.chunkSize) <= cfg.maxInstructions
            && Iterate(l, cfg).Some?
            && var e := Iterate(l, cfg).value;
               |e.l.states| > 0 && o == Conclude(e) && |e.l.states| > k && e.l.states[k] == o.states[k]
  {
    hide Iterate, TickOf, RunJob, Start, Conclude, TickN, Steps;
    RunIsIterate(pages, entry, input, cfg);
    RunStatesAreTame(pages, entry, input, cfg);
    var m := Start(pages, entry, input).value;
    var e := Iterate(Begin(m), cfg).value;
    ConcludeKeepsStates(e);
    NoChunks(cfg.chunkSize);
    l := AtBoundary(Begin(m), cfg, k);
    IterateEndsWithLast(l, cfg);
    assert l.states == e.l.states[..k];
  }

  lemma NoChunks(c: nat)
    ensures Steps(0, c) == 0
  {
  }

  /** From the genuine state at boundary k - 1, one chunk reproduces entry k of the replay. */
  lemma OneChunkReproducesEntry(pages: PageMap, entry: u64, input: seq<byte>, cfg: Config, k: nat)
    requires forall p :: p in pages ==> p < LOW_PAGES
    requires cfg.tohost.None? && RunJob(pages, entry, input, cfg).Some?
    requires var o := RunJob(pages, entry, input, cfg).value;
             0 < k < |o.states| && Judgeable(o.states[k - 1], k, cfg.chunkSize, cfg.maxInstructions)
    ensures var o := RunJob(pages, entry, input, cfg).value;
            var c := ChunkFrom(o.states[k - 1], cfg.chunkSize, 0);
            c.ChunkOut? && c.m == o.states[k]
  {
    hide Iterate, RunJob, Conclude, ChunkRoutes, ChunkFrom, ChunkSteps, Steps;
    var l := BoundaryOf(pages, entry, input, cfg, k);
    ChunkAgrees(l, cfg);
  }

  /** The judge on a snapshot of the genuine state: the hash of where the chunk leads. */
  lemma AcceptedSnapshot(H: Hasher, file: Option<seq<byte>>, k: nat, agreed: seq<Hash>, pages: PageMap, entry: u64,
                         input: seq<byte>, cfg: Config)
    requires forall p :: p in pages ==> p < LOW_PAGES
    requires cfg.tohost.None? && RunJob(pages, entry, input, cfg).Some?
    requires var o := RunJob(pages, entry, input, cfg).value;
             0 < k < |o.states| && k <= |agreed| && agreed[..k] == Chain(H, o.states)[..k]
    ensures var o := RunJob(pages, entry, input, cfg).value;
            var j := JudgeSnapshot(H, file, k, agreed, cfg.chunkSize);
            var c := ChunkFrom(o.states[k - 1], cfg.chunkSize, 0);
            || j == Unavailable
            || j == (if c.ChunkOut? then Truth(StateHash(H, agreed[k - 1], c.m)) else HostAbort)
            || (file.Some? && Restore(file.value).State?
                && SnapshotCollides(H, agreed, k, Restore(file.value).m, o.states[k - 1]))
    ensures var chain := Chain(H, RunJob(pages, entry, input, cfg).value.states);
            chain[k] == StateHash(H, agreed[k - 1], RunJob(pages, entry, input, cfg).value.states[k])
  {
    hide RunJob, Restore, ChunkFrom, StateHash, StateBytes, PageBytes, Chain, Iterate, Conclude, Steps;
    var o := RunJob(pages, entry, input, cfg).value;
    var chain := Chain(H, o.states);
    var l := BoundaryOf(pages, entry, input, cfg, k);
    LowPagesFit(o.states[k - 1].pages);
    ChainAt(H, o.states, k - 1);
    ChainAt(H, o.states, k);
    assert agreed[k - 1] == agreed[..k][k - 1] == chain[k - 1];
    assert k > 1 ==> agreed[k - 2] == agreed[..k][k - 2] == chain[k - 2];
    if file.Some? && Restore(file.value).State? {
      var m := Restore(file.value).m;
      RestoredIsWellIndexed(file.value);
      if StateHash(H, Before(agreed, k - 1), m) == agreed[k - 1] {
        HashBinds(H, Before(agreed, k - 1), m, Before(agreed, k - 1), o.states[k - 1]);
      }
    }
  }

  /** The snapshot judge against a prefix equal to the replay's first k hashes: if it accepts the
      untrusted file at all, it answers exactly replay hash k, or the file collides with the
      genuine state. */
  lemma SnapshotJudgeMatchesReplay(H: Hasher, file: Option<seq<byte>>, k: nat, agreed: seq<Hash>,
                                   pages: PageMap, entry: u64, input: seq<byte>, cfg: Config)
    requires forall p :: p in pages ==> p < LOW_PAGES
    requires cfg.tohost.None? && RunJob(pages, entry, input, cfg).Some?
    requires var o := RunJob(pages, entry, input, cfg).value;
             && 0 < k < |o.states| && Judgeable(o.states[k - 1], k, cfg.chunkSize, cfg.maxInstructions)
             && k <= |agreed| && agreed[..k] == Chain(H, o.states)[..k]
    ensures var o := RunJob(pages, entry, input, cfg).value;
            var j := JudgeSnapshot(H, file, k, agreed, cfg.chunkSize);
            || j == Unavailable
            || j == Truth(Chain(H, o.states)[k])
            || (file.Some? && Restore(file.value).State?
                && SnapshotCollides(H, agreed, k, Restore(file.value).m, o.states[k - 1]))
  {
    hide RunJob, Restore, ChunkFrom, Judgeable, StateHash, SnapshotCollides, Chain, JudgeSnapshot;
    OneChunkReproducesEntry(pages, entry, input, cfg, k);
    AcceptedSnapshot(H, file, k, agreed, pages, entry, input, cfg);
  }

  /** For every chunk, routed traps and the instruction limit included: on any snapshot it accepts the judge
      answers replay hash k if and only if the chunk by itself ends in the replay's state k, but for a
      named collision. */
  lemma JudgeAgreesIff(H: Hasher, file: Option<seq<byte>>, k: nat, agreed: seq<Hash>, pages: PageMap, entry: u64,
                       input: seq<byte>, cfg: Config)
    requires forall p :: p in pages ==> p < LOW_PAGES
    requires cfg.tohost.None? && RunJob(pages, entry, input, cfg).Some?
    requires var o := RunJob(pages, entry, input, cfg).value;
             0 < k < |o.states| && k <= |agreed| && agreed[..k] == Chain(H, o.states)[..k]
    ensures var o := RunJob(pages, entry, input, cfg).value;
            var j := JudgeSnapshot(H, file, k, agreed, cfg.chunkSize);
            var s := o.states[k];
            var c := ChunkFrom(o.states[k - 1], cfg.chunkSize, 0);
            || j == Unavailable
            || (file.Some? && Restore(file.value).State?
                && SnapshotCollides(H, agreed, k, Restore(file.value).m, o.states[k - 1]))
            || (&& (c.ChunkOut? && c.m == s ==> j == Truth(Chain(H, o.states)[k]))
                && (j == Truth(Chain(H, o.states)[k]) ==>
                      c.ChunkOut? && (c.m == s || StatesCollide(H, agreed[k - 1], c.m, s))))
  {
    hide RunJob, Restore, ChunkFrom, StateHash, StatesCollide, Chain, JudgeSnapshot, Iterate, Conclude, Steps;
    var o := RunJob(pages, entry, input, cfg).value;
    var l := BoundaryOf(pages, entry, input, cfg, k);
    AcceptedSnapshot(H, file, k, agreed, pages, entry, input, cfg);
    var c := ChunkFrom(l.m, cfg.chunkSize, 0);
    if c.ChunkOut? && StateHash(H, agreed[k - 1], c.m) == Chain(H, o.states)[k] {
      ChunkKeepsClean(l.m, cfg.chunkSize, 0);
      LowPagesFit(c.m.pages);
      LowPagesFit(o.states[k].pages);
      SameHashSameState(H, agreed[k - 1], c.m, o.states[k]);
    }
  }

  // ---------------------------------------------------------------- the entry the limit pushes

  /** Beyond the budget: entry k is the one pushed by the instruction limit, and on any snapshot it accepts
      the judge answers its hash if and only if that state halts or traps, or returns to itself over the
      rest of the chunk. Otherwise the two hashes agree only by a named collision. */
  lemma LimitEntryJudgedIff(H: Hasher, file: Option<seq<byte>>, k: nat, agreed: seq<Hash>,
                            pages: PageMap, entry: u64, input: seq<byte>, cfg: Config)
    requires forall p :: p in pages ==> p < LOW_PAGES
    requires cfg.tohost.None? && RunJob(pages, entry, input, cfg).Some?
    requires var o := RunJob(pages, entry, input, cfg).value;
             && 0 < k < |o.states| && !ChunkRoutes(o.states[k - 1], cfg.chunkSize, 0)
             && !InBudget(o.states[k - 1], k, cfg.chunkSize, cfg.maxInstructions)
             && k <= |agreed| && agreed[..k] == Chain(H, o.states)[..k]
    ensures var o := RunJob(pages, entry, input, cfg).value;
            && o.status == InstructionLimit && k == |o.states| - 1
            && var rest: int := Steps(k + 1, cfg.chunkSize) - cfg.maxInstructions;
               && 0 < rest
               && var j := JudgeSnapshot(H, file, k, agreed, cfg.chunkSize);
                  var s := o.states[k];
                  var c := ChunkFrom(o.states[k - 1], cfg.chunkSize, 0);
                  var agrees := Stands(s) || StepN(s, None, rest) == Some(s);
                  || j == Unavailable
                  || (file.Some? && Restore(file.value).State?
                      && SnapshotCollides(H, agreed, k, Restore(file.value).m, o.states[k - 1]))
                  || (&& (agrees ==> j == Truth(Chain(H, o.states)[k]))
                      && (j == Truth(Chain(H, o.states)[k]) ==>
                            agrees || (c.ChunkOut? && StatesCollide(H, agreed[k - 1], c.m, s))))
  {
    hide RunJob, Restore, ChunkFrom, ChunkRoutes, ChunkSteps, StateHash, StatesCollide, Chain, JudgeSnapshot;
    hide Iterate, Conclude, Steps, Step, StepN, Stands;
    var o := RunJob(pages, entry, input, cfg).value;
    var l := BoundaryOf(pages, entry, input, cfg, k);
    LimitCutsChunk(l, cfg);
    ConcludeKeepsLimit(Iterate(l, cfg).value);
    var r: nat := cfg.maxInstructions - l.n;
    OneMoreChunk(k, cfg.chunkSize);
    ChunkAdvances(l.m, cfg.chunkSize, 0, r);
    ChunkReturns(o.states[k], cfg.chunkSize, r);
    JudgeAgreesIff(H, file, k, agreed, pages, entry, input, cfg);
  }

  lemma ConcludeKeepsLimit(e: End)
    requires |e.l.states| > 0
    ensures e.status == InstructionLimit ==> Conclude(e).status == InstructionLimit && Conclude(e).states == e.l.states
  {
  }

  lemma {:induction false} ChunkKeepsClean(m: Machine, chunkSize: u64, inChunk: u64)
    requires Clean(m)
    ensures var c := ChunkFrom(m, chunkSize, inChunk); c.ChunkOut? ==> Clean(c.m)
    decreases (chunkSize - inChunk - 1) % TWO64
  {
    hide Step;
    StepLawful(m, None);
    var s, k := Step(m, None), (inChunk + 1) % TWO64;
    if s.out == Ok(false) && k != chunkSize {
      CounterApproaches(chunkSize, inChunk);
      ChunkKeepsClean(s.m, chunkSize, k);
    }
  }

  /** Clean states with the same hash are equal, or collide. */
  lemma SameHashSameState(H: Hasher, prev: Hash, m: Machine, n: Machine)
    requires Clean(m) && Clean(n) && WellIndexed(m.pages) && WellIndexed(n.pages)
    requires StateHash(H, prev, m) == StateHash(H, prev, n)
    ensures m == n || StatesCollide(H, prev, m, n)
  {
    hide StateHash, StateBytes, PageBytes;
    HashBinds(H, prev, m, prev, n);
  }
}
