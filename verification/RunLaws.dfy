/** What a run's chain contains: the loop refines iterated single steps. */
module RunLaws {
  import opened Words
  import opened Pages
  import opened Isa
  import opened IsaLaws
  import opened Hashing
  import opened Snapshot
  import opened Run
  import Bits
  import Memory

  /** The machine after j iterations that neither stop nor abort. */
  function TickN(m: Machine, tohost: Option<u64>, j: nat): Option<Machine> {
    if j == 0 then Some(m)
    else
      match TickN(m, tohost, j - 1)
      case None => None
      case Some(m') =>
        match TickOf(m', tohost)
        case Go(m'') => Some(m'')
        case Routed(m'') => Some(m'')
        case _ => None
  }

  /** The machine after j retired instructions, with nothing else in between. */
  function StepN(m: Machine, tohost: Option<u64>, j: nat): Option<Machine> {
    if j == 0 then Some(m)
    else
      match StepN(m, tohost, j - 1)
      case None => None
      case Some(m') => if Step(m', tohost).out == Ok(false) then Some(Step(m', tohost).m) else None
  }

  /** Iteration j enters the guest's trap handler. */
  predicate RoutedAt(m: Machine, tohost: Option<u64>, j: nat) {
    var s := TickN(m, tohost, j);
    s.Some? && TickOf(s.value, tohost).Routed?
  }

  /** Without a routed trap the iterations are plain instruction steps. */
  lemma {:induction false} TicksAreSteps(m: Machine, tohost: Option<u64>, j: nat)
    requires forall i :: 0 <= i < j ==> !RoutedAt(m, tohost, i)
    requires TickN(m, tohost, j).Some?
    ensures TickN(m, tohost, j) == StepN(m, tohost, j)
  {
    hide Step;
    if j > 0 {
      TicksAreSteps(m, tohost, j - 1);
      assert !RoutedAt(m, tohost, j - 1);
    }
  }

  /** A routed trap consumes the last slot of a chunk, where the boundary test is skipped. */
  ghost predicate LateRoute(m: Machine, cfg: Config, ticks: int) {
    exists j :: 0 <= j < ticks && LateAt(m, cfg, j)
  }

  predicate LateAt(m: Machine, cfg: Config, j: nat) {
    cfg.chunkSize > 0 && (j + 1) % cfg.chunkSize == 0 && RoutedAt(m, cfg.tohost, j)
  }

  /** Completed iterations: every counted instruction except the one that halts. */
  function Ticks(e: End): int {
    if e.status == Halted then e.l.n - 1 else e.l.n
  }

  // ---------------------------------------------------------------- termination and the last state

  lemma StopIsNoLimit(m: Machine, tohost: Option<u64>)
    ensures TickOf(m, tohost).Stop? ==> TickOf(m, tohost).status != InstructionLimit
  {
    hide Step;
  }

  /** The instruction budget is never exceeded, and the run stops where iterating stops. */
  lemma {:induction false} RunEnd(m: Machine, l: Loop, cfg: Config)
    requires l.n <= cfg.maxInstructions
    requires TickN(m, cfg.tohost, l.n) == Some(l.m)
    ensures var r := Iterate(l, cfg);
            r.Some? ==>
              var e := r.value;
              && e.l.n <= cfg.maxInstructions
              && Ticks(e) >= l.n
              && TickN(m, cfg.tohost, Ticks(e)).Some?
              && var last := TickN(m, cfg.tohost, Ticks(e)).value;
                 if e.status == InstructionLimit then e.l.m == last && e.l.n == cfg.maxInstructions
                 else TickOf(last, cfg.tohost) == Stop(e.status, e.l.m)
    decreases cfg.maxInstructions - l.n
  {
    hide TickOf, Capture, Iterate;
    StopIsNoLimit(l.m, cfg.tohost);
    if l.n < cfg.maxInstructions {
      Unrolled(l, cfg);
      match TickOf(l.m, cfg.tohost) {
        case Go(m') =>
          if l.inChunk + 1 == cfg.chunkSize {
            RunEnd(m, l.Push(m', cfg).(n := l.n + 1, inChunk := 0), cfg);
          } else {
            RunEnd(m, l.(m := m', n := l.n + 1, inChunk := l.inChunk + 1), cfg);
          }
        case Routed(m') => RunEnd(m, l.(m := m', n := l.n + 1, inChunk := l.inChunk + 1), cfg);
        case _ =>
      }
    } else {
      LimitReached(l, cfg);
    }
  }

  // ---------------------------------------------------------------- chunk boundaries

  lemma DivModNext(n: nat, c: nat)
    requires c > 0
    ensures n % c + 1 == c ==> (n + 1) % c == 0 && (n + 1) / c == n / c + 1 && (n / c + 1) * c == n + 1
    ensures n % c + 1 < c ==> (n + 1) % c == n % c + 1 && (n + 1) / c == n / c
  {
    var q, r := n / c, n % c;
    assert n == c * q + r;
    if r + 1 == c {
      assert c * (q + 1) == c * q + c;
      ModUnique(n + 1, c, q + 1, 0);
    } else {
      ModUnique(n + 1, c, q, r + 1);
    }
  }

  lemma DivMonotone(a: nat, b: nat, c: nat)
    requires c > 0 && a <= b
    ensures a / c <= b / c
  {
    var p, q := a / c, b / c;
    assert a == c * p + a % c && b == c * q + b % c;
    assert c * (p - q) == c * p - c * q;
    if p > q {
      MulAtLeast(c, p - q);
    }
  }

  /** The loop variables after l.n iterations while every boundary has been hit. */
  ghost predicate OnSchedule(m: Machine, l: Loop, cfg: Config)
    requires cfg.chunkSize > 0
  {
    var c := cfg.chunkSize;
    && TickN(m, cfg.tohost, l.n) == Some(l.m)
    && l.inChunk == l.n % c
    && |l.states| == l.n / c
    && OnBoundaries(m, cfg, l.states)
  }

  /** Entry i is the state after exactly (i + 1) * chunkSize iterations. */
  ghost predicate OnBoundaries(m: Machine, cfg: Config, states: seq<Machine>) {
    forall i :: 0 <= i < |states| ==> TickN(m, cfg.tohost, (i + 1) * cfg.chunkSize) == Some(states[i])
  }

  /** Past a skipped boundary the counter never meets the chunk size again: only the exit is hashed. */
  lemma {:induction false} StuckCounter(l: Loop, cfg: Config)
    requires l.inChunk >= cfg.chunkSize
    ensures var r := Iterate(l, cfg); r.Some? ==> |r.value.l.states| == |l.states| + 1
    decreases cfg.maxInstructions - l.n
  {
    hide TickOf, Capture;
    if l.n < cfg.maxInstructions {
      match TickOf(l.m, cfg.tohost) {
        case Go(m') => StuckCounter(l.(m := m', n := l.n + 1, inChunk := l.inChunk + 1), cfg);
        case Routed(m') => StuckCounter(l.(m := m', n := l.n + 1, inChunk := l.inChunk + 1), cfg);
        case _ =>
      }
    }
  }

  /** The chain of a finished run against its schedule. */
  ghost predicate ChainOnSchedule(m: Machine, e: End, cfg: Config)
    requires cfg.chunkSize > 0
  {
    && Ticks(e) >= 0
    && |e.l.states| == Ticks(e) / cfg.chunkSize + 1
    && OnBoundaries(m, cfg, e.l.states[..|e.l.states| - 1])
  }

  lemma BoundaryKeepsSchedule(m: Machine, l: Loop, cfg: Config, m': Machine)
    requires cfg.chunkSize > 0 && OnSchedule(m, l, cfg)
    requires TickOf(l.m, cfg.tohost) == Go(m') && l.inChunk + 1 == cfg.chunkSize
    ensures OnSchedule(m, l.Push(m', cfg).(n := l.n + 1, inChunk := 0), cfg)
  {
    hide TickOf, Capture;
    DivModNext(l.n, cfg.chunkSize);
    var states := l.states + [m'];
    forall i | 0 <= i < |states|
      ensures TickN(m, cfg.tohost, (i + 1) * cfg.chunkSize) == Some(states[i])
    {
      if i < |l.states| {
        assert states[i] == l.states[i];
      } else {
        assert (i + 1) * cfg.chunkSize == l.n + 1;
      }
    }
  }

  lemma TickKeepsSchedule(m: Machine, l: Loop, cfg: Config, m': Machine)
    requires cfg.chunkSize > 0 && OnSchedule(m, l, cfg)
    requires TickOf(l.m, cfg.tohost) == Go(m') || TickOf(l.m, cfg.tohost) == Routed(m')
    requires l.inChunk + 1 != cfg.chunkSize
    ensures OnSchedule(m, l.(m := m', n := l.n + 1, inChunk := l.inChunk + 1), cfg)
    ensures !LateAt(m, cfg, l.n)
  {
    hide TickOf;
    DivModNext(l.n, cfg.chunkSize);
  }

  /** A routed trap on the last slot: one more entry only, although a further chunk has run. */
  lemma {:induction false} LateRouteLosesBoundary(m: Machine, l: Loop, cfg: Config, m': Machine)
    requires cfg.chunkSize > 0 && l.n < cfg.maxInstructions && OnSchedule(m, l, cfg)
    requires TickOf(l.m, cfg.tohost) == Routed(m') && l.inChunk + 1 == cfg.chunkSize
    ensures LateAt(m, cfg, l.n)
    ensures var r := Iterate(l, cfg);
            r.Some? ==>
              Ticks(r.value) > l.n && |r.value.l.states| < Ticks(r.value) / cfg.chunkSize + 1
  {
    hide TickOf, Capture;
    var l' := l.(m := m', n := l.n + 1, inChunk := l.inChunk + 1);
    DivModNext(l.n, cfg.chunkSize);
    StuckCounter(l', cfg);
    RunEnd(m, l', cfg);
    var r := Iterate(l', cfg);
    if r.Some? {
      DivMonotone(l.n + 1, Ticks(r.value), cfg.chunkSize);
    }
  }

  /** From a loop state on schedule, the final chain is on schedule exactly when no routed trap
      takes the last slot of a chunk. */
  lemma {:induction false} ScheduleKept(m: Machine, l: Loop, cfg: Config)
    requires cfg.chunkSize > 0 && l.n <= cfg.maxInstructions && OnSchedule(m, l, cfg)
    requires forall j :: 0 <= j < l.n ==> !LateAt(m, cfg, j)
    ensures var r := Iterate(l, cfg);
            r.Some? ==>
              && (ChainOnSchedule(m, r.value, cfg) <==> !LateRoute(m, cfg, Ticks(r.value)))
              && Ticks(r.value) >= 0 && |r.value.l.states| <= Ticks(r.value) / cfg.chunkSize + 1
    decreases cfg.maxInstructions - l.n
  {
    hide TickOf, Capture, LateAt, OnSchedule, OnBoundaries;
    if l.n >= cfg.maxInstructions {
      ScheduledExit(m, l, cfg);
    } else {
      match TickOf(l.m, cfg.tohost) {
        case Go(m') =>
          if l.inChunk + 1 == cfg.chunkSize {
            BoundaryKeepsSchedule(m, l, cfg, m');
            GoIsNotLate(m, l, cfg);
            ScheduleKept(m, l.Push(m', cfg).(n := l.n + 1, inChunk := 0), cfg);
          } else {
            TickKeepsSchedule(m, l, cfg, m');
            ScheduleKept(m, l.(m := m', n := l.n + 1, inChunk := l.inChunk + 1), cfg);
          }
        case Routed(m') =>
          if l.inChunk + 1 == cfg.chunkSize {
            LateRouteLosesBoundary(m, l, cfg, m');
          } else {
            TickKeepsSchedule(m, l, cfg, m');
            ScheduleKept(m, l.(m := m', n := l.n + 1, inChunk := l.inChunk + 1), cfg);
          }
        case Stop(_, _) => ScheduledExit(m, l, cfg);
        case Abort =>
      }
    }
  }

  lemma GoIsNotLate(m: Machine, l: Loop, cfg: Config)
    requires cfg.chunkSize > 0 && OnSchedule(m, l, cfg) && TickOf(l.m, cfg.tohost).Go?
    ensures !LateAt(m, cfg, l.n)
  {
    hide TickOf;
  }

  lemma {:induction false} ScheduledExit(m: Machine, l: Loop, cfg: Config)
    requires cfg.chunkSize > 0 && OnSchedule(m, l, cfg)
    requires l.n >= cfg.maxInstructions || TickOf(l.m, cfg.tohost).Stop?
    ensures var r := Iterate(l, cfg);
            r.Some? ==> ChainOnSchedule(m, r.value, cfg) && Ticks(r.value) == l.n
  {
    hide TickOf, Capture, TickN;
    var r := Iterate(l, cfg);
    if r.Some? {
      assert r.value.l.states[..|r.value.l.states| - 1] == l.states;
    }
  }

  /** The loop: instructions stay within the budget, and the states it hashes are on schedule if and only
      if no routed trap takes the last slot of a chunk. */
  lemma {:induction false} LoopRefinesIteration(m: Machine, cfg: Config)
    requires Iterate(Begin(m), cfg).Some?
    ensures var e := Iterate(Begin(m), cfg).value;
            && 0 <= Ticks(e) && e.l.n <= cfg.maxInstructions
            && (cfg.chunkSize > 0 ==> (ChainOnSchedule(m, e, cfg) <==> !LateRoute(m, cfg, Ticks(e))))
            && (cfg.chunkSize > 0 ==> |e.l.states| <= Ticks(e) / cfg.chunkSize + 1)
            && (cfg.chunkSize == 0 ==> |e.l.states| == 1)
  {
    hide Iterate;
    RunEnd(m, Begin(m), cfg);
    if cfg.chunkSize > 0 {
      ScheduleKept(m, Begin(m), cfg);
    } else {
      StuckCounter(Begin(m), cfg);
    }
  }

  /** With no routed trap at all, entry i before the last is the chained hash of the state after
      exactly (i + 1) * chunkSize instruction steps. */
  lemma {:induction false} ChainIsIteratedSteps(H: Hasher, m: Machine, cfg: Config, e: End, i: nat)
    requires cfg.chunkSize > 0 && Iterate(Begin(m), cfg) == Some(e)
    requires forall j :: 0 <= j < Ticks(e) ==> !RoutedAt(m, cfg.tohost, j)
    requires i < |e.l.states| - 1
    ensures var s := StepN(m, cfg.tohost, Steps(i + 1, cfg.chunkSize));
            s.Some? && Chain(H, e.l.states)[i] == StateHash(H, Before(Chain(H, e.l.states), i), s.value)
  {
    hide Iterate, StateHash, Chain, TickOf, Step;
    LoopRefinesIteration(m, cfg);
    assert !LateRoute(m, cfg, Ticks(e));
    var front := e.l.states[..|e.l.states| - 1];
    assert front[i] == e.l.states[i];
    BoundaryWithinRun(i + 1, cfg.chunkSize, Ticks(e));
    TicksAreSteps(m, cfg.tohost, Steps(i + 1, cfg.chunkSize));
    ChainAt(H, e.l.states, i);
  }

  /** Instructions in a number of chunks. */
  function Steps(chunks: nat, chunkSize: nat): nat {
    chunks * chunkSize
  }

  lemma BoundaryWithinRun(i: nat, c: nat, n: nat)
    requires c > 0 && i <= n / c
    ensures i * c <= n
  {
    assert n == c * (n / c) + n % c;
    assert c * (n / c - i) == c * (n / c) - i * c;
    if i < n / c {
      MulAtLeast(c, n / c - i);
    }
  }

  // ---------------------------------------------------------------- what every state of a run keeps

  /** x0 is zero and only addressable pages are allocated. */
  ghost predicate Tame(m: Machine) {
    m.hart.x[0] == 0 && forall k :: k in m.pages ==> k < LOW_PAGES
  }

  /** Tame, and nothing latched. */
  ghost predicate Clean(m: Machine) {
    Tame(m) && m.hart.tohost.None?
  }

  /** Every state tame, and clean but for one that ends the run by latching tohost. */
  ghost predicate AllTame(states: seq<Machine>, status: Status) {
    forall i :: 0 <= i < |states| ==>
      Tame(states[i]) && (i < |states| - 1 || !status.Tohost? ==> Clean(states[i]))
  }

  lemma TickKeepsTame(m: Machine, tohost: Option<u64>)
    requires Clean(m)
    ensures var t := TickOf(m, tohost);
            && (t.Go? ==> Clean(t.m))
            && (t.Routed? ==> Clean(t.m))
            && (t.Stop? ==> Tame(t.m) && (t.status.Tohost? ==> tohost.Some?) && (!t.status.Tohost? ==> Clean(t.m)))
  {
    hide Step;
    StepLawful(m, tohost);
  }

  /** After any number of iterations of any run, with or without a tohost device. */
  lemma {:induction false} TicksAreTame(m: Machine, tohost: Option<u64>, j: nat)
    requires Clean(m)
    ensures TickN(m, tohost, j).Some? ==> Clean(TickN(m, tohost, j).value)
  {
    hide TickOf, Clean;
    if j > 0 {
      TicksAreTame(m, tohost, j - 1);
      if TickN(m, tohost, j - 1).Some? {
        TickKeepsTame(TickN(m, tohost, j - 1).value, tohost);
      }
    }
  }

  lemma {:induction false} IterateKeepsTame(l: Loop, cfg: Config)
    requires Clean(l.m) && forall i :: 0 <= i < |l.states| ==> Clean(l.states[i])
    ensures var r := Iterate(l, cfg);
            r.Some? ==> AllTame(r.value.l.states, r.value.status) && (r.value.status.Tohost? ==> cfg.tohost.Some?)
    decreases cfg.maxInstructions - l.n
  {
    hide TickOf, Capture, Tame, Iterate;
    TickKeepsTame(l.m, cfg.tohost);
    if l.n < cfg.maxInstructions {
      Unrolled(l, cfg);
      match TickOf(l.m, cfg.tohost) {
        case Go(m') =>
          if l.inChunk + 1 == cfg.chunkSize {
            IterateKeepsTame(l.Push(m', cfg).(n := l.n + 1, inChunk := 0), cfg);
          } else {
            IterateKeepsTame(l.(m := m', n := l.n + 1, inChunk := l.inChunk + 1), cfg);
          }
        case Routed(m') => IterateKeepsTame(l.(m := m', n := l.n + 1, inChunk := l.inChunk + 1), cfg);
        case _ =>
      }
    } else {
      LimitReached(l, cfg);
    }
  }

  /** Installing the input into addressable pages gives a clean start. */
  lemma StartIsTame(pages: PageMap, entry: u64, input: seq<byte>)
    requires forall k :: k in pages ==> k < LOW_PAGES
    ensures var m := Start(pages, entry, input); m.Some? ==> Clean(m.value)
  {
    hide ToLE;
    if INPUT_DATA_ADDR + |input| <= ADDR_SPACE {
      WriteBytesKeys(pages, INPUT_LEN_ADDR, ToLE(|input|, 8));
      WriteBytesKeys(WriteBytes(pages, INPUT_LEN_ADDR, ToLE(|input|, 8)), INPUT_DATA_ADDR, input);
    }
  }

  /** The states of an outcome are those hashed, less at most the last. */
  lemma ConcludeKeepsStates(e: End)
    requires |e.l.states| > 0
    ensures var o := Conclude(e);
            && |e.l.states| - 1 <= |o.states| <= |e.l.states|
            && o.states == e.l.states[..|o.states|]
            && o.snaps == e.l.snaps
            && (o.status.Tohost? <==> e.status.Tohost?) && (o.status.Tohost? ==> o.states == e.l.states)
  {
    hide Read, Region;
  }

  /** The outcome of a run and the end of its loop. */
  lemma {:induction false} RunIsIterate(pages: PageMap, entry: u64, input: seq<byte>, cfg: Config)
    requires RunJob(pages, entry, input, cfg).Some?
    ensures var m := Start(pages, entry, input);
            && m.Some?
            && Iterate(Begin(m.value), cfg).Some?
            && var e := Iterate(Begin(m.value), cfg).value;
               |e.l.states| > 0 && RunJob(pages, entry, input, cfg).value == Conclude(e)
  {
    hide Iterate, Start, Conclude, TickOf;
    var m := Start(pages, entry, input);
    if m.Some? {
      IterateEndsWithLast(Begin(m.value), cfg);
    }
  }

  /** In every run from a fresh processor, with or without a tohost device, x0 is zero and only
      addressable pages are allocated: after every iteration, and at every hashed state. */
  lemma RunStatesAreTame(pages: PageMap, entry: u64, input: seq<byte>, cfg: Config)
    requires forall k :: k in pages ==> k < LOW_PAGES
    requires RunJob(pages, entry, input, cfg).Some?
    ensures var o := RunJob(pages, entry, input, cfg).value;
            AllTame(o.states, o.status) && (o.status.Tohost? ==> cfg.tohost.Some?)
    ensures var m := Start(pages, entry, input);
            m.Some? && forall j :: TickN(m.value, cfg.tohost, j).Some? ==> Tame(TickN(m.value, cfg.tohost, j).value)
  {
    hide Iterate, TickOf, TickN, RunJob, Start, Conclude, Tame;
    RunIsIterate(pages, entry, input, cfg);
    StartIsTame(pages, entry, input);
    var m := Start(pages, entry, input).value;
    forall j | TickN(m, cfg.tohost, j).Some?
      ensures Tame(TickN(m, cfg.tohost, j).value)
    {
      TicksAreTame(m, cfg.tohost, j);
    }
    IterateKeepsTame(Begin(m), cfg);
    ConcludeKeepsStates(Iterate(Begin(m), cfg).value);
  }

  // ---------------------------------------------------------------- the outcome of a run

  /** Completed iterations of a finished run: every counted instruction except the one that halts, also
      when its over-long output was turned into a trap. */
  function Completed(o: Outcome): int {
    if o.status == Halted || o.status == Trapped(OutputTooLarge) then o.instructions - 1 else o.instructions
  }

  /** The chain of an outcome: the state after every chunkSize iterations, plus the exit state. */
  ghost predicate OutcomeOnSchedule(m: Machine, o: Outcome, cfg: Config)
    requires cfg.chunkSize > 0
  {
    && Completed(o) >= 0
    && |o.states| == Completed(o) / cfg.chunkSize + 1
    && OnBoundaries(m, cfg, o.states[..|o.states| - 1])
    && ExitState(m, o, cfg)
  }

  /** The last state hashed is the one where iterating stops. */
  ghost predicate ExitState(m: Machine, o: Outcome, cfg: Config)
    requires |o.states| > 0
  {
    && Completed(o) >= 0 && TickN(m, cfg.tohost, Completed(o)).Some?
    && var last := TickN(m, cfg.tohost, Completed(o)).value;
       var exit := o.states[|o.states| - 1];
       if o.status == InstructionLimit then exit == last && o.instructions == cfg.maxInstructions
       else TickOf(last, cfg.tohost) == Stop(o.status, exit)
  }

  /** Every run stays within its budget, and its chain is on schedule, with (completed iterations) /
      chunkSize + 1 entries, if and only if no routed trap takes the last slot of a chunk and the output is
      not over-long; an over-long output leaves exactly the boundary entries. */
  lemma RunRefinesIteration(pages: PageMap, entry: u64, input: seq<byte>, cfg: Config)
    requires RunJob(pages, entry, input, cfg).Some?
    ensures var m := Start(pages, entry, input);
            var o := RunJob(pages, entry, input, cfg).value;
            var large := o.status == Trapped(OutputTooLarge);
            && m.Some? && o.instructions <= cfg.maxInstructions && Completed(o) >= 0
            && (cfg.chunkSize > 0 ==>
                  && (OutcomeOnSchedule(m.value, o, cfg) <==> !LateRoute(m.value, cfg, Completed(o)) && !large)
                  && (large && !LateRoute(m.value, cfg, Completed(o)) ==>
                        |o.states| == Completed(o) / cfg.chunkSize && OnBoundaries(m.value, cfg, o.states)))
            && (cfg.chunkSize == 0 ==> |o.states| == if large then 0 else 1)
  {
    hide Iterate, Start, RunJob, TickOf, OnBoundaries, LateRoute;
    RunIsIterate(pages, entry, input, cfg);
    var m := Start(pages, entry, input).value;
    var e := Iterate(Begin(m), cfg).value;
    LoopRefinesIteration(m, cfg);
    RunEnd(m, Begin(m), cfg);
    IterateEndsWithLast(Begin(m), cfg);
    EndIsNoOutputTrap(m, cfg);
    ConcludeStates(e);
    hide Conclude;
  }

  lemma ConcludeStates(e: End)
    requires |e.l.states| > 0 && e.status != Trapped(OutputTooLarge)
    ensures var o := Conclude(e);
            && o.instructions == e.l.n && Completed(o) == Ticks(e)
            && (o.status == Trapped(OutputTooLarge) ==>
                  e.status == Halted && o.states == e.l.states[..|e.l.states| - 1])
            && (o.status != Trapped(OutputTooLarge) ==> o.status == e.status && o.states == e.l.states)
  {
    hide Read, Region;
  }

  /** The loop itself never ends in the trap reserved for an over-long output. */
  lemma {:induction false} EndIsNoOutputTrap(m: Machine, cfg: Config)
    requires Iterate(Begin(m), cfg).Some?
    ensures Iterate(Begin(m), cfg).value.status != Trapped(OutputTooLarge)
  {
    hide Iterate, TickOf;
    RunEnd(m, Begin(m), cfg);
    var e := Iterate(Begin(m), cfg).value;
    StopIsNoOutputTrap(TickN(m, cfg.tohost, Ticks(e)).value, cfg.tohost);
  }

  lemma StopIsNoOutputTrap(m: Machine, tohost: Option<u64>)
    ensures TickOf(m, tohost).Stop? ==> TickOf(m, tohost).status != Trapped(OutputTooLarge)
  {
    hide Step;
    StepLawful(m, tohost);
  }

  // ---------------------------------------------------------------- honest snapshots

  /** Each file is the capture of the state hashed under its index, which has nothing latched. */
  ghost predicate SnapsMatch(snaps: map<nat, seq<byte>>, states: seq<Machine>) {
    forall i :: i in snaps ==> i < |states| && snaps[i] == Capture(states[i]) && Clean(states[i])
  }

  lemma {:induction false} IterateKeepsSnaps(l: Loop, cfg: Config)
    requires SnapsMatch(l.snaps, l.states) && Clean(l.m)
    ensures var r := Iterate(l, cfg); r.Some? ==> SnapsMatch(r.value.l.snaps, r.value.l.states)
    decreases cfg.maxInstructions - l.n
  {
    hide TickOf, Capture, Clean, Iterate;
    TickKeepsTame(l.m, cfg.tohost);
    if l.n < cfg.maxInstructions {
      Unrolled(l, cfg);
      match TickOf(l.m, cfg.tohost) {
        case Go(m') =>
          if l.inChunk + 1 == cfg.chunkSize {
            IterateKeepsSnaps(l.Push(m', cfg).(n := l.n + 1, inChunk := 0), cfg);
          } else {
            IterateKeepsSnaps(l.(m := m', n := l.n + 1, inChunk := l.inChunk + 1), cfg);
          }
        case Routed(m') => IterateKeepsSnaps(l.(m := m', n := l.n + 1, inChunk := l.inChunk + 1), cfg);
        case _ =>
      }
    } else {
      LimitReached(l, cfg);
    }
  }

  /** A page map of addressable pages only is small enough for the snapshot's count field. */
  lemma LowPagesFit(pages: PageMap)
    requires forall k :: k in pages ==> k < LOW_PAGES
    ensures |pages| <= LOW_PAGES && WellIndexed(pages)
  {
    Memory.BoundedSetSize(pages.Keys, LOW_PAGES);
    assert |pages| == |pages.Keys|;
  }

  /** Every snapshot a run leaves under an index of its final chain restores to a state that hashes
      from the entry before to the entry at that index: an honest snapshot always verifies. */
  lemma HonestSnapshotsVerify(H: Hasher, pages: PageMap, entry: u64, input: seq<byte>, cfg: Config, i: nat)
    requires forall k :: k in pages ==> k < LOW_PAGES
    requires RunJob(pages, entry, input, cfg).Some?
    requires var o := RunJob(pages, entry, input, cfg).value; i in o.snaps && i < |o.states|
    ensures var o := RunJob(pages, entry, input, cfg).value;
            var chain := Chain(H, o.states);
            var r := Restore(o.snaps[i]);
            r == State(o.states[i]) && Hashing.StateHash(H, Before(chain, i), r.m) == chain[i]
  {
    hide Iterate, Hashing.StateHash, Chain, Capture, Restore, TickOf, RunJob, Start, Conclude;
    RunIsIterate(pages, entry, input, cfg);
    StartIsTame(pages, entry, input);
    var m := Start(pages, entry, input).value;
    var o := RunJob(pages, entry, input, cfg).value;
    IterateKeepsSnaps(Begin(m), cfg);
    ConcludeKeepsStates(Iterate(Begin(m), cfg).value);
    assert Clean(o.states[i]);
    LowPagesFit(o.states[i].pages);
    RestoreOfCapture(o.states[i]);
    ChainAt(H, o.states, i);
  }
}
