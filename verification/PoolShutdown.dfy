/** src/worker/reactor.rs: how the worker threads come to an end. */
module PoolShutdown {
  import opened Wrappers
  import opened WorkQueue
  import opened StealPool

  // ---------- after the flag is cleared ----------

  function IsProbing(pc: Pc): nat {
    if pc.Probe? then 1 else 0
  }

  function Map(pcs: seq<Pc>, f: Pc -> nat): (r: seq<nat>)
    ensures |r| == |pcs|
  {
    seq(|pcs|, i requires 0 <= i < |pcs| => f(pcs[i]))
  }

  lemma MapUpdate(pcs: seq<Pc>, f: Pc -> nat, w: nat, pc: Pc)
    requires w < |pcs|
    ensures Sum(Map(pcs[w := pc], f)) + f(pcs[w]) == Sum(Map(pcs, f)) + f(pc)
  {
    SumUpdate(Map(pcs, f), w, f(pc));
    assert Map(pcs[w := pc], f) == Map(pcs, f)[w := f(pc)];
  }

  ghost function Takes(s: Pool): nat {
    |Tasks(s.log, AllTaken)|
  }

  ghost function Probing(s: Pool): nat {
    Sum(Map(s.workers, IsProbing))
  }

  lemma NextTakes(s: Pool, a: Action)
    requires s.Valid() && !s.running
    ensures !Next(s, a).running
    ensures Takes(Next(s, a)) + Probing(Next(s, a)) <= Takes(s) + Probing(s)
  {
    var s' := Next(s, a);
    var effect := NextEffect(s, a);
    if effect.Some? {
      TasksExtend(s.log, effect.value, AllTaken);
    }
    if a.WorkerStep? && a.w < |s.workers| {
      assert s'.workers == s.workers[a.w := s'.workers[a.w]];
      MapUpdate(s.workers, IsProbing, a.w, s'.workers[a.w]);
    }
  }

  lemma {:induction false} RunTakes(s: Pool, schedule: seq<Action>)
    requires s.Valid() && !s.running
    ensures Takes(Run(s, schedule)) + Probing(Run(s, schedule)) <= Takes(s) + Probing(s)
    decreases |schedule|
  {
    if schedule != [] {
      NextTakes(s, schedule[0]);
      RunTakes(Next(s, schedule[0]), schedule[1..]);
    }
  }

  /** How many more steps worker `pc` of `n` can take once the flag is down. */
  function StepsLeft(n: nat, pc: Pc): nat {
    match pc
    case Exited => 0
    case CheckFlag => 1
    case Holding(_) => 2
    case Sleeping => 2
    case Probe(k) => if k < n then n - k + 2 else 0
  }

  function OwnSteps(schedule: seq<Action>, w: nat): nat {
    if schedule == [] then 0 else (if schedule[0] == WorkerStep(w) then 1 else 0) + OwnSteps(schedule[1..], w)
  }

  lemma {:induction false} ExitsInTime(s: Pool, schedule: seq<Action>, w: nat)
    requires s.Valid() && !s.running && w < |s.workers|
    ensures OwnSteps(schedule, w) >= StepsLeft(|s.workers|, s.workers[w]) ==> Run(s, schedule).workers[w].Exited?
    decreases |schedule|
  {
    if schedule != [] {
      ExitsInTime(Next(s, schedule[0]), schedule[1..], w);
    }
  }

  /**
   * After the flag is cleared, whatever is pushed and however the workers interleave: together
   * they take at most one task for each worker that was scanning, and a worker is gone once it
   * has made `StepsLeft` steps of its own, which is never more than n + 2.
   */
  lemma BoundedOverrun(s: Pool, schedule: seq<Action>)
    requires s.Valid() && !s.running
    ensures Takes(Run(s, schedule)) - Takes(s) <= Probing(s) <= |s.workers|
    ensures forall w: nat :: w < |s.workers| ==>
              StepsLeft(|s.workers|, s.workers[w]) <= |s.workers| + 2 &&
              (OwnSteps(schedule, w) >= StepsLeft(|s.workers|, s.workers[w]) ==>
                Run(s, schedule).workers[w].Exited?)
  {
    RunTakes(s, schedule);
    AtMostAll(s.workers);
    forall w: nat | w < |s.workers|
      ensures OwnSteps(schedule, w) >= StepsLeft(|s.workers|, s.workers[w]) ==> Run(s, schedule).workers[w].Exited?
    {
      ExitsInTime(s, schedule, w);
    }
  }

  lemma {:induction false} AtMostAll(pcs: seq<Pc>)
    ensures Sum(Map(pcs, IsProbing)) <= |pcs|
  {
    if pcs != [] {
      AtMostAll(pcs[1..]);
      assert Map(pcs, IsProbing)[1..] == Map(pcs[1..], IsProbing);
    }
  }

  // ---------- shutdown by message ----------

  /** A worker that still has to receive a `Shutdown`. */
  function IsNeedy(pc: Pc): nat {
    if pc.Exited? || pc == Holding(Shutdown) then 0 else 1
  }

  ghost function Needy(s: Pool): nat {
    Sum(Map(s.workers, IsNeedy))
  }

  ghost function QueuedShutdowns(s: Pool): nat {
    Queued(s.queues)[Shutdown]
  }

  /** At least one `Shutdown` is queued for every worker that still needs one, in whichever queue. */
  ghost predicate Armed(s: Pool) {
    QueuedShutdowns(s) >= Needy(s)
  }

  lemma NextNeedy(s: Pool, w: nat)
    requires s.Valid() && w < |s.workers|
    ensures var s' := Next(s, WorkerStep(w));
            Needy(s') + IsNeedy(s.workers[w]) == Needy(s) + IsNeedy(s'.workers[w])
  {
    var s' := Next(s, WorkerStep(w));
    assert s'.workers == s.workers[w := s'.workers[w]];
    MapUpdate(s.workers, IsNeedy, w, s'.workers[w]);
  }

  /** Without pushes a step never loses a `Shutdown`; while the flag is up it does not waste a worker either. */
  lemma NextBalance(s: Pool, a: Action)
    requires s.Valid() && !a.Push?
    ensures QueuedShutdowns(Next(s, a)) - Needy(Next(s, a)) >= QueuedShutdowns(s) - Needy(s)
    ensures s.running ==> QueuedShutdowns(Next(s, a)) - Needy(Next(s, a)) == QueuedShutdowns(s) - Needy(s)
  {
    hide Needy, Queued;
    var effect := NextEffect(s, a);
    if effect.Some? {
      QueuedTake(s.queues, effect.value.q);
    }
    if a.WorkerStep? && a.w < |s.workers| {
      NextNeedy(s, a.w);
    } else {
      assert Next(s, a).workers == s.workers;
      SameNeedy(s, Next(s, a));
    }
  }

  lemma SameNeedy(s: Pool, s': Pool)
    requires s.workers == s'.workers
    ensures Needy(s) == Needy(s')
  {}

  /** All queues that worker `w` has probed in its current scan are empty (still, or again). */
  predicate CleanScan(s: Pool, w: nat, k: nat) {
    forall j: nat :: j < k && ProbeTarget(w, j) < |s.queues| ==> s.queues[ProbeTarget(w, j)] == []
  }

  /** Worker `w` is not inside a scan that may have missed tasks. */
  predicate Clean(s: Pool, w: nat) {
    w < |s.workers| && !s.workers[w].Sleeping? && (s.workers[w].Probe? ==> CleanScan(s, w, s.workers[w].k))
  }

  lemma NextStaysEmpty(s: Pool, a: Action, q: nat)
    requires s.Valid() && !a.Push? && q < |s.queues| && s.queues[q] == []
    ensures Next(s, a).queues[q] == []
  {
    var effect := NextEffect(s, a);
  }

  lemma NextStaysCleanScan(s: Pool, a: Action, w: nat, k: nat)
    requires s.Valid() && !a.Push? && CleanScan(s, w, k)
    ensures CleanScan(Next(s, a), w, k)
  {
    forall j: nat | j < k && ProbeTarget(w, j) < |s.queues|
      ensures Next(s, a).queues[ProbeTarget(w, j)] == []
    {
      NextStaysEmpty(s, a, ProbeTarget(w, j));
    }
  }

  lemma NextStaysClean(s: Pool, a: Action, w: nat)
    requires s.Valid() && Armed(s) && !a.Push? && Clean(s, w)
    ensures Clean(Next(s, a), w)
  {
    var s' := Next(s, a);
    if s.workers[w].Probe? {
      var k := s.workers[w].k;
      NextStaysCleanScan(s, a, w, k);
      if s'.workers[w].Sleeping? {
        CleanScanFindsShutdown(s, w, k);
        assert false;
      } else if s'.workers[w] == Probe(k + 1) {
        assert s'.queues == s.queues;
      }
    }
  }

  /** With a `Shutdown` queued for it, a worker whose scan is clean cannot be at an empty last queue. */
  lemma CleanScanFindsShutdown(s: Pool, w: nat, k: nat)
    requires s.Valid() && Armed(s) && w < |s.workers| && s.workers[w] == Probe(k)
    requires CleanScan(s, w, k) && k + 1 == |s.queues|
    ensures s.queues[ProbeTarget(w, k)] != []
  {
    var n := |s.queues|;
    SumAtLeast(Map(s.workers, IsNeedy), w);
    assert Map(s.workers, IsNeedy)[w] == IsNeedy(s.workers[w]) == 1;
    assert Needy(s) >= 1;
    if s.queues[ProbeTarget(w, k)] == [] {
      ProbesCoverEveryQueueOnce(n, w);
      forall q: nat | q < n
        ensures s.queues[q] == []
      {
        assert ProbeTarget(w, ProbeIndex(w, q)) == q;
      }
      NothingQueued(s.queues);
      assert false;
    }
  }

  predicate PushFree(schedule: seq<Action>) {
    forall i :: 0 <= i < |schedule| ==> !schedule[i].Push?
  }

  /** No pop that starts after the pushes have stopped comes back empty-handed. */
  lemma {:induction false} NoFreshPopFails(s: Pool, schedule: seq<Action>, w: nat)
    requires s.Valid() && Armed(s) && PushFree(schedule) && Clean(s, w)
    ensures Clean(Run(s, schedule), w) && !Run(s, schedule).workers[w].Sleeping?
    decreases |schedule|
  {
    if schedule != [] {
      NextStaysClean(s, schedule[0], w);
      NextBalance(s, schedule[0]);
      NoFreshPopFails(Next(s, schedule[0]), schedule[1..], w);
    }
  }

  // ---------- the measure ----------

  function Rank(s: Pool, w: nat): nat
    requires s.Valid() && w < |s.workers|
  {
    var n := |s.workers|;
    match s.workers[w]
    case Exited => 0
    case Probe(k) => if CleanScan(s, w, k) then n - k else 2 * n + 2 - k
    case CheckFlag => n + 1
    case Holding(_) => n + 2
    case Sleeping => n + 2
  }

  function Ranks(s: Pool): (r: seq<nat>)
    requires s.Valid()
    ensures |r| == |s.workers|
  {
    seq(|s.workers|, w requires 0 <= w < |s.workers| => Rank(s, w))
  }

  /** `t` queued tasks weigh n + 2 each. */
  function Weight(n: nat, t: nat): nat {
    if t == 0 then 0 else n + 2 + Weight(n, t - 1)
  }

  ghost function Measure(s: Pool): nat
    requires s.Valid()
  {
    Weight(|s.workers|, |Queued(s.queues)|) + Sum(Ranks(s))
  }

  predicate IsLiveStep(s: Pool, a: Action) {
    a.WorkerStep? && s.Live(a.w)
  }

  lemma NextOtherRanks(s: Pool, a: Action, w: nat)
    requires s.Valid() && Armed(s) && !a.Push? && w < |s.workers| && a != WorkerStep(w)
    ensures Rank(Next(s, a), w) <= Rank(s, w)
  {
    assert Next(s, a).workers[w] == s.workers[w];
    if s.workers[w].Probe? && CleanScan(s, w, s.workers[w].k) {
      NextStaysCleanScan(s, a, w, s.workers[w].k);
    }
  }

  lemma NextOwnRank(s: Pool, w: nat)
    requires s.Valid() && Armed(s) && s.Live(w)
    ensures var s' := Next(s, WorkerStep(w));
            if s'.queues == s.queues then Rank(s', w) < Rank(s, w)
            else Rank(s', w) == |s.workers| + 2 && Rank(s, w) > 0
  {
    var s' := Next(s, WorkerStep(w));
    if s.workers[w].Probe? && s'.workers[w].Sleeping? && CleanScan(s, w, s.workers[w].k) {
      CleanScanFindsShutdown(s, w, s.workers[w].k);
      assert false;
    }
  }

  lemma NextRanks(s: Pool, a: Action)
    requires s.Valid() && Armed(s) && !a.Push?
    ensures IsLiveStep(s, a) ==>
              Sum(Ranks(Next(s, a))) + Rank(s, a.w) <= Sum(Ranks(s)) + Rank(Next(s, a), a.w)
    ensures !IsLiveStep(s, a) ==> Sum(Ranks(Next(s, a))) <= Sum(Ranks(s))
  {
    var s' := Next(s, a);
    forall w: nat | w < |s.workers| && a != WorkerStep(w)
      ensures Ranks(s')[w] <= Ranks(s)[w]
    {
      NextOtherRanks(s, a, w);
    }
    if IsLiveStep(s, a) {
      SumStep(Ranks(s'), Ranks(s), a.w);
    } else {
      assert a.WorkerStep? ==> s' == s;
      SumMonotone(Ranks(s'), Ranks(s));
    }
  }

  /** Without pushes every step of a live worker decreases the measure and no step increases it. */
  lemma NextMeasure(s: Pool, a: Action)
    requires s.Valid() && Armed(s) && !a.Push?
    ensures Measure(Next(s, a)) + (if IsLiveStep(s, a) then 1 else 0) <= Measure(s)
  {
    hide Rank, Ranks, Sum, Next, Queued, Tasks;
    NextRanks(s, a);
    var effect := NextEffect(s, a);
    if IsLiveStep(s, a) {
      NextOwnRank(s, a.w);
    }
    if effect.Some? {
      QueuedTake(s.queues, effect.value.q);
      assert |Queued(s.queues)| == |Queued(Next(s, a).queues)| + 1;
    }
  }

  // ---------- infinite runs ----------

  /** An infinite run: `run(i)` is the pool before action `schedule(i)`. */
  ghost predicate IsRun(run: nat -> Pool, schedule: nat -> Action) {
    forall i: nat {:trigger schedule(i)} :: run(i).Valid() && run(i + 1) == Next(run(i), schedule(i))
  }

  /** A run without pushes. */
  ghost predicate QuietRun(run: nat -> Pool, schedule: nat -> Action) {
    IsRun(run, schedule) && forall i: nat :: !schedule(i).Push?
  }

  ghost predicate LiveStepAt(run: nat -> Pool, schedule: nat -> Action, i: nat) {
    IsLiveStep(run(i), schedule(i))
  }

  /** At time `i` all workers are gone, or a live one gets to run again. */
  ghost predicate FairAt(run: nat -> Pool, schedule: nat -> Action, i: nat) {
    run(i).AllExited() || exists j: nat :: i <= j && LiveStepAt(run, schedule, j)
  }

  ghost predicate Fair(run: nat -> Pool, schedule: nat -> Action) {
    forall i: nat :: FairAt(run, schedule, i)
  }

  ghost predicate Stops(run: nat -> Pool) {
    exists i: nat :: run(i).AllExited()
  }

  lemma NextArmed(s: Pool, a: Action, s': Pool)
    requires s.Valid() && Armed(s) && !a.Push? && s' == Next(s, a)
    ensures Armed(s') && Measure(s') <= Measure(s) && (IsLiveStep(s, a) ==> Measure(s') < Measure(s))
  {
    NextBalance(s, a);
    NextMeasure(s, a);
  }

  lemma {:induction false} ArmedThroughout(run: nat -> Pool, schedule: nat -> Action, i: nat, j: nat)
    requires QuietRun(run, schedule) && i <= j && run(i).Valid() && Armed(run(i))
    ensures run(j).Valid() && Armed(run(j)) && Measure(run(j)) <= Measure(run(i))
    decreases j - i
  {
    if i < j {
      ArmedThroughout(run, schedule, i, j - 1);
      NextArmed(run(j - 1), schedule(j - 1), run(j));
    }
  }

  /** A live step at time `k` leaves the pool armed, with a smaller measure than at any earlier time. */
  lemma LiveStepProgress(run: nat -> Pool, schedule: nat -> Action, i: nat, k: nat)
    requires QuietRun(run, schedule) && i <= k && run(i).Valid() && Armed(run(i)) && LiveStepAt(run, schedule, k)
    ensures run(k + 1).Valid() && Armed(run(k + 1)) && Measure(run(k + 1)) < Measure(run(i))
  {
    ArmedThroughout(run, schedule, i, k);
    NextArmed(run(k), schedule(k), run(k + 1));
  }

  /**
   * Once the pushes have stopped, enough `Shutdown`s end every worker in every fair run,
   * whoever takes whose and whether or not the flag is cleared meanwhile.
   */
  lemma ShutdownsEndThePool(run: nat -> Pool, schedule: nat -> Action)
    requires QuietRun(run, schedule) && Fair(run, schedule) && Armed(run(0))
    ensures Stops(run)
  {
    var i := 0;
    assert schedule(i) == schedule(0);
    while !run(i).AllExited()
      invariant run(i).Valid() && Armed(run(i))
      decreases Measure(run(i))
    {
      assert FairAt(run, schedule, i);
      var k: nat :| i <= k && LiveStepAt(run, schedule, k);
      LiveStepProgress(run, schedule, i, k);
      i := k + 1;
    }
  }

  lemma {:induction false} BalanceKept(run: nat -> Pool, schedule: nat -> Action, i: nat)
    requires QuietRun(run, schedule) && forall j: nat :: run(j).running
    ensures QueuedShutdowns(run(i)) - Needy(run(i)) == QueuedShutdowns(run(0)) - Needy(run(0))
  {
    if i > 0 {
      BalanceKept(run, schedule, i - 1);
      assert run(i) == Next(run(i - 1), schedule(i - 1));
      NextBalance(run(i - 1), schedule(i - 1));
    }
  }

  lemma NobodyNeedy(s: Pool)
    requires s.AllExited()
    ensures Needy(s) == 0
  {
    forall w: nat | w < |s.workers|
      ensures Map(s.workers, IsNeedy)[w] == 0
    {
      assert IsNeedy(s.workers[w]) == 0;
    }
    SumZero(Map(s.workers, IsNeedy));
  }

  // ---------- the cleared flag ends the pool too ----------

  ghost function AllStepsLeft(s: Pool): nat {
    Sum(Map(s.workers, pc => StepsLeft(|s.workers|, pc)))
  }

  /** With the flag down every step of a live worker uses up one of its remaining steps, whatever is pushed. */
  lemma NextStepsLeft(s: Pool, a: Action, s': Pool)
    requires s.Valid() && !s.running && s' == Next(s, a)
    ensures !s'.running && AllStepsLeft(s') + (if IsLiveStep(s, a) then 1 else 0) <= AllStepsLeft(s)
  {
    var n := |s.workers|;
    var f := pc => StepsLeft(n, pc);
    assert Map(s.workers, f) == Map(s.workers, pc => StepsLeft(|s.workers|, pc));
    assert Map(s'.workers, f) == Map(s'.workers, pc => StepsLeft(|s'.workers|, pc));
    if a.WorkerStep? && a.w < n {
      assert s'.workers == s.workers[a.w := s'.workers[a.w]];
      MapUpdate(s.workers, f, a.w, s'.workers[a.w]);
    } else {
      assert s'.workers == s.workers;
    }
  }

  lemma {:induction false} DownThroughout(run: nat -> Pool, schedule: nat -> Action, i: nat, j: nat)
    requires IsRun(run, schedule) && i <= j && !run(i).running
    ensures run(j).Valid() && !run(j).running && AllStepsLeft(run(j)) <= AllStepsLeft(run(i))
    decreases j - i
  {
    assert schedule(i) == schedule(i);
    if i < j {
      DownThroughout(run, schedule, i, j - 1);
      NextStepsLeft(run(j - 1), schedule(j - 1), run(j));
    }
  }

  /** Once the flag is down, every fair run ends, whatever is pushed. */
  lemma ClearedFlagEndsThePool(run: nat -> Pool, schedule: nat -> Action, start: nat)
    requires IsRun(run, schedule) && Fair(run, schedule) && !run(start).running
    ensures Stops(run)
  {
    var i: nat := start;
    while !run(i).AllExited()
      invariant !run(i).running
      decreases AllStepsLeft(run(i))
    {
      assert FairAt(run, schedule, i);
      var k: nat :| i <= k && LiveStepAt(run, schedule, k);
      DownThroughout(run, schedule, i, k);
      NextStepsLeft(run(k), schedule(k), run(k + 1));
      i := k + 1;
    }
  }

  /**
   * When nothing is pushed any more, a fair run ends exactly if enough `Shutdown`s are queued at
   * that point or the flag is seen down at some time.
   */
  lemma PoolStopsIff(run: nat -> Pool, schedule: nat -> Action)
    requires QuietRun(run, schedule) && Fair(run, schedule)
    ensures Stops(run) <==> Armed(run(0)) || exists i: nat :: !run(i).running
  {
    if Armed(run(0)) {
      ShutdownsEndThePool(run, schedule);
    }
    if i: nat :| !run(i).running {
      ClearedFlagEndsThePool(run, schedule, i);
    } else if Stops(run) {
      var i: nat :| run(i).AllExited();
      BalanceKept(run, schedule, i);
      NobodyNeedy(run(i));
    }
  }
}
