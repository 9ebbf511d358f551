/**
 * src/worker/queue.rs and src/worker/reactor.rs: the worker threads and the shared queues as one
 * interleaved step system.  A run is a schedule: any sequence of worker steps, pushes by
 * producers and the clearing of the `running` flag.  One probe of one queue is one step.
 */
module StealPool {
  import opened Wrappers
  import opened WorkQueue

  /** Where a worker stands in `worker_thread`. */
  datatype Pc =
    | CheckFlag
    | Probe(k: nat)
    | Holding(task: Task)
    | Sleeping
    | Exited

  datatype Event =
    | Accepted(q: nat, task: Task)
    | Rejected(q: nat, task: Task)
    | Took(w: nat, q: nat, task: Task)

  datatype Pool = Pool(capacity: nat, queues: seq<seq<Task>>, workers: seq<Pc>, running: bool, log: seq<Event>) {
    ghost predicate Valid() {
      && capacity > 0
      && |workers| == |queues|
      && (forall q :: 0 <= q < |queues| ==> |queues[q]| <= capacity)
      && (forall w :: 0 <= w < |workers| ==> workers[w].Probe? ==> workers[w].k < |queues|)
    }

    function At(w: nat, pc: Pc): Pool
      requires w < |workers|
    {
      this.(workers := workers[w := pc])
    }

    predicate AllExited() {
      forall w :: 0 <= w < |workers| ==> workers[w].Exited?
    }

    predicate AllQueuesEmpty() {
      forall q :: 0 <= q < |queues| ==> queues[q] == []
    }

    predicate Live(w: nat) {
      w < |workers| && !workers[w].Exited?
    }
  }

  datatype Action =
    | WorkerStep(w: nat)
    | Push(q: nat, task: Task)
    | ClearFlag

  /** One step of worker `w`: check the flag, probe one queue, dispose of a task, or wake up. */
  function StepWorker(s: Pool, w: nat): (s': Pool)
    requires s.Valid() && w < |s.workers|
    ensures s'.Valid()
  {
    match s.workers[w]
    case CheckFlag => s.At(w, if s.running then Probe(0) else Exited)
    case Probe(k) =>
      var q := ProbeTarget(w, k);
      if s.queues[q] != [] then
        var task := s.queues[q][0];
        s.At(w, Holding(task)).(queues := s.queues[q := s.queues[q][1..]], log := s.log + [Took(w, q, task)])
      else
        s.At(w, if k + 1 < |s.queues| then Probe(k + 1) else Sleeping)
    case Holding(task) => s.At(w, if task.Shutdown? then Exited else CheckFlag)
    case Sleeping => s.At(w, CheckFlag)
    case Exited => s
  }

  function StepPush(s: Pool, q: nat, task: Task): (s': Pool)
    requires s.Valid() && q < |s.queues|
    ensures s'.Valid()
  {
    if |s.queues[q]| < s.capacity then
      s.(queues := s.queues[q := s.queues[q] + [task]], log := s.log + [Accepted(q, task)])
    else
      s.(log := s.log + [Rejected(q, task)])
  }

  /** Actions that name no worker or queue of the pool do nothing, so every schedule is a run. */
  function Next(s: Pool, a: Action): (s': Pool)
    requires s.Valid()
    ensures s'.Valid() && |s'.workers| == |s.workers| && |s'.queues| == |s.queues| && s'.capacity == s.capacity
    ensures s'.running <==> s.running && !a.ClearFlag?
  {
    match a
    case WorkerStep(w) => if w < |s.workers| then StepWorker(s, w) else s
    case Push(q, task) => if q < |s.queues| then StepPush(s, q, task) else s
    case ClearFlag => s.(running := false)
  }

  function Run(s: Pool, schedule: seq<Action>): (s': Pool)
    requires s.Valid()
    ensures s'.Valid() && |s'.workers| == |s.workers| && |s'.queues| == |s.queues| && s'.capacity == s.capacity
    decreases |schedule|
  {
    if schedule == [] then s else Run(Next(s, schedule[0]), schedule[1..])
  }

  /** `Reactor::start`: the flag is set, the queues are empty and every worker is about to check the flag. */
  function Start(n: nat, capacity: nat): (s: Pool)
    requires capacity > 0
    ensures s.Valid() && s.capacity == capacity && s.running && s.log == [] && s.AllQueuesEmpty()
    ensures |s.workers| == |s.queues| == n && forall w :: 0 <= w < n ==> s.workers[w] == CheckFlag
  {
    Pool(capacity, seq(n, _ => []), seq(n, _ => CheckFlag), true, [])
  }

  /** What a step leaves in the log, and what it does to the queues. */
  ghost predicate HasEffect(s: Pool, s': Pool, effect: Option<Event>) {
    match effect
    case None => s'.log == s.log && s'.queues == s.queues
    case Some(e) =>
      && s'.log == s.log + [e]
      && e.q < |s.queues|
      && match e
         case Accepted(q, task) => s'.queues == s.queues[q := s.queues[q] + [task]]
         case Rejected(q, task) => s'.queues == s.queues
         case Took(w, q, task) =>
           && w < |s.workers|
           && s.queues[q] != [] && s.queues[q][0] == task
           && s'.queues == s.queues[q := s.queues[q][1..]]
  }

  lemma NextEffect(s: Pool, a: Action) returns (effect: Option<Event>)
    requires s.Valid()
    ensures HasEffect(s, Next(s, a), effect)
    ensures effect.Some? && !effect.value.Took? ==> a.Push? && a.q == effect.value.q
    ensures effect.Some? && effect.value.Took? ==>
              var e := effect.value;
              a == WorkerStep(e.w) && s.workers[e.w].Probe? && Next(s, a) == s.At(e.w, Holding(e.task)).(
                queues := s.queues[e.q := s.queues[e.q][1..]], log := s.log + [e])
  {
    var s' := Next(s, a);
    if |s'.log| == |s.log| {
      effect := None;
    } else {
      effect := Some(s'.log[|s.log|]);
    }
  }

  /** A push is refused exactly when its queue is full; the task is handed back and nothing else changes. */
  lemma PushRefusedIffFull(s: Pool, q: nat, task: Task)
    requires s.Valid() && q < |s.queues|
    ensures Next(s, Push(q, task)) == s.(log := s.log + [Rejected(q, task)]) <==> |s.queues[q]| == s.capacity
  {
    if |s.queues[q]| < s.capacity {
      assert Next(s, Push(q, task)).log[|s.log|] == Accepted(q, task);
      assert (s.log + [Rejected(q, task)])[|s.log|] == Rejected(q, task);
    }
  }

  // ---------- what a log says ----------

  datatype Selector =
    | IntoQueue(q: nat)
    | OutOfQueue(q: nat)
    | ByWorker(w: nat)
    | ByWorkerFrom(w: nat, q: nat)
    | AllAccepted
    | AllTaken

  predicate Selects(sel: Selector, e: Event) {
    match sel
    case IntoQueue(q) => e.Accepted? && e.q == q
    case OutOfQueue(q) => e.Took? && e.q == q
    case ByWorker(w) => e.Took? && e.w == w
    case ByWorkerFrom(w, q) => e.Took? && e.w == w && e.q == q
    case AllAccepted => e.Accepted?
    case AllTaken => e.Took?
  }

  /** The tasks of the selected events, oldest first. */
  function Tasks(log: seq<Event>, sel: Selector): seq<Task> {
    if log == [] then [] else
      var e := log[|log| - 1];
      Tasks(log[..|log| - 1], sel) + if Selects(sel, e) then [e.task] else []
  }

  lemma TasksExtend(log: seq<Event>, e: Event, sel: Selector)
    ensures Tasks(log + [e], sel) == Tasks(log, sel) + if Selects(sel, e) then [e.task] else []
  {
    assert (log + [e])[..|log|] == log;
  }

  // ---------- order ----------

  /** `s` comes after `s0` in a run. */
  ghost predicate Follows(s0: Pool, s: Pool) {
    |s.queues| == |s0.queues| && |s0.log| <= |s.log| && s.log[..|s0.log|] == s0.log
  }

  /** What has happened between two points of a run. */
  ghost function Since(s0: Pool, s: Pool): seq<Event>
    requires Follows(s0, s)
  {
    s.log[|s0.log|..]
  }

  /** The tasks queue `q` accepted between two points of a run, oldest first. */
  ghost function AcceptedSince(s0: Pool, s: Pool, q: nat): seq<Task>
    requires Follows(s0, s)
  {
    Tasks(Since(s0, s), IntoQueue(q))
  }

  /**
   * Queue `q` loses tasks at the front and gains them at the back: what was removed since `s0`, then
   * what it holds, is what it held at `s0`, then what was pushed.
   */
  ghost predicate InOrder(s0: Pool, s: Pool, q: nat)
    requires Follows(s0, s) && q < |s.queues|
  {
    Tasks(Since(s0, s), OutOfQueue(q)) + s.queues[q] == s0.queues[q] + AcceptedSince(s0, s, q)
  }

  lemma NextInOrder(s0: Pool, s: Pool, a: Action, q: nat)
    requires s.Valid() && Follows(s0, s) && q < |s.queues| && InOrder(s0, s, q)
    ensures Follows(s0, Next(s, a)) && InOrder(s0, Next(s, a), q)
  {
    hide Tasks, Next;
    var s' := Next(s, a);
    var effect := NextEffect(s, a);
    if effect.Some? {
      assert Since(s0, s') == Since(s0, s) + [effect.value];
      TasksExtend(Since(s0, s), effect.value, OutOfQueue(q));
      TasksExtend(Since(s0, s), effect.value, IntoQueue(q));
      var removed, e := Tasks(Since(s0, s), OutOfQueue(q)), effect.value;
      if Selects(OutOfQueue(q), e) {
        assert removed + [e.task] + s'.queues[q] == removed + s.queues[q];
      } else {
        var pushed := if Selects(IntoQueue(q), e) then [e.task] else [];
        assert removed + s'.queues[q] == removed + s.queues[q] + pushed;
        assert s0.queues[q] + (AcceptedSince(s0, s, q) + pushed) == s0.queues[q] + AcceptedSince(s0, s, q) + pushed;
      }
    }
  }

  lemma {:induction false} RunInOrder(s0: Pool, s: Pool, schedule: seq<Action>, q: nat)
    requires s.Valid() && Follows(s0, s) && q < |s.queues| && InOrder(s0, s, q)
    ensures Follows(s0, Run(s, schedule)) && InOrder(s0, Run(s, schedule), q)
    decreases |schedule|
  {
    if schedule != [] {
      NextInOrder(s0, s, schedule[0], q);
      RunInOrder(s0, Next(s, schedule[0]), schedule[1..], q);
    }
  }

  predicate Subsequence<T(==)>(a: seq<T>, b: seq<T>) {
    a == [] || (b != [] &&
      (Subsequence(a, b[..|b| - 1]) || (a[|a| - 1] == b[|b| - 1] && Subsequence(a[..|a| - 1], b[..|b| - 1]))))
  }

  lemma {:induction false} SubsequenceExtend<T>(a: seq<T>, b: seq<T>, c: seq<T>)
    requires Subsequence(a, b)
    ensures Subsequence(a, b + c)
  {
    if c == [] {
      assert b + c == b;
    } else {
      SubsequenceExtend(a, b, c[..|c| - 1]);
      assert (b + c)[..|b + c| - 1] == b + c[..|c| - 1];
    }
  }

  lemma {:induction false} WorkerTakesSubsequence(log: seq<Event>, w: nat, q: nat)
    ensures Subsequence(Tasks(log, ByWorkerFrom(w, q)), Tasks(log, OutOfQueue(q)))
  {
    if log != [] {
      WorkerTakesSubsequence(log[..|log| - 1], w, q);
      var e := log[|log| - 1];
      var a, b := Tasks(log[..|log| - 1], ByWorkerFrom(w, q)), Tasks(log[..|log| - 1], OutOfQueue(q));
      if Selects(OutOfQueue(q), e) {
        assert (a + [e.task])[..|a|] == a && (b + [e.task])[..|b|] == b;
      }
      assert Tasks(log, ByWorkerFrom(w, q)) == if Selects(ByWorkerFrom(w, q), e) then a + [e.task] else a;
      assert Tasks(log, OutOfQueue(q)) == if Selects(OutOfQueue(q), e) then b + [e.task] else b;
    }
  }

  /**
   * Stealing never reorders a queue: in every run the removals from a queue by all workers are a
   * prefix of the pushes it accepted, the rest is what it still holds, and each worker's share is
   * a subsequence of push order.
   */
  lemma OrderSurvivesStealing(n: nat, capacity: nat, schedule: seq<Action>, q: nat, w: nat)
    requires capacity > 0 && q < n
    ensures var s := Run(Start(n, capacity), schedule);
            && Tasks(s.log, OutOfQueue(q)) + s.queues[q] == Tasks(s.log, IntoQueue(q))
            && Subsequence(Tasks(s.log, ByWorkerFrom(w, q)), Tasks(s.log, IntoQueue(q)))
  {
    var s0 := Start(n, capacity);
    var s := Run(s0, schedule);
    RunInOrder(s0, s0, schedule, q);
    assert Since(s0, s) == s.log;
    WorkerTakesSubsequence(s.log, w, q);
    SubsequenceExtend(Tasks(s.log, ByWorkerFrom(w, q)), Tasks(s.log, OutOfQueue(q)), s.queues[q]);
  }

  // ---------- conservation ----------

  ghost function Queued(queues: seq<seq<Task>>): multiset<Task> {
    if queues == [] then multiset{} else multiset(queues[0]) + Queued(queues[1..])
  }

  lemma {:induction false} QueuedPush(queues: seq<seq<Task>>, q: nat, task: Task)
    requires q < |queues|
    ensures Queued(queues[q := queues[q] + [task]]) == Queued(queues) + multiset{task}
  {
    var after := queues[q := queues[q] + [task]];
    if q == 0 {
      assert after[1..] == queues[1..];
    } else {
      QueuedPush(queues[1..], q - 1, task);
      assert after[1..] == queues[1..][q - 1 := queues[1..][q - 1] + [task]];
    }
  }

  lemma {:induction false} QueuedTake(queues: seq<seq<Task>>, q: nat)
    requires q < |queues| && queues[q] != []
    ensures Queued(queues) == Queued(queues[q := queues[q][1..]]) + multiset{queues[q][0]}
  {
    var after := queues[q := queues[q][1..]];
    if q == 0 {
      assert queues[0] == [queues[0][0]] + queues[0][1..];
      assert after[1..] == queues[1..];
    } else {
      QueuedTake(queues[1..], q - 1);
      assert after[1..] == queues[1..][q - 1 := queues[1..][q - 1][1..]];
    }
  }

  /** Everything workers 0..n-1 have taken. */
  ghost function TakenByWorkers(log: seq<Event>, n: nat): multiset<Task> {
    if n == 0 then multiset{} else TakenByWorkers(log, n - 1) + multiset(Tasks(log, ByWorker(n - 1)))
  }

  lemma {:induction false} TakenByWorkersExtend(log: seq<Event>, e: Event, n: nat)
    ensures TakenByWorkers(log + [e], n) ==
            TakenByWorkers(log, n) + if e.Took? && e.w < n then multiset{e.task} else multiset{}
  {
    hide Tasks;
    if n > 0 {
      TakenByWorkersExtend(log, e, n - 1);
      TasksExtend(log, e, ByWorker(n - 1));
    }
  }

  ghost predicate Conserved(s: Pool) {
    multiset(Tasks(s.log, AllAccepted)) == Queued(s.queues) + TakenByWorkers(s.log, |s.workers|)
  }

  lemma NextConserved(s: Pool, a: Action)
    requires s.Valid() && Conserved(s)
    ensures Conserved(Next(s, a))
  {
    hide Tasks, TakenByWorkers, Queued, Next;
    var s' := Next(s, a);
    var effect := NextEffect(s, a);
    if effect.Some? {
      EffectConserves(s, effect.value);
    }
  }

  lemma EffectConserves(s: Pool, e: Event)
    requires e.q < |s.queues| && (e.Took? ==> e.w < |s.workers| && s.queues[e.q] != [] && e.task == s.queues[e.q][0])
    ensures multiset(Tasks(s.log + [e], AllAccepted)) ==
            multiset(Tasks(s.log, AllAccepted)) + if e.Accepted? then multiset{e.task} else multiset{}
    ensures TakenByWorkers(s.log + [e], |s.workers|) ==
            TakenByWorkers(s.log, |s.workers|) + if e.Took? then multiset{e.task} else multiset{}
    ensures e.Accepted? ==> Queued(s.queues[e.q := s.queues[e.q] + [e.task]]) == Queued(s.queues) + multiset{e.task}
    ensures e.Took? ==> Queued(s.queues) == Queued(s.queues[e.q := s.queues[e.q][1..]]) + multiset{e.task}
  {
    hide Tasks, TakenByWorkers, Queued;
    TasksExtend(s.log, e, AllAccepted);
    TakenByWorkersExtend(s.log, e, |s.workers|);
    if e.Accepted? {
      QueuedPush(s.queues, e.q, e.task);
    } else if e.Took? {
      QueuedTake(s.queues, e.q);
    }
  }

  lemma {:induction false} RunConserved(s: Pool, schedule: seq<Action>)
    requires s.Valid() && Conserved(s)
    ensures Conserved(Run(s, schedule))
    decreases |schedule|
  {
    if schedule != [] {
      NextConserved(s, schedule[0]);
      RunConserved(Next(s, schedule[0]), schedule[1..]);
    }
  }

  lemma {:induction false} NothingQueued(queues: seq<seq<Task>>)
    ensures (forall q :: 0 <= q < |queues| ==> queues[q] == []) <==> Queued(queues) == multiset{}
  {
    if queues != [] {
      NothingQueued(queues[1..]);
      assert queues == [queues[0]] + queues[1..];
      assert queues[0] == [] <==> |multiset(queues[0])| == 0;
    }
  }

  /**
   * No task is lost or taken twice under any interleaving: the accepted pushes are exactly the
   * queued tasks together with what the n workers took, and no queue outgrows its capacity.
   */
  lemma TaskConservation(n: nat, capacity: nat, schedule: seq<Action>)
    requires capacity > 0
    ensures var s := Run(Start(n, capacity), schedule);
            && multiset(Tasks(s.log, AllAccepted)) == Queued(s.queues) + TakenByWorkers(s.log, n)
            && forall q :: 0 <= q < n ==> |s.queues[q]| <= capacity
  {
    var s := Start(n, capacity);
    NothingQueued(s.queues);
    NothingTaken(n);
    RunConserved(s, schedule);
  }

  lemma {:induction false} NothingTaken(n: nat)
    ensures TakenByWorkers([], n) == multiset{}
  {
    if n > 0 {
      NothingTaken(n - 1);
    }
  }

  // ---------- the step system agrees with the sequential Pop ----------

  ghost function Solo(w: nat, steps: nat): (r: seq<Action>)
    ensures |r| == steps
  {
    seq(steps, _ => WorkerStep(w))
  }

  /** One probe: the head of the first non-empty queue, the next probe, or the end of the scan. */
  lemma ProbeStep(s: Pool, w: nat, k: nat)
    requires s.Valid() && w < |s.workers| && s.workers[w] == Probe(k)
    ensures var s', before := Next(s, WorkerStep(w)), InProbeOrder(w, s.queues);
            if before[k] != [] then
              s'.workers[w] == Holding(before[k][0]) && InProbeOrder(w, s'.queues) == before[k := before[k][1..]]
            else
              s'.workers[w] == (if k + 1 < |s.queues| then Probe(k + 1) else Sleeping) &&
              InProbeOrder(w, s'.queues) == before
  {
    ProbesCoverEveryQueueOnce(|s.queues|, w);
    var s', before := Next(s, WorkerStep(w)), InProbeOrder(w, s.queues);
    if before[k] != [] {
      assert InProbeOrder(w, s'.queues) == before[k := before[k][1..]];
    }
  }

  lemma RunSolo(s: Pool, w: nat, steps: nat)
    requires s.Valid()
    ensures Run(s, Solo(w, 0)) == s
    ensures Run(s, Solo(w, steps + 1)) == Run(Next(s, WorkerStep(w)), Solo(w, steps))
  {
    assert Solo(w, steps + 1)[1..] == Solo(w, steps);
  }

  /** The scan is over: worker `w` has what `Pop` returns, and the queues are as `Pop` leaves them. */
  ghost predicate EndsAsPop(s: Pool, before: seq<seq<Task>>, w: nat)
    requires w < |s.workers| == |s.queues|
  {
    var (r, left) := PopFirst(before);
    s.workers[w] == (if r.None? then Sleeping else Holding(r.value)) && InProbeOrder(w, s.queues) == left
  }

  /** Left alone, worker `w` ends its scan exactly as `WorkStealingQueue.Pop` ends, in at most n steps. */
  lemma {:induction false} SoloScanIsPop(s: Pool, w: nat)
    requires s.Valid() && w < |s.workers| && s.workers[w].Probe?
    requires forall j :: 0 <= j < s.workers[w].k ==> InProbeOrder(w, s.queues)[j] == []
    ensures exists m: nat :: m <= |s.queues| - s.workers[w].k &&
              EndsAsPop(Run(s, Solo(w, m)), InProbeOrder(w, s.queues), w)
    decreases |s.queues| - s.workers[w].k
  {
    hide Run, Next, InProbeOrder, PopFirst, Solo;
    var n, k := |s.queues|, s.workers[w].k;
    var before := InProbeOrder(w, s.queues);
    var s1 := Next(s, WorkerStep(w));
    ProbeStep(s, w, k);
    if before[k] == [] && k + 1 < n {
      SoloScanIsPop(s1, w);
      var m: nat :| m <= n - (k + 1) && EndsAsPop(Run(s1, Solo(w, m)), before, w);
      RunSolo(s, w, m);
      assert EndsAsPop(Run(s, Solo(w, m + 1)), before, w);
    } else {
      if before[k] != [] {
        TookFrom(before, k);
      } else {
        TookNothing(before);
      }
      RunSolo(s, w, 0);
      RunSolo(s1, w, 0);
      assert EndsAsPop(Run(s, Solo(w, 1)), before, w);
    }
  }

  /** While the flag is up, worker `w`, left alone, makes one pop of the pool as it stands, in at most n + 1 steps. */
  lemma SoloRoundIsPop(s: Pool, w: nat)
    requires s.Valid() && w < |s.workers| && s.workers[w] == CheckFlag && s.running
    ensures exists m: nat :: m <= |s.queues| + 1 && EndsAsPop(Run(s, Solo(w, m)), InProbeOrder(w, s.queues), w)
  {
    hide Run, Solo, PopFirst;
    var s1 := Next(s, WorkerStep(w));
    assert s1.queues == s.queues && s1.workers[w] == Probe(0);
    SoloScanIsPop(s1, w);
    var m: nat :| m <= |s.queues| && EndsAsPop(Run(s1, Solo(w, m)), InProbeOrder(w, s.queues), w);
    RunSolo(s, w, m);
    assert EndsAsPop(Run(s, Solo(w, m + 1)), InProbeOrder(w, s.queues), w);
  }

  /** In the pool that was started, any worker, left alone, takes a task pushed to any queue. */
  lemma PushedTaskIsTaken(n: nat, capacity: nat, w: nat, q: nat, task: Task)
    requires capacity > 0 && w < n && q < n
    ensures exists m: nat :: m <= n + 1 &&
              Run(Start(n, capacity), [Push(q, task)] + Solo(w, m)).workers[w] == Holding(task)
  {
    var s0 := Start(n, capacity);
    var s := Next(s0, Push(q, task));
    var css := InProbeOrder(w, s.queues);
    ProbesCoverEveryQueueOnce(n, w);
    assert s0.queues[q] == [] && [] + [task] == [task];
    assert s.queues == s0.queues[q := [task]];
    assert forall k: nat :: k < n ==> css[k] == if k == ProbeIndex(w, q) then [task] else [];
    TookFrom(css, ProbeIndex(w, q));
    SoloRoundIsPop(s, w);
    hide Run, Solo, Next, Start, PopFirst;
    var m: nat :| m <= n + 1 && EndsAsPop(Run(s, Solo(w, m)), css, w);
    PushThenSolo(s0, q, task, w, m);
    assert Run(s0, [Push(q, task)] + Solo(w, m)).workers[w] == Holding(task);
  }

  lemma PushThenSolo(s: Pool, q: nat, task: Task, w: nat, m: nat)
    requires s.Valid()
    ensures Run(s, [Push(q, task)] + Solo(w, m)) == Run(Next(s, Push(q, task)), Solo(w, m))
  {
    assert ([Push(q, task)] + Solo(w, m))[1..] == Solo(w, m);
  }
}
