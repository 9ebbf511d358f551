/** src/worker/queue.rs: what a `pop` that returns nothing says about the queues, under any interleaving. */
module EmptyPop {
  import opened Wrappers
  import opened WorkQueue
  import opened StealPool

  // ---------- runs in two parts ----------

  lemma {:induction false} RunAppend(s: Pool, a: seq<Action>, b: seq<Action>)
    requires s.Valid()
    ensures Run(s, a + b) == Run(Run(s, a), b)
    decreases |a|
  {
    if a == [] {
      assert a + b == b;
    } else {
      assert (a + b)[1..] == a[1..] + b;
      RunAppend(Next(s, a[0]), a[1..], b);
    }
  }

  lemma RunOne(s: Pool, a: Action)
    requires s.Valid()
    ensures Run(s, [a]) == Next(s, a)
  {
    assert Run(s, [a]) == Run(Next(s, a), []);
  }

  lemma RunLast(s: Pool, schedule: seq<Action>)
    requires s.Valid() && schedule != []
    ensures Run(s, schedule) == Next(Run(s, schedule[..|schedule| - 1]), schedule[|schedule| - 1])
  {
    hide Run, Next, Pool.Valid;
    var earlier, last := schedule[..|schedule| - 1], schedule[|schedule| - 1];
    RunAppend(s, earlier, [last]);
    RunOne(Run(s, earlier), last);
    assert earlier + [last] == schedule;
  }

  // ---------- what is left behind the scan ----------

  /** Action `i` is worker `w`'s probe of queue `q`, which is empty. */
  ghost predicate LooksInVain(s0: Pool, schedule: seq<Action>, w: nat, q: nat, i: nat)
    requires s0.Valid() && w < |s0.workers| && q < |s0.queues|
  {
    && i < |schedule| && schedule[i] == WorkerStep(w)
    && var s := Run(s0, schedule[..i]);
       s.workers[w] == Probe(ProbeIndex(w, q)) && s.queues[q] == []
  }

  ghost predicate HasLooked(s0: Pool, schedule: seq<Action>, w: nat, q: nat)
    requires s0.Valid() && w < |s0.workers| && q < |s0.queues|
  {
    exists i: nat :: LooksInVain(s0, schedule, w, q, i)
  }

  /** Worker `w` has looked in vain into every queue before its current probe, and into all if its pop is over. */
  ghost predicate HasLookedSoFar(s0: Pool, schedule: seq<Action>, w: nat)
    requires s0.Valid() && w < |s0.workers|
  {
    match Run(s0, schedule).workers[w]
    case Probe(k) => forall q: nat :: q < |s0.queues| && ProbeIndex(w, q) < k ==> HasLooked(s0, schedule, w, q)
    case Sleeping => forall q: nat :: q < |s0.queues| ==> HasLooked(s0, schedule, w, q)
    case _ => true
  }

  lemma StillHasLooked(s0: Pool, schedule: seq<Action>, a: Action, w: nat, q: nat)
    requires s0.Valid() && w < |s0.workers| && q < |s0.queues| && HasLooked(s0, schedule, w, q)
    ensures HasLooked(s0, schedule + [a], w, q)
  {
    var i: nat :| LooksInVain(s0, schedule, w, q, i);
    assert (schedule + [a])[..i] == schedule[..i];
    assert LooksInVain(s0, schedule + [a], w, q, i);
  }

  lemma LooksNow(s0: Pool, schedule: seq<Action>, w: nat, q: nat)
    requires s0.Valid() && w < |s0.workers| && q < |s0.queues|
    requires Run(s0, schedule).workers[w] == Probe(ProbeIndex(w, q)) && Run(s0, schedule).queues[q] == []
    ensures HasLooked(s0, schedule + [WorkerStep(w)], w, q)
  {
    assert (schedule + [WorkerStep(w)])[..|schedule|] == schedule;
    assert LooksInVain(s0, schedule + [WorkerStep(w)], w, q, |schedule|);
  }

  lemma NextHasLooked(s0: Pool, schedule: seq<Action>, a: Action, w: nat)
    requires s0.Valid() && w < |s0.workers| && HasLookedSoFar(s0, schedule, w)
    ensures HasLookedSoFar(s0, schedule + [a], w)
  {
    hide HasLooked, Run;
    var s := Run(s0, schedule);
    RunLast(s0, schedule + [a]);
    assert (schedule + [a])[..|schedule|] == schedule;
    ProbesCoverEveryQueueOnce(|s0.queues|, w);
    forall q: nat | q < |s0.queues| && HasLooked(s0, schedule, w, q)
      ensures HasLooked(s0, schedule + [a], w, q)
    {
      StillHasLooked(s0, schedule, a, w, q);
    }
    if a == WorkerStep(w) && s.workers[w].Probe? {
      var q := ProbeTarget(w, s.workers[w].k);
      if s.queues[q] == [] {
        LooksNow(s0, schedule, w, q);
      }
    }
  }

  lemma {:induction false} ScanLooks(s0: Pool, schedule: seq<Action>, w: nat)
    requires s0.Valid() && w < |s0.workers| && s0.workers[w] == Probe(0)
    ensures HasLookedSoFar(s0, schedule, w)
    decreases |schedule|
  {
    if schedule != [] {
      var earlier, last := schedule[..|schedule| - 1], schedule[|schedule| - 1];
      ScanLooks(s0, earlier, w);
      NextHasLooked(s0, earlier, last, w);
      assert schedule == earlier + [last];
    }
  }

  /** Queue `q` was empty at `s1`; what it accepted since is what has been removed since, then what it holds. */
  ghost predicate HoldsOnlyLater(s1: Pool, s: Pool, q: nat)
    requires q < |s.queues|
  {
    Follows(s1, s) && Tasks(Since(s1, s), OutOfQueue(q)) + s.queues[q] == AcceptedSince(s1, s, q)
  }

  lemma LooksThenHoldsLater(s0: Pool, schedule: seq<Action>, w: nat, q: nat, i: nat)
    requires s0.Valid() && w < |s0.workers| && q < |s0.queues| && LooksInVain(s0, schedule, w, q, i)
    ensures HoldsOnlyLater(Run(s0, schedule[..i]), Run(s0, schedule), q)
  {
    hide Tasks, Run;
    var s1 := Run(s0, schedule[..i]);
    assert schedule == schedule[..i] + schedule[i..];
    RunAppend(s0, schedule[..i], schedule[i..]);
    NothingSince(s1, q);
    RunInOrder(s1, s1, schedule[i..], q);
    assert s1.queues[q] + AcceptedSince(s1, Run(s0, schedule), q) == AcceptedSince(s1, Run(s0, schedule), q);
  }

  lemma NothingSince(s: Pool, q: nat)
    requires q < |s.queues|
    ensures InOrder(s, s, q) && AcceptedSince(s, s, q) == []
  {}

  /** What queue `q` holds was pushed behind worker `w`'s probe of it, and not yet taken. */
  ghost predicate IsLeftBehind(s0: Pool, schedule: seq<Action>, w: nat, q: nat)
    requires s0.Valid() && w < |s0.workers| && q < |s0.queues|
  {
    exists i: nat ::
      LooksInVain(s0, schedule, w, q, i) && HoldsOnlyLater(Run(s0, schedule[..i]), Run(s0, schedule), q)
  }

  /**
   * A pop that comes back empty-handed, whatever the others do meanwhile: each queue was empty at
   * the worker's probe of it, and holds exactly what was pushed behind that probe and not yet taken.
   */
  lemma EmptyHandedPop(s0: Pool, schedule: seq<Action>, w: nat)
    requires s0.Valid() && w < |s0.workers| && s0.workers[w] == Probe(0)
    requires Run(s0, schedule).workers[w].Sleeping?
    ensures forall q: nat :: q < |s0.queues| ==> IsLeftBehind(s0, schedule, w, q)
  {
    ScanLooks(s0, schedule, w);
    forall q: nat | q < |s0.queues|
      ensures IsLeftBehind(s0, schedule, w, q)
    {
      assert HasLooked(s0, schedule, w, q);
      var i: nat :| LooksInVain(s0, schedule, w, q, i);
      LooksThenHoldsLater(s0, schedule, w, q, i);
    }
  }

  // ---------- when nothing means empty ----------

  /** Every push is to one of the queues `a`. */
  predicate PushesInto(schedule: seq<Action>, a: set<nat>) {
    forall i :: 0 <= i < |schedule| && schedule[i].Push? ==> schedule[i].q in a
  }

  lemma {:induction false} AcceptsOnlyPushes(s0: Pool, s: Pool, schedule: seq<Action>, a: set<nat>, q: nat)
    requires s.Valid() && Follows(s0, s) && q < |s.queues| && PushesInto(schedule, a) && q !in a
    ensures Follows(s0, Run(s, schedule)) && AcceptedSince(s0, Run(s, schedule), q) == AcceptedSince(s0, s, q)
    decreases |schedule|
  {
    if schedule != [] {
      NextAccepts(s0, s, schedule[0], q);
      AcceptsOnlyPushes(s0, Next(s, schedule[0]), schedule[1..], a, q);
    }
  }

  lemma NextAccepts(s0: Pool, s: Pool, a: Action, q: nat)
    requires s.Valid() && Follows(s0, s) && q < |s.queues|
    ensures Follows(s0, Next(s, a))
    ensures !(a.Push? && a.q == q) ==> AcceptedSince(s0, Next(s, a), q) == AcceptedSince(s0, s, q)
  {
    hide Tasks, Next;
    var effect := NextEffect(s, a);
    if effect.Some? {
      assert Since(s0, Next(s, a)) == Since(s0, s) + [effect.value];
      TasksExtend(Since(s0, s), effect.value, IntoQueue(q));
    }
  }

  /** The last action ends a pop of worker `w` that began in `s0` and returns nothing. */
  ghost predicate ReturnsNothing(s0: Pool, schedule: seq<Action>, w: nat)
    requires s0.Valid() && w < |s0.workers|
  {
    && s0.workers[w] == Probe(0) && schedule != []
    && Run(s0, schedule[..|schedule| - 1]).workers[w].Probe?
    && Run(s0, schedule).workers[w].Sleeping?
  }

  /**
   * In a pool of n queues, with pushes to the queues `a` only, a pop of worker `w` that returns
   * nothing always means that all n queues are empty at that moment.
   */
  ghost predicate Reliable(n: nat, w: nat, a: set<nat>)
    requires w < n
  {
    forall s0: Pool, schedule: seq<Action> ::
      s0.Valid() && |s0.queues| == n && PushesInto(schedule, a) && ReturnsNothing(s0, schedule, w) ==>
        Run(s0, schedule).AllQueuesEmpty()
  }

  lemma LastProbeIsEmpty(s0: Pool, schedule: seq<Action>, w: nat)
    requires s0.Valid() && w < |s0.workers| && ReturnsNothing(s0, schedule, w)
    ensures Run(s0, schedule).queues[ProbeTarget(w, |s0.queues| - 1)] == []
  {
    hide Run, Next, Pool.Valid;
    RunLast(s0, schedule);
    FailingProbe(Run(s0, schedule[..|schedule| - 1]), schedule[|schedule| - 1], w);
  }

  lemma FailingProbe(s: Pool, a: Action, w: nat)
    requires s.Valid() && w < |s.workers| && s.workers[w].Probe? && Next(s, a).workers[w].Sleeping?
    ensures Next(s, a).queues[ProbeTarget(w, |s.queues| - 1)] == []
  {
    assert a == WorkerStep(w);
  }

  /** A queue into which nothing is pushed is empty after the pop. */
  lemma UnpushedIsEmpty(s0: Pool, schedule: seq<Action>, w: nat, a: set<nat>, q: nat)
    requires s0.Valid() && w < |s0.workers| && s0.workers[w] == Probe(0) && Run(s0, schedule).workers[w].Sleeping?
    requires PushesInto(schedule, a) && q < |s0.queues| && q !in a
    ensures Run(s0, schedule).queues[q] == []
  {
    hide Run, HoldsOnlyLater, Pool.Valid;
    EmptyHandedPop(s0, schedule, w);
    assert IsLeftBehind(s0, schedule, w, q);
    var i: nat :| LooksInVain(s0, schedule, w, q, i) && HoldsOnlyLater(Run(s0, schedule[..i]), Run(s0, schedule), q);
    UnpushedSince(s0, schedule, i, a, q);
  }

  lemma UnpushedSince(s0: Pool, schedule: seq<Action>, i: nat, a: set<nat>, q: nat)
    requires s0.Valid() && i < |schedule| && PushesInto(schedule, a) && q < |s0.queues| && q !in a
    requires HoldsOnlyLater(Run(s0, schedule[..i]), Run(s0, schedule), q)
    ensures Run(s0, schedule).queues[q] == []
  {
    hide Tasks, Run;
    var s1 := Run(s0, schedule[..i]);
    assert schedule == schedule[..i] + schedule[i..];
    RunAppend(s0, schedule[..i], schedule[i..]);
    NothingSince(s1, q);
    AcceptsOnlyPushes(s1, s1, schedule[i..], a, q);
  }

  /** All workers about to check the flag, except `w`, which begins a pop; all queues empty, room for one task each. */
  function Idle(n: nat, w: nat): (s: Pool)
    requires w < n
    ensures s.Valid()
  {
    Start(n, 1).At(w, Probe(0))
  }

  lemma {:induction false} IdleScan(s: Pool, w: nat, k: nat, steps: nat)
    requires s.Valid() && w < |s.workers| && s.workers[w] == Probe(k) && s.AllQueuesEmpty()
    requires k + steps < |s.queues|
    ensures Run(s, Solo(w, steps)) == s.At(w, Probe(k + steps))
    decreases steps
  {
    hide Run, Solo;
    if steps == 0 {
      RunSolo(s, w, 0);
      assert s.At(w, Probe(k)).workers == s.workers;
    } else {
      var s1 := Next(s, WorkerStep(w));
      assert s1 == s.At(w, Probe(k + 1));
      RunSolo(s, w, steps - 1);
      IdleScan(s1, w, k + 1, steps - 1);
      assert s1.At(w, Probe(k + steps)).workers == s.At(w, Probe(k + steps)).workers;
    }
  }

  /** A push into any queue but the last that the scan reaches, once the scan is past it. */
  ghost function Overtaken(n: nat, w: nat, q: nat): seq<Action>
    requires w < n
  {
    Solo(w, n - 1) + [Push(q, Shutdown), WorkerStep(w)]
  }

  lemma OvertakenMisses(n: nat, w: nat, q: nat)
    requires w < n && q < n && q != ProbeTarget(w, n - 1)
    ensures ReturnsNothing(Idle(n, w), Overtaken(n, w, q), w)
    ensures Run(Idle(n, w), Overtaken(n, w, q)).queues[q] == [Shutdown]
  {
    hide Run;
    var s0, schedule := Idle(n, w), Overtaken(n, w, q);
    var scan := Solo(w, n - 1);
    ProbesCoverEveryQueueOnce(n, w);
    IdleScan(s0, w, 0, n - 1);
    var s1 := Run(s0, scan);
    assert s1 == s0.At(w, Probe(n - 1)) && s1.queues[q] == [] && [] + [Shutdown] == [Shutdown];
    var s2 := Next(s1, Push(q, Shutdown));
    assert schedule[..|schedule| - 1] == scan + [Push(q, Shutdown)];
    assert (scan + [Push(q, Shutdown)])[..n - 1] == scan;
    RunLast(s0, scan + [Push(q, Shutdown)]);
    RunLast(s0, schedule);
    assert s2.queues == s1.queues[q := [Shutdown]] && s2.workers[w] == Probe(n - 1);
  }

  /**
   * An empty-handed pop means empty queues in every run if and only if nothing is pushed except
   * into the one queue that the scan reaches last.
   */
  lemma ReliableIff(n: nat, w: nat, a: set<nat>)
    requires w < n
    ensures Reliable(n, w, a) <==> forall q :: q in a && q < n ==> q == ProbeTarget(w, n - 1)
  {
    hide Run;
    if q :| q in a && q < n && q != ProbeTarget(w, n - 1) {
      OvertakenMisses(n, w, q);
      assert PushesInto(Overtaken(n, w, q), a);
      assert !Run(Idle(n, w), Overtaken(n, w, q)).AllQueuesEmpty();
    } else {
      forall s0: Pool, schedule: seq<Action> |
        s0.Valid() && |s0.queues| == n && PushesInto(schedule, a) && ReturnsNothing(s0, schedule, w)
        ensures Run(s0, schedule).AllQueuesEmpty()
      {
        LastProbeIsEmpty(s0, schedule, w);
        forall q: nat | q < n
          ensures Run(s0, schedule).queues[q] == []
        {
          if q !in a {
            UnpushedIsEmpty(s0, schedule, w, a, q);
          }
        }
      }
    }
  }

  /** The scan is no snapshot: a push behind it is missed, here in a pool of two queues. */
  lemma ScanIsNoSnapshot()
    ensures Overtaken(2, 0, 0) == [WorkerStep(0), Push(0, Shutdown), WorkerStep(0)]
    ensures var s := Run(Idle(2, 0), Overtaken(2, 0, 0));
            s.workers[0].Sleeping? && s.queues == [[Shutdown], []]
  {
    OvertakenMisses(2, 0, 0);
    LastProbeIsEmpty(Idle(2, 0), Overtaken(2, 0, 0), 0);
  }
}
