/** src/worker/queue.rs: bounded FIFO queues shared through handles, and the work-stealing wiring. */
module WorkQueue {
  import opened Wrappers

  datatype Task =
    | NewConnection(fd: int)
    | ProcessRequest(fd: int, data: seq<bv8>)
    | SendResponse(fd: int, response: seq<bv8>)
    | CloseConnection(fd: int)
    | Shutdown

  /** The queue behind the handles; each call is one atomic action on a bounded FIFO. */
  class ArrayQueue<T> {
    const capacity: nat
    var items: seq<T>

    ghost predicate Valid()
      reads this
    {
      0 < capacity && |items| <= capacity
    }

    constructor (capacity: nat)
      requires 0 < capacity
      ensures Valid() && this.capacity == capacity && items == []
    {
      this.capacity := capacity;
      items := [];
    }

    method Push(item: T) returns (r: Result<(), T>)
      requires Valid()
      modifies this`items
      ensures Valid()
      ensures |old(items)| < capacity ==> r == Ok(()) && items == old(items) + [item]
      ensures |old(items)| == capacity ==> r == Err(item) && items == old(items)
    {
      if |items| == capacity {
        return Err(item);
      }
      items := items + [item];
      r := Ok(());
    }

    method Pop() returns (r: Option<T>)
      requires Valid()
      modifies this`items
      ensures Valid()
      ensures old(items) == [] ==> r == None && items == []
      ensures old(items) != [] ==> r == Some(old(items)[0]) && items == old(items)[1..]
    {
      if items == [] {
        return None;
      }
      r := Some(items[0]);
      items := items[1..];
    }
  }

  /** A counted reference: cloning copies the reference, never the queue. */
  datatype LockFreeQueue<T> = LockFreeQueue(queue: ArrayQueue<T>) {
    method Push(item: T) returns (r: Result<(), T>)
      requires queue.Valid()
      modifies queue`items
      ensures queue.Valid()
      ensures |old(queue.items)| < queue.capacity ==> r == Ok(()) && queue.items == old(queue.items) + [item]
      ensures |old(queue.items)| == queue.capacity ==> r == Err(item) && queue.items == old(queue.items)
    {
      r := queue.Push(item);
    }

    method Pop() returns (r: Option<T>)
      requires queue.Valid()
      modifies queue`items
      ensures queue.Valid()
      ensures old(queue.items) == [] ==> r == None && queue.items == []
      ensures old(queue.items) != [] ==> r == Some(old(queue.items)[0]) && queue.items == old(queue.items)[1..]
    {
      r := queue.Pop();
    }

    function Clone(): LockFreeQueue<T> {
      LockFreeQueue(queue)
    }
  }

  /** The number of the queue that worker `w` tries at its `k`-th probe: its own, then the others upwards. */
  function ProbeTarget(w: nat, k: nat): nat {
    if k == 0 then w else if k <= w then k - 1 else k
  }

  /** The probe at which worker `w` reaches queue `q`. */
  function ProbeIndex(w: nat, q: nat): nat {
    if q == w then 0 else if q < w then q + 1 else q
  }

  /** The n probes of one scan hit each of the n queues exactly once. */
  lemma ProbesCoverEveryQueueOnce(n: nat, w: nat)
    requires w < n
    ensures forall k: nat :: k < n ==> ProbeTarget(w, k) < n && ProbeIndex(w, ProbeTarget(w, k)) == k
    ensures forall q: nat :: q < n ==> ProbeIndex(w, q) < n && ProbeTarget(w, ProbeIndex(w, q)) == q
  {}

  /** The contents of all queues in the order in which worker `w` probes them. */
  function InProbeOrder<T>(w: nat, css: seq<T>): (r: seq<T>)
    requires w < |css|
    ensures |r| == |css|
  {
    seq(|css|, k requires 0 <= k < |css| => css[ProbeTarget(w, k)])
  }

  // ---------- what one scan takes, on values ----------

  function FirstNonEmpty<T>(css: seq<seq<T>>): (i: nat)
    ensures i <= |css|
    ensures forall j :: 0 <= j < i ==> css[j] == []
    ensures i < |css| ==> css[i] != []
  {
    if css == [] || css[0] != [] then 0 else 1 + FirstNonEmpty(css[1..])
  }

  function PopFirst<T>(css: seq<seq<T>>): (Option<T>, seq<seq<T>>) {
    var i := FirstNonEmpty(css);
    if i == |css| then (None, css) else (Some(css[i][0]), css[i := css[i][1..]])
  }

  lemma PopFirstSkipsEmpty<T>(css: seq<seq<T>>)
    requires css != [] && css[0] == []
    ensures PopFirst(css).0 == PopFirst(css[1..]).0
    ensures |PopFirst(css).1| == |css| && PopFirst(css).1[0] == [] && PopFirst(css).1[1..] == PopFirst(css[1..]).1
  {
    var i := FirstNonEmpty(css);
    if i < |css| {
      assert css[i := css[i][1..]][1..] == css[1..][i - 1 := css[1..][i - 1][1..]];
    }
  }

  /** A scan takes the head of the concatenation, and comes back empty-handed exactly when that is empty. */
  lemma {:induction false} PopFirstTakesHead<T>(css: seq<seq<T>>)
    ensures PopFirst(css).0 == if Flatten(css) == [] then None else Some(Flatten(css)[0])
    ensures Flatten(PopFirst(css).1) == if Flatten(css) == [] then [] else Flatten(css)[1..]
  {
    if css != [] && css[0] == [] {
      PopFirstTakesHead(css[1..]);
      PopFirstSkipsEmpty(css);
    } else if css != [] {
      assert css[0 := css[0][1..]][1..] == css[1..];
    }
  }

  /** Scans repeated until one comes back empty-handed: what they return, and what they leave. */
  function Drain<T>(css: seq<seq<T>>): (seq<T>, seq<seq<T>>)
    decreases |Flatten(css)|
  {
    PopFirstTakesHead(css);
    var (r, rest) := PopFirst(css);
    if r.None? then ([], rest) else var (taken, left) := Drain(rest); ([r.value] + taken, left)
  }

  lemma {:induction false} DrainTakesEverything<T>(css: seq<seq<T>>)
    ensures Drain(css).0 == Flatten(css)
    ensures |Drain(css).1| == |css| && forall i :: 0 <= i < |css| ==> Drain(css).1[i] == []
    decreases |Flatten(css)|
  {
    PopFirstTakesHead(css);
    if PopFirst(css).0.Some? {
      DrainTakesEverything(PopFirst(css).1);
    }
  }

  /** Undisturbed, worker `w` empties its own queue and then the others by number, each in FIFO order. */
  lemma SequentialDrain<T>(w: nat, css: seq<seq<T>>)
    requires w < |css|
    ensures Drain(InProbeOrder(w, css)).0 == css[w] + Flatten(css[..w] + css[w + 1..])
    ensures |Drain(InProbeOrder(w, css)).1| == |css|
    ensures forall k :: 0 <= k < |css| ==> Drain(InProbeOrder(w, css)).1[k] == []
  {
    var order := InProbeOrder(w, css);
    DrainTakesEverything(order);
    assert order[1..] == css[..w] + css[w + 1..];
  }

  // ---------- the aliased queues ----------

  ghost predicate Distinct<T>(s: seq<T>) {
    forall i, j :: 0 <= i < j < |s| ==> s[i] != s[j]
  }

  ghost predicate AllValid(qs: seq<ArrayQueue<Task>>)
    reads qs
  {
    forall i :: 0 <= i < |qs| ==> qs[i].Valid()
  }

  ghost function Contents(qs: seq<ArrayQueue<Task>>): (r: seq<seq<Task>>)
    reads qs
    ensures |r| == |qs| && forall i :: 0 <= i < |qs| ==> r[i] == qs[i].items
  {
    seq(|qs|, i requires 0 <= i < |qs| reads qs => qs[i].items)
  }

  datatype WorkStealingQueue = WorkStealingQueue(local: LockFreeQueue<Task>, shared: seq<LockFreeQueue<Task>>) {
    /** The queue objects a `Pop` visits, in order. */
    ghost function Probed(): (r: seq<ArrayQueue<Task>>)
      ensures |r| == 1 + |shared| && r[0] == local.queue
      ensures forall k :: 0 <= k < |shared| ==> r[k + 1] == shared[k].queue
    {
      [local.queue] + seq(|shared|, k requires 0 <= k < |shared| => shared[k].queue)
    }

    method Push(task: Task) returns (r: Result<(), Task>)
      requires local.queue.Valid()
      modifies local.queue`items
      ensures local.queue.Valid()
      ensures |old(local.queue.items)| < local.queue.capacity ==>
                r == Ok(()) && local.queue.items == old(local.queue.items) + [task]
      ensures |old(local.queue.items)| == local.queue.capacity ==>
                r == Err(task) && local.queue.items == old(local.queue.items)
    {
      r := local.Push(task);
    }

    method Pop() returns (r: Option<Task>)
      requires Distinct(Probed()) && AllValid(Probed())
      modifies Probed()
      ensures AllValid(Probed())
      ensures (r, Contents(Probed())) == PopFirst(old(Contents(Probed())))
    {
      ghost var before := Contents(Probed());
      r := local.Pop();
      if r.Some? {
        assert Contents(Probed()) == before[0 := before[0][1..]];
        TookFrom(before, 0);
        return;
      }
      assert Contents(Probed()) == before;
      r := Steal();
    }

    /** The scan of `Pop` over the other workers' queues. */
    method Steal() returns (r: Option<Task>)
      requires Distinct(Probed()) && AllValid(Probed()) && Contents(Probed())[0] == []
      modifies Probed()
      ensures AllValid(Probed())
      ensures (r, Contents(Probed())) == PopFirst(old(Contents(Probed())))
    {
      hide *;
      ghost var before := Contents(Probed());
      for k := 0 to |shared|
        invariant AllValid(Probed()) && Contents(Probed()) == before
        invariant forall j :: 0 <= j <= k ==> before[j] == []
      {
        r := StealFrom(k);
        if r.Some? {
          TookFrom(before, k + 1);
          return;
        }
      }
      TookNothing(before);
      r := None;
    }

    /** One probe of another worker's queue. */
    method StealFrom(k: nat) returns (r: Option<Task>)
      requires k < |shared| && Distinct(Probed()) && AllValid(Probed())
      modifies Probed()
      ensures AllValid(Probed())
      ensures var before := old(Contents(Probed()));
              if before[k + 1] == [] then r == None && Contents(Probed()) == before
              else r == Some(before[k + 1][0]) && Contents(Probed()) == before[k + 1 := before[k + 1][1..]]
    {
      ghost var qs := Probed();
      ghost var before := Contents(qs);
      assert qs[k + 1] == shared[k].queue;
      OthersDiffer(qs, k + 1);
      hide Distinct, Contents, Probed;
      r := shared[k].Pop();
      ContentsAfter(qs, before, k + 1, qs[k + 1].items);
    }
  }

  lemma OthersDiffer(qs: seq<ArrayQueue<Task>>, k: nat)
    requires Distinct(qs) && k < |qs|
    ensures forall i :: 0 <= i < |qs| && i != k ==> qs[i] != qs[k]
  {}

  lemma ContentsAfter(qs: seq<ArrayQueue<Task>>, before: seq<seq<Task>>, k: nat, items: seq<Task>)
    requires |before| == |qs| && k < |qs| && qs[k].items == items
    requires forall i :: 0 <= i < |qs| && i != k ==> qs[i].items == before[i]
    ensures Contents(qs) == before[k := items]
    ensures items == before[k] ==> Contents(qs) == before
  {}

  lemma TookNothing<T>(css: seq<seq<T>>)
    requires forall j :: 0 <= j < |css| ==> css[j] == []
    ensures PopFirst(css) == (None, css)
  {}

  lemma TookFrom<T>(css: seq<seq<T>>, k: nat)
    requires k < |css| && css[k] != []
    requires forall j :: 0 <= j < k ==> css[j] == []
    ensures PopFirst(css) == (Some(css[k][0]), css[k := css[k][1..]])
  {
    assert FirstNonEmpty(css) == k;
  }

  /** Queue `w` owns its local object, and its scan reaches the other workers' objects by number. */
  ghost predicate Wired(queues: seq<WorkStealingQueue>) {
    && (forall i, j :: 0 <= i < j < |queues| ==> queues[i].local.queue != queues[j].local.queue)
    && (forall w :: 0 <= w < |queues| ==> |queues[w].Probed()| == |queues|)
    && (forall w: nat, k: nat :: w < |queues| && k < |queues| ==>
          queues[w].Probed()[k] == queues[ProbeTarget(w, k)].local.queue)
  }

  /** In a wired pool no scan meets a queue twice, which is what `Pop` relies on. */
  lemma WiredProbesAreDistinct(queues: seq<WorkStealingQueue>, w: nat)
    requires Wired(queues) && w < |queues|
    ensures Distinct(queues[w].Probed())
  {
    var n := |queues|;
    forall i, j | 0 <= i < j < n
      ensures queues[w].Probed()[i] != queues[w].Probed()[j]
    {
      ProbesCoverEveryQueueOnce(n, w);
      var a, b := ProbeTarget(w, i), ProbeTarget(w, j);
      assert a != b;
    }
  }

  ghost function Locals(queues: seq<WorkStealingQueue>): seq<ArrayQueue<Task>> {
    seq(|queues|, w requires 0 <= w < |queues| => queues[w].local.queue)
  }

  /** What worker `w` scans is the whole pool, seen through aliases and reordered. */
  lemma ScanSeesWholePool(queues: seq<WorkStealingQueue>, w: nat)
    requires Wired(queues) && w < |queues|
    ensures Contents(queues[w].Probed()) == InProbeOrder(w, Contents(Locals(queues)))
  {
    var probed, all := Contents(queues[w].Probed()), Contents(Locals(queues));
    forall k: nat | k < |queues|
      ensures probed[k] == InProbeOrder(w, all)[k]
    {
      assert queues[w].Probed()[k] == Locals(queues)[ProbeTarget(w, k)];
    }
  }

  ghost predicate EmptyQueue(q: ArrayQueue<Task>, capacity: nat)
    reads q
  {
    q.Valid() && q.items == [] && q.capacity == capacity
  }

  method New(numWorkers: nat, capacity: nat) returns (queues: seq<WorkStealingQueue>)
    requires numWorkers > 0 ==> capacity > 0
    ensures |queues| == numWorkers && Wired(queues)
    ensures forall w :: 0 <= w < numWorkers ==>
              fresh(queues[w].local.queue) && EmptyQueue(queues[w].local.queue, capacity)
  {
    hide Wired, Others;
    var allQueues := NewQueues(numWorkers, capacity);
    queues := [];
    for i := 0 to numWorkers
      modifies {}
      invariant |queues| == i
      invariant forall w :: 0 <= w < i ==> queues[w] == WorkStealingQueue(allQueues[w], Others(allQueues, w))
    {
      var localQueue := allQueues[i].Clone();
      var sharedQueues := SharedQueues(allQueues, i);
      queues := queues + [WorkStealingQueue(localQueue, sharedQueues)];
    }
    WiredByConstruction(allQueues, queues);
  }

  /** The inner loop of `New`: handles to all queues but number `i`. */
  method SharedQueues(allQueues: seq<LockFreeQueue<Task>>, i: nat) returns (sharedQueues: seq<LockFreeQueue<Task>>)
    ensures sharedQueues == Others(allQueues, i)
  {
    sharedQueues := [];
    for j := 0 to |allQueues|
      invariant sharedQueues == Others(allQueues[..j], i)
    {
      OthersExtend(allQueues, i, j);
      if i != j {
        sharedQueues := sharedQueues + [allQueues[j].Clone()];
      }
    }
    assert allQueues[..|allQueues|] == allQueues;
  }

  /** The first loop of `New`: all local queues are created before any is shared. */
  method NewQueues(numWorkers: nat, capacity: nat) returns (allQueues: seq<LockFreeQueue<Task>>)
    requires numWorkers > 0 ==> capacity > 0
    ensures |allQueues| == numWorkers
    ensures forall j :: 0 <= j < numWorkers ==>
              fresh(allQueues[j].queue) && EmptyQueue(allQueues[j].queue, capacity)
    ensures forall j, k :: 0 <= j < k < numWorkers ==> allQueues[j].queue != allQueues[k].queue
  {
    allQueues := [];
    for i := 0 to numWorkers
      invariant |allQueues| == i
      invariant forall j :: 0 <= j < i ==>
                  fresh(allQueues[j].queue) && EmptyQueue(allQueues[j].queue, capacity)
      invariant forall j, k :: 0 <= j < k < i ==> allQueues[j].queue != allQueues[k].queue
    {
      var q := new ArrayQueue<Task>(capacity);
      allQueues := allQueues + [LockFreeQueue(q)];
    }
  }

  /** All entries but number `w`. */
  function Others<T>(s: seq<T>, w: nat): seq<T> {
    if w < |s| then s[..w] + s[w + 1..] else s
  }

  lemma OthersExtend<T>(s: seq<T>, w: nat, j: nat)
    requires j < |s|
    ensures Others(s[..j + 1], w) == if j == w then Others(s[..j], w) else Others(s[..j], w) + [s[j]]
  {
    assert s[..j + 1] == s[..j] + [s[j]];
  }

  lemma ProbedByConstruction(all: seq<LockFreeQueue<Task>>, q: WorkStealingQueue, w: nat, k: nat)
    requires w < |all| && k < |all| && q == WorkStealingQueue(all[w], Others(all, w))
    ensures |q.Probed()| == |all| && q.Probed()[k] == all[ProbeTarget(w, k)].queue
  {
    if k > 0 {
      assert q.Probed()[k] == q.shared[k - 1].queue;
    }
  }

  lemma WiredByConstruction(all: seq<LockFreeQueue<Task>>, queues: seq<WorkStealingQueue>)
    requires |queues| == |all|
    requires forall j, k :: 0 <= j < k < |all| ==> all[j].queue != all[k].queue
    requires forall w :: 0 <= w < |all| ==> queues[w] == WorkStealingQueue(all[w], Others(all, w))
    ensures Wired(queues)
  {
    forall w: nat, k: nat | w < |queues| && k < |queues|
      ensures |queues[w].Probed()| == |queues| && queues[w].Probed()[k] == queues[ProbeTarget(w, k)].local.queue
    {
      ProbedByConstruction(all, queues[w], w, k);
    }
    forall w | 0 <= w < |queues|
      ensures |queues[w].Probed()| == |queues|
    {
      ProbedByConstruction(all, queues[w], w, 0);
    }
  }

  // ---------- one worker, undisturbed, on the shared objects ----------

  /** Each queue of the pool is met by each worker's scan, at the probe with its number. */
  lemma ScanMeets(queues: seq<WorkStealingQueue>, w: nat, q: nat)
    requires Wired(queues) && w < |queues| && q < |queues|
    ensures |queues[w].Probed()| == |queues| && ProbeIndex(w, q) < |queues|
    ensures queues[w].Probed()[ProbeIndex(w, q)] == queues[q].local.queue
  {
    ProbesCoverEveryQueueOnce(|queues|, w);
  }

  /** The objects that worker `w` scans are those of the pool. */
  lemma ScanObjects(queues: seq<WorkStealingQueue>, w: nat)
    requires Wired(queues) && w < |queues|
    ensures |queues[w].Probed()| == |queues| == |Locals(queues)|
    ensures forall k :: 0 <= k < |queues| ==> queues[w].Probed()[k] in Locals(queues)
    ensures forall q :: 0 <= q < |queues| ==> Locals(queues)[q] in queues[w].Probed()
  {
    forall k: nat | k < |queues|
      ensures queues[w].Probed()[k] in Locals(queues)
    {
      assert queues[w].Probed()[k] == Locals(queues)[ProbeTarget(w, k)];
    }
    forall q: nat | q < |queues|
      ensures Locals(queues)[q] in queues[w].Probed()
    {
      ScanMeets(queues, w, q);
    }
  }

  lemma ValidForWorker(queues: seq<WorkStealingQueue>, w: nat)
    requires Wired(queues) && w < |queues|
    ensures AllValid(Locals(queues)) <==> AllValid(queues[w].Probed())
  {
    ScanObjects(queues, w);
    assert AllValid(Locals(queues)) <==> forall q :: q in Locals(queues) ==> q.Valid();
    assert AllValid(queues[w].Probed()) <==> forall q :: q in queues[w].Probed() ==> q.Valid();
  }

  /** If worker `w` finds nothing, no queue of the pool holds anything, and no worker finds anything. */
  lemma EmptyForEveryWorker(queues: seq<WorkStealingQueue>, w: nat)
    requires Wired(queues) && w < |queues|
    requires forall k :: 0 <= k < |queues[w].Probed()| ==> Contents(queues[w].Probed())[k] == []
    ensures forall q :: 0 <= q < |queues| ==> queues[q].local.queue.items == []
    ensures forall v, k :: 0 <= v < |queues| && 0 <= k < |queues[v].Probed()| ==> queues[v].Probed()[k].items == []
  {
    forall q: nat | q < |queues|
      ensures queues[q].local.queue.items == []
    {
      ScanMeets(queues, w, q);
      assert Contents(queues[w].Probed())[ProbeIndex(w, q)] == [];
    }
  }

  /** One more scan of a drain that has `taken` so far. */
  lemma DrainStep<T>(before: seq<seq<T>>, taken: seq<T>, css: seq<seq<T>>, r: Option<T>, left: seq<seq<T>>)
    requires (r, left) == PopFirst(css)
    requires Drain(before).0 == taken + Drain(css).0 && Drain(before).1 == Drain(css).1
    ensures r.None? ==> Drain(before).0 == taken && Drain(before).1 == left
    ensures r.Some? ==> Drain(before).0 == taken + [r.value] + Drain(left).0 && Drain(before).1 == Drain(left).1
    ensures r.Some? ==> |Flatten(left)| < |Flatten(css)|
    ensures r.None? ==> |Flatten(left)| == |Flatten(css)|
  {
    PopFirstTakesHead(css);
  }

  /** `Pop` repeated on one handle until it returns nothing. */
  method DrainScan(queue: WorkStealingQueue) returns (taken: seq<Task>)
    requires Distinct(queue.Probed()) && AllValid(queue.Probed())
    modifies queue.Probed()
    ensures AllValid(queue.Probed())
    ensures taken == Drain(old(Contents(queue.Probed()))).0
    ensures Contents(queue.Probed()) == Drain(old(Contents(queue.Probed()))).1
  {
    hide *;
    ghost var before := Contents(queue.Probed());
    taken := [];
    var more := true;
    while more
      invariant AllValid(queue.Probed())
      invariant more ==> Drain(before).0 == taken + Drain(Contents(queue.Probed())).0
      invariant more ==> Drain(before).1 == Drain(Contents(queue.Probed())).1
      invariant !more ==> Drain(before).0 == taken && Drain(before).1 == Contents(queue.Probed())
      decreases |Flatten(Contents(queue.Probed()))|, more
    {
      ghost var css := Contents(queue.Probed());
      var task := queue.Pop();
      DrainStep(before, taken, css, task, Contents(queue.Probed()));
      more := task.Some?;
      if more {
        taken := taken + [task.value];
      }
    }
  }

  /**
   * Worker `w`, undisturbed, empties the pool: it gets its own queue and then the others by number,
   * each in FIFO order, and no worker finds anything in any of the shared objects afterwards.
   */
  method DrainAll(queues: seq<WorkStealingQueue>, w: nat) returns (taken: seq<Task>)
    requires Wired(queues) && w < |queues| && AllValid(Locals(queues))
    modifies Locals(queues)
    ensures AllValid(Locals(queues))
    ensures var css := old(Contents(Locals(queues))); taken == css[w] + Flatten(css[..w] + css[w + 1..])
    ensures forall q :: 0 <= q < |queues| ==> queues[q].local.queue.items == []
    ensures forall v, k :: 0 <= v < |queues| && 0 <= k < |queues[v].Probed()| ==> queues[v].Probed()[k].items == []
  {
    hide Wired, Distinct, AllValid, PopFirst, Drain, Flatten, Contents;
    ScanObjects(queues, w);
    ValidForWorker(queues, w);
    WiredProbesAreDistinct(queues, w);
    ScanSeesWholePool(queues, w);
    SequentialDrain(w, Contents(Locals(queues)));
    taken := DrainScan(queues[w]);
    ValidForWorker(queues, w);
    EmptyForEveryWorker(queues, w);
  }
}
