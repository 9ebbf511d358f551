/** src/worker/reactor.rs: the event loop over batches of reported descriptors, and request handling. */
module EventLoop {
  import opened Wrappers
  import opened Octets
  import opened Kernel
  import opened EpollBackend
  import opened HttpRequests
  import opened HttpResponses
  import opened MessageReader
  import opened ResponseStream
  import opened Handlers
  import opened Completions
  import opened Closings
  import opened EventTrace
  import opened Routes

  datatype ServerMode = FastPath | DynamicPath

  /** What a request is answered with: a response, an error of the handler, or a panic in it. */
  datatype Answer = Reply(response: Response) | Refusal | Panic

  datatype Handling<+T> = Done(value: T) | HandlerError | Panicked

  // ---------- which descriptors the table knows ----------

  /** Descriptors that `accept` has handed out since identity `base`. */
  predicate IsClient(st: KernelState, base: nat, fd: i32) {
    fd in st.open && st.open[fd] >= base
  }

  /** The table holds the listening descriptor and every open client, except possibly `lost`. */
  ghost predicate Tracks(st: KernelState, table: set<i32>, base: nat, listenFd: i32, lost: Option<i32>) {
    && listenFd in st.open && st.open[listenFd] < base <= st.nextId
    && lost != Some(listenFd)
    && forall fd :: fd in table <==> (fd == listenFd || IsClient(st, base, fd)) && lost != Some(fd)
  }

  /** No descriptor but `fd` has been closed or has changed hands, and nothing was waited for. */
  ghost predicate Spares(st: KernelState, st': KernelState, fd: Option<i32>) {
    && st'.waits == st.waits
    && forall f :: f in st.open && fd != Some(f) ==> f in st'.open && st'.open[f] == st.open[f]
  }

  // ---------- events ----------

  /** From position `i` on, every event of the batch still names the connection it was reported for. */
  ghost predicate Current(batch: seq<(i32, bv32)>, reported: seq<nat>, i: nat, st: KernelState) {
    && |reported| == |batch|
    && (forall j, k :: i <= j < k < |batch| ==> batch[j].0 != batch[k].0)
    && (forall j :: i <= j < |batch| ==> batch[j].0 in st.open && st.open[batch[j].0] == reported[j])
  }

  /** Distinct members of the table. */
  ghost predicate IsBatch(batch: seq<(i32, bv32)>, table: set<i32>) {
    && (forall i :: 0 <= i < |batch| ==> batch[i].0 in table)
    && (forall i, j :: 0 <= i < j < |batch| ==> batch[i].0 != batch[j].0)
  }

  /** What each descriptor of a batch stands for in `st`. */
  ghost function ReportedFor(batch: seq<(i32, bv32)>, st: KernelState): (reported: seq<nat>)
    requires forall i :: 0 <= i < |batch| ==> batch[i].0 in st.open
    ensures |reported| == |batch| && forall i :: 0 <= i < |batch| ==> reported[i] == st.open[batch[i].0]
  {
    seq(|batch|, i requires 0 <= i < |batch| => st.open[batch[i].0])
  }

  /** Handling event `i` spares the descriptors of the events still to come. */
  lemma StaysCurrent(batch: seq<(i32, bv32)>, reported: seq<nat>, i: nat, st: KernelState, st': KernelState)
    requires i < |batch| && Current(batch, reported, i, st) && Spares(st, st', Some(batch[i].0))
    ensures Current(batch, reported, i + 1, st')
  {}

  // ---------- the state of the loop ----------

  /** Fixed for one run of the loop: the first client identity, the listener and the state at the start. */
  datatype Env = Env(base: nat, listenFd: i32, start: KernelState)

  /** Every connection has been sent what was taken of its completed responses, and nothing else. */
  ghost predicate WiresAgree(st: KernelState, done: seq<Completed>, base: nat)
    requires AllWritten(done)
  {
    forall id: nat :: id >= base ==> st.Wire(id) == WireOf(done, id)
  }

  /** What was sent and what was read agree with the completed requests. */
  ghost predicate TrafficAgrees(st: KernelState, done: seq<Completed>, base: nat, before: seq<Received>, unfinished: nat)
    requires AllWritten(done)
  {
    WiresAgree(st, done, base) && Answered(before, st.received, done, unfinished)
  }

  ghost predicate SameTraffic(st: KernelState, st': KernelState) {
    st'.wire == st.wire && st'.received == st.received
  }

  lemma TrafficStays(st: KernelState, st': KernelState, done: seq<Completed>, base: nat, before: seq<Received>,
                     unfinished: nat)
    requires AllWritten(done) && TrafficAgrees(st, done, base, before, unfinished) && SameTraffic(st, st')
    ensures TrafficAgrees(st', done, base, before, unfinished)
  {
    assert forall id :: st'.Wire(id) == st.Wire(id);
  }

  /** Octets have been read and now await their answer. */
  lemma ReadAwaitsAnswer(st: KernelState, st': KernelState, done: seq<Completed>, base: nat, before: seq<Received>,
                         next: Received)
    requires AllWritten(done) && TrafficAgrees(st, done, base, before, 0)
    requires st'.received == st.received + [next] && st'.wire == st.wire
    ensures TrafficAgrees(st', done, base, before, 1)
  {
    ReceivedOneMore(before, st.received, done, next);
    assert forall id :: st'.Wire(id) == st.Wire(id);
  }

  predicate IsHeld(st: KernelState, id: nat) {
    exists fd :: fd in st.open && st.open[fd] == id
  }

  /** The calls since the loop was entered. */
  function CallsSince(st0: KernelState, st: KernelState): seq<Call>
    requires |st0.log| <= |st.log|
  {
    st.log[|st0.log|..]
  }

  /** No client is closed twice, and every client that was accepted is closed or still open. */
  ghost predicate EachClosedOnce(st0: KernelState, st: KernelState, base: nat) {
    && |st0.log| <= |st.log|
    && forall id: nat :: base <= id < st.nextId ==>
         ClosesOnce(CallsSince(st0, st), id) && (IsClosedBy(CallsSince(st0, st), id) || IsHeld(st, id))
  }

  /** Besides, only clients are closed, and none of those in the table has been closed before. */
  ghost predicate ClosesClients(st: KernelState, env: Env, table: set<i32>) {
    && EachClosedOnce(env.start, st, env.base)
    && (forall id: nat :: IsClosedBy(CallsSince(env.start, st), id) ==> env.base <= id < st.nextId)
    && (forall fd :: fd in table && fd in st.open ==> !IsClosedBy(CallsSince(env.start, st), st.open[fd]))
  }

  /** Descriptors that were open before the loop are left alone. */
  ghost predicate LeavesOthers(st: KernelState, env: Env) {
    forall f :: f in env.start.open && env.start.open[f] < env.base ==> f in st.open && st.open[f] == env.start.open[f]
  }

  ghost predicate LoopState(env: Env, st: KernelState, table: set<i32>, lost: Option<i32>) {
    && Tracks(st, table, env.base, env.listenFd, lost)
    && ClosesClients(st, env, table)
    && LeavesOthers(st, env)
  }

  /** A client that has just been accepted is open but not yet in the table. */
  lemma AcceptKeepsState(env: Env, st: KernelState, table: set<i32>, fd: i32, pending: nat, accepted: KernelState)
    requires st.Valid() && LoopState(env, st, table, None) && fd !in st.open
    requires accepted == st.Opened(fd).(pending := pending).Logged(AcceptFrom(env.listenFd, Some(fd)))
    ensures Spares(st, accepted, None) && SameTraffic(st, accepted)
    ensures LoopState(env, accepted, table, Some(fd)) && LoopState(env, accepted, table + {fd}, None)
    ensures IsClient(accepted, env.base, fd)
  {
    var later := st.Opened(fd).(pending := pending);
    OpeningClosesNothing(env, st, table, fd, later);
    hide ClosesClients;
    HarmlessCall(env, later, table, Some(fd), AcceptFrom(env.listenFd, Some(fd)), accepted);
    HarmlessCall(env, later, table + {fd}, None, AcceptFrom(env.listenFd, Some(fd)), accepted);
  }

  /** Registering it puts it there, or it is the one that is lost. */
  lemma RegisterKeepsState(env: Env, st: KernelState, table: set<i32>, fd: i32, pending: nat, ok: bool, registered: KernelState)
    requires st.Valid() && LoopState(env, st, table, None) && fd !in st.open
    requires registered == Registered(st.Opened(fd).(pending := pending).Logged(AcceptFrom(env.listenFd, Some(fd))),
                                      fd, EPOLLIN | EPOLLET, ok)
    ensures LoopState(env, registered, if ok then table + {fd} else table, if ok then None else Some(fd))
    ensures Spares(st, registered, None) && SameTraffic(st, registered) && IsClient(registered, env.base, fd)
    ensures OnlyAccepts(st, registered, if ok then None else Some(fd))
    ensures EndsWith(st, registered, Add(fd, EpollEvent(EPOLLIN | EPOLLET, FdToU64(fd)), ok))
  {
    assert fd !in st.interest;
    hide LoopState, Spares;
    var accepted := st.Opened(fd).(pending := pending).Logged(AcceptFrom(env.listenFd, Some(fd)));
    AcceptKeepsState(env, st, table, fd, pending, accepted);
    HarmlessCall(env, accepted, if ok then table + {fd} else table, if ok then None else Some(fd),
                 Add(fd, EpollEvent(EPOLLIN | EPOLLET, FdToU64(fd)), ok), registered);
    SparesTwice(st, accepted, registered);
  }

  lemma RefusalAccepts(st: KernelState, st': KernelState, listenFd: i32)
    requires st' == st.Logged(AcceptFrom(listenFd, None))
    ensures OnlyAccepts(st, st', None)
  {}

  /** The last call of an accept loop: a refusal to accept, or a registration that failed. */
  predicate AcceptsEnd(st: KernelState, st': KernelState, listenFd: i32, r: Outcome) {
    EndsWith(st, st', if r.Failed? && r.error.ClientNotRegistered?
                      then Add(r.error.fd, EpollEvent(EPOLLIN | EPOLLET, FdToU64(r.error.fd)), false)
                      else AcceptFrom(listenFd, None))
  }

  lemma AcceptsNothing(st: KernelState)
    ensures OnlyAccepts(st, st, None) && Spares(st, st, None)
  {}

  lemma SparesTwice(st0: KernelState, st1: KernelState, st2: KernelState)
    requires Spares(st0, st1, None) && Spares(st1, st2, None)
    ensures Spares(st0, st2, None)
  {}

  /** A new connection has not been closed before. */
  lemma OpeningClosesNothing(env: Env, st: KernelState, table: set<i32>, fd: i32, later: KernelState)
    requires ClosesClients(st, env, table) && st.Valid() && fd !in st.open && env.base <= st.nextId
    requires later.open == st.open[fd := st.nextId] && later.nextId == st.nextId + 1 && later.log == st.log
    requires forall f :: f in table ==> f in st.open
    ensures ClosesClients(later, env, table) && ClosesClients(later, env, table + {fd})
  {
    hide ClosesOnce, IsClosedBy;
    assert CallsSince(env.start, later) == CallsSince(env.start, st);
    var calls := CallsSince(env.start, st);
    assert !IsClosedBy(calls, st.nextId);
    forall id | env.base <= id < later.nextId
      ensures ClosesOnce(calls, id) && (IsClosedBy(calls, id) || IsHeld(later, id))
    {
      if id == st.nextId {
        NeverClosed(calls, id);
        assert later.open[fd] == id;
      } else if IsHeld(st, id) {
        var f :| f in st.open && st.open[f] == id;
        assert f in later.open && later.open[f] == id;
      }
    }
  }

  lemma NeverClosed(calls: seq<Call>, id: nat)
    requires !IsClosedBy(calls, id)
    ensures ClosesOnce(calls, id)
  {}

  /** What the loop relies on is the descriptors and the log, not the rest of the kernel. */
  lemma StateDependsOnDescriptors(env: Env, st: KernelState, table: set<i32>, lost: Option<i32>, st': KernelState)
    requires LoopState(env, st, table, lost) && st'.open == st.open && st'.nextId == st.nextId && st'.log == st.log
    ensures LoopState(env, st', table, lost)
  {}

  /** Nor does a call matter that opens and closes nothing. */
  lemma HarmlessCall(env: Env, st: KernelState, table: set<i32>, lost: Option<i32>, call: Call, st': KernelState)
    requires LoopState(env, st, table, lost) && st'.open == st.open && st'.nextId == st.nextId
    requires st'.log == st.log + [call] && !call.Close?
    ensures LoopState(env, st', table, lost) && (st'.waits == st.waits ==> Spares(st, st', None))
  {
    hide ClosesOnce, IsClosedBy;
    var calls := CallsSince(env.start, st);
    assert CallsSince(env.start, st') == calls + [call];
    forall id: nat
      ensures IsClosedBy(calls + [call], id) <==> IsClosedBy(calls, id)
      ensures ClosesOnce(calls, id) ==> ClosesOnce(calls + [call], id)
      ensures IsHeld(st', id) <==> IsHeld(st, id)
    {
      OneMoreCall(calls, call, id);
    }
  }

  /** What a close adds to the calls. */
  lemma CloseCalls(st0: KernelState, st: KernelState, fd: i32, outcome: DropOutcome, closed: KernelState, id: nat)
    requires |st0.log| <= |st.log| && CloseEffect(st, closed, fd, outcome) && fd in st.open
    ensures |st0.log| <= |closed.log|
    ensures IsClosedBy(CallsSince(st0, closed), id) <==>
            IsClosedBy(CallsSince(st0, st), id) || (st.open[fd] == id && !outcome.Kept?)
    ensures ClosesOnce(CallsSince(st0, st), id) && (id == st.open[fd] ==> !IsClosedBy(CallsSince(st0, st), id)) ==>
              ClosesOnce(CallsSince(st0, closed), id)
  {
    hide ClosesOnce, IsClosedBy;
    var calls := CallsSince(st0, st);
    var del, close := Del(fd, !outcome.Kept?), Close(fd, st.Holder(fd), outcome.Released?);
    OneMoreCall(calls, del, id);
    OneMoreCall(calls + [del], close, id);
    if outcome.Kept? {
      assert CallsSince(st0, closed) == calls + [del];
    } else {
      assert CallsSince(st0, closed) == calls + [del] + [close];
    }
  }

  /** A client of the table is closed at most once, and then leaves the table. */
  lemma CloseLogsClient(env: Env, st: KernelState, table: set<i32>, fd: i32, outcome: DropOutcome, closed: KernelState)
    requires st.Valid() && ClosesClients(st, env, table) && fd in table && IsClient(st, env.base, fd)
    requires CloseEffect(st, closed, fd, outcome)
    ensures ClosesClients(closed, env, if outcome.Kept? then table else table - {fd})
  {
    hide ClosesOnce, IsClosedBy, CallsSince;
    var own := st.open[fd];
    forall id: nat
      ensures |env.start.log| <= |closed.log|
      ensures IsClosedBy(CallsSince(env.start, closed), id) <==>
              IsClosedBy(CallsSince(env.start, st), id) || (own == id && !outcome.Kept?)
      ensures ClosesOnce(CallsSince(env.start, st), id) ==> ClosesOnce(CallsSince(env.start, closed), id)
    {
      CloseCalls(env.start, st, fd, outcome, closed, id);
    }
    forall id | env.base <= id < closed.nextId
      ensures IsClosedBy(CallsSince(env.start, closed), id) || IsHeld(closed, id)
    {
      if !IsClosedBy(CallsSince(env.start, st), id) {
        var f :| f in st.open && st.open[f] == id;
        if f != fd || outcome.Kept? {
          assert f in closed.open && closed.open[f] == id;
        }
      }
    }
  }

  lemma CloseKeepsTable(env: Env, st: KernelState, table: set<i32>, fd: i32, outcome: DropOutcome, closed: KernelState)
    requires Tracks(st, table, env.base, env.listenFd, None) && LeavesOthers(st, env) && st.Valid()
    requires IsClient(st, env.base, fd) && CloseEffect(st, closed, fd, outcome)
    ensures LeavesOthers(closed, env) && Spares(st, closed, Some(fd)) && SameTraffic(st, closed)
    ensures outcome.Kept? ==> Tracks(closed, table, env.base, env.listenFd, None)
    ensures outcome.Released? ==> Tracks(closed, table - {fd}, env.base, env.listenFd, None)
    ensures outcome.Unreleased? ==> Tracks(closed, table - {fd}, env.base, env.listenFd, Some(fd))
  {
    assert fd != env.listenFd;
    assert forall f :: f in closed.open <==> f in st.open && (f != fd || fd in closed.open);
  }

  /** At a loop head the table is the listener and the open clients. */
  lemma TableIsListenerAndClients(env: Env, st: KernelState, table: set<i32>, fd: i32)
    requires LoopState(env, st, table, None)
    ensures env.listenFd in table && env.listenFd in st.open
    ensures fd in table <==> fd == env.listenFd || IsClient(st, env.base, fd)
  {}

  /** Closing client `fd`, or trying to. */
  lemma CloseKeepsState(env: Env, st: KernelState, table: set<i32>, fd: i32, outcome: DropOutcome, closed: KernelState)
    requires st.Valid() && LoopState(env, st, table, None) && IsClient(st, env.base, fd) && CloseEffect(st, closed, fd, outcome)
    ensures Spares(st, closed, Some(fd)) && SameTraffic(st, closed)
    ensures outcome.Kept? ==> LoopState(env, closed, table, None)
    ensures outcome.Released? ==> LoopState(env, closed, table - {fd}, None)
    ensures outcome.Unreleased? ==> LoopState(env, closed, table - {fd}, Some(fd))
  {
    CloseLogsClient(env, st, table, fd, outcome, closed);
    CloseKeepsTable(env, st, table, fd, outcome, closed);
  }

  lemma WriteKeepsState(env: Env, st: KernelState, st': KernelState, table: set<i32>, fd: i32, done: seq<Completed>, c: Completed)
    requires LoopState(env, st, table, None) && AllWritten(done)
    requires TrafficAgrees(st, done, env.base, env.start.received, 1)
    requires CompletedNow(st, st', fd, c) && st.received[|st.received| - 1] == Received(st.open[fd], c.data)
    ensures LoopState(env, st', table, None) && AllWritten(done + [c])
    ensures TrafficAgrees(st', done + [c], env.base, env.start.received, 0)
    ensures Spares(st, st', None) && st'.received == st.received && c.Written()
  {
    hide LoopState;
    HarmlessCall(env, st, table, None, WriteTo(fd, c.sent.Bytes(), Some(c.taken)), st');
    CompletedExtend(done, c);
    AnsweredOneMore(env.start.received, st.received, done, c);
  }

  /**
   * How a run ends.  Every client still open is the one the exit lost, or one whose DEL or close the
   * kernel refused; a client that could not be registered does stay open; so does the listener only
   * if it was refused or never registered, and the epoll descriptor only if it was refused; and nobody
   * else's descriptor was touched.
   */
  ghost predicate Finished(st0: KernelState, st: KernelState, listenFd: i32, epollFd: i32, r: Outcome) {
    && (forall fd: i32 :: IsClient(st, st0.nextId, fd) ==> LostBy(r) == Some(fd) || RefusedSince(st0, st, fd))
    && (r.Failed? && r.error.LeavesOpen() ==> IsClient(st, st0.nextId, r.error.fd))
    && (epollFd in st.open ==> RefusedSince(st0, st, epollFd))
    && (listenFd in st.open ==> RefusedSince(st0, st, listenFd) || r == Failed(ListenerNotRegistered))
    && (forall fd :: fd in st0.open && fd != listenFd && fd != epollFd ==> fd in st.open && st.open[fd] == st0.open[fd])
  }

  /** A run that ends in a panic drops nothing: what was open before stays open, and so does the client being answered. */
  ghost predicate Abandoned(st0: KernelState, st: KernelState, fd: i32) {
    IsClient(st, st0.nextId, fd) && forall f :: f in st0.open ==> f in st.open && st.open[f] == st0.open[f]
  }

  /** How a run ends, and what it has closed until then. */
  ghost predicate Ended(st0: KernelState, st: KernelState, listenFd: i32, epollFd: i32, r: Outcome) {
    && EachClosedOnce(st0, st, st0.nextId)
    && if IsAbort(r) then Abandoned(st0, st, r.error.fd) else Finished(st0, st, listenFd, epollFd, r)
  }

  lemma AfterAbort(env: Env, st: KernelState, table: set<i32>, epollFd: i32, r: Outcome)
    requires LoopState(env, st, table, None) && env.base == env.start.nextId && env.start.Valid()
    requires IsAbort(r) && IsClient(st, env.base, r.error.fd)
    ensures Ended(env.start, st, env.listenFd, epollFd, r)
  {
    assert forall fd :: fd in env.start.open ==> env.start.open[fd] < env.base;
  }

  /** The kernel refused a DEL or a close of `fd`. */
  ghost predicate RefusedSince(st0: KernelState, st: KernelState, fd: i32) {
    exists i :: |st0.log| <= i < |st.log| && IsRefusal(st.log[i], fd)
  }

  /** A descriptor that is open after the drop was refused in it. */
  lemma OpenAfterDrop(st0: KernelState, st: KernelState, table: set<i32>, st': KernelState, fds: seq<i32>,
                      outcomes: seq<DropOutcome>, epollFd: i32, closed: bool, fd: i32)
    requires |st0.log| <= |st.log| && fd in table && fd in st'.open
    requires IsListing(fds, table) && DroppedAll(st, st', fds, outcomes, epollFd, closed)
    ensures RefusedSince(st0, st', fd)
  {
    var i :| 0 <= i < |fds| && fds[i] == fd;
    RefusalIsLogged(fds, outcomes, st.Holder, i);
    var calls := DropCalls(fds, outcomes, st.Holder);
    var k :| 0 <= k < |calls| && IsRefusal(calls[k], fd);
    assert st'.log[|st.log| + k] == calls[k];
  }

  lemma StartsTracking(env: Env)
    requires env.start.Valid() && env.listenFd in env.start.open && env.base == env.start.nextId
    ensures LoopState(env, env.start, {env.listenFd}, None)
  {}

  lemma NoTraffic(st: KernelState, base: nat)
    requires st.Valid() && base >= st.nextId
    ensures TrafficAgrees(st, [], base, st.received, 0)
  {}

  lemma EpollClosed(st0: KernelState, st: KernelState, st': KernelState, fds: seq<i32>, outcomes: seq<DropOutcome>,
                    epollFd: i32, closed: bool)
    requires |st0.log| <= |st.log| && DroppedAll(st, st', fds, outcomes, epollFd, closed) && epollFd in st'.open
    ensures RefusedSince(st0, st', epollFd)
  {
    assert IsRefusal(st'.log[|st'.log| - 1], epollFd);
  }

  lemma FinishedAfterDrop(env: Env, st: KernelState, table: set<i32>, st': KernelState, fds: seq<i32>,
                          outcomes: seq<DropOutcome>, epollFd: i32, closed: bool, r: Outcome)
    requires |env.start.log| <= |st.log|
    requires Tracks(st, table, env.base, env.listenFd, LostBy(r)) && LeavesOthers(st, env)
    requires env.start.Valid() && env.base == env.start.nextId && !IsAbort(r)
    requires r.Failed? && r.error.ClientNotRegistered? ==> IsClient(st, env.base, r.error.fd)
    requires epollFd in env.start.open && IsListing(fds, table) && DroppedAll(st, st', fds, outcomes, epollFd, closed)
    ensures Finished(env.start, st', env.listenFd, epollFd, r)
  {
    hide RefusedSince, DropCalls;
    forall fd | fd in table && fd in st'.open
      ensures RefusedSince(env.start, st', fd)
    {
      OpenAfterDrop(env.start, st, table, st', fds, outcomes, epollFd, closed, fd);
    }
    if epollFd in st'.open {
      EpollClosed(env.start, st, st', fds, outcomes, epollFd, closed);
    }
    assert forall fd :: fd in env.start.open ==> env.start.open[fd] < env.base;
  }

  lemma AfterDrop(env: Env, st: KernelState, table: set<i32>, st': KernelState, fds: seq<i32>, outcomes: seq<DropOutcome>,
                  epollFd: i32, closed: bool, r: Outcome)
    requires st.Valid() && LoopState(env, st, table, LostBy(r)) && env.base == env.start.nextId && !IsAbort(r)
    requires r.Failed? && r.error.ClientNotRegistered? ==> IsClient(st, env.base, r.error.fd)
    requires env.start.Valid() && epollFd in env.start.open && epollFd !in table
    requires IsListing(fds, table) && DroppedAll(st, st', fds, outcomes, epollFd, closed)
    ensures Ended(env.start, st', env.listenFd, epollFd, r)
  {
    assert |env.start.log| <= |st.log|;
    assert forall fd :: fd in table ==> fd in st.open;
    hide Finished, EachClosedOnce, DroppedAll, IsListing, Tracks, ClosesClients, LeavesOthers;
    FinishedAfterDrop(env, st, table, st', fds, outcomes, epollFd, closed, r);
    ClosedAfterDrop(env, st, table, st', fds, outcomes, epollFd, closed);
  }

  /** The drop closes each client of the table that has not been closed, unless the kernel refuses. */
  lemma ClosedAfterDrop(env: Env, st: KernelState, table: set<i32>, st': KernelState, fds: seq<i32>,
                        outcomes: seq<DropOutcome>, epollFd: i32, closed: bool)
    requires st.Valid() && ClosesClients(st, env, table) && LeavesOthers(st, env)
    requires forall fd :: fd in table ==> fd in st.open
    requires epollFd !in table && epollFd in env.start.open && env.start.open[epollFd] < env.base
    requires IsListing(fds, table) && DroppedAll(st, st', fds, outcomes, epollFd, closed)
    ensures EachClosedOnce(env.start, st', env.base)
  {
    hide DropCalls, IsClosedBy, ClosesOnce, Deregistered, HeldOnce;
    var calls, dropped := CallsSince(env.start, st), DropCalls(fds, outcomes, st.Holder);
    var last := Close(epollFd, st.Holder(epollFd), closed);
    assert CallsSince(env.start, st') == calls + dropped + [last];
    forall id | env.base <= id < st'.nextId
      ensures ClosesOnce(CallsSince(env.start, st'), id)
      ensures IsClosedBy(CallsSince(env.start, st'), id) || IsHeld(st', id)
    {
      TableHoldsOnce(env, st, table, fds, id);
      DropClosesOnce(calls, fds, outcomes, st.Holder, id);
      OneMoreCall(calls + dropped, last, id);
      if !IsClosedBy(calls, id) {
        var fd :| fd in st.open && st.open[fd] == id;
        StillHeldOrDeregistered(st, st', fds, outcomes, epollFd, closed, fd);
      }
    }
  }

  lemma TableHoldsOnce(env: Env, st: KernelState, table: set<i32>, fds: seq<i32>, id: nat)
    requires st.Valid() && ClosesClients(st, env, table) && IsListing(fds, table)
    requires forall fd :: fd in table ==> fd in st.open
    ensures HeldOnce(CallsSince(env.start, st), fds, st.Holder, id)
  {
    hide IsClosedBy, ClosesOnce, EachClosedOnce;
    assert forall i :: 0 <= i < |fds| ==> fds[i] in table && st.Holder(fds[i]) == Some(st.open[fds[i]]);
  }

  lemma StillHeldOrDeregistered(st: KernelState, st': KernelState, fds: seq<i32>, outcomes: seq<DropOutcome>,
                                epollFd: i32, closed: bool, fd: i32)
    requires DroppedAll(st, st', fds, outcomes, epollFd, closed) && fd in st.open && fd != epollFd
    ensures IsHeld(st', st.open[fd]) || Deregistered(fds, outcomes, st.Holder, st.open[fd])
  {
    hide DropCalls;
    if fd in fds {
      var i :| 0 <= i < |fds| && fds[i] == fd;
      assert outcomes[i].Kept? ==> fd in st'.open && st'.open[fd] == st.open[fd];
    } else {
      assert fd in st'.open && st'.open[fd] == st.open[fd];
    }
  }

  lemma NothingToDrop(st: KernelState, st': KernelState, fds: seq<i32>, outcomes: seq<DropOutcome>, listenFd: i32,
                      epollFd: i32, closed: bool, table: set<i32>)
    requires st.Valid() && table == {} && IsListing(fds, table) && DroppedAll(st, st', fds, outcomes, epollFd, closed)
    ensures Ended(st, st', listenFd, epollFd, Failed(ListenerNotRegistered))
    ensures SameTraffic(st, st') && st'.waits == st.waits
  {
    if epollFd in st'.open {
      EpollClosed(st, st, st', fds, outcomes, epollFd, closed);
    }
  }

  lemma BatchStartsCurrent(env: Env, batch: seq<(i32, bv32)>, st: KernelState, table: set<i32>)
    requires LoopState(env, st, table, None)
    requires IsBatch(batch, table) && forall fd :: fd in table ==> fd in st.open
    ensures Current(batch, ReportedFor(batch, st), 0, st)
    ensures forall i :: 0 <= i < |batch| ==> ReportedFor(batch, st)[i] >= env.base || batch[i].0 == env.listenFd
  {}

  /**
   * A descriptor still to come in a batch was in the table when the batch was reported and still
   * stands for the same connection, so it still is.
   */
  lemma StillInTable(env: Env, batch: seq<(i32, bv32)>, reported: seq<nat>, i: nat, st: KernelState, table: set<i32>)
    requires i < |batch| && Current(batch, reported, i, st) && LoopState(env, st, table, None)
    requires reported[i] >= env.base || batch[i].0 == env.listenFd
    ensures batch[i].0 in table
  {}

  function ClosesWith(r: Outcome): DropOutcome {
    if r.Fine? then Released else if r.error.DelRefused? then Kept else Unreleased
  }

  lemma AnsweredIsServed(st: KernelState, st': KernelState, fd: i32, data: octets, done: seq<Completed>, r: Outcome)
    requires fd in st.open && 0 < |data| <= 8192
    requires r.Fine? ==> |done| == 1 && done[0].data == data && CompletedNow(AfterRead(st, fd, data), st', fd, done[0])
    requires r.Failed? ==> IsUnanswered(AfterRead(st, fd, data), st', fd, r.error)
    requires r.Fine? || r == Failed(HandlerFailed(fd)) || r == Failed(WriteFailed(fd)) || r == Failed(Aborted(fd))
    ensures if r.Fine? then ClientServed(st, st', fd, done) else ClientFailed(st, st', fd, r.error)
  {
    hide CompletedNow;
    if r.Failed? {
      assert FailsToAnswer(st, st', fd, r.error, data);
    }
  }

  lemma DismissedIsServed(st: KernelState, st': KernelState, fd: i32, read: Option<octets>, r: Outcome)
    requires fd in st.open && IsEnd(read) && CloseEffect(AfterEnd(st, fd, read), st', fd, ClosesWith(r))
    requires r.Fine? || r == Failed(Exit.DelRefused(fd)) || r == Failed(Exit.CloseRefused(fd))
    ensures if r.Fine? then ClientServed(st, st', fd, []) else ClientFailed(st, st', fd, r.error)
  {
    hide CloseEffect;
    if r.Failed? {
      assert FailsToClose(st, st', fd, r.error, read);
    }
  }

  /** A request that failed has changed nothing, except that a write that failed was made. */
  ghost predicate IsUnanswered(st: KernelState, st': KernelState, fd: i32, error: Exit) {
    if error.WriteFailed? then exists bytes :: st' == st.Logged(WriteTo(fd, bytes, None)) else st' == st
  }

  lemma UnansweredKeepsState(env: Env, st: KernelState, st': KernelState, table: set<i32>, fd: i32, error: Exit)
    requires LoopState(env, st, table, None) && IsUnanswered(st, st', fd, error)
    ensures LoopState(env, st', table, None) && Spares(st, st', None) && SameTraffic(st, st')
  {
    hide LoopState;
    if error.WriteFailed? {
      var bytes :| st' == st.Logged(WriteTo(fd, bytes, None));
      HarmlessCall(env, st, table, None, WriteTo(fd, bytes, None), st');
    }
  }

  /** What the drop leaves of the state in which the loop was left; a panic leaves all of it. */
  ghost predicate IsLeft(left: KernelState, st: KernelState, r: Outcome) {
    if IsAbort(r) then st == left
    else SameTraffic(left, st) && st.waits == left.waits && st.nextId == left.nextId
  }

  /** From `start` the loop has run to a state from which the drop leads to `st`. */
  ghost predicate HasRun(start: KernelState, st: KernelState, listenFd: i32, handled: seq<Handled>, completed: seq<Completed>,
                         r: Outcome) {
    exists left :: Traced(start, left, listenFd, handled, completed, r) && IsLeft(left, st, r)
  }

  /**
   * From `st0`: the epoll instance was created as `epollFd`, the listener registered for input, the
   * loop run and the backend dropped.
   */
  ghost predicate HasRunWhole(st0: KernelState, st: KernelState, listenFd: i32, epollFd: i32, handled: seq<Handled>,
                              completed: seq<Completed>, r: Outcome) {
    && epollFd !in st0.open
    && var created := st0.Opened(epollFd).(interest := map[]).Logged(Create(true));
       var start := Registered(created, listenFd, EPOLLIN, r != Failed(ListenerNotRegistered));
       && Ended(start, st, listenFd, epollFd, r)
       && if r == Failed(ListenerNotRegistered) then handled == [] && completed == []
          else HasRun(start, st, listenFd, handled, completed, r)
  }

  // ---------- the reactor ----------

  class Reactor {
    const mode: ServerMode
    const files: string -> Lookup
    const parse: octets -> Option<HttpRequest>
    const health: octets
    const metricsDocument: (nat, nat) -> Option<octets>
    const statsDocument: (nat, nat) -> octets
    var requestsTotal: nat
    var bytesSent: nat
    ghost var completed: seq<Completed>
    ghost var handled: seq<Handled>

    /** The counters add up to the completed requests, with `unfinished` more that were only counted. */
    ghost predicate Counts(unfinished: nat)
      reads this
    {
      && AllWritten(completed)
      && requestsTotal == |completed| + unfinished
      && bytesSent == ResponseOctets(completed)
    }

    /**
     * The state of a run of the loop whose outcome so far is `r`: the table agrees with the kernel and
     * tracks every open client but the one `r` lost, the counters agree with the completed requests,
     * each of those got the response it should have, and no event was handled stale.
     */
    ghost predicate Steady(epoll: EpollBackend, env: Env, r: Outcome)
      reads this, epoll, epoll.kernel
    {
      && Counts(UnfinishedBy(r)) && epoll.Valid()
      && LoopState(env, epoll.kernel.st, epoll.connections.Keys, LostBy(r))
      && AllExpected(completed)
      && NoneStale(handled)
      && (r.Failed? ==> r.error.InLoop())
      && (r.Failed? && r.error.LeavesOpen() ==> IsClient(epoll.kernel.st, env.base, r.error.fd))
    }

    /** Besides, everything sent or read belongs to a completed request, or to the one that `r` left unfinished. */
    ghost predicate Running(epoll: EpollBackend, env: Env, r: Outcome)
      reads this, epoll, epoll.kernel
    {
      && Steady(epoll, env, r)
      && TrafficAgrees(epoll.kernel.st, completed, env.base, env.start.received, UnfinishedBy(r))
      && Explains(r, epoll.kernel.st.received)
    }

    /** How an unfinished request went is decided by the octets read last and the counters at that time. */
    ghost predicate Explains(r: Outcome, received: seq<Received>)
      requires AllWritten(completed)
      reads this
    {
      UnfinishedBy(r) == 1 ==>
        && received != []
        && var answer := Expected(received[|received| - 1].data, |completed| + 1, ResponseOctets(completed));
           (r.error.HandlerFailed? <==> answer.Refusal?) && (r.error.Aborted? <==> answer.Panic?)
    }

    lemma AnswerExplains(r: Outcome, received: seq<Received>, fd: i32, buffer: octets)
      requires AllWritten(completed) && received != [] && received[|received| - 1].data == buffer
      requires r.Fine? || r == Failed(HandlerFailed(fd)) || r == Failed(WriteFailed(fd)) || r == Failed(Aborted(fd))
      requires r.Failed? ==>
                 var answer := Expected(buffer, |completed| + 1, ResponseOctets(completed));
                 (r == Failed(HandlerFailed(fd)) <==> answer.Refusal?) && (r == Failed(Aborted(fd)) <==> answer.Panic?)
      ensures Explains(r, received)
    {}

    /** What a finished run leaves: counters, responses, events, and what was sent and read since `before`. */
    ghost predicate Accounted(st: KernelState, base: nat, before: seq<Received>, r: Outcome)
      reads this
    {
      && Counts(UnfinishedBy(r)) && AllExpected(completed) && NoneStale(handled)
      && TrafficAgrees(st, completed, base, before, UnfinishedBy(r)) && Explains(r, st.received)
    }

    constructor (mode: ServerMode, files: string -> Lookup, parse: octets -> Option<HttpRequest>, health: octets,
                 metricsDocument: (nat, nat) -> Option<octets>, statsDocument: (nat, nat) -> octets)
      ensures Counts(0) && completed == [] && handled == []
    {
      this.mode, this.files, this.parse := mode, files, parse;
      this.health, this.metricsDocument, this.statsDocument := health, metricsDocument, statsDocument;
      requestsTotal, bytesSent, completed, handled := 0, 0, [], [];
    }

    /** A static request whose clean path cannot be sliced after its first byte. */
    predicate Aborts(buffer: octets) {
      mode.FastPath? && parse(buffer).Some? && !IsSliceable(parse(buffer).value.CleanPath())
    }

    /** A static request for a file that exists and cannot be mapped, as an empty one. */
    predicate Refuses(buffer: octets) {
      mode.FastPath? && parse(buffer).Some? &&
      var path := parse(buffer).value.CleanPath();
      IsSliceable(path) && files(path[1..]).Unmappable?
    }

    /** The answer to the octets read, when the counters stand at `requests` and `bytes`. */
    function Expected(buffer: octets, requests: nat, bytes: nat): (answer: Answer)
      ensures answer.Panic? <==> Aborts(buffer)
      ensures mode.FastPath? ==> (answer.Refusal? <==> Refuses(buffer))
    {
      var request := parse(buffer);
      if request.None? then Reply(NewResponse(400).WithBody(Ascii("400 Bad Request")))
      else if mode.FastPath? then
        var path := request.value.CleanPath();
        if !IsSliceable(path) then Panic
        else if files(path[1..]).Unmappable? then Refusal
        else Reply(StaticResponse(files(path[1..])))
      else
        var metrics := metricsDocument(requests, bytes);
        if request.value.verb == "GET" && request.value.CleanPath() == "/api/metrics" && metrics.None? then Refusal
        else Reply(DynamicResponse(request.value, health, metrics, statsDocument(requests, bytes)))
    }

    /** A request for `?x` has an empty clean path: the static handler slices past its end. */
    lemma EmptyPathAborts(buffer: octets, request: HttpRequest)
      requires mode.FastPath? && parse(buffer) == Some(request) && request.path == "?x"
      ensures request.CleanPath() == "" && Aborts(buffer)
    {}

    /** Every completed request got the response expected for what was read and the counters at that time. */
    ghost predicate AllExpected(done: seq<Completed>)
      requires AllWritten(done)
    {
      done == [] ||
        var n := |done| - 1;
        AllExpected(done[..n]) &&
        Expected(done[n].data, n + 1, ResponseOctets(done[..n])) == Reply(done[n].sent.response)
    }

    lemma ExpectedOneMore(done: seq<Completed>, c: Completed)
      requires AllWritten(done) && c.Written() && AllExpected(done)
      requires Expected(c.data, |done| + 1, ResponseOctets(done)) == Reply(c.sent.response)
      ensures AllWritten(done + [c]) && AllExpected(done + [c])
    {
      hide Expected, ResponseOctets;
      CompletedExtend(done, c);
      assert (done + [c])[..|done|] == done;
    }

    /** Octets that are no request are answered with 400, in either mode. */
    lemma GarbageIsBadRequest(buffer: octets, requests: nat, bytes: nat)
      requires parse(buffer).None?
      ensures var answer := Expected(buffer, requests, bytes);
              && answer.Reply?
              && ReadsAs(answer.response, 400, "Bad Request", SizedFields(Ascii("15")), Ascii("400 Bad Request"))
    {
      hide ReadsAs;
      BadRequestReads();
    }

    /** In static mode the path below the directory decides: 404, or the file with its length and its type. */
    lemma StaticAnswers(buffer: octets, requests: nat, bytes: nat)
      requires mode.FastPath? && parse(buffer).Some? && IsSliceable(parse(buffer).value.CleanPath())
      ensures var answer := Expected(buffer, requests, bytes);
              match files(parse(buffer).value.CleanPath()[1..])
              case Unmappable => answer.Refusal?
              case Missing =>
                answer.Reply? && ReadsAs(answer.response, 404, "Not Found", SizedFields(Ascii("13")), Ascii("404 Not Found"))
              case Mapped(content, extension) =>
                && answer.Reply?
                && ReadsAs(answer.response, 200, "OK",
                           match extension case None => SizedFields(Decimal(|content|))
                                           case Some(e) => TypedFields(ContentTypeFor(e), Decimal(|content|)),
                           content)
    {
      hide ReadsAs, SizedFields, TypedFields, ContentTypeFor;
      var found := files(parse(buffer).value.CleanPath()[1..]);
      if !found.Unmappable? {
        StaticRoutes(found);
      }
    }

    /** In dynamic mode the route decides, and the documents show the counters as they stand. */
    lemma DynamicAnswers(buffer: octets, requests: nat, bytes: nat, request: HttpRequest)
      requires mode.DynamicPath? && parse(buffer) == Some(request)
      ensures var answer := Expected(buffer, requests, bytes);
              var route := (request.verb, request.CleanPath());
              var metrics, stats := metricsDocument(requests, bytes), statsDocument(requests, bytes);
              if route == ("GET", "/api/health") then
                answer.Reply? && ReadsAs(answer.response, 200, "OK", TypedFields("application/json", Decimal(|health|)), health)
              else if route == ("GET", "/api/stats") then
                answer.Reply? && ReadsAs(answer.response, 200, "OK", TypedFields("application/json", Decimal(|stats|)), stats)
              else if route == ("GET", "/api/metrics") then
                if metrics.None? then answer.Refusal? else
                && answer.Reply?
                && ReadsAs(answer.response, 200, "OK",
                           TypedFields("text/plain; charset=utf-8", Decimal(|metrics.value|)), metrics.value)
              else
                answer.Reply? && ReadsAs(answer.response, 404, "Not Found", SizedFields(Ascii("13")), Ascii("404 Not Found"))
    {
      hide ReadsAs, SizedFields, TypedFields, DynamicResponse;
      DynamicRoutes(request, health, metricsDocument(requests, bytes), statsDocument(requests, bytes));
      RoutesDiffer();
    }

    /** Completed request number `k` was answered for what it read, when the counters stood after the ones before it. */
    lemma {:induction false} ExpectedAt(done: seq<Completed>, k: nat)
      requires AllWritten(done) && AllExpected(done) && k < |done|
      ensures Expected(done[k].data, k + 1, ResponseOctets(done[..k])) == Reply(done[k].sent.response)
    {
      hide Expected, ResponseOctets, Completed.Written;
      var n := |done| - 1;
      if k < n {
        ExpectedAt(done[..n], k);
        assert done[..n][..k] == done[..k] && done[..n][k] == done[k];
      }
    }

    /** A request for the statistics is told that it is the latest of all, and the octets of those before it. */
    lemma StatsShowCounters(st: KernelState, base: nat, before: seq<Received>, r: Outcome, k: nat, request: HttpRequest)
      requires Accounted(st, base, before, r) && k < |completed| && mode.DynamicPath?
      requires parse(completed[k].data) == Some(request) && (request.verb, request.CleanPath()) == ("GET", "/api/stats")
      ensures completed[k].sent.response.body == statsDocument(k + 1, ResponseOctets(completed[..k]))
    {
      hide ResponseOctets;
      ExpectedAt(completed, k);
      RoutesDiffer();
    }

    lemma {:induction false} NoneAborts(done: seq<Completed>)
      requires AllWritten(done) && AllExpected(done)
      ensures forall i :: 0 <= i < |done| ==> !Aborts(done[i].data) && !Refuses(done[i].data)
    {
      hide Expected, ResponseOctets, Completed.Written, Sent.Bytes;
      if done != [] {
        NoneAborts(done[..|done| - 1]);
      }
    }

    /** A run ends in a panic exactly when some octets it read cannot be handled otherwise. */
    lemma AbortsIff(st: KernelState, base: nat, before: seq<Received>, r: Outcome)
      requires Accounted(st, base, before, r)
      ensures IsAbort(r) <==> exists i :: |before| <= i < |st.received| && Aborts(st.received[i].data)
    {
      hide Expected, Aborts, AllExpected, NoneStale, WiresAgree, ResponseOctets, Completed.Written;
      NoneAborts(completed);
      var n := |before| + |completed|;
      forall i | |before| <= i < n
        ensures !Aborts(st.received[i].data)
      {
        assert st.received[i] == st.received[..n][i] == Requests(completed)[i - |before|];
      }
    }

    /** In static mode a run is ended by its handler exactly when some octets it read ask for a file that cannot be mapped. */
    lemma RefusesIff(st: KernelState, base: nat, before: seq<Received>, r: Outcome)
      requires Accounted(st, base, before, r) && mode.FastPath?
      ensures IsHandlerFailure(r) <==> exists i :: |before| <= i < |st.received| && Refuses(st.received[i].data)
    {
      hide Expected, Refuses, Aborts, AllExpected, NoneStale, WiresAgree, ResponseOctets, Completed.Written;
      NoneAborts(completed);
      var n := |before| + |completed|;
      forall i | |before| <= i < n
        ensures !Refuses(st.received[i].data)
      {
        assert st.received[i] == st.received[..n][i] == Requests(completed)[i - |before|];
      }
    }

    /** The octets read since `before` decide whether a run ends in a panic, and in static mode whether its handler ends it. */
    ghost predicate EndsAsRead(r: Outcome, before: nat, received: seq<Received>) {
      && (IsAbort(r) <==> exists i :: before <= i < |received| && Aborts(received[i].data))
      && (mode.FastPath? ==>
           (IsHandlerFailure(r) <==> exists i :: before <= i < |received| && Refuses(received[i].data)))
    }

    lemma RunEndsAsRead(st: KernelState, base: nat, before: seq<Received>, r: Outcome)
      requires Accounted(st, base, before, r)
      ensures EndsAsRead(r, |before|, st.received)
    {
      hide Accounted, Aborts, Refuses;
      AbortsIff(st, base, before, r);
      if mode.FastPath? {
        RefusesIff(st, base, before, r);
      }
    }

    /** Parses and handles; a panic in the handler is an outcome of its own. */
    method Respond(buffer: octets) returns (r: Handling<HttpResponse>)
      ensures r.Done? ==> fresh(r.value) && IsReadable(r.value.View())
      ensures Expected(buffer, requestsTotal, bytesSent) ==
              match r case Done(response) => Reply(response.View()) case HandlerError => Refusal case Panicked => Panic
    {
      ErrorResponsesAreReadable();
      var request := parse(buffer);
      if request.None? {
        var response := HttpResponse.BadRequest();
        return Done(response);
      }
      if mode.FastPath? {
        if !IsSliceable(request.value.CleanPath()) {
          return Panicked;
        }
        StaticResponseIsReadable(files(request.value.CleanPath()[1..]));
        var response := HandleStaticFile(request.value, files);
        r := if response.Ok? then Done(response.value) else HandlerError;
      } else {
        var metrics, stats := metricsDocument(requestsTotal, bytesSent), statsDocument(requestsTotal, bytesSent);
        DynamicResponseIsReadable(request.value, health, metrics, stats);
        var response := HandleDynamic(request.value, health, metrics, stats);
        r := if response.Ok? then Done(response.value) else HandlerError;
      }
    }

    /** The serialized response, and the order in which its headers were visited. */
    method RespondBytes(buffer: octets) returns (r: Handling<octets>, ghost sent: Sent)
      ensures r.HandlerError? <==> Expected(buffer, requestsTotal, bytesSent).Refusal?
      ensures r.Panicked? <==> Expected(buffer, requestsTotal, bytesSent).Panic?
      ensures r.Done? ==> sent.HasOrder() && IsReadable(sent.response) && r.value == sent.Bytes()
      ensures r.Done? ==> Expected(buffer, requestsTotal, bytesSent) == Reply(sent.response)
    {
      hide Expected, Aborts, Refuses;
      sent := Sent(NewResponse(200), []);
      var response := Respond(buffer);
      match response
      case HandlerError => r := HandlerError;
      case Panicked => r := Panicked;
      case Done(value) =>
        ghost var view := value.View();
        var bytes := value.ToBytes();
        ghost var order :| IsOrder(order, view.headers.Keys) && bytes == Serialize(view, order);
        r, sent := Done(bytes), Sent(view, order);
    }

    /** A single write, whose short count is ignored: the whole length goes into the byte counter. */
    method WriteResponse(fd: i32, responseBytes: octets, ghost data: octets, ghost sent: Sent, epoll: EpollBackend)
        returns (ok: bool, ghost c: Completed)
      requires Counts(1) && epoll.Valid() && fd in epoll.connections
      requires sent.HasOrder() && IsReadable(sent.response) && responseBytes == sent.Bytes()
      modifies this`bytesSent, this`completed, epoll.kernel
      ensures Counts(if ok then 0 else 1) && epoll.Valid()
      ensures !ok ==> completed == old(completed)
      ensures !ok ==> epoll.kernel.st == old(epoll.kernel.st).Logged(WriteTo(fd, responseBytes, None))
      ensures ok ==> completed == old(completed) + [c] && c.data == data && c.sent == sent
      ensures ok ==> CompletedNow(old(epoll.kernel.st), epoll.kernel.st, fd, c)
    {
      hide IsReadable, ResponseOctets, TakenOctets, WireOf, ResponsesOn, TakenOn, Sent.Bytes;
      c := Completed(epoll.kernel.st.open[fd], data, sent, 0);
      var taken := epoll.kernel.Write(fd, responseBytes);
      ok := taken.Some?;
      if ok {
        bytesSent := bytesSent + |responseBytes|;
        c := c.(taken := taken.value);
        CompletedExtend(completed, c);
        completed := completed + [c];
      }
    }

    /** Answers one request; `c` is what was completed, if it was. */
    method HandleRequest(fd: i32, buffer: octets, epoll: EpollBackend) returns (r: Outcome, ghost c: Completed)
      requires Counts(0) && epoll.Valid() && fd in epoll.connections
      modifies this`requestsTotal, this`bytesSent, this`completed, epoll.kernel
      ensures Counts(UnfinishedBy(r)) && epoll.Valid()
      ensures r.Fine? || r == Failed(HandlerFailed(fd)) || r == Failed(WriteFailed(fd)) || r == Failed(Aborted(fd))
      ensures r == Failed(HandlerFailed(fd)) <==> Expected(buffer, old(requestsTotal) + 1, old(bytesSent)).Refusal?
      ensures r == Failed(Aborted(fd)) <==> Expected(buffer, old(requestsTotal) + 1, old(bytesSent)).Panic?
      ensures r.Failed? ==> completed == old(completed)
      ensures r.Failed? ==> IsUnanswered(old(epoll.kernel.st), epoll.kernel.st, fd, r.error)
      ensures r.Fine? ==> completed == old(completed) + [c] && CompletedNow(old(epoll.kernel.st), epoll.kernel.st, fd, c)
      ensures r.Fine? ==> c.data == buffer
      ensures r.Fine? ==> Expected(buffer, old(requestsTotal) + 1, old(bytesSent)) == Reply(c.sent.response)
    {
      hide Expected, Aborts, Refuses;
      requestsTotal := requestsTotal + 1;
      var responseBytes, sent := RespondBytes(buffer);
      c := Completed(0, buffer, sent, 0);
      match responseBytes
      case HandlerError => r := Failed(HandlerFailed(fd));
      case Panicked => r := Failed(Aborted(fd));
      case Done(bytes) =>
        var ok, done := WriteResponse(fd, bytes, buffer, sent, epoll);
        r, c := if ok then Fine else Failed(WriteFailed(fd)), done;
    }

    /** One round of the accept loop: `more` says whether a client was accepted. */
    method AcceptOne(listenFd: i32, epoll: EpollBackend, ghost env: Env)
        returns (r: Outcome, more: bool, ghost fd: i32)
      requires epoll.Valid() && listenFd == env.listenFd
      requires LoopState(env, epoll.kernel.st, epoll.connections.Keys, None)
      modifies epoll, epoll.kernel
      ensures epoll.Valid() && LoopState(env, epoll.kernel.st, epoll.connections.Keys, LostBy(r))
      ensures Spares(old(epoll.kernel.st), epoll.kernel.st, None) && SameTraffic(old(epoll.kernel.st), epoll.kernel.st)
      ensures r.Fine? || (r.error.ClientNotRegistered? && IsClient(epoll.kernel.st, env.base, r.error.fd))
      ensures epoll.kernel.st.pending <= old(epoll.kernel.st).pending
      ensures more ==> r.Fine? && epoll.kernel.st.pending < old(epoll.kernel.st).pending
      ensures OnlyAccepts(old(epoll.kernel.st), epoll.kernel.st, LostBy(r))
      ensures |epoll.kernel.st.log| >= |old(epoll.kernel.st).log|
      ensures !more ==> AcceptsEnd(old(epoll.kernel.st), epoll.kernel.st, listenFd, r)
    {
      hide LoopState, Spares, OnlyAccepts;
      r, more, fd := Fine, false, listenFd;
      AcceptsNothing(epoll.kernel.st);
      ghost var st, table := epoll.kernel.st, epoll.connections.Keys;
      var client := epoll.kernel.Accept(listenFd);
      if client.Some? {
        fd := client.value;
        more := epoll.Register(client.value, EPOLLIN | EPOLLET);
        RegisterKeepsState(env, st, table, fd, epoll.kernel.st.pending, more, epoll.kernel.st);
        if more {
          assert epoll.connections.Keys == table + {fd};
        } else {
          r := Failed(ClientNotRegistered(client.value));
        }
      } else {
        HarmlessCall(env, st, table, None, AcceptFrom(listenFd, None), epoll.kernel.st);
        RefusalAccepts(st, epoll.kernel.st, listenFd);
      }
    }

    /** Accepts until the kernel reports no more, registering each client. */
    method AcceptAll(listenFd: i32, epoll: EpollBackend, ghost env: Env) returns (r: Outcome)
      requires epoll.Valid() && listenFd == env.listenFd
      requires LoopState(env, epoll.kernel.st, epoll.connections.Keys, None)
      modifies epoll, epoll.kernel
      ensures epoll.Valid() && LoopState(env, epoll.kernel.st, epoll.connections.Keys, LostBy(r))
      ensures Spares(old(epoll.kernel.st), epoll.kernel.st, None) && SameTraffic(old(epoll.kernel.st), epoll.kernel.st)
      ensures r.Fine? || (r.error.ClientNotRegistered? && IsClient(epoll.kernel.st, env.base, r.error.fd))
      ensures OnlyAccepts(old(epoll.kernel.st), epoll.kernel.st, LostBy(r))
      ensures AcceptsEnd(old(epoll.kernel.st), epoll.kernel.st, listenFd, r)
    {
      hide LoopState, OnlyAccepts, Spares;
      ghost var start := epoll.kernel.st;
      var more := true;
      r := Fine;
      AcceptsNothing(start);
      while more
        invariant epoll.Valid() && LoopState(env, epoll.kernel.st, epoll.connections.Keys, LostBy(r))
        invariant Spares(start, epoll.kernel.st, None)
        invariant SameTraffic(start, epoll.kernel.st)
        invariant r.Fine? || (r.error.ClientNotRegistered? && IsClient(epoll.kernel.st, env.base, r.error.fd))
        invariant more ==> r.Fine?
        invariant OnlyAccepts(start, epoll.kernel.st, LostBy(r)) && |epoll.kernel.st.log| >= |start.log|
        invariant !more ==> AcceptsEnd(start, epoll.kernel.st, listenFd, r)
        decreases epoll.kernel.st.pending, more
      {
        ghost var st, fd := epoll.kernel.st, listenFd;
        r, more, fd := AcceptOne(listenFd, epoll, env);
        OnlyAcceptsTwice(start, st, epoll.kernel.st, LostBy(r));
        SparesTwice(start, st, epoll.kernel.st);
      }
    }

    /** Closes a client whose connection ended or could not be read. */
    method CloseClient(fd: i32, epoll: EpollBackend, ghost env: Env) returns (r: Outcome)
      requires epoll.Valid() && LoopState(env, epoll.kernel.st, epoll.connections.Keys, None)
      requires IsClient(epoll.kernel.st, env.base, fd)
      modifies epoll, epoll.kernel
      ensures epoll.Valid() && LoopState(env, epoll.kernel.st, epoll.connections.Keys, LostBy(r))
      ensures Spares(old(epoll.kernel.st), epoll.kernel.st, Some(fd)) && SameTraffic(old(epoll.kernel.st), epoll.kernel.st)
      ensures r.Fine? || r == Failed(Exit.DelRefused(fd)) || r == Failed(Exit.CloseRefused(fd))
      ensures r.Fine? ==> fd !in epoll.connections && fd !in epoll.kernel.st.open
      ensures CloseEffect(old(epoll.kernel.st), epoll.kernel.st, fd, ClosesWith(r))
    {
      hide LoopState, SameTraffic, Spares;
      ghost var st, table := epoll.kernel.st, epoll.connections.Keys;
      var closed := epoll.CloseConnection(fd);
      match closed
      case Ok(_) =>
        CloseKeepsState(env, st, table, fd, Released, epoll.kernel.st);
        r := Fine;
      case Err(DelRefused) =>
        CloseKeepsState(env, st, table, fd, Kept, epoll.kernel.st);
        r := Failed(Exit.DelRefused(fd));
      case Err(CloseRefused) =>
        CloseKeepsState(env, st, table, fd, Unreleased, epoll.kernel.st);
        r := Failed(Exit.CloseRefused(fd));
    }

    /** What `HandleRequest` did from state `st` on keeps the loop running, or ends it with its failure. */
    lemma AnswerKeepsRunning(epoll: EpollBackend, env: Env, st: KernelState, done: seq<Completed>, fd: i32, buffer: octets,
                             r: Outcome, c: Completed)
      requires LoopState(env, st, epoll.connections.Keys, None) && IsClient(st, env.base, fd)
      requires AllWritten(done) && AllExpected(done) && NoneStale(handled)
      requires TrafficAgrees(st, done, env.base, env.start.received, 1)
      requires st.received != [] && st.received[|st.received| - 1] == Received(st.open[fd], buffer)
      requires Counts(UnfinishedBy(r)) && epoll.Valid()
      requires r.Fine? || r == Failed(HandlerFailed(fd)) || r == Failed(WriteFailed(fd)) || r == Failed(Aborted(fd))
      requires var answer := Expected(buffer, |done| + 1, ResponseOctets(done));
               && (r == Failed(HandlerFailed(fd)) <==> answer.Refusal?)
               && (r == Failed(Aborted(fd)) <==> answer.Panic?)
               && (r.Fine? ==> c.data == buffer && answer == Reply(c.sent.response))
      requires if r.Fine? then completed == done + [c] && CompletedNow(st, epoll.kernel.st, fd, c)
               else completed == done && IsUnanswered(st, epoll.kernel.st, fd, r.error)
      ensures Running(epoll, env, r)
      ensures Spares(st, epoll.kernel.st, None) && epoll.kernel.st.received == st.received
    {
      hide Expected, AllExpected, LoopState, NoneStale, TrafficAgrees, CompletedNow, ResponseOctets, Explains, Aborts, Refuses,
           EpollBackend.Valid, AllWritten;
      if r.Fine? {
        WriteKeepsState(env, st, epoll.kernel.st, epoll.connections.Keys, fd, done, c);
        ExpectedOneMore(done, c);
      } else {
        UnansweredKeepsState(env, st, epoll.kernel.st, epoll.connections.Keys, fd, r.error);
        TrafficStays(st, epoll.kernel.st, done, env.base, env.start.received, 1);
      }
      AnswerExplains(r, epoll.kernel.st.received, fd, buffer);
    }

    /** A request on a client: the table and the other descriptors are not touched. */
    method AnswerClient(fd: i32, buffer: octets, epoll: EpollBackend, ghost env: Env)
        returns (r: Outcome, ghost done: seq<Completed>)
      requires Steady(epoll, env, Fine) && IsClient(epoll.kernel.st, env.base, fd)
      requires TrafficAgrees(epoll.kernel.st, completed, env.base, env.start.received, 1)
      requires var st := epoll.kernel.st;
               st.received != [] && st.received[|st.received| - 1] == Received(st.open[fd], buffer)
      modifies this`requestsTotal, this`bytesSent, this`completed, epoll.kernel
      ensures Running(epoll, env, r)
      ensures Spares(old(epoll.kernel.st), epoll.kernel.st, None)
      ensures completed == old(completed) + done
      ensures r.Fine? ==>
                |done| == 1 && done[0].data == buffer && CompletedNow(old(epoll.kernel.st), epoll.kernel.st, fd, done[0])
      ensures r.Failed? ==> done == [] && IsUnanswered(old(epoll.kernel.st), epoll.kernel.st, fd, r.error)
      ensures r.Fine? || r == Failed(HandlerFailed(fd)) || r == Failed(WriteFailed(fd)) || r == Failed(Aborted(fd))
    {
      hide Expected, AllExpected, LoopState, NoneStale, TrafficAgrees, CompletedNow, ResponseOctets, AllWritten, IsUnanswered,
           Running, Spares, EpollBackend.Valid;
      ghost var st, earlier := epoll.kernel.st, completed;
      TableIsListenerAndClients(env, st, epoll.connections.Keys, fd);
      ghost var c;
      r, c := HandleRequest(fd, buffer, epoll);
      done := if r.Fine? then [c] else [];
      AnswerKeepsRunning(epoll, env, st, earlier, fd, buffer, r, c);
    }

    /** A client whose connection ended or could not be read. */
    method DismissClient(fd: i32, epoll: EpollBackend, ghost env: Env) returns (r: Outcome)
      requires Running(epoll, env, Fine) && IsClient(epoll.kernel.st, env.base, fd)
      modifies epoll, epoll.kernel
      ensures Running(epoll, env, r)
      ensures Spares(old(epoll.kernel.st), epoll.kernel.st, Some(fd))
      ensures r.Fine? || r == Failed(Exit.DelRefused(fd)) || r == Failed(Exit.CloseRefused(fd))
      ensures CloseEffect(old(epoll.kernel.st), epoll.kernel.st, fd, ClosesWith(r))
    {
      hide LoopState, AllExpected, NoneStale, TrafficAgrees, ResponseOctets, AllWritten, CloseEffect;
      ghost var st := epoll.kernel.st;
      r := CloseClient(fd, epoll, env);
      TrafficStays(st, epoll.kernel.st, completed, env.base, env.start.received, 0);
    }

    /** Reads once, at most 8192 octets; answers what was read, or closes on end of stream or error. */
    method ServeClient(fd: i32, epoll: EpollBackend, ghost env: Env) returns (r: Outcome, ghost done: seq<Completed>)
      requires Running(epoll, env, Fine) && IsClient(epoll.kernel.st, env.base, fd)
      modifies this`requestsTotal, this`bytesSent, this`completed, epoll, epoll.kernel
      ensures Running(epoll, env, r)
      ensures Spares(old(epoll.kernel.st), epoll.kernel.st, Some(fd))
      ensures completed == old(completed) + done
      ensures r.Fine? ==> ClientServed(old(epoll.kernel.st), epoll.kernel.st, fd, done)
      ensures r.Failed? ==> done == [] && ClientFailed(old(epoll.kernel.st), epoll.kernel.st, fd, r.error)
    {
      hide AllExpected, LoopState, NoneStale, TrafficAgrees, ResponseOctets, AllWritten, CompletedNow, CloseEffect,
           ClientServed, ClientFailed;
      ghost var st := epoll.kernel.st;
      var buffer := epoll.kernel.Read(fd, 8192);
      ghost var read := epoll.kernel.st;
      HarmlessCall(env, st, epoll.connections.Keys, None, ReadFrom(fd, 8192, buffer), read);
      if buffer.Some? && |buffer.value| > 0 {
        ReadAwaitsAnswer(st, read, completed, env.base, env.start.received, Received(st.open[fd], buffer.value));
        r, done := AnswerClient(fd, buffer.value, epoll, env);
        AnsweredIsServed(st, epoll.kernel.st, fd, buffer.value, done, r);
      } else {
        TrafficStays(st, read, completed, env.base, env.start.received, 0);
        r := DismissClient(fd, epoll, env);
        done := [];
        DismissedIsServed(st, epoll.kernel.st, fd, buffer, r);
      }
    }

    /** One event of a batch: accept on the listener, serve a readable client, ignore anything else. */
    method HandleEvent(fd: i32, flags: bv32, listenFd: i32, epoll: EpollBackend, ghost env: Env)
        returns (r: Outcome, ghost h: Handled)
      requires Running(epoll, env, Fine) && listenFd == env.listenFd && fd in epoll.connections
      modifies this`requestsTotal, this`bytesSent, this`completed, epoll, epoll.kernel
      ensures Running(epoll, env, r)
      ensures Spares(old(epoll.kernel.st), epoll.kernel.st, Some(fd))
      ensures h.fd == fd && h.flags == flags && h.before == old(epoll.kernel.st) && h.after == epoll.kernel.st
      ensures fd in h.before.open && h.reported == h.before.open[fd] && completed == old(completed) + h.done
      ensures HasOutcome(h, listenFd, r)
    {
      hide LoopState, AllExpected, NoneStale, TrafficAgrees, ResponseOctets, AllWritten, ClientServed, ClientFailed, OnlyAccepts;
      ghost var st := epoll.kernel.st;
      TableIsListenerAndClients(env, st, epoll.connections.Keys, fd);
      r := Fine;
      ghost var done: seq<Completed> := [];
      if fd == listenFd {
        r := AcceptAll(listenFd, epoll, env);
        TrafficStays(st, epoll.kernel.st, completed, env.base, env.start.received, 0);
      } else if flags & EPOLLIN != 0 {
        r, done := ServeClient(fd, epoll, env);
      }
      h := Handled(fd, flags, st.open[fd], st, epoll.kernel.st, done);
    }

    /** Event `i` of a batch, recorded with the kernel before and after it and what it completed. */
    method HandleNext(batch: seq<(i32, bv32)>, i: nat, listenFd: i32, epoll: EpollBackend, ghost env: Env,
                      ghost reported: seq<nat>) returns (r: Outcome, ghost h: Handled)
      requires Running(epoll, env, Fine) && listenFd == env.listenFd
      requires i < |batch| && Current(batch, reported, i, epoll.kernel.st)
      requires reported[i] >= env.base || batch[i].0 == listenFd
      requires Traced(env.start, epoll.kernel.st, listenFd, handled, completed, Fine)
      modifies this, epoll, epoll.kernel
      ensures Running(epoll, env, r)
      ensures Current(batch, reported, i + 1, epoll.kernel.st)
      ensures epoll.kernel.st.waits == old(epoll.kernel.st).waits
      ensures handled == old(handled) + [h] && (h.fd, h.flags) == batch[i] && h.reported == reported[i]
      ensures Traced(env.start, epoll.kernel.st, listenFd, handled, completed, r) && !IsWaitFailure(r)
    {
      hide LoopState, AllExpected, TrafficAgrees, ResponseOctets, AllWritten, Traced, HasOutcome, Explains;
      StillInTable(env, batch, reported, i, epoll.kernel.st, epoll.connections.Keys);
      var (fd, flags) := batch[i];
      ghost var st, earlier := epoll.kernel.st, completed;
      r, h := HandleEvent(fd, flags, listenFd, epoll, env);
      StaysCurrent(batch, reported, i, st, epoll.kernel.st);
      TraceOneMore(env.start, listenFd, handled, earlier, h, r);
      NoWaitInEvent(h, listenFd, r);
      RecordEvent(epoll, env, h, r);
    }

    /** The record is not part of what the loop runs on. */
    ghost method RecordEvent(epoll: EpollBackend, env: Env, h: Handled, r: Outcome)
      requires Running(epoll, env, r) && h.IsCurrent()
      modifies this`handled
      ensures Running(epoll, env, r) && handled == old(handled) + [h]
    {
      hide LoopState, AllExpected, TrafficAgrees, ResponseOctets, AllWritten, EpollBackend.Valid;
      handled := handled + [h];
    }

    /** The events of one batch, in order, until one of them, the `n`-th, ends the loop. */
    method HandleBatch(batch: seq<(i32, bv32)>, listenFd: i32, epoll: EpollBackend, ghost env: Env)
        returns (r: Outcome, ghost n: nat)
      requires Running(epoll, env, Fine) && listenFd == env.listenFd
      requires IsBatch(batch, epoll.connections.Keys)
      requires Traced(env.start, epoll.kernel.st, listenFd, handled, completed, Fine)
      modifies this, epoll, epoll.kernel
      ensures Running(epoll, env, r)
      ensures epoll.kernel.st.waits == old(epoll.kernel.st).waits
      ensures Records(handled, old(handled), batch, n) && (r.Fine? ==> n == |batch|)
      ensures Traced(env.start, epoll.kernel.st, listenFd, handled, completed, r) && !IsWaitFailure(r)
    {
      ghost var reported := ReportedFor(batch, epoll.kernel.st);
      BatchStartsCurrent(env, batch, epoll.kernel.st, epoll.connections.Keys);
      hide Running, Current, ReportedFor, IsBatch, Records, Traced;
      RecordsNothing(handled, batch);
      r := Fine;
      var i := 0;
      while i < |batch| && r.Fine?
        invariant i <= |batch| && Running(epoll, env, r)
        invariant Records(handled, old(handled), batch, i)
        invariant Current(batch, reported, i, epoll.kernel.st)
        invariant epoll.kernel.st.waits == old(epoll.kernel.st).waits
        invariant Traced(env.start, epoll.kernel.st, listenFd, handled, completed, r) && !IsWaitFailure(r)
      {
        ghost var earlier := handled;
        ghost var h;
        r, h := HandleNext(batch, i, listenFd, epoll, env, reported);
        RecordsOneMore(earlier, old(handled), batch, i, h);
        i := i + 1;
      }
      n := i;
    }

    /** The body of the loop, for as many rounds as the flag is seen up. */
    method RunLoop(listenFd: i32, epoll: EpollBackend, ghost env: Env, rounds: nat) returns (r: Outcome, ghost waits: nat)
      requires Running(epoll, env, Fine) && listenFd == env.listenFd && handled == [] && epoll.maxEvents == 1024
      requires Traced(env.start, epoll.kernel.st, listenFd, handled, completed, Fine)
      modifies this, epoll, epoll.kernel, epoll.events
      ensures Running(epoll, env, r)
      ensures Covers(old(epoll.kernel.st).waits, epoll.kernel.st.waits, handled, waits, r)
      ensures Traced(env.start, epoll.kernel.st, listenFd, handled, completed, r)
      ensures waits <= rounds && (r.Fine? ==> waits == rounds)
    {
      hide Running, Covers, Traced;
      r, waits := Fine, 0;
      var left := rounds;
      CoversNothing(epoll.kernel.st.waits, Fine);
      while left > 0 && r.Fine?
        invariant Running(epoll, env, r) && 0 <= left <= rounds
        invariant Covers(old(epoll.kernel.st).waits, epoll.kernel.st.waits, handled, waits, r)
        invariant Traced(env.start, epoll.kernel.st, listenFd, handled, completed, r)
        invariant waits + left == rounds
        decreases left
      {
        left := left - 1;
        r := Round(listenFd, epoll, env, old(epoll.kernel.st).waits, waits);
        waits := waits + 1;
      }
    }

    /** One round: wait for a batch and handle it. */
    method Round(listenFd: i32, epoll: EpollBackend, ghost env: Env, ghost before: seq<Wait>, ghost waited: nat)
        returns (r: Outcome)
      requires Running(epoll, env, Fine) && listenFd == env.listenFd && epoll.maxEvents == 1024
      requires Covers(before, epoll.kernel.st.waits, handled, waited, Fine)
      requires Traced(env.start, epoll.kernel.st, listenFd, handled, completed, Fine)
      modifies this, epoll, epoll.kernel, epoll.events
      ensures Running(epoll, env, r)
      ensures Covers(before, epoll.kernel.st.waits, handled, waited + 1, r)
      ensures Traced(env.start, epoll.kernel.st, listenFd, handled, completed, r)
    {
      hide LoopState, AllExpected, NoneStale, TrafficAgrees, ResponseOctets, AllWritten, Traced, Covers;
      ghost var st := epoll.kernel.st;
      var batch := epoll.ProcessEvents();
      TrafficStays(st, epoll.kernel.st, completed, env.base, env.start.received, 0);
      StateDependsOnDescriptors(env, st, epoll.connections.Keys, None, epoll.kernel.st);
      if batch.None? {
        r := Failed(WaitFailed);
        CoversFailure(before, st.waits, handled, waited);
        TraceWaits(env.start, st, listenFd, handled, completed, epoll.kernel.st, r);
        return;
      }
      TraceWaits(env.start, st, listenFd, handled, completed, epoll.kernel.st, Fine);
      hide Running, Records;
      ghost var n;
      r, n := HandleBatch(batch.value, listenFd, epoll, env);
      CoversOneMore(before, st.waits, old(handled), waited, batch.value, handled, n, r);
    }

    /** Once the listener is registered: loop, and drop the backend on every way out. */
    method LoopAndDrop(listenFd: i32, epoll: EpollBackend, ghost env: Env, rounds: nat)
        returns (r: Outcome, ghost waits: nat)
      requires Running(epoll, env, Fine) && listenFd == env.listenFd && env.base == env.start.nextId
      requires env.start.Valid() && epoll.epollFd in env.start.open && epoll.maxEvents == 1024
      requires handled == [] && Traced(env.start, epoll.kernel.st, listenFd, handled, completed, Fine)
      modifies this, epoll, epoll.kernel, epoll.events
      ensures Accounted(epoll.kernel.st, env.base, env.start.received, r)
      ensures Ended(env.start, epoll.kernel.st, listenFd, epoll.epollFd, r)
      ensures Covers(old(epoll.kernel.st).waits, epoll.kernel.st.waits, handled, waits, r)
      ensures HasRun(env.start, epoll.kernel.st, listenFd, handled, completed, r)
      ensures r.Failed? ==> r.error.InLoop()
      ensures waits <= rounds && (r.Fine? ==> waits == rounds)
    {
      hide LoopState, Ended, IsListing, Covers, Explains, AllExpected, TrafficAgrees, Traced;
      r, waits := RunLoop(listenFd, epoll, env, rounds);
      ghost var st, table := epoll.kernel.st, epoll.connections.Keys;
      if IsAbort(r) {
        AfterAbort(env, st, table, epoll.epollFd, r);
        return;
      }
      ghost var fds, outcomes, closed := epoll.Drop();
      AfterDrop(env, st, table, epoll.kernel.st, fds, outcomes, epoll.epollFd, closed, r);
      TrafficStays(st, epoll.kernel.st, completed, env.base, env.start.received, UnfinishedBy(r));
      assert IsLeft(st, epoll.kernel.st, r);
    }

    /** With a new backend: register the listener, loop, and drop the backend on every way out. */
    method RunAndDrop(listenFd: i32, epoll: EpollBackend, rounds: nat)
        returns (r: Outcome, ghost waits: nat)
      requires Counts(0) && completed == [] && handled == []
      requires epoll.Valid() && epoll.connections == map[] && epoll.maxEvents == 1024
      requires listenFd in epoll.kernel.st.open && epoll.epollFd in epoll.kernel.st.open && listenFd != epoll.epollFd
      modifies this, epoll, epoll.kernel, epoll.events
      ensures Accounted(epoll.kernel.st, old(epoll.kernel.st).nextId, old(epoll.kernel.st).received, r)
      ensures var start := Registered(old(epoll.kernel.st), listenFd, EPOLLIN, r != Failed(ListenerNotRegistered));
              && Ended(start, epoll.kernel.st, listenFd, epoll.epollFd, r)
              && (r != Failed(ListenerNotRegistered) ==> HasRun(start, epoll.kernel.st, listenFd, handled, completed, r))
      ensures Covers(old(epoll.kernel.st).waits, epoll.kernel.st.waits, handled, waits, r)
      ensures r == Failed(ListenerNotRegistered) ==> handled == [] && completed == []
      ensures r != Failed(EpollNotCreated) && waits <= rounds && (r.Fine? ==> waits == rounds)
    {
      hide Covers, Ended, DroppedAll, IsListing, LoopState, TrafficAgrees, Traced, HasRun;
      ghost var created := epoll.kernel.st;
      ghost var table := epoll.connections.Keys;
      NoTraffic(created, created.nextId);
      var ok := epoll.Register(listenFd, EPOLLIN);
      ghost var start := epoll.kernel.st;
      TrafficStays(created, start, completed, created.nextId, created.received, 0);
      if ok {
        ghost var env := Env(created.nextId, listenFd, start);
        StartsTracking(env);
        assert epoll.connections.Keys == {listenFd};
        TraceStarts(start, listenFd);
        r, waits := LoopAndDrop(listenFd, epoll, env, rounds);
      } else {
        ghost var fds, outcomes, closed := epoll.Drop();
        NothingToDrop(start, epoll.kernel.st, fds, outcomes, listenFd, epoll.epollFd, closed, table);
        TrafficStays(start, epoll.kernel.st, completed, created.nextId, created.received, 0);
        CoversNothing(created.waits, Failed(ListenerNotRegistered));
        r, waits := Failed(ListenerNotRegistered), 0;
      }
    }

    /**
     * The whole run.  `rounds` is the number of times the flag is seen up; any number is allowed.
     * There are as many waits, fewer only if the loop is ended early.
     */
    method EventLoop(kernel: Kernel, listenFd: i32, rounds: nat)
        returns (r: Outcome, ghost waits: nat)
      requires Counts(0) && completed == [] && handled == []
      requires kernel.st.Valid() && listenFd in kernel.st.open
      modifies this, kernel
      ensures Accounted(kernel.st, old(kernel.st).nextId + 1, old(kernel.st).received, r)
      ensures Covers(old(kernel.st).waits, kernel.st.waits, handled, waits, r)
      ensures EndsAsRead(r, |old(kernel.st).received|, kernel.st.received)
      ensures waits <= rounds && (r.Fine? ==> waits == rounds)
      ensures r == Failed(EpollNotCreated) ==> kernel.st == old(kernel.st).Logged(Create(false))
      ensures r != Failed(EpollNotCreated) ==> exists epollFd: i32 ::
                HasRunWhole(old(kernel.st), kernel.st, listenFd, epollFd, handled, completed, r)
    {
      var epollFd := kernel.EpollCreate();
      if epollFd.None? {
        r, waits := Failed(EpollNotCreated), 0;
        CoversNothing(kernel.st.waits, r);
        NoTraffic(kernel.st, kernel.st.nextId + 1);
        return;
      }
      hide Ended, Covers, TrafficAgrees, AllExpected, Explains, NoneStale, EndsAsRead, Counts, HasRun;
      var epoll := new EpollBackend(kernel, epollFd.value, 1024);
      ghost var created := kernel.st;
      r, waits := RunAndDrop(listenFd, epoll, rounds);
      RunEndsAsRead(kernel.st, created.nextId, created.received, r);
      assert HasRunWhole(old(kernel.st), kernel.st, listenFd, epollFd.value, handled, completed, r);
    }
  }
}
