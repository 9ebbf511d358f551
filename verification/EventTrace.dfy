/** src/worker/reactor.rs: what each dispatched event has to do, and what a run of the event loop has to have done. */
module EventTrace {
  import opened Wrappers
  import opened Octets
  import opened Kernel
  import opened EpollBackend
  import opened ResponseStream
  import opened Completions

  /** Why the loop ended early: each is a `?` in the source, except `Aborted`, a panic that ends the process. */
  datatype Exit =
    | EpollNotCreated
    | ListenerNotRegistered
    | WaitFailed
    | ClientNotRegistered(fd: i32)
    | DelRefused(fd: i32)
    | CloseRefused(fd: i32)
    | HandlerFailed(fd: i32)
    | WriteFailed(fd: i32)
    | Aborted(fd: i32)
  {
    /** The one connection that an early exit may leave out of the table. */
    function Lost(): Option<i32> {
      if ClientNotRegistered? || CloseRefused? then Some(fd) else None
    }

    /** The exits that the loop itself can take. */
    predicate InLoop() {
      !EpollNotCreated? && !ListenerNotRegistered?
    }

    /** The request being handled was counted but not completed. */
    function Unfinished(): nat {
      if HandlerFailed? || WriteFailed? || Aborted? then 1 else 0
    }

    /** The connection named by the exit is still open. */
    predicate LeavesOpen() {
      ClientNotRegistered? || Aborted?
    }
  }

  /** The result of a fallible part of the loop. */
  datatype Outcome = Fine | Failed(error: Exit)

  function LostBy(r: Outcome): Option<i32> {
    if r.Fine? then None else r.error.Lost()
  }

  function UnfinishedBy(r: Outcome): nat {
    if r.Fine? then 0 else r.error.Unfinished()
  }

  predicate IsAbort(r: Outcome) {
    r.Failed? && r.error.Aborted?
  }

  predicate IsHandlerFailure(r: Outcome) {
    r.Failed? && r.error.HandlerFailed?
  }

  predicate IsWaitFailure(r: Outcome) {
    r.Failed? && r.error.WaitFailed?
  }

  // ---------- one event ----------

  /** The response of `c` has been written, as far as the kernel took it, to the connection behind `fd`. */
  ghost predicate CompletedNow(st: KernelState, st': KernelState, fd: i32, c: Completed) {
    && c.Written()
    && fd in st.open && c.id == st.open[fd]
    && st' == st.(wire := st.wire[c.id := st.Wire(c.id) + c.sent.Bytes()[..c.taken]])
                .Logged(WriteTo(fd, c.sent.Bytes(), Some(c.taken)))
  }

  /** One read of up to 8192 octets has taken `data` from the client. */
  function AfterRead(st: KernelState, fd: i32, data: octets): KernelState
    requires fd in st.open
  {
    st.(received := st.received + [Received(st.open[fd], data)]).Logged(ReadFrom(fd, 8192, Some(data)))
  }

  /** One read has met the end of the stream, or an error. */
  function AfterEnd(st: KernelState, fd: i32, read: Option<octets>): KernelState {
    st.Logged(ReadFrom(fd, 8192, read))
  }

  predicate IsEnd(read: Option<octets>) {
    read.None? || read.value == []
  }

  /** What was read has been answered, or, when there was nothing to read, the client has been closed. */
  ghost predicate ClientServed(st: KernelState, st': KernelState, fd: i32, done: seq<Completed>)
    requires fd in st.open
  {
    || (|done| == 1 && 0 < |done[0].data| <= 8192 && CompletedNow(AfterRead(st, fd, done[0].data), st', fd, done[0]))
    || (done == [] && exists read :: IsEnd(read) && CloseEffect(AfterEnd(st, fd, read), st', fd, Released))
  }

  ghost predicate FailsToAnswer(st: KernelState, st': KernelState, fd: i32, error: Exit, data: octets)
    requires fd in st.open
  {
    && data != []
    && if error.WriteFailed? then exists bytes :: st' == AfterRead(st, fd, data).Logged(WriteTo(fd, bytes, None))
       else st' == AfterRead(st, fd, data)
  }

  ghost predicate FailsToClose(st: KernelState, st': KernelState, fd: i32, error: Exit, read: Option<octets>) {
    IsEnd(read) && CloseEffect(AfterEnd(st, fd, read), st', fd, if error.DelRefused? then Kept else Unreleased)
  }

  /** How a client's event ends the loop: what was read could not be answered, or the client not closed. */
  ghost predicate ClientFailed(st: KernelState, st': KernelState, fd: i32, error: Exit)
    requires fd in st.open
  {
    match error
    case DelRefused(f) => f == fd && exists read :: FailsToClose(st, st', fd, error, read)
    case CloseRefused(f) => f == fd && exists read :: FailsToClose(st, st', fd, error, read)
    case HandlerFailed(f) => f == fd && exists data :: FailsToAnswer(st, st', fd, error, data)
    case WriteFailed(f) => f == fd && exists data :: FailsToAnswer(st, st', fd, error, data)
    case Aborted(f) => f == fd && exists data :: FailsToAnswer(st, st', fd, error, data)
    case _ => false
  }

  /** A client is watched for input, edge-triggered, under its own number. */
  predicate IsWatched(st: KernelState, fd: i32) {
    fd in st.interest && st.interest[fd] == EpollEvent(EPOLLIN | EPOLLET, FdToU64(fd))
  }

  /** Clients were accepted and each, but for `lost`, is watched; nothing else has changed. */
  ghost predicate OnlyAccepts(st: KernelState, st': KernelState, lost: Option<i32>) {
    && st' == st.(open := st'.open, nextId := st'.nextId, interest := st'.interest, pending := st'.pending, log := st'.log)
    && (forall f :: f in st.open ==> f in st'.open && st'.open[f] == st.open[f])
    && (forall f :: f in st.interest ==> f in st'.interest && st'.interest[f] == st.interest[f])
    && (forall f :: f in st'.open && f !in st.open ==> st'.open[f] >= st.nextId && (lost == Some(f) || IsWatched(st', f)))
    && (lost.Some? ==> lost.value in st'.open && lost.value !in st.open && lost.value !in st'.interest)
    && st'.nextId >= st.nextId
  }

  lemma OnlyAcceptsTwice(st0: KernelState, st1: KernelState, st2: KernelState, lost: Option<i32>)
    requires OnlyAccepts(st0, st1, None) && OnlyAccepts(st1, st2, lost)
    ensures OnlyAccepts(st0, st2, lost)
  {}

  /** The last call since `st` was `call`. */
  predicate EndsWith(st: KernelState, st': KernelState, call: Call) {
    |st'.log| > |st.log| && st'.log[|st'.log| - 1] == call
  }

  /**
   * One dispatched event: the descriptor and flags that the kernel reported, what the descriptor
   * stood for then, the kernel before and after the event, and the requests completed by it.
   */
  datatype Handled = Handled(fd: i32, flags: bv32, reported: nat, before: KernelState, after: KernelState, done: seq<Completed>) {
    predicate IsCurrent() {
      before.Holder(fd) == Some(reported)
    }
  }

  /**
   * What an event does when the loop goes on: the listener is drained until the kernel refuses to
   * accept, a client with input is served, and any other event has no effect.
   */
  ghost predicate HasServed(h: Handled, listenFd: i32)
    requires h.IsCurrent()
  {
    if h.fd == listenFd then
      h.done == [] && OnlyAccepts(h.before, h.after, None) && EndsWith(h.before, h.after, AcceptFrom(listenFd, None))
    else if h.flags & EPOLLIN != 0 then ClientServed(h.before, h.after, h.fd, h.done)
    else h.done == [] && h.after == h.before
  }

  /** What the event does that ends the loop. */
  ghost predicate HasEnded(h: Handled, listenFd: i32, error: Exit)
    requires h.IsCurrent()
  {
    && h.done == []
    && if h.fd == listenFd then
         && error.ClientNotRegistered? && OnlyAccepts(h.before, h.after, Some(error.fd))
         && EndsWith(h.before, h.after, Add(error.fd, EpollEvent(EPOLLIN | EPOLLET, FdToU64(error.fd)), false))
       else h.flags & EPOLLIN != 0 && ClientFailed(h.before, h.after, h.fd, error)
  }

  ghost predicate HasOutcome(h: Handled, listenFd: i32, r: Outcome)
    requires h.IsCurrent()
  {
    if r.Fine? then HasServed(h, listenFd) else HasEnded(h, listenFd, r.error)
  }

  // ---------- a run ----------

  predicate NoneStale(handled: seq<Handled>) {
    forall i :: 0 <= i < |handled| ==> handled[i].IsCurrent()
  }

  /** Between events the loop only waits. */
  predicate OnlyWaits(st: KernelState, st': KernelState) {
    st' == st.(pending := st'.pending, waits := st'.waits)
  }

  /** The events lead from `start` to `now`: each begins where the one before it ended, but for waiting. */
  predicate IsTrace(handled: seq<Handled>, start: KernelState, now: KernelState) {
    if handled == [] then OnlyWaits(start, now) else
      var last := handled[|handled| - 1];
      OnlyWaits(last.after, now) && IsTrace(handled[..|handled| - 1], start, last.before)
  }

  function CompletedBy(handled: seq<Handled>): seq<Completed> {
    if handled == [] then [] else CompletedBy(handled[..|handled| - 1]) + handled[|handled| - 1].done
  }

  ghost predicate AllServed(handled: seq<Handled>, listenFd: i32) {
    NoneStale(handled) && forall i :: 0 <= i < |handled| ==> HasServed(handled[i], listenFd)
  }

  /**
   * The events handled lead from `start` to `now`, the requests completed are those completed by
   * them, every event has done what it should, and if the loop was ended by an event, the last one did that.
   */
  ghost predicate Traced(start: KernelState, now: KernelState, listenFd: i32, handled: seq<Handled>,
                         completed: seq<Completed>, r: Outcome) {
    && IsTrace(handled, start, now) && completed == CompletedBy(handled)
    && if r.Fine? || IsWaitFailure(r) then AllServed(handled, listenFd)
       else
         var n := |handled| - 1;
         n >= 0 && AllServed(handled[..n], listenFd) && handled[n].IsCurrent() && HasEnded(handled[n], listenFd, r.error)
  }

  lemma TraceStarts(st: KernelState, listenFd: i32)
    ensures Traced(st, st, listenFd, [], [], Fine)
  {}

  lemma TraceWaits(start: KernelState, now: KernelState, listenFd: i32, handled: seq<Handled>, completed: seq<Completed>,
                   later: KernelState, r: Outcome)
    requires Traced(start, now, listenFd, handled, completed, Fine) && OnlyWaits(now, later)
    requires r.Fine? || IsWaitFailure(r)
    ensures Traced(start, later, listenFd, handled, completed, r)
  {}

  /** One more event, from where the trace stands. */
  lemma TraceOneMore(start: KernelState, listenFd: i32, handled: seq<Handled>, completed: seq<Completed>, h: Handled, r: Outcome)
    requires Traced(start, h.before, listenFd, handled, completed, Fine) && h.IsCurrent() && HasOutcome(h, listenFd, r)
    ensures Traced(start, h.after, listenFd, handled + [h], completed + h.done, r)
  {
    hide HasServed, HasEnded;
    var more := handled + [h];
    assert more[..|handled|] == handled && more[|handled|] == h;
    if r.Failed? {
      NoWaitInEvent(h, listenFd, r);
    }
  }

  lemma NoWaitInEvent(h: Handled, listenFd: i32, r: Outcome)
    requires h.IsCurrent() && HasOutcome(h, listenFd, r)
    ensures !IsWaitFailure(r)
  {}

  // ---------- what was waited for ----------

  /** The events that were reported, in order. */
  function Reported(waits: seq<Wait>): seq<(i32, bv32)> {
    if waits == [] then [] else
      var last := waits[|waits| - 1].events;
      Reported(waits[..|waits| - 1]) + if last.Some? then last.value else []
  }

  /** The descriptors and flags of the dispatched events. */
  function Dispatched(handled: seq<Handled>): (events: seq<(i32, bv32)>)
    ensures |events| == |handled|
  {
    seq(|handled|, i requires 0 <= i < |handled| => (handled[i].fd, handled[i].flags))
  }

  /** The waits that did not fail. */
  function Successes(n: nat, r: Outcome): nat {
    if IsWaitFailure(r) && n > 0 then n - 1 else n
  }

  /**
   * Since `before` there were `n` waits, each for up to 1024 events; only the last can have failed,
   * and it did exactly if that ended the loop.  The dispatched events are what was reported, in order
   * and each once: all of it, or as much as was reached before an event ended the loop.
   */
  ghost predicate Covers(before: seq<Wait>, waits: seq<Wait>, handled: seq<Handled>, n: nat, r: Outcome) {
    && |waits| == |before| + n && waits[..|before|] == before
    && (forall i :: |before| <= i < |waits| ==> waits[i].room == 1024)
    && (forall i :: |before| <= i < |before| + Successes(n, r) ==> waits[i].events.Some?)
    && (IsWaitFailure(r) ==> n > 0 && waits[|waits| - 1].events.None?)
    && var due := Reported(waits[|before|..]);
       && |handled| <= |due| && Dispatched(handled) == due[..|handled|]
       && (r.Fine? || IsWaitFailure(r) ==> |handled| == |due|)
  }

  lemma CoversNothing(waits: seq<Wait>, r: Outcome)
    requires !IsWaitFailure(r)
    ensures Covers(waits, waits, [], 0, r)
  {
    assert waits[..|waits|] == waits && waits[|waits|..] == [];
  }

  lemma ReportedOneMore(waits: seq<Wait>, wait: Wait)
    ensures Reported(waits + [wait]) == Reported(waits) + if wait.events.Some? then wait.events.value else []
  {
    assert (waits + [wait])[..|waits|] == waits;
  }

  /** After `before`, the first `n` events of the batch have been handled, in order. */
  ghost predicate Records(handled: seq<Handled>, before: seq<Handled>, batch: seq<(i32, bv32)>, n: nat) {
    n <= |batch| && |handled| == |before| + n && Dispatched(handled) == Dispatched(before) + batch[..n]
  }

  lemma RecordsNothing(handled: seq<Handled>, batch: seq<(i32, bv32)>)
    ensures Records(handled, handled, batch, 0)
  {}

  lemma RecordsOneMore(handled: seq<Handled>, before: seq<Handled>, batch: seq<(i32, bv32)>, n: nat, h: Handled)
    requires Records(handled, before, batch, n) && n < |batch| && (h.fd, h.flags) == batch[n]
    ensures Records(handled + [h], before, batch, n + 1)
  {
    assert Dispatched(handled + [h]) == Dispatched(handled) + [batch[n]];
    assert batch[..n + 1] == batch[..n] + [batch[n]];
  }

  /** One more wait, whose report was dispatched up to event `n`. */
  lemma CoversOneMore(before: seq<Wait>, waits: seq<Wait>, handled: seq<Handled>, waited: nat,
                      batch: seq<(i32, bv32)>, handled': seq<Handled>, n: nat, r: Outcome)
    requires Covers(before, waits, handled, waited, Fine) && Records(handled', handled, batch, n)
    requires !IsWaitFailure(r) && (r.Fine? ==> n == |batch|)
    ensures Covers(before, waits + [Wait(1024, Some(batch))], handled', waited + 1, r)
  {
    hide Reported;
    var wait := Wait(1024, Some(batch));
    var later, due := waits[|before|..], Reported(waits[|before|..]);
    assert (waits + [wait])[|before|..] == later + [wait] && (waits + [wait])[..|before|] == before;
    ReportedOneMore(later, wait);
    assert Dispatched(handled) == due;
    assert Dispatched(handled') == (due + batch)[..|handled'|];
  }

  /** One more wait, which failed. */
  lemma CoversFailure(before: seq<Wait>, waits: seq<Wait>, handled: seq<Handled>, waited: nat)
    requires Covers(before, waits, handled, waited, Fine)
    ensures Covers(before, waits + [Wait(1024, None)], handled, waited + 1, Failed(WaitFailed))
  {
    hide Reported;
    var later := waits[|before|..];
    assert (waits + [Wait(1024, None)])[|before|..] == later + [Wait(1024, None)];
    assert (waits + [Wait(1024, None)])[..|before|] == before;
    ReportedOneMore(later, Wait(1024, None));
  }
}
