/** src/net/epoll.rs: the connection table beside the kernel's interest set. */
module EpollBackend {
  import opened Wrappers
  import opened Octets
  import opened Kernel

  datatype ConnectionState = ConnectionState(readBuffer: octets, writeBuffer: octets, bytesRead: nat, bytesWritten: nat)

  datatype CloseError = DelRefused | CloseRefused

  /** What happened to one descriptor of the table when the backend was dropped. */
  datatype DropOutcome = Kept | Released | Unreleased

  /** The calls `drop` makes for the descriptors `fds`, in this order and with these outcomes. */
  function DropCalls(fds: seq<i32>, outcomes: seq<DropOutcome>, holder: i32 -> Option<nat>): seq<Call>
    requires |fds| == |outcomes|
  {
    if fds == [] then [] else
      var n := |fds| - 1;
      DropCalls(fds[..n], outcomes[..n], holder) +
      if outcomes[n].Kept? then [Del(fds[n], false)]
      else [Del(fds[n], true), Close(fds[n], holder(fds[n]), outcomes[n].Released?)]
  }

  /** A DEL or close of `fd` that failed. */
  predicate IsRefusal(call: Call, fd: i32) {
    (call.Del? || call.Close?) && call.fd == fd && !call.ok
  }

  /** Whatever a drop does not release was refused to it. */
  lemma {:induction false} RefusalIsLogged(fds: seq<i32>, outcomes: seq<DropOutcome>, holder: i32 -> Option<nat>, i: nat)
    requires |fds| == |outcomes| && i < |fds| && !outcomes[i].Released?
    ensures exists k :: 0 <= k < |DropCalls(fds, outcomes, holder)| && IsRefusal(DropCalls(fds, outcomes, holder)[k], fds[i])
  {
    var n := |fds| - 1;
    var calls, earlier := DropCalls(fds, outcomes, holder), DropCalls(fds[..n], outcomes[..n], holder);
    if i < n {
      RefusalIsLogged(fds[..n], outcomes[..n], holder, i);
      var k :| 0 <= k < |earlier| && IsRefusal(earlier[k], fds[i]);
      assert calls[k] == earlier[k];
    } else {
      assert IsRefusal(calls[|calls| - 1], fds[i]);
    }
  }

  /** `fds` lists the descriptors of `keys`, each once. */
  ghost predicate IsListing(fds: seq<i32>, keys: set<i32>) {
    && (forall i, j :: 0 <= i < j < |fds| ==> fds[i] != fds[j])
    && (forall fd :: fd in fds <==> fd in keys)
  }

  lemma ListingExtend(fds: seq<i32>, keys: set<i32>, todo: set<i32>, fd: i32)
    requires IsListing(fds, keys - todo) && fd in todo && fd in keys
    ensures IsListing(fds + [fd], keys - (todo - {fd}))
  {
    assert forall f :: f in fds + [fd] <==> f in fds || f == fd;
    assert forall i :: 0 <= i < |fds| ==> fds[i] in fds;
  }

  lemma NotYetListed(fds: seq<i32>, keys: set<i32>, fd: i32)
    requires IsListing(fds, keys) && fd !in keys
    ensures fd !in fds
  {}

  /** What `close` does to the kernel: refused at the DEL, refused at the close, or done. */
  ghost predicate CloseEffect(st: KernelState, st': KernelState, fd: i32, outcome: DropOutcome) {
    if outcome.Kept? then st' == st.(log := st.log + [Del(fd, false)])
    else
      var gone := st.(interest := st.interest - {fd},
                      log := st.log + [Del(fd, true), Close(fd, st.Holder(fd), outcome.Released?)]);
      st' == gone.Closed(fd) || (outcome.Unreleased? && st' == gone)
  }

  /** A DEL that worked, then a close: released, or refused with the descriptor released or not. */
  lemma DelThenClose(st: KernelState, fd: i32, ok: bool, st': KernelState)
    requires var deleted := st.(interest := st.interest - {fd}, log := st.log + [Del(fd, true)]);
             var logged := deleted.(log := deleted.log + [Close(fd, deleted.Holder(fd), ok)]);
             st' == logged.Closed(fd) || (!ok && st' == logged)
    ensures CloseEffect(st, st', fd, if ok then Released else Unreleased)
    ensures st'.interest == st.interest - {fd}
  {
    assert st.log + [Del(fd, true)] + [Close(fd, st.Holder(fd), ok)] ==
           st.log + [Del(fd, true), Close(fd, st.Holder(fd), ok)];
    assert st.interest - {fd} - {fd} == st.interest - {fd};
  }

  /** `fds` have been dealt with since `st0`, with these outcomes, and nothing else has changed. */
  ghost predicate Dropped(st0: KernelState, st: KernelState, fds: seq<i32>, outcomes: seq<DropOutcome>) {
    && |fds| == |outcomes|
    && st.log == st0.log + DropCalls(fds, outcomes, st0.Holder)
    && (forall i :: 0 <= i < |fds| && outcomes[i].Released? ==> fds[i] !in st.open)
    && (forall i :: 0 <= i < |fds| && outcomes[i].Kept? ==> fds[i] in st.open)
    && (forall fd :: fd in st0.open && fd !in fds ==> fd in st.open)
    && (forall fd :: fd in st.open ==> fd in st0.open && st.open[fd] == st0.open[fd])
    && st.wire == st0.wire && st.received == st0.received && st.waits == st0.waits && st.nextId == st0.nextId
  }

  lemma NothingDropped(st: KernelState, todo: set<i32>)
    ensures Dropped(st, st, [], []) && IsListing([], todo - todo)
  {}

  lemma DroppedStep(st0: KernelState, st: KernelState, fds: seq<i32>, outcomes: seq<DropOutcome>,
                    fd: i32, outcome: DropOutcome, st': KernelState)
    requires Dropped(st0, st, fds, outcomes) && CloseEffect(st, st', fd, outcome)
    requires fd !in fds && fd in st0.open
    ensures Dropped(st0, st', fds + [fd], outcomes + [outcome])
  {
    assert (fds + [fd])[..|fds|] == fds && (outcomes + [outcome])[..|fds|] == outcomes;
    assert st.Holder(fd) == st0.Holder(fd);
  }

  /** After all of `fds`, the epoll descriptor itself is closed. */
  ghost predicate DroppedAll(st0: KernelState, st: KernelState, fds: seq<i32>, outcomes: seq<DropOutcome>,
                             epollFd: i32, epollClosed: bool) {
    && |fds| == |outcomes|
    && st.log == st0.log + DropCalls(fds, outcomes, st0.Holder) + [Close(epollFd, st0.Holder(epollFd), epollClosed)]
    && (forall i :: 0 <= i < |fds| && outcomes[i].Released? ==> fds[i] !in st.open)
    && (epollClosed ==> epollFd !in st.open)
    && (forall fd :: fd in st0.open && fd !in fds && fd != epollFd ==> fd in st.open)
    && (forall i :: 0 <= i < |fds| && outcomes[i].Kept? && fds[i] != epollFd ==> fds[i] in st.open)
    && (forall fd :: fd in st.open ==> fd in st0.open && st.open[fd] == st0.open[fd])
    && st.wire == st0.wire && st.received == st0.received && st.waits == st0.waits && st.nextId == st0.nextId
  }

  lemma DroppedLast(st0: KernelState, st: KernelState, fds: seq<i32>, outcomes: seq<DropOutcome>,
                    epollFd: i32, epollClosed: bool, st': KernelState)
    requires Dropped(st0, st, fds, outcomes) && epollFd !in fds
    requires var logged := st.(log := st.log + [Close(epollFd, st.Holder(epollFd), epollClosed)]);
             st' == logged.Closed(epollFd) || (!epollClosed && st' == logged)
    ensures DroppedAll(st0, st', fds, outcomes, epollFd, epollClosed)
  {
    assert st.Holder(epollFd) == st0.Holder(epollFd);
  }

  /** An attempt to register `fd`: the interest set gains it with its own number as data, or nothing changes. */
  function Registered(st: KernelState, fd: i32, flags: bv32, ok: bool): KernelState {
    var event := EpollEvent(flags, FdToU64(fd));
    st.(interest := if ok then st.interest[fd := event] else st.interest).Logged(Add(fd, event, ok))
  }

  class EpollBackend {
    const kernel: Kernel
    const epollFd: i32
    const events: array<EpollEvent>
    const maxEvents: nat
    var connections: map<i32, ConnectionState>

    /** The table and the interest set have the same members, and each member carries its own number. */
    ghost predicate Valid()
      reads this, kernel
    {
      && kernel.st.Valid()
      && events.Length == maxEvents
      && epollFd !in connections
      && connections.Keys == kernel.st.interest.Keys
      && forall fd :: fd in kernel.st.interest ==> kernel.st.interest[fd].data == FdToU64(fd)
    }

    /** The constructor for an epoll instance that the kernel has created. */
    constructor (kernel: Kernel, epollFd: i32, maxEvents: nat)
      requires kernel.st.Valid() && kernel.st.interest == map[]
      ensures this.kernel == kernel && this.epollFd == epollFd && this.maxEvents == maxEvents && fresh(events)
      ensures Valid() && connections == map[]
    {
      this.kernel := kernel;
      this.epollFd := epollFd;
      this.maxEvents := maxEvents;
      this.events := new EpollEvent[maxEvents](_ => EpollEvent(0, 0));
      this.connections := map[];
    }

    method Register(fd: i32, flags: bv32) returns (ok: bool)
      requires Valid()
      modifies this, kernel
      ensures Valid()
      ensures !ok ==> connections == old(connections)
      ensures ok ==> fd !in old(connections) && connections == old(connections)[fd := ConnectionState([], [], 0, 0)]
      ensures kernel.st == Registered(old(kernel.st), fd, flags, ok)
    {
      ok := kernel.EpollAdd(epollFd, fd, EpollEvent(flags, FdToU64(fd)));
      if !ok {
        return;
      }
      connections := connections[fd := ConnectionState([], [], 0, 0)];
    }

    method Modify(fd: i32, flags: bv32) returns (ok: bool)
      requires Valid()
      modifies this, kernel
      ensures Valid() && connections == old(connections)
      ensures ok ==> fd in old(connections)
      ensures var event := EpollEvent(flags, FdToU64(fd));
              kernel.st == old(kernel.st).(interest := if ok then old(kernel.st).interest[fd := event] else old(kernel.st).interest)
                                         .Logged(Mod(fd, event, ok))
    {
      ok := kernel.EpollMod(fd, EpollEvent(flags, FdToU64(fd)));
    }

    method Unregister(fd: i32) returns (ok: bool)
      requires Valid()
      modifies this, kernel
      ensures Valid()
      ensures ok ==> fd in old(connections) && connections == old(connections) - {fd}
      ensures !ok ==> connections == old(connections)
      ensures kernel.st == old(kernel.st).(
                interest := if ok then old(kernel.st).interest - {fd} else old(kernel.st).interest,
                log := old(kernel.st).log + [Del(fd, ok)])
    {
      ok := kernel.EpollDel(fd);
      if !ok {
        return;
      }
      connections := connections - {fd};
    }

    /** Deregisters, then closes; when the kernel refuses the first, the second is not attempted. */
    method CloseConnection(fd: i32) returns (r: Result<(), CloseError>)
      requires Valid()
      modifies this, kernel
      ensures Valid()
      ensures r == Err(DelRefused) ==>
                connections == old(connections) && CloseEffect(old(kernel.st), kernel.st, fd, Kept)
      ensures r != Err(DelRefused) ==>
                && fd in old(connections) && connections == old(connections) - {fd}
                && CloseEffect(old(kernel.st), kernel.st, fd, if r.Ok? then Released else Unreleased)
    {
      var ok := Unregister(fd);
      if !ok {
        return Err(DelRefused);
      }
      hide CloseEffect;
      ok := kernel.CloseFd(fd);
      DelThenClose(old(kernel.st), fd, ok, kernel.st);
      r := if ok then Ok(()) else Err(CloseRefused);
    }

    /** The report of one wait with its flags, in order: distinct members of the table, at most `maxEvents`. */
    method ProcessEvents() returns (r: Option<seq<(i32, bv32)>>)
      requires Valid()
      modifies kernel, events
      ensures Valid()
      ensures kernel.st == old(kernel.st).(
                pending := kernel.st.pending,
                waits := old(kernel.st).waits + [Wait(maxEvents, r)])
      ensures r.Some? ==> |r.value| <= maxEvents
      ensures r.Some? ==> forall i :: 0 <= i < |r.value| ==> r.value[i].0 in connections
      ensures r.Some? ==> forall i, j :: 0 <= i < j < |r.value| ==> r.value[i].0 != r.value[j].0
    {
      var numEvents, reported := kernel.EpollWait(events);
      if numEvents.None? {
        return None;
      }
      var results: seq<(i32, bv32)> := [];
      for i := 0 to numEvents.value
        modifies {}
        invariant |results| == i
        invariant results == reported[..i]
      {
        FdSurvivesU64(reported[i].0);
        var event := events[i];
        results := results + [(U64ToFd(event.data), event.events)];
      }
      assert reported[..|reported|] == reported;
      r := Some(results);
    }

    /** A close whose result is ignored. */
    method DropOne(fd: i32, ghost st0: KernelState, ghost fds: seq<i32>, ghost outcomes: seq<DropOutcome>)
        returns (ghost outcome: DropOutcome)
      requires Valid() && Dropped(st0, kernel.st, fds, outcomes) && fd in connections && fd !in fds && fd in st0.open
      modifies this, kernel
      ensures Valid() && Dropped(st0, kernel.st, fds + [fd], outcomes + [outcome])
      ensures old(connections).Keys - {fd} <= connections.Keys <= old(connections).Keys
    {
      ghost var st := kernel.st;
      var r := CloseConnection(fd);
      outcome := if r.Ok? then Released else if r.error.DelRefused? then Kept else Unreleased;
      DroppedStep(st0, st, fds, outcomes, fd, outcome, kernel.st);
    }

    /**
     * Every descriptor of the table is deregistered and, if that worked, closed: one DEL and at
     * most one close each, in some order, whatever failed before.  The epoll descriptor goes last.
     */
    method Drop() returns (ghost fds: seq<i32>, ghost outcomes: seq<DropOutcome>, ghost epollClosed: bool)
      requires Valid()
      modifies this, kernel
      ensures IsListing(fds, old(connections).Keys)
      ensures DroppedAll(old(kernel.st), kernel.st, fds, outcomes, epollFd, epollClosed)
    {
      hide Dropped, DroppedAll, IsListing;
      fds, outcomes := [], [];
      var todo := connections.Keys;
      ghost var st0, keys := kernel.st, connections.Keys;
      NothingDropped(st0, todo);
      while todo != {}
        invariant Valid() && todo <= connections.Keys <= keys
        invariant IsListing(fds, keys - todo)
        invariant Dropped(st0, kernel.st, fds, outcomes)
        decreases todo
      {
        var fd :| fd in todo;
        NotYetListed(fds, keys - todo, fd);
        ghost var outcome := DropOne(fd, st0, fds, outcomes);
        ListingExtend(fds, keys, todo, fd);
        todo := todo - {fd};
        fds, outcomes := fds + [fd], outcomes + [outcome];
      }
      ghost var st := kernel.st;
      epollClosed := kernel.CloseFd(epollFd);
      assert keys - todo == keys;
      NotYetListed(fds, keys, epollFd);
      DroppedLast(st0, st, fds, outcomes, epollFd, epollClosed, kernel.st);
    }
  }
}
