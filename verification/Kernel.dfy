/**
 * The operating system as the epoll backend meets it: descriptors whose numbers are reused, one
 * epoll instance, and system calls that may fail at any time.
 */
module Kernel {
  import opened Wrappers
  import opened Octets

  type i32 = x: int | -0x8000_0000 <= x < 0x8000_0000
  type u64 = x: int | 0 <= x < 0x1_0000_0000_0000_0000

  /** `fd as u64`. */
  function FdToU64(fd: i32): (r: u64)
    ensures (r - fd) % 0x1_0000_0000_0000_0000 == 0
  {
    if fd >= 0 then fd else fd + 0x1_0000_0000_0000_0000
  }

  /** `data as RawFd`: the low 32 bits, read as a signed number. */
  function U64ToFd(data: u64): (r: i32)
    ensures (data - r) % 0x1_0000_0000 == 0
  {
    var low := data % 0x1_0000_0000;
    if low < 0x8000_0000 then low else low - 0x1_0000_0000
  }

  lemma FdSurvivesU64(fd: i32)
    ensures U64ToFd(FdToU64(fd)) == fd
  {
    if fd < 0 {
      assert FdToU64(fd) == 0xFFFF_FFFF * 0x1_0000_0000 + (fd + 0x1_0000_0000);
    }
  }

  const EPOLLIN: bv32 := 1
  const EPOLLET: bv32 := 0x8000_0000

  datatype EpollEvent = EpollEvent(events: bv32, data: u64)

  /** A system call with its arguments and its result; waits are recorded apart. */
  datatype Call =
    | Create(ok: bool)
    | Add(fd: i32, event: EpollEvent, ok: bool)
    | Mod(fd: i32, event: EpollEvent, ok: bool)
    | Del(fd: i32, ok: bool)
    | AcceptFrom(listenFd: i32, client: Option<i32>)
    | ReadFrom(fd: i32, room: nat, data: Option<octets>)
    | WriteTo(fd: i32, buffer: octets, taken: Option<nat>)
    | Close(fd: i32, holder: Option<nat>, ok: bool)

  /** A wait for at most `room` events: the descriptors and flags it reported, or None if it failed. */
  datatype Wait = Wait(room: nat, events: Option<seq<(i32, bv32)>>)

  /** Octets that a read took from a connection. */
  datatype Received = Received(id: nat, data: octets)

  /**
   * `open` maps each open descriptor to the identity of what it stands for; identities are never
   * reused, numbers are.  `interest` is the epoll instance, `pending` the number of connections
   * that accept can still hand out before it reports an error, `received` what the reads have taken
   * from the connections, `wire` what each connection's peer is sent, `waits` the waits so far and
   * `log` all other calls.
   */
  datatype KernelState = KernelState(
    open: map<i32, nat>,
    nextId: nat,
    interest: map<i32, EpollEvent>,
    pending: nat,
    received: seq<Received>,
    wire: map<nat, octets>,
    waits: seq<Wait>,
    log: seq<Call>)
  {
    ghost predicate Valid() {
      && (forall fd :: fd in interest ==> fd in open)
      && (forall fd :: fd in open ==> open[fd] < nextId)
      && (forall id :: id in wire ==> id < nextId)
      && (forall f, g :: f in open && g in open && f != g ==> open[f] != open[g])
    }

    function Holder(fd: i32): Option<nat> {
      if fd in open then Some(open[fd]) else None
    }

    function Wire(id: nat): octets {
      if id in wire then wire[id] else []
    }

    /** A new description behind a number that is not in use. */
    function Opened(fd: i32): KernelState {
      this.(open := open[fd := nextId], nextId := nextId + 1)
    }

    function Logged(call: Call): KernelState {
      this.(log := log + [call])
    }

    /** Closing a descriptor also removes it from the epoll instance. */
    function Closed(fd: i32): KernelState {
      this.(open := open - {fd}, interest := interest - {fd})
    }
  }

  class Kernel {
    var st: KernelState

    /** A fresh epoll instance. */
    method EpollCreate() returns (r: Option<i32>)
      requires st.Valid()
      modifies this
      ensures st.Valid()
      ensures r.None? ==> st == old(st).Logged(Create(false))
      ensures r.Some? ==> r.value !in old(st).open &&
                          st == old(st).Opened(r.value).(interest := map[]).Logged(Create(true))
    {
      r := FreeDescriptor();
      if r.Some? {
        st := st.Opened(r.value).(interest := map[]);
      }
      st := st.Logged(Create(r.Some?));
    }

    /** Some descriptor number that is not in use, if the system grants one. */
    method FreeDescriptor() returns (r: Option<i32>)
      ensures r.Some? ==> r.value !in st.open
    {
      var grants: bool := *;
      var fd: i32 := *;
      r := if grants && fd !in st.open then Some(fd) else None;
    }

    /** EPOLL_CTL_ADD: fails on a closed descriptor, a member and the instance itself, and may fail otherwise. */
    method EpollAdd(epollFd: i32, fd: i32, event: EpollEvent) returns (ok: bool)
      requires st.Valid()
      modifies this
      ensures st.Valid()
      ensures ok ==> fd in old(st).open && fd !in old(st).interest && fd != epollFd
      ensures st == old(st).(interest := if ok then old(st).interest[fd := event] else old(st).interest)
                           .Logged(Add(fd, event, ok))
    {
      ok := *;
      ok := ok && fd in st.open && fd !in st.interest && fd != epollFd;
      st := st.(interest := if ok then st.interest[fd := event] else st.interest).Logged(Add(fd, event, ok));
    }

    /** EPOLL_CTL_MOD: fails on a non-member. */
    method EpollMod(fd: i32, event: EpollEvent) returns (ok: bool)
      requires st.Valid()
      modifies this
      ensures st.Valid()
      ensures ok ==> fd in old(st).interest
      ensures st == old(st).(interest := if ok then old(st).interest[fd := event] else old(st).interest)
                           .Logged(Mod(fd, event, ok))
    {
      ok := *;
      ok := ok && fd in st.interest;
      st := st.(interest := if ok then st.interest[fd := event] else st.interest).Logged(Mod(fd, event, ok));
    }

    /** EPOLL_CTL_DEL: fails on a non-member. */
    method EpollDel(fd: i32) returns (ok: bool)
      requires st.Valid()
      modifies this
      ensures st.Valid()
      ensures ok ==> fd in old(st).interest
      ensures st == old(st).(interest := if ok then old(st).interest - {fd} else old(st).interest,
                             log := old(st).log + [Del(fd, ok)])
    {
      ok := *;
      ok := ok && fd in st.interest;
      st := st.(interest := if ok then st.interest - {fd} else st.interest, log := st.log + [Del(fd, ok)]);
    }

    /**
     * Waits, during which connections may arrive; then reports distinct members of the instance
     * in the first entries of `events`, each with the data it was registered with.
     */
    method EpollWait(events: array<EpollEvent>) returns (n: Option<nat>, ghost reported: seq<(i32, bv32)>)
      requires st.Valid()
      modifies this, events
      ensures st.Valid()
      ensures st == old(st).(pending := st.pending,
                             waits := old(st).waits + [Wait(events.Length, if n.Some? then Some(reported) else None)])
      ensures n.Some? ==> n.value == |reported| <= events.Length
      ensures n.Some? ==> forall i, j :: 0 <= i < j < |reported| ==> reported[i].0 != reported[j].0
      ensures n.Some? ==> forall i :: 0 <= i < |reported| ==>
                reported[i].0 in st.interest &&
                events[i] == EpollEvent(reported[i].1, st.interest[reported[i].0].data)
    {
      var arrivals: nat := *;
      var fails: bool := *;
      st := st.(pending := arrivals);
      if fails {
        st := st.(waits := st.waits + [Wait(events.Length, None)]);
        return None, [];
      }
      var count, ready := Report(events);
      st := st.(waits := st.waits + [Wait(events.Length, Some(ready))]);
      n, reported := Some(count), ready;
    }

    /** Some members of the instance that are ready, written to the first entries of `events`. */
    method Report(events: array<EpollEvent>) returns (count: nat, ready: seq<(i32, bv32)>)
      modifies events
      ensures count == |ready| <= events.Length
      ensures forall i, j :: 0 <= i < j < |ready| ==> ready[i].0 != ready[j].0
      ensures forall i :: 0 <= i < |ready| ==>
                ready[i].0 in st.interest && events[i] == EpollEvent(ready[i].1, st.interest[ready[i].0].data)
    {
      ready, count := [], 0;
      var todo := st.interest.Keys;
      while count < events.Length && todo != {}
        modifies events
        invariant count == |ready| <= events.Length && todo <= st.interest.Keys
        invariant forall i :: 0 <= i < |ready| ==> ready[i].0 in st.interest && ready[i].0 !in todo
        invariant forall i :: 0 <= i < |ready| ==> events[i] == EpollEvent(ready[i].1, st.interest[ready[i].0].data)
        invariant forall i, j :: 0 <= i < j < |ready| ==> ready[i].0 != ready[j].0
        decreases |todo|
      {
        var fd :| fd in todo;
        todo := todo - {fd};
        var isReady: bool := *;
        if isReady {
          var flags: bv32 := *;
          events[count] := EpollEvent(flags, st.interest[fd].data);
          ready := ready + [(fd, flags)];
          count := count + 1;
        }
      }
    }

    /** A new connection gets a number that is not open and an identity of its own. */
    method Accept(listenFd: i32) returns (r: Option<i32>)
      requires st.Valid()
      modifies this
      ensures st.Valid()
      ensures r.None? ==> st == old(st).Logged(AcceptFrom(listenFd, None))
      ensures r.Some? ==> old(st).pending > 0 && r.value !in old(st).open &&
                          st == old(st).Opened(r.value).(pending := old(st).pending - 1).Logged(AcceptFrom(listenFd, r))
    {
      r := None;
      var fd := FreeDescriptor();
      if listenFd in st.open && st.pending > 0 && fd.Some? {
        st := st.Opened(fd.value).(pending := st.pending - 1);
        r := fd;
      }
      st := st.Logged(AcceptFrom(listenFd, r));
    }

    /** A failing close may or may not have released the descriptor. */
    method CloseFd(fd: i32) returns (ok: bool)
      requires st.Valid()
      modifies this
      ensures st.Valid()
      ensures var logged := old(st).(log := old(st).log + [Close(fd, old(st).Holder(fd), ok)]);
              if ok then fd in old(st).open && st == logged.Closed(fd)
              else st == logged || (fd in old(st).open && st == logged.Closed(fd))
    {
      var releases: bool := *;
      ok := *;
      releases := releases && fd in st.open;
      ok := ok && releases;
      st := st.(log := st.log + [Close(fd, st.Holder(fd), ok)]);
      if releases {
        st := st.Closed(fd);
      }
    }

    /** At most `capacity` octets, none at the end of the stream, or an error. */
    method Read(fd: i32, capacity: nat) returns (r: Option<octets>)
      requires st.Valid()
      modifies this
      ensures st.Valid()
      ensures r.Some? ==> |r.value| <= capacity
      ensures if r.Some? && r.value != []
              then fd in old(st).open &&
                   st == old(st).(received := old(st).received + [Received(old(st).open[fd], r.value)])
                                .Logged(ReadFrom(fd, capacity, r))
              else st == old(st).Logged(ReadFrom(fd, capacity, r))
    {
      var fails: bool := *;
      var data: octets := *;
      r := if fails || fd !in st.open || |data| > capacity then None else Some(data);
      if r.Some? && data != [] {
        st := st.(received := st.received + [Received(st.open[fd], data)]);
      }
      st := st.Logged(ReadFrom(fd, capacity, r));
    }

    /** Some prefix of the buffer is taken, or nothing. */
    method Write(fd: i32, buffer: octets) returns (r: Option<nat>)
      requires st.Valid()
      modifies this
      ensures st.Valid()
      ensures r.None? ==> st == old(st).Logged(WriteTo(fd, buffer, None))
      ensures r.Some? ==> fd in old(st).open && r.value <= |buffer| &&
                          st == old(st).(wire := old(st).wire[old(st).open[fd] := old(st).Wire(old(st).open[fd]) + buffer[..r.value]])
                                       .Logged(WriteTo(fd, buffer, r))
    {
      var fails: bool := *;
      r := None;
      if !fails && fd in st.open {
        var n: nat :| n <= |buffer|;
        st := st.(wire := st.wire[st.open[fd] := st.Wire(st.open[fd]) + buffer[..n]]);
        r := Some(n);
      }
      st := st.Logged(WriteTo(fd, buffer, r));
    }
  }
}
