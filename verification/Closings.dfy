/** src/net/epoll.rs: which connections a log of system calls has closed, and how often. */
module Closings {
  import opened Wrappers
  import opened Kernel
  import opened EpollBackend

  /** A close of the descriptor that stands for connection `id`. */
  predicate Closes(call: Call, id: nat) {
    call.Close? && call.holder == Some(id)
  }

  predicate IsClosedBy(calls: seq<Call>, id: nat) {
    exists i :: 0 <= i < |calls| && Closes(calls[i], id)
  }

  predicate ClosesOnce(calls: seq<Call>, id: nat) {
    forall i, j :: 0 <= i < j < |calls| && Closes(calls[i], id) ==> !Closes(calls[j], id)
  }

  lemma OneMoreCall(calls: seq<Call>, call: Call, id: nat)
    ensures IsClosedBy(calls + [call], id) <==> IsClosedBy(calls, id) || Closes(call, id)
    ensures ClosesOnce(calls, id) && !(IsClosedBy(calls, id) && Closes(call, id)) ==> ClosesOnce(calls + [call], id)
  {
    var more := calls + [call];
    assert more[|calls|] == call && forall i :: 0 <= i < |calls| ==> more[i] == calls[i];
    if IsClosedBy(calls, id) {
      var i :| 0 <= i < |calls| && Closes(calls[i], id);
      assert Closes(more[i], id);
    }
    if Closes(call, id) {
      assert Closes(more[|calls|], id);
    }
  }

  /** At most one of the descriptors stands for connection `id`, and none if that is closed already. */
  ghost predicate HeldOnce(calls: seq<Call>, fds: seq<i32>, holder: i32 -> Option<nat>, id: nat) {
    && (forall i, j :: 0 <= i < j < |fds| && holder(fds[i]) == Some(id) ==> holder(fds[j]) != Some(id))
    && (IsClosedBy(calls, id) ==> forall i :: 0 <= i < |fds| ==> holder(fds[i]) != Some(id))
  }

  ghost predicate Deregistered(fds: seq<i32>, outcomes: seq<DropOutcome>, holder: i32 -> Option<nat>, id: nat)
    requires |fds| == |outcomes|
  {
    exists i :: 0 <= i < |fds| && holder(fds[i]) == Some(id) && !outcomes[i].Kept?
  }

  /** A drop closes a connection once if its descriptor is deregistered, and otherwise not at all. */
  lemma {:induction false} DropClosesOnce(calls: seq<Call>, fds: seq<i32>, outcomes: seq<DropOutcome>,
                                          holder: i32 -> Option<nat>, id: nat)
    requires |fds| == |outcomes| && ClosesOnce(calls, id) && HeldOnce(calls, fds, holder, id)
    ensures var all := calls + DropCalls(fds, outcomes, holder);
            && ClosesOnce(all, id)
            && (IsClosedBy(all, id) <==> IsClosedBy(calls, id) || Deregistered(fds, outcomes, holder, id))
  {
    if fds == [] {
      assert calls + [] == calls;
    } else {
      hide ClosesOnce, IsClosedBy;
      var n := |fds| - 1;
      var earlier := DropCalls(fds[..n], outcomes[..n], holder);
      DropClosesOnce(calls, fds[..n], outcomes[..n], holder, id);
      assert Deregistered(fds, outcomes, holder, id) <==>
             Deregistered(fds[..n], outcomes[..n], holder, id) || (holder(fds[n]) == Some(id) && !outcomes[n].Kept?);
      var del, close := Del(fds[n], !outcomes[n].Kept?), Close(fds[n], holder(fds[n]), outcomes[n].Released?);
      OneMoreCall(calls + earlier, del, id);
      OneMoreCall(calls + earlier + [del], close, id);
      assert calls + (earlier + [del]) == calls + earlier + [del];
      assert calls + (earlier + [del, close]) == calls + earlier + [del] + [close];
    }
  }
}
