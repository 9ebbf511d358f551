/** src/file/sendfile.rs: sending a whole file over a `sendfile` that may send less, nothing or fail. */
module SendFile {
  import opened Wrappers
  import opened Octets

  /** At most 1 GiB is asked for in one call. */
  const CHUNK: nat := 1024 * 1024 * 1024

  /** One `sendfile` call: where it was to start, how much was asked for, and the answer. */
  datatype Call = Call(offset: nat, count: nat, answer: Result<nat, ()>) {
    /** An answer after which the loop asks again. */
    predicate Continues() {
      answer.Ok? && 0 < answer.value
    }
  }

  /** The receiving socket: what has arrived, and the calls so far. */
  class Socket {
    var delivered: octets
    var calls: seq<Call>

    /**
     * The system call: on success it sends some prefix of the octets at `offset`, at most `count`
     * and possibly none; the caller's offset is not advanced, because the call works on a copy.
     */
    method SendFile(file: octets, offset: nat, count: nat) returns (r: Result<nat, ()>)
      modifies this
      ensures calls == old(calls) + [Call(offset, count, r)]
      ensures r.Ok? && r.value > 0 ==> r.value <= count && offset + r.value <= |file| &&
                                       delivered == old(delivered) + file[offset..offset + r.value]
      ensures r.Err? || r.value == 0 ==> delivered == old(delivered)
    {
      var fails: bool := *;
      if fails {
        r := Err(());
      } else {
        var n: nat :| n <= count && (n > 0 ==> offset + n <= |file|);
        if n > 0 {
          delivered := delivered + file[offset..offset + n];
        }
        r := Ok(n);
      }
      calls := calls + [Call(offset, count, r)];
    }
  }

  /** The octets that a series of calls accounts for. */
  function Total(calls: seq<Call>): nat {
    if calls == [] then 0 else
      var last := calls[|calls| - 1].answer;
      Total(calls[..|calls| - 1]) + if last.Ok? then last.value else 0
  }

  predicate AllContinue(calls: seq<Call>) {
    forall i :: 0 <= i < |calls| ==> calls[i].Continues()
  }

  /** The last call, and no earlier one, ended the transfer. */
  predicate StopsShort(calls: seq<Call>) {
    calls != [] && AllContinue(calls[..|calls| - 1]) && !calls[|calls| - 1].Continues()
  }

  /** Each call starts where the earlier ones got to, and asks for what is left of the file, up to 2^30 octets. */
  ghost predicate AsksForRest(calls: seq<Call>, size: nat) {
    forall i :: 0 <= i < |calls| ==>
      var sent := Total(calls[..i]);
      && sent < size && calls[i].offset == sent
      && calls[i].count == if size - sent < 0x4000_0000 then size - sent else 0x4000_0000
  }

  /** No call was answered with more than was asked for. */
  predicate IsAnswered(calls: seq<Call>) {
    forall i :: 0 <= i < |calls| ==> calls[i].answer.Ok? ==> calls[i].answer.value <= calls[i].count
  }

  lemma AsksExtend(calls: seq<Call>, call: Call, size: nat)
    requires AsksForRest(calls, size) && Total(calls) < size && call.offset == Total(calls)
    requires call.count == if size - Total(calls) < 0x4000_0000 then size - Total(calls) else 0x4000_0000
    ensures AsksForRest(calls + [call], size)
  {
    var more := calls + [call];
    forall i | 0 <= i < |more|
      ensures more[..i] == calls[..i] && more[i] == if i < |calls| then calls[i] else call
    {}
    assert calls[..|calls|] == calls;
  }

  lemma CallsExtend(calls: seq<Call>, call: Call)
    requires AllContinue(calls) && IsAnswered(calls) && (call.answer.Ok? ==> call.answer.value <= call.count)
    ensures Total(calls + [call]) == Total(calls) + if call.answer.Ok? then call.answer.value else 0
    ensures IsAnswered(calls + [call])
    ensures if call.Continues() then AllContinue(calls + [call]) else StopsShort(calls + [call])
  {
    assert (calls + [call])[..|calls|] == calls && (calls + [call])[|calls|] == call;
  }

  lemma NoCalls(size: nat)
    ensures Total([]) == 0 && AllContinue([]) && AsksForRest([], size) && IsAnswered([])
  {}

  /** Each call that keeps the loop going accounts for between one octet and 2^30. */
  lemma {:induction false} TotalBounds(calls: seq<Call>, size: nat)
    requires AllContinue(calls) && AsksForRest(calls, size) && IsAnswered(calls)
    ensures |calls| <= Total(calls) <= |calls| * 0x4000_0000
  {
    if calls != [] {
      var n := |calls| - 1;
      assert forall i :: 0 <= i < n ==> calls[..n][..i] == calls[..i];
      TotalBounds(calls[..n], size);
      assert calls[n].Continues();
    }
  }

  /**
   * The file arrives as a prefix and in order.  The result is the sum of what the calls sent; it
   * falls short of the file size only after a call that sent nothing or failed, and an error is
   * reported only when the very first call failed.
   */
  method SendEntireFile(socket: Socket, file: octets) returns (r: Result<nat, ()>, ghost calls: seq<Call>)
    modifies socket
    ensures socket.calls == old(socket.calls) + calls
    ensures AsksForRest(calls, |file|) && IsAnswered(calls)
    ensures r.Ok? ==> r.value == Total(calls) <= |file| && socket.delivered == old(socket.delivered) + file[..r.value]
    ensures r.Err? ==> |calls| == 1 && calls[0].answer == r && socket.delivered == old(socket.delivered)
    ensures r == Ok(|file|) ==> AllContinue(calls)
    ensures r != Ok(|file|) ==> StopsShort(calls)
  {
    hide Total, AllContinue, StopsShort, AsksForRest, IsAnswered;
    var totalSent, offset := 0, 0;
    calls := [];
    NoCalls(|file|);
    while totalSent < |file|
      invariant offset == totalSent == Total(calls) <= |file|
      invariant socket.calls == old(socket.calls) + calls
      invariant socket.delivered == old(socket.delivered) + file[..totalSent]
      invariant AllContinue(calls) && AsksForRest(calls, |file|) && IsAnswered(calls)
      decreases |file| - totalSent
    {
      var remaining := |file| - totalSent;
      var toSend := if remaining < CHUNK then remaining else CHUNK;
      var sent := socket.SendFile(file, offset, toSend);
      CallsExtend(calls, Call(offset, toSend, sent));
      AsksExtend(calls, Call(offset, toSend, sent), |file|);
      ghost var earlier := calls;
      calls := calls + [Call(offset, toSend, sent)];
      match sent
      case Ok(n) =>
        if n == 0 {
          break;
        }
        assert file[..totalSent + n] == file[..totalSent] + file[offset..offset + n];
        totalSent := totalSent + n;
        offset := offset + n;
      case Err(_) =>
        if totalSent > 0 {
          return Ok(totalSent), calls;
        }
        TotalBounds(earlier, |file|);
        return sent, calls;
    }
    r := Ok(totalSent);
  }

  /** A complete transfer of a file of `size` octets takes at least size / 2^30 calls, rounded up, and at most `size`. */
  lemma CallsForCompleteTransfer(calls: seq<Call>, size: nat)
    requires Total(calls) == size && AllContinue(calls) && AsksForRest(calls, size) && IsAnswered(calls)
    ensures (size + 0x4000_0000 - 1) / 0x4000_0000 <= |calls| <= size
  {
    TotalBounds(calls, size);
  }
}
