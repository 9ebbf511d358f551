/** src/worker/reactor.rs: what completed requests add up to, in the byte counter and on the connections. */
module Completions {
  import opened Wrappers
  import opened Octets
  import opened Kernel
  import opened HttpResponses
  import opened MessageReader
  import opened ResponseStream
  import opened Handlers

  /**
   * A completed request: the connection, the octets read from it, the response with its header
   * order, and how many octets of that the kernel took.
   */
  datatype Completed = Completed(id: nat, data: octets, sent: Sent, taken: nat) {
    ghost predicate Written() {
      sent.HasOrder() && IsReadable(sent.response) && taken <= |sent.Bytes()|
    }

    /** The kernel took all of it. */
    ghost predicate IsWhole()
      requires sent.HasOrder()
    {
      taken == |sent.Bytes()|
    }
  }

  ghost predicate AllWritten(done: seq<Completed>) {
    forall i :: 0 <= i < |done| ==> done[i].Written()
  }

  /** What was read for the completed requests. */
  function Requests(done: seq<Completed>): (r: seq<Received>)
    ensures |r| == |done|
  {
    seq(|done|, i requires 0 <= i < |done| => Received(done[i].id, done[i].data))
  }

  /**
   * The reads since `before` are those of the completed requests, in order, and `unfinished` more:
   * everything that was read has been answered, once, on the connection it came from.
   */
  ghost predicate Answered(before: seq<Received>, received: seq<Received>, done: seq<Completed>, unfinished: nat) {
    |received| == |before| + |done| + unfinished && received[..|before| + |done|] == before + Requests(done)
  }

  lemma ReceivedOneMore(before: seq<Received>, received: seq<Received>, done: seq<Completed>, next: Received)
    requires Answered(before, received, done, 0)
    ensures Answered(before, received + [next], done, 1)
  {}

  lemma AnsweredOneMore(before: seq<Received>, received: seq<Received>, done: seq<Completed>, c: Completed)
    requires Answered(before, received, done, 1) && received[|received| - 1] == Received(c.id, c.data)
    ensures Answered(before, received, done + [c], 0)
  {
    var n := |before| + |done|;
    assert received == received[..n] + [received[n]];
    assert Requests(done + [c]) == Requests(done) + [Received(c.id, c.data)];
    assert received[..n + 1] == received;
  }

  ghost function ResponseOctets(done: seq<Completed>): nat
    requires AllWritten(done)
  {
    if done == [] then 0 else ResponseOctets(done[..|done| - 1]) + |done[|done| - 1].sent.Bytes()|
  }

  function TakenOctets(done: seq<Completed>): nat {
    if done == [] then 0 else TakenOctets(done[..|done| - 1]) + done[|done| - 1].taken
  }

  /** What connection `id` has been sent. */
  ghost function WireOf(done: seq<Completed>, id: nat): octets
    requires AllWritten(done)
  {
    if done == [] then [] else
      var c := done[|done| - 1];
      WireOf(done[..|done| - 1], id) + if c.id == id then c.sent.Bytes()[..c.taken] else []
  }

  /** The responses completed on connection `id`, oldest first. */
  ghost function ResponsesOn(done: seq<Completed>, id: nat): seq<Sent> {
    if done == [] then [] else
      var c := done[|done| - 1];
      ResponsesOn(done[..|done| - 1], id) + if c.id == id then [c.sent] else []
  }

  /** How much the kernel took of each of them. */
  function TakenOn(done: seq<Completed>, id: nat): seq<nat> {
    if done == [] then [] else
      var c := done[|done| - 1];
      TakenOn(done[..|done| - 1], id) + if c.id == id then [c.taken] else []
  }

  lemma CompletedExtend(done: seq<Completed>, c: Completed)
    requires AllWritten(done) && c.Written()
    ensures AllWritten(done + [c])
    ensures ResponseOctets(done + [c]) == ResponseOctets(done) + |c.sent.Bytes()|
    ensures TakenOctets(done + [c]) == TakenOctets(done) + c.taken
    ensures forall id :: ResponsesOn(done + [c], id) == ResponsesOn(done, id) + if c.id == id then [c.sent] else []
    ensures forall id :: TakenOn(done + [c], id) == TakenOn(done, id) + if c.id == id then [c.taken] else []
    ensures forall id :: WireOf(done + [c], id) == WireOf(done, id) + if c.id == id then c.sent.Bytes()[..c.taken] else []
  {
    assert (done + [c])[..|done|] == done;
  }

  // ---------- the byte counter ----------

  ghost predicate AllWhole(done: seq<Completed>)
    requires AllWritten(done)
  {
    forall i :: 0 <= i < |done| ==> done[i].IsWhole()
  }

  ghost predicate AllWholeOn(done: seq<Completed>, id: nat)
    requires AllWritten(done)
  {
    forall i :: 0 <= i < |done| && done[i].id == id ==> done[i].IsWhole()
  }

  /** The byte counter is an upper bound of what the kernel took, and exact only if every write was whole. */
  lemma {:induction false} TakenIsSentIffWhole(done: seq<Completed>)
    requires AllWritten(done)
    ensures TakenOctets(done) <= ResponseOctets(done)
    ensures TakenOctets(done) == ResponseOctets(done) <==> AllWhole(done)
  {
    if done != [] {
      hide ResponseOctets, TakenOctets, AllWhole, Completed.Written, Completed.IsWhole, Sent.Bytes, WireOf, ResponsesOn, TakenOn;
      var earlier, c := done[..|done| - 1], done[|done| - 1];
      assert done == earlier + [c] && c.Written();
      TakenIsSentIffWhole(earlier);
      CompletedExtend(earlier, c);
      WholeExtend(earlier, c, c.id);
    }
  }

  lemma WholeExtend(done: seq<Completed>, c: Completed, id: nat)
    requires AllWritten(done) && AllWritten(done + [c]) && c.Written()
    ensures AllWhole(done + [c]) <==> AllWhole(done) && c.taken == |c.sent.Bytes()|
    ensures c.taken <= |c.sent.Bytes()|
    ensures AllWholeOn(done + [c], id) <==> AllWholeOn(done, id) && (c.id == id ==> c.IsWhole())
  {
    hide IsReadable, Sent.Bytes;
    assert (done + [c])[|done|] == c && forall i :: 0 <= i < |done| ==> (done + [c])[i] == done[i];
  }

  // ---------- the wire ----------

  lemma WrittenAppend(sent: seq<Sent>, taken: seq<nat>, c: Completed)
    requires Readable(sent) && Fits(sent, taken) && c.Written()
    ensures Readable(sent + [c.sent]) && Fits(sent + [c.sent], taken + [c.taken])
    ensures Cut(sent + [c.sent], taken + [c.taken]) == Cut(sent, taken) + c.sent.Bytes()[..c.taken]
    ensures Whole(sent + [c.sent], taken + [c.taken]) <==> Whole(sent, taken) && c.IsWhole()
  {
    hide Cut, Serialize, IsOrder, Clean, Framed;
    CutAppend(sent, taken, c.sent, c.taken);
    var n := |sent|;
    assert (sent + [c.sent])[n] == c.sent && (taken + [c.taken])[n] == c.taken;
    assert forall i :: 0 <= i < n ==> (sent + [c.sent])[i] == sent[i] && (taken + [c.taken])[i] == taken[i];
  }

  /** What a connection was sent is its responses, each cut where the kernel stopped. */
  ghost predicate IsCut(done: seq<Completed>, id: nat)
    requires AllWritten(done)
  {
    && Readable(ResponsesOn(done, id)) && Fits(ResponsesOn(done, id), TakenOn(done, id))
    && WireOf(done, id) == Cut(ResponsesOn(done, id), TakenOn(done, id))
    && (Whole(ResponsesOn(done, id), TakenOn(done, id)) <==> AllWholeOn(done, id))
  }

  lemma IsCutExtend(done: seq<Completed>, c: Completed, id: nat)
    requires AllWritten(done) && c.Written() && IsCut(done, id)
    ensures AllWritten(done + [c]) && IsCut(done + [c], id)
  {
    hide Cut, Readable, Fits, Whole, Sent.Bytes, WireOf, ResponsesOn, TakenOn, AllWholeOn, Completed.Written;
    CompletedExtend(done, c);
    WholeExtend(done, c, id);
    if c.id == id {
      WrittenAppend(ResponsesOn(done, id), TakenOn(done, id), c);
    } else {
      assert ResponsesOn(done + [c], id) == ResponsesOn(done, id) && TakenOn(done + [c], id) == TakenOn(done, id);
    }
  }

  lemma {:induction false} WireIsCut(done: seq<Completed>, id: nat)
    requires AllWritten(done)
    ensures IsCut(done, id)
  {
    if done != [] {
      hide IsCut, Completed.Written;
      var earlier, c := done[..|done| - 1], done[|done| - 1];
      assert done == earlier + [c] && c.Written();
      WireIsCut(earlier, id);
      IsCutExtend(earlier, c, id);
    }
  }

  /**
   * The octets sent on a connection are read as exactly the responses completed on it, in order,
   * if and only if the kernel took each of those whole.
   */
  lemma ConnectionReadsBackIff(done: seq<Completed>, id: nat)
    requires AllWritten(done)
    ensures Ordered(ResponsesOn(done, id))
    ensures ReadResponses(WireOf(done, id)) == Some(Messages(ResponsesOn(done, id))) <==> AllWholeOn(done, id)
  {
    WireIsCut(done, id);
    CutReadsBackIffWhole(ResponsesOn(done, id), TakenOn(done, id));
  }

  // ---------- a short write ----------

  const SERVER := Ascii("Server")
  const CONNECTION := Ascii("Connection")

  /** The 404 response, of which the kernel took one octet. */
  function ShortWrite(id: nat, data: octets): Completed {
    Completed(id, data, Sent(NotFoundResponse(), [SERVER, CONNECTION, CONTENT_LENGTH]), 1)
  }

  lemma NotFoundOrder()
    ensures IsOrder([SERVER, CONNECTION, CONTENT_LENGTH], NotFoundResponse().headers.Keys)
  {
    assert |SERVER| == 6 && |CONNECTION| == 10 && |CONTENT_LENGTH| == 14;
    assert NotFoundResponse().headers.Keys == {SERVER, CONNECTION, CONTENT_LENGTH};
  }

  /** Counted in full, and not read back. */
  lemma ShortWriteMisleads(id: nat, data: octets)
    ensures var done := [ShortWrite(id, data)];
            && AllWritten(done) && Ordered(ResponsesOn(done, id))
            && TakenOctets(done) < ResponseOctets(done)
            && ReadResponses(WireOf(done, id)) != Some(Messages(ResponsesOn(done, id)))
  {
    hide IsReadable, IsOrder, NotFoundResponse, HeaderLines, ReadResponses;
    var c := ShortWrite(id, data);
    NotFoundOrder();
    ErrorResponsesAreReadable();
    assert |c.sent.Bytes()| >= 13;
    assert c.Written() && !c.IsWhole();
    TakenIsSentIffWhole([c]);
    ConnectionReadsBackIff([c], id);
    assert [c][0] == c;
  }
}
