/** bench/run_bench.rs: the shared recorder, the percentiles and the request it sends. */
module BenchStats {
  import opened Wrappers
  import opened Octets
  import opened MessageReader

  // ---------- percentiles ----------

  function CountBelow(s: seq<nat>, v: nat): nat {
    if s == [] then 0 else (if s[0] < v then 1 else 0) + CountBelow(s[1..], v)
  }

  function CountAtMost(s: seq<nat>, v: nat): nat {
    CountBelow(s, v + 1)
  }

  lemma {:induction false} CountAppend(a: seq<nat>, b: seq<nat>, v: nat)
    ensures CountBelow(a + b, v) == CountBelow(a, v) + CountBelow(b, v)
  {
    if a == [] {
      assert a + b == b;
    } else {
      assert (a + b)[1..] == a[1..] + b;
      CountAppend(a[1..], b, v);
    }
  }

  lemma CountWithout(s: seq<nat>, i: nat, v: nat)
    requires i < |s|
    ensures CountBelow(s, v) == CountBelow(s[..i] + s[i + 1..], v) + if s[i] < v then 1 else 0
  {
    assert s == s[..i] + s[i..] && s[i..][1..] == s[i + 1..];
    CountAppend(s[..i], s[i..], v);
    CountAppend(s[..i], s[i + 1..], v);
  }

  lemma MultisetWithout(s: seq<nat>, i: nat)
    requires i < |s|
    ensures multiset(s[..i] + s[i + 1..]) == multiset(s) - multiset{s[i]}
  {
    assert s == s[..i] + [s[i]] + s[i + 1..];
  }

  /** Counting does not see order. */
  lemma {:induction false} CountIgnoresOrder(a: seq<nat>, b: seq<nat>, v: nat)
    requires multiset(a) == multiset(b)
    ensures CountBelow(a, v) == CountBelow(b, v)
  {
    if a == [] {
      assert |multiset(b)| == 0;
    } else {
      assert a[0] in multiset(b);
      var i :| 0 <= i < |b| && b[i] == a[0];
      MultisetWithout(a, 0);
      MultisetWithout(b, i);
      assert a[..0] + a[1..] == a[1..];
      CountIgnoresOrder(a[1..], b[..i] + b[i + 1..], v);
      CountWithout(b, i, v);
    }
  }

  predicate Sorted(s: seq<nat>) {
    forall i, j :: 0 <= i < j < |s| ==> s[i] <= s[j]
  }

  lemma {:induction false} CountBounds(s: seq<nat>, v: nat)
    ensures CountBelow(s, v) <= |s|
    ensures (forall i :: 0 <= i < |s| ==> s[i] < v) ==> CountBelow(s, v) == |s|
    ensures (forall i :: 0 <= i < |s| ==> s[i] >= v) ==> CountBelow(s, v) == 0
  {
    if s != [] {
      CountBounds(s[1..], v);
    }
  }

  /** In a sorted list, index `i` has at most `i` samples strictly below it. */
  lemma BelowIndex(s: seq<nat>, i: nat)
    requires Sorted(s) && i < |s|
    ensures CountBelow(s, s[i]) <= i
  {
    hide CountBelow;
    assert s == s[..i] + s[i..];
    CountAppend(s[..i], s[i..], s[i]);
    CountBounds(s[..i], s[i]);
    CountBounds(s[i..], s[i]);
  }

  /** ... and at least `i + 1` samples that do not exceed it. */
  lemma AtMostIndex(s: seq<nat>, i: nat)
    requires Sorted(s) && i < |s|
    ensures i + 1 <= CountAtMost(s, s[i])
  {
    hide CountBelow;
    assert s == s[..i + 1] + s[i + 1..];
    CountAppend(s[..i + 1], s[i + 1..], s[i] + 1);
    CountBounds(s[..i + 1], s[i] + 1);
  }

  /** At least `k` percent of the samples are at most `p`, and at most `k` percent lie strictly below it. */
  ghost predicate IsPercentile(samples: seq<nat>, k: nat, p: nat) {
    && p in multiset(samples)
    && CountAtMost(samples, p) * 100 >= k * |samples|
    && CountBelow(samples, p) * 100 <= k * |samples|
  }

  /** The index used for percentile `k` is in range. */
  function RankIndex(n: nat, k: nat): (i: nat)
    requires n > 0 && k < 100
    ensures i < n && i * 100 <= n * k < (i + 1) * 100
  {
    assert n * k < n * 100;
    n * k / 100
  }

  lemma RankIndexMonotone(n: nat, j: nat, k: nat)
    requires n > 0 && j <= k < 100
    ensures RankIndex(n, j) <= RankIndex(n, k)
  {
    assert n * j <= n * k;
  }

  lemma PercentileOfRank(samples: seq<nat>, sorted: seq<nat>, k: nat)
    requires Sorted(sorted) && multiset(sorted) == multiset(samples) && sorted != [] && k < 100
    ensures IsPercentile(samples, k, sorted[RankIndex(|sorted|, k)])
  {
    assert |multiset(sorted)| == |sorted| && |multiset(samples)| == |samples|;
    var i := RankIndex(|sorted|, k);
    BelowIndex(sorted, i);
    AtMostIndex(sorted, i);
    assert sorted[i] in multiset(sorted);
    CountIgnoresOrder(sorted, samples, sorted[i]);
    CountIgnoresOrder(sorted, samples, sorted[i] + 1);
    var below, atMost := CountBelow(samples, sorted[i]), CountAtMost(samples, sorted[i]);
    assert below * 100 <= i * 100 && (i + 1) * 100 <= atMost * 100;
  }

  function Insert(x: nat, s: seq<nat>): (r: seq<nat>)
    requires Sorted(s)
    ensures Sorted(r) && multiset(r) == multiset(s) + multiset{x}
    ensures |r| == |s| + 1 && r[0] == if s == [] || x <= s[0] then x else s[0]
  {
    if s == [] || x <= s[0] then [x] + s else
      var rest := Insert(x, s[1..]);
      assert s == [s[0]] + s[1..];
      assert forall i :: 0 <= i < |rest| ==> rest[0] <= rest[i];
      [s[0]] + rest
  }

  /** The result of `Vec::sort`. */
  function SortedCopy(s: seq<nat>): (r: seq<nat>)
    ensures Sorted(r) && multiset(r) == multiset(s)
  {
    if s == [] then [] else
      assert s == [s[0]] + s[1..];
      Insert(s[0], SortedCopy(s[1..]))
  }

  datatype Percentiles = Percentiles(p50: nat, p95: nat, p99: nat)

  const U64: nat := 0x1_0000_0000_0000_0000

  /** The recorder shared by all connections; the counters are unsigned 64-bit and wrap. */
  class Stats {
    var totalRequests: nat
    var totalBytes: nat
    var latencies: seq<nat>

    constructor ()
      ensures totalRequests == 0 && totalBytes == 0 && latencies == []
    {
      totalRequests, totalBytes, latencies := 0, 0, [];
    }

    /** The three updates of `record_request`, with nothing in between. */
    method RecordRequest(bytes: nat, latency: nat)
      modifies this
      ensures totalRequests == (old(totalRequests) + 1) % U64
      ensures totalBytes == (old(totalBytes) + bytes) % U64
      ensures latencies == old(latencies) + [latency]
    {
      totalRequests := (totalRequests + 1) % U64;
      totalBytes := (totalBytes + bytes) % U64;
      latencies := latencies + [latency];
    }

    /** Sorts the stored latencies in place and reports three of them, if there are any. */
    method PrintResults() returns (r: Option<Percentiles>)
      modifies this`latencies
      ensures Sorted(latencies) && multiset(latencies) == multiset(old(latencies))
      ensures r.None? <==> old(latencies) == []
      ensures r.Some? ==>
                && IsPercentile(old(latencies), 50, r.value.p50)
                && IsPercentile(old(latencies), 95, r.value.p95)
                && IsPercentile(old(latencies), 99, r.value.p99)
                && r.value.p50 <= r.value.p95 <= r.value.p99
    {
      hide IsPercentile, SortedCopy, RankIndex;
      ghost var samples := latencies;
      latencies := SortedCopy(latencies);
      assert |multiset(latencies)| == |latencies| && |multiset(samples)| == |samples|;
      if latencies == [] {
        return None;
      }
      PercentileOfRank(samples, latencies, 50);
      PercentileOfRank(samples, latencies, 95);
      PercentileOfRank(samples, latencies, 99);
      RankIndexMonotone(|latencies|, 50, 95);
      RankIndexMonotone(|latencies|, 95, 99);
      r := Some(Percentiles(latencies[RankIndex(|latencies|, 50)],
                            latencies[RankIndex(|latencies|, 95)],
                            latencies[RankIndex(|latencies|, 99)]));
    }
  }

  // ---------- the recorder under interleaving ----------

  datatype Record = Record(bytes: nat, latency: nat)

  /** A connection thread between two records, or after the first or second update of one. */
  datatype Thread =
    | Between(todo: seq<Record>)
    | Counted(current: Record, todo: seq<Record>)
    | Weighed(current: Record, todo: seq<Record>)
  {
    predicate Done() {
      this == Between([])
    }

    /** Number of records this thread has counted but not yet stored. */
    function Open(): nat {
      if Between? then 0 else 1
    }

    /** Octets this thread has still to add. */
    function BytesLeft(): nat {
      SumBytes(todo) + if Counted? then current.bytes else 0
    }

    /** Latencies this thread has still to store. */
    function LatenciesLeft(): multiset<nat> {
      Latencies(todo) + if Between? then multiset{} else multiset{current.latency}
    }
  }

  function SumBytes(rs: seq<Record>): nat {
    if rs == [] then 0 else rs[0].bytes + SumBytes(rs[1..])
  }

  function Latencies(rs: seq<Record>): multiset<nat> {
    if rs == [] then multiset{} else multiset{rs[0].latency} + Latencies(rs[1..])
  }

  /** The counters, the stored latencies and the threads. */
  datatype Recorder = Recorder(totalRequests: nat, totalBytes: nat, latencies: seq<nat>, threads: seq<Thread>)

  /** One atomic update by thread `t`. */
  function Step(s: Recorder, t: nat): Recorder {
    if t >= |s.threads| then s else
    match s.threads[t]
    case Between(todo) =>
      if todo == [] then s else
      s.(totalRequests := (s.totalRequests + 1) % U64, threads := s.threads[t := Counted(todo[0], todo[1..])])
    case Counted(current, todo) =>
      s.(totalBytes := (s.totalBytes + current.bytes) % U64, threads := s.threads[t := Weighed(current, todo)])
    case Weighed(current, todo) =>
      s.(latencies := s.latencies + [current.latency], threads := s.threads[t := Between(todo)])
  }

  function Run(s: Recorder, schedule: seq<nat>): Recorder
    decreases |schedule|
  {
    if schedule == [] then s else Run(Step(s, schedule[0]), schedule[1..])
  }

  /** Undisturbed, three steps of one thread do to the shared fields what `RecordRequest` does. */
  lemma SoloStepsAreRecordRequest(s: Recorder, t: nat, record: Record, todo: seq<Record>)
    requires t < |s.threads| && s.threads[t] == Between([record] + todo)
    ensures Run(s, [t, t, t]) == Recorder((s.totalRequests + 1) % U64, (s.totalBytes + record.bytes) % U64,
                                          s.latencies + [record.latency], s.threads[t := Between(todo)])
  {
    var s1 := Step(s, t);
    var s2 := Step(s1, t);
    assert Run(s, [t, t, t]) == Run(s1, [t, t]) == Run(s2, [t]) == Run(Step(s2, t), []);
    assert Step(s2, t).threads == s.threads[t := Between(todo)];
  }

  function Start(work: seq<seq<Record>>): Recorder {
    Recorder(0, 0, [], seq(|work|, t requires 0 <= t < |work| => Between(work[t])))
  }

  function TotalOpen(threads: seq<Thread>): nat {
    if threads == [] then 0 else threads[0].Open() + TotalOpen(threads[1..])
  }

  function TotalBytesLeft(threads: seq<Thread>): nat {
    if threads == [] then 0 else threads[0].BytesLeft() + TotalBytesLeft(threads[1..])
  }

  function AllLatenciesLeft(threads: seq<Thread>): multiset<nat> {
    if threads == [] then multiset{} else threads[0].LatenciesLeft() + AllLatenciesLeft(threads[1..])
  }

  lemma {:induction false} ThreadUpdate(threads: seq<Thread>, t: nat, thread: Thread)
    requires t < |threads|
    ensures TotalOpen(threads[t := thread]) + threads[t].Open() == TotalOpen(threads) + thread.Open()
    ensures TotalBytesLeft(threads[t := thread]) + threads[t].BytesLeft() ==
            TotalBytesLeft(threads) + thread.BytesLeft()
  {
    var after := threads[t := thread];
    if t == 0 {
      assert after[1..] == threads[1..];
    } else {
      ThreadUpdate(threads[1..], t - 1, thread);
      assert after[1..] == threads[1..][t - 1 := thread];
    }
  }

  /** Thread `t` hands over `stored`, which it had left, and keeps the rest. */
  lemma {:induction false} ThreadStores(threads: seq<Thread>, t: nat, thread: Thread, stored: multiset<nat>)
    requires t < |threads| && threads[t].LatenciesLeft() == thread.LatenciesLeft() + stored
    ensures AllLatenciesLeft(threads) == AllLatenciesLeft(threads[t := thread]) + stored
  {
    var after := threads[t := thread];
    if t == 0 {
      assert after[1..] == threads[1..];
    } else {
      ThreadStores(threads[1..], t - 1, thread, stored);
      assert after[1..] == threads[1..][t - 1 := thread];
    }
  }

  /** The counters of a recorder that has to process `bytes` octets in all. */
  ghost predicate CountersAgree(s: Recorder, bytes: nat) {
    && s.totalRequests == (|s.latencies| + TotalOpen(s.threads)) % U64
    && TotalBytesLeft(s.threads) <= bytes
    && s.totalBytes == (bytes - TotalBytesLeft(s.threads)) % U64
  }

  ghost predicate LatenciesAgree(s: Recorder, latencies: multiset<nat>) {
    multiset(s.latencies) + AllLatenciesLeft(s.threads) == latencies
  }

  lemma WrapAdd(x: nat, y: nat)
    ensures (x % U64 + y) % U64 == (x + y) % U64
  {}

  lemma StepCounters(s: Recorder, t: nat, bytes: nat)
    requires CountersAgree(s, bytes)
    ensures CountersAgree(Step(s, t), bytes)
  {
    if t < |s.threads| && !s.threads[t].Done() {
      var s' := Step(s, t);
      ThreadUpdate(s.threads, t, s'.threads[t]);
      if s.threads[t].Between? {
        WrapAdd(|s.latencies| + TotalOpen(s.threads), 1);
      } else if s.threads[t].Counted? {
        WrapAdd(bytes - TotalBytesLeft(s.threads), s.threads[t].current.bytes);
      }
    }
  }

  lemma StepLatencies(s: Recorder, t: nat, latencies: multiset<nat>)
    requires LatenciesAgree(s, latencies)
    ensures LatenciesAgree(Step(s, t), latencies)
  {
    if t < |s.threads| && !s.threads[t].Done() {
      var thread, thread' := s.threads[t], Step(s, t).threads[t];
      var stored := if thread.Weighed? then multiset{thread.current.latency} else multiset{};
      assert thread.LatenciesLeft() == thread'.LatenciesLeft() + stored;
      ThreadStores(s.threads, t, thread', stored);
    }
  }

  lemma {:induction false} RunConsistent(s: Recorder, schedule: seq<nat>, bytes: nat, latencies: multiset<nat>)
    requires CountersAgree(s, bytes) && LatenciesAgree(s, latencies)
    ensures CountersAgree(Run(s, schedule), bytes) && LatenciesAgree(Run(s, schedule), latencies)
    decreases |schedule|
  {
    if schedule != [] {
      StepCounters(s, schedule[0], bytes);
      StepLatencies(s, schedule[0], latencies);
      RunConsistent(Step(s, schedule[0]), schedule[1..], bytes, latencies);
    }
  }

  predicate AllDone(threads: seq<Thread>) {
    forall t :: 0 <= t < |threads| ==> threads[t].Done()
  }

  lemma {:induction false} NothingOpen(threads: seq<Thread>)
    requires forall t :: 0 <= t < |threads| ==> threads[t].Between?
    ensures TotalOpen(threads) == 0
    ensures AllDone(threads) ==> TotalBytesLeft(threads) == 0 && AllLatenciesLeft(threads) == multiset{}
  {
    if threads != [] {
      NothingOpen(threads[1..]);
    }
  }

  lemma StartAgrees(work: seq<seq<Record>>)
    ensures CountersAgree(Start(work), TotalBytesLeft(Start(work).threads))
    ensures LatenciesAgree(Start(work), AllLatenciesLeft(Start(work).threads))
  {
    NothingOpen(Start(work).threads);
  }

  /** In every reachable state the request counter is ahead of the stored latencies by the half-written records. */
  lemma CounterAheadByOpenRecords(work: seq<seq<Record>>, schedule: seq<nat>)
    ensures var s := Run(Start(work), schedule);
            s.totalRequests == (|s.latencies| + TotalOpen(s.threads)) % U64
  {
    StartAgrees(work);
    RunConsistent(Start(work), schedule, TotalBytesLeft(Start(work).threads), AllLatenciesLeft(Start(work).threads));
  }

  /**
   * Once all threads are done, whatever the interleaving, the counter is the number of latencies,
   * the byte counter is the sum of the workload (both modulo 2^64), and the stored latencies are
   * exactly those of the workload.
   */
  lemma FinishedRecorderAddsUp(work: seq<seq<Record>>, schedule: seq<nat>, s: Recorder)
    requires s == Run(Start(work), schedule) && AllDone(s.threads)
    ensures s.totalRequests == |s.latencies| % U64
    ensures s.totalBytes == TotalBytesLeft(Start(work).threads) % U64
    ensures multiset(s.latencies) == AllLatenciesLeft(Start(work).threads)
  {
    StartAgrees(work);
    RunConsistent(Start(work), schedule, TotalBytesLeft(Start(work).threads), AllLatenciesLeft(Start(work).threads));
    NothingOpen(s.threads);
  }

  // ---------- the request ----------

  const HOST := Ascii("Host")
  const CONTENT_LENGTH := Ascii("Content-Length")
  const CONNECTION := Ascii("Connection")

  function RequestLine(payloadSize: nat): octets {
    Ascii(if payloadSize == 0 then "GET /api/health HTTP/1.1" else "POST /api/data HTTP/1.1")
  }

  function RequestFields(payloadSize: nat): seq<Field> {
    [Field(HOST, Ascii("localhost"))]
    + (if payloadSize == 0 then [] else [Field(CONTENT_LENGTH, Decimal(payloadSize))])
    + [Field(CONNECTION, Ascii("keep-alive"))]
  }

  function Payload(n: nat): (r: octets)
    ensures |r| == n
  {
    seq(n, _ => 120)
  }

  /** `create_http_request`: without a payload there is no Content-Length line. */
  function CreateHttpRequest(payloadSize: nat): octets {
    RequestLine(payloadSize) + CRLF + (FieldLines(RequestFields(payloadSize)) + CRLF + Payload(payloadSize))
  }

  lemma RequestLineIsClean(payloadSize: nat)
    ensures NoLineBreak(RequestLine(payloadSize))
  {
    ValueTextIsFieldValue(if payloadSize == 0 then "GET /api/health HTTP/1.1" else "POST /api/data HTTP/1.1");
  }

  lemma HostIsClean()
    ensures IsCleanField(Field(HOST, Ascii("localhost")))
  {
    NameTextIsToken("Host");
    ValueTextIsFieldValue("localhost");
  }

  lemma ConnectionIsClean()
    ensures IsCleanField(Field(CONNECTION, Ascii("keep-alive")))
  {
    NameTextIsToken("Connection");
    ValueTextIsFieldValue("keep-alive");
  }

  lemma ContentLengthIsClean(n: nat)
    ensures IsCleanField(Field(CONTENT_LENGTH, Decimal(n)))
  {
    NameTextIsToken("Content-Length");
  }

  lemma RequestFieldsAreClean(payloadSize: nat)
    ensures forall f :: f in RequestFields(payloadSize) ==> IsCleanField(f)
  {
    HostIsClean();
    ContentLengthIsClean(payloadSize);
    ConnectionIsClean();
  }

  lemma ContentLengthIsNamed()
    ensures Lower(CONTENT_LENGTH) == Ascii("content-length")
  {}

  lemma RequestDeclaresPayload(payloadSize: nat)
    ensures RequestBodyLength(RequestFields(payloadSize)) == Some(payloadSize)
  {
    var fields := RequestFields(payloadSize);
    assert |HOST| == 4 && |CONNECTION| == 10 && |CONTENT_LENGTH| == 14;
    assert |Ascii("transfer-encoding")| == 17 && |Ascii("content-length")| == 14;
    forall f | f in fields
      ensures !Named(f, "transfer-encoding") && (Named(f, "content-length") ==> f.name == CONTENT_LENGTH)
    {
      assert |Lower(f.name)| == |f.name|;
    }
    DeclaredLengthIs(fields, payloadSize);
    if payloadSize > 0 {
      LengthOfDecimal(payloadSize);
      ContentLengthIsNamed();
      assert fields[1] in fields && Named(fields[1], "content-length");
    }
  }

  /** The request a benchmark connection sends is read back whole, whatever follows it on the connection. */
  lemma RequestReadsBack(payloadSize: nat, rest: octets)
    ensures ReadRequest(CreateHttpRequest(payloadSize) + rest) ==
            Some((RequestMessage(RequestLine(payloadSize), RequestFields(payloadSize), Payload(payloadSize)), rest))
  {
    hide RequestLine, RequestFields, FieldLines, ReadLine, ReadFields, RequestBodyLength;
    var line, fields, body := RequestLine(payloadSize), RequestFields(payloadSize), Payload(payloadSize);
    var content := body + rest;
    var head := FieldLines(fields) + CRLF + content;
    RequestLineIsClean(payloadSize);
    RequestFieldsAreClean(payloadSize);
    RequestDeclaresPayload(payloadSize);
    ReadLineOf(line, head);
    FieldLinesReadBack(fields, content);
    assert CreateHttpRequest(payloadSize) + rest == line + CRLF + head;
    assert content[..|body|] == body && content[|body|..] == rest;
  }

  /** Without a payload: a GET for the health document, with a host and a connection field. */
  lemma GetReadsBack(rest: octets)
    ensures ReadRequest(CreateHttpRequest(0) + rest) ==
            Some((RequestMessage(Ascii("GET /api/health HTTP/1.1"),
                                 [Field(Ascii("Host"), Ascii("localhost")), Field(Ascii("Connection"), Ascii("keep-alive"))],
                                 []), rest))
  {
    RequestReadsBack(0, rest);
    assert RequestFields(0) == [Field(Ascii("Host"), Ascii("localhost")), Field(Ascii("Connection"), Ascii("keep-alive"))];
    assert Payload(0) == [];
  }

  /** With one: a POST that declares its length, with as many letters x. */
  lemma PostReadsBack(payloadSize: nat, payload: octets, rest: octets)
    requires 0 < payloadSize == |payload| && forall i :: 0 <= i < payloadSize ==> payload[i] == 'x' as int
    ensures ReadRequest(CreateHttpRequest(payloadSize) + rest) ==
            Some((RequestMessage(Ascii("POST /api/data HTTP/1.1"),
                                 [Field(Ascii("Host"), Ascii("localhost")),
                                  Field(Ascii("Content-Length"), Decimal(payloadSize)),
                                  Field(Ascii("Connection"), Ascii("keep-alive"))],
                                 payload), rest))
  {
    RequestReadsBack(payloadSize, rest);
    assert RequestFields(payloadSize) == [Field(Ascii("Host"), Ascii("localhost")),
                                          Field(Ascii("Content-Length"), Decimal(payloadSize)),
                                          Field(Ascii("Connection"), Ascii("keep-alive"))];
    assert Payload(payloadSize) == payload;
  }

  function Repeat<T>(s: seq<T>, k: nat): seq<T> {
    if k == 0 then [] else s + Repeat(s, k - 1)
  }

  lemma {:induction false} RepeatReadsBack(request: octets, message: RequestMessage, k: nat)
    requires request != [] && forall rest :: ReadRequest(request + rest) == Some((message, rest))
    ensures ReadRequests(Repeat(request, k)) == Some(Repeat([message], k))
  {
    hide ReadRequest;
    if k > 0 {
      RepeatReadsBack(request, message, k - 1);
      assert Repeat(request, k) == request + Repeat(request, k - 1);
    }
  }

  /** A connection that sends `k` requests back to back has sent exactly `k` requests. */
  lemma RequestStreamReadsBack(payloadSize: nat, k: nat)
    ensures ReadRequests(Repeat(CreateHttpRequest(payloadSize), k)) ==
            Some(Repeat([RequestMessage(RequestLine(payloadSize), RequestFields(payloadSize), Payload(payloadSize))], k))
  {
    var message := RequestMessage(RequestLine(payloadSize), RequestFields(payloadSize), Payload(payloadSize));
    forall rest
      ensures ReadRequest(CreateHttpRequest(payloadSize) + rest) == Some((message, rest))
    {
      RequestReadsBack(payloadSize, rest);
    }
    RepeatReadsBack(CreateHttpRequest(payloadSize), message, k);
  }
}
