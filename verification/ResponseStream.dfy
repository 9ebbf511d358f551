/** What a reader makes of serialized responses, one alone and many back to back on a kept-alive connection. */
module ResponseStream {
  import opened Wrappers
  import opened Octets
  import opened HttpResponses
  import opened MessageReader

  function Listing(headers: map<octets, octets>, order: seq<octets>): (fields: seq<Field>)
    requires forall k :: k in order ==> k in headers
    ensures |fields| == |order|
  {
    seq(|order|, i requires 0 <= i < |order| => Field(order[i], headers[order[i]]))
  }

  function MessageOf(r: Response, order: seq<octets>): Message
    requires forall k :: k in order ==> k in r.headers
  {
    Message(r.statusCode, r.statusText, Listing(r.headers, order), r.body)
  }

  /** Free of delimiters: three status digits, token names, values without line breaks or outer whitespace. */
  ghost predicate Clean(r: Response) {
    && 100 <= r.statusCode <= 999
    && IsText(r.statusText)
    && CleanHeaders(r.headers)
  }

  ghost predicate CleanHeaders(headers: map<octets, octets>) {
    forall k :: k in headers ==> IsToken(k) && IsFieldValue(headers[k])
  }

  predicate IsKey(k: octets, name: string) {
    Lower(k) == Ascii(name)
  }

  /** Every Content-Length field, in any spelling, says how long the body is. */
  ghost predicate DeclaresBody(r: Response) {
    && (exists k :: k in r.headers && IsKey(k, "content-length"))
    && (forall k :: k in r.headers && IsKey(k, "content-length") ==> ParseLength(r.headers[k]) == Some(|r.body|))
  }

  /** The response says where it ends. */
  ghost predicate Framed(r: Response) {
    if NeverHasBody(r.statusCode) then r.body == []
    else DeclaresBody(r) && !exists k :: k in r.headers && IsKey(k, "transfer-encoding")
  }

  // ---------- one response ----------

  lemma {:induction false} HeaderLinesAreFieldLines(headers: map<octets, octets>, order: seq<octets>)
    requires forall k :: k in order ==> k in headers
    ensures HeaderLines(headers, order) == FieldLines(Listing(headers, order))
  {
    if order != [] {
      HeaderLinesAreFieldLines(headers, order[1..]);
      assert Listing(headers, order) == [Field(order[0], headers[order[0]])] + Listing(headers, order[1..]);
    }
  }

  lemma ReadFieldsOf(headers: map<octets, octets>, order: seq<octets>, rest: octets)
    requires CleanHeaders(headers) && forall k :: k in order ==> k in headers
    ensures ReadFields(HeaderLines(headers, order) + CRLF + rest) == Some((Listing(headers, order), rest))
  {
    HeaderLinesAreFieldLines(headers, order);
    FieldLinesReadBack(Listing(headers, order), rest);
  }

  lemma OneDigitIff(n: nat)
    ensures |Decimal(n)| == 1 <==> n < 10
  {
    assert n >= 10 ==> |Decimal(n / 10)| >= 1;
  }

  lemma TwoDigitsIff(n: nat)
    ensures |Decimal(n)| == 2 <==> 10 <= n <= 99
  {
    OneDigitIff(n / 10);
  }

  lemma ThreeDigitsIff(n: nat)
    ensures |Decimal(n)| == 3 <==> 100 <= n <= 999
  {
    TwoDigitsIff(n / 10);
  }

  lemma ReadStatusLineOf(r: Response)
    requires Clean(r)
    ensures ReadStatusLine(StatusLine(r)) == Some((r.statusCode, r.statusText))
    ensures NoLineBreak(StatusLine(r))
  {
    var line, version, digits := StatusLine(r), Ascii("HTTP/1.1 "), Decimal(r.statusCode);
    ThreeDigitsIff(r.statusCode);
    ParseDecimalInvertsDecimal(r.statusCode);
    assert line == version + digits + [SP] + r.statusText;
    assert line[..9] == version && line[9..12] == digits && line[12] == SP && line[13..] == r.statusText;
    assert NoLineBreak(version);
  }

  lemma ListingHas(headers: map<octets, octets>, order: seq<octets>, k: octets)
    requires (forall h :: h in order ==> h in headers) && k in order
    ensures Field(k, headers[k]) in Listing(headers, order)
  {
    var i :| 0 <= i < |order| && order[i] == k;
    assert Listing(headers, order)[i] == Field(k, headers[k]);
  }

  lemma FramedDecidesLength(r: Response, order: seq<octets>)
    requires IsOrder(order, r.headers.Keys)
    ensures ResponseBodyLength(r.statusCode, Listing(r.headers, order)) == Some(|r.body|) <==> Framed(r)
  {
    var fields := Listing(r.headers, order);
    DeclaredLengthIs(fields, |r.body|);
    assert forall f :: f in fields ==> f.name in r.headers && f.value == r.headers[f.name];
    forall k | k in r.headers
      ensures Field(k, r.headers[k]) in fields
    {
      ListingHas(r.headers, order, k);
    }
  }

  /** The reader gets as far as the content of a clean response; the fields decide what it makes of that. */
  lemma ReadResponseOf(r: Response, order: seq<octets>, content: octets)
    requires Clean(r) && IsOrder(order, r.headers.Keys)
    ensures ReadResponse(StatusLine(r) + CRLF + (HeaderLines(r.headers, order) + CRLF + content)) ==
            var n := ResponseBodyLength(r.statusCode, Listing(r.headers, order));
            if n.None? || n.value > |content| then None
            else Some((Message(r.statusCode, r.statusText, Listing(r.headers, order), content[..n.value]), content[n.value..]))
  {
    ReadStatusLineOf(r);
    ReadLineOf(StatusLine(r), HeaderLines(r.headers, order) + CRLF + content);
    ReadFieldsOf(r.headers, order, content);
  }

  /** Only a code of three digits can be followed by a space where a reader expects it. */
  lemma CodeHasThreeDigits(n: nat, line: octets)
    requires |line| > 12 && Decimal(n) + [SP] <= line[9..]
    requires IsDigit(line[9]) && IsDigit(line[10]) && IsDigit(line[11]) && line[12] == SP
    ensures 100 <= n <= 999
  {
    var d := Decimal(n);
    assert line[9..][|d|] == SP && forall i :: 0 <= i < |d| ==> line[9..][i] == d[i];
    assert line[9..][0] == line[9] && line[9..][1] == line[10] && line[9..][2] == line[11] && line[9..][3] == line[12];
    ThreeDigitsIff(n);
  }

  /** A response that is read back as itself has no delimiters where they do not belong. */
  lemma ReadBackIsClean(r: Response, order: seq<octets>, rest: octets)
    requires IsOrder(order, r.headers.Keys)
    requires ReadResponse(Serialize(r, order) + rest) == Some((MessageOf(r, order), rest))
    ensures Clean(r)
  {
    hide ReadResponse, Decimal, HeaderLines, IsText, IsToken, IsFieldValue;
    var s := Serialize(r, order) + rest;
    ReadResponseIsClean(s);
    var version := Ascii("HTTP/1.1 ");
    assert s[9..] == Decimal(r.statusCode) + [SP] + (r.statusText + CRLF + (HeaderLines(r.headers, order) + CRLF + r.body) + rest);
    CodeHasThreeDigits(r.statusCode, s);
    forall k | k in r.headers
      ensures IsToken(k) && IsFieldValue(r.headers[k])
    {
      ListingHas(r.headers, order, k);
      assert IsCleanField(Field(k, r.headers[k]));
    }
  }

  /**
   * Whatever follows it in the stream, a response is read back with its status, its header fields
   * in the order written and its body, and nothing of what follows is lost, exactly when it is free
   * of stray delimiters and framed.
   */
  lemma ReadsBackIff(r: Response, order: seq<octets>, rest: octets)
    requires IsOrder(order, r.headers.Keys)
    ensures ReadResponse(Serialize(r, order) + rest) == Some((MessageOf(r, order), rest)) <==> Clean(r) && Framed(r)
  {
    hide ReadResponse, Clean, Framed;
    if Clean(r) {
      CleanReadsBackIffFramed(r, order, rest);
    } else if ReadResponse(Serialize(r, order) + rest) == Some((MessageOf(r, order), rest)) {
      ReadBackIsClean(r, order, rest);
    }
  }

  lemma CleanReadsBackIffFramed(r: Response, order: seq<octets>, rest: octets)
    requires Clean(r) && IsOrder(order, r.headers.Keys)
    ensures ReadResponse(Serialize(r, order) + rest) == Some((MessageOf(r, order), rest)) <==> Framed(r)
  {
    var content := r.body + rest;
    assert Serialize(r, order) + rest == StatusLine(r) + CRLF + (HeaderLines(r.headers, order) + CRLF + content);
    ReadResponseOf(r, order, content);
    FramedDecidesLength(r, order);
    var n := ResponseBodyLength(r.statusCode, Listing(r.headers, order));
    if n == Some(|r.body|) {
      assert content[..|r.body|] == r.body && content[|r.body|..] == rest;
    }
  }

  // ---------- the header map comes back ----------

  function FieldMap(fields: seq<Field>): map<octets, octets> {
    if fields == [] then map[] else
      var last := fields[|fields| - 1];
      FieldMap(fields[..|fields| - 1])[last.name := last.value]
  }

  lemma {:induction false} FieldMapOfListing(headers: map<octets, octets>, order: seq<octets>)
    requires forall k :: k in order ==> k in headers
    ensures FieldMap(Listing(headers, order)) == map k | k in headers && k in order :: headers[k]
  {
    if order != [] {
      var shorter, last := order[..|order| - 1], order[|order| - 1];
      FieldMapOfListing(headers, shorter);
      assert order == shorter + [last];
      assert Listing(headers, order) == Listing(headers, shorter) + [Field(last, headers[last])];
      assert Listing(headers, order)[..|order| - 1] == Listing(headers, shorter);
    }
  }

  // ---------- many responses ----------

  /** A response together with the order in which `to_bytes` visited its headers. */
  datatype Sent = Sent(response: Response, order: seq<octets>) {
    ghost predicate HasOrder() {
      IsOrder(order, response.headers.Keys)
    }

    ghost function Bytes(): octets
      requires HasOrder()
    {
      Serialize(response, order)
    }

    ghost function Message(): Message
      requires HasOrder()
    {
      MessageOf(response, order)
    }
  }

  ghost predicate Ordered(sent: seq<Sent>) {
    forall s :: s in sent ==> s.HasOrder()
  }

  /** Delimiter-free, self-delimiting responses with their headers in some order. */
  ghost predicate Readable(sent: seq<Sent>) {
    Ordered(sent) && forall s :: s in sent ==> Clean(s.response) && Framed(s.response)
  }

  ghost function Wire(sent: seq<Sent>): octets
    requires Ordered(sent)
  {
    if sent == [] then [] else sent[0].Bytes() + Wire(sent[1..])
  }

  ghost function Messages(sent: seq<Sent>): (r: seq<Message>)
    requires Ordered(sent)
    ensures |r| == |sent|
  {
    if sent == [] then [] else [sent[0].Message()] + Messages(sent[1..])
  }

  /** Concatenated responses are split by the reader into exactly the responses that were sent. */
  lemma {:induction false} StreamReadsBack(sent: seq<Sent>)
    requires Readable(sent)
    ensures ReadResponses(Wire(sent)) == Some(Messages(sent))
  {
    if sent != [] {
      var first := sent[0];
      assert first in sent;
      ReadsBackIff(first.response, first.order, Wire(sent[1..]));
      StreamReadsBack(sent[1..]);
    }
  }

  /** A reader that ignores field order recovers the header map itself. */
  lemma HeadersReadBack(s: Sent)
    requires s.HasOrder()
    ensures FieldMap(s.Message().fields) == s.response.headers
  {
    FieldMapOfListing(s.response.headers, s.order);
  }

  lemma {:induction false} MessagesDetermineResponses(a: seq<Sent>, b: seq<Sent>)
    requires Ordered(a) && Ordered(b) && Messages(a) == Messages(b)
    ensures |a| == |b| && forall i :: 0 <= i < |a| ==> a[i].response == b[i].response
  {
    if a != [] {
      assert a[0] in a && b[0] in b;
      HeadersReadBack(a[0]);
      HeadersReadBack(b[0]);
      assert Messages(a)[0] == a[0].Message() && Messages(b)[0] == b[0].Message();
      assert Messages(a)[1..] == Messages(a[1..]) && Messages(b)[1..] == Messages(b[1..]);
      MessagesDetermineResponses(a[1..], b[1..]);
    }
  }

  /** The stream decodes uniquely: equal byte streams carry the same responses, whatever the header orders. */
  lemma StreamIsUnambiguous(a: seq<Sent>, b: seq<Sent>)
    requires Readable(a) && Readable(b) && Wire(a) == Wire(b)
    ensures |a| == |b| && forall i :: 0 <= i < |a| ==> a[i].response == b[i].response
  {
    StreamReadsBack(a);
    StreamReadsBack(b);
    MessagesDetermineResponses(a, b);
  }

  // ---------- writes that were cut short ----------

  /** Of each response, the first so many octets were written. */
  ghost predicate Fits(sent: seq<Sent>, taken: seq<nat>)
    requires Ordered(sent)
  {
    |taken| == |sent| && forall i :: 0 <= i < |sent| ==> taken[i] <= |sent[i].Bytes()|
  }

  ghost function Cut(sent: seq<Sent>, taken: seq<nat>): octets
    requires Ordered(sent) && Fits(sent, taken)
  {
    if sent == [] then [] else sent[0].Bytes()[..taken[0]] + Cut(sent[1..], taken[1..])
  }

  ghost predicate Whole(sent: seq<Sent>, taken: seq<nat>)
    requires Ordered(sent) && Fits(sent, taken)
  {
    forall i :: 0 <= i < |sent| ==> taken[i] == |sent[i].Bytes()|
  }

  lemma {:induction false} WholeCutIsWire(sent: seq<Sent>, taken: seq<nat>)
    requires Ordered(sent) && Fits(sent, taken) && Whole(sent, taken)
    ensures Cut(sent, taken) == Wire(sent)
  {
    if sent != [] {
      WholeCutIsWire(sent[1..], taken[1..]);
      assert sent[0].Bytes()[..taken[0]] == sent[0].Bytes();
    }
  }

  lemma {:induction false} CutAppend(sent: seq<Sent>, taken: seq<nat>, s: Sent, n: nat)
    requires Ordered(sent) && Fits(sent, taken) && s.HasOrder() && n <= |s.Bytes()|
    ensures Ordered(sent + [s]) && Fits(sent + [s], taken + [n])
    ensures Cut(sent + [s], taken + [n]) == Cut(sent, taken) + s.Bytes()[..n]
  {
    if sent == [] {
      assert (sent + [s])[1..] == [] && (taken + [n])[1..] == [];
    } else {
      assert (sent + [s])[1..] == sent[1..] + [s] && (taken + [n])[1..] == taken[1..] + [n];
      assert (sent + [s])[0] == sent[0];
      CutAppend(sent[1..], taken[1..], s, n);
    }
  }

  lemma ReadsBackAlone(s: Sent, rest: octets)
    requires s.HasOrder() && Clean(s.response) && Framed(s.response)
    ensures ReadResponse(s.Bytes()) == Some((s.Message(), []))
    ensures ReadResponse(s.Bytes() + rest) == Some((s.Message(), rest))
  {
    ReadsBackIff(s.response, s.order, []);
    ReadsBackIff(s.response, s.order, rest);
    assert s.Bytes() + [] == s.Bytes();
  }

  /** A reader that expects these messages but starts too late in their stream runs out of octets. */
  lemma {:induction false} LateReaderFails(sent: seq<Sent>, taken: seq<nat>, late: nat)
    requires Readable(sent) && Fits(sent, taken) && 0 < late <= |Cut(sent, taken)|
    ensures ReadResponses(Cut(sent, taken)[late..]) != Some(Messages(sent))
  {
    hide ReadResponse, ReadResponses, Clean, Framed, Serialize, IsOrder;
    var stream := Cut(sent, taken)[late..];
    if sent != [] && ReadResponses(stream) == Some(Messages(sent)) {
      var whole, more := sent[0].Bytes(), Cut(sent[1..], taken[1..]);
      assert sent[0] in sent;
      ReadResponsesFirst(stream, Messages(sent));
      var (m, rest) := ReadResponse(stream).value;
      if late < taken[0] {
        assert stream == whole[late..taken[0]] + more;
        ReadsBackAlone(sent[0], []);
        MessageDoesNotFit(whole, m, late, taken[0], more, rest);
      }
      ReadLeavesSuffix(stream);
      assert |rest| < |more| && rest == more[|more| - |rest|..];
      LateReaderFails(sent[1..], taken[1..], |more| - |rest|);
    }
  }

  lemma ReadLeavesSuffix(s: octets)
    requires ReadResponse(s).Some?
    ensures var rest := ReadResponse(s).value.1; |rest| < |s| && rest == s[|s| - |rest|..]
  {
    var line, head := ReadResponseSplits(s);
  }

  /** Responses that were written are read back, all of them and nothing else, exactly when each was written whole. */
  lemma {:induction false} CutReadsBackIffWhole(sent: seq<Sent>, taken: seq<nat>)
    requires Readable(sent) && Fits(sent, taken)
    ensures ReadResponses(Cut(sent, taken)) == Some(Messages(sent)) <==> Whole(sent, taken)
  {
    hide ReadResponse, ReadResponses, Clean, Framed, Serialize, IsOrder;
    if Whole(sent, taken) {
      WholeCutIsWire(sent, taken);
      StreamReadsBack(sent);
    } else {
      var first, whole, more := sent[0], sent[0].Bytes(), Cut(sent[1..], taken[1..]);
      assert first in sent;
      ReadsBackAlone(first, more);
      if ReadResponses(Cut(sent, taken)) == Some(Messages(sent)) {
        ReadResponsesFirst(Cut(sent, taken), Messages(sent));
        var (m, rest) := ReadResponse(Cut(sent, taken)).value;
        if taken[0] == |whole| {
          assert whole[..taken[0]] == whole;
          CutReadsBackIffWhole(sent[1..], taken[1..]);
        } else {
          assert whole[0..taken[0]] == whole[..taken[0]];
          MessageDoesNotFit(whole, m, 0, taken[0], more, rest);
          ReadLeavesSuffix(Cut(sent, taken));
          assert rest == more[|more| - |rest|..];
          LateReaderFails(sent[1..], taken[1..], |more| - |rest|);
        }
        assert false;
      }
    }
  }

  // ---------- builders ----------

  /** A name that cannot be taken for a framing field. */
  predicate IsHarmless(name: octets) {
    !IsKey(name, "content-length") && !IsKey(name, "transfer-encoding")
  }

  /** Delimiter-free, and no framing field under another spelling than `Content-Length`. */
  ghost predicate Plain(r: Response) {
    Clean(r) && forall k :: k in r.headers && k != CONTENT_LENGTH ==> IsHarmless(k)
  }

  /** The Content-Length field says how long the body is. */
  ghost predicate Sized(r: Response) {
    CONTENT_LENGTH in r.headers && r.headers[CONTENT_LENGTH] == Decimal(|r.body|)
  }

  lemma ContentLengthIsKey()
    ensures IsToken(CONTENT_LENGTH) && IsKey(CONTENT_LENGTH, "content-length")
    ensures !IsKey(CONTENT_LENGTH, "transfer-encoding")
  {
    NameTextIsToken("Content-Length");
    assert |CONTENT_LENGTH| == 14 && |Ascii("transfer-encoding")| == 17;
  }

  /** Setting a body sizes a response; setting any header but a framing one leaves it sized. */
  lemma BuildersKeepSize(r: Response, content: octets, name: octets, value: octets)
    requires Plain(r)
    ensures Plain(r.WithBody(content)) && Sized(r.WithBody(content))
    ensures IsToken(name) && IsFieldValue(value) && IsHarmless(name) ==>
              Plain(r.WithHeader(name, value)) && (Sized(r) ==> Sized(r.WithHeader(name, value)))
  {
    ContentLengthIsKey();
  }

  lemma SizedIsFramed(r: Response)
    requires Plain(r) && Sized(r) && !NeverHasBody(r.statusCode)
    ensures Framed(r)
  {
    LengthOfDecimal(|r.body|);
    ContentLengthIsKey();
  }

  lemma ShortNamesAreHarmless(name: octets)
    requires |name| < 14
    ensures IsHarmless(name)
  {
    assert |Lower(name)| == |name| && |Ascii("content-length")| == 14 && |Ascii("transfer-encoding")| == 17;
  }

  lemma LowStatusTextIsValueText(code: u16)
    requires code < 403
    ensures IsValueText(StatusText(code))
  {}

  lemma MiddleStatusTextIsValueText(code: u16)
    requires 403 <= code < 500
    ensures IsValueText(StatusText(code))
  {}

  lemma HighStatusTextIsValueText(code: u16)
    requires code >= 500
    ensures IsValueText(StatusText(code))
  {}

  lemma StatusTextIsValueText(code: u16)
    ensures IsValueText(StatusText(code))
  {
    hide StatusText;
    if code < 403 {
      LowStatusTextIsValueText(code);
    } else if code < 500 {
      MiddleStatusTextIsValueText(code);
    } else {
      HighStatusTextIsValueText(code);
    }
  }

  lemma ServerHeaderIsClean()
    ensures IsToken(Ascii("Server")) && IsFieldValue(Ascii("RustKernelEngine/0.1")) && IsHarmless(Ascii("Server"))
  {
    NameTextIsToken("Server");
    ValueTextIsFieldValue("RustKernelEngine/0.1");
    ShortNamesAreHarmless(Ascii("Server"));
  }

  lemma ConnectionHeaderIsClean()
    ensures IsToken(Ascii("Connection")) && IsFieldValue(Ascii("keep-alive")) && IsHarmless(Ascii("Connection"))
  {
    NameTextIsToken("Connection");
    ValueTextIsFieldValue("keep-alive");
    ShortNamesAreHarmless(Ascii("Connection"));
  }

  /** Every new response with a three-digit code is free of delimiters. */
  lemma NewResponseIsPlain(code: u16)
    requires 100 <= code <= 999
    ensures Plain(NewResponse(code))
  {
    hide StatusText, IsToken, IsFieldValue, IsHarmless;
    StatusTextIsValueText(code);
    StatusTextIsText(code);
    ServerHeaderIsClean();
    ConnectionHeaderIsClean();
    DefaultHeaders(code);
  }

  lemma DefaultHeaders(code: u16)
    ensures forall k :: k in NewResponse(code).headers ==> k == Ascii("Server") || k == Ascii("Connection")
    ensures forall k :: k in NewResponse(code).headers ==>
              NewResponse(code).headers[k] == if k == Ascii("Connection") then Ascii("keep-alive") else Ascii("RustKernelEngine/0.1")
  {}

  lemma StatusTextIsText(code: u16)
    ensures IsText(StatusTextForCode(code))
  {
    hide StatusText;
    StatusTextIsValueText(code);
    ValueTextIsFieldValue(StatusText(code));
  }

  lemma WithHeaderDeclaresIff(r: Response, name: octets, value: octets)
    requires DeclaresBody(r)
    ensures DeclaresBody(r.WithHeader(name, value)) <==>
            (IsKey(name, "content-length") ==> ParseLength(value) == Some(|r.body|))
  {
    hide IsKey, ParseLength;
    var k :| k in r.headers && IsKey(k, "content-length");
    assert k in r.WithHeader(name, value).headers && name in r.WithHeader(name, value).headers;
  }

  /**
   * The header map distinguishes spellings, a reader does not.  Setting a header of a framed
   * response keeps it framed exactly when the response never has a body, or the header is no
   * transfer coding and, if it is a length in whatever letters, says how long the body is.
   */
  lemma WithHeaderKeepsFramingIff(r: Response, name: octets, value: octets)
    requires Framed(r)
    ensures Framed(r.WithHeader(name, value)) <==>
            NeverHasBody(r.statusCode) ||
            (!IsKey(name, "transfer-encoding") && (IsKey(name, "content-length") ==> ParseLength(value) == Some(|r.body|)))
  {
    if !NeverHasBody(r.statusCode) {
      hide IsKey, ParseLength, DeclaresBody;
      assert name in r.WithHeader(name, value).headers;
      WithHeaderDeclaresIff(r, name, value);
    }
  }

  /** Setting a header of a response that is read back keeps it so exactly under these conditions. */
  lemma WithHeaderReadsBackIff(r: Response, name: octets, value: octets, order: seq<octets>, rest: octets)
    requires Clean(r) && Framed(r) && IsOrder(order, r.WithHeader(name, value).headers.Keys)
    ensures var r' := r.WithHeader(name, value);
            ReadResponse(Serialize(r', order) + rest) == Some((MessageOf(r', order), rest)) <==>
            IsToken(name) && IsFieldValue(value) &&
            (NeverHasBody(r.statusCode) ||
             (!IsKey(name, "transfer-encoding") && (IsKey(name, "content-length") ==> ParseLength(value) == Some(|r.body|))))
  {
    hide ReadResponse, Framed, IsToken, IsFieldValue, IsText, IsKey, ParseLength;
    var r' := r.WithHeader(name, value);
    assert name in r'.headers && r'.headers[name] == value;
    assert Clean(r') <==> IsToken(name) && IsFieldValue(value);
    WithHeaderKeepsFramingIff(r, name, value);
    ReadsBackIff(r', order, rest);
  }

  const LOWER_LENGTH := Ascii("content-length")

  /** The 404 response with a second length field in lower case, which says 0. */
  function Respelled(): Response {
    NewResponse(404).WithBody(Ascii("404 Not Found")).WithHeader(LOWER_LENGTH, Ascii("0"))
  }

  /** A reader rejects it, whatever the header order and whatever follows. */
  lemma RespelledLengthIsRejected(order: seq<octets>, rest: octets)
    requires IsOrder(order, Respelled().headers.Keys)
    ensures ReadResponse(Serialize(Respelled(), order) + rest) == None
  {
    hide Respelled, DeclaredLength, ReadResponse, ParseLength, IsKey;
    var r := Respelled();
    var content := r.body + rest;
    RespelledIsClean();
    RespelledLengths();
    ListingHas(r.headers, order, CONTENT_LENGTH);
    ListingHas(r.headers, order, LOWER_LENGTH);
    ConflictingLengths(Listing(r.headers, order), Field(CONTENT_LENGTH, r.headers[CONTENT_LENGTH]),
                       Field(LOWER_LENGTH, r.headers[LOWER_LENGTH]));
    assert Serialize(r, order) + rest == StatusLine(r) + CRLF + (HeaderLines(r.headers, order) + CRLF + content);
    ReadResponseOf(r, order, content);
  }

  lemma RespelledIsClean()
    ensures Clean(Respelled())
  {
    var plain := NewResponse(404).WithBody(Ascii("404 Not Found"));
    NewResponseIsPlain(404);
    BuildersKeepSize(NewResponse(404), Ascii("404 Not Found"), CONTENT_TYPE, []);
    NameTextIsToken("content-length");
    ValueTextIsFieldValue("0");
    assert forall k :: k in Respelled().headers ==> k == LOWER_LENGTH || k in plain.headers;
  }

  /** Two length fields that disagree. */
  lemma RespelledLengths()
    ensures CONTENT_LENGTH in Respelled().headers && LOWER_LENGTH in Respelled().headers
    ensures Lower(CONTENT_LENGTH) == Lower(LOWER_LENGTH) == Ascii("content-length")
    ensures !NeverHasBody(Respelled().statusCode)
    ensures ParseLength(Respelled().headers[CONTENT_LENGTH]) == Some(13)
    ensures ParseLength(Respelled().headers[LOWER_LENGTH]) == Some(0)
  {
    ContentLengthIsKey();
    assert CONTENT_LENGTH[0] == 67 && LOWER_LENGTH[0] == 99;
    LengthOfDecimal(13);
    LengthOfDecimal(0);
    assert |Ascii("404 Not Found")| == 13;
    assert Ascii("0") == Decimal(0);
  }

  /** A fresh `ok()` has no body length at all: nothing that follows it can be told apart. */
  lemma FreshOkIsNotFramed(order: seq<octets>, rest: octets)
    requires IsOrder(order, NewResponse(200).headers.Keys)
    ensures ReadResponse(Serialize(NewResponse(200), order) + rest) != Some((MessageOf(NewResponse(200), order), rest))
  {
    var r := NewResponse(200);
    NewResponseIsPlain(200);
    ReadsBackIff(r, order, rest);
    var server, connection := Ascii("Server"), Ascii("Connection");
    ShortNamesAreHarmless(server);
    ShortNamesAreHarmless(connection);
    assert forall k :: k in r.headers ==> k == server || k == connection;
  }
}
