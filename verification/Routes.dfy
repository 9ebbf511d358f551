/** src/worker/reactor.rs and src/http/response.rs: what a reader finds in the responses of the handlers. */
module Routes {
  import opened Wrappers
  import opened Octets
  import opened UrlDecoding
  import opened HttpRequests
  import opened HttpResponses
  import opened MessageReader
  import opened ResponseStream
  import opened Handlers

  /**
   * In whatever order its headers are written and whatever follows it, the response is read with
   * this status, reason and body and with exactly these fields, each once.
   */
  ghost predicate ReadsAs(r: Response, status: nat, reason: string, fields: map<octets, octets>, body: octets) {
    forall order: seq<octets>, rest: octets :: IsOrder(order, r.headers.Keys) ==>
      IsReadAs(ReadResponse(Serialize(r, order) + rest), rest, status, reason, fields, body)
  }

  ghost predicate IsReadAs(read: Option<(Message, octets)>, rest: octets, status: nat, reason: string,
                           fields: map<octets, octets>, body: octets) {
    && read.Some? && read.value.1 == rest
    && var m := read.value.0;
       && m.status == status && m.reason == Ascii(reason) && m.body == body
       && FieldMap(m.fields) == fields
       && forall i, j :: 0 <= i < j < |m.fields| ==> m.fields[i].name != m.fields[j].name
  }

  lemma ReadableReadsAs(r: Response, reason: string)
    requires IsReadable(r) && r.statusText == Ascii(reason)
    ensures ReadsAs(r, r.statusCode, reason, r.headers, r.body)
  {
    hide ReadResponse, Serialize, Clean, Framed, FieldMap, Ascii;
    forall order: seq<octets>, rest: octets | IsOrder(order, r.headers.Keys)
      ensures IsReadAs(ReadResponse(Serialize(r, order) + rest), rest, r.statusCode, reason, r.headers, r.body)
    {
      ReadsBackIff(r, order, rest);
      HeadersReadBack(Sent(r, order));
      assert MessageOf(r, order) == Sent(r, order).Message();
    }
  }

  // ---------- reason phrases ----------

  /** Section 6.1 of RFC 7231, and section 3.1 of RFC 7235 for 401. */
  const REASONS: seq<(u16, string)> := [
    (200, "OK"), (201, "Created"), (204, "No Content"), (301, "Moved Permanently"), (302, "Found"),
    (304, "Not Modified"), (400, "Bad Request"), (401, "Unauthorized"), (403, "Forbidden"), (404, "Not Found"),
    (405, "Method Not Allowed"), (408, "Request Timeout"), (413, "Payload Too Large"), (414, "URI Too Long"),
    (500, "Internal Server Error"), (501, "Not Implemented"), (502, "Bad Gateway"), (503, "Service Unavailable"),
    (504, "Gateway Timeout")]

  lemma ReasonIsListed(code: u16, i: nat)
    requires i < |REASONS| && REASONS[i].0 == code
    ensures StatusText(code) == REASONS[i].1
  {}

  lemma OtherCodesAreUnknown(code: u16)
    requires forall i :: 0 <= i < |REASONS| ==> REASONS[i].0 != code
    ensures StatusText(code) == "Unknown"
  {
    assert |REASONS| == 19;
    assert REASONS[0].0 == 200 && REASONS[1].0 == 201 && REASONS[2].0 == 204 && REASONS[3].0 == 301 && REASONS[4].0 == 302;
    assert REASONS[5].0 == 304 && REASONS[6].0 == 400 && REASONS[7].0 == 401 && REASONS[8].0 == 403 && REASONS[9].0 == 404;
    assert REASONS[10].0 == 405 && REASONS[11].0 == 408 && REASONS[12].0 == 413 && REASONS[13].0 == 414;
    assert REASONS[14].0 == 500 && REASONS[15].0 == 501 && REASONS[16].0 == 502 && REASONS[17].0 == 503 && REASONS[18].0 == 504;
  }

  /** A new response says its code and the reason that belongs to it. */
  lemma NewResponseSaysReason(code: u16, i: nat)
    requires i < |REASONS| && REASONS[i].0 == code
    ensures ReadStatusLine(StatusLine(NewResponse(code))) == Some((code as nat, Ascii(REASONS[i].1)))
  {
    hide StatusText, Clean, ReadStatusLine, StatusLine, Plain;
    assert 100 <= code <= 999;
    ReasonIsListed(code, i);
    NewResponseIsPlain(code);
    PlainIsClean(NewResponse(code));
    ReadStatusLineOf(NewResponse(code));
  }

  lemma PlainIsClean(r: Response)
    requires Plain(r)
    ensures Clean(r)
  {}

  // ---------- header fields ----------

  /** The fields of every response with a body. */
  function SizedFields(length: octets): map<octets, octets> {
    map[Ascii("Server") := Ascii("RustKernelEngine/0.1"), Ascii("Connection") := Ascii("keep-alive"),
        Ascii("Content-Length") := length]
  }

  function TypedFields(contentType: string, length: octets): map<octets, octets> {
    SizedFields(length)[Ascii("Content-Type") := Ascii(contentType)]
  }

  lemma BodySetsFields(code: u16, content: octets)
    ensures NewResponse(code).WithBody(content).headers == SizedFields(Decimal(|content|))
    ensures NewResponse(code).WithBody(content).body == content
    ensures NewResponse(code).WithBody(content).statusCode == code
  {}

  lemma TypedBodySetsFields(code: u16, contentType: string, content: octets)
    ensures NewResponse(code).WithTypedBody(contentType, content).headers == TypedFields(contentType, Decimal(|content|))
    ensures NewResponse(code).WithBody(content).WithHeader(CONTENT_TYPE, Ascii(contentType)).headers ==
            TypedFields(contentType, Decimal(|content|))
    ensures NewResponse(code).WithTypedBody(contentType, content).body == content
    ensures NewResponse(code).WithTypedBody(contentType, content).statusCode == code
  {
    var length := Decimal(|content|);
    var initial := NewResponse(code).headers;
    BodySetsFields(code, content);
    assert initial[CONTENT_LENGTH := length] == SizedFields(length);
    assert |CONTENT_TYPE| == 12 && |CONTENT_LENGTH| == 14;
    hide NewResponse, SizedFields, Ascii, Decimal;
    UpdatesCommute(initial, CONTENT_TYPE, Ascii(contentType), CONTENT_LENGTH, length);
  }

  lemma UpdatesCommute(m: map<octets, octets>, a: octets, x: octets, b: octets, y: octets)
    requires a != b
    ensures m[a := x][b := y] == m[b := y][a := x]
  {}

  // ---------- errors ----------

  lemma TwoDigits(n: nat)
    requires 10 <= n < 100
    ensures Decimal(n) == [48 + n / 10, 48 + n % 10]
  {
    assert Decimal(n / 10) == [48 + n / 10];
  }

  lemma ErrorTextLengths()
    ensures Decimal(|Ascii("404 Not Found")|) == Ascii("13")
    ensures Decimal(|Ascii("400 Bad Request")|) == Ascii("15")
    ensures Decimal(|Ascii("500 Internal Server Error")|) == Ascii("25")
  {
    TwoDigits(13);
    TwoDigits(15);
    TwoDigits(25);
  }

  lemma NotFoundReads()
    ensures ReadsAs(NotFoundResponse(), 404, "Not Found", SizedFields(Ascii("13")), Ascii("404 Not Found"))
  {
    hide ReadsAs, IsReadable, Decimal, Ascii;
    ErrorResponsesAreReadable();
    BodySetsFields(404, Ascii("404 Not Found"));
    ErrorTextLengths();
    assert StatusText(404) == "Not Found";
    ReadableReadsAs(NotFoundResponse(), "Not Found");
  }

  lemma BadRequestReads()
    ensures ReadsAs(NewResponse(400).WithBody(Ascii("400 Bad Request")), 400, "Bad Request", SizedFields(Ascii("15")),
                    Ascii("400 Bad Request"))
  {
    hide ReadsAs, IsReadable, Decimal, Ascii;
    ErrorResponsesAreReadable();
    BodySetsFields(400, Ascii("400 Bad Request"));
    ErrorTextLengths();
    assert StatusText(400) == "Bad Request";
    ReadableReadsAs(NewResponse(400).WithBody(Ascii("400 Bad Request")), "Bad Request");
  }

  lemma InternalErrorReads()
    ensures ReadsAs(NewResponse(500).WithBody(Ascii("500 Internal Server Error")), 500, "Internal Server Error",
                    SizedFields(Ascii("25")), Ascii("500 Internal Server Error"))
  {
    hide ReadsAs, IsReadable, Decimal, Ascii;
    NewResponseIsPlain(500);
    BodyMakesReadable(NewResponse(500), Ascii("500 Internal Server Error"));
    BodySetsFields(500, Ascii("500 Internal Server Error"));
    ErrorTextLengths();
    assert StatusText(500) == "Internal Server Error";
    ReadableReadsAs(NewResponse(500).WithBody(Ascii("500 Internal Server Error")), "Internal Server Error");
  }

  // ---------- static files ----------

  /** The types the server knows; any other extension is an octet stream. */
  const CONTENT_TYPES: seq<(string, string)> := [
    ("html", "text/html"), ("css", "text/css"), ("js", "application/javascript"), ("json", "application/json"),
    ("png", "image/png"), ("jpg", "image/jpeg"), ("jpeg", "image/jpeg")]

  lemma KnownType(i: nat)
    requires i < |CONTENT_TYPES|
    ensures ContentTypeFor(CONTENT_TYPES[i].0) == CONTENT_TYPES[i].1
  {
    assert ContentTypeFor("html") == "text/html" && ContentTypeFor("css") == "text/css";
    assert ContentTypeFor("js") == "application/javascript" && ContentTypeFor("json") == "application/json";
    assert ContentTypeFor("png") == "image/png";
    assert ContentTypeFor("jpg") == "image/jpeg" && ContentTypeFor("jpeg") == "image/jpeg";
    assert |CONTENT_TYPES| == 7;
  }

  lemma OtherTypesAreOctetStreams(extension: string)
    requires forall i :: 0 <= i < |CONTENT_TYPES| ==> CONTENT_TYPES[i].0 != extension
    ensures ContentTypeFor(extension) == "application/octet-stream"
  {
    assert CONTENT_TYPES[0].0 == "html" && CONTENT_TYPES[1].0 == "css" && CONTENT_TYPES[2].0 == "js";
    assert CONTENT_TYPES[3].0 == "json" && CONTENT_TYPES[4].0 == "png" && CONTENT_TYPES[5].0 == "jpg";
    assert CONTENT_TYPES[6].0 == "jpeg";
  }

  /** A missing file reads as 404; a mapped file as itself, typed by its extension if it has one. */
  lemma StaticRoutes(found: Lookup)
    requires !found.Unmappable?
    ensures found.Missing? ==>
              ReadsAs(StaticResponse(found), 404, "Not Found", SizedFields(Ascii("13")), Ascii("404 Not Found"))
    ensures found.Mapped? && found.extension.None? ==>
              ReadsAs(StaticResponse(found), 200, "OK", SizedFields(Decimal(|found.content|)), found.content)
    ensures found.Mapped? && found.extension.Some? ==>
              ReadsAs(StaticResponse(found), 200, "OK",
                      TypedFields(ContentTypeFor(found.extension.value), Decimal(|found.content|)), found.content)
  {
    hide ReadsAs, IsReadable, ContentTypeFor, TypedFields, SizedFields;
    NotFoundReads();
    if found.Mapped? {
      assert StatusText(200) == "OK";
      FileResponseIsReadable(found.content, found.extension);
      BodySetsFields(200, found.content);
      if found.extension.Some? {
        TypedBodySetsFields(200, ContentTypeFor(found.extension.value), found.content);
      }
      ReadableReadsAs(FileResponse(found.content, found.extension), "OK");
    }
  }

  // ---------- the API ----------

  lemma TypedReads(contentType: string, content: octets)
    requires IsValueText(contentType)
    ensures ReadsAs(NewResponse(200).WithTypedBody(contentType, content), 200, "OK",
                    TypedFields(contentType, Decimal(|content|)), content)
  {
    hide ReadsAs, IsReadable, IsValueText, TypedFields;
    assert StatusText(200) == "OK";
    TypedResponseIsReadable(contentType, content);
    TypedBodySetsFields(200, contentType, content);
    ReadableReadsAs(NewResponse(200).WithTypedBody(contentType, content), "OK");
  }

  /** Which document each route sends, and as what; everything else reads as 404. */
  lemma DynamicRoutes(request: HttpRequest, health: octets, metrics: Option<octets>, stats: octets)
    ensures var r := DynamicResponse(request, health, metrics, stats);
            var route := (request.verb, request.CleanPath());
            if route == ("GET", "/api/health") then
              ReadsAs(r, 200, "OK", TypedFields("application/json", Decimal(|health|)), health)
            else if route == ("GET", "/api/stats") then
              ReadsAs(r, 200, "OK", TypedFields("application/json", Decimal(|stats|)), stats)
            else if route == ("GET", "/api/metrics") && metrics.Some? then
              ReadsAs(r, 200, "OK", TypedFields("text/plain; charset=utf-8", Decimal(|metrics.value|)), metrics.value)
            else
              ReadsAs(r, 404, "Not Found", SizedFields(Ascii("13")), Ascii("404 Not Found"))
  {
    hide ReadsAs, TypedFields, SizedFields, IsValueText, NotFoundResponse;
    NotFoundReads();
    JsonIsValueText();
    PlainTextIsValueText();
    TypedReads("application/json", health);
    TypedReads("application/json", stats);
    if metrics.Some? {
      TypedReads("text/plain; charset=utf-8", metrics.value);
    }
    RoutesDiffer();
  }

  lemma JsonIsValueText()
    ensures IsValueText("application/json")
  {}

  lemma PlainTextIsValueText()
    ensures IsValueText("text/plain; charset=utf-8")
  {}

  lemma RoutesDiffer()
    ensures "/api/health" != "/api/stats" && "/api/health" != "/api/metrics" && "/api/stats" != "/api/metrics"
  {
    assert "/api/health"[5] == 'h' && "/api/stats"[5] == 's' && "/api/metrics"[5] == 'm';
  }

  // ---------- slicing a path ----------

  /**
   * `&path[1..]` is allowed exactly if the first octet of the path, in UTF-8, is a whole character;
   * it then drops that character.
   */
  lemma SliceableIff(path: string)
    ensures IsSliceable(path) <==> exists i :: 0 <= i <= |path| && |Utf8Octets(path[..i])| == 1
    ensures IsSliceable(path) ==> Utf8Octets(path) == Utf8Octets(path[..1]) + Utf8Octets(path[1..])
  {
    forall i: nat | i <= |path| && |Utf8Octets(path[..i])| == 1
      ensures IsSliceable(path)
    {
      assert |path[..i]| == i <= 1;
      if i == 1 {
        assert path[..1][1..] == [] && |Utf8Octets([])| == 0;
        assert path[..1][0] == path[0];
      }
    }
    if IsSliceable(path) {
      assert path[..1][1..] == [] && path[..1][0] == path[0] && Utf8Octets([]) == [];
      assert |Utf8Octets(path[..1])| == 1;
      assert Utf8(path[0]) + [] == Utf8(path[0]);
    }
  }
}
