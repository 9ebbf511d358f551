/** src/worker/reactor.rs: the two request handlers, as producers of framed responses. */
module Handlers {
  import opened Wrappers
  import opened Octets
  import opened HttpRequests
  import opened HttpResponses
  import opened MessageReader
  import opened ResponseStream

  /** What the file system says about a path below the static directory. */
  datatype Lookup =
    | Missing
    | Unmappable
    | Mapped(content: octets, extension: Option<string>)

  datatype HandlerError = CannotMap | CannotEncode

  function ContentTypeFor(extension: string): string {
    match extension
    case "html" => "text/html"
    case "css" => "text/css"
    case "js" => "application/javascript"
    case "json" => "application/json"
    case "png" => "image/png"
    case "jpg" => "image/jpeg"
    case "jpeg" => "image/jpeg"
    case _ => "application/octet-stream"
  }

  /** `&path[1..]` needs a first character of one byte. */
  predicate IsSliceable(path: string) {
    path != "" && path[0] as nat < 128
  }

  function NotFoundResponse(): Response {
    NewResponse(404).WithBody(Ascii("404 Not Found"))
  }

  function FileResponse(content: octets, extension: Option<string>): Response {
    var r := NewResponse(200).WithBody(content);
    if extension.None? then r else r.WithHeader(CONTENT_TYPE, Ascii(ContentTypeFor(extension.value)))
  }

  function StaticResponse(found: Lookup): Response {
    if found.Mapped? then FileResponse(found.content, found.extension) else NotFoundResponse()
  }

  method HandleStaticFile(request: HttpRequest, files: string -> Lookup) returns (r: Result<HttpResponse, HandlerError>)
    requires IsSliceable(request.CleanPath())
    ensures r.Err? <==> files(request.CleanPath()[1..]).Unmappable?
    ensures r.Ok? ==> fresh(r.value) && r.value.View() == StaticResponse(files(request.CleanPath()[1..]))
  {
    var path := request.CleanPath();
    var found := files(path[1..]);
    if found.Missing? {
      var response := HttpResponse.NotFound();
      return Ok(response);
    }
    if found.Unmappable? {
      return Err(CannotMap);
    }
    var response := HttpResponse.Ok();
    response.SetBody(found.content);
    if found.extension.Some? {
      response := response.WithHeader(CONTENT_TYPE, Ascii(ContentTypeFor(found.extension.value)));
    }
    r := Ok(response);
  }

  /** `health`, `metrics` and `stats` are the encoded documents; the metrics encoder may fail. */
  method HandleDynamic(request: HttpRequest, health: octets, metrics: Option<octets>, stats: octets)
      returns (r: Result<HttpResponse, HandlerError>)
    ensures r.Err? <==> request.verb == "GET" && request.CleanPath() == "/api/metrics" && metrics.None?
    ensures r.Ok? ==> fresh(r.value) && r.value.View() == DynamicResponse(request, health, metrics, stats)
  {
    var path := request.CleanPath();
    if request.verb == "GET" && path == "/api/health" {
      var response := HttpResponse.Ok();
      response := response.Json(Some(health));
      r := Ok(response);
    } else if request.verb == "GET" && path == "/api/metrics" {
      if metrics.None? {
        return Err(CannotEncode);
      }
      var response := HttpResponse.Ok();
      response := response.WithHeader(CONTENT_TYPE, Ascii("text/plain; version=0.0.4"));
      response := response.Text(metrics.value);
      r := Ok(response);
    } else if request.verb == "GET" && path == "/api/stats" {
      var response := HttpResponse.Ok();
      response := response.Json(Some(stats));
      r := Ok(response);
    } else {
      var response := HttpResponse.NotFound();
      r := Ok(response);
    }
  }

  /** The metrics document goes out as `text/plain; charset=utf-8`: `text` replaces the type set before it. */
  function DynamicResponse(request: HttpRequest, health: octets, metrics: Option<octets>, stats: octets): Response {
    if request.verb != "GET" then NotFoundResponse()
    else if request.CleanPath() == "/api/health" then NewResponse(200).WithTypedBody("application/json", health)
    else if request.CleanPath() == "/api/metrics" && metrics.Some? then
      NewResponse(200).WithTypedBody("text/plain; charset=utf-8", metrics.value)
    else if request.CleanPath() == "/api/stats" then NewResponse(200).WithTypedBody("application/json", stats)
    else NotFoundResponse()
  }

  // ---------- every handler response is framed ----------

  /** Delimits itself and survives a reader, whatever its body. */
  ghost predicate IsReadable(r: Response) {
    Clean(r) && Framed(r)
  }

  lemma BodyMakesReadable(r: Response, content: octets)
    requires Plain(r) && !NeverHasBody(r.statusCode)
    ensures Plain(r.WithBody(content)) && Sized(r.WithBody(content)) && IsReadable(r.WithBody(content))
  {
    BuildersKeepSize(r, content, CONTENT_TYPE, []);
    SizedIsFramed(r.WithBody(content));
  }

  lemma ContentTypeIsHarmless(r: Response, value: string)
    requires Plain(r) && IsValueText(value)
    ensures Plain(r.WithHeader(CONTENT_TYPE, Ascii(value)))
    ensures Sized(r) ==> Sized(r.WithHeader(CONTENT_TYPE, Ascii(value)))
  {
    NameTextIsToken("Content-Type");
    ValueTextIsFieldValue(value);
    ShortNamesAreHarmless(CONTENT_TYPE);
    BuildersKeepSize(r, [], CONTENT_TYPE, Ascii(value));
  }

  lemma ContentTypeForIsValueText(extension: string)
    ensures IsValueText(ContentTypeFor(extension))
  {}

  lemma FileResponseIsReadable(content: octets, extension: Option<string>)
    ensures IsReadable(FileResponse(content, extension))
  {
    var r := NewResponse(200).WithBody(content);
    NewResponseIsPlain(200);
    BodyMakesReadable(NewResponse(200), content);
    if extension.Some? {
      var value := ContentTypeFor(extension.value);
      ContentTypeForIsValueText(extension.value);
      ContentTypeIsHarmless(r, value);
      SizedIsFramed(r.WithHeader(CONTENT_TYPE, Ascii(value)));
    }
  }

  lemma TypedResponseIsReadable(contentType: string, content: octets)
    requires IsValueText(contentType)
    ensures IsReadable(NewResponse(200).WithTypedBody(contentType, content))
  {
    NewResponseIsPlain(200);
    ContentTypeIsHarmless(NewResponse(200), contentType);
    BodyMakesReadable(NewResponse(200).WithHeader(CONTENT_TYPE, Ascii(contentType)), content);
  }

  lemma ErrorResponsesAreReadable()
    ensures IsReadable(NotFoundResponse())
    ensures IsReadable(NewResponse(400).WithBody(Ascii("400 Bad Request")))
  {
    NewResponseIsPlain(404);
    NewResponseIsPlain(400);
    BodyMakesReadable(NewResponse(404), Ascii("404 Not Found"));
    BodyMakesReadable(NewResponse(400), Ascii("400 Bad Request"));
  }

  lemma DynamicResponseIsReadable(request: HttpRequest, health: octets, metrics: Option<octets>, stats: octets)
    ensures IsReadable(DynamicResponse(request, health, metrics, stats))
  {
    ErrorResponsesAreReadable();
    JsonResponseIsReadable(health);
    JsonResponseIsReadable(stats);
    if metrics.Some? {
      TextResponseIsReadable(metrics.value);
    }
  }

  lemma JsonResponseIsReadable(content: octets)
    ensures IsReadable(NewResponse(200).WithTypedBody("application/json", content))
  {
    TypedResponseIsReadable("application/json", content);
  }

  lemma TextResponseIsReadable(content: octets)
    ensures IsReadable(NewResponse(200).WithTypedBody("text/plain; charset=utf-8", content))
  {
    TypedResponseIsReadable("text/plain; charset=utf-8", content);
  }

  lemma StaticResponseIsReadable(found: Lookup)
    ensures IsReadable(StaticResponse(found))
  {
    ErrorResponsesAreReadable();
    if found.Mapped? {
      FileResponseIsReadable(found.content, found.extension);
    }
  }
}
