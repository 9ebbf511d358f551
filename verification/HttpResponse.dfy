/** src/http/response.rs: responses, their builders and their serialization. */
module HttpResponses {
  import opened Wrappers
  import opened Octets

  type u16 = x: int | 0 <= x < 0x1_0000

  function StatusText(code: u16): string {
    match code
    case 200 => "OK"
    case 201 => "Created"
    case 204 => "No Content"
    case 301 => "Moved Permanently"
    case 302 => "Found"
    case 304 => "Not Modified"
    case 400 => "Bad Request"
    case 401 => "Unauthorized"
    case 403 => "Forbidden"
    case 404 => "Not Found"
    case 405 => "Method Not Allowed"
    case 408 => "Request Timeout"
    case 413 => "Payload Too Large"
    case 414 => "URI Too Long"
    case 500 => "Internal Server Error"
    case 501 => "Not Implemented"
    case 502 => "Bad Gateway"
    case 503 => "Service Unavailable"
    case 504 => "Gateway Timeout"
    case _ => "Unknown"
  }

  function StatusTextForCode(code: u16): octets {
    Ascii(StatusText(code))
  }

  const CONTENT_LENGTH := Ascii("Content-Length")
  const CONTENT_TYPE := Ascii("Content-Type")

  /** The value of a response object. */
  datatype Response = Response(statusCode: u16, statusText: octets, headers: map<octets, octets>, body: octets) {
    function WithHeader(name: octets, value: octets): Response {
      this.(headers := headers[name := value])
    }

    function WithBody(content: octets): Response {
      this.(body := content).WithHeader(CONTENT_LENGTH, Decimal(|content|))
    }

    function WithTypedBody(contentType: string, content: octets): Response {
      WithHeader(CONTENT_TYPE, Ascii(contentType)).WithBody(content)
    }
  }

  function NewResponse(code: u16): Response {
    Response(code, StatusTextForCode(code),
             map[Ascii("Server") := Ascii("RustKernelEngine/0.1"), Ascii("Connection") := Ascii("keep-alive")], [])
  }

  // ---------- serialization ----------

  /** `order` lists every key once: one of the orders in which a hash map may be iterated. */
  ghost predicate IsOrder(order: seq<octets>, keys: set<octets>) {
    && (forall i, j :: 0 <= i < j < |order| ==> order[i] != order[j])
    && (forall k :: k in order <==> k in keys)
  }

  function HeaderLine(name: octets, value: octets): octets {
    name + Ascii(": ") + value + CRLF
  }

  function HeaderLines(headers: map<octets, octets>, order: seq<octets>): octets
    requires forall k :: k in order ==> k in headers
  {
    if order == [] then [] else HeaderLine(order[0], headers[order[0]]) + HeaderLines(headers, order[1..])
  }

  lemma {:induction false} HeaderLinesAppend(headers: map<octets, octets>, a: seq<octets>, b: seq<octets>)
    requires forall k :: k in a + b ==> k in headers
    requires forall k :: k in a ==> k in headers
    requires forall k :: k in b ==> k in headers
    ensures HeaderLines(headers, a + b) == HeaderLines(headers, a) + HeaderLines(headers, b)
  {
    if a == [] {
      assert a + b == b;
    } else {
      assert (a + b)[1..] == a[1..] + b;
      HeaderLinesAppend(headers, a[1..], b);
    }
  }

  function StatusLine(r: Response): octets {
    Ascii("HTTP/1.1 ") + Decimal(r.statusCode) + [SP] + r.statusText
  }

  function Serialize(r: Response, order: seq<octets>): octets
    requires forall k :: k in order ==> k in r.headers
  {
    StatusLine(r) + CRLF + (HeaderLines(r.headers, order) + CRLF + r.body)
  }

  /** Taking key number `i` out of an order of `keys` leaves an order of the other keys. */
  lemma OrderWithout(order: seq<octets>, keys: set<octets>, i: nat)
    requires IsOrder(order, keys) && i < |order|
    ensures IsOrder(order[..i] + order[i + 1..], keys - {order[i]})
  {
    var a, b := order[..i], order[i + 1..];
    assert order == a + [order[i]] + b;
  }

  lemma HeaderSizeWithout(headers: map<octets, octets>, order: seq<octets>, i: nat)
    requires i < |order| && forall k :: k in order ==> k in headers
    ensures forall k :: k in order[..i] + order[i + 1..] ==> k in headers
    ensures |HeaderLines(headers, order)| ==
            |HeaderLine(order[i], headers[order[i]])| + |HeaderLines(headers, order[..i] + order[i + 1..])|
  {
    var a, b := order[..i], order[i + 1..];
    assert order == a + order[i..] && order[i..][1..] == b;
    HeaderLinesAppend(headers, a, order[i..]);
    HeaderLinesAppend(headers, a, b);
  }

  lemma {:induction false} HeaderSizeIgnoresOrder(headers: map<octets, octets>, keys: set<octets>,
                                                  o1: seq<octets>, o2: seq<octets>)
    requires keys <= headers.Keys && IsOrder(o1, keys) && IsOrder(o2, keys)
    ensures |HeaderLines(headers, o1)| == |HeaderLines(headers, o2)|
    decreases |o1|
  {
    assert |o2| > 0 ==> o2[0] in o1;
    if o1 != [] {
      assert o1[0] in o2;
      var i :| 0 <= i < |o2| && o2[i] == o1[0];
      OrderWithout(o1, keys, 0);
      OrderWithout(o2, keys, i);
      assert o1[..0] + o1[1..] == o1[1..];
      HeaderSizeIgnoresOrder(headers, keys - {o1[0]}, o1[1..], o2[..i] + o2[i + 1..]);
      HeaderSizeWithout(headers, o2, i);
    }
  }

  /** `size` is well defined: the length of the serialized response does not depend on header order. */
  lemma SizeIgnoresHeaderOrder(r: Response, o1: seq<octets>, o2: seq<octets>)
    requires IsOrder(o1, r.headers.Keys) && IsOrder(o2, r.headers.Keys)
    ensures |Serialize(r, o1)| == |Serialize(r, o2)|
  {
    HeaderSizeIgnoresOrder(r.headers, r.headers.Keys, o1, o2);
  }

  // ---------- the mutable object ----------

  class HttpResponse {
    var statusCode: u16
    var statusText: octets
    var headers: map<octets, octets>
    var body: octets

    function View(): Response
      reads this
    {
      Response(statusCode, statusText, headers, body)
    }

    constructor (code: u16)
      ensures View() == NewResponse(code)
    {
      statusCode := code;
      statusText := StatusTextForCode(code);
      headers := map[Ascii("Server") := Ascii("RustKernelEngine/0.1"), Ascii("Connection") := Ascii("keep-alive")];
      body := [];
    }

    static method Ok() returns (r: HttpResponse)
      ensures fresh(r) && r.View() == NewResponse(200)
    {
      r := new HttpResponse(200);
    }

    static method NotFound() returns (r: HttpResponse)
      ensures fresh(r) && r.View() == NewResponse(404).WithBody(Ascii("404 Not Found"))
    {
      r := new HttpResponse(404);
      r.SetBody(Ascii("404 Not Found"));
    }

    static method InternalError() returns (r: HttpResponse)
      ensures fresh(r) && r.View() == NewResponse(500).WithBody(Ascii("500 Internal Server Error"))
    {
      r := new HttpResponse(500);
      r.SetBody(Ascii("500 Internal Server Error"));
    }

    static method BadRequest() returns (r: HttpResponse)
      ensures fresh(r) && r.View() == NewResponse(400).WithBody(Ascii("400 Bad Request"))
    {
      r := new HttpResponse(400);
      r.SetBody(Ascii("400 Bad Request"));
    }

    method SetBody(content: octets)
      modifies this
      ensures View() == old(View()).WithBody(content)
    {
      body := content;
      headers := headers[CONTENT_LENGTH := Decimal(|body|)];
    }

    /** `json` is the serialized value, or None when serialization fails: the object then stays as it is. */
    method Json(json: Option<octets>) returns (r: HttpResponse)
      modifies this
      ensures r == this
      ensures View() == if json.Some? then old(View()).WithTypedBody("application/json", json.value) else old(View())
    {
      if json.Some? {
        body := json.value;
        headers := headers[CONTENT_TYPE := Ascii("application/json")];
        headers := headers[CONTENT_LENGTH := Decimal(|body|)];
      }
      r := this;
    }

    method Html(html: octets) returns (r: HttpResponse)
      modifies this
      ensures r == this && View() == old(View()).WithTypedBody("text/html; charset=utf-8", html)
    {
      body := html;
      headers := headers[CONTENT_TYPE := Ascii("text/html; charset=utf-8")];
      headers := headers[CONTENT_LENGTH := Decimal(|body|)];
      r := this;
    }

    method Text(text: octets) returns (r: HttpResponse)
      modifies this
      ensures r == this && View() == old(View()).WithTypedBody("text/plain; charset=utf-8", text)
    {
      body := text;
      headers := headers[CONTENT_TYPE := Ascii("text/plain; charset=utf-8")];
      headers := headers[CONTENT_LENGTH := Decimal(|body|)];
      r := this;
    }

    method WithHeader(name: octets, value: octets) returns (r: HttpResponse)
      modifies this
      ensures r == this && View() == old(View()).WithHeader(name, value)
    {
      headers := headers[name := value];
      r := this;
    }

    /** The header loop visits the map in an arbitrary order. */
    method ToBytes() returns (response: octets)
      ensures exists order: seq<octets> :: IsOrder(order, headers.Keys) && response == Serialize(View(), order)
    {
      response := Ascii("HTTP/1.1 ") + Decimal(statusCode) + [SP] + statusText + CRLF;
      var todo := headers.Keys;
      ghost var order := [];
      while todo != {}
        invariant todo <= headers.Keys
        invariant IsOrder(order, headers.Keys - todo)
        invariant response == StatusLine(View()) + CRLF + HeaderLines(headers, order)
        decreases |todo|
      {
        var name :| name in todo;
        HeaderLinesAppend(headers, order, [name]);
        response := response + HeaderLine(name, headers[name]);
        order := order + [name];
        todo := todo - {name};
      }
      response := response + CRLF;
      response := response + body;
      assert IsOrder(order, headers.Keys) && response == Serialize(View(), order);
    }
  }
}
