/** src/http/parser.rs: the query string, the path and the header map of a request. */
module HttpRequests {
  import opened Wrappers
  import opened UrlDecoding

  /** `str::split`: always at least one piece. */
  function Split(s: string, sep: char): (pieces: seq<string>)
    ensures |pieces| >= 1
    decreases |s|
  {
    var i := IndexOf(s, sep);
    if i == |s| then [s] else [s[..i]] + Split(s[i + 1..], sep)
  }

  function DecodedOrEmpty(s: string): string {
    var d := Decoded(s);
    if d.None? then "" else d.value
  }

  /** What one piece of a query says: nothing without an equals sign. */
  function Pair(piece: string): Option<(string, string)> {
    var i := IndexOf(piece, '=');
    if i == |piece| then None else Some((DecodedOrEmpty(piece[..i]), DecodedOrEmpty(piece[i + 1..])))
  }

  function PairsToMap(pieces: seq<string>): map<string, string> {
    if pieces == [] then map[] else
      var m, p := PairsToMap(pieces[..|pieces| - 1]), Pair(pieces[|pieces| - 1]);
      if p.None? then m else m[p.value.0 := p.value.1]
  }

  function Params(path: string): map<string, string> {
    var i := IndexOf(path, '?');
    if i == |path| then map[] else PairsToMap(Split(path[i + 1..], '&'))
  }

  function LastWins(pairs: seq<(string, string)>): map<string, string> {
    if pairs == [] then map[] else
      LastWins(pairs[..|pairs| - 1])[pairs[|pairs| - 1].0 := pairs[|pairs| - 1].1]
  }

  datatype HttpRequest = HttpRequest(verb: string, path: string, headers: map<string, string>) {
    function CleanPath(): string {
      path[..IndexOf(path, '?')]
    }

    method QueryParams() returns (params: map<string, string>)
      ensures params == Params(path)
    {
      hide Decoded, Split;
      params := map[];
      var queryStart := IndexOf(path, '?');
      if queryStart < |path| {
        var pieces := Split(path[queryStart + 1..], '&');
        for k := 0 to |pieces|
          invariant params == PairsToMap(pieces[..k])
        {
          var piece := pieces[k];
          assert pieces[..k + 1][..k] == pieces[..k];
          var eqPos := IndexOf(piece, '=');
          if eqPos < |piece| {
            var key := Decode(piece[..eqPos]);
            var value := Decode(piece[eqPos + 1..]);
            params := params[(if key.Ok? then key.value.text else "") := if value.Ok? then value.value.text else ""];
          }
        }
        assert pieces[..|pieces|] == pieces;
      }
    }

    function GetHeader(name: string): Option<string> {
      if Lower(name) in headers then Some(headers[Lower(name)]) else None
    }
  }

  // ---------- the query round trip ----------

  function Join(pairs: seq<(string, string)>): string {
    if pairs == [] then ""
    else
      var first := pairs[0].0 + "=" + pairs[0].1;
      if |pairs| == 1 then first else first + "&" + Join(pairs[1..])
  }

  /** `es` holds an encoding of each key and value of `kvs`, with the delimiters escaped. */
  predicate EncodesAll(es: seq<(string, string)>, kvs: seq<(string, string)>) {
    && |es| == |kvs|
    && forall i :: 0 <= i < |es| ==> Encodes(es[i].0, kvs[i].0, {'&', '='}) && Encodes(es[i].1, kvs[i].1, {'&'})
  }

  function Pieces(es: seq<(string, string)>): (r: seq<string>)
    ensures |r| == |es|
  {
    seq(|es|, i requires 0 <= i < |es| => es[i].0 + "=" + es[i].1)
  }

  lemma SplitFirst(first: string, sep: char, rest: string)
    requires sep !in first
    ensures Split(first + [sep] + rest, sep) == [first] + Split(rest, sep)
  {
    var s := first + [sep] + rest;
    IndexOfFirst(first, sep, rest);
    assert s[..|first|] == first && s[|first| + 1..] == rest;
  }

  lemma PieceAvoidsSeparator(e: (string, string), kv: (string, string))
    requires Encodes(e.0, kv.0, {'&', '='}) && Encodes(e.1, kv.1, {'&'})
    ensures '&' !in e.0 + "=" + e.1
  {
    EncodingAvoidsReserved(e.0, kv.0, {'&', '='});
    EncodingAvoidsReserved(e.1, kv.1, {'&'});
    assert '&' in {'&', '='};
  }

  lemma {:induction false} SplitInvertsJoin(es: seq<(string, string)>, kvs: seq<(string, string)>)
    requires es != [] && EncodesAll(es, kvs)
    ensures Split(Join(es), '&') == Pieces(es)
  {
    var first := es[0].0 + "=" + es[0].1;
    PieceAvoidsSeparator(es[0], kvs[0]);
    if |es| == 1 {
      assert IndexOf(first, '&') == |first|;
    } else {
      SplitFirst(first, '&', Join(es[1..]));
      SplitInvertsJoin(es[1..], kvs[1..]);
      assert Pieces(es) == [first] + Pieces(es[1..]);
    }
  }

  lemma PairOfEncoding(e: (string, string), kv: (string, string))
    requires Encodes(e.0, kv.0, {'&', '='}) && Encodes(e.1, kv.1, {'&'})
    ensures Pair(e.0 + "=" + e.1) == Some(kv)
  {
    var piece := e.0 + "=" + e.1;
    EncodingAvoidsReserved(e.0, kv.0, {'&', '='});
    IndexOfFirst(e.0, '=', e.1);
    assert piece[..|e.0|] == e.0 && piece[|e.0| + 1..] == e.1;
    DecodingInvertsEncoding(e.0, kv.0, {'&', '='});
    DecodingInvertsEncoding(e.1, kv.1, {'&'});
  }

  lemma {:induction false} PairsToMapOfPieces(es: seq<(string, string)>, kvs: seq<(string, string)>)
    requires EncodesAll(es, kvs)
    ensures PairsToMap(Pieces(es)) == LastWins(kvs)
  {
    if es != [] {
      var n := |es| - 1;
      PairOfEncoding(es[n], kvs[n]);
      PairsToMapOfPieces(es[..n], kvs[..n]);
      assert Pieces(es)[..n] == Pieces(es[..n]);
    }
  }

  /**
   * Appending encoded pairs to a path loses neither: the path comes back from `clean_path`, and
   * `query_params` is the map of the pairs in which the last value of a repeated key wins.
   */
  lemma QueryRoundTrip(path: string, es: seq<(string, string)>, kvs: seq<(string, string)>, request: HttpRequest)
    requires '?' !in path && EncodesAll(es, kvs)
    requires request.path == path + "?" + Join(es)
    ensures request.CleanPath() == path
    ensures Params(request.path) == LastWins(kvs)
  {
    IndexOfFirst(path, '?', Join(es));
    assert request.path[..|path|] == path;
    assert request.path[|path| + 1..] == Join(es);
    PairsToMapOfPieces(es, kvs);
    if es != [] {
      SplitInvertsJoin(es, kvs);
    } else {
      assert PairsToMap([""]) == PairsToMap([""][..0]);
    }
  }

  // ---------- what the pieces mean ----------

  function JoinPieces(pieces: seq<string>, sep: char): string {
    if pieces == [] then "" else
      if |pieces| == 1 then pieces[0] else pieces[0] + [sep] + JoinPieces(pieces[1..], sep)
  }

  /** The pieces, with the separator between them, are the text, and none contains the separator. */
  lemma {:induction false} SplitTakesApart(s: string, sep: char)
    ensures JoinPieces(Split(s, sep), sep) == s
    ensures forall p :: p in Split(s, sep) ==> sep !in p
    decreases |s|
  {
    hide IndexOf, JoinPieces;
    var i := IndexOf(s, sep);
    if i < |s| {
      var first, rest := s[..i], s[i + 1..];
      SplitTakesApart(rest, sep);
      JoinOneMore(first, Split(rest, sep), sep);
      assert s == first + [sep] + rest;
      assert forall p :: p in Split(s, sep) ==> p == first || p in Split(rest, sep);
    } else {
      JoinOne(s, sep);
    }
  }

  lemma JoinOne(s: string, sep: char)
    ensures JoinPieces([s], sep) == s
  {}

  lemma JoinOneMore(first: string, rest: seq<string>, sep: char)
    requires rest != []
    ensures JoinPieces([first] + rest, sep) == first + [sep] + JoinPieces(rest, sep)
  {
    assert ([first] + rest)[1..] == rest;
  }

  /** The value of a key is that of its last pair. */
  lemma {:induction false} LastWinsMeans(pairs: seq<(string, string)>, key: string)
    ensures key in LastWins(pairs) <==> exists i :: 0 <= i < |pairs| && pairs[i].0 == key
    ensures key in LastWins(pairs) ==>
              exists i :: 0 <= i < |pairs| && pairs[i] == (key, LastWins(pairs)[key]) &&
                forall j :: i < j < |pairs| ==> pairs[j].0 != key
  {
    if pairs != [] {
      var n := |pairs| - 1;
      LastWinsMeans(pairs[..n], key);
      if pairs[n].0 == key {
        assert pairs[n] == (key, LastWins(pairs)[key]);
      } else if key in LastWins(pairs[..n]) {
        var i :| 0 <= i < n && pairs[..n][i] == (key, LastWins(pairs)[key]) && forall j :: i < j < n ==> pairs[..n][j].0 != key;
        assert pairs[i] == pairs[..n][i] && forall j :: i < j < n ==> pairs[j] == pairs[..n][j];
      }
    }
  }

  /** Without a question mark the path is whole and there are no parameters. */
  lemma PlainPathHasNoParams(request: HttpRequest)
    requires '?' !in request.path
    ensures request.CleanPath() == request.path && Params(request.path) == map[]
  {}

  /** A piece without an equals sign adds nothing. */
  lemma BarePieceIsDropped(pieces: seq<string>, piece: string)
    requires '=' !in piece
    ensures PairsToMap(pieces + [piece]) == PairsToMap(pieces)
  {
    assert (pieces + [piece])[..|pieces|] == pieces;
  }

  /** A key or a value that does not decode counts as empty; each side is decoded on its own. */
  lemma BrokenSideIsEmpty(pieces: seq<string>, key: string, value: string)
    requires '=' !in key
    ensures PairsToMap(pieces + [key + "=" + value]) ==
            PairsToMap(pieces)[(match Decoded(key) case Some(k) => k case None => "") :=
                               match Decoded(value) case Some(v) => v case None => ""]
  {
    hide Decoded;
    var piece := key + "=" + value;
    IndexOfFirst(key, '=', value);
    assert piece[..|key|] == key && piece[|key| + 1..] == value;
    assert (pieces + [piece])[..|pieces|] == pieces;
  }

  /** `?q=%` says that `q` is empty. */
  lemma BrokenEscapeIsEmpty()
    ensures Params("?q=%") == map["q" := ""]
  {
    var s := "?q=%";
    assert s == "" + ['?'] + "q=%" && s[1..] == "q=%";
    IndexOfFirst("", '?', "q=%");
    assert Split("q=%", '&') == ["q=%"];
    BrokenSideIsEmpty([], "q", "%");
    assert "q" + "=" + "%" == "q=%" && [] + ["q=%"] == ["q=%"];
    assert Decoded("q") == Some("q") by {
      assert "q"[1..] == [] && "q" == ['q'] + [];
    }
    assert Decoded("%") == None;
  }

  predicate AllLatin1(kvs: seq<(string, string)>) {
    forall i :: 0 <= i < |kvs| ==> IsLatin1(kvs[i].0) && IsLatin1(kvs[i].1)
  }

  function EncodePairs(kvs: seq<(string, string)>, lower: bool): (es: seq<(string, string)>)
    requires AllLatin1(kvs)
    ensures |es| == |kvs|
  {
    seq(|kvs|, i requires 0 <= i < |kvs| => (PercentEncode(kvs[i].0, lower), PercentEncode(kvs[i].1, lower)))
  }

  /** The standard encoder: any pairs over code points 0 to 255 survive. */
  lemma Latin1QueryRoundTrip(path: string, kvs: seq<(string, string)>, lower: bool, request: HttpRequest)
    requires '?' !in path && AllLatin1(kvs)
    requires request.path == path + "?" + Join(EncodePairs(kvs, lower))
    ensures request.CleanPath() == path && Params(request.path) == LastWins(kvs)
  {
    forall i | 0 <= i < |kvs|
      ensures Encodes(EncodePairs(kvs, lower)[i].0, kvs[i].0, {'&', '='})
      ensures Encodes(EncodePairs(kvs, lower)[i].1, kvs[i].1, {'&'})
    {
      PercentEncodeEncodes(kvs[i].0, lower, {'&', '='});
      PercentEncodeEncodes(kvs[i].1, lower, {'&'});
    }
    QueryRoundTrip(path, EncodePairs(kvs, lower), kvs, request);
  }

  // ---------- the header map ----------

  function LowerChar(c: char): char {
    if 'A' <= c <= 'Z' then (c as nat + 32) as char else c
  }

  /** `to_lowercase` on ASCII names. */
  function Lower(s: string): (r: string)
    ensures |r| == |s|
  {
    seq(|s|, i requires 0 <= i < |s| => LowerChar(s[i]))
  }

  function HeaderMap(lines: seq<(string, string)>): map<string, string> {
    if lines == [] then map[] else
      var m, line := HeaderMap(lines[..|lines| - 1]), lines[|lines| - 1];
      if line.0 == "" then m else m[Lower(line.0) := line.1]
  }

  /** The header loop of `parse`, over the name and value of each header line. */
  method CollectHeaders(lines: seq<(string, string)>) returns (headerMap: map<string, string>)
    ensures headerMap == HeaderMap(lines)
  {
    headerMap := map[];
    for k := 0 to |lines|
      invariant headerMap == HeaderMap(lines[..k])
    {
      assert lines[..k + 1][..k] == lines[..k];
      var (name, value) := lines[k];
      if name != "" {
        headerMap := headerMap[Lower(name) := value];
      }
    }
    assert lines[..|lines|] == lines;
  }

  /** The same letter but for its case, in ASCII. */
  predicate SameLetter(a: char, b: char) {
    || a == b
    || ('A' <= a <= 'Z' && b as nat == a as nat + 32)
    || ('A' <= b <= 'Z' && a as nat == b as nat + 32)
  }

  predicate SameLetters(a: string, b: string) {
    |a| == |b| && forall i :: 0 <= i < |a| ==> SameLetter(a[i], b[i])
  }

  lemma LowerIgnoresCaseOnly(a: string, b: string)
    ensures Lower(a) == Lower(b) <==> SameLetters(a, b)
  {
    assert forall i :: 0 <= i < |a| && i < |b| ==> (Lower(a)[i] == Lower(b)[i] <==> SameLetter(a[i], b[i]));
  }

  /** Lines with an empty name bear no name. */
  predicate SameName(a: string, b: string) {
    a != "" && SameLetters(a, b)
  }

  /** A header is found under any capitalization, and its value is that of the last line that bears its name. */
  lemma {:induction false} GetHeaderFindsLast(lines: seq<(string, string)>, name: string, request: HttpRequest)
    requires request.headers == HeaderMap(lines)
    ensures request.GetHeader(name).None? <==> forall i :: 0 <= i < |lines| ==> !SameName(lines[i].0, name)
    ensures request.GetHeader(name).Some? ==>
              exists i :: 0 <= i < |lines| && SameName(lines[i].0, name) && lines[i].1 == request.GetHeader(name).value &&
                forall j :: i < j < |lines| ==> !SameName(lines[j].0, name)
  {
    if lines != [] {
      var n := |lines| - 1;
      var earlier := request.(headers := HeaderMap(lines[..n]));
      GetHeaderFindsLast(lines[..n], name, earlier);
      LowerIgnoresCaseOnly(lines[n].0, name);
      if SameName(lines[n].0, name) {
        assert request.GetHeader(name) == Some(lines[n].1);
      } else {
        assert request.GetHeader(name) == earlier.GetHeader(name);
        if earlier.GetHeader(name).Some? {
          var i :| 0 <= i < n && SameName(lines[i].0, name) && lines[i].1 == request.GetHeader(name).value &&
            forall j :: i < j < n ==> !SameName(lines[..n][j].0, name);
          assert forall j :: i < j < |lines| ==> !SameName(lines[j].0, name);
        }
      }
    }
  }
}
