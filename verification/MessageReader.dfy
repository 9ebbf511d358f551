/**
 * A reader of HTTP/1.1 messages, written from sections 2.1, 2.2, 3, 4, 5 and 6.3 of RFC 9112
 * (with the field syntax of sections 5.1, 5.5 and 5.6.2 of RFC 9110).  It is the independent
 * partner of the serializers: nothing in it refers to them.
 */
module MessageReader {
  import opened Wrappers
  import opened Octets

  datatype Field = Field(name: octets, value: octets)

  /** A response as its recipient sees it. */
  datatype Message = Message(status: nat, reason: octets, fields: seq<Field>, body: octets)

  /** A request as its recipient sees it; the request line is kept whole. */
  datatype RequestMessage = RequestMessage(line: octets, fields: seq<Field>, body: octets)

  // ---------- lines (sections 2.1 and 2.2) ----------

  /** The octets before the first CRLF, and those after it.  A bare CR or LF makes the line invalid. */
  function ReadLine(s: octets): (r: Option<(octets, octets)>)
    ensures r.Some? ==> |r.value.0| + 2 + |r.value.1| == |s|
  {
    if |s| < 2 || s[0] == LF then None
    else if s[0] == CR then if s[1] == LF then Some(([], s[2..])) else None
    else
      var r := ReadLine(s[1..]);
      if r.None? then None else Some(([s[0]] + r.value.0, r.value.1))
  }

  // ---------- field lines (section 5) ----------

  predicate IsTokenOctet(b: byte) {
    || IsDigit(b) || 65 <= b <= 90 || 97 <= b <= 122
    || b in {33, 35, 36, 37, 38, 39, 42, 43, 45, 46, 94, 95, 96, 124, 126}
  }

  predicate IsToken(s: octets) {
    s != [] && forall i :: 0 <= i < |s| ==> IsTokenOctet(s[i])
  }

  /** SP, HTAB, the visible ASCII characters and obs-text. */
  predicate IsText(s: octets) {
    forall i :: 0 <= i < |s| ==> s[i] == HTAB || (32 <= s[i] && s[i] != 127)
  }

  predicate IsOws(b: byte) {
    b == SP || b == HTAB
  }

  function TrimLeft(s: octets): octets {
    if s != [] && IsOws(s[0]) then TrimLeft(s[1..]) else s
  }

  function TrimRight(s: octets): octets {
    if s != [] && IsOws(s[|s| - 1]) then TrimRight(s[..|s| - 1]) else s
  }

  function ReadField(line: octets): Option<Field> {
    var i := IndexOf(line, COLON);
    if i == |line| then None else
      var value := TrimRight(TrimLeft(line[i + 1..]));
      if IsToken(line[..i]) && IsText(value) then Some(Field(line[..i], value)) else None
  }

  /** Field lines up to the empty line that ends the section, and what follows it. */
  function ReadFields(s: octets): (r: Option<(seq<Field>, octets)>)
    ensures r.Some? ==> |r.value.1| < |s|
    decreases |s|
  {
    var l := ReadLine(s);
    if l.None? then None
    else if l.value.0 == [] then Some(([], l.value.1))
    else
      var f, rest := ReadField(l.value.0), ReadFields(l.value.1);
      if f.None? || rest.None? then None else Some(([f.value] + rest.value.0, rest.value.1))
  }

  // ---------- body length (section 6.3) ----------

  predicate Named(f: Field, name: string) {
    Lower(f.name) == Ascii(name)
  }

  /** 1xx, 204 and 304 responses end with the header section. */
  predicate NeverHasBody(status: nat) {
    100 <= status < 200 || status == 204 || status == 304
  }

  /** The elements of a list that are not empty must be numbers and agree. */
  function ListLength(value: octets): (r: Option<Option<nat>>) {
    var i := IndexOf(value, COMMA);
    var element := TrimRight(TrimLeft(value[..i]));
    var rest := if i == |value| then Some(None) else ListLength(value[i + 1..]);
    if element == [] then rest
    else
      var n := ParseDecimal(element);
      if n.None? || rest.None? || (rest.value.Some? && rest.value != n) then None else Some(n)
  }

  /** A number, or a list in which the same number is repeated. */
  function ParseLength(value: octets): Option<nat> {
    var l := ListLength(value);
    if l.None? then None else l.value
  }

  /** All Content-Length fields must be valid and agree. */
  function DeclaredLength(fields: seq<Field>): (r: Option<Option<nat>>)
  {
    if fields == [] then Some(None)
    else if !Named(fields[0], "content-length") then DeclaredLength(fields[1..])
    else
      var n, rest := ParseLength(fields[0].value), DeclaredLength(fields[1..]);
      if n.None? || rest.None? || (rest.value.Some? && rest.value != n) then None else Some(n)
  }

  /** The length of a response body, or None when the message does not delimit itself. */
  function ResponseBodyLength(status: nat, fields: seq<Field>): Option<nat> {
    if NeverHasBody(status) then Some(0)
    else if exists f :: f in fields && Named(f, "transfer-encoding") then None
    else var d := DeclaredLength(fields); if d.None? then None else d.value
  }

  /** A request that declares no length has no body. */
  function RequestBodyLength(fields: seq<Field>): Option<nat> {
    if exists f :: f in fields && Named(f, "transfer-encoding") then None
    else
      var d := DeclaredLength(fields);
      if d.None? then None else if d.value.None? then Some(0) else d.value
  }

  // ---------- messages (sections 3, 4 and 2.1) ----------

  /** HTTP-version SP 3DIGIT SP reason-phrase. */
  function ReadStatusLine(line: octets): Option<(nat, octets)> {
    if |line| < 13 || line[..9] != Ascii("HTTP/1.1 ") || line[12] != SP || !IsText(line[13..]) then None
    else
      var n := ParseDecimal(line[9..12]);
      if n.None? then None else Some((n.value, line[13..]))
  }

  /** The first message of a stream of responses to non-HEAD requests, and the rest of the stream. */
  function ReadResponse(s: octets): (r: Option<(Message, octets)>)
    ensures r.Some? ==> |r.value.1| < |s|
  {
    var l := ReadLine(s);
    if l.None? then None else
    var status, head := ReadStatusLine(l.value.0), ReadFields(l.value.1);
    if status.None? || head.None? then None else
    var (fields, content) := head.value;
    var n := ResponseBodyLength(status.value.0, fields);
    if n.None? || n.value > |content| then None else
    Some((Message(status.value.0, status.value.1, fields, content[..n.value]), content[n.value..]))
  }

  function ReadResponses(s: octets): Option<seq<Message>>
    decreases |s|
  {
    if s == [] then Some([]) else
    var first := ReadResponse(s);
    if first.None? then None else
    var others := ReadResponses(first.value.1);
    if others.None? then None else Some([first.value.0] + others.value)
  }

  lemma ReadResponsesFirst(s: octets, messages: seq<Message>)
    requires ReadResponses(s) == Some(messages) && messages != []
    ensures ReadResponse(s).Some? && ReadResponse(s).value.0 == messages[0]
    ensures ReadResponses(ReadResponse(s).value.1) == Some(messages[1..])
  {
    hide ReadResponse;
  }

  function ReadRequest(s: octets): (r: Option<(RequestMessage, octets)>)
    ensures r.Some? ==> |r.value.1| < |s|
  {
    var l := ReadLine(s);
    if l.None? then None else
    var head := ReadFields(l.value.1);
    if head.None? then None else
    var (fields, content) := head.value;
    var n := RequestBodyLength(fields);
    if n.None? || n.value > |content| then None else
    Some((RequestMessage(l.value.0, fields, content[..n.value]), content[n.value..]))
  }

  function ReadRequests(s: octets): Option<seq<RequestMessage>>
    decreases |s|
  {
    if s == [] then Some([]) else
    var first := ReadRequest(s);
    if first.None? then None else
    var others := ReadRequests(first.value.1);
    if others.None? then None else Some([first.value.0] + others.value)
  }

  // ---------- reading what was written ----------

  predicate NoLineBreak(s: octets) {
    forall i :: 0 <= i < |s| ==> s[i] != CR && s[i] != LF
  }

  lemma {:induction false} ReadLineOf(line: octets, rest: octets)
    requires NoLineBreak(line)
    ensures ReadLine(line + CRLF + rest) == Some((line, rest))
  {
    var s := line + CRLF + rest;
    if line == [] {
      assert s[2..] == rest;
    } else {
      ReadLineOf(line[1..], rest);
      assert s[1..] == line[1..] + CRLF + rest;
      assert line == [line[0]] + line[1..];
    }
  }

  /** A field value that survives the removal of surrounding whitespace. */
  predicate IsFieldValue(v: octets) {
    IsText(v) && (v != [] ==> !IsOws(v[0]) && !IsOws(v[|v| - 1]))
  }

  /** Nothing is trimmed that does not begin or end with whitespace. */
  lemma TrimKeeps(value: octets)
    requires value != [] ==> !IsOws(value[0]) && !IsOws(value[|value| - 1])
    ensures TrimLeft(value) == value && TrimRight(value) == value
  {}

  lemma TrimKeepsValue(value: octets)
    requires value != [] ==> !IsOws(value[0]) && !IsOws(value[|value| - 1])
    ensures TrimRight(TrimLeft([SP] + value)) == value
  {
    assert ([SP] + value)[1..] == value;
    TrimKeeps(value);
    assert TrimLeft([SP] + value) == TrimLeft(value);
  }

  lemma FieldLineHasNoLineBreak(name: octets, value: octets)
    requires IsToken(name) && IsFieldValue(value)
    ensures NoLineBreak(name + Ascii(": ") + value)
  {
    var line := name + Ascii(": ") + value;
    forall i | 0 <= i < |line|
      ensures line[i] != CR && line[i] != LF
    {
      if i < |name| {
        assert IsTokenOctet(name[i]);
      }
    }
  }

  lemma ReadFieldOf(name: octets, value: octets)
    requires IsToken(name) && IsFieldValue(value)
    ensures ReadField(name + Ascii(": ") + value) == Some(Field(name, value))
  {
    hide IndexOf, TrimLeft, TrimRight;
    var line := name + Ascii(": ") + value;
    assert forall j :: 0 <= j < |name| ==> IsTokenOctet(name[j]) && name[j] != COLON;
    assert line == name + [COLON] + ([SP] + value);
    IndexOfFirst(name, COLON, [SP] + value);
    assert line[..|name|] == name && line[|name| + 1..] == [SP] + value;
    TrimKeepsValue(value);
  }

  predicate IsCleanField(f: Field) {
    IsToken(f.name) && IsFieldValue(f.value)
  }

  function FieldLines(fields: seq<Field>): octets {
    if fields == [] then [] else
      fields[0].name + Ascii(": ") + fields[0].value + CRLF + FieldLines(fields[1..])
  }

  lemma ReadFirstField(f: Field, more: octets)
    requires IsCleanField(f)
    ensures ReadFields(f.name + Ascii(": ") + f.value + CRLF + more) ==
            match ReadFields(more)
            case None => None
            case Some((fields, rest)) => Some(([f] + fields, rest))
  {
    ReadFieldOf(f.name, f.value);
    FieldLineHasNoLineBreak(f.name, f.value);
    ReadLineOf(f.name + Ascii(": ") + f.value, more);
  }

  lemma ReadNoField(rest: octets)
    ensures ReadFields(CRLF + rest) == Some(([], rest))
  {
    assert CRLF + rest == [] + CRLF + rest;
    ReadLineOf([], rest);
  }

  /** A field section is read back as it was written, in order. */
  lemma {:induction false} FieldLinesReadBack(fields: seq<Field>, rest: octets)
    requires forall f :: f in fields ==> IsCleanField(f)
    ensures ReadFields(FieldLines(fields) + CRLF + rest) == Some((fields, rest))
  {
    hide ReadFields, IsCleanField;
    var s := FieldLines(fields) + CRLF + rest;
    if fields == [] {
      assert s == CRLF + rest;
      ReadNoField(rest);
    } else {
      var first := fields[0];
      var more := FieldLines(fields[1..]) + CRLF + rest;
      assert first in fields;
      FieldLinesReadBack(fields[1..], rest);
      ReadFirstField(first, more);
      assert s == first.name + Ascii(": ") + first.value + CRLF + more;
      assert fields == [first] + fields[1..];
    }
  }

  lemma {:induction false} DeclaredLengthIs(fields: seq<Field>, n: nat)
    ensures DeclaredLength(fields) == Some(None) <==> forall f :: f in fields ==> !Named(f, "content-length")
    ensures DeclaredLength(fields) == Some(Some(n)) <==>
            && (exists f :: f in fields && Named(f, "content-length"))
            && (forall f :: f in fields && Named(f, "content-length") ==> ParseLength(f.value) == Some(n))
  {
    if fields != [] {
      var first, rest := fields[0], fields[1..];
      DeclaredLengthIs(rest, n);
      assert forall f :: f in fields <==> f == first || f in rest;
    }
  }

  lemma LengthOfDecimal(n: nat)
    ensures ParseLength(Decimal(n)) == Some(n)
  {
    hide Decimal, TrimLeft, TrimRight, ParseDecimal;
    var d := Decimal(n);
    ParseDecimalInvertsDecimal(n);
    assert IsDigit(d[0]) && IsDigit(d[|d| - 1]);
    TrimKeeps(d);
    assert IndexOf(d, COMMA) == |d| && d[..|d|] == d;
  }

  /** `13, 13` is read as 13, `13, 14` not at all. */
  lemma RepeatedLength(n: nat, m: nat)
    ensures ParseLength(Decimal(n) + [COMMA, SP] + Decimal(m)) == if n == m then Some(n) else None
  {
    hide Decimal, ParseDecimal;
    var a, b := Decimal(n), [SP] + Decimal(m);
    ParseDecimalInvertsDecimal(n);
    ParseDecimalInvertsDecimal(m);
    assert IsDigit(Decimal(m)[0]) && IsDigit(Decimal(m)[|Decimal(m)| - 1]) && IsDigit(a[0]) && IsDigit(a[|a| - 1]);
    assert COMMA !in a && COMMA !in b;
    var s := a + [COMMA] + b;
    assert s == Decimal(n) + [COMMA, SP] + Decimal(m);
    IndexOfFirst(a, COMMA, b);
    assert s[..|a|] == a && s[|a| + 1..] == b;
    TrimKeeps(a);
    TrimKeepsValue(Decimal(m));
    assert IndexOf(b, COMMA) == |b| && b[..|b|] == b;
    assert ListLength(b) == Some(Some(m));
  }

  /** Length fields that disagree leave a message without a length. */
  lemma ConflictingLengths(fields: seq<Field>, a: Field, b: Field)
    requires a in fields && b in fields && Named(a, "content-length") && Named(b, "content-length")
    requires ParseLength(a.value) != ParseLength(b.value)
    ensures DeclaredLength(fields) == None
  {
    hide DeclaredLength;
    forall n: nat
      ensures DeclaredLength(fields) != Some(Some(n)) && DeclaredLength(fields) != Some(None)
    {
      DeclaredLengthIs(fields, n);
    }
    if DeclaredLength(fields).Some? && DeclaredLength(fields).value.Some? {
      assert DeclaredLength(fields) == Some(Some(DeclaredLength(fields).value.value));
      assert false;
    }
  }

  // ---------- what was read is clean ----------

  lemma {:induction false} TrimLeftTrims(s: octets)
    ensures IsText(s) ==> IsText(TrimLeft(s))
    ensures TrimLeft(s) != [] ==> !IsOws(TrimLeft(s)[0])
  {
    if s != [] && IsOws(s[0]) {
      TrimLeftTrims(s[1..]);
    }
  }

  lemma {:induction false} TrimRightTrims(s: octets)
    ensures TrimRight(s) <= s
    ensures TrimRight(s) != [] ==> !IsOws(TrimRight(s)[|TrimRight(s)| - 1])
  {
    if s != [] && IsOws(s[|s| - 1]) {
      TrimRightTrims(s[..|s| - 1]);
    }
  }

  lemma ReadFieldIsClean(line: octets)
    requires ReadField(line).Some?
    ensures IsCleanField(ReadField(line).value)
  {
    hide IndexOf, TrimLeft, TrimRight;
    var left := TrimLeft(line[IndexOf(line, COLON) + 1..]);
    TrimLeftTrims(line[IndexOf(line, COLON) + 1..]);
    TrimRightTrims(left);
  }

  /** Every field that was read has a token for a name and trimmed text for a value. */
  lemma {:induction false} ReadFieldsAreClean(s: octets)
    requires ReadFields(s).Some?
    ensures forall f :: f in ReadFields(s).value.0 ==> IsCleanField(f)
    decreases |s|
  {
    hide ReadField, ReadLine, IsCleanField;
    var (line, more) := ReadLine(s).value;
    if line != [] {
      ReadFieldIsClean(line);
      ReadFieldsAreClean(more);
    }
  }

  lemma {:induction false} ParseDecimalNeedsDigits(s: octets)
    requires ParseDecimal(s).Some?
    ensures s != [] && forall i :: 0 <= i < |s| ==> IsDigit(s[i])
  {
    if |s| > 1 {
      ParseDecimalNeedsDigits(s[..|s| - 1]);
    }
  }

  /** A response that was read has text for a reason, clean fields, and three digits after the version. */
  lemma ReadResponseIsClean(s: octets)
    requires ReadResponse(s).Some?
    ensures var m := ReadResponse(s).value.0;
            IsText(m.reason) && forall f :: f in m.fields ==> IsCleanField(f)
    ensures |s| > 12 && IsDigit(s[9]) && IsDigit(s[10]) && IsDigit(s[11]) && s[12] == SP
  {
    hide ReadLine, ReadFields, IsCleanField, ResponseBodyLength, ParseDecimal;
    ReadLineSplits(s);
    var (line, more) := ReadLine(s).value;
    ReadFieldsAreClean(more);
    ParseDecimalNeedsDigits(line[9..12]);
    assert forall i :: 0 <= i < |line| ==> s[i] == line[i];
    assert line[9..12][0] == line[9] && line[9..12][1] == line[10] && line[9..12][2] == line[11];
  }

  // ---------- where a message ends ----------

  function LineFeeds(s: octets): nat {
    if s == [] then 0 else (if s[0] == LF then 1 else 0) + LineFeeds(s[1..])
  }

  lemma {:induction false} LineFeedsAppend(a: octets, b: octets)
    ensures LineFeeds(a + b) == LineFeeds(a) + LineFeeds(b)
  {
    if a == [] {
      assert a + b == b;
    } else {
      assert (a + b)[1..] == a[1..] + b;
      LineFeedsAppend(a[1..], b);
    }
  }

  lemma {:induction false} LineFeedAt(s: octets, i: nat)
    requires i < |s| && s[i] == LF
    ensures LineFeeds(s) > 0
  {
    if i > 0 {
      LineFeedAt(s[1..], i - 1);
    }
  }

  lemma {:induction false} NoLineFeeds(s: octets)
    requires NoLineBreak(s)
    ensures LineFeeds(s) == 0
  {
    if s != [] {
      NoLineFeeds(s[1..]);
    }
  }

  /** A line that was read is what stands before the CRLF, without line breaks of its own. */
  lemma {:induction false} ReadLineSplits(s: octets)
    requires ReadLine(s).Some?
    ensures var (line, rest) := ReadLine(s).value; s == line + CRLF + rest && NoLineBreak(line)
  {
    if s[0] == CR {
      assert s == CRLF + s[2..];
    } else {
      ReadLineSplits(s[1..]);
    }
  }

  lemma LineHasOneLineFeed(line: octets)
    requires NoLineBreak(line)
    ensures LineFeeds(line + CRLF) == 1
  {
    NoLineFeeds(line);
    LineFeedsAppend(line, CRLF);
    assert CRLF[1..] == [LF] && LineFeeds([LF]) == 1;
  }

  /** A section of n fields takes n + 1 lines, the last of them empty. */
  lemma {:induction false} ReadFieldsSplits(s: octets) returns (head: octets)
    requires ReadFields(s).Some?
    ensures var (fields, rest) := ReadFields(s).value;
            s == head + rest && LineFeeds(head) == |fields| + 1 && head[|head| - 1] == LF
    decreases |s|
  {
    hide ReadField;
    ReadLineSplits(s);
    var (line, more) := ReadLine(s).value;
    LineHasOneLineFeed(line);
    head := line + CRLF;
    if line != [] {
      var others := ReadFieldsSplits(more);
      LineFeedsAppend(head, others);
      head := head + others;
    }
  }

  /** What a response read from `s` is made of: a status line of fixed length, its fields, and its body. */
  lemma ReadResponseSplits(s: octets) returns (line: octets, head: octets)
    requires ReadResponse(s).Some?
    ensures var (m, rest) := ReadResponse(s).value;
            && s == line + CRLF + head + (m.body + rest)
            && NoLineBreak(line) && |line| == 13 + |m.reason|
            && LineFeeds(line + CRLF + head) == |m.fields| + 2 && head != [] && head[|head| - 1] == LF
  {
    hide ReadLine, ReadFields, ResponseBodyLength;
    ReadLineSplits(s);
    line := ReadLine(s).value.0;
    var after := ReadLine(s).value.1;
    head := ReadFieldsSplits(after);
    LineHasOneLineFeed(line);
    LineFeedsAppend(line + CRLF, head);
    var content := ReadFields(after).value.1;
    var (m, rest) := ReadResponse(s).value;
    assert content == m.body + rest;
    assert s == line + CRLF + (head + content);
  }

  /**
   * The lines of a head start at its start and end at its end: a part with as many line feeds, and
   * none in its first `p` octets, is all of it, if the head has its first at `p` and its last at the end.
   */
  lemma HeadWithin(head: octets, p: nat, d: nat, h: nat)
    requires d + h <= |head| && p < |head| && head[p] == LF && head[|head| - 1] == LF
    requires forall i :: d <= i < d + p && i < |head| ==> head[i] != LF
    requires LineFeeds(head[d..d + h]) == LineFeeds(head)
    ensures d == 0 && h == |head|
  {
    hide LineFeeds;
    var before, within, after := head[..d], head[d..d + h], head[d + h..];
    assert head == before + (within + after);
    LineFeedsAppend(before, within + after);
    LineFeedsAppend(within, after);
    if after != [] {
      LineFeedAt(after, |after| - 1);
    } else if d > p {
      LineFeedAt(before, p);
    }
  }

  /**
   * A message does not fit into a proper part of itself: whoever reads it again from position `d` of
   * the octets `whole` that carry it, cut off at `t`, has to read on into what follows them.
   */
  lemma MessageDoesNotFit(whole: octets, m: Message, d: nat, t: nat, more: octets, rest: octets)
    requires ReadResponse(whole) == Some((m, [])) && d <= t <= |whole| && (d > 0 || t < |whole|)
    requires ReadResponse(whole[d..t] + more) == Some((m, rest))
    ensures |rest| < |more|
  {
    hide ReadResponse;
    var part := whole[d..t] + more;
    var line, head := ReadResponseSplits(whole);
    var line', head' := ReadResponseSplits(part);
    var first, first' := line + CRLF + head, line' + CRLF + head';
    var h, p := |first'|, |line| + 1;
    if |rest| >= |more| {
      SamePart(whole, first, m.body, part, first', m.body + rest, d, t, more);
      assert first[p] == CRLF[1] && first'[..p] == line' + [CR];
      forall i | d <= i < d + p && i < |first|
        ensures first[i] != LF
      {
        assert first[i] == first[d..d + h][i - d] == first'[i - d];
      }
      HeadWithin(first, p, d, h);
      assert false;
    }
  }

  lemma SamePart(whole: octets, first: octets, body: octets, part: octets, first': octets, after: octets,
                 d: nat, t: nat, more: octets)
    requires d <= t <= |whole| && whole == first + body && part == first' + after && part == whole[d..t] + more
    requires |after| >= |body| + |more|
    ensures d + |first'| <= t - |body| <= |first| && first[d..d + |first'|] == first'
  {
    var h := |first'|;
    assert |part| == t - d + |more| == h + |after|;
    assert part[..h] == first' && part[..t - d] == whole[d..t];
    assert part[..h] == part[..t - d][..h];
    assert h <= t - d && forall i :: 0 <= i < h ==> whole[d..t][i] == whole[d + i] == first[d + i];
    assert first[d..d + h] == whole[d..t][..h];
  }

  // ---------- literal names and values ----------

  predicate IsNameText(s: string) {
    s != "" && forall i :: 0 <= i < |s| ==> 'a' <= s[i] <= 'z' || 'A' <= s[i] <= 'Z' || s[i] == '-'
  }

  predicate IsValueText(s: string) {
    s != "" && s[0] != ' ' && s[|s| - 1] != ' ' && forall i :: 0 <= i < |s| ==> ' ' <= s[i] <= '~'
  }

  lemma NameTextIsToken(s: string)
    requires IsNameText(s)
    ensures IsToken(Ascii(s))
  {}

  lemma ValueTextIsFieldValue(s: string)
    requires IsValueText(s)
    ensures IsFieldValue(Ascii(s))
  {}
}
