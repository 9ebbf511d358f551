/** src/http/parser.rs, module `urlencoding`: the percent-decoder, against section 2.1 of RFC 3986. */
module UrlDecoding {
  import opened Wrappers

  /** `char::to_digit(16)`. */
  function HexValue(c: char): (r: Option<nat>)
    ensures r.Some? ==> r.value < 16
  {
    if '0' <= c <= '9' then Some(c as nat - '0' as nat)
    else if 'A' <= c <= 'F' then Some(c as nat - 'A' as nat + 10)
    else if 'a' <= c <= 'f' then Some(c as nat - 'a' as nat + 10)
    else None
  }

  const LOWER_DIGITS := "0123456789abcdef"
  const UPPER_DIGITS := "0123456789ABCDEF"

  /** A digit is worth its place in either alphabet, and nothing else is a digit. */
  lemma HexValueIsPlace(c: char, v: nat)
    ensures HexValue(c) == Some(v) <==> v < 16 && (LOWER_DIGITS[v] == c || UPPER_DIGITS[v] == c)
  {
    if v < 16 {
      DigitsAreRanges(v);
    }
  }

  lemma DigitsAreRanges(v: nat)
    requires v < 16
    ensures LOWER_DIGITS[v] == if v < 10 then ('0' as nat + v) as char else ('a' as nat + v - 10) as char
    ensures UPPER_DIGITS[v] == if v < 10 then ('0' as nat + v) as char else ('A' as nat + v - 10) as char
  {}

  /** HEXDIG of RFC 3986, in either case. */
  predicate IsHexDigit(c: char) {
    HexValue(c).Some?
  }

  /** `u8::from_str_radix` on a string of two characters: a leading plus sign is accepted. */
  function U8FromHex(a: char, b: char): (r: Option<nat>)
    ensures r.Some? <==> (IsHexDigit(a) || a == '+') && IsHexDigit(b)
    ensures r.Some? ==> r.value < 256 && r.value % 16 == HexValue(b).value
    ensures r.Some? ==> r.value / 16 == if a == '+' then 0 else HexValue(a).value
  {
    var high, low := HexValue(a), HexValue(b);
    if low.None? then None
    else if a == '+' then low
    else if high.None? then None
    else Some(16 * high.value + low.value)
  }

  function Prepend(p: string, rest: Option<string>): (r: Option<string>)
    ensures p == [] ==> r == rest
  {
    if rest.None? then None else
      assert p == [] ==> p + rest.value == rest.value;
      Some(p + rest.value)
  }

  /** What a decoded text is; None stands for the decoder's error. */
  function Decoded(s: string): Option<string> {
    if s == [] then Some([])
    else if s[0] == '%' then
      if |s| < 3 then None else
      var b := U8FromHex(s[1], s[2]);
      if b.None? then None else Prepend([b.value as char], Decoded(s[3..]))
    else
      Prepend([if s[0] == '+' then ' ' else s[0]], Decoded(s[1..]))
  }

  /** The decoder returns its input itself when decoding changed nothing. */
  datatype Cow = Borrowed(text: string) | Owned(text: string)

  method Decode(s: string) returns (r: Result<Cow, ()>)
    ensures r.Ok? <==> Decoded(s).Some?
    ensures r.Ok? ==> r.value.text == Decoded(s).value && (r.value.Borrowed? <==> Decoded(s).value == s)
  {
    var result := "";
    var chars := s;
    while chars != []
      invariant Decoded(s) == Prepend(result, Decoded(chars))
      decreases |chars|
    {
      var ch := chars[0];
      chars := chars[1..];
      if ch == '%' {
        var hex := "";
        if chars == [] { return Err(()); }
        hex := hex + [chars[0]];
        chars := chars[1..];
        if chars == [] { return Err(()); }
        hex := hex + [chars[0]];
        chars := chars[1..];
        var byte := U8FromHex(hex[0], hex[1]);
        if byte.None? { return Err(()); }
        PrependTwice(result, [byte.value as char], Decoded(chars));
        result := result + [byte.value as char];
      } else if ch == '+' {
        PrependTwice(result, [' '], Decoded(chars));
        result := result + [' '];
      } else {
        PrependTwice(result, [ch], Decoded(chars));
        result := result + [ch];
      }
    }
    r := if result == s then Ok(Borrowed(s)) else Ok(Owned(result));
  }

  // ---------- decoding is compositional ----------

  lemma PrependTwice(p: string, q: string, rest: Option<string>)
    ensures Prepend(p, Prepend(q, rest)) == Prepend(p + q, rest)
  {
    if rest.Some? {
      assert p + (q + rest.value) == p + q + rest.value;
    }
  }

  /** After a text that decodes, the rest of the input decodes (or fails) on its own. */
  lemma {:induction false} DecodingIsCompositional(a: string, b: string)
    requires Decoded(a).Some?
    ensures Decoded(a + b) == Prepend(Decoded(a).value, Decoded(b))
  {
    if a == [] {
      assert a + b == b;
    } else {
      var k := if a[0] == '%' then 3 else 1;
      assert (a + b)[k..] == a[k..] + b;
      DecodingIsCompositional(a[k..], b);
      var first := Decoded(a).value[..1];
      assert Decoded(a).value == first + Decoded(a[k..]).value;
      PrependTwice(first, Decoded(a[k..]).value, Decoded(b));
    }
  }

  /** The escapes the decoder consumes. */
  function Escapes(s: string): nat {
    if s == [] then 0
    else if s[0] == '%' && |s| >= 3 then 1 + Escapes(s[3..])
    else Escapes(s[1..])
  }

  lemma {:induction false} EscapesShrinkByTwo(s: string)
    requires Decoded(s).Some?
    ensures |Decoded(s).value| + 2 * Escapes(s) == |s|
  {
    if s != [] {
      EscapesShrinkByTwo(s[if s[0] == '%' then 3 else 1..]);
    }
  }

  // ---------- round trips ----------

  /**
   * `e` encodes `s`: each character is written as itself, unless it is `%`, `+` or one of
   * `reserved`, or as a percent sign and two hexadecimal digits in either case; a space may also be `+`.
   */
  predicate Encodes(e: string, s: string, reserved: set<char>) {
    if s == [] then e == [] else
      || (e != [] && e[0] == s[0] && s[0] !in reserved && s[0] != '%' && s[0] != '+' && Encodes(e[1..], s[1..], reserved))
      || (e != [] && e[0] == '+' && s[0] == ' ' && Encodes(e[1..], s[1..], reserved))
      || (|e| >= 3 && e[0] == '%' && IsHexDigit(e[1]) && IsHexDigit(e[2])
          && 16 * HexValue(e[1]).value + HexValue(e[2]).value == s[0] as nat && Encodes(e[3..], s[1..], reserved))
  }

  lemma {:induction false} DecodingInvertsEncoding(e: string, s: string, reserved: set<char>)
    requires Encodes(e, s, reserved)
    ensures Decoded(e) == Some(s)
  {
    if s != [] {
      DecodingInvertsEncoding(e[if e[0] == '%' then 3 else 1..], s[1..], reserved);
      assert s == [s[0]] + s[1..];
    }
  }

  lemma {:induction false} EncodingAvoidsReserved(e: string, s: string, reserved: set<char>)
    requires Encodes(e, s, reserved) && reserved <= {'&', '=', '?'}
    ensures forall c :: c in reserved ==> c !in e
  {
    if s != [] {
      var k := if e[0] == '%' then 3 else 1;
      EncodingAvoidsReserved(e[k..], s[1..], reserved);
      assert e == e[..k] + e[k..];
      assert forall c :: c in e[..k] ==> c !in reserved;
    }
  }

  /** Section 2.3 of RFC 3986. */
  predicate IsUnreserved(c: char) {
    'A' <= c <= 'Z' || 'a' <= c <= 'z' || '0' <= c <= '9' || c in {'-', '.', '_', '~'}
  }

  function HexDigit(n: nat, lower: bool): (c: char)
    requires n < 16
    ensures HexValue(c) == Some(n)
  {
    HexValueIsPlace(LOWER_DIGITS[n], n);
    HexValueIsPlace(UPPER_DIGITS[n], n);
    if lower then LOWER_DIGITS[n] else UPPER_DIGITS[n]
  }

  predicate IsLatin1(s: string) {
    forall i :: 0 <= i < |s| ==> s[i] as nat < 256
  }

  /** Section 2.1 of RFC 3986, on octets written as characters: everything not unreserved is escaped, in either alphabet. */
  function PercentEncode(s: string, lower: bool): string
    requires IsLatin1(s)
  {
    if s == [] then []
    else if IsUnreserved(s[0]) then [s[0]] + PercentEncode(s[1..], lower)
    else ['%', HexDigit(s[0] as nat / 16, lower), HexDigit(s[0] as nat % 16, lower)] + PercentEncode(s[1..], lower)
  }

  lemma {:induction false} PercentEncodeEncodes(s: string, lower: bool, reserved: set<char>)
    requires IsLatin1(s) && reserved <= {'&', '=', '?'}
    ensures Encodes(PercentEncode(s, lower), s, reserved)
  {
    if s != [] {
      PercentEncodeEncodes(s[1..], lower, reserved);
      var e := PercentEncode(s, lower);
      if IsUnreserved(s[0]) {
        assert e[1..] == PercentEncode(s[1..], lower);
      } else {
        assert e[3..] == PercentEncode(s[1..], lower);
      }
    }
  }

  // ---------- texts beyond Latin-1 ----------

  /** RFC 3629: the octets of one character. */
  function Utf8(c: char): (r: string)
    ensures IsLatin1(r)
    ensures |r| >= 1 && (|r| == 1 <==> c as nat < 128) && (|r| == 1 ==> r == [c])
  {
    var n := c as nat;
    if n < 0x80 then [c]
    else if n < 0x800 then [(0xC0 + n / 0x40) as char, Trail(n)]
    else if n < 0x1_0000 then [(0xE0 + n / 0x1000) as char, Trail(n / 0x40), Trail(n)]
    else [(0xF0 + n / 0x4_0000) as char, Trail(n / 0x1000), Trail(n / 0x40), Trail(n)]
  }

  function Trail(n: nat): (c: char)
    ensures 0x80 <= c as nat < 0xC0
  {
    (0x80 + n % 0x40) as char
  }

  function Utf8Octets(s: string): (r: string)
    ensures IsLatin1(r) && |r| >= |s|
  {
    if s == [] then [] else Utf8(s[0]) + Utf8Octets(s[1..])
  }

  predicate IsAscii(s: string) {
    forall i :: 0 <= i < |s| ==> s[i] as nat < 128
  }

  lemma {:induction false} Utf8KeepsOnlyAscii(s: string)
    ensures IsAscii(s) ==> Utf8Octets(s) == s
    ensures !IsAscii(s) ==> |Utf8Octets(s)| > |s|
  {
    if s != [] {
      Utf8KeepsOnlyAscii(s[1..]);
      assert s == [s[0]] + s[1..];
      assert IsAscii(s) <==> s[0] as nat < 128 && IsAscii(s[1..]);
    }
  }

  /**
   * Clients escape the UTF-8 octets of a text (section 2.5 of RFC 3986).  The decoder turns each
   * octet into a character of its own, so such a text comes back exactly when it is ASCII.
   */
  lemma Utf8ComesBackIffAscii(s: string, lower: bool)
    ensures Decoded(PercentEncode(Utf8Octets(s), lower)) == Some(Utf8Octets(s))
    ensures Decoded(PercentEncode(Utf8Octets(s), lower)) == Some(s) <==> IsAscii(s)
  {
    PercentEncodeEncodes(Utf8Octets(s), lower, {});
    DecodingInvertsEncoding(PercentEncode(Utf8Octets(s), lower), Utf8Octets(s), {});
    Utf8KeepsOnlyAscii(s);
  }

  // ---------- which texts decode ----------

  /** The percent sign at `i` begins what section 2.1 of RFC 3986 allows. */
  predicate IsEscape(s: string, i: nat) {
    i + 2 < |s| && IsHexDigit(s[i + 1]) && IsHexDigit(s[i + 2])
  }

  /** The percent sign at `i` is followed by a plus sign and a digit. */
  predicate IsSignedEscape(s: string, i: nat) {
    i + 2 < |s| && s[i + 1] == '+' && IsHexDigit(s[i + 2])
  }

  /** Section 2.1 of RFC 3986: every percent sign begins an escape. */
  predicate IsWellFormed(s: string) {
    forall i :: 0 <= i < |s| && s[i] == '%' ==> IsEscape(s, i)
  }

  predicate HasSignedEscape(s: string) {
    exists i :: 0 <= i < |s| && s[i] == '%' && IsSignedEscape(s, i)
  }

  predicate AllAccepted(s: string) {
    forall i :: 0 <= i < |s| && s[i] == '%' ==> IsEscape(s, i) || IsSignedEscape(s, i)
  }

  /** What follows the first `k` characters is accepted at the same places. */
  lemma AcceptedAfter(s: string, k: nat)
    requires k <= |s| && forall i :: 0 < i < k ==> s[i] != '%'
    ensures AllAccepted(s) <==>
            (k > 0 && s[0] == '%' ==> IsEscape(s, 0) || IsSignedEscape(s, 0)) && AllAccepted(s[k..])
  {
    forall i: nat | k <= i < |s|
      ensures IsEscape(s, i) == IsEscape(s[k..], i - k) && IsSignedEscape(s, i) == IsSignedEscape(s[k..], i - k)
      ensures s[i] == s[k..][i - k]
    {}
    assert forall j: nat :: j < |s| - k ==> s[k..][j] == s[k + j];
    if AllAccepted(s[k..]) && (k > 0 && s[0] == '%' ==> IsEscape(s, 0) || IsSignedEscape(s, 0)) {
      forall i: nat | i < |s| && s[i] == '%'
        ensures IsEscape(s, i) || IsSignedEscape(s, i)
      {
        if i >= k {
          assert s[k..][i - k] == '%';
        }
      }
    }
    if AllAccepted(s) {
      forall j: nat | j < |s[k..]| && s[k..][j] == '%'
        ensures IsEscape(s[k..], j) || IsSignedEscape(s[k..], j)
      {
        assert s[k + j] == '%';
      }
    }
  }

  /** A text decodes exactly when each percent sign is followed by a digit or a plus sign, and a digit. */
  lemma {:induction false} DecodesIff(s: string)
    ensures Decoded(s).Some? <==>
            forall i :: 0 <= i < |s| && s[i] == '%' ==> IsEscape(s, i) || IsSignedEscape(s, i)
  {
    if s != [] {
      if s[0] != '%' {
        DecodesIff(s[1..]);
        AcceptedAfter(s, 1);
      } else if IsEscape(s, 0) || IsSignedEscape(s, 0) {
        DecodesIff(s[3..]);
        AcceptedAfter(s, 3);
      }
    }
  }

  /**
   * The decoder accepts every well-formed text, and the ill-formed ones it accepts are exactly
   * those in which some percent sign is followed by a plus sign.
   */
  lemma AcceptsIllFormedIffSigned(s: string)
    ensures IsWellFormed(s) ==> Decoded(s).Some?
    ensures Decoded(s).Some? ==> (IsWellFormed(s) <==> !HasSignedEscape(s))
    ensures !HasSignedEscape(s) ==> (Decoded(s).Some? <==> IsWellFormed(s))
  {
    DecodesIff(s);
  }

  /** The sign that `from_str_radix` accepts lets through an escape that section 2.1 does not have. */
  lemma SignedEscapeIsAccepted()
    ensures Decoded("%+7") == Some([7 as char]) && !IsWellFormed("%+7")
  {
    var s := "%+7";
    assert |s| == 3 && s[0] == '%' && s[1] == '+' && s[2] == '7' && s[3..] == [];
    assert U8FromHex(s[1], s[2]) == Some(7);
    assert Decoded(s[3..]) == Some([]);
    assert [7 as char] + [] == [7 as char];
    assert s[0] == '%' && !IsEscape(s, 0);
  }
}
