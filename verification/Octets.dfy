/** Octet strings: a Rust `String` or `Vec<u8>` as the sequence of its bytes. */
module Octets {
  import opened Wrappers

  type byte = x: int | 0 <= x < 256
  type octets = seq<byte>

  const CR: byte := 13
  const LF: byte := 10
  const SP: byte := 32
  const HTAB: byte := 9
  const COLON: byte := 58
  const COMMA: byte := 44
  const CRLF: octets := [CR, LF]

  function Ascii(s: string): (b: octets)
    ensures |b| == |s| && forall i :: 0 <= i < |s| ==> b[i] == s[i] as int % 256
  {
    seq(|s|, i requires 0 <= i < |s| => s[i] as int % 256)
  }

  predicate IsDigit(b: byte) {
    48 <= b <= 57
  }

  /** `usize::to_string`. */
  function Decimal(n: nat): (r: octets)
    ensures r != [] && forall i :: 0 <= i < |r| ==> IsDigit(r[i])
  {
    if n < 10 then [48 + n] else Decimal(n / 10) + [48 + n % 10]
  }

  function ParseDecimal(s: octets): (r: Option<nat>) {
    if s == [] || !IsDigit(s[|s| - 1]) then None
    else if |s| == 1 then Some(s[0] - 48)
    else
      var high := ParseDecimal(s[..|s| - 1]);
      if high.None? then None else Some(high.value * 10 + s[|s| - 1] - 48)
  }

  lemma {:induction false} ParseDecimalInvertsDecimal(n: nat)
    ensures ParseDecimal(Decimal(n)) == Some(n)
  {
    if n >= 10 {
      ParseDecimalInvertsDecimal(n / 10);
      assert Decimal(n)[..|Decimal(n)| - 1] == Decimal(n / 10);
    }
  }

  function ToLower(b: byte): byte {
    if 65 <= b <= 90 then b + 32 else b
  }

  function Lower(s: octets): (r: octets)
    ensures |r| == |s|
  {
    seq(|s|, i requires 0 <= i < |s| => ToLower(s[i]))
  }
}
