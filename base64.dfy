/** Base64 encoding with the standard alphabet and `=` padding (section 4 of
    RFC 4648), as Python's `base64.b64encode` produces it. Only encoding is
    used by the client. */
module Base64 {
  import opened Base

  /** The character for a 6-bit value (Table 1 of RFC 4648). */
  function Symbol(v: int): (c: char)
    requires 0 <= v < 64
    ensures IsSymbol(c)
  {
    if v < 26 then ('A' as int + v) as char
    else if v < 52 then ('a' as int + v - 26) as char
    else if v < 62 then ('0' as int + v - 52) as char
    else if v == 62 then '+'
    else '/'
  }

  predicate IsSymbol(c: char) {
    ('A' <= c <= 'Z') || ('a' <= c <= 'z') || ('0' <= c <= '9') || c == '+' || c == '/'
  }

  /** A character that can occur in an encoding: a symbol or the pad. */
  predicate IsEncodingChar(c: char) {
    IsSymbol(c) || c == '='
  }

  /** Each group of three bytes becomes four symbols; a final group of one or
      two bytes is padded with `=`. */
  function Encode(b: Bytes): string
    decreases |b|
  {
    if |b| == 0 then []
    else if |b| == 1 then [Symbol(b[0] / 4), Symbol((b[0] % 4) * 16), '=', '=']
    else if |b| == 2 then
      [Symbol(b[0] / 4), Symbol((b[0] % 4) * 16 + b[1] / 16), Symbol((b[1] % 16) * 4), '=']
    else
      [Symbol(b[0] / 4), Symbol((b[0] % 4) * 16 + b[1] / 16), Symbol((b[1] % 16) * 4 + b[2] / 64),
       Symbol(b[2] % 64)]
      + Encode(b[3..])
  }

  /** The encoding of `n` bytes has `4 * ceil(n / 3)` characters. */
  lemma {:induction false} EncodeLength(b: Bytes)
    ensures |Encode(b)| == 4 * ((|b| + 2) / 3)
    decreases |b|
  {
    if |b| >= 3 {
      EncodeLength(b[3..]);
      GroupLength(b);
      assert (|b| + 2) / 3 == (|b[3..]| + 2) / 3 + 1;
    }
  }

  /** A group of three bytes adds four characters. */
  lemma GroupLength(b: Bytes)
    requires |b| >= 3
    ensures |Encode(b)| == 4 + |Encode(b[3..])|
  {
  }

  /** Every character of an encoding is a symbol or the pad. */
  lemma {:induction false} EncodeAlphabet(b: Bytes)
    ensures forall k :: 0 <= k < |Encode(b)| ==> IsEncodingChar(Encode(b)[k])
    decreases |b|
  {
    if |b| >= 3 {
      EncodeAlphabet(b[3..]);
      var head := [Symbol(b[0] / 4), Symbol((b[0] % 4) * 16 + b[1] / 16),
                   Symbol((b[1] % 16) * 4 + b[2] / 64), Symbol(b[2] % 64)];
      assert Encode(b) == head + Encode(b[3..]);
    }
  }
}
