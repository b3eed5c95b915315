/** UTF-8, as Python's `str.encode()` and `bytes.decode()` use it by default
    (strict mode: overlong forms, surrogates and values past U+10FFFF are
    rejected). */
module Utf8 {
  import opened Base

  predicate IsAscii(c: char) {
    c as int < 0x80
  }

  predicate AllAscii(s: string) {
    forall k :: 0 <= k < |s| ==> IsAscii(s[k])
  }

  function EncodeChar(c: char): (b: Bytes)
    ensures 1 <= |b| <= 4
    ensures |b| == 1 <==> IsAscii(c)
    ensures IsAscii(c) ==> b == [c as int]
    ensures !IsAscii(c) ==> forall k :: 0 <= k < |b| ==> b[k] >= 0x80
  {
    var n := c as int;
    var q1 := n / 64;
    var q2 := q1 / 64;
    var q3 := q2 / 64;
    if n < 0x80 then [n]
    else if n < 0x800 then [0xC0 + q1, 0x80 + n % 64]
    else if n < 0x10000 then [0xE0 + q2, 0x80 + q1 % 64, 0x80 + n % 64]
    else [0xF0 + q3, 0x80 + q2 % 64, 0x80 + q1 % 64, 0x80 + n % 64]
  }

  function Encode(s: string): (b: Bytes)
    ensures |b| >= |s|
  {
    if s == [] then [] else EncodeChar(s[0]) + Encode(s[1..])
  }

  predicate IsCont(x: byte) {
    0x80 <= x < 0xC0
  }

  /** Decodes the character at the front of `b`: the character and the number
      of bytes it takes, or `None` when the front is not valid UTF-8. */
  function DecodeChar(b: Bytes): (r: Option<(char, nat)>)
    requires |b| > 0
    ensures r.Some? ==> 1 <= r.value.1 <= |b|
  {
    var x: int := b[0];
    if x < 0x80 then Some((x as char, 1))
    else if 0xC2 <= x < 0xE0 && |b| >= 2 && IsCont(b[1]) then
      Some((((x - 0xC0) * 64 + (b[1] as int - 0x80)) as char, 2))
    else if 0xE0 <= x < 0xF0 && |b| >= 3 && IsCont(b[1]) && IsCont(b[2]) then
      var n := (x - 0xE0) * 4096 + (b[1] as int - 0x80) * 64 + (b[2] as int - 0x80);
      if n < 0x800 || (0xD800 <= n < 0xE000) then None else Some((n as char, 3))
    else if 0xF0 <= x < 0xF5 && |b| >= 4 && IsCont(b[1]) && IsCont(b[2]) && IsCont(b[3]) then
      var n := (x - 0xF0) * 262144 + (b[1] as int - 0x80) * 4096 + (b[2] as int - 0x80) * 64
        + (b[3] as int - 0x80);
      if n < 0x10000 || n > 0x10FFFF then None else Some((n as char, 4))
    else None
  }

  /** `bytes.decode()`; `None` stands for the UnicodeDecodeError. */
  function Decode(b: Bytes): Option<string>
    decreases |b|
  {
    if b == [] then Some([])
    else match DecodeChar(b)
      case None => None
      case Some((c, n)) =>
        match Decode(b[n..])
        case None => None
        case Some(rest) => Some([c] + rest)
  }

  lemma DecodeEncodedChar(c: char, rest: Bytes)
    ensures DecodeChar(EncodeChar(c) + rest) == Some((c, |EncodeChar(c)|))
  {
    var n := c as int;
    var b := EncodeChar(c) + rest;
    if n >= 0x10000 {
      assert b[0] == 0xF0 + n / 262144;
    }
  }

  lemma {:induction false} EncodeAppend(a: string, b: string)
    ensures Encode(a + b) == Encode(a) + Encode(b)
  {
    if a != [] {
      assert (a + b)[0] == a[0];
      assert (a + b)[1..] == a[1..] + b;
      EncodeAppend(a[1..], b);
    } else {
      assert a + b == b;
    }
  }

  /** Decoding what `str.encode()` produced gives the string back. */
  lemma {:induction false} DecodeEncode(s: string)
    ensures Decode(Encode(s)) == Some(s)
    decreases |s|
  {
    if s != [] {
      var e := EncodeChar(s[0]);
      var b := Encode(s);
      assert b == e + Encode(s[1..]);
      DecodeEncodedChar(s[0], Encode(s[1..]));
      assert b[|e|..] == Encode(s[1..]);
      DecodeEncode(s[1..]);
      assert [s[0]] + s[1..] == s;
    }
  }

  /** An ASCII byte at the front of an encoding is the front character
      itself. */
  lemma AsciiFront(s: string)
    requires s != [] && Encode(s)[0] < 0x80
    ensures IsAscii(s[0]) && Encode(s)[0] == s[0] as int
    ensures Encode(s) == [s[0] as int] + Encode(s[1..])
  {
  }

  /** The encoding of an ASCII string is its character codes. */
  lemma {:induction false} EncodeAscii(s: string)
    requires AllAscii(s)
    ensures |Encode(s)| == |s|
    ensures forall k :: 0 <= k < |s| ==> Encode(s)[k] == s[k] as int
    decreases |s|
  {
    if s != [] {
      EncodeAscii(s[1..]);
    }
  }
}
