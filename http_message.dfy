/** HTTP/1.1 messages as `a2lib/httplib.py` builds and writes them: a start
    line, `name: value` header fields in insertion order, a blank line and
    the body (sections 2.1, 3, 4 and 5 of RFC 9112). The Python classes
    `HttpMessage`, `HttpRequest` and `HttpResponse` become one class whose
    start line says which kind of message it is. */
module Http {
  import opened Base
  import opened Text
  import opened Fields
  import Utf8

  const Version: string := "HTTP/1.1"
  const CrLf: string := "\r\n"
  const ContentLength: string := "Content-Length"

  /** What `_header_repr` writes: nothing for a bare `HttpMessage`, a
      request line for `HttpRequest`, a status line for `HttpResponse`. */
  datatype StartLine =
    | NoLine
    | RequestLine(verb: string, url: string)
    | StatusLine(status: nat, msg: string)

  /** The `body` attribute: `None`, a `str` or a `bytes`. */
  datatype Body = NoBody | StrBody(text: string) | BytesBody(raw: Bytes)
  {
    /** Python truthiness: a non-empty `str` or `bytes`. */
    predicate Truthy() {
      match this
      case NoBody => false
      case StrBody(t) => t != []
      case BytesBody(r) => r != []
    }

    /** `len(body)`: characters for a `str`, bytes for a `bytes`. */
    function Len(): nat
      requires !NoBody?
    {
      match this
      case StrBody(t) => |t|
      case BytesBody(r) => |r|
    }
  }

  /** The state of one message object. */
  datatype Message = Message(start: StartLine, headers: Dict, body: Body)

  /** The header fields after the `body` setter has run: a truthy body sets
      `Content-Length` to its length (the Python code stores the `int`,
      which `__bytes__` writes in decimal), any other body removes the field
      when it is there. No other field changes. */
  function WithBody(h: Dict, body: Body): (r: Dict)
    ensures Get(r, ContentLength) ==
      if body.Truthy() then Some(NatToString(body.Len())) else None
    ensures forall n :: n != ContentLength ==> Get(r, n) == Get(h, n)
  {
    if body.Truthy() then Set(h, ContentLength, NatToString(body.Len()))
    else Delete(h, ContentLength)
  }

  /** Setting the same body twice leaves the fields as setting it once. */
  lemma WithBodyIdempotent(h: Dict, body: Body)
    ensures WithBody(WithBody(h, body), body) == WithBody(h, body)
  {
    var once := WithBody(h, body);
    if body.Truthy() {
      var i := IndexOf(once, ContentLength);
      assert once[i] == (ContentLength, NatToString(body.Len()));
      assert once[i := once[i]] == once;
    }
  }

  /** `_header_repr`. */
  function HeaderRepr(start: StartLine): string {
    match start
    case NoLine => ""
    case RequestLine(verb, url) => verb + " " + url + " " + Version + CrLf
    case StatusLine(status, msg) =>
      Version + " " + NatToString(status) + (if msg != [] then " " + msg else "") + CrLf
  }

  /** The line `__bytes__` writes for one field. */
  function FieldLine(f: Field): string {
    f.0 + ": " + f.1 + CrLf
  }

  /** The field lines, in order. */
  function FieldLines(fs: seq<Field>): string {
    if fs == [] then [] else FieldLines(fs[..|fs| - 1]) + FieldLine(fs[|fs| - 1])
  }

  /** The text before the body: start line, field lines, blank line. */
  function HeadText(m: Message): string {
    HeaderRepr(m.start) + FieldLines(m.headers) + CrLf
  }

  /** `__bytes__`: a `bytes` body is appended raw to the encoded head, a
      non-empty `str` body is appended to the head text before encoding,
      and any other body adds nothing. */
  function Serialize(m: Message): Bytes {
    match m.body
    case BytesBody(raw) => Utf8.Encode(HeadText(m)) + raw
    case StrBody(t) =>
      if t != [] then Utf8.Encode(HeadText(m) + t) else Utf8.Encode(HeadText(m))
    case NoBody => Utf8.Encode(HeadText(m))
  }

  /** The bytes a body contributes to the message. */
  function BodyBytes(body: Body): Bytes {
    match body
    case NoBody => []
    case StrBody(t) => Utf8.Encode(t)
    case BytesBody(raw) => raw
  }

  /** The serialised message is the encoded head followed by the body's bytes,
      whichever type the body has. */
  lemma SerializeLayout(m: Message)
    ensures Serialize(m) == Utf8.Encode(HeadText(m)) + BodyBytes(m.body)
  {
    if m.body.StrBody? {
      Utf8.EncodeAppend(HeadText(m), m.body.text);
    }
  }

  /** For a `bytes` body the setter's `Content-Length` is exactly the number
      of body bytes the message carries, and it is absent when there are
      none. */
  lemma BytesBodyLength(h: Dict, raw: Bytes)
    ensures var m := Message(NoLine, WithBody(h, BytesBody(raw)), BytesBody(raw));
      Get(m.headers, ContentLength) ==
        if |BodyBytes(m.body)| > 0 then Some(NatToString(|BodyBytes(m.body)|)) else None
  {
  }

  /** For a `str` body the setter counts characters, not the bytes that go on
      the wire: one non-ASCII character gives `Content-Length: 1` over a
      body of two bytes. */
  lemma StrBodyCountsCharacters()
    ensures var body := StrBody([0xE9 as char]);
      Get(WithBody([], body), ContentLength) == Some("1") && |BodyBytes(body)| == 2
  {
    assert Utf8.Encode([0xE9 as char]) == Utf8.EncodeChar(0xE9 as char);
  }

  /** An object of `HttpMessage`, `HttpRequest` or `HttpResponse`. */
  class HttpMessage {
    var start: StartLine
    var headers: Dict
    var body: Body

    function Value(): Message
      reads this
    {
      Message(start, headers, body)
    }

    /** `HttpRequest(method, url, headers, body)`: the fields are taken, then
        the body goes through the setter. */
    constructor Request(verb: string, url: string, fields: Dict, data: Body)
      ensures Value() == Message(RequestLine(verb, url), WithBody(fields, data), data)
    {
      start := RequestLine(verb, url);
      headers := fields;
      body := NoBody;
      new;
      SetBody(data);
    }

    /** `HttpResponse(status, msg, headers, body)`. */
    constructor Response(status: nat, msg: string, fields: Dict, data: Body)
      ensures Value() == Message(StatusLine(status, msg), WithBody(fields, data), data)
    {
      start := StatusLine(status, msg);
      headers := fields;
      body := NoBody;
      new;
      SetBody(data);
    }

    /** The `body` setter. */
    method SetBody(data: Body)
      modifies this
      ensures body == data && start == old(start)
      ensures headers == WithBody(old(headers), data)
    {
      body := data;
      if data.Truthy() {
        headers := Set(headers, ContentLength, NatToString(data.Len()));
      } else if Has(headers, ContentLength) {
        headers := Delete(headers, ContentLength);
      }
    }

    /** `__bytes__` (also reached as `encode()` and `serialize()`): the text
        is built field by field, then encoded and joined with the body. */
    method ToBytes() returns (b: Bytes)
      ensures b == Serialize(Value())
    {
      var repr := HeaderRepr(start);
      var i := 0;
      while i < |headers|
        invariant 0 <= i <= |headers|
        invariant repr == HeaderRepr(start) + FieldLines(headers[..i])
      {
        assert headers[..i + 1][..i] == headers[..i];
        repr := repr + FieldLine(headers[i]);
        i := i + 1;
      }
      assert headers[..i] == headers;
      repr := repr + CrLf;
      if body.BytesBody? {
        b := Utf8.Encode(repr) + body.raw;
      } else {
        if body.Truthy() {
          repr := repr + body.text;
        }
        b := Utf8.Encode(repr);
      }
    }
  }
}
