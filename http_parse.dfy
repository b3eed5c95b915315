/** Reading an HTTP/1.1 message from a socket as `get_http_response` and
    `get_http_request` in `a2lib/httplib.py` do it. The socket is the
    sequence of chunks its `recv` calls return; once they are used up the
    peer has closed and every further `recv` returns no bytes, so a loop that
    still waits for data never ends, which the model reports as an error
    value. The Python exceptions become `ParseError` values. */
module HttpParse {
  import opened Base
  import opened Text
  import opened Fields
  import opened Http
  import Utf8

  datatype ParseError =
    | HeadNeverEnds        // no chunk holds CRLF CRLF: the first loop never ends
    | BadUtf8              // `decode()` raises UnicodeDecodeError
    | StatusLineShape      // fewer than two words on the status line
    | StatusNotInt         // `int(status)` raises ValueError
    | UnknownStatus        // `HTTPStatus(...)` raises ValueError
    | RequestLineShape     // the request line is not exactly three words
    | FieldWithoutColon    // `line.split(":", 1)` does not unpack into two
    | ContentLengthNotInt  // `int(headers['Content-Length'])` raises ValueError
    | BodyNeverEnds        // the body loop waits for bytes that never come
    | ConstructorArity     // `HttpRequest(...)` is given one argument too many

  /** The blank line that ends the head. */
  const Terminator: Bytes := [13, 10, 13, 10]

  /** The codes `http.HTTPStatus` defines (Python 3.9 to 3.12). */
  predicate KnownStatus(code: int) {
    || 100 <= code <= 103
    || 200 <= code <= 208 || code == 226
    || 300 <= code <= 305 || code == 307 || code == 308
    || 400 <= code <= 418 || 421 <= code <= 426 || code == 428 || code == 429
    || code == 431 || code == 451
    || 500 <= code <= 508 || code == 510 || code == 511
  }

  /** `_RECV_BUFFER_SIZE`: no `recv` call returns more bytes than this. */
  const RecvBufferSize: nat := 4096

  /** Chunks that `recv(_RECV_BUFFER_SIZE)` can return. The readers below
      are defined for chunks of any length; this bound is what the lemmas
      about real reads assume. */
  predicate FromRecv(chunks: seq<Bytes>) {
    forall k :: 0 <= k < |chunks| ==> |chunks[k]| <= RecvBufferSize
  }

  /** What `recv` returns on its `k`-th call. */
  function Recv(chunks: seq<Bytes>, k: nat): Bytes {
    if k < |chunks| then chunks[k] else []
  }

  predicate HasTerminator(data: Bytes) {
    Find(data, Terminator) >= 0
  }

  /** The index of the first chunk that holds the terminator: each `recv`
      replaces `data`, so only a terminator inside a single chunk is seen. */
  function HeadChunk(chunks: seq<Bytes>, from: nat := 0): (r: Option<nat>)
    ensures r.Some? ==> from <= r.value < |chunks| && HasTerminator(chunks[r.value])
    ensures forall j :: from <= j < |chunks| && (r.None? || j < r.value) ==>
      !HasTerminator(chunks[j])
    decreases |chunks| - from
  {
    if from >= |chunks| then None
    else if HasTerminator(chunks[from]) then Some(from)
    else HeadChunk(chunks, from + 1)
  }

  /** The head as the parser sees it: the lines of the stripped head text,
      the bytes after the blank line, and the chunks not yet received. */
  datatype Head = Head(lines: seq<string>, body: Bytes, rest: seq<Bytes>)

  /** The head as found in the chunks: see `SplitChunk`. */
  function SplitHead(chunks: seq<Bytes>): (r: Result<Head, ParseError>)
    ensures r.Ok? ==> |r.value.lines| >= 1
    ensures r.Err? ==> r.error == HeadNeverEnds || r.error == BadUtf8
    ensures r.Ok? ==> (|r.value.rest| < |chunks| &&
      var data := chunks[|chunks| - |r.value.rest| - 1];
      var e := |data| - |r.value.body| - 4;
      0 <= e && data == data[..e] + Terminator + r.value.body &&
      (forall j :: 0 <= j < e ==> !OccursAt(data, Terminator, j)) &&
      r.value.rest == chunks[|chunks| - |r.value.rest|..])
  {
    match HeadChunk(chunks)
    case None => Err(HeadNeverEnds)
    case Some(i) => SplitChunk(chunks, i)
  }

  /** The bytes of chunk `i` before its first CRLF CRLF, decoded, stripped
      and split on CRLF; the bytes after it start the body, and the chunks
      after it are still to come. */
  function SplitChunk(chunks: seq<Bytes>, i: nat): (r: Result<Head, ParseError>)
    requires i < |chunks| && HasTerminator(chunks[i])
    ensures r.Ok? ==> |r.value.lines| >= 1
    ensures r.Err? ==> r.error == BadUtf8
    ensures r.Ok? ==> (r.value.rest == chunks[i + 1..] &&
      var data := chunks[i];
      var e := |data| - |r.value.body| - 4;
      0 <= e && data == data[..e] + Terminator + r.value.body &&
      (forall j :: 0 <= j < e ==> !OccursAt(data, Terminator, j)))
  {
    var data := chunks[i];
    var e := Find(data, Terminator);
    assert data == data[..e] + data[e..e + 4] + data[e + 4..];
    match Utf8.Decode(data[..e])
    case None => Err(BadUtf8)
    case Some(text) => Ok(Head(Split(Strip(text), CrLf), data[e + 4..], chunks[i + 1..]))
  }

  /** `lines[0].split(maxsplit=2)` unpacked into status and message: two
      words leave the message empty, three make it the rest of the line,
      anything shorter raises, and the code must be an `HTTPStatus`. */
  function StatusFields(line: string): (r: Result<(nat, string), ParseError>)
    ensures r.Ok? ==> KnownStatus(r.value.0)
    ensures r.Err? ==> r.error == StatusLineShape || r.error == StatusNotInt || r.error == UnknownStatus
  {
    var comps := SplitWhitespace(line, 2);
    if |comps| < 2 then Err(StatusLineShape)
    else
      match ParseInt(comps[1])
      case None => Err(StatusNotInt)
      case Some(code) =>
        if !KnownStatus(code) then Err(UnknownStatus)
        else Ok((code as nat, if |comps| == 3 then comps[2] else ""))
  }

  predicate AllHaveColon(lines: seq<string>) {
    forall k :: 0 <= k < |lines| ==> ':' in lines[k]
  }

  /** The field a line gives: the name before its first ':' kept verbatim,
      the rest stripped. */
  function LineField(line: string): Field
    requires ':' in line
  {
    var parts := SplitOnce(line, ':').value;
    (parts.0, Strip(parts.1))
  }

  /** The header loop: each line goes into the dict in turn, so a later
      duplicate overwrites an earlier one. */
  function CollectFields(lines: seq<string>, acc: Dict): (r: Result<Dict, ParseError>)
    ensures r.Ok? <==> AllHaveColon(lines)
    ensures r.Err? ==> r.error == FieldWithoutColon
  {
    if lines == [] then Ok(acc)
    else if ':' !in lines[0] then Err(FieldWithoutColon)
    else
      var f := LineField(lines[0]);
      AllHaveColonTail(lines);
      CollectFields(lines[1..], Set(acc, f.0, f.1))
  }

  lemma AllHaveColonTail(lines: seq<string>)
    requires lines != [] && ':' in lines[0]
    ensures AllHaveColon(lines) <==> AllHaveColon(lines[1..])
  {
    assert forall k :: 1 <= k < |lines| ==> lines[k] == lines[1..][k - 1];
  }

  /** The fields the header lines carry, one per line. */
  function LineFields(lines: seq<string>): (fs: seq<Field>)
    requires AllHaveColon(lines)
    ensures |fs| == |lines|
  {
    if lines == [] then [] else
      AllHaveColonTail(lines);
      [LineField(lines[0])] + LineFields(lines[1..])
  }

  /** The value a name has after the header loop, found independently of it:
      the value of the last field with that name, or `dflt` when none has it. */
  function LastValue(fs: seq<Field>, name: string, dflt: Option<string>): Option<string> {
    if fs == [] then dflt
    else if fs[|fs| - 1].0 == name then Some(fs[|fs| - 1].1)
    else LastValue(fs[..|fs| - 1], name, dflt)
  }

  /** Taking the first field into the default does not change the last value. */
  lemma {:induction false} LastValueFront(fs: seq<Field>, name: string, dflt: Option<string>)
    requires fs != []
    ensures LastValue(fs, name, dflt) ==
      LastValue(fs[1..], name, if fs[0].0 == name then Some(fs[0].1) else dflt)
    decreases |fs|
  {
    if |fs| > 1 {
      var init := fs[..|fs| - 1];
      assert init[1..] == fs[1..][..|fs[1..]| - 1];
      assert init[0] == fs[0];
      LastValueFront(init, name, dflt);
    }
  }

  /** The header loop keeps, for every name, the stripped value of the last
      line that carries it. */
  lemma {:induction false} CollectFieldsLastWins(lines: seq<string>, acc: Dict, name: string)
    requires AllHaveColon(lines)
    ensures Get(CollectFields(lines, acc).value, name) ==
      LastValue(LineFields(lines), name, Get(acc, name))
    decreases |lines|
  {
    if lines != [] {
      var f := LineField(lines[0]);
      var next := Set(acc, f.0, f.1);
      AllHaveColonTail(lines);
      var fs := LineFields(lines);
      assert fs[0] == f && fs[1..] == LineFields(lines[1..]);
      assert CollectFields(lines, acc) == CollectFields(lines[1..], next);
      assert Get(next, name) == if f.0 == name then Some(f.1) else Get(acc, name);
      CollectFieldsLastWins(lines[1..], next, name);
      LastValueFront(fs, name, Get(acc, name));
    }
  }

  /** The bytes of all the chunks, in order. */
  function Concat(chunks: seq<Bytes>): Bytes {
    if chunks == [] then [] else chunks[0] + Concat(chunks[1..])
  }

  /** The body loop: whole chunks are appended while the body is shorter than
      `n`; `None` when the chunks run out first. */
  function ReadBody(body: Bytes, rest: seq<Bytes>, n: int): (r: Option<Bytes>)
    ensures r.None? <==> |body| + |Concat(rest)| < n
    ensures r.Some? ==> |r.value| >= n && body <= r.value <= body + Concat(rest)
    ensures |body| >= n ==> r == Some(body)
    decreases |rest|
  {
    if |body| >= n then Some(body)
    else if rest == [] then None
    else
      var r := ReadBody(body + rest[0], rest[1..], n);
      assert body + Concat(rest) == (body + rest[0]) + Concat(rest[1..]);
      r
  }

  /** The body the parser ends with: the bytes after the head, grown to the
      declared `Content-Length` when the field is there. */
  function BodyFor(h: Dict, head: Head): Result<Bytes, ParseError> {
    if Has(h, ContentLength) then
      match ParseInt(GetOrEmpty(h, ContentLength))
      case None => Err(ContentLengthNotInt)
      case Some(n) =>
        match ReadBody(head.body, head.rest, n)
        case None => Err(BodyNeverEnds)
        case Some(b) => Ok(b)
    else Ok(head.body)
  }

  /** `get_http_response`: the message it returns, or the exception it raises.
      The body is always `bytes`, and the `HttpResponse` constructor passes
      it through the `body` setter. */
  function ReadResponse(chunks: seq<Bytes>): (r: Result<Message, ParseError>)
    ensures r.Ok? ==> r.value.start.StatusLine? && KnownStatus(r.value.start.status)
    ensures r.Ok? ==> r.value.body.BytesBody?
    ensures r.Ok? ==> r.value.headers == WithBody(r.value.headers, r.value.body)
  {
    match SplitHead(chunks)
    case Err(e) => Err(e)
    case Ok(head) =>
      match StatusFields(head.lines[0])
      case Err(e) => Err(e)
      case Ok((status, msg)) =>
        match CollectFields(head.lines[1..], [])
        case Err(e) => Err(e)
        case Ok(h) =>
          match BodyFor(h, head)
          case Err(e) => Err(e)
          case Ok(b) =>
            WithBodyIdempotent(h, BytesBody(b));
            Ok(Message(StatusLine(status, msg), WithBody(h, BytesBody(b)), BytesBody(b)))
  }

  /** `get_http_request`: whatever arrives, it raises. After the same head,
      field and body handling as for a response, the request line must be
      exactly three words, and then the constructor call passes `version` as
      a fifth argument that `HttpRequest.__init__` does not take. */
  function ReadRequest(chunks: seq<Bytes>): (r: Result<Message, ParseError>)
    ensures r.Err?
    ensures SplitHead(chunks).Ok? && |Words(SplitHead(chunks).value.lines[0])| == 3 &&
      CollectFields(SplitHead(chunks).value.lines[1..], []).Ok? &&
      BodyFor(CollectFields(SplitHead(chunks).value.lines[1..], []).value, SplitHead(chunks).value).Ok?
      ==> r == Err(ConstructorArity)
  {
    match SplitHead(chunks)
    case Err(e) => Err(e)
    case Ok(head) =>
      if |Words(head.lines[0])| != 3 then Err(RequestLineShape)
      else
        match CollectFields(head.lines[1..], [])
        case Err(e) => Err(e)
        case Ok(h) =>
          match BodyFor(h, head)
          case Err(e) => Err(e)
          case Ok(_) => Err(ConstructorArity)
  }

  /** Since each `recv` replaces `data`, the head and its blank line must
      arrive within a single `recv`: the raw head bytes that are read,
      CRLF CRLF included, together with the first body bytes, come to at
      most `RecvBufferSize`, so a longer head is never read. */
  lemma HeadWithinOneRecv(chunks: seq<Bytes>)
    requires FromRecv(chunks) && SplitHead(chunks).Ok?
    ensures var h := SplitHead(chunks).value;
      var data := chunks[|chunks| - |h.rest| - 1];
      var e := |data| - |h.body| - 4;
      0 <= e && |data[..e] + Terminator| + |h.body| <= RecvBufferSize
  {
    var h := SplitHead(chunks).value;
    var i := |chunks| - |h.rest| - 1;
    assert |chunks[i]| <= RecvBufferSize;
  }

  /** The first loop: `recv` until a chunk holds the terminator, then split
      that chunk. */
  method ReceiveHead(chunks: seq<Bytes>) returns (r: Result<Head, ParseError>)
    ensures r == SplitHead(chunks)
  {
    var data := Recv(chunks, 0);
    var k := 1;
    var headerEnd := Find(data, Terminator);
    while headerEnd == -1 && k < |chunks|
      invariant 1 <= k <= |chunks| || (k == 1 && chunks == [])
      invariant data == Recv(chunks, k - 1) && headerEnd == Find(data, Terminator)
      invariant forall j :: 0 <= j < k - 1 ==> !HasTerminator(chunks[j])
      decreases |chunks| - k
    {
      data := Recv(chunks, k);
      k := k + 1;
      headerEnd := Find(data, Terminator);
    }
    if headerEnd == -1 {
      // every further `recv` returns no bytes: the loop would spin for ever
      NoHeadChunk(chunks);
      return Err(HeadNeverEnds);
    }
    HeadChunkAt(chunks, k - 1);
    r := DecodeHead(chunks, k - 1, data, headerEnd);
  }

  /** After the first loop: decode the bytes before the terminator, strip
      and split them, and keep the bytes after it. */
  method DecodeHead(chunks: seq<Bytes>, i: nat, data: Bytes, headerEnd: int) returns (r: Result<Head, ParseError>)
    requires i < |chunks| && data == chunks[i] && headerEnd == Find(data, Terminator) && headerEnd >= 0
    ensures r == SplitChunk(chunks, i)
  {
    var text := Utf8.Decode(data[..headerEnd]);
    if text.None? {
      return Err(BadUtf8);
    }
    var lines := Split(Strip(text.value), CrLf);
    r := Ok(Head(lines, data[headerEnd + 4..], chunks[i + 1..]));
  }

  lemma NoHeadChunk(chunks: seq<Bytes>)
    requires forall j :: 0 <= j < |chunks| ==> !HasTerminator(chunks[j])
    ensures SplitHead(chunks) == Err(HeadNeverEnds)
  {
  }

  lemma HeadChunkAt(chunks: seq<Bytes>, i: nat)
    requires i < |chunks| && HasTerminator(chunks[i])
    requires forall j :: 0 <= j < i ==> !HasTerminator(chunks[j])
    ensures SplitHead(chunks) == SplitChunk(chunks, i)
  {
  }

  /** The header loop. */
  method ReadFields(lines: seq<string>) returns (r: Result<Dict, ParseError>)
    ensures r == CollectFields(lines, [])
  {
    var headers: Dict := [];
    var i := 0;
    while i < |lines|
      invariant 0 <= i <= |lines|
      invariant CollectFields(lines[i..], headers) == CollectFields(lines, [])
    {
      assert lines[i..][1..] == lines[i + 1..];
      var parts := SplitOnce(lines[i], ':');
      if parts.None? {
        return Err(FieldWithoutColon);
      }
      var (name, value) := parts.value;
      headers := Set(headers, name, Strip(value));
      i := i + 1;
    }
    r := Ok(headers);
  }

  /** The body loop: `body += recv(...)` while the body is short. */
  method ReceiveBody(start: Bytes, rest: seq<Bytes>, n: int) returns (r: Option<Bytes>)
    ensures r == ReadBody(start, rest, n)
  {
    var body := start;
    var k := 0;
    while |body| < n
      invariant 0 <= k <= |rest|
      invariant ReadBody(body, rest[k..], n) == ReadBody(start, rest, n)
      decreases |rest| - k
    {
      if k == |rest| {
        // every further `recv` returns no bytes: the loop would spin for ever
        return None;
      }
      assert rest[k..][1..] == rest[k + 1..];
      body := body + rest[k];
      k := k + 1;
    }
    r := Some(body);
  }

  method ReceiveBodyFor(h: Dict, head: Head) returns (r: Result<Bytes, ParseError>)
    ensures r == BodyFor(h, head)
  {
    if !Has(h, ContentLength) {
      return Ok(head.body);
    }
    var n := ParseInt(GetOrEmpty(h, ContentLength));
    if n.None? {
      return Err(ContentLengthNotInt);
    }
    var body := ReceiveBody(head.body, head.rest, n.value);
    if body.None? {
      return Err(BodyNeverEnds);
    }
    r := Ok(body.value);
  }

  /** `get_http_response(socket)`. */
  method GetHttpResponse(chunks: seq<Bytes>) returns (r: Result<HttpMessage, ParseError>)
    ensures r.Err? <==> ReadResponse(chunks).Err?
    ensures r.Err? ==> r.error == ReadResponse(chunks).error
    ensures r.Ok? ==> fresh(r.value) && r.value.Value() == ReadResponse(chunks).value
  {
    var head := ReceiveHead(chunks);
    if head.Err? {
      return Err(head.error);
    }
    var status := StatusFields(head.value.lines[0]);
    if status.Err? {
      return Err(status.error);
    }
    var headers := ReadFields(head.value.lines[1..]);
    if headers.Err? {
      return Err(headers.error);
    }
    var body := ReceiveBodyFor(headers.value, head.value);
    if body.Err? {
      return Err(body.error);
    }
    var response := new HttpMessage.Response(status.value.0, status.value.1, headers.value,
                                             BytesBody(body.value));
    r := Ok(response);
  }

  /** `get_http_request(socket)`: it never returns a request. */
  method GetHttpRequest(chunks: seq<Bytes>) returns (r: Result<HttpMessage, ParseError>)
    ensures r.Err? && r.error == ReadRequest(chunks).error
  {
    var head := ReceiveHead(chunks);
    if head.Err? {
      return Err(head.error);
    }
    if |Words(head.value.lines[0])| != 3 {
      return Err(RequestLineShape);
    }
    var headers := ReadFields(head.value.lines[1..]);
    if headers.Err? {
      return Err(headers.error);
    }
    var body := ReceiveBodyFor(headers.value, head.value);
    if body.Err? {
      return Err(body.error);
    }
    // `HttpRequest(method, url, version, headers, body)`: TypeError
    r := Err(ConstructorArity);
  }
}
