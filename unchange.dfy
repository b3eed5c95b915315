/** The draft client `unchange.py`: its own handshake request and check, the
    heartbeat and close handlers, a consumer that keeps a byte buffer across
    `recv` calls and parses frames from its front, and a producer that stops
    at `/quit`. The frame parser is a parameter that either splits a frame
    off the front of the buffer or reports that the buffer is too short. */
module Unchange {
  import opened Base
  import opened Fields
  import opened Http
  import Utf8
  import Base64
  import opened Text
  import opened WebSocket
  import TestClient

  /** The field name the draft writes for the key (`testclient.py` writes
      `Sec-Websocket-Key`). */
  const DraftKeyName: string := "Sec-WebSocket-Key"
  const DraftVersionName: string := "Sec-WebSocket-Version"

  /** The request fields of `build_handshake_request`, in insertion order:
      neither `Content-Length` nor a subprotocol field under either
      spelling. */
  function DraftFields(host: string, port: int, key: string): (d: Dict)
    ensures |d| == 5
    ensures forall k :: 0 <= k < 5 ==> d[k].0 !in {ContentLength, "Sec-Websocket-Protocol", "Sec-WebSocket-Protocol"}
  {
    var f: seq<Field> :=
      [("Host", host + ":" + TestClient.IntText(port)),
       ("Upgrade", "websocket"),
       ("Connection", "Upgrade"),
       (DraftKeyName, key),
       (DraftVersionName, "13")];
    // The five names have five different lengths, none 14 or 22.
    assert |f[0].0| == 4 && |f[1].0| == 7 && |f[2].0| == 10 && |f[3].0| == 17 && |f[4].0| == 21;
    f
  }

  /** `build_handshake_request`: a fresh key, the fields set one by one in a
      `defaultdict(str)`, and the request `GET /client_type` built from them
      with no body. */
  method BuildHandshakeRequest(host: string, port: int, clientType: TestClient.Role, nonce: Nonce)
    returns (request: Message, key: string)
    ensures key == KeyText(nonce) && |key| == 24
    ensures request.start == RequestLine("GET", "/" + TestClient.RoleName(clientType))
    ensures request.body == NoBody
    ensures request.headers == DraftFields(host, port, key)
  {
    key := KeyText(nonce);
    var headers := FillFields(host, port, key);
    assert WithBody(headers, NoBody) == headers by {
      assert IndexOf(headers, ContentLength) < 0;
    }
    var r := new HttpMessage.Request("GET", "/" + TestClient.RoleName(clientType), headers, NoBody);
    request := r.Value();
  }

  /** The five assignments into the `defaultdict`, in order. */
  method FillFields(host: string, port: int, key: string) returns (headers: Dict)
    ensures headers == DraftFields(host, port, key)
  {
    ghost var f := DraftFields(host, port, key);
    headers := [];
    headers := Assign(headers, "Host", host + ":" + TestClient.IntText(port), f, 0);
    headers := Assign(headers, "Upgrade", "websocket", f, 1);
    headers := Assign(headers, "Connection", "Upgrade", f, 2);
    headers := Assign(headers, DraftKeyName, key, f, 3);
    headers := Assign(headers, DraftVersionName, "13", f, 4);
    assert f[..5] == f;
  }

  /** `headers[name] = value` when `name` is the `k`-th of the fields `f`
      and `headers` holds the ones before it. */
  method Assign(headers: Dict, name: string, value: string, ghost f: Dict, ghost k: nat) returns (r: Dict)
    requires k < |f| && headers == f[..k] && f[k] == (name, value)
    ensures r == f[..k + 1]
  {
    r := Set(headers, name, value);
    SetFresh(f, k);
  }

  /** Setting the next field of a dict, on its fields before it, appends it. */
  lemma SetFresh(f: Dict, k: nat)
    requires k < |f|
    ensures UniqueNames(f[..k]) && Set(f[..k], f[k].0, f[k].1) == f[..k + 1]
  {
    var d: Dict := f[..k];
    assert f[..k + 1] == d + [(f[k].0, f[k].1)];
  }

  /** The draft asks for the same host, upgrade, connection and version as
      `testclient.py`, sends the same key under a differently cased name,
      and asks for no subprotocol. */
  lemma DraftAgainstClientRequest(host: string, port: int, role: TestClient.Role, nonce: Nonce)
    ensures var key := KeyText(nonce);
      var draft := DraftFields(host, port, key);
      var client := TestClient.EstablishHandshake(host, port, role, nonce).0.headers;
      && Get(draft, DraftKeyName) == Get(client, TestClient.KeyName) == Some(key)
      && Get(draft, DraftVersionName) == Get(client, "Sec-Websocket-Version") == Some("13")
      && Get(draft, "Host") == Get(client, "Host")
      && Get(draft, "Upgrade") == Get(client, "Upgrade") == Some("websocket")
      && Get(draft, "Connection") == Get(client, "Connection") == Some("Upgrade")
      && !Has(draft, "Sec-Websocket-Protocol")
      && Get(client, "Sec-Websocket-Protocol") == Some("chat")
  {
    var key := KeyText(nonce);
    var draft := DraftFields(host, port, key);
    var fields := TestClient.HandshakeFields(host, port, key);
    IndexOfFirst(draft, 0, "Host");
    IndexOfFirst(draft, 1, "Upgrade");
    IndexOfFirst(draft, 2, "Connection");
    IndexOfFirst(draft, 3, DraftKeyName);
    IndexOfFirst(draft, 4, DraftVersionName);
    IndexOfFirst(fields, 0, "Host");
    IndexOfFirst(fields, 1, "Upgrade");
    IndexOfFirst(fields, 2, "Connection");
    assert forall k :: 0 <= k < |fields| ==> fields[k].0 != ContentLength;
    assert WithBody(fields, NoBody) == fields;
  }

  /** The accept value the draft expects: the key and the GUID concatenated
      as text, encoded, hashed and base64-encoded. */
  function DraftAccept(key: string, sha1: Bytes -> Digest): string {
    Base64.Encode(sha1(Utf8.Encode(key + Guid)))
  }

  /** `validate_handshake_response`: any status other than 101 is refused;
      otherwise the `Sec-WebSocket-Accept` field, read through the
      `defaultdict` ("" when absent), must equal the expected value. */
  function ValidateHandshakeResponse(response: Message, key: string, sha1: Bytes -> Digest)
    : (r: Result<(), TestClient.ClientError>)
    requires response.start.StatusLine?
    ensures response.start.status != 101 ==> r == Err(TestClient.InvalidHandshake)
    ensures response.start.status == 101 ==>
      (r.Ok? <==> Get(response.headers, TestClient.AcceptName) == Some(DraftAccept(key, sha1)))
  {
    if response.start.status != 101 then Err(TestClient.InvalidHandshake)
    else if GetOrEmpty(response.headers, TestClient.AcceptName) != DraftAccept(key, sha1) then
      Err(TestClient.InvalidAccept)
    else Ok(())
  }

  /** Hashing the text key and the GUID together is hashing the key's bytes
      followed by `MAGIC_VAL`: the draft accepts exactly the responses
      `testclient.py` accepts. */
  lemma DraftValidationAgrees(response: Message, key: string, sha1: Bytes -> Digest)
    requires response.start.StatusLine?
    ensures ValidateHandshakeResponse(response, key, sha1)
         == TestClient.ValidateHandshake(response, Utf8.Encode(key), sha1)
  {
    assert DraftAccept(key, sha1) == AcceptFor(Utf8.Encode(key), sha1) by {
      HashInput(key);
    }
  }

  /** The bytes the draft hashes are the key's bytes followed by
      `MAGIC_VAL`. */
  lemma HashInput(key: string)
    ensures Utf8.Encode(key + Guid) == Utf8.Encode(key) + MagicVal
  {
    MagicValIsGuid();
    Utf8.EncodeAppend(key, Guid);
  }

  /** `handle_heartbeat`: a PING is answered by one PONG with its payload;
      a PONG (and anything else) sends nothing. `ok` is false when
      `sendall` raised on a closed socket. */
  method HandleHeartbeat(conn: Connection, f: Frame) returns (ok: bool)
    modifies conn
    ensures f.opcode == Ping ==> (ok <==> old(conn.closes) == 0)
    ensures f.opcode != Ping ==> ok
    ensures conn.sent == old(conn.sent) + (if f.opcode == Ping && ok then [Frame(Pong, f.data)] else [])
    ensures conn.inbox == old(conn.inbox) && conn.closes == old(conn.closes)
  {
    ok := true;
    if f.opcode == Ping {
      ok := conn.Send(Frame(Pong, f.data));
    }
  }

  /** `handle_close`: one CLOSE with the received payload, then the socket
      is closed; a failed `sendall` raises before the close. */
  method HandleClose(conn: Connection, f: Frame) returns (ok: bool)
    modifies conn
    ensures ok <==> old(conn.closes) == 0
    ensures conn.sent == old(conn.sent) + (if ok then [Frame(Close, f.data)] else [])
    ensures conn.closes == old(conn.closes) + (if ok then 1 else 0)
    ensures conn.inbox == old(conn.inbox)
  {
    ok := conn.Send(Frame(Close, f.data));
    if ok {
      conn.Close();
    }
  }

  /** What `frames.Frame.parse` does with a buffer: a frame and the bytes
      after it, or `PayloadTooShort`. */
  datatype Parse = Parsed(frame: Frame, rest: Bytes) | TooShort

  /** `x` is what is left of `s` after dropping some bytes from its front. */
  predicate IsSuffix(x: Bytes, s: Bytes) {
    |x| <= |s| && s[|s| - |x|..] == x
  }

  /** The parser consumes at least one byte of the buffer. */
  ghost predicate Shrinks(parse: Bytes -> Parse) {
    forall b :: parse(b).Parsed? ==> |parse(b).rest| < |b|
  }

  /** What the parser leaves is the end of the buffer: the frame was taken
      off its front. */
  ghost predicate TakesFront(parse: Bytes -> Parse) {
    forall b :: parse(b).Parsed? ==> IsSuffix(parse(b).rest, b)
  }

  /** How the inner loop of `consumer` ends: the parser needs more bytes
      (the rest stays buffered), a CLOSE was handled, a TEXT payload was
      not UTF-8, or a send raised. */
  datatype DrainEnd = NeedMore(rest: Bytes) | ClosedBy | Unreadable | SendFailed

  /** Frames that are PONGs except the last, which is a PONG or a CLOSE; a
      CLOSE comes last exactly when `closed`. */
  predicate PongsThenClose(sent: seq<Frame>, closed: bool) {
    && (forall k :: 0 <= k < |sent| - 1 ==> sent[k].opcode == Pong)
    && (sent != [] ==> sent[|sent| - 1].opcode in {Pong, Close})
    && (sent != [] && sent[|sent| - 1].opcode == Close <==> closed)
  }

  /** What handling one parsed frame does: the frames sent, the text shown,
      and whether the consumer stops there. */
  datatype Handled = Handled(sent: seq<Frame>, shown: seq<string>, stop: Option<DrainEnd>)

  /** One frame of the inner loop: TEXT is shown, PING and PONG go to
      `handle_heartbeat`, CLOSE to `handle_close` after which the consumer
      returns, any other opcode is skipped. At most a PONG or the final
      CLOSE is sent. */
  function Handle(f: Frame, open: bool): (h: Handled)
    ensures PongsThenClose(h.sent, h.stop == Some(ClosedBy)) && |h.sent| <= 1
    ensures h.stop.Some? ==> !h.stop.value.NeedMore?
    ensures h.stop == Some(ClosedBy) <==> f.opcode == Close && open
  {
    match f.opcode
    case Text =>
      (match Utf8.Decode(f.data)
       case None => Handled([], [], Some(Unreadable))
       case Some(s) => Handled([], [s], None))
    case Ping =>
      if open then Handled([Frame(Pong, f.data)], [], None) else Handled([], [], Some(SendFailed))
    case Close =>
      if open then Handled([Frame(Close, f.data)], [], Some(ClosedBy)) else Handled([], [], Some(SendFailed))
    case _ => Handled([], [], None)
  }

  datatype DrainRun = DrainRun(sent: seq<Frame>, shown: seq<string>, end: DrainEnd)

  /** The inner loop of `consumer` on a buffer: frames are taken from its
      front in order and handled until one stops the consumer or the parser
      reports the buffer too short. */
  function Drain(buf: Bytes, parse: Bytes -> Parse, open: bool): DrainRun
    requires Shrinks(parse)
    decreases |buf|
  {
    match parse(buf)
    case TooShort => DrainRun([], [], NeedMore(buf))
    case Parsed(f, rest) =>
      var h := Handle(f, open);
      if h.stop.Some? then DrainRun(h.sent, h.shown, h.stop.value)
      else
        var d := Drain(rest, parse, open);
        DrainRun(h.sent + d.sent, h.shown + d.shown, d.end)
  }

  /** How `consumer` ends: `recv` returned `b''` (with what was still
      buffered), or the inner loop stopped it. */
  datatype ConsumerEnd = StreamEnded(leftover: Bytes) | Stopped(why: DrainEnd)

  datatype ConsumerRun = ConsumerRun(sent: seq<Frame>, shown: seq<string>, end: ConsumerEnd)

  /** `consumer` with `buf` already buffered and `inbox` still to come: each
      chunk is appended to the buffer, which is then drained. */
  function Consume(inbox: seq<Bytes>, buf: Bytes, parse: Bytes -> Parse, open: bool): ConsumerRun
    requires Shrinks(parse)
    decreases |inbox|
  {
    if inbox == [] || inbox[0] == [] then ConsumerRun([], [], StreamEnded(buf))
    else
      var d := Drain(buf + inbox[0], parse, open);
      if d.end.NeedMore? then
        var r := Consume(inbox[1..], d.end.rest, parse, open);
        ConsumerRun(d.sent + r.sent, d.shown + r.shown, r.end)
      else ConsumerRun(d.sent, d.shown, Stopped(d.end))
  }

  /** The inner loop ends needing more bytes only on a suffix of the buffer
      that the parser cannot split: what was not parsed stays buffered. */
  lemma {:induction false} DrainKeepsRemainder(buf: Bytes, parse: Bytes -> Parse, open: bool)
    requires Shrinks(parse) && TakesFront(parse)
    ensures var d := Drain(buf, parse, open);
      d.end.NeedMore? ==> IsSuffix(d.end.rest, buf) && parse(d.end.rest) == TooShort
    decreases |buf|
  {
    match parse(buf)
    case TooShort =>
    case Parsed(f, rest) =>
      var h := Handle(f, open);
      if h.stop.None? {
        var d := Drain(rest, parse, open);
        assert Drain(buf, parse, open).end == d.end;
        DrainKeepsRemainder(rest, parse, open);
        if d.end.NeedMore? {
          SuffixTrans(d.end.rest, rest, buf);
        }
      }
  }

  /** The bytes `recv` returns before the first `b''`, in order. */
  function Received(inbox: seq<Bytes>): Bytes
    decreases |inbox|
  {
    if inbox == [] || inbox[0] == [] then [] else inbox[0] + Received(inbox[1..])
  }

  /** A suffix of a suffix is a suffix. */
  lemma SuffixTrans(x: Bytes, y: Bytes, z: Bytes)
    requires IsSuffix(x, y) && IsSuffix(y, z)
    ensures IsSuffix(x, z)
  {
    assert z[|z| - |x|..] == z[|z| - |y|..][|y| - |x|..];
  }

  /** Appending the same bytes keeps a suffix a suffix. */
  lemma SuffixAppend(x: Bytes, s: Bytes, t: Bytes)
    requires IsSuffix(x, s)
    ensures IsSuffix(x + t, s + t)
  {
    assert (s + t)[|s + t| - |x + t|..] == s[|s| - |x|..] + t;
  }

  /** When the stream ends, what is left in the buffer is a suffix of all
      the bytes received: frames are only ever taken off its front. */
  lemma {:induction false} LeftoverIsSuffix(inbox: seq<Bytes>, buf: Bytes, parse: Bytes -> Parse, open: bool)
    requires Shrinks(parse) && TakesFront(parse)
    ensures var r := Consume(inbox, buf, parse, open);
      r.end.StreamEnded? ==> IsSuffix(r.end.leftover, buf + Received(inbox))
    decreases |inbox|
  {
    if inbox == [] || inbox[0] == [] {
      assert buf + Received(inbox) == buf;
    } else {
      var d := Drain(buf + inbox[0], parse, open);
      if d.end.NeedMore? {
        var tail := Received(inbox[1..]);
        LeftoverIsSuffix(inbox[1..], d.end.rest, parse, open);
        DrainKeepsRemainder(buf + inbox[0], parse, open);
        LeftoverStep(buf, inbox[0], tail, d.end.rest, Consume(inbox[1..], d.end.rest, parse, open).end);
      }
    }
  }

  /** The step of `LeftoverIsSuffix` on sequences alone. */
  lemma LeftoverStep(buf: Bytes, chunk: Bytes, tail: Bytes, rest: Bytes, end: ConsumerEnd)
    requires IsSuffix(rest, buf + chunk)
    requires end.StreamEnded? ==> IsSuffix(end.leftover, rest + tail)
    ensures end.StreamEnded? ==> IsSuffix(end.leftover, buf + (chunk + tail))
  {
    assert buf + (chunk + tail) == (buf + chunk) + tail;
    SuffixAppend(rest, buf + chunk, tail);
    if end.StreamEnded? {
      SuffixTrans(end.leftover, rest + tail, buf + (chunk + tail));
    }
  }

  /** Once the consumer stops for anything but the end of the stream, later
      chunks are never received: a CLOSE makes it return at once, with
      whatever was still buffered left unprocessed. */
  lemma {:induction false} StopsAtClose(inbox: seq<Bytes>, more: seq<Bytes>, buf: Bytes,
                                        parse: Bytes -> Parse, open: bool)
    requires Shrinks(parse)
    requires Consume(inbox, buf, parse, open).end.Stopped?
    ensures Consume(inbox + more, buf, parse, open) == Consume(inbox, buf, parse, open)
    decreases |inbox|
  {
    assert inbox != [] && inbox[0] != [];
    assert (inbox + more)[0] == inbox[0] && (inbox + more)[1..] == inbox[1..] + more;
    var d := Drain(buf + inbox[0], parse, open);
    if d.end.NeedMore? {
      StopsAtClose(inbox[1..], more, d.end.rest, parse, open);
    }
  }

  /** PONGs followed by such frames keep the shape. */
  lemma PongsThenCloseAppend(a: seq<Frame>, b: seq<Frame>, closed: bool)
    requires PongsThenClose(a, false) && PongsThenClose(b, closed)
    ensures PongsThenClose(a + b, closed)
  {
    var all := a + b;
    forall k | 0 <= k < |all| - 1
      ensures all[k].opcode == Pong
    {
      if k < |a| {
        assert all[k] == a[k];
      } else {
        assert all[k] == b[k - |a|];
      }
    }
    if b == [] {
      assert all == a;
    } else {
      assert all[|all| - 1] == b[|b| - 1];
    }
  }

  /** The inner loop sends PONGs and, last, at most one CLOSE: the one that
      ends it with `ClosedBy`. */
  lemma {:induction false} DrainSends(buf: Bytes, parse: Bytes -> Parse, open: bool)
    requires Shrinks(parse)
    ensures var d := Drain(buf, parse, open); PongsThenClose(d.sent, d.end == ClosedBy)
    decreases |buf|
  {
    match parse(buf)
    case TooShort =>
    case Parsed(f, rest) =>
      var h := Handle(f, open);
      if h.stop.None? {
        DrainSends(rest, parse, open);
        var d := Drain(rest, parse, open);
        PongsThenCloseAppend(h.sent, d.sent, d.end == ClosedBy);
      }
  }

  /** The consumer as a whole sends PONGs and, last, at most one CLOSE: the
      one that ends it after a CLOSE from the peer. */
  lemma {:induction false} ConsumeSends(inbox: seq<Bytes>, buf: Bytes, parse: Bytes -> Parse, open: bool)
    requires Shrinks(parse)
    ensures var r := Consume(inbox, buf, parse, open); PongsThenClose(r.sent, r.end == Stopped(ClosedBy))
    decreases |inbox|
  {
    if inbox != [] && inbox[0] != [] {
      var d := Drain(buf + inbox[0], parse, open);
      DrainSends(buf + inbox[0], parse, open);
      if d.end.NeedMore? {
        var r := Consume(inbox[1..], d.end.rest, parse, open);
        ConsumeSends(inbox[1..], d.end.rest, parse, open);
        PongsThenCloseAppend(d.sent, r.sent, r.end == Stopped(ClosedBy));
      }
    }
  }

  /** The body of the inner loop for one parsed frame. */
  method HandleFrame(conn: Connection, f: Frame) returns (shown: seq<string>, stop: Option<DrainEnd>)
    modifies conn
    ensures var h := Handle(f, old(conn.closes) == 0);
      conn.sent == old(conn.sent) + h.sent && shown == h.shown && stop == h.stop
    ensures conn.closes == old(conn.closes) + (if stop == Some(ClosedBy) then 1 else 0)
    ensures conn.inbox == old(conn.inbox)
  {
    shown, stop := [], None;
    if f.opcode == Text {
      match Utf8.Decode(f.data)
      case None =>
        stop := Some(Unreadable);
      case Some(s) =>
        shown := [s];
    } else if f.opcode == Ping || f.opcode == Pong {
      var ok := HandleHeartbeat(conn, f);
      if !ok {
        stop := Some(SendFailed);
      }
    } else if f.opcode == Close {
      var ok := HandleClose(conn, f);
      stop := Some(if ok then ClosedBy else SendFailed);
    }
  }

  /** The run so far (`sent`, `shown`) followed by the rest of the run is the
      whole run. */
  predicate Follows(whole: DrainRun, sent: seq<Frame>, shown: seq<string>, rest: DrainRun) {
    whole.sent == sent + rest.sent && whole.shown == shown + rest.shown && whole.end == rest.end
  }

  /** A frame the inner loop goes on after. */
  lemma DrainOn(whole: DrainRun, sent: seq<Frame>, shown: seq<string>, buf: Bytes,
                parse: Bytes -> Parse, open: bool)
    requires Shrinks(parse) && parse(buf).Parsed?
    requires Follows(whole, sent, shown, Drain(buf, parse, open))
    requires Handle(parse(buf).frame, open).stop.None?
    ensures var h := Handle(parse(buf).frame, open);
      Follows(whole, sent + h.sent, shown + h.shown, Drain(parse(buf).rest, parse, open))
  {
    var h := Handle(parse(buf).frame, open);
    var d := Drain(parse(buf).rest, parse, open);
    assert Drain(buf, parse, open) == DrainRun(h.sent + d.sent, h.shown + d.shown, d.end);
    Assoc(sent, h.sent, d.sent);
    Assoc(shown, h.shown, d.shown);
  }

  /** A frame that stops the inner loop. */
  lemma DrainStop(whole: DrainRun, sent: seq<Frame>, shown: seq<string>, buf: Bytes,
                  parse: Bytes -> Parse, open: bool)
    requires Shrinks(parse) && parse(buf).Parsed?
    requires Follows(whole, sent, shown, Drain(buf, parse, open))
    requires Handle(parse(buf).frame, open).stop.Some?
    ensures var h := Handle(parse(buf).frame, open);
      whole == DrainRun(sent + h.sent, shown + h.shown, h.stop.value)
  {
  }

  /** The inner loop of `consumer`: frames are parsed off the front of the
      buffer until the parser reports it too short, a CLOSE is handled, or
      an exception ends the thread. */
  method DrainBuffer(conn: Connection, buffer: Bytes, parse: Bytes -> Parse)
    returns (shown: seq<string>, end: DrainEnd)
    requires Shrinks(parse)
    modifies conn
    ensures var d := Drain(buffer, parse, old(conn.closes) == 0);
      conn.sent == old(conn.sent) + d.sent && shown == d.shown && end == d.end
    ensures conn.closes == old(conn.closes) + (if end == ClosedBy then 1 else 0)
    ensures conn.inbox == old(conn.inbox)
  {
    ghost var open := conn.closes == 0;
    ghost var whole := Drain(buffer, parse, open);
    ghost var sent: seq<Frame> := [];
    var buf := buffer;
    shown := [];
    while true
      invariant conn.inbox == old(conn.inbox) && conn.closes == old(conn.closes)
      invariant conn.sent == old(conn.sent) + sent
      invariant Follows(whole, sent, shown, Drain(buf, parse, open))
      decreases |buf|
    {
      match parse(buf)
      case TooShort =>
        end := NeedMore(buf);
        return;
      case Parsed(f, rest) =>
        ghost var h := Handle(f, open);
        var more, stop := HandleFrame(conn, f);
        Assoc(old(conn.sent), sent, h.sent);
        if stop.Some? {
          DrainStop(whole, sent, shown, buf, parse, open);
          shown := shown + more;
          end := stop.value;
          return;
        }
        DrainOn(whole, sent, shown, buf, parse, open);
        sent := sent + h.sent;
        shown := shown + more;
        buf := rest;
    }
  }

  /** The run so far followed by the rest of the run is the whole run. */
  predicate ConsumeFollows(whole: ConsumerRun, sent: seq<Frame>, shown: seq<string>, rest: ConsumerRun) {
    whole.sent == sent + rest.sent && whole.shown == shown + rest.shown && whole.end == rest.end
  }

  /** A chunk after which the consumer receives again. */
  lemma ConsumeOn(whole: ConsumerRun, sent: seq<Frame>, shown: seq<string>, inbox: seq<Bytes>, buf: Bytes,
                  parse: Bytes -> Parse, open: bool)
    requires Shrinks(parse) && inbox != [] && inbox[0] != []
    requires ConsumeFollows(whole, sent, shown, Consume(inbox, buf, parse, open))
    requires Drain(buf + inbox[0], parse, open).end.NeedMore?
    ensures var d := Drain(buf + inbox[0], parse, open);
      ConsumeFollows(whole, sent + d.sent, shown + d.shown, Consume(inbox[1..], d.end.rest, parse, open))
  {
    var d := Drain(buf + inbox[0], parse, open);
    var r := Consume(inbox[1..], d.end.rest, parse, open);
    assert Consume(inbox, buf, parse, open) == ConsumerRun(d.sent + r.sent, d.shown + r.shown, r.end);
    Assoc(sent, d.sent, r.sent);
    Assoc(shown, d.shown, r.shown);
  }

  /** `consumer`: receive a chunk, stop on `b''`, append it to the buffer
      and drain the buffer; a CLOSE or an exception ends it. */
  method RunConsumer(conn: Connection, parse: Bytes -> Parse) returns (shown: seq<string>, end: ConsumerEnd)
    requires Shrinks(parse)
    modifies conn
    ensures var r := Consume(old(conn.inbox), [], parse, old(conn.closes) == 0);
      conn.sent == old(conn.sent) + r.sent && shown == r.shown && end == r.end
    ensures conn.closes == old(conn.closes) + (if end == Stopped(ClosedBy) then 1 else 0)
  {
    ghost var open := conn.closes == 0;
    ghost var whole := Consume(conn.inbox, [], parse, open);
    ghost var sent: seq<Frame> := [];
    var buffer: Bytes := [];
    shown := [];
    while true
      invariant conn.closes == old(conn.closes)
      invariant conn.sent == old(conn.sent) + sent
      invariant ConsumeFollows(whole, sent, shown, Consume(conn.inbox, buffer, parse, open))
      decreases |conn.inbox|
    {
      ghost var inbox := conn.inbox;
      var data := conn.Recv();
      if data == [] {
        assert whole == ConsumerRun(sent + [], shown + [], StreamEnded(buffer));
        assert sent + [] == sent && shown + [] == shown;
        end := StreamEnded(buffer);
        return;
      }
      ghost var d := Drain(buffer + data, parse, open);
      var more, stop := DrainBuffer(conn, buffer + data, parse);
      Assoc(old(conn.sent), sent, d.sent);
      if !stop.NeedMore? {
        assert whole == ConsumerRun(sent + d.sent, shown + d.shown, Stopped(stop));
        shown := shown + more;
        end := Stopped(stop);
        return;
      }
      ConsumeOn(whole, sent, shown, inbox, buffer, parse, open);
      sent := sent + d.sent;
      shown := shown + more;
      buffer := stop.rest;
    }
  }

  /** `message.lower() == "/quit"`, character by character. Only the ASCII
      letters of `/quit` matter: no other character lowers to one of them. */
  predicate IsQuit(line: string) {
    && |line| == 5 && line[0] == '/'
    && LowerChar(line[1]) == 'q' && LowerChar(line[2]) == 'u'
    && LowerChar(line[3]) == 'i' && LowerChar(line[4]) == 't'
  }

  function LowerChar(c: char): char {
    if 'A' <= c <= 'Z' then (c as int + 32) as char else c
  }

  /** The test is the lower-cased line compared with `/quit`. */
  lemma IsQuitLower(line: string)
    ensures IsQuit(line) <==> LowerAscii(line) == "/quit"
  {
    if LowerAscii(line) == "/quit" {
      assert |line| == 5;
      assert forall k :: 0 <= k < 5 ==> LowerAscii(line)[k] == "/quit"[k];
    }
  }

  /** The frames `producer` sends for the lines typed before end of input:
      one TEXT per line up to the first `/quit`, which sends an empty CLOSE
      and stops. */
  function Produce(lines: seq<string>): seq<Frame>
    decreases |lines|
  {
    if lines == [] then []
    else if IsQuit(lines[0]) then [Frame(Close, [])]
    else [Frame(Text, Utf8.Encode(lines[0]))] + Produce(lines[1..])
  }

  /** The position of the first `/quit` line, or -1. */
  function FirstQuit(lines: seq<string>): (q: int)
    ensures -1 <= q < |lines|
    ensures q >= 0 ==> IsQuit(lines[q])
    ensures forall k :: 0 <= k < |lines| && (q < 0 || k < q) ==> !IsQuit(lines[k])
    decreases |lines|
  {
    if lines == [] then -1
    else if IsQuit(lines[0]) then 0
    else
      var q := FirstQuit(lines[1..]);
      if q < 0 then -1 else q + 1
  }

  /** The producer sends the lines before the first `/quit` as TEXT, then
      one empty CLOSE if there is a `/quit`, and nothing more. */
  lemma {:induction false} ProduceShape(lines: seq<string>)
    ensures var q := FirstQuit(lines);
      Produce(lines) == if q < 0 then TestClient.TextFrames(lines)
                        else TestClient.TextFrames(lines[..q]) + [Frame(Close, [])]
    decreases |lines|
  {
    if lines == [] {
    } else if IsQuit(lines[0]) {
      assert TestClient.TextFrames(lines[..0]) == [];
    } else {
      var t := [Frame(Text, Utf8.Encode(lines[0]))];
      var q := FirstQuit(lines[1..]);
      ProduceShape(lines[1..]);
      assert Produce(lines) == t + Produce(lines[1..]);
      if q < 0 {
        assert TestClient.TextFrames(lines) == t + TestClient.TextFrames(lines[1..]);
      } else {
        var init := lines[..q + 1];
        assert init[0] == lines[0] && init[1..] == lines[1..][..q];
        assert TestClient.TextFrames(init) == t + TestClient.TextFrames(lines[1..][..q]);
      }
    }
  }

  /** The producer sends exactly one CLOSE when a `/quit` line is typed,
      none otherwise, and the CLOSE is its last frame. */
  lemma OneCloseIffQuit(lines: seq<string>)
    ensures var fs := Produce(lines);
      && (forall k :: 0 <= k < |fs| - 1 ==> fs[k].opcode == Text)
      && (fs != [] && fs[|fs| - 1].opcode == Close <==> exists k :: 0 <= k < |lines| && IsQuit(lines[k]))
  {
    ProduceShape(lines);
    var q := FirstQuit(lines);
    if q < 0 {
      var fs := TestClient.TextFrames(lines);
      assert fs != [] ==> fs[|fs| - 1].opcode == Text;
    }
  }

  /** `producer`: lines are read until end of input (`EOFError`); a `/quit`
      line sends an empty CLOSE and stops, any other line is sent as a TEXT
      frame. A `sendall` on a closed socket raises at once. */
  method RunProducer(conn: Connection, lines: seq<string>)
    modifies conn
    ensures conn.sent == old(conn.sent) + (if old(conn.closes) == 0 then Produce(lines) else [])
    ensures conn.inbox == old(conn.inbox) && conn.closes == old(conn.closes)
  {
    var i := 0;
    while i < |lines| && !IsQuit(lines[i])
      invariant i <= QuitBound(lines)
      invariant conn.inbox == old(conn.inbox) && conn.closes == old(conn.closes)
      invariant i > 0 ==> conn.closes == 0
      invariant conn.sent == old(conn.sent) + TestClient.TextFrames(lines[..i])
    {
      var ok := conn.Send(Frame(Text, Utf8.Encode(lines[i])));
      if !ok {
        assert i == 0 && lines[..i] == [];
        return;
      }
      TestClient.TextFramesSnoc(lines, i);
      PastPlainLine(lines, i);
      i := i + 1;
    }
    ProduceUpTo(lines, i);
    ghost var before := conn.sent;
    if i < |lines| {
      var _ := conn.Send(Frame(Close, []));
    }
    assert conn.sent == before + (if i < |lines| && conn.closes == 0 then [Frame(Close, [])] else []);
    if conn.closes != 0 {
      assert lines[..i] == [];
    }
  }

  /** How many lines come before the first `/quit` line. */
  function QuitBound(lines: seq<string>): (b: nat)
    ensures b <= |lines|
  {
    var q := FirstQuit(lines);
    if q < 0 then |lines| else q
  }

  /** A line that is not `/quit`, within the bound, is not the last one
      before it. */
  lemma PastPlainLine(lines: seq<string>, i: nat)
    requires i < |lines| && !IsQuit(lines[i]) && i <= QuitBound(lines)
    ensures i + 1 <= QuitBound(lines)
  {
  }

  /** The frames of the lines up to the first `/quit` (or all of them). */
  lemma ProduceUpTo(lines: seq<string>, i: nat)
    requires i <= |lines| && (i == |lines| || IsQuit(lines[i]))
    requires i <= QuitBound(lines)
    ensures Produce(lines) == TestClient.TextFrames(lines[..i]) + (if i < |lines| then [Frame(Close, [])] else [])
  {
    ProduceShape(lines);
    if i == |lines| {
      assert lines[..i] == lines;
    }
  }
}
